# spiffo-bot mod poller, modelled in Dafny

spiffo-bot watches a Steam Workshop favourites listing for Project Zomboid
mods and tells a Discord channel when one of them is updated. Every five
minutes `poll` scrapes the listing page and then each mod's detail page,
one request per second. It compares the resulting snapshot with the one it
kept from an earlier cycle and, when mods changed, posts an announcement.
A second Discord handler relays server notifications from one channel to
another, with a role mention trimmed.

This project models the deterministic core of `index.js` and `discord.js`:

- `wrappers.dfy` (`Wrappers`): `Option` for `null`/`undefined`, `Result` for a rejected promise.
- `text.dfy` (`Text`): the JavaScript string operations the core uses.
  These are `replace` with a string pattern (first occurrence only) and
  `split`, both built on a first-occurrence search (`IndexOf`), with `join`
  as the inverse of `split`, and the decimal text of a number in a template
  literal.
- `mods.dfy` (`ModChanges`): the mod record and `checkForModChanges`.
  That function is lodash `differenceWith` with an id-and-instant comparator.
  A parsed date is `At(instant)` or `InvalidDate`. dayjs `isSame` compares
  `valueOf()`, which is NaN for an invalid date, so an invalid date equals
  nothing.
- `dates.dfy` (`ModDates`): how `getModMetadata` prepares the "last updated"
  text. It splits on `" @ "`, appends `", " + year` when there is no run of
  four digits, removes the first comma, and picks the US format when the
  text starts with an ASCII letter. `PrepareDate` performs these
  reassignments one at a time. The record `getModMetadata` resolves to is
  `ModMetadata`. The current year and the dayjs parser are parameters.
- `scrape.dfy` (`Scrape`): `scrapePage` zips the listing ids with the
  fetched metadata by position. Because of `Promise.all` and the rethrow,
  one failed request fails the whole page.
- `poller.dfy` (`Polling`): the `poll` closure. The class `Poller` holds
  `modsList`, and `Poll` performs one cycle. `PollStep` is the function that
  specifies a cycle.
- `discord.dfy` (`DiscordMessages`): the announcement built by
  `sendModUpdates`, and the `messageCreate` relay.

Behaviour of the code that the model keeps:

- The code has no carry-forward of previous records: a failed item fails the
  whole cycle, and the retained list stays as it was.
- The code builds no placeholder records for failed items.
- Records with an unparsed date are not filtered out of the change set. They
  are reported on every cycle (`InvalidDateNotifiesEveryCycle`).
- On the first cycle the snapshot is adopted only when the change set is
  non-empty. An empty first listing therefore keeps `modsList` null
  (`FirstCycleAdopts`).
- The code sends no reminder broadcasts.
- The one observable place the model departs from the code is the announcement text
  `Poll` builds: it links each mod to its page, where the code prints
  "(undefined)" (see Findings and Left out).

## Model

| member | source | states |
|---|---|---|
| `Text.IndexOf` | index.js:138 | the result is absent exactly when the pattern never occurs, and otherwise it is the first index where it occurs |
| `Text.ReplaceFirst` | index.js:138 | `String.replace` with a string pattern: the text is unchanged when the pattern is absent; otherwise only the first occurrence is replaced |
| `Text.SplitJoin` | index.js:130 | joining the pieces of `split` with the separator gives back the original text |
| `Text.SplitPiecesFree` | index.js:130 | no piece produced by `split` contains the separator |
| `Text.Decimal` | index.js:134 | the year renders as a non-empty run of digits, at least four digits long for a year of 1000 or more, with no leading zero |
| `Text.DecimalRoundTrip` | index.js:134 | reading the rendered digits back gives the year |
| `Text.RemoveFirstCount` | index.js:138 | removing the first occurrence of a character removes exactly one occurrence when there is one, and none otherwise |
| `ModChanges.Difference` | index.js:72-78 | no reported record matches, by id and instant, a record of the previous list, and the change set is never longer than the new list |
| `ModChanges.DifferenceMembership` | index.js:73-75 | a record is in the change set if and only if it is in the new list and no previous record has its id and an equal valid timestamp |
| `ModChanges.DifferenceMultiplicity` | index.js:73 | each record is reported as many times as it occurs in the new list when it is unmatched, and never when it is matched, so duplicates are kept |
| `ModChanges.DifferenceAppend` | index.js:73 | the change set follows the new list's order: diffing a concatenation gives the concatenation of the two diffs |
| `ModChanges.CheckForModChanges` | index.js:72-78 | the change set is no longer than the new list, and when a previous list exists no reported record is matched by it (same id, same instant) |
| `ModChanges.DifferenceFromNothing` | index.js:73 | against an empty previous list, the change set is the whole new list |
| `ModChanges.FirstCheckReportsAll` | index.js:37 | with `modsList` null on the first cycle, the change set is the whole new list |
| `ModChanges.DifferenceOfKnown` | index.js:73-75 | if every new record has a previous match, the change set is empty |
| `ModChanges.SelfDifference` | index.js:73-75 | diffing a list against itself gives nothing when every timestamp is valid |
| `ModChanges.InvalidAlwaysReported` | index.js:74 | a record with an invalid date is always in the change set, even when the previous list holds the same record |
| `ModChanges.DifferenceDisjoint` | index.js:73-75 | when no id is shared, the change set is the whole new list |
| `ModDates.WithYear` | index.js:133-135 | the text is returned unchanged if and only if it already contains a four-digit run; otherwise exactly `", "` and the year's digits are appended to it; for a year of 1000 or more the result always contains a four-digit run |
| `ModDates.FormatFor` | index.js:142-146 | the US format is chosen if and only if the date text starts with an ASCII letter |
| `ModDates.PrepareDate` | index.js:130-146 | the reassignments produce the parse input `date + " " + time`, and the US format exactly when the normalised date starts with an ASCII letter |
| `ModDates.NormalisedHasYear` | index.js:133-138 | after the year check and the comma removal, the date text still contains a four-digit run |
| `ModDates.CommaRemovalKeepsRun` | index.js:138 | removing the first comma never breaks a run of four digits |
| `ModDates.YearAppendedWithoutComma` | index.js:133-138 | a date text with no year and no comma becomes `date + " " + year` |
| `ModDates.OneCommaRemoved` | index.js:138 | the normalised date has exactly one comma fewer than the text with the year appended, or the same number when that text has none |
| `ModDates.ParseInputShape` | index.js:130 | neither the date part nor the time part contains `" @ "`; the time part is `undefined` exactly when the text has no separator |
| `ModDates.SplitAtSeparator` | index.js:130 | when the date and time texts contain no `@`, splitting `date @ time` gives back exactly those two texts |
| `ModDates.PreparedWithoutYear` | index.js:130-151 | for a date without a year or comma, the parser sees the date, the year and the time separated by single spaces |
| `ModDates.PreparedWithYear` | index.js:130-151 | for a date that carries a year, the parser sees the date with its first comma removed, a space, and the time |
| `ModDates.DayFirstExample` | index.js:130-151 | "15 Mar @ 2:30pm" in 2024 becomes "15 Mar 2024 2:30pm" and uses the day-first format |
| `ModDates.MonthFirstExample` | index.js:130-151 | "Mar 15, 2023 @ 2:30pm" becomes "Mar 15 2023 2:30pm" and uses the month-first format |
| `ModDates.UnreadableExample` | index.js:130-151 | "??? @ ???" in 2024 becomes "??? 2024 ???" with the day-first format; it is prepared, not rejected |
| `ModDates.ModUrl` | index.js:122 | the page address is the fixed prefix followed by the id, and the id can be read back from it |
| `ModDates.ModUrlInjective` | index.js:122 | distinct ids have distinct page addresses |
| `ModDates.ModMetadata` | index.js:120-158 | the metadata resolves exactly when the page request succeeds; it carries the page title, the id's address, and the parser's result for the prepared text and format |
| `Scrape.Zip` | index.js:96-100 | one record per id, in listing order; record i has id `ids[i]` and the title and date of metadata i |
| `Scrape.Values` | index.js:94 | when all requests succeed, their values come back in request order |
| `Scrape.ScrapePage` | index.js:79-106 | a snapshot exists exactly when the listing and every item request succeeded; it pairs id i with metadata i; otherwise the error names the page |
| `Scrape.OneFailureFailsPage` | index.js:94 | a single failed item request fails the whole page |
| `Polling.PollStep` | index.js:43-63 | one cycle: the retained list either stays as it was or becomes the cycle's snapshot; a notification needs a successful cycle, a non-null retained list and a non-empty change set, and carries only records the retained list does not match |
| `Polling.Poller.constructor` | index.js:37 | the retained list starts as null |
| `Polling.Poller.Poll` | index.js:41-69 | the new state and the notification are those of `PollStep`; a notification needs an earlier list and carries only unmatched records; the message is the corrected announcement for those records, each linked to its page (the code's own text is `UpdatesAsWritten`, see Left out) |
| `Polling.NotifiesExactly` | index.js:47-60 | a notification is sent if and only if the cycle succeeded, the retained list is non-null and the change set is non-empty; it carries exactly the change set |
| `Polling.RetainsExactly` | index.js:47-67 | the retained list becomes the new snapshot exactly when the change set is non-empty; a failed cycle or an empty change set leaves it unchanged |
| `Polling.FirstCycleAdopts` | index.js:37-63 | the first cycle never notifies; it adopts a non-empty snapshot and leaves the list null after an empty one |
| `Polling.NotifiedAreTheChanges` | index.js:45-59 | a record is notified if and only if it is in the new snapshot and has no same-id, same-instant record in the retained list |
| `Polling.RepeatIsQuiet` | index.js:45-63 | polling the same fully-dated snapshot twice in a row notifies nothing the second time and keeps the state |
| `Polling.InvalidDateNotifiesEveryCycle` | index.js:45-62 | once a list is retained, a snapshot holding a mod with an unparsed date notifies that mod and is adopted on every cycle |
| `Polling.TwoCycles` | index.js:41-69 | a first cycle over ids 1 and 2 adopts both silently; a second cycle where only id 2's date moved notifies exactly id 2's record |
| `DiscordMessages.Header` | discord.js:58-62 | with exactly one update the header reads "This mod requires update:"; otherwise it reads "These mods require update:"; both follow the activity banner |
| `DiscordMessages.BuildUpdateMessage` | discord.js:58-66 | the loop builds the header followed by one bullet per update; the message begins with "**Mod activity detected.**" and a blank line |
| `DiscordMessages.BulletsAppend` | discord.js:64-66 | the bullets of two lists of updates placed one after the other are the bullets of the first list followed by those of the second |
| `DiscordMessages.BulletSegment` | discord.js:64-66 | the k-th bullet segment is `"\n- " + title + " (" + url + ")"` of the k-th update, between the bullets before it and those after it |
| `DiscordMessages.LineCount` | discord.js:58-66 | when titles and urls have no line breaks, the message has three line breaks plus one per update |
| `DiscordMessages.UpdatesAsWritten` | index.js:96-100 | the records handed to `sendModUpdates` carry no url, so every update's url renders as "undefined" |
| `DiscordMessages.UrlLostAsWritten` | discord.js:65 | as written, a one-mod announcement reads the title followed by "(undefined)" |
| `DiscordMessages.UpdatesFor` | index.js:122 | the corrected updates pair each mod's title with the address of its page |
| `DiscordMessages.UrlKeptCorrected` | discord.js:64-66 | with the corrected updates, the k-th bullet links to the k-th mod's page, and the id can be read back from the link |
| `DiscordMessages.Relay` | discord.js:35-47 | a message is relayed if and only if it comes from the server-notifications channel; the relayed text is the content with the first `<@&ROLE> ` removed, or the content unchanged when there is no mention |
| `DiscordMessages.RelayRestores` | discord.js:41-44 | the relayed text is shorter by the mention, and putting the mention back where it was first found restores the content |

## Findings

| source | as written | input that shows it | evidently intended | confidence | as-written member | corrected member |
|---|---|---|---|---|---|---|
| discord.js:65 with index.js:96-100 | each bullet interpolates `modUpdate.url`, but the records in the change set are built with only `id`, `title` and `lastUpdated`, so the url renders as "undefined" | any change set, e.g. one mod titled "X": the bullet reads `- X (undefined)` | the bullet links to the mod page `MOD_PAGE_URL + "/?id=" + id` that `getModMetadata` builds (index.js:122, index.js:150) | high; not executed | `DiscordMessages.UrlLostAsWritten` | `DiscordMessages.UrlKeptCorrected` |

`Polling.Poller.Poll` uses the corrected updates when it builds its
message. `DiscordMessages.UpdatesAsWritten` keeps the as-written behaviour
for comparison.

## Left out

- Polling.Poller.Poll: its message is the corrected announcement (`UpdateMessage(UpdatesFor(...))`, every bullet linked to `ModUrl(id)`), not the text the code posts, whose bullets read "(undefined)" (index.js:59, discord.js:65); the as-written text is `UpdateMessage(UpdatesAsWritten(...))`, shown by `UrlLostAsWritten`.
- ModDates.ModMetadata: a failed page request rejects with the request's own error, not with the function's message "Something wrong happened trying to scrape mod" and the id (index.js:153-156); `scrapePage` replaces either error with its own page-level message (index.js:101-105), so `ScrapePage` is unaffected.
- HTTP requests, the cookie header and the listing URL (index.js:16-17, 26-28, 81, 124). Request outcomes are inputs: the listing as `Result<seq<string>>`, each detail page as a `Result`.
- HTML extraction with cheerio (`getModAppIds`, the title and date selectors, index.js:108-118, 126-140). The extracted ids and texts are inputs.
- dayjs parsing, time zones and formatting (index.js:11-14, 151). The parser is a function parameter of `ModMetadata`, and a parsed date is `At(instant)` or `InvalidDate`.
- `getCurrentYear` (index.js:160-162) reads the clock, so the year is a parameter.
- `PromiseThrottle` rate limiting and the concurrency of `Promise.all` (index.js:85-94). Only the all-or-nothing outcome is modelled.
- The `setTimeout` re-arming (index.js:67). The loop continues because the caller invokes `Poll` again after every cycle, including failed ones. The five-minute interval is not modelled.
- Logging through `log` and `console` (index.js:49-57, 65, 164-168). It has no effect on state.
- `main`'s startup (index.js:30-39). index.js imports `initializeBot` while discord.js exports `initializeBots`.
- Discord clients, `login`, `channels.fetch` and `send` (discord.js:11-17, 37-39, 46, 50-51, 56, 68). The model produces the text that would be sent.
- The ready counter of `initializeBots` (discord.js:19-33). It is event-driven session setup.
- Loading of `config.json` (discord.js:3-9). The channel and role ids are parameters of `Relay`.
- The message event's other fields. A relayed message is its channel id and content.
