/** The preparation of a mod page's "last updated" text in
    `getModMetadata`: split on " @ ", supply a missing year, drop the first
    comma, choose between the day-first and the month-first format, and hand
    "date time" to the date parser. dayjs itself is a parameter. */
module ModDates {
  import opened Wrappers
  import opened Text
  import opened ModChanges

  const DateTimeSeparator := " @ "
  const ModPageUrl := "https://steamcommunity.com/sharedfiles/filedetails"

  /** The two date formats; `Pattern()` is the format string of
      `STANDARD_DATE_FORMAT` and of `STANDARD_DATE_FORMAT_US` respectively. */
  datatype DateFormat = Standard | StandardUS {
    function Pattern(): string {
      match this
      case Standard => "D MMM YYYY h:mma"
      case StandardUS => "MMM D YYYY h:mma"
    }
  }

  /** Four digits start at index `i` of `s`. */
  predicate DigitRunAt(s: string, i: int) {
    0 <= i && i + 4 <= |s| && IsDigit(s[i]) && IsDigit(s[i + 1]) && IsDigit(s[i + 2]) && IsDigit(s[i + 3])
  }

  /** The regular expression `/\d\d\d\d/` matches `s`. */
  predicate HasFourDigitRun(s: string) {
    exists i | 0 <= i <= |s| :: DigitRunAt(s, i)
  }

  /** The regular expression `/^[a-zA-Z]/` matches `s`. */
  predicate StartsWithAsciiLetter(s: string) {
    |s| > 0 && IsAsciiLetter(s[0])
  }

  /** The date part: the text before the first separator. */
  function DateTextOf(dateTimeText: string): string {
    Split(dateTimeText, DateTimeSeparator)[0]
  }

  /** The time part: the text between the first and the second separator,
      or `undefined` when there is no separator. */
  function TimeTextOf(dateTimeText: string): Option<string> {
    var parts := Split(dateTimeText, DateTimeSeparator);
    if |parts| > 1 then Some(parts[1]) else None
  }

  /** What a template literal writes for a possibly undefined string. */
  function Rendered(s: Option<string>): string {
    if s.Some? then s.value else "undefined"
  }

  /** The date text with `", " + year` appended when it carries no year. */
  function WithYear(dateText: string, year: nat): (r: string)
    ensures r == dateText <==> HasFourDigitRun(dateText)
    ensures |r| >= |dateText| && r[..|dateText|] == dateText
    ensures r != dateText ==> r[|dateText|..] == ", " + Decimal(year)
    ensures year >= 1000 ==> HasFourDigitRun(r)
  {
    if HasFourDigitRun(dateText) then dateText
    else
      var y := Decimal(year);
      var r := dateText + ", " + y;
      assert year >= 1000 ==> DigitRunAt(r, |r| - 4) by {
        if year >= 1000 {
          assert r[|r| - 4..] == y[|y| - 4..];
        }
      }
      r
  }

  /** The date text after the year check and the comma removal. */
  function NormalisedDate(dateText: string, year: nat): string {
    ReplaceFirst(WithYear(dateText, year), ",", "")
  }

  /** The format chosen for a normalised date text. */
  function FormatFor(dateText: string): (f: DateFormat)
    ensures f == StandardUS <==> StartsWithAsciiLetter(dateText)
  {
    if StartsWithAsciiLetter(dateText) then StandardUS else Standard
  }

  /** The text handed to the date parser: the date part, a space, and the
      time part as a template literal renders it. */
  function ParseInput(dateTimeText: string, year: nat): string {
    NormalisedDate(DateTextOf(dateTimeText), year) + " " + Rendered(TimeTextOf(dateTimeText))
  }

  /** The statements of `getModMetadata` that rewrite `dateText` and choose
      `dateFormat`, one reassignment at a time. */
  method PrepareDate(dateTimeText: string, year: nat) returns (parseInput: string, format: DateFormat)
    ensures parseInput == ParseInput(dateTimeText, year)
    ensures format == FormatFor(NormalisedDate(DateTextOf(dateTimeText), year))
    ensures format == StandardUS <==> StartsWithAsciiLetter(NormalisedDate(DateTextOf(dateTimeText), year))
  {
    var parts := Split(dateTimeText, DateTimeSeparator);
    var dateText := parts[0];
    var timeText := if |parts| > 1 then Some(parts[1]) else None;
    if !HasFourDigitRun(dateText) {
      dateText := dateText + ", " + Decimal(year);
    }
    dateText := ReplaceFirst(dateText, ",", "");
    format := Standard;
    if StartsWithAsciiLetter(dateText) {
      format := StandardUS;
    }
    parseInput := dateText + " " + Rendered(timeText);
  }

  /** Dropping a character that is not a digit keeps a run of four digits. */
  lemma DropKeepsDigitRun(s: string, i: nat, k: nat)
    requires i < |s| && !IsDigit(s[i]) && DigitRunAt(s, k)
    ensures HasFourDigitRun(s[..i] + s[i + 1..])
  {
    var t := s[..i] + s[i + 1..];
    if k + 4 <= i {
      assert DigitRunAt(t, k);
    } else {
      assert k > i;
      assert DigitRunAt(t, k - 1);
    }
  }

  /** With a four-digit year, the normalised date always carries a year,
      whether the page gave one or the current year was appended. */
  lemma NormalisedHasYear(dateText: string, year: nat)
    requires year >= 1000
    ensures HasFourDigitRun(NormalisedDate(dateText, year))
  {
    CommaRemovalKeepsRun(WithYear(dateText, year));
  }

  lemma CommaRemovalKeepsRun(w: string)
    requires HasFourDigitRun(w)
    ensures HasFourDigitRun(ReplaceFirst(w, ",", ""))
  {
    var k :| 0 <= k <= |w| && DigitRunAt(w, k);
    var found := IndexOf(w, ",");
    if found.Some? {
      var i := found.value;
      assert FirstOccurrence(w, ",", i);
      assert w[i] == w[i..i + 1][0] == ',';
      DropKeepsDigitRun(w, i, k);
      var t := w[..i] + w[i + 1..];
      assert w[..i] + "" + w[i + 1..] == t;
    }
  }

  /** A date text without a year and without a comma becomes
      `dateText + " " + year`. */
  lemma YearAppendedWithoutComma(dateText: string, year: nat)
    requires !HasFourDigitRun(dateText) && ',' !in dateText
    ensures NormalisedDate(dateText, year) == dateText + " " + Decimal(year)
  {
    var d := Decimal(year);
    assert WithYear(dateText, year) == dateText + ", " + d;
    CommaAfterText(dateText, d);
  }

  /** The comma of `", " + d` is the first comma of `text + ", " + d`, so
      removing the first comma leaves `text + " " + d`. */
  lemma CommaAfterText(text: string, d: string)
    requires ',' !in text
    ensures ReplaceFirst(text + ", " + d, ",", "") == text + " " + d
  {
    var w := text + ", " + d;
    assert FirstOccurrence(w, ",", |text|) by {
      forall j | 0 <= j < |text| ensures !OccursAt(w, ",", j) {
        assert w[j] == text[j];
      }
    }
    assert w[..|text|] == text;
    assert w[|text| + 1..] == " " + d;
    assert w[..|text|] + "" + w[|text| + 1..] == text + " " + d;
  }

  /** Exactly one comma disappears from the date text, the first one, when
      there is one. */
  lemma OneCommaRemoved(dateText: string, year: nat)
    ensures var w := WithYear(dateText, year);
      Count(',', NormalisedDate(dateText, year)) == if ',' in w then Count(',', w) - 1 else Count(',', w)
  {
    RemoveFirstCount(WithYear(dateText, year), ',');
  }

  /** The parse input is the normalised date and the time text joined by a
      space; the date part never contains the separator. */
  lemma ParseInputShape(dateTimeText: string, year: nat)
    ensures Absent(DateTextOf(dateTimeText), DateTimeSeparator)
    ensures TimeTextOf(dateTimeText).Some? ==> Absent(TimeTextOf(dateTimeText).value, DateTimeSeparator)
    ensures TimeTextOf(dateTimeText).None? <==> Absent(dateTimeText, DateTimeSeparator)
  {
    SplitPiecesFree(dateTimeText, DateTimeSeparator);
    if Absent(dateTimeText, DateTimeSeparator) {
      assert IndexOf(dateTimeText, DateTimeSeparator).None?;
    } else {
      var i := IndexOf(dateTimeText, DateTimeSeparator).value;
      assert |Split(dateTimeText, DateTimeSeparator)| >= 2;
    }
  }

  /** A date text without a year and without a comma, followed by a time:
      the parser sees the date, the current year and the time, separated
      by single spaces. */
  lemma PreparedWithoutYear(date: string, time: string, year: nat)
    requires '@' !in date && '@' !in time && ',' !in date && !HasFourDigitRun(date)
    ensures ParseInput(date + DateTimeSeparator + time, year) == date + " " + Decimal(year) + " " + time
  {
    SplitAtSeparator(date, time);
    YearAppendedWithoutComma(date, year);
  }

  /** A date text that carries its year loses only its first comma. */
  lemma PreparedWithYear(date: string, time: string, year: nat)
    requires '@' !in date && '@' !in time && HasFourDigitRun(date)
    ensures ParseInput(date + DateTimeSeparator + time, year) == ReplaceFirst(date, ",", "") + " " + time
  {
    SplitAtSeparator(date, time);
  }

  /** "15 Mar @ 2:30pm" in 2024 is read day first as "15 Mar 2024 2:30pm". */
  lemma DayFirstExample(text: string, year: nat)
    requires text == "15 Mar @ 2:30pm" && year == 2024
    ensures ParseInput(text, year) == "15 Mar 2024 2:30pm"
    ensures FormatFor(NormalisedDate(DateTextOf(text), year)) == Standard
  {
    var date, time := "15 Mar", "2:30pm";
    forall i | 0 <= i < |date| ensures date[i] != '@' && date[i] != ',' { }
    forall i | 0 <= i < |time| ensures time[i] != '@' { }
    forall i | 0 <= i <= |date| ensures !DigitRunAt(date, i) { }
    assert text == date + DateTimeSeparator + time;
    PreparedWithoutYear(date, time, year);
    SplitAtSeparator(date, time);
    YearAppendedWithoutComma(date, year);
    var y := Decimal(year);
    Decimal2024(year);
    DayFirstConcat(y);
  }

  /** "Mar 15, 2023 @ 2:30pm" keeps its year, loses its comma and is read
      month first. */
  lemma MonthFirstExample(date: string, time: string, year: nat)
    requires date == "Mar 15, 2023" && time == "2:30pm"
    ensures ParseInput(date + DateTimeSeparator + time, year) == "Mar 15 2023 2:30pm"
    ensures FormatFor(NormalisedDate(DateTextOf(date + DateTimeSeparator + time), year)) == StandardUS
  {
    MonthFirstFacts(date, time);
    PreparedWithYear(date, time, year);
    SplitAtSeparator(date, time);
  }

  lemma MonthFirstFacts(date: string, time: string)
    requires date == "Mar 15, 2023" && time == "2:30pm"
    ensures '@' !in date && '@' !in time && HasFourDigitRun(date)
    ensures ReplaceFirst(date, ",", "") == "Mar 15 2023"
    ensures StartsWithAsciiLetter(ReplaceFirst(date, ",", ""))
    ensures ReplaceFirst(date, ",", "") + " " + time == "Mar 15 2023 2:30pm"
  {
    forall i | 0 <= i < |date| ensures date[i] != '@' { }
    forall i | 0 <= i < |time| ensures time[i] != '@' { }
    assert DigitRunAt(date, 8);
    assert FirstOccurrence(date, ",", 6) by {
      forall j | 0 <= j < 6 ensures !OccursAt(date, ",", j) {
        assert date[j..j + 1][0] == date[j];
      }
      assert date[6..7] == ",";
    }
    assert date[..6] + "" + date[7..] == "Mar 15 2023";
  }

  /** Text the parser cannot read is still prepared, with the year added;
      dayjs then yields an invalid date. */
  lemma UnreadableExample(text: string, year: nat)
    requires text == "??? @ ???" && year == 2024
    ensures ParseInput(text, year) == "??? 2024 ???"
    ensures FormatFor(NormalisedDate(DateTextOf(text), year)) == Standard
  {
    var part := "???";
    UnreadableFacts(part);
    assert text == part + DateTimeSeparator + part;
    PreparedWithoutYear(part, part, year);
    SplitAtSeparator(part, part);
    YearAppendedWithoutComma(part, year);
    Decimal2024(year);
    UnreadableConcat(part, Decimal(year));
  }

  lemma UnreadableFacts(part: string)
    requires part == "???"
    ensures '@' !in part && ',' !in part && !HasFourDigitRun(part)
  {
    forall i | 0 <= i < |part| ensures part[i] != '@' && part[i] != ',' { }
  }

  lemma UnreadableConcat(part: string, y: string)
    requires part == "???" && y == "2024"
    ensures part + " " + y + " " + part == "??? 2024 ???"
    ensures part + " " + y == "??? 2024"
  {
  }

  lemma DayFirstConcat(y: string)
    requires y == "2024"
    ensures "15 Mar" + " " + y + " " + "2:30pm" == "15 Mar 2024 2:30pm"
    ensures "15 Mar" + " " + y == "15 Mar 2024"
  {
  }

  lemma Decimal2024(year: nat)
    requires year == 2024
    ensures Decimal(year) == "2024"
  {
    assert Decimal(2) == "2";
    assert Decimal(20) == "20";
    assert Decimal(202) == "202";
  }

  /** Date and time texts without an `@` split apart at the separator. */
  lemma SplitAtSeparator(date: string, time: string)
    requires '@' !in date && '@' !in time
    ensures DateTextOf(date + DateTimeSeparator + time) == date
    ensures TimeTextOf(date + DateTimeSeparator + time) == Some(time)
  {
    var s := date + DateTimeSeparator + time;
    var i := |date|;
    assert s[i..i + 3] == DateTimeSeparator;
    forall j | 0 <= j < i ensures !OccursAt(s, DateTimeSeparator, j) {
      if j + 1 < i {
        assert s[j + 1] == date[j + 1] && date[j + 1] in date;
      } else {
        assert s[j + 1] == ' ';
      }
      assert s[j + 1] != '@';
      assert s[j..j + 3][1] == s[j + 1];
    }
    assert s[i + 3..] == time;
    forall j | 0 <= j <= |time| ensures !OccursAt(time, DateTimeSeparator, j) {
      if j + 3 <= |time| {
        assert time[j + 1] in time;
        assert time[j..j + 3][1] == time[j + 1];
      }
    }
    SplitInTwo(s, DateTimeSeparator, i);
  }

  /** A fetched detail page: the title text and the "last updated" text. */
  datatype DetailPage = DetailPage(titleText: string, dateTimeText: string)

  /** What `getModMetadata` resolves to. */
  datatype Meta = Meta(title: string, url: string, lastUpdated: Timestamp)

  /** The item's page address: the detail-page prefix, `/?id=` and the id. */
  function ModUrl(id: string): (url: string)
    ensures |url| >= |ModPageUrl + "/?id="| && url[..|ModPageUrl + "/?id="|] == ModPageUrl + "/?id="
    ensures url[|ModPageUrl + "/?id="|..] == id
  {
    ModPageUrl + "/?id=" + id
  }

  /** Distinct ids have distinct page addresses. */
  lemma ModUrlInjective(a: string, b: string)
    requires ModUrl(a) == ModUrl(b)
    ensures a == b
  {
    assert a == ModUrl(a)[|ModPageUrl + "/?id="|..];
  }

  /** `getModMetadata(id)` given the outcome of the page request, the current
      year and dayjs's parser. A failed request rejects; the rejection here
      carries the request's error, not the function's own message, which
      `scrapePage` replaces with its own anyway. */
  function ModMetadata<E>(id: string, page: Result<DetailPage, E>, year: nat,
                          parse: (string, DateFormat) -> Timestamp): (r: Result<Meta, E>)
    ensures r.Ok? <==> page.Ok?
    ensures r.Ok? ==> r.value.title == page.value.titleText && r.value.url == ModUrl(id)
    ensures r.Ok? ==> r.value.lastUpdated == parse(ParseInput(page.value.dateTimeText, year),
                                                   FormatFor(NormalisedDate(DateTextOf(page.value.dateTimeText), year)))
  {
    match page
    case Err(e) => Err(e)
    case Ok(p) =>
      var d := NormalisedDate(DateTextOf(p.dateTimeText), year);
      Ok(Meta(p.titleText, ModUrl(id), parse(ParseInput(p.dateTimeText, year), FormatFor(d))))
  }
}
