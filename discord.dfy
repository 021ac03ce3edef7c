/** The text the Discord bot sends: the update announcement built by
    `sendModUpdates`, and the relay of server notifications with the role
    mention trimmed. Clients, logins and channel lookups are not modelled. */
module DiscordMessages {
  import opened Wrappers
  import opened Text
  import opened ModChanges
  import opened ModDates

  /** One entry of `modUpdates`: what the bullet reads of it. */
  datatype Update = Update(title: string, url: string)

  const ActivityBanner := "**Mod activity detected.**\n\n"

  /** The message up to the bullets, worded for `n` updates. */
  function Header(n: nat): (h: string)
    ensures n == 1 ==> h == ActivityBanner + "This mod requires update:\n"
    ensures n != 1 ==> h == ActivityBanner + "These mods require update:\n"
  {
    ActivityBanner + (if n == 1 then "This" else "These") + " mod" + (if n == 1 then "" else "s")
      + " require" + (if n == 1 then "s" else "") + " update:\n"
  }

  /** What `message +=` adds for one update. */
  function Bullet(u: Update): string {
    "\n- " + u.title + " (" + u.url + ")"
  }

  /** The bullets of `updates`, in order. */
  function Bullets(updates: seq<Update>): string {
    if updates == [] then "" else Bullets(updates[..|updates| - 1]) + Bullet(updates[|updates| - 1])
  }

  /** The whole announcement. */
  function UpdateMessage(updates: seq<Update>): string {
    Header(|updates|) + Bullets(updates)
  }

  /** `sendModUpdates` starts from the header and appends one bullet per
      update, in order. */
  method BuildUpdateMessage(updates: seq<Update>) returns (message: string)
    ensures message == UpdateMessage(updates)
    ensures message[..|ActivityBanner|] == ActivityBanner
  {
    message := Header(|updates|);
    var i := 0;
    while i < |updates|
      invariant 0 <= i <= |updates|
      invariant message == Header(|updates|) + Bullets(updates[..i])
    {
      assert updates[..i + 1][..i] == updates[..i];
      message := message + Bullet(updates[i]);
      i := i + 1;
    }
    assert updates[..i] == updates;
  }

  lemma {:induction false} BulletsAppend(a: seq<Update>, b: seq<Update>)
    ensures Bullets(a + b) == Bullets(a) + Bullets(b)
    decreases |b|
  {
    if b == [] {
      assert a + b == a;
    } else {
      var c, init := a + b, b[..|b| - 1];
      assert c[..|c| - 1] == a + init && c[|c| - 1] == b[|b| - 1];
      assert Bullets(c) == Bullets(a + init) + Bullet(b[|b| - 1]);
      assert Bullets(b) == Bullets(init) + Bullet(b[|b| - 1]);
      BulletsAppend(a, init);
    }
  }

  /** The bullets are one segment per update, in input order: the k-th
      segment is the k-th update's bullet. */
  lemma BulletSegment(updates: seq<Update>, k: nat)
    requires k < |updates|
    ensures Bullets(updates) == Bullets(updates[..k]) + Bullet(updates[k]) + Bullets(updates[k + 1..])
  {
    var pre, post := updates[..k], updates[k + 1..];
    Decompose(updates, k);
    BulletsAppend(pre + [updates[k]], post);
    BulletsSnoc(pre, updates[k]);
  }

  lemma Decompose<T>(s: seq<T>, k: nat)
    requires k < |s|
    ensures s == (s[..k] + [s[k]]) + s[k + 1..]
  {
  }

  lemma BulletsSnoc(a: seq<Update>, u: Update)
    ensures Bullets(a + [u]) == Bullets(a) + Bullet(u)
  {
    assert (a + [u])[..|a|] == a;
  }

  /** With titles and urls free of line breaks, the announcement has the
      three line breaks of its header and one per update, so each update
      takes exactly one line. */
  lemma LineCount(updates: seq<Update>)
    requires forall k | 0 <= k < |updates| :: '\n' !in updates[k].title && '\n' !in updates[k].url
    ensures Count('\n', UpdateMessage(updates)) == 3 + |updates|
  {
    HeaderLines(|updates|);
    BulletLines(updates);
    CountAppend('\n', Header(|updates|), Bullets(updates));
  }

  lemma HeaderLines(n: nat)
    ensures Count('\n', Header(n)) == 3
  {
    var title := "**Mod activity detected.**";
    var wording := if n == 1 then "This mod requires update:" else "These mods require update:";
    assert Header(n) == title + "\n\n" + (wording + "\n");
    LiteralsFree(n == 1);
    ThreeBreaks(title, wording);
  }

  lemma LiteralsFree(singular: bool)
    ensures '\n' !in "**Mod activity detected.**"
    ensures '\n' !in if singular then "This mod requires update:" else "These mods require update:"
  {
    var title := "**Mod activity detected.**";
    forall i | 0 <= i < |title| ensures title[i] != '\n' { }
    var wording := if singular then "This mod requires update:" else "These mods require update:";
    forall i | 0 <= i < |wording| ensures wording[i] != '\n' { }
  }

  /** A line, a blank line and a second line end in three line breaks. */
  lemma ThreeBreaks(a: string, b: string)
    requires '\n' !in a && '\n' !in b
    ensures Count('\n', a + "\n\n" + (b + "\n")) == 3
  {
    CountAppend('\n', a + "\n\n", b + "\n");
    CountAppend('\n', a, "\n\n");
    CountAppend('\n', b, "\n");
    CountAbsent('\n', a);
    CountAbsent('\n', b);
    assert "\n\n"[1..] == "\n";
  }

  lemma {:induction false} BulletLines(updates: seq<Update>)
    requires forall k | 0 <= k < |updates| :: '\n' !in updates[k].title && '\n' !in updates[k].url
    ensures Count('\n', Bullets(updates)) == |updates|
  {
    if updates != [] {
      var u := updates[|updates| - 1];
      BulletLines(updates[..|updates| - 1]);
      CountAppend('\n', Bullets(updates[..|updates| - 1]), Bullet(u));
      CountAppend('\n', "\n- " + u.title + " (" + u.url, ")");
      CountAppend('\n', "\n- " + u.title + " (", u.url);
      CountAppend('\n', "\n- " + u.title, " (");
      CountAppend('\n', "\n- ", u.title);
      CountAppend('\n', "\n", "- ");
      NoLineBreak(u.title);
      NoLineBreak(u.url);
    }
  }

  lemma NoLineBreak(s: string)
    requires '\n' !in s
    ensures Count('\n', s) == 0
  {
    CountAbsent('\n', s);
  }

  /** The records the poller hands to `sendModUpdates`, as the code is
      written: snapshot records have no `url`, so every bullet shows the
      text "undefined". */
  function UpdatesAsWritten(mods: seq<Mod>): (updates: seq<Update>)
    ensures |updates| == |mods|
    ensures forall k | 0 <= k < |mods| :: updates[k] == Update(mods[k].title, "undefined")
  {
    if mods == [] then [] else [Update(mods[0].title, "undefined")] + UpdatesAsWritten(mods[1..])
  }

  /** As written, a one-mod announcement links to nothing. */
  lemma UrlLostAsWritten(m: Mod)
    ensures UpdateMessage(UpdatesAsWritten([m])) == ActivityBanner + "This mod requires update:\n\n- " + m.title + " (undefined)"
  {
    var us := UpdatesAsWritten([m]);
    assert us == [Update(m.title, "undefined")];
    assert us[..0] == [];
    assert Bullets(us) == "\n- " + m.title + " (undefined)";
  }

  /** The updates with each mod's page address, the one `getModMetadata`
      builds from the id. */
  function UpdatesFor(mods: seq<Mod>): (updates: seq<Update>)
    ensures |updates| == |mods|
    ensures forall k | 0 <= k < |mods| :: updates[k] == Update(mods[k].title, ModUrl(mods[k].id))
  {
    if mods == [] then [] else [Update(mods[0].title, ModUrl(mods[0].id))] + UpdatesFor(mods[1..])
  }

  /** With the corrected updates, the k-th bullet links to the k-th mod's
      page, from which its id can be read back. */
  lemma UrlKeptCorrected(mods: seq<Mod>, k: nat)
    requires k < |mods|
    ensures var updates := UpdatesFor(mods);
      Bullets(updates) == Bullets(updates[..k]) + Bullet(Update(mods[k].title, ModUrl(mods[k].id))) + Bullets(updates[k + 1..])
    ensures ModUrl(mods[k].id)[|ModPageUrl + "/?id="|..] == mods[k].id
  {
    BulletSegment(UpdatesFor(mods), k);
  }

  /** A message posted in a channel. */
  datatype ChatMessage = ChatMessage(channelId: string, content: string)

  /** The role mention the relay removes, `<@&ROLE> `. */
  function Mention(roleId: string): string {
    "<@&" + roleId + "> "
  }

  /** The `messageCreate` handler: a message from the server-notifications
      channel is relayed with its first role mention removed; any other
      message is ignored. */
  function Relay(message: ChatMessage, notificationsChannelId: string, roleId: string): (r: Option<string>)
    ensures r.Some? <==> message.channelId == notificationsChannelId
    ensures r.Some? && Absent(message.content, Mention(roleId)) ==> r.value == message.content
    ensures r.Some? ==> forall i :: FirstOccurrence(message.content, Mention(roleId), i) ==>
      r.value == message.content[..i] + message.content[i + |Mention(roleId)|..]
  {
    if message.channelId == notificationsChannelId then
      Some(ReplaceFirst(message.content, Mention(roleId), ""))
    else None
  }

  /** Putting the mention back where it was first found restores the
      original content, and the relayed text is shorter by the mention. */
  lemma RelayRestores(message: ChatMessage, roleId: string, i: nat)
    requires FirstOccurrence(message.content, Mention(roleId), i)
    ensures var r := Relay(message, message.channelId, roleId).value;
      |r| == |message.content| - |Mention(roleId)| && r[..i] + Mention(roleId) + r[i..] == message.content
  {
    CutRestores(message.content, Mention(roleId), i);
  }

  lemma CutRestores(c: string, m: string, i: nat)
    requires OccursAt(c, m, i)
    ensures var r := c[..i] + c[i + |m|..];
      |r| == |c| - |m| && r[..i] + m + r[i..] == c
  {
    var r := c[..i] + c[i + |m|..];
    assert r[..i] == c[..i] && r[i..] == c[i + |m|..];
    AroundOccurrence(c, m, i);
  }
}
