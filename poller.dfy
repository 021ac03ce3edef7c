/** The `poll` closure of `main`: it owns `modsList`, the snapshot it last
    adopted, and on each cycle diffs the freshly scraped snapshot against it.
    The timer that re-arms `poll` after every cycle, success or failure, is
    the caller that invokes `Poll` again; it is not a member here. */
module Polling {
  import opened Wrappers
  import opened ModChanges
  import opened Scrape
  import opened DiscordMessages

  /** The state after one cycle and the change set sent to Discord, if any. */
  datatype Outcome = Outcome(modsList: Option<seq<Mod>>, notified: Option<seq<Mod>>)

  /** One cycle of `poll` from `modsList`, given what `scrapePage(1)`
      produced. A cycle that throws is caught and changes nothing. */
  function PollStep(modsList: Option<seq<Mod>>, cycle: Result<seq<Mod>, ScrapeError>): (r: Outcome)
    ensures r.modsList == modsList || (cycle.Ok? && r.modsList == Some(cycle.value))
    ensures r.notified.Some? ==> modsList.Some? && cycle.Ok? && r.notified.value != []
    ensures r.notified.Some? ==> forall k | 0 <= k < |r.notified.value| :: !Known(r.notified.value[k], modsList.value)
  {
    match cycle
    case Err(_) => Outcome(modsList, None)
    case Ok(updated) =>
      var newMods := CheckForModChanges(modsList, updated);
      if newMods == [] then Outcome(modsList, None)
      else Outcome(Some(updated), if modsList.Some? then Some(newMods) else None)
  }

  /** The poller's retained state. */
  class Poller {
    var modsList: Option<seq<Mod>>

    /** The retained list starts out null. */
    constructor ()
      ensures modsList == None
    {
      modsList := None;
    }

    /** One run of `poll`: returns the change set handed to `sendModUpdates`
        and the announcement it posts, or `None` when nothing is sent. The
        announcement links each mod to its page (see Findings in README). */
    method Poll(cycle: Result<seq<Mod>, ScrapeError>) returns (notified: Option<seq<Mod>>, message: Option<string>)
      modifies this
      ensures Outcome(modsList, notified) == PollStep(old(modsList), cycle)
      ensures message.Some? <==> notified.Some?
      ensures notified.Some? ==> message.value == UpdateMessage(UpdatesFor(notified.value))
      ensures notified.Some? ==> old(modsList).Some? && notified.value != []
      ensures notified.Some? ==> forall k | 0 <= k < |notified.value| :: !Known(notified.value[k], old(modsList).value)
    {
      notified, message := None, None;
      match cycle {
        case Err(_) =>
        case Ok(updated) =>
          var newMods := CheckForModChanges(modsList, updated);
          if |newMods| > 0 {
            if modsList.Some? {
              notified := Some(newMods);
              var text := BuildUpdateMessage(UpdatesFor(newMods));
              message := Some(text);
            }
            modsList := Some(updated);
          }
      }
    }
  }

  /** A notification is sent exactly when the retained list is non-null,
      the cycle succeeded and the change set is non-empty, and it carries
      exactly that change set. */
  lemma NotifiesExactly(modsList: Option<seq<Mod>>, cycle: Result<seq<Mod>, ScrapeError>)
    ensures PollStep(modsList, cycle).notified.Some? <==>
      modsList.Some? && cycle.Ok? && CheckForModChanges(modsList, cycle.value) != []
    ensures PollStep(modsList, cycle).notified.Some? ==>
      PollStep(modsList, cycle).notified.value == Difference(cycle.value, modsList.value)
  {
  }

  /** The retained list becomes the new snapshot exactly when the change set
      is non-empty; a failed cycle or an empty change set leaves it as it was. */
  lemma RetainsExactly(modsList: Option<seq<Mod>>, cycle: Result<seq<Mod>, ScrapeError>)
    ensures PollStep(modsList, cycle).modsList ==
      if cycle.Ok? && CheckForModChanges(modsList, cycle.value) != [] then Some(cycle.value) else modsList
  {
  }

  /** The first cycle never notifies; it adopts the snapshot when the
      listing was not empty. An empty first listing keeps `modsList` null, so
      the next cycle is again treated as the first. */
  lemma FirstCycleAdopts(cycle: Result<seq<Mod>, ScrapeError>)
    ensures PollStep(None, cycle).notified == None
    ensures cycle.Ok? && cycle.value != [] ==> PollStep(None, cycle).modsList == Some(cycle.value)
    ensures cycle.Ok? && cycle.value == [] ==> PollStep(None, cycle).modsList == None
  {
    if cycle.Ok? {
      FirstCheckReportsAll(cycle.value);
    }
  }

  /** Every notified record belongs to the new snapshot and has no
      same-id, same-instant record in the retained list; every record of the
      new snapshot that has none is notified. */
  lemma NotifiedAreTheChanges(modsList: seq<Mod>, updated: seq<Mod>, m: Mod)
    requires PollStep(Some(modsList), Ok(updated)).notified.Some?
    ensures m in PollStep(Some(modsList), Ok(updated)).notified.value <==> m in updated && !Known(m, modsList)
  {
    DifferenceMembership(updated, modsList, m);
  }

  /** Polling the same snapshot twice in a row: the second cycle sends
      nothing and keeps the state, provided every date parsed. */
  lemma RepeatIsQuiet(modsList: Option<seq<Mod>>, snapshot: seq<Mod>)
    requires AllValid(snapshot)
    ensures var first := PollStep(modsList, Ok(snapshot));
      PollStep(first.modsList, Ok(snapshot)) == Outcome(first.modsList, None)
  {
    var first := PollStep(modsList, Ok(snapshot));
    if first.modsList == Some(snapshot) {
      SelfDifference(snapshot);
    }
  }

  /** A mod whose date did not parse is reported on every cycle once the
      poller has a retained list, however often the same snapshot is seen. */
  lemma InvalidDateNotifiesEveryCycle(modsList: seq<Mod>, snapshot: seq<Mod>, k: nat)
    requires k < |snapshot| && snapshot[k].lastUpdated.InvalidDate?
    ensures PollStep(Some(modsList), Ok(snapshot)).notified.Some?
    ensures snapshot[k] in PollStep(Some(modsList), Ok(snapshot)).notified.value
    ensures PollStep(Some(modsList), Ok(snapshot)).modsList == Some(snapshot)
  {
    InvalidAlwaysReported(snapshot, modsList, k);
  }

  /** Two cycles over the ids 1 and 2: the first adopts both records and
      sends nothing; in the second, id 2 has a new date and exactly its
      record is sent. */
  lemma TwoCycles(t1: int, t2: int, t2new: int)
    requires t2new != t2
    ensures var s1 := [Mod("1", "A", At(t1)), Mod("2", "B", At(t2))];
      var s2 := [Mod("1", "A", At(t1)), Mod("2", "B", At(t2new))];
      var c1 := PollStep(None, Ok(s1));
      c1 == Outcome(Some(s1), None) &&
      PollStep(c1.modsList, Ok(s2)) == Outcome(Some(s2), Some([Mod("2", "B", At(t2new))]))
  {
    var s1 := [Mod("1", "A", At(t1)), Mod("2", "B", At(t2))];
    var s2 := [Mod("1", "A", At(t1)), Mod("2", "B", At(t2new))];
    FirstCheckReportsAll(s1);
    assert Known(s2[0], s1) by { assert SameVersion(s2[0], s1[0]); }
    assert !Known(s2[1], s1);
    assert s2[1..][1..] == [];
    assert Difference(s2[1..], s1) == [s2[1]];
    assert Difference(s2, s1) == [s2[1]];
  }
}
