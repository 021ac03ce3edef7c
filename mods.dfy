/** Mod records as the poller keeps them, and the change detection of
    `checkForModChanges` (lodash `differenceWith` with an id-and-instant
    comparator). */
module ModChanges {
  import opened Wrappers

  /** A parsed `lastUpdated`. dayjs yields an invalid date when the text does
      not match the format; its instant is then NaN. */
  datatype Timestamp = At(instant: int) | InvalidDate

  /** dayjs `isSame` without a unit: both dates are valid and denote the same
      instant. NaN compares false, so an invalid date is the same as nothing,
      not even another invalid date. */
  predicate SameInstant(a: Timestamp, b: Timestamp) {
    a.At? && b.At? && a.instant == b.instant
  }

  /** A snapshot record: the listing id, the page title and the parsed date. */
  datatype Mod = Mod(id: string, title: string, lastUpdated: Timestamp)

  /** The comparator of `differenceWith`: same id and same instant. */
  predicate SameVersion(a: Mod, b: Mod) {
    a.id == b.id && SameInstant(a.lastUpdated, b.lastUpdated)
  }

  /** Some record of `prev` is the same version as `m`. */
  predicate Known(m: Mod, prev: seq<Mod>) {
    exists k | 0 <= k < |prev| :: SameVersion(m, prev[k])
  }

  predicate AllValid(s: seq<Mod>) {
    forall k | 0 <= k < |s| :: s[k].lastUpdated.At?
  }

  /** `_.differenceWith(updated, prev, SameVersion)`: the records of
      `updated`, in order and with repetitions, that no record of `prev`
      matches. */
  function Difference(updated: seq<Mod>, prev: seq<Mod>): (r: seq<Mod>)
    ensures |r| <= |updated|
    ensures forall k | 0 <= k < |r| :: !Known(r[k], prev)
  {
    if updated == [] then []
    else
      var rest := Difference(updated[1..], prev);
      if Known(updated[0], prev) then rest else [updated[0]] + rest
  }

  /** `checkForModChanges(modsList, updated)`. On the first poll `modsList`
      is `null`; the parameter default does not apply to `null`, and lodash
      drops a non-array argument, so nothing is subtracted. */
  function CheckForModChanges(modsList: Option<seq<Mod>>, updated: seq<Mod>): (r: seq<Mod>)
    ensures |r| <= |updated|
    ensures modsList.Some? ==> forall k | 0 <= k < |r| :: !Known(r[k], modsList.value)
  {
    Difference(updated, if modsList.Some? then modsList.value else [])
  }

  /** The change set distributes over concatenation of the new list: its
      order is the new list's order. */
  lemma {:induction false} DifferenceAppend(a: seq<Mod>, b: seq<Mod>, prev: seq<Mod>)
    ensures Difference(a + b, prev) == Difference(a, prev) + Difference(b, prev)
  {
    if a == [] {
      assert a + b == b;
    } else {
      assert (a + b)[1..] == a[1..] + b;
      DifferenceAppend(a[1..], b, prev);
    }
  }

  /** A record is reported exactly as often as it occurs in the new list
      when the previous list does not know it, and never otherwise. */
  lemma {:induction false} DifferenceMultiplicity(updated: seq<Mod>, prev: seq<Mod>, m: Mod)
    ensures multiset(Difference(updated, prev))[m] == if Known(m, prev) then 0 else multiset(updated)[m]
  {
    if updated != [] {
      DifferenceMultiplicity(updated[1..], prev, m);
      assert updated == [updated[0]] + updated[1..];
    }
  }

  /** A record of the new list is in the change set if and only if no
      previous record has its id and an equal timestamp. */
  lemma DifferenceMembership(updated: seq<Mod>, prev: seq<Mod>, m: Mod)
    ensures m in Difference(updated, prev) <==> m in updated && !Known(m, prev)
  {
    DifferenceMultiplicity(updated, prev, m);
  }

  /** Against an empty previous list every record is new. */
  lemma {:induction false} DifferenceFromNothing(updated: seq<Mod>)
    ensures Difference(updated, []) == updated
  {
    if updated != [] {
      DifferenceFromNothing(updated[1..]);
    }
  }

  /** The first poll (`modsList` is `null`) reports the whole new list. */
  lemma FirstCheckReportsAll(updated: seq<Mod>)
    ensures CheckForModChanges(None, updated) == updated
  {
    DifferenceFromNothing(updated);
  }

  /** When every new record is known, nothing is reported. */
  lemma {:induction false} DifferenceOfKnown(updated: seq<Mod>, prev: seq<Mod>)
    requires forall k | 0 <= k < |updated| :: Known(updated[k], prev)
    ensures Difference(updated, prev) == []
  {
    if updated != [] {
      assert Known(updated[0], prev);
      DifferenceOfKnown(updated[1..], prev);
    }
  }

  /** A list diffed against itself is empty when all its dates are valid. */
  lemma SelfDifference(s: seq<Mod>)
    requires AllValid(s)
    ensures Difference(s, s) == []
  {
    forall k | 0 <= k < |s| ensures Known(s[k], s) {
      assert SameVersion(s[k], s[k]);
    }
    DifferenceOfKnown(s, s);
  }

  /** A record with an invalid date matches nothing, so it is reported on
      every comparison, even against a list that contains it. */
  lemma InvalidAlwaysReported(updated: seq<Mod>, prev: seq<Mod>, k: nat)
    requires k < |updated| && updated[k].lastUpdated.InvalidDate?
    ensures updated[k] in Difference(updated, prev)
  {
    DifferenceMembership(updated, prev, updated[k]);
  }

  /** When no id is shared, the change set is the whole new list. */
  lemma {:induction false} DifferenceDisjoint(updated: seq<Mod>, prev: seq<Mod>)
    requires forall i, j | 0 <= i < |updated| && 0 <= j < |prev| :: updated[i].id != prev[j].id
    ensures Difference(updated, prev) == updated
  {
    if updated != [] {
      assert !Known(updated[0], prev);
      DifferenceDisjoint(updated[1..], prev);
    }
  }
}
