/**
 * Availability: a bookable time slot, the comparer that decides when two
 * slots are the same, and the per-day shapes the weekly schedule carries.
 */
module Availability {

  import opened Wrappers
  import opened DateTimes

  datatype Slot = Slot(start: DateTimeOffset, end: DateTimeOffset)

  /** Working hours of one day, as whole hours of the day. */
  datatype WorkPeriod = WorkPeriod(startHour: int, endHour: int, lunchStartHour: int, lunchEndHour: int)

  /** One day of the weekly schedule: its working hours and the slots already booked, either may be null. */
  datatype DayInfo = DayInfo(workPeriod: Option<WorkPeriod>, busySlots: Option<seq<Slot>>)

  /** SlotEqualityComparer.Equals: both bounds equal as instants (DateTimeOffset == compares UTC times). */
  predicate SlotEquals(x: Slot, y: Slot) {
    UtcTicks(x.start) == UtcTicks(y.start) && UtcTicks(x.end) == UtcTicks(y.end)
  }

  lemma SlotEqualsIsEquivalence()
    ensures forall x :: SlotEquals(x, x)
    ensures forall x, y :: SlotEquals(x, y) ==> SlotEquals(y, x)
    ensures forall x, y, z :: SlotEquals(x, y) && SlotEquals(y, z) ==> SlotEquals(x, z)
  {
  }

  /** Equal as slots means equal as values once both are seen from the same offset. */
  lemma SlotEqualsSameOffset(x: Slot, y: Slot)
    requires x.start.offsetMinutes == y.start.offsetMinutes && x.end.offsetMinutes == y.end.offsetMinutes
    ensures SlotEquals(x, y) <==> x == y
  {
  }

  const TwoTo32: int := 0x1_0000_0000

  /** A 32-bit pattern read as a signed .NET int. */
  function ToInt32(b: bv32): int {
    if b < 0x8000_0000 then b as int else b as int - TwoTo32
  }

  /** DateTime.GetHashCode: the 64-bit tick count folded into 32 bits as (int)ticks ^ (int)(ticks >> 32). */
  function TicksHash(ticks: int): bv32
    requires ValidTicks(ticks)
  {
    (ticks % TwoTo32) as bv32 ^ (ticks / TwoTo32) as bv32
  }

  /** The unchecked fold (hashCode * 397) ^ hashCode of a 32-bit hash. */
  function Fold397(hashCode: bv32): bv32 {
    (hashCode * 397) ^ hashCode
  }

  predicate HashableSlot(s: Slot) {
    ValidTicks(UtcTicks(s.start))
  }

  /**
   * SlotEqualityComparer.GetHashCode: 0 for null; otherwise the start's hash
   * (DateTimeOffset hashes its UTC DateTime) folded with itself.
   */
  function SlotHash(obj: Option<Slot>): (h: int)
    requires obj.Some? ==> HashableSlot(obj.value)
    ensures obj.None? ==> h == 0
  {
    match obj
    case None => 0
    case Some(s) => ToInt32(Fold397(TicksHash(UtcTicks(s.start))))
  }

  /** The hash agrees with the comparer: equal slots hash alike. */
  lemma SlotHashConsistent(x: Slot, y: Slot)
    requires HashableSlot(x) && HashableSlot(y)
    requires SlotEquals(x, y)
    ensures SlotHash(Some(x)) == SlotHash(Some(y))
  {
  }

  /** The end never enters the hash: slots sharing a start collide, yet differ when their ends differ. */
  lemma SlotHashIgnoresEnd(x: Slot, y: Slot)
    requires HashableSlot(x) && HashableSlot(y)
    requires UtcTicks(x.start) == UtcTicks(y.start)
    ensures SlotHash(Some(x)) == SlotHash(Some(y))
    ensures SlotEquals(x, y) <==> UtcTicks(x.end) == UtcTicks(y.end)
  {
  }

  // ---------------------------------------------------------------------
  // Excluding busy slots with the comparer

  /** The comparer's hash set holds a slot equal to `x`. */
  predicate Matches(slots: seq<Slot>, x: Slot) {
    exists i :: 0 <= i < |slots| && SlotEquals(slots[i], x)
  }

  /**
   * Enumerable.Except with SlotEqualityComparer: the slots of `first`, in order,
   * that equal no slot of `second` and no slot already yielded.
   */
  function Except(first: seq<Slot>, second: seq<Slot>): seq<Slot>
    decreases |first|
  {
    if first == [] then []
    else if Matches(second, first[0]) then Except(first[1..], second)
    else [first[0]] + Except(first[1..], second + [first[0]])
  }

  /** No two slots of the sequence are equal under the comparer. */
  predicate Distinct(xs: seq<Slot>) {
    forall i, j :: 0 <= i < j < |xs| ==> !SlotEquals(xs[i], xs[j])
  }

  /** The slots of `first` no slot of `second` equals, in order, duplicates kept. */
  function Without(first: seq<Slot>, second: seq<Slot>): seq<Slot> {
    if first == [] then []
    else (if Matches(second, first[0]) then [] else [first[0]]) + Without(first[1..], second)
  }

  lemma MatchesAppend(s: seq<Slot>, y: Slot, x: Slot)
    ensures Matches(s + [y], x) <==> Matches(s, x) || SlotEquals(y, x)
  {
    if Matches(s, x) {
      var i :| 0 <= i < |s| && SlotEquals(s[i], x);
      assert (s + [y])[i] == s[i];
    }
    if SlotEquals(y, x) {
      assert (s + [y])[|s|] == y;
    }
  }

  /** Everything Except yields is a slot of `first` that no slot of `second` equals, and it yields no two equal slots. */
  lemma {:induction false} ExceptSound(first: seq<Slot>, second: seq<Slot>)
    ensures forall x :: x in Except(first, second) ==> x in first && !Matches(second, x)
    ensures Distinct(Except(first, second))
    decreases |first|
  {
    if first != [] {
      var x := first[0];
      if Matches(second, x) {
        ExceptSound(first[1..], second);
      } else {
        var rest := Except(first[1..], second + [x]);
        ExceptSound(first[1..], second + [x]);
        forall y | y in rest ensures !Matches(second, y) && !SlotEquals(x, y) {
          MatchesAppend(second, x, y);
        }
        var r := [x] + rest;
        forall i, j | 0 <= i < j < |r| ensures !SlotEquals(r[i], r[j]) {
          if i == 0 {
            assert r[j] == rest[j - 1] && rest[j - 1] in rest;
          } else {
            assert r[i] == rest[i - 1] && r[j] == rest[j - 1];
          }
        }
      }
    }
  }

  /** Every slot of `first` that no slot of `second` equals is represented in what Except yields. */
  lemma {:induction false} ExceptComplete(first: seq<Slot>, second: seq<Slot>, x: Slot)
    requires x in first && !Matches(second, x)
    ensures Matches(Except(first, second), x)
    decreases |first|
  {
    var y := first[0];
    if Matches(second, y) {
      if x == y {
        assert false;
      }
      ExceptComplete(first[1..], second, x);
    } else if SlotEquals(y, x) {
      assert Except(first, second)[0] == y;
    } else {
      assert x in first[1..];
      MatchesAppend(second, y, x);
      ExceptComplete(first[1..], second + [y], x);
      var i :| 0 <= i < |Except(first[1..], second + [y])| && SlotEquals(Except(first[1..], second + [y])[i], x);
      assert Except(first, second)[i + 1] == Except(first[1..], second + [y])[i];
    }
  }

  /** Except only asks which slots `second` matches: two exclusion lists that match the same slots exclude the same. */
  lemma {:induction false} ExceptRespectsMatching(first: seq<Slot>, second: seq<Slot>, other: seq<Slot>)
    requires forall x :: Matches(second, x) <==> Matches(other, x)
    ensures Except(first, second) == Except(first, other)
    decreases |first|
  {
    if first != [] {
      var y := first[0];
      if Matches(second, y) {
        ExceptRespectsMatching(first[1..], second, other);
      } else {
        forall x ensures Matches(second + [y], x) <==> Matches(other + [y], x) {
          MatchesAppend(second, y, x);
          MatchesAppend(other, y, x);
        }
        ExceptRespectsMatching(first[1..], second + [y], other + [y]);
      }
    }
  }

  /** A busy slot listed twice removes nothing more than listed once. */
  lemma ExceptIgnoresDuplicates(first: seq<Slot>, second: seq<Slot>, busy: Slot)
    requires Matches(second, busy)
    ensures Except(first, second + [busy]) == Except(first, second)
  {
    forall x ensures Matches(second + [busy], x) <==> Matches(second, x) {
      MatchesAppend(second, busy, x);
      SlotEqualsIsEquivalence();
    }
    ExceptRespectsMatching(first, second + [busy], second);
  }

  lemma {:induction false} WithoutRespectsMatching(first: seq<Slot>, second: seq<Slot>, other: seq<Slot>)
    requires forall x :: x in first ==> (Matches(second, x) <==> Matches(other, x))
    ensures Without(first, second) == Without(first, other)
    decreases |first|
  {
    if first != [] {
      assert first[0] in first;
      WithoutRespectsMatching(first[1..], second, other);
    }
  }

  /** When `first` holds no two equal slots, Except is the plain filter. */
  lemma {:induction false} ExceptOfDistinct(first: seq<Slot>, second: seq<Slot>)
    requires Distinct(first)
    ensures Except(first, second) == Without(first, second)
    decreases |first|
  {
    if first != [] {
      var y := first[0];
      assert Distinct(first[1..]);
      if Matches(second, y) {
        ExceptOfDistinct(first[1..], second);
      } else {
        ExceptOfDistinct(first[1..], second + [y]);
        forall x | x in first[1..] ensures Matches(second + [y], x) <==> Matches(second, x) {
          var j :| 0 <= j < |first[1..]| && first[1..][j] == x;
          assert first[j + 1] == x;
          MatchesAppend(second, y, x);
        }
        WithoutRespectsMatching(first[1..], second + [y], second);
      }
    }
  }

  /** The slots of `first` that `second` matches, as a set. */
  function MatchedIn(first: seq<Slot>, second: seq<Slot>): set<Slot> {
    set x | x in first && Matches(second, x)
  }

  /** From a list with no two equal slots the filter drops exactly the matched ones. */
  lemma {:induction false} WithoutCount(first: seq<Slot>, second: seq<Slot>)
    requires Distinct(first)
    ensures |Without(first, second)| == |first| - |MatchedIn(first, second)|
    decreases |first|
  {
    if first == [] {
      assert MatchedIn(first, second) == {};
    } else {
      var y := first[0];
      var rest := first[1..];
      assert Distinct(rest);
      WithoutCount(rest, second);
      assert y !in rest;
      if Matches(second, y) {
        assert MatchedIn(first, second) == MatchedIn(rest, second) + {y};
      } else {
        assert MatchedIn(first, second) == MatchedIn(rest, second);
      }
    }
  }
}
