/**
 * The availability scenario of the test suite: Monday, Wednesday and Friday
 * entries, ten-minute slots, the week computed from 18 June 2024, all times
 * at offset zero.
 */
module AvailabilityFixture {

  import opened Wrappers
  import opened DateTimes
  import opened Availability
  import opened SlotManager

  const Step: int := 10 * TicksPerMinute

  /** Midnight of the reference date, 18 June 2024, and of 17, 19 and 21 June. */
  const Reference: int := Tuesday20240618
  const June17: int := Reference - TicksPerDay
  const June19: int := Reference + TicksPerDay
  const June21: int := Reference + 3 * TicksPerDay

  /** A booked ten-minute slot at hour:minute of a day. */
  function Busy(day: int, hour: int, minute: int): Slot {
    SlotAt(day + hour * TicksPerHour + minute * TicksPerMinute, Step, 0)
  }

  const MondayBusy: seq<Slot> := [Busy(June17, 9, 0), Busy(June17, 14, 40), Busy(June17, 15, 20)]
  const WednesdayBusy: seq<Slot> :=
    [Busy(June19, 15, 30), Busy(June19, 12, 0), Busy(June19, 12, 0), Busy(June19, 12, 10), Busy(June19, 9, 30)]
  const FridayBusy: seq<Slot> := [Busy(June21, 15, 50), Busy(June21, 15, 50), Busy(June21, 10, 30)]

  const Hours9To17: WorkPeriod := WorkPeriod(9, 17, 13, 14)
  const Hours8To16: WorkPeriod := WorkPeriod(8, 16, 13, 14)

  const Week: Schedule := [
    ("Monday", DayInfo(Some(Hours9To17), Some(MondayBusy))),
    ("Wednesday", DayInfo(Some(Hours9To17), Some(WednesdayBusy))),
    ("Friday", DayInfo(Some(Hours8To16), Some(FridayBusy)))]

  /** The grid of the fixture is the three days, one after the other from the reference date. */
  lemma WeekGrid()
    ensures AllWorking(Week) && AllOrdered(Week)
    ensures Grid(Week, Reference, 10, 0)
      == DaySlots(Hours9To17, Reference, 10, 0) + DaySlots(Hours9To17, June19, 10, 0)
         + DaySlots(Hours8To16, Reference + 2 * TicksPerDay, 10, 0)
  {
    var w1, w2 := Week[..1], Week[..2];
    assert w2[..1] == w1 && w1[..0] == [] && Week[..2] == w2;
    assert Grid(w1, Reference, 10, 0) == DaySlots(Hours9To17, Reference + 0 * TicksPerDay, 10, 0);
    assert Grid(w2, Reference, 10, 0) == Grid(w1, Reference, 10, 0) + DaySlots(Hours9To17, Reference + 1 * TicksPerDay, 10, 0);
  }

  lemma FridayCount(day: int)
    ensures |DaySlots(Hours8To16, day, 10, 0)| == 42
  {
    RunCount(day + 8 * TicksPerHour, day + 13 * TicksPerHour, Step, 0);
    RunCount(day + 14 * TicksPerHour, day + 16 * TicksPerHour, Step, 0);
  }

  /** Three days of 42 slots: 126 candidates. */
  lemma CandidateCount()
    ensures AllWorking(Week)
    ensures |Grid(Week, Reference, 10, 0)| == 126
  {
    WeekGrid();
    StandardDayCount(Reference, 0);
    StandardDayCount(June19, 0);
    FridayCount(Reference + 2 * TicksPerDay);
  }

  /** The busy slots of the three entries in order. */
  lemma WeekBusy()
    ensures BusySlots(Week) == MondayBusy + WednesdayBusy + FridayBusy
  {
    var w1, w2 := Week[..1], Week[..2];
    assert w2[..1] == w1 && w1[..0] == [] && Week[..2] == w2;
    assert BusySlots(w1) == [] + MondayBusy;
    assert BusySlots(w2) == BusySlots(w1) + WednesdayBusy;
  }

  /** The four distinct Wednesday bookings, falling on the grid's second day (19 June). */
  const Matched: set<Slot> := {Busy(June19, 15, 30), Busy(June19, 12, 0), Busy(June19, 12, 10), Busy(June19, 9, 30)}

  lemma MatchedOnGrid()
    ensures AllWorking(Week)
    ensures forall w :: w in Matched ==> w in Grid(Week, Reference, 10, 0)
  {
    WeekGrid();
    var morning := Run(June19 + 9 * TicksPerHour, June19 + 13 * TicksPerHour, Step, 0);
    var afternoon := Run(June19 + 14 * TicksPerHour, June19 + 17 * TicksPerHour, Step, 0);
    RunContains(June19 + 9 * TicksPerHour, June19 + 13 * TicksPerHour, Step, 0, 3);
    RunContains(June19 + 9 * TicksPerHour, June19 + 13 * TicksPerHour, Step, 0, 18);
    RunContains(June19 + 9 * TicksPerHour, June19 + 13 * TicksPerHour, Step, 0, 19);
    RunContains(June19 + 14 * TicksPerHour, June19 + 17 * TicksPerHour, Step, 0, 9);
    assert Busy(June19, 9, 30) == SlotAt(June19 + 9 * TicksPerHour + 3 * Step, Step, 0);
    assert Busy(June19, 12, 0) == SlotAt(June19 + 9 * TicksPerHour + 18 * Step, Step, 0);
    assert Busy(June19, 12, 10) == SlotAt(June19 + 9 * TicksPerHour + 19 * Step, Step, 0);
    assert Busy(June19, 15, 30) == SlotAt(June19 + 14 * TicksPerHour + 9 * Step, Step, 0);
  }

  /** Each booking either falls outside the three grid days or is one of the four matched. */
  lemma BusyPlacement()
    ensures forall b :: b in MondayBusy + WednesdayBusy + FridayBusy ==>
      b.start.offsetMinutes == 0 && b.end.offsetMinutes == 0
      && (b.start.clockTicks < Reference || Reference + 3 * TicksPerDay <= b.start.clockTicks || b in Matched)
  {
  }

  /** The grid slots some booking equals are exactly the four Wednesday ones. */
  lemma MatchedExactly()
    ensures AllWorking(Week)
    ensures MatchedIn(Grid(Week, Reference, 10, 0), BusySlots(Week)) == Matched
  {
    WeekGrid();
    WeekBusy();
    MatchedOnGrid();
    BusyPlacement();
    var g, b := Grid(Week, Reference, 10, 0), BusySlots(Week);
    GridElements(Week, Reference, 10, 0);
    forall x | x in MatchedIn(g, b) ensures x in Matched {
      var i :| 0 <= i < |b| && SlotEquals(b[i], x);
      assert b[i] in b;
      SlotEqualsSameOffset(b[i], x);
    }
    forall w | w in Matched ensures w in MatchedIn(g, b) {
      var i := if w == Busy(June19, 15, 30) then 3 else if w == Busy(June19, 12, 0) then 4
               else if w == Busy(June19, 12, 10) then 6 else 7;
      assert b[i] == w;
    }
  }

  /** Four distinct slots: their starts differ. */
  lemma MatchedCount()
    ensures |Matched| == 4
  {
  }

  /** The test's expectation: of the 126 candidates, 122 remain once the bookings are excluded. */
  lemma AvailableCount()
    ensures AllWorking(Week)
    ensures |AvailableSlots(Some(Week), Reference, 10, 0)| == 122
  {
    WeekGrid();
    CandidateCount();
    MatchedExactly();
    MatchedCount();
    var g, b := Grid(Week, Reference, 10, 0), BusySlots(Week);
    GridDistinct(Week, Reference, 10, 0);
    ExceptOfDistinct(g, b);
    WithoutCount(g, b);
  }
}
