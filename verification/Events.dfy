/** The event table of one instance and the file all instances share (`bbs/events.cpp`). */
module Events {
  import opened Seqs

  /** An `eventsrec`. The bits of `status` that matter here are fields of their own; `days` holds the day bits that are
      set, Sunday being 0; times are minutes from midnight. */
  datatype Event = Event(cmd: string, days: set<int>, time: int, instance: int, forced: bool, periodic: bool,
                         runToday: bool, period: int, lastrun: int)

  /** A `short`. */
  function Short(x: int): int { (x + 0x8000) % 0x1_0000 - 0x8000 }

  /** The sixteen bits of a number: the number itself where it fits, and the same again after 65536 more. */
  lemma ShortIs(x: int)
    ensures -0x8000 <= Short(x) < 0x8000 && Short(x + 0x1_0000) == Short(x)
    ensures -0x8000 <= x < 0x8000 ==> Short(x) == x
  {
  }

  // ----- order -----

  ghost predicate SortedByTime(s: seq<Event>) {
    forall i, j :: 0 <= i < j < |s| ==> s[i].time <= s[j].time
  }

  /** The first `i` events are in their place: none of them is later than any event after it. */
  ghost predicate Placed(s: seq<Event>, i: nat) {
    forall a, b :: 0 <= a < i && a < b < |s| ==> s[a].time <= s[b].time
  }

  ghost predicate SameEvents(s: seq<Event>, t: seq<Event>) { multiset(s) == multiset(t) }

  lemma SwapKeeps(s: seq<Event>, i: nat, z: nat)
    requires i < |s| && z < |s|
    ensures multiset(SwapAt(s, i, z)) == multiset(s)
  {
    var x, y := s[i], s[z];
    var t := s[i := y];
    UpdateCounts(s, i, y);
    UpdateCounts(t, z, x);
    assert t[z] == y;
    TakeAndGive(multiset(s), x, y);
  }

  lemma UpdateCounts(s: seq<Event>, i: nat, x: Event)
    requires i < |s|
    ensures s[i] in multiset(s) && multiset(s[i := x]) == multiset(s) - multiset{s[i]} + multiset{x}
  {
  }

  lemma TakeAndGive(m: multiset<Event>, x: Event, y: Event)
    requires x in m
    ensures m - multiset{x} + multiset{y} - multiset{y} + multiset{x} == m
  {
  }

  /** One round of the selection sort. */
  lemma PlaceOne(s: seq<Event>, was: seq<Event>, i: nat, z: nat)
    requires Placed(s, i) && i <= z < |s| && SameEvents(s, was)
    requires forall b :: i <= b < |s| ==> s[z].time <= s[b].time
    ensures Placed(SwapAt(s, i, z), i + 1) && SameEvents(SwapAt(s, i, z), was)
  {
    hide SwapAt;
    SwapKeeps(s, i, z);
    SwapIs(s, i, z);
  }

  lemma SwapIs<T>(s: seq<T>, i: nat, j: nat)
    requires i < |s| && j < |s|
    ensures SwapAt(s, i, j)[i] == s[j] && SwapAt(s, i, j)[j] == s[i]
    ensures forall k :: 0 <= k < |s| && k != i && k != j ==> SwapAt(s, i, j)[k] == s[k]
  {
  }

  lemma StartSort(s: seq<Event>)
    ensures Placed(s, 0) && SameEvents(s, s)
  {
  }

  lemma EndSort(s: seq<Event>, was: seq<Event>, i: nat)
    requires Placed(s, i) && SameEvents(s, was) && |s| <= i + 1
    ensures SortedByTime(s) && multiset(s) == multiset(was)
  {
  }

  // ----- the next forced event -----

  predicate Mine(e: Event, inst: int) { e.instance == inst || e.instance == 0 }

  function NextDay(dow: int): int { if dow + 1 == 7 then 0 else dow + 1 }

  /** Forced, and still to run today. */
  predicate Pending(e: Event, inst: int, dow: int) { Mine(e, inst) && e.forced && !e.runToday && dow in e.days }

  /** Forced, over for today, and to run again tomorrow. */
  predicate ForTomorrow(e: Event, inst: int, now: int, dow: int) {
    Mine(e, inst) && e.forced && e.time < now && NextDay(dow) in e.days
  }

  function Today(inst: int, dow: int): Event -> bool {
    (e: Event) => Pending(e, inst, dow)
  }

  function Tomorrow(inst: int, now: int, dow: int): Event -> bool {
    (e: Event) => ForTomorrow(e, inst, now, dow)
  }

  /** An execution time of 0 means that there is none, so midnight becomes one minute past. */
  function Due(time: int): int { if time == 0 then 1 else time }

  /** `time` is that of the earliest event of `s` that satisfies `p`. */
  ghost predicate Earliest(s: seq<Event>, p: Event -> bool, time: int) {
    && (exists i :: 0 <= i < |s| && p(s[i]) && s[i].time == time)
    && (forall i :: 0 <= i < |s| && p(s[i]) ==> time <= s[i].time)
  }

  ghost predicate NoneOf(s: seq<Event>, p: Event -> bool) {
    forall i :: 0 <= i < |s| ==> !p(s[i])
  }

  /** What `get_next_forced_event` promises: the earliest forced event still to run today; if there is none,
      the earliest of those already over that run again tomorrow; if there is none either, nothing. */
  ghost predicate NextForced(s: seq<Event>, inst: int, now: int, dow: int, executetime: int, timeEvent: int) {
    var today := Today(inst, dow);
    var tomorrow := Tomorrow(inst, now, dow);
    && (!NoneOf(s, today) ==>
          exists t :: Earliest(s, today, t) && executetime == Due(t) && timeEvent == 60 * t)
    && (NoneOf(s, today) && !NoneOf(s, tomorrow) ==>
          exists t :: Earliest(s, tomorrow, t) && executetime == Due(t) && timeEvent == 60 * t)
    && (NoneOf(s, today) && NoneOf(s, tomorrow) ==> executetime == 0 && timeEvent == 0)
  }

  // ----- one event of check_event -----

  function NextRun(e: Event): int { (if e.lastrun == 0 then e.time else e.lastrun) + e.period }

  /** The instance's copy, the file's record, and whether the event is to run, after one turn of the loop. */
  datatype Look = Look(copy: Event, rec: Event, fires: bool)

  function CheckOne(copy: Event, rec: Event, inst: int, now: int, dow: int): Look {
    if !copy.runToday && copy.time <= now && dow in copy.days && Mine(copy, inst) then
      if !rec.runToday then Look(rec.(runToday := true), rec.(runToday := true), true) else Look(rec, rec, false)
    else if copy.periodic && dow in copy.days && Mine(copy, inst) && Short(NextRun(copy)) <= now then
      if NextRun(rec) <= now then
        var r := rec.(runToday := true, lastrun := Short(NextRun(copy)));
        Look(r, r, true)
      else Look(rec, rec, false)
    else Look(copy, rec, false)
  }

  datatype Checked = Checked(copies: seq<Event>, file: seq<Event>, doEvent: nat)

  /** The loop of `check_event` from event `i` on. */
  function CheckFrom(copies: seq<Event>, file: seq<Event>, i: nat, inst: int, now: int, dow: int): (r: Checked)
    requires i <= |copies| <= |file|
    ensures |r.copies| == |copies| && |r.file| == |file| && r.doEvent <= |copies|
    decreases |copies| - i
  {
    if i == |copies| then Checked(copies, file, 0)
    else
      var l := CheckOne(copies[i], file[i], inst, now, dow);
      var c, f := copies[i := l.copy], file[i := l.rec];
      if l.fires then Checked(c, f, i + 1) else CheckFrom(c, f, i + 1, inst, now, dow)
  }

  /** "Not run", as `cleanup_events` leaves an event. */
  function Cleared(s: seq<Event>): (r: seq<Event>)
    ensures |r| == |s|
  {
    seq(|s|, i requires 0 <= i < |s| => s[i].(runToday := false, lastrun := 0))
  }

  // ----- the table in memory -----

  class EventsFile {
    var recs: seq<Event>
  }

  class Scheduler {
    const inst: int
    var events: array<Event>
    var num: nat
    var executetime: int
    var timeEvent: int
    var doEvent: nat

    ghost predicate Valid()
      reads this, events
    {
      num <= events.Length
    }

    /** The inner loop of `sort_events`. */
    method EarliestFrom(i: nat) returns (z: nat)
      requires Valid() && i < num
      ensures i <= z < num && forall b :: i <= b < num ==> events[z].time <= events[b].time
    {
      z := i;
      var j := i + 1;
      while j < num
        invariant i <= z < j <= num && i < j
        invariant forall b :: i <= b < j ==> events[z].time <= events[b].time
      {
        if events[j].time < events[z].time {
          z := j;
        }
        j := j + 1;
      }
    }

    /** `sort_events`: the table is put in time order and no event is lost. */
    method SortEvents()
      requires Valid()
      modifies events
      ensures Valid() && SortedByTime(events[..num])
      ensures multiset(events[..num]) == multiset(old(events[..num]))
      ensures events[num..] == old(events[num..])
    {
      hide Placed, SwapAt, SameEvents;
      ghost var was := events[..num];
      var i := 0;
      StartSort(was);
      while i < num - 1
        invariant 0 <= i <= num <= events.Length
        invariant SameEvents(events[..num], was) && Placed(events[..num], i)
        invariant events[num..] == old(events[num..])
      {
        ghost var s := events[..num];
        var z := EarliestFrom(i);
        PlaceOne(s, was, i, z);
        SwapIs(s, i, z);
        if z != i {
          events[i], events[z] := events[z], events[i];
        }
        assert events[..num] == SwapAt(s, i, z);
        i := i + 1;
      }
      EndSort(events[..num], was, i);
    }

    /** `get_next_forced_event`, on a table in time order whose times are those of a day. */
    method GetNextForcedEvent(now: int, dow: int)
      requires Valid() && SortedByTime(events[..num])
      requires forall i :: 0 <= i < num ==> 0 <= events[i].time < 1440
      modifies `executetime, `timeEvent
      ensures NextForced(events[..num], inst, now, dow, executetime, timeEvent)
    {
      hide Earliest, NoneOf, Mine, NextDay, NextForced;
      executetime, timeEvent := 0, 0;
      var first := -1;
      ghost var today := Today(inst, dow);
      ghost var tomorrow := Tomorrow(inst, now, dow);
      ghost var s := events[..num];
      NoneSoFar(s, today, 0);
      NoneSoFar(s, tomorrow, 0);
      ghost var found: int := 0;
      var i := 0;
      while i < num
        invariant 0 <= i <= num
        invariant executetime == 0 ==> timeEvent == 0 && NoneOf(s[..i], today)
        invariant executetime != 0 ==>
          Earliest(s, today, found) && executetime == Due(found) && timeEvent == 60 * found
        invariant if first < 0 then NoneOf(s[..i], tomorrow) else Earliest(s, tomorrow, first)
      {
        assert events[i] == s[i];
        NoneSoFar(s, today, i + 1);
        NoneSoFar(s, tomorrow, i + 1);
        if Mine(events[i], inst) && events[i].forced {
          if first < 0 && events[i].time < now && NextDay(dow) in events[i].days {
            first := events[i].time;
            FirstIsEarliest(s, tomorrow, i);
          }
          if !events[i].runToday && dow in events[i].days && executetime == 0 {
            timeEvent := events[i].time * 60;
            executetime := events[i].time;
            if executetime == 0 {
              executetime := executetime + 1;
            }
            FirstIsEarliest(s, today, i);
            found := events[i].time;
          }
        }
        i := i + 1;
      }
      assert s[..i] == s;
      if executetime != 0 { EarliestIsSome(s, today, found); }
      if first >= 0 && executetime == 0 {
        timeEvent := first * 60;
        executetime := first;
        if executetime == 0 {
          executetime := executetime + 1;
        }
      }
      Chosen(s, inst, now, dow, found, first, executetime, timeEvent);
    }

    /** The body of the loop of `check_event`. Reading and rewriting one record is one step, under the exclusive lock of
        the file. */
    method CheckThis(file: EventsFile, i: nat, now: int, dow: int)
      requires Valid() && i < num <= |file.recs| && doEvent == 0
      modifies events, `doEvent, file
      ensures Valid() && |file.recs| == |old(file.recs)|
      ensures var l := CheckOne(old(events[i]), old(file.recs)[i], inst, now, dow);
        && events[i] == l.copy && file.recs == old(file.recs)[i := l.rec]
        && doEvent == if l.fires then i + 1 else 0
      ensures forall k :: 0 <= k < events.Length && k != i ==> events[k] == old(events[k])
    {
      hide Mine, NextRun, Short;
      if !events[i].runToday && events[i].time <= now && dow in events[i].days && Mine(events[i], inst) {
        events[i] := file.recs[i];
        if !events[i].runToday {
          events[i] := events[i].(runToday := true);
          file.recs := file.recs[i := events[i]];
          doEvent := i + 1;
        }
      } else if events[i].periodic && dow in events[i].days && Mine(events[i], inst) {
        var nextrun := Short(NextRun(events[i]));
        if nextrun <= now {
          events[i] := file.recs[i];
          if NextRun(events[i]) <= now {
            events[i] := events[i].(runToday := true, lastrun := nextrun);
            file.recs := file.recs[i := events[i]];
            doEvent := i + 1;
          }
        }
      }
    }

    /** `check_event`. */
    method CheckEvent(file: EventsFile, now: int, dow: int)
      requires Valid() && num <= |file.recs|
      modifies events, `doEvent, file
      ensures Valid()
      ensures old(doEvent) != 0 ==> doEvent == old(doEvent)
      ensures old(doEvent) != 0 ==> events[..] == old(events[..]) && file.recs == old(file.recs)
      ensures old(doEvent) == 0 ==>
        Checked(events[..num], file.recs, doEvent) == old(CheckFrom(events[..num], file.recs, 0, inst, now, dow))
      ensures events[num..] == old(events[num..])
    {
      hide CheckOne;
      ghost var tail := events[num..];
      ghost var all := CheckFrom(events[..num], file.recs, 0, inst, now, dow);
      if doEvent != 0 {
        return;
      }
      var i := 0;
      while i < num && doEvent == 0
        invariant 0 <= i <= num <= events.Length && num <= |file.recs|
        invariant events[num..] == tail
        invariant doEvent == 0 ==> CheckFrom(events[..num], file.recs, i, inst, now, dow) == all
        invariant doEvent != 0 ==> Checked(events[..num], file.recs, doEvent) == all
      {
        ghost var c, f := events[..num], file.recs;
        ghost var l := CheckOne(c[i], f[i], inst, now, dow);
        CheckThis(file, i, now, dow);
        assert events[..num] == c[i := l.copy];
        i := i + 1;
      }
    }

    /** The end of `cleanup_events`: every event is "not run", here and, from this copy, in the file. */
    method ClearEvents(file: EventsFile)
      requires Valid() && num <= |file.recs|
      modifies events, file
      ensures Valid() && events[..num] == Cleared(old(events[..num])) && events[num..] == old(events[num..])
      ensures file.recs == if num == 0 then old(file.recs) else events[..num] + old(file.recs)[num..]
    {
      if num == 0 {
        return;
      }
      var i := 0;
      while i < num
        invariant 0 <= i <= num <= events.Length
        invariant forall k :: 0 <= k < i ==> events[k] == old(events[k]).(runToday := false, lastrun := 0)
        invariant forall k :: i <= k < events.Length ==> events[k] == old(events[k])
        invariant file.recs == old(file.recs)
      {
        events[i] := events[i].(runToday := false, lastrun := 0);
        i := i + 1;
      }
      file.recs := events[..num] + file.recs[num..];
    }
  }

  /** In time order, the first event that satisfies `p` is the earliest. */
  lemma FirstIsEarliest(s: seq<Event>, p: Event -> bool, i: nat)
    requires SortedByTime(s) && i < |s| && p(s[i]) && NoneOf(s[..i], p)
    ensures Earliest(s, p, s[i].time)
  {
    assert forall j :: 0 <= j < i ==> s[..i][j] == s[j];
  }

  lemma NoneSoFar(s: seq<Event>, p: Event -> bool, i: nat)
    requires i <= |s|
    ensures i == 0 ==> NoneOf(s[..i], p)
    ensures i > 0 && NoneOf(s[..i - 1], p) && !p(s[i - 1]) ==> NoneOf(s[..i], p)
  {
    if i > 0 { assert s[..i] == s[..i - 1] + [s[i - 1]]; }
  }

  lemma EarliestIsSome(s: seq<Event>, p: Event -> bool, time: int)
    requires Earliest(s, p, time)
    ensures !NoneOf(s, p)
  {
  }

  /** The loop has seen every event: `found` is the earliest of today, `first` that of tomorrow. */
  lemma Chosen(s: seq<Event>, inst: int, now: int, dow: int, found: int, first: int, executetime: int, timeEvent: int)
    requires var today := Today(inst, dow);
      NoneOf(s, today) || (Earliest(s, today, found) && executetime == Due(found) && timeEvent == 60 * found)
    requires var tomorrow := Tomorrow(inst, now, dow);
      if first < 0 then NoneOf(s, tomorrow) else Earliest(s, tomorrow, first)
    requires NoneOf(s, Today(inst, dow)) ==>
      if first < 0 then executetime == 0 && timeEvent == 0 else executetime == Due(first) && timeEvent == 60 * first
    ensures NextForced(s, inst, now, dow, executetime, timeEvent)
  {
    hide Today, Tomorrow, Due;
  }
}
