/** Periodic events: at what times one instance starts them, and what happens to them when several do. */
module PeriodicLaws {
  import opened Events
  import opened EventLaws

  // ----- one look -----

  /** The day is one of the event's, and the event is this instance's or everyone's. */
  predicate OfToday(e: Event, inst: int, dow: int) {
    dow in e.days && (e.instance == inst || e.instance == 0)
  }

  /** When the event is to run after the last run that is recorded; 0 means that none is. */
  function After(e: Event): int { if e.lastrun == 0 then e.time + e.period else e.lastrun + e.period }

  /** A periodic event whose times are those of a day. */
  predicate Timed(e: Event) {
    e.periodic && 0 <= e.time && 0 <= e.lastrun && 0 < e.period && After(e) < 0x8000
  }

  /** What one look does when the instance's copy and the file both say that the event has run: it is started if its
      time has come by both, and the run that is recorded is the one that was due by the copy. */
  lemma LookAtPeriodic(copy: Event, rec: Event, inst: int, now: int, dow: int)
    requires Fixed(copy) == Fixed(rec) && Timed(copy) && Timed(rec) && copy.runToday && rec.runToday
    ensures var l := CheckOne(copy, rec, inst, now, dow);
      && (l.fires <==> OfToday(rec, inst, dow) && now >= After(copy) && now >= After(rec))
      && (l.fires ==> l.rec == rec.(lastrun := After(copy)) && l.copy == l.rec)
      && (!l.fires ==> l.rec == rec)
  {
    assert Fixed(copy).days == rec.days && Fixed(copy).instance == rec.instance;
  }

  /** The first look of the day that finds its time come marks the event and records no run. */
  lemma LookAtFirst(rec: Event, inst: int, now: int, dow: int)
    requires rec.periodic && 0 <= rec.time && 0 < rec.period && rec.lastrun == 0 && !rec.runToday && now < 0x8000
    ensures var l := CheckOne(rec, rec, inst, now, dow);
      && (l.fires <==> OfToday(rec, inst, dow) && now >= rec.time)
      && l.rec == (if l.fires then rec.(runToday := true) else rec) && l.copy == l.rec
  {
  }

  // ----- one instance alone -----

  /** One instance whose copy is the file. */
  ghost predicate Alone(w: World) { |w.nodes| == 1 && w.nodes[0].copy == w.file }

  /** An event that runs more than once a day, as a clearing leaves it. */
  predicate Fresh(e: Event) {
    e.periodic && 0 <= e.time && 0 < e.period && !e.runToday && e.lastrun == 0
  }

  /** When run number `k + 1` is due. */
  function DueAt(e: Event, k: nat): int { e.time + k * e.period }

  lemma DueNext(e: Event, k: nat)
    ensures DueAt(e, 0) == e.time && DueAt(e, k + 1) == DueAt(e, k) + e.period
  {
  }

  lemma {:induction false} DuePositive(e: Event, k: nat)
    requires 0 <= e.time && 0 < e.period && k > 0
    ensures DueAt(e, k) > 0
  {
    hide DueAt;
    DueNext(e, k - 1);
    if k > 1 { DuePositive(e, k - 1); } else { DueNext(e, 0); }
  }

  /** The event after `k` runs: the run before the last one was due when the recorded one is. */
  predicate AfterRuns(start: Event, e: Event, k: nat) {
    e == start.(runToday := k > 0, lastrun := if k <= 1 then 0 else DueAt(start, k - 1))
  }

  /** One look after `k` runs starts the event exactly when run number `k + 1` is due. */
  lemma LookAfterRuns(start: Event, e: Event, k: nat, inst: int, now: int, dow: int)
    requires Fresh(start) && AfterRuns(start, e, k) && now < 0x8000
    ensures var l := CheckOne(e, e, inst, now, dow);
      && (l.fires <==> OfToday(start, inst, dow) && now >= DueAt(start, k))
      && AfterRuns(start, l.rec, if l.fires then k + 1 else k) && l.copy == l.rec
  {
    hide CheckOne, DueAt;
    DueNext(start, k);
    if k == 0 {
      LookAtFirst(e, inst, now, dow);
    } else {
      DueNext(start, k - 1);
      if k > 1 { DuePositive(start, k - 1); } else { DueNext(start, 0); }
      assert After(e) == DueAt(start, k);
      LookAtRun(e, inst, now, dow);
    }
  }

  lemma LookAtRun(e: Event, inst: int, now: int, dow: int)
    requires e.periodic && 0 <= e.time && 0 <= e.lastrun && 0 < e.period && e.runToday && now < 0x8000
    ensures var l := CheckOne(e, e, inst, now, dow);
      && (l.fires <==> OfToday(e, inst, dow) && now >= After(e))
      && l.rec == (if l.fires then e.(lastrun := After(e)) else e) && l.copy == l.rec
  {
  }

  /** A look at a time of the day. */
  predicate InDay(s: Step) { !s.Clear? && (s.Check? ==> s.now < 0x8000) }

  lemma StepAlone(w: World, s: Step, e: nat, start: Event, k: nat)
    requires Alone(w) && e < |w.file| && InDay(s) && Fresh(start) && AfterRuns(start, w.file[e], k)
    ensures var v := Do(w, s);
      && Alone(v) && |v.file| == |w.file| && v.nodes[0].inst == w.nodes[0].inst
      && AfterRuns(start, v.file[e], if Fires(w, s, e) then k + 1 else k)
  {
    hide CheckOne, AfterRuns, Fresh;
    if Looks(w, s) {
      if s.e == e {
        LookAfterRuns(start, w.file[e], k, w.nodes[0].inst, s.now, s.dow);
      }
      OneRecord(w.file[s.e], w.nodes[0].inst, s.now, s.dow);
    }
  }

  lemma OneRecord(rec: Event, inst: int, now: int, dow: int)
    ensures var l := CheckOne(rec, rec, inst, now, dow); l.copy == l.rec
  {
  }

  /** Over every run of one instance without a clearing: after `k` runs the event is marked, and the runs recorded are
      its time and then one period more each. */
  lemma {:induction false} RunsArePeriodsApart(w: World, steps: seq<Step>, e: nat)
    requires Alone(w) && e < |w.file| && Fresh(w.file[e]) && forall i :: 0 <= i < |steps| ==> InDay(steps[i])
    ensures var v := Run(w, steps);
      && Alone(v) && e < |v.file| && v.nodes[0].inst == w.nodes[0].inst
      && AfterRuns(w.file[e], v.file[e], Firings(w, steps, e))
  {
    hide Do, AfterRuns, Fresh, Alone, Fires;
    if steps != [] {
      var n := |steps| - 1;
      RunsArePeriodsApart(w, steps[..n], e);
      AloneHasOne(Run(w, steps[..n]));
      StepAlone(Run(w, steps[..n]), steps[n], e, w.file[e], Firings(w, steps[..n], e));
    } else {
      NoRuns(w.file[e]);
    }
    AloneHasOne(w);
    AloneHasOne(Run(w, steps));
  }

  lemma AloneHasOne(w: World)
    requires Alone(w)
    ensures |w.nodes| == 1
  {
  }

  lemma NoRuns(e: Event)
    requires Fresh(e)
    ensures AfterRuns(e, e, 0)
  {
  }

  /** So after any such run, a look starts the event if and only if its next run is due, counted from its time. */
  lemma StartedWhenDue(w: World, steps: seq<Step>, e: nat, now: int, dow: int)
    requires Alone(w) && e < |w.file| && Fresh(w.file[e]) && forall i :: 0 <= i < |steps| ==> InDay(steps[i])
    requires now < 0x8000
    ensures var v := Run(w, steps);
      Fires(v, Check(0, e, now, dow), e) <==>
        && |v.nodes| == 1 && v.nodes[0].doEvent == 0 && OfToday(w.file[e], w.nodes[0].inst, dow)
        && now >= w.file[e].time + Firings(w, steps, e) * w.file[e].period
  {
    hide CheckOne, Run, Firings, Do;
    RunsArePeriodsApart(w, steps, e);
    LookAfterRuns(w.file[e], Run(w, steps).file[e], Firings(w, steps, e), w.nodes[0].inst, now, dow);
  }

  /** A clearing starts the count afresh, by the event's time. */
  lemma ClearedStartsAfresh(w: World, e: nat)
    requires Alone(w) && e < |w.file| && w.file[e].periodic && 0 <= w.file[e].time && 0 < w.file[e].period
    ensures var v := Do(w, Clear(0));
      && Alone(v) && e < |v.file| && Fresh(v.file[e]) && v.nodes[0].inst == w.nodes[0].inst
      && v.file[e].time == w.file[e].time && v.file[e].period == w.file[e].period && v.file[e].days == w.file[e].days
      && v.file[e].instance == w.file[e].instance
  {
  }

  // ----- several instances -----

  // An event of every hour from 01:00. The file says that it ran at 01:00 and 02:00; instance 2 knows of the first run
  // only.

  const HOURLY := Event("POLL", {0, 1, 2, 3, 4, 5, 6}, 60, 0, false, true, true, 60, 0)
  const BEHIND := World([HOURLY.(lastrun := 120)], [Node(1, [HOURLY.(lastrun := 120)], 0), Node(2, [HOURLY], 0)])

  /** At 03:00 instance 2 starts it for the run of 03:00, records 02:00, and starts it once more. */
  lemma StartedTwice(dow: int)
    requires 0 <= dow < 7
    ensures Agree(BEHIND)
    ensures var look := Check(1, 0, 180, dow);
      && Fires(BEHIND, look, 0) && Do(BEHIND, look).file[0].lastrun == 120
      && Fires(Do(Do(BEHIND, look), Ran(1)), look, 0)
  {
    hide CheckOne;
    var look := Check(1, 0, 180, dow);
    LookAtPeriodic(HOURLY, HOURLY.(lastrun := 120), 2, 180, dow);
    var v := Do(Do(BEHIND, look), Ran(1));
    assert v.file[0] == HOURLY.(lastrun := 120) && v.nodes[1].copy[0] == HOURLY.(lastrun := 120);
    LookAtPeriodic(v.nodes[1].copy[0], v.file[0], 2, 180, dow);
  }

  /** In every world: when a look starts an event that has run, the record is one period further than before if and only
      if the instance's copy had the record right. */
  lemma RecordAdvances(w: World, s: Step)
    requires Agree(w) && Looks(w, s) && Fires(w, s, s.e)
    requires var copy, rec := w.nodes[s.k].copy[s.e], w.file[s.e];
      Timed(copy) && Timed(rec) && copy.runToday && rec.runToday
    ensures var copy, rec := w.nodes[s.k].copy[s.e], w.file[s.e];
      Do(w, s).file[s.e].lastrun == After(rec) <==> After(copy) == After(rec)
    ensures s.now >= After(w.file[s.e])
  {
    hide CheckOne;
    assert SameTable(w.nodes[s.k].copy, w.file);
    LookAtPeriodic(w.nodes[s.k].copy[s.e], w.file[s.e], w.nodes[s.k].inst, s.now, s.dow);
  }
}
