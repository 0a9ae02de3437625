/** Several instances share one event file, each with a copy of it that may be stale. */
module EventLaws {
  import opened Events

  /** One instance: its number, its copy of the table, and the event it is about to run, or 0. */
  datatype Node = Node(inst: int, copy: seq<Event>, doEvent: nat)

  datatype World = World(file: seq<Event>, nodes: seq<Node>)

  /** What an instance does in one step: one turn of the loop of `check_event`, which reads and rewrites a record under
      the file's lock; `init_events`; the end of `run_event`; or the clearing in `cleanup_events`. */
  datatype Step =
    | Check(k: nat, e: nat, now: int, dow: int)
    | Load(k: nat)
    | Ran(k: nat)
    | Clear(k: nat)

  /** What an event is, whether it has run or not. */
  function Fixed(e: Event): Event { e.(runToday := false, lastrun := 0) }

  ghost predicate SameTable(s: seq<Event>, t: seq<Event>) {
    |s| == |t| && forall i :: 0 <= i < |s| ==> Fixed(s[i]) == Fixed(t[i])
  }

  /** The copies differ from the file only in what has run. */
  ghost predicate Agree(w: World) {
    forall k :: 0 <= k < |w.nodes| ==> SameTable(w.nodes[k].copy, w.file)
  }

  /** The event an instance looks at must be in its table and in the file, and no other event may be waiting to run. */
  predicate Looks(w: World, s: Step) {
    && s.Check? && s.k < |w.nodes| && w.nodes[s.k].doEvent == 0
    && s.e < |w.nodes[s.k].copy| && s.e < |w.file|
  }

  function LookOf(w: World, s: Step): Look
    requires Looks(w, s)
  {
    CheckOne(w.nodes[s.k].copy[s.e], w.file[s.e], w.nodes[s.k].inst, s.now, s.dow)
  }

  /** Whether this step starts event `e`. */
  predicate Fires(w: World, s: Step, e: nat) {
    Looks(w, s) && s.e == e && LookOf(w, s).fires
  }

  function Do(w: World, s: Step): World {
    if s.k >= |w.nodes| then w
    else
      var n := w.nodes[s.k];
      match s
      case Check(k, e, now, dow) =>
        if !Looks(w, s) then w
        else
          var l := LookOf(w, s);
          var n' := n.(copy := n.copy[e := l.copy], doEvent := if l.fires then e + 1 else 0);
          World(w.file[e := l.rec], w.nodes[k := n'])
      case Load(k) => w.(nodes := w.nodes[k := n.(copy := w.file)])
      case Ran(k) => w.(nodes := w.nodes[k := n.(doEvent := 0)])
      case Clear(k) =>
        var c := Cleared(n.copy);
        World(if |c| <= |w.file| then c + w.file[|c|..] else c, w.nodes[k := n.(copy := c)])
  }

  function Run(w: World, steps: seq<Step>): World {
    if steps == [] then w else Do(Run(w, steps[..|steps| - 1]), steps[|steps| - 1])
  }

  /** How often event `e` is started. */
  function Firings(w: World, steps: seq<Step>, e: nat): nat {
    if steps == [] then 0
    else
      var n := |steps| - 1;
      Firings(w, steps[..n], e) + if Fires(Run(w, steps[..n]), steps[n], e) then 1 else 0
  }

  /** How often a clearing finds event `e` marked as run. */
  function Resets(w: World, steps: seq<Step>, e: nat): nat {
    if steps == [] then 0
    else
      var n := |steps| - 1;
      Resets(w, steps[..n], e)
      + if steps[n].Clear? && steps[n].k < |w.nodes| && HasRun(Run(w, steps[..n]), e) then 1 else 0
  }

  predicate HasRun(w: World, e: nat) { e < |w.file| && w.file[e].runToday }

  function Mark(w: World, e: nat): nat { if HasRun(w, e) then 1 else 0 }

  // ----- what every step keeps -----

  lemma OneLook(copy: Event, rec: Event, inst: int, now: int, dow: int)
    requires Fixed(copy) == Fixed(rec)
    ensures var l := CheckOne(copy, rec, inst, now, dow);
      Fixed(l.copy) == Fixed(rec) && Fixed(l.rec) == Fixed(rec)
    ensures var l := CheckOne(copy, rec, inst, now, dow);
      !rec.periodic ==> (l.fires <==> !rec.runToday && l.rec.runToday) && (rec.runToday ==> l.rec.runToday)
  {
    assert copy.periodic == Fixed(copy).periodic == rec.periodic;
  }

  lemma SameTableAt(s: seq<Event>, t: seq<Event>, e: nat, x: Event, y: Event)
    requires SameTable(s, t) && e < |s| && Fixed(y) == Fixed(t[e]) && Fixed(x) == Fixed(t[e])
    ensures SameTable(s[e := x], t[e := y]) && SameTable(s, t[e := y])
  {
  }

  /** A step keeps the tables in agreement, and what each event is. */
  lemma StepAgrees(w: World, s: Step)
    requires Agree(w)
    ensures Agree(Do(w, s)) && SameTable(Do(w, s).file, w.file) && |Do(w, s).nodes| == |w.nodes|
  {
    hide CheckOne, Fixed;
    var w' := Do(w, s);
    if s.k < |w.nodes| {
      assert SameTable(w.nodes[s.k].copy, w.file);
      match s
      case Check(k, e, now, dow) =>
        if Looks(w, s) {
          OneLook(w.nodes[k].copy[e], w.file[e], w.nodes[k].inst, now, dow);
          var l := LookOf(w, s);
          forall j | 0 <= j < |w.nodes|
            ensures SameTable(w'.nodes[j].copy, w'.file)
          {
            SameTableAt(w.nodes[j].copy, w.file, e, l.copy, l.rec);
          }
        }
      case Load(k) =>
      case Ran(k) =>
      case Clear(k) =>
        ClearedTable(w.nodes[k].copy);
        assert w'.file == Cleared(w.nodes[k].copy);
    }
  }

  lemma ClearedTable(s: seq<Event>)
    ensures SameTable(Cleared(s), s)
  {
  }

  lemma {:induction false} RunAgrees(w: World, steps: seq<Step>)
    requires Agree(w)
    ensures Agree(Run(w, steps)) && SameTable(Run(w, steps).file, w.file) && |Run(w, steps).nodes| == |w.nodes|
  {
    hide Do, Agree, Fixed;
    if steps != [] {
      var n := |steps| - 1;
      RunAgrees(w, steps[..n]);
      StepAgrees(Run(w, steps[..n]), steps[n]);
    } else {
      SameAsItself(w.file);
    }
  }

  lemma SameAsItself(s: seq<Event>)
    ensures SameTable(s, s)
  {
  }

  /** One step of any instance: an event that is not periodic is started exactly when the step marks it in the file,
      and only a clearing takes the mark away. */
  lemma StepBalance(w: World, s: Step, e: nat)
    requires Agree(w) && e < |w.file| && !w.file[e].periodic
    ensures Mark(w, e) + (if Fires(w, s, e) then 1 else 0)
         == Mark(Do(w, s), e) + (if s.Clear? && s.k < |w.nodes| && HasRun(w, e) then 1 else 0)
  {
    hide CheckOne, Fixed;
    if s.k < |w.nodes| {
      assert SameTable(w.nodes[s.k].copy, w.file);
      if Looks(w, s) {
        OneLook(w.nodes[s.k].copy[s.e], w.file[s.e], w.nodes[s.k].inst, s.now, s.dow);
      }
    }
  }

  /** Over every run of any number of instances, with any stale copies: an event that is not periodic is started
      once for every time its mark was cleared, and once more if it ends the run marked but did not begin it so. */
  lemma {:induction false} FiringsBalance(w: World, steps: seq<Step>, e: nat)
    requires Agree(w) && e < |w.file| && !w.file[e].periodic
    ensures Mark(w, e) + Firings(w, steps, e) == Mark(Run(w, steps), e) + Resets(w, steps, e)
  {
    hide Do, Agree, Mark, HasRun, Fires;
    if steps != [] {
      var n := |steps| - 1;
      FiringsBalance(w, steps[..n], e);
      RunAgrees(w, steps[..n]);
      var v := Run(w, steps[..n]);
      StillNotPeriodic(v.file, w.file, e);
      StepBalance(v, steps[n], e);
    }
  }

  lemma StillNotPeriodic(s: seq<Event>, t: seq<Event>, e: nat)
    requires SameTable(s, t) && e < |t| && !t[e].periodic
    ensures !s[e].periodic
  {
    assert s[e].periodic == Fixed(s[e]).periodic == Fixed(t[e]).periodic;
  }

  lemma {:induction false} NoClearNoReset(w: World, steps: seq<Step>, e: nat)
    requires forall i :: 0 <= i < |steps| ==> !steps[i].Clear?
    ensures Resets(w, steps, e) == 0
  {
    if steps != [] { NoClearNoReset(w, steps[..|steps| - 1], e); }
  }

  /** Between clears an event that is not periodic is started at most once by all the instances together: it is
      started exactly when it was not marked before and is marked after. */
  lemma AtMostOnce(w: World, steps: seq<Step>, e: nat)
    requires Agree(w) && e < |w.file| && !w.file[e].periodic
    requires forall i :: 0 <= i < |steps| ==> !steps[i].Clear?
    ensures Firings(w, steps, e) <= 1
    ensures Firings(w, steps, e) == 1 <==> !HasRun(w, e) && HasRun(Run(w, steps), e)
  {
    FiringsBalance(w, steps, e);
    NoClearNoReset(w, steps, e);
  }

  // ----- when an event is started -----

  /** What an instance goes by when it looks at an event. */
  predicate IsDue(e: Event, inst: int, now: int, dow: int) {
    e.time <= now && dow in e.days && (e.instance == inst || e.instance == 0)
  }

  /** An event that is not periodic is started exactly when it is due and neither the file nor the instance's own
      copy says that it has run. A copy that is stale can only hold it back. */
  lemma FiresWhenDue(w: World, s: Step)
    requires Agree(w) && Looks(w, s) && !w.file[s.e].periodic
    ensures Fires(w, s, s.e) <==>
      IsDue(w.file[s.e], w.nodes[s.k].inst, s.now, s.dow) && !w.file[s.e].runToday && !w.nodes[s.k].copy[s.e].runToday
  {
    var copy, rec := w.nodes[s.k].copy[s.e], w.file[s.e];
    assert SameTable(w.nodes[s.k].copy, w.file);
    assert Fixed(copy).time == rec.time && Fixed(copy).days == rec.days && Fixed(copy).instance == rec.instance;
    assert Fixed(copy).periodic == rec.periodic;
  }

  lemma DueInEveryCopy(w: World, k: nat, e: nat, inst: int, now: int, dow: int)
    requires Agree(w) && k < |w.nodes| && e < |w.file|
    ensures |w.nodes[k].copy| == |w.file|
    ensures var c := w.nodes[k].copy[e];
      IsDue(c, inst, now, dow) == IsDue(w.file[e], inst, now, dow) && c.periodic == w.file[e].periodic
  {
    assert SameTable(w.nodes[k].copy, w.file);
    assert Fixed(w.nodes[k].copy[e]) == Fixed(w.file[e]);
  }

  /** After instance `j` has cleared the file, instance `k` starts a due event exactly when it is the one that
      cleared, or its own copy did not say that the event had run. */
  lemma ClearedRunsAgain(w: World, j: nat, k: nat, e: nat, now: int, dow: int)
    requires Agree(w) && j < |w.nodes| && k < |w.nodes| && w.nodes[k].doEvent == 0
    requires e < |w.file| && !w.file[e].periodic && IsDue(w.file[e], w.nodes[k].inst, now, dow)
    ensures Fires(Do(w, Clear(j)), Check(k, e, now, dow), e) <==> j == k || !w.nodes[k].copy[e].runToday
  {
    hide CheckOne, Fixed, IsDue;
    DueInEveryCopy(w, j, e, w.nodes[k].inst, now, dow);
    DueInEveryCopy(w, k, e, w.nodes[k].inst, now, dow);
    StepAgrees(w, Clear(j));
    var v := Do(w, Clear(j));
    assert v.file == Cleared(w.nodes[j].copy);
    ClearedIsDue(w.nodes[j].copy, e, w.nodes[k].inst, now, dow);
    FiresWhenDue(v, Check(k, e, now, dow));
  }

  lemma ClearedIsDue(s: seq<Event>, e: nat, inst: int, now: int, dow: int)
    requires e < |s|
    ensures var c := Cleared(s)[e];
      IsDue(c, inst, now, dow) == IsDue(s[e], inst, now, dow) && c.periodic == s[e].periodic && !c.runToday
  {
  }

  predicate Refreshes(s: Step, k: nat) { (s.Load? || s.Clear?) && s.k == k }

  /** What instance `k`'s copy says of an event that is not periodic stays said until `k` itself reads the file again
      or clears. */
  lemma StepStaysStale(w: World, s: Step, k: nat, e: nat)
    requires k < |w.nodes| && e < |w.nodes[k].copy|
    requires w.nodes[k].copy[e].runToday && !w.nodes[k].copy[e].periodic && !Refreshes(s, k)
    ensures var w' := Do(w, s);
      && |w'.nodes| == |w.nodes| && |w'.nodes[k].copy| == |w.nodes[k].copy|
      && w'.nodes[k].copy[e] == w.nodes[k].copy[e]
    ensures s.k == k ==> !Fires(w, s, e)
  {
  }

  /** So an instance that never reads the file again nor clears never starts the event again, however often the
      others clear. */
  lemma {:induction false} StaleNeverRunsAgain(w: World, steps: seq<Step>, k: nat, e: nat)
    requires k < |w.nodes| && e < |w.nodes[k].copy|
    requires w.nodes[k].copy[e].runToday && !w.nodes[k].copy[e].periodic
    requires forall i :: 0 <= i < |steps| ==> !Refreshes(steps[i], k)
    ensures var v := Run(w, steps);
      && |v.nodes| == |w.nodes| && |v.nodes[k].copy| == |w.nodes[k].copy|
      && v.nodes[k].copy[e] == w.nodes[k].copy[e]
    ensures forall i :: 0 <= i < |steps| && steps[i].k == k ==> !Fires(Run(w, steps[..i]), steps[i], e)
  {
    hide Do, Fires;
    if steps != [] {
      var n := |steps| - 1;
      StaleNeverRunsAgain(w, steps[..n], k, e);
      StepStaysStale(Run(w, steps[..n]), steps[n], k, e);
      forall i | 0 <= i < |steps| && steps[i].k == k
        ensures !Fires(Run(w, steps[..i]), steps[i], e)
      {
        if i < n { assert steps[..n][..i] == steps[..i] && steps[..n][i] == steps[i]; }
      }
    }
  }

  // An event of every day at midnight, run by instance 1 and by instance 2; instance 1 clears.

  const NIGHTLY := Event("BACKUP", {0, 1, 2, 3, 4, 5, 6}, 0, 0, false, false, true, 0, 0)
  const AFTER_ITS_RUN := World([NIGHTLY], [Node(1, [NIGHTLY], 0), Node(2, [NIGHTLY], 0)])

  /** The instance that cleared starts the event again; the other one does not, although the event is due. */
  lemma OnlyTheClearerRunsIt(now: int, dow: int)
    requires 0 <= now && 0 <= dow < 7
    ensures Agree(AFTER_ITS_RUN)
    ensures var w := Do(AFTER_ITS_RUN, Clear(0));
      && IsDue(w.file[0], 2, now, dow) && !w.file[0].runToday
      && Fires(w, Check(0, 0, now, dow), 0) && !Fires(w, Check(1, 0, now, dow), 0)
  {
    ClearedRunsAgain(AFTER_ITS_RUN, 0, 0, 0, now, dow);
    ClearedRunsAgain(AFTER_ITS_RUN, 0, 1, 0, now, dow);
  }

  // ----- the loop is such a run -----

  /** The turns of the loop of `check_event` from event `i` on. */
  function Turns(k: nat, i: nat, n: nat, now: int, dow: int): (r: seq<Step>)
    decreases n - i
  {
    if i >= n then [] else [Check(k, i, now, dow)] + Turns(k, i + 1, n, now, dow)
  }

  lemma {:induction false} RunSplits(w: World, s: Step, steps: seq<Step>)
    ensures Run(w, [s] + steps) == Run(Do(w, s), steps)
  {
    if steps == [] {
      assert [s] + steps == [s] && [s][..0] == [];
      assert Run(w, []) == w;
    } else {
      var n := |steps| - 1;
      assert ([s] + steps)[..n + 1] == [s] + steps[..n];
      RunSplits(w, s, steps[..n]);
    }
  }

  /** An instance that is running an event looks at no other. */
  lemma {:induction false} BusyTurns(w: World, k: nat, i: nat, n: nat, now: int, dow: int)
    requires k < |w.nodes| && w.nodes[k].doEvent != 0
    ensures Run(w, Turns(k, i, n, now, dow)) == w
    decreases n - i
  {
    if i < n {
      RunSplits(w, Check(k, i, now, dow), Turns(k, i + 1, n, now, dow));
      BusyTurns(w, k, i + 1, n, now, dow);
    }
  }

  lemma TurnTaken(w: World, k: nat, i: nat, now: int, dow: int)
    requires k < |w.nodes| && w.nodes[k].doEvent == 0 && i < |w.nodes[k].copy| <= |w.file|
    ensures var n := w.nodes[k];
      var l := CheckOne(n.copy[i], w.file[i], n.inst, now, dow);
      Do(w, Check(k, i, now, dow))
        == World(w.file[i := l.rec],
                 w.nodes[k := Node(n.inst, n.copy[i := l.copy], if l.fires then i + 1 else 0)])
  {
    hide CheckOne;
  }

  /** The whole of `check_event` is the turns of its loop, one after the other; other instances may step in between. */
  lemma {:induction false} CheckEventIsARun(w: World, k: nat, i: nat, now: int, dow: int)
    requires k < |w.nodes| && w.nodes[k].doEvent == 0 && i <= |w.nodes[k].copy| <= |w.file|
    ensures var n := w.nodes[k];
      var r := CheckFrom(n.copy, w.file, i, n.inst, now, dow);
      Run(w, Turns(k, i, |n.copy|, now, dow)) == World(r.file, w.nodes[k := Node(n.inst, r.copies, r.doEvent)])
    decreases |w.nodes[k].copy| - i
  {
    hide CheckOne, Do;
    var n := w.nodes[k];
    if i == |n.copy| {
      assert w.nodes[k := Node(n.inst, n.copy, 0)] == w.nodes;
    } else {
      hide Run;
      var s := Check(k, i, now, dow);
      var v := Do(w, s);
      TurnTaken(w, k, i, now, dow);
      RunSplits(w, s, Turns(k, i + 1, |n.copy|, now, dow));
      if v.nodes[k].doEvent != 0 {
        BusyTurns(v, k, i + 1, |n.copy|, now, dow);
      } else {
        CheckEventIsARun(v, k, i + 1, now, dow);
        var r := CheckFrom(v.nodes[k].copy, v.file, i + 1, n.inst, now, dow);
        assert v.nodes[k := Node(n.inst, r.copies, r.doEvent)] == w.nodes[k := Node(n.inst, r.copies, r.doEvent)];
      }
    }
  }

  // ----- whose events are started -----

  lemma StepKeepsInstances(w: World, s: Step, k: nat)
    requires k < |w.nodes|
    ensures |Do(w, s).nodes| == |w.nodes| && Do(w, s).nodes[k].inst == w.nodes[k].inst
  {
    hide CheckOne;
  }

  lemma {:induction false} RunKeepsInstances(w: World, steps: seq<Step>, k: nat)
    requires k < |w.nodes|
    ensures |Run(w, steps).nodes| == |w.nodes| && Run(w, steps).nodes[k].inst == w.nodes[k].inst
  {
    hide Do;
    if steps != [] {
      var n := |steps| - 1;
      RunKeepsInstances(w, steps[..n], k);
      StepKeepsInstances(Run(w, steps[..n]), steps[n], k);
    }
  }

  lemma FiredIsMine(w: World, s: Step, e: nat)
    requires Agree(w) && Fires(w, s, e)
    ensures e < |w.file| && (w.file[e].instance == 0 || w.file[e].instance == w.nodes[s.k].inst)
  {
    assert SameTable(w.nodes[s.k].copy, w.file);
    assert Fixed(w.nodes[s.k].copy[e]).instance == w.file[e].instance;
  }

  /** Over every run, an instance starts only its own events and those of every instance. */
  lemma StartsOnlyItsOwn(w: World, steps: seq<Step>, i: nat, e: nat)
    requires Agree(w) && i < |steps| && Fires(Run(w, steps[..i]), steps[i], e)
    ensures e < |w.file| && steps[i].k < |w.nodes|
    ensures w.file[e].instance == 0 || w.file[e].instance == w.nodes[steps[i].k].inst
  {
    hide Do, CheckOne;
    var v := Run(w, steps[..i]);
    RunAgrees(w, steps[..i]);
    RunKeepsInstances(w, steps[..i], steps[i].k);
    FiredIsMine(v, steps[i], e);
    assert Fixed(v.file[e]).instance == Fixed(w.file[e]).instance;
  }

  // ----- the next forced event -----

  /** A forced event of this instance that is still to run on day `dow`. */
  predicate StillToday(e: Event, inst: int, dow: int) {
    e.forced && !e.runToday && dow in e.days && (e.instance == inst || e.instance == 0)
  }

  /** One whose time is over, and that runs again on the day after. */
  predicate AgainTomorrow(e: Event, inst: int, now: int, dow: int) {
    e.forced && e.time < now && (dow + 1) % 7 in e.days && (e.instance == inst || e.instance == 0)
  }

  /** The two results are those of event `e`: its time, with one minute past for midnight, and its seconds. */
  predicate TimesOf(e: Event, executetime: int, timeEvent: int) {
    executetime == (if e.time == 0 then 1 else e.time) && timeEvent == 60 * e.time
  }

  /** The results are those of an event of today that no other event of today precedes. */
  ghost predicate FirstToday(s: seq<Event>, inst: int, dow: int, executetime: int, timeEvent: int) {
    exists i ::
      && 0 <= i < |s| && StillToday(s[i], inst, dow) && TimesOf(s[i], executetime, timeEvent)
      && forall j :: 0 <= j < |s| && StillToday(s[j], inst, dow) ==> s[i].time <= s[j].time
  }

  ghost predicate FirstTomorrow(s: seq<Event>, inst: int, now: int, dow: int, executetime: int, timeEvent: int) {
    exists i ::
      && 0 <= i < |s| && AgainTomorrow(s[i], inst, now, dow) && TimesOf(s[i], executetime, timeEvent)
      && forall j :: 0 <= j < |s| && AgainTomorrow(s[j], inst, now, dow) ==> s[i].time <= s[j].time
  }

  /** `get_next_forced_event` finds the first event of today; if there is none, the first of tomorrow; if there is none
      either, nothing. */
  lemma NextForcedIs(s: seq<Event>, inst: int, now: int, dow: int, executetime: int, timeEvent: int)
    requires NextForced(s, inst, now, dow, executetime, timeEvent) && 0 <= dow < 7
    ensures
      if exists i :: 0 <= i < |s| && StillToday(s[i], inst, dow) then
        FirstToday(s, inst, dow, executetime, timeEvent)
      else if exists i :: 0 <= i < |s| && AgainTomorrow(s[i], inst, now, dow) then
        FirstTomorrow(s, inst, now, dow, executetime, timeEvent)
      else executetime == 0 && timeEvent == 0
  {
    var today, tomorrow := Today(inst, dow), Tomorrow(inst, now, dow);
    assert forall e :: today(e) <==> StillToday(e, inst, dow);
    assert forall e :: tomorrow(e) <==> AgainTomorrow(e, inst, now, dow);
    if i :| 0 <= i < |s| && StillToday(s[i], inst, dow) {
      assert today(s[i]);
      var t :| Earliest(s, today, t) && executetime == Due(t) && timeEvent == 60 * t;
    } else if i :| 0 <= i < |s| && AgainTomorrow(s[i], inst, now, dow) {
      assert tomorrow(s[i]);
      var t :| Earliest(s, tomorrow, t) && executetime == Due(t) && timeEvent == 60 * t;
    }
  }
}
