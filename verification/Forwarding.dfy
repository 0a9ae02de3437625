/** Mail forwarding (`ForwardMessage`, `bbs/email.cpp`): a walk along the users' forwarding addresses. */
module Forwarding {
  import opened Seqs

  /** The forwarding fields of a user record. */
  datatype User = User(deleted: bool, fuser: nat, fsys: nat)

  /** The forwarding user number of a closed mailbox, and of one forwarded to the Internet. */
  const CLOSED := 65535
  const INTERNET := 32767

  datatype Kind = Ends | Away | Shut | Open

  function KindOf(u: User): Kind {
    if u.fsys != 0 then Away
    else if u.fuser == 0 then Ends
    else if u.fuser == CLOSED then Shut
    else Open
  }

  /** A number without a record is read as the record read before it, which forwards to that same number. */
  function Record(users: seq<User>, n: nat): User {
    if n < |users| then users[n] else User(true, n, 0)
  }

  /** The mailbox `k` local forwardings after `start`. */
  function Hop(users: seq<User>, start: nat, k: nat): nat {
    if k == 0 then start else Record(users, Hop(users, start, k - 1)).fuser
  }

  /** What `valid_system` and `check_inet_addr` say, and whether the caller is a sysop. */
  datatype World = World(validSystem: nat -> bool, inetOk: nat -> bool, sysop: bool)

  datatype Outcome = Outcome(ok: bool, user: nat, system: nat)

  /** The first mailbox after the start that does not pass the letter on to another local user. */
  ghost predicate StopsAt(users: seq<User>, start: nat, k: nat) {
    && k >= 1 && KindOf(Record(users, Hop(users, start, k))) != Open
    && forall j :: 1 <= j < k ==> KindOf(Record(users, Hop(users, start, j))) == Open
  }

  /** What becomes of a letter that stops at user `u`. */
  function Delivered(w: World, start: nat, u: nat, r: User): Outcome {
    match KindOf(r)
    case Ends => Outcome(true, u, 0)
    case Away => if w.validSystem(r.fsys) then Outcome(true, r.fuser, r.fsys) else Outcome(false, start, 0)
    case Shut => if w.sysop then Outcome(false, u, 0) else Outcome(false, 0, 0)
    case Open => Outcome(false, start, 0)
  }

  /** The outcome decided by the addressee's own record. */
  function FromStart(w: World, start: nat, r: User): Outcome {
    if r.deleted then Outcome(false, start, 0)
    else match KindOf(r)
      case Away =>
        if r.fuser == INTERNET then Outcome(false, 0, 0)
        else if !w.validSystem(r.fsys) || (r.fuser == 0 && !w.inetOk(start)) then Outcome(false, start, 0)
        else Outcome(true, r.fuser, r.fsys)
      case Shut => if w.sysop then Outcome(false, start, 0) else Outcome(false, 0, 0)
      case _ => Outcome(false, start, 0)
  }

  /** The addressee is a user of this system who forwards to another local user. */
  predicate PassedOn(users: seq<User>, n: nat, system: nat) {
    system == 0 && n < |users| && !users[n].deleted && KindOf(users[n]) == Open
  }

  /** The letter goes where the walk stops; if it never stops, nothing changes. */
  ghost predicate WalkDecides(users: seq<User>, w: World, start: nat, res: Outcome) {
    && (forall k: nat :: StopsAt(users, start, k) ==>
          res == Delivered(w, start, Hop(users, start, k), Record(users, Hop(users, start, k))))
    && ((forall k: nat :: !StopsAt(users, start, k)) ==> res == Outcome(false, start, 0))
  }

  /** What `ForwardMessage` does. */
  ghost predicate Forwards(users: seq<User>, w: World, n: nat, system: nat, res: Outcome) {
    && (system != 0 ==> res == Outcome(false, n, system))
    && (system == 0 && !PassedOn(users, n, system) ==> res == FromStart(w, n, Record(users, n)))
    && (PassedOn(users, n, system) ==> WalkDecides(users, w, n, res))
  }

  /** User numbers fit the table of visited users. */
  predicate Fits(users: seq<User>, limit: nat) {
    |users| <= limit
    && forall i :: 0 <= i < |users| && KindOf(users[i]) == Open ==> users[i].fuser < limit
  }

  /** `ForwardMessage`. The table of visited users starts out empty. */
  method ForwardMessage(users: seq<User>, w: World, userNumber: nat, systemNumber: nat, limit: nat)
    returns (res: Outcome)
    requires Fits(users, limit) && limit < CLOSED && userNumber < limit
    ensures Forwards(users, w, userNumber, systemNumber, res)
  {
    if systemNumber != 0 {
      return Outcome(false, userNumber, systemNumber);
    }
    var userRecord := Record(users, userNumber);
    if userRecord.deleted {
      return Outcome(false, userNumber, 0);
    }
    if userRecord.fuser == 0 && userRecord.fsys == 0 {
      return Outcome(false, userNumber, 0);
    }
    if userRecord.fsys != 0 {
      if userRecord.fuser != INTERNET {
        if !w.validSystem(userRecord.fsys) {
          return Outcome(false, userNumber, 0);
        }
        if userRecord.fuser == 0 {
          if !w.inetOk(userNumber) {
            return Outcome(false, userNumber, 0);
          }
        }
        return Outcome(true, userRecord.fuser, userRecord.fsys);
      } else {
        return Outcome(false, 0, 0);
      }
    }
    var nCurrentUser := userRecord.fuser;
    if nCurrentUser == CLOSED {
      return if w.sysop then Outcome(false, userNumber, 0) else Outcome(false, 0, 0);
    }
    res := Walk(users, w, userNumber, nCurrentUser, limit);
  }

  /** The loop of `ForwardMessage`. */
  method Walk(users: seq<User>, w: World, start: nat, first: nat, limit: nat) returns (res: Outcome)
    requires Fits(users, limit) && limit < CLOSED && start < |users|
    requires KindOf(users[start]) == Open && first == users[start].fuser
    ensures WalkDecides(users, w, start, res)
  {
    hide KindOf, Hop, StopsAt, WalkDecides, WalkedOpen;
    var ss := new bool[limit](_ => false);
    ss[start] := true;
    var nCurrentUser: nat := first;
    var userRecord := Record(users, nCurrentUser);
    ghost var path: seq<nat> := [start];
    FirstStep(users, start);
    KindsAre(userRecord);
    while userRecord.fuser != 0 || userRecord.fsys != 0
      invariant nCurrentUser < limit && userRecord == Record(users, nCurrentUser)
      invariant WalkedOpen(users, start, path) && nCurrentUser == Hop(users, start, |path|)
      invariant forall n :: 0 <= n < limit ==> (ss[n] <==> n in path)
      invariant Distinct(path) && forall i :: 0 <= i < |path| ==> path[i] < limit
      decreases limit - |path|
    {
      KindsAre(userRecord);
      DistinctBelow(path, limit);
      if userRecord.fsys != 0 {
        StopDecides(users, w, start, path);
        if !w.validSystem(userRecord.fsys) {
          return Outcome(false, start, 0);
        }
        return Outcome(true, userRecord.fuser, userRecord.fsys);
      }
      if ss[nCurrentUser] {
        CycleDecides(users, w, start, path);
        return Outcome(false, start, 0);
      }
      ss[nCurrentUser] := true;
      if userRecord.fuser == CLOSED {
        StopDecides(users, w, start, path);
        return if w.sysop then Outcome(false, nCurrentUser, 0) else Outcome(false, 0, 0);
      }
      OneStep(users, start, path);
      NextFits(users, limit, nCurrentUser);
      path := path + [nCurrentUser];
      nCurrentUser := userRecord.fuser;
      userRecord := Record(users, nCurrentUser);
    }
    KindsAre(userRecord);
    StopDecides(users, w, start, path);
    res := Outcome(true, nCurrentUser, 0);
  }

  /** The mailboxes met so far, all of them open. */
  ghost predicate WalkedOpen(users: seq<User>, start: nat, path: seq<nat>) {
    |path| >= 1 && forall j :: 0 <= j < |path| ==>
      path[j] == Hop(users, start, j) && KindOf(Record(users, path[j])) == Open
  }

  lemma KindsAre(r: User)
    ensures KindOf(r) == Away <==> r.fsys != 0
    ensures KindOf(r) == Ends <==> r.fsys == 0 && r.fuser == 0
    ensures KindOf(r) == Shut <==> r.fsys == 0 && r.fuser == CLOSED
  {
  }

  lemma FirstStep(users: seq<User>, start: nat)
    requires KindOf(Record(users, start)) == Open
    ensures WalkedOpen(users, start, [start]) && Hop(users, start, 1) == Record(users, start).fuser
  {
    assert Hop(users, start, 1) == Record(users, Hop(users, start, 0)).fuser;
  }

  lemma OneStep(users: seq<User>, start: nat, path: seq<nat>)
    requires WalkedOpen(users, start, path)
    requires KindOf(Record(users, Hop(users, start, |path|))) == Open
    ensures WalkedOpen(users, start, path + [Hop(users, start, |path|)])
    ensures Hop(users, start, |path| + 1) == Record(users, Hop(users, start, |path|)).fuser
  {
  }

  lemma NextFits(users: seq<User>, limit: nat, n: nat)
    requires Fits(users, limit) && n < limit && KindOf(Record(users, n)) == Open
    ensures Record(users, n).fuser < limit
  {
  }

  lemma StopDecides(users: seq<User>, w: World, start: nat, path: seq<nat>)
    requires WalkedOpen(users, start, path)
    requires KindOf(Record(users, Hop(users, start, |path|))) != Open
    ensures var u := Hop(users, start, |path|);
      WalkDecides(users, w, start, Delivered(w, start, u, Record(users, u)))
  {
    StopIsHere(users, start, |path|);
  }

  lemma CycleDecides(users: seq<User>, w: World, start: nat, path: seq<nat>)
    requires WalkedOpen(users, start, path) && Hop(users, start, |path|) in path
    ensures WalkDecides(users, w, start, Outcome(false, start, 0))
  {
    var j :| 0 <= j < |path| && path[j] == Hop(users, start, |path|);
    NeverStops(users, start, j, |path|);
  }

  lemma DistinctBelow(s: seq<nat>, n: nat)
    requires Distinct(s) && forall i :: 0 <= i < |s| ==> s[i] < n
    ensures |s| <= n
  {
    if |s| > n {
      var j, k := TwoHopsMeet(s, n);
    }
  }

  /** The walk stops at one place only. */
  lemma StopIsHere(users: seq<User>, start: nat, k: nat)
    requires k >= 1 && KindOf(Record(users, Hop(users, start, k))) != Open
    requires forall j :: 0 <= j < k ==> KindOf(Record(users, Hop(users, start, j))) == Open
    ensures StopsAt(users, start, k) && forall m: nat :: StopsAt(users, start, m) ==> m == k
  {
    forall m: nat | StopsAt(users, start, m)
      ensures m == k
    {
      assert !(1 <= k < m);
    }
  }

  /** Once a mailbox comes round again, the mailboxes repeat. */
  lemma {:induction false} HopsRepeat(users: seq<User>, start: nat, j: nat, k: nat, m: nat)
    requires j < k <= m && Hop(users, start, j) == Hop(users, start, k)
    ensures Hop(users, start, m) == Hop(users, start, m - (k - j))
  {
    if m > k { HopsRepeat(users, start, j, k, m - 1); }
  }

  /** A walk that meets a mailbox again never stops. */
  lemma NeverStops(users: seq<User>, start: nat, j: nat, k: nat)
    requires j < k && Hop(users, start, j) == Hop(users, start, k)
    requires forall i :: 0 <= i < k ==> KindOf(Record(users, Hop(users, start, i))) == Open
    ensures forall m: nat :: !StopsAt(users, start, m)
  {
    forall m: nat
      ensures KindOf(Record(users, Hop(users, start, m))) == Open
    {
      AlwaysOpen(users, start, j, k, m);
    }
  }

  lemma {:induction false} AlwaysOpen(users: seq<User>, start: nat, j: nat, k: nat, m: nat)
    requires j < k && Hop(users, start, j) == Hop(users, start, k)
    requires forall i :: 0 <= i < k ==> KindOf(Record(users, Hop(users, start, i))) == Open
    ensures KindOf(Record(users, Hop(users, start, m))) == Open
    decreases m
  {
    if m >= k {
      HopsRepeat(users, start, j, k, m);
      AlwaysOpen(users, start, j, k, m - (k - j));
    }
  }

  // ----- no stop means a cycle -----

  /** Some mailbox is met twice on a way of open mailboxes. */
  ghost predicate Cycles(users: seq<User>, start: nat) {
    exists j, k :: 0 <= j < k && Hop(users, start, j) == Hop(users, start, k)
      && forall i :: 0 <= i < k ==> KindOf(Record(users, Hop(users, start, i))) == Open
  }

  lemma {:induction false} OpenHopsFit(users: seq<User>, start: nat, limit: nat, k: nat)
    requires Fits(users, limit) && start < limit
    requires forall i :: 0 <= i < k ==> KindOf(Record(users, Hop(users, start, i))) == Open
    ensures Hop(users, start, k) < limit
  {
    if k > 0 { OpenHopsFit(users, start, limit, k - 1); }
  }

  lemma {:induction false} OpenUpTo(users: seq<User>, start: nat, k: nat)
    requires KindOf(Record(users, start)) == Open && forall m: nat :: !StopsAt(users, start, m)
    ensures KindOf(Record(users, Hop(users, start, k))) == Open
    decreases k
  {
    forall j | 1 <= j < k
      ensures KindOf(Record(users, Hop(users, start, j))) == Open
    {
      OpenUpTo(users, start, j);
    }
    assert !StopsAt(users, start, k);
  }

  /** Among more hops than user numbers two are the same. */
  lemma {:induction false} TwoHopsMeet(hops: seq<nat>, limit: nat) returns (j: nat, k: nat)
    requires |hops| > limit && forall i :: 0 <= i < |hops| ==> hops[i] < limit
    ensures j < k < |hops| && hops[j] == hops[k]
    decreases limit
  {
    var last := |hops| - 1;
    if exists i :: 0 <= i < last && hops[i] == hops[last] {
      j :| 0 <= j < last && hops[j] == hops[last];
      k := last;
    } else {
      // the value of the last one is used up: close the gap it leaves
      var x := hops[last];
      var rest := seq(last, i requires 0 <= i < last => if hops[i] > x then hops[i] - 1 else hops[i]);
      forall i | 0 <= i < |rest|
        ensures rest[i] < limit - 1
      {
        assert hops[i] != x;
      }
      j, k := TwoHopsMeet(rest, limit - 1);
      assert hops[j] != x && hops[k] != x;
    }
  }

  /** From an open mailbox the walk fails to stop exactly when it runs into a cycle. */
  lemma NoStopMeansCycle(users: seq<User>, start: nat, limit: nat)
    requires Fits(users, limit) && start < limit && KindOf(Record(users, start)) == Open
    ensures (forall k: nat :: !StopsAt(users, start, k)) <==> Cycles(users, start)
  {
    if forall k: nat :: !StopsAt(users, start, k) {
      forall i: nat
        ensures KindOf(Record(users, Hop(users, start, i))) == Open && Hop(users, start, i) < limit
      {
        forall m | 0 <= m <= i
          ensures KindOf(Record(users, Hop(users, start, m))) == Open
        {
          OpenUpTo(users, start, m);
        }
        OpenHopsFit(users, start, limit, i);
      }
      var hops := seq(limit + 1, i requires 0 <= i <= limit => Hop(users, start, i));
      var j, k := TwoHopsMeet(hops, limit);
      assert Hop(users, start, j) == Hop(users, start, k);
    }
    if Cycles(users, start) {
      var j, k :| 0 <= j < k && Hop(users, start, j) == Hop(users, start, k)
        && forall i :: 0 <= i < k ==> KindOf(Record(users, Hop(users, start, i))) == Open;
      NeverStops(users, start, j, k);
    }
  }

  // ----- where the letter goes -----

  /** The addressee and every mailbox up to number `k` pass the letter on, and mailbox `k` does not. */
  ghost predicate ComesTo(users: seq<User>, n: nat, system: nat, k: nat) {
    && system == 0 && k >= 1 && n < |users| && !users[n].deleted
    && (forall j :: 0 <= j < k ==> LeadsOn(Record(users, Hop(users, n, j))))
    && !LeadsOn(Record(users, Hop(users, n, k)))
  }

  /** A forwarding address that is a user of this system. */
  predicate LeadsOn(r: User) { r.fsys == 0 && r.fuser != 0 && r.fuser != 65535 }

  /** The addressee's own record sends the letter to another system. */
  predicate SendsAway(users: seq<User>, w: World, n: nat, system: nat) {
    && system == 0 && n < |users| && !users[n].deleted && users[n].fsys != 0 && users[n].fuser != 32767
    && w.validSystem(users[n].fsys) && (users[n].fuser != 0 || w.inetOk(n))
  }

  lemma OnlyOneStop(users: seq<User>, n: nat, k: nat)
    requires ComesTo(users, n, 0, k)
    ensures PassedOn(users, n, 0) && StopsAt(users, n, k)
    ensures forall m: nat :: StopsAt(users, n, m) || ComesTo(users, n, 0, m) ==> m == k
  {
    assert LeadsOn(Record(users, Hop(users, n, 0)));
    StopIsHere(users, n, k);
    forall m: nat | ComesTo(users, n, 0, m)
      ensures m == k
    {
      assert StopsAt(users, n, m);
    }
  }

  lemma StopComes(users: seq<User>, n: nat, k: nat)
    requires PassedOn(users, n, 0) && StopsAt(users, n, k)
    ensures ComesTo(users, n, 0, k)
  {
    forall j | 0 <= j < k
      ensures LeadsOn(Record(users, Hop(users, n, j)))
    {
      assert j == 0 || KindOf(Record(users, Hop(users, n, j))) == Open;
    }
  }

  /** Either the walk comes to a mailbox that does not pass the letter on, or nothing changes. */
  lemma ComesSomewhere(users: seq<User>, w: World, n: nat, res: Outcome)
    requires PassedOn(users, n, 0) && Forwards(users, w, n, 0, res)
    ensures (exists k: nat :: ComesTo(users, n, 0, k)) || res == Outcome(false, n, 0)
  {
    hide Delivered, FromStart, ComesTo;
    if k: nat :| StopsAt(users, n, k) {
      StopComes(users, n, k);
    }
  }

  /** What becomes of a letter that comes to mailbox `k`, by that mailbox's record. */
  lemma AtTheStop(users: seq<User>, w: World, n: nat, k: nat, res: Outcome)
    requires Forwards(users, w, n, 0, res) && ComesTo(users, n, 0, k)
    ensures var u := Hop(users, n, k); var r := Record(users, u);
      && (r.fsys == 0 && r.fuser == 0 ==> res == Outcome(true, u, 0))
      && (r.fsys != 0 && w.validSystem(r.fsys) ==> res == Outcome(true, r.fuser, r.fsys))
      && (r.fsys != 0 && !w.validSystem(r.fsys) ==> res == Outcome(false, n, 0))
      && (r.fsys == 0 && r.fuser == 65535 ==> res == if w.sysop then Outcome(false, u, 0) else Outcome(false, 0, 0))
  {
    OnlyOneStop(users, n, k);
  }

  /** What becomes of a letter that its addressee does not pass on. */
  lemma AtTheStart(users: seq<User>, w: World, n: nat, res: Outcome)
    requires Forwards(users, w, n, 0, res) && !PassedOn(users, n, 0)
    ensures n >= |users| || users[n].deleted ==> res == Outcome(false, n, 0)
    ensures n < |users| && !users[n].deleted && users[n].fsys == 0 ==>
      res == if users[n].fuser == 65535 && !w.sysop then Outcome(false, 0, 0) else Outcome(false, n, 0)
    ensures n < |users| && !users[n].deleted && users[n].fsys != 0 ==>
      res == if users[n].fuser == 32767 then Outcome(false, 0, 0)
             else if SendsAway(users, w, n, 0) then Outcome(true, users[n].fuser, users[n].fsys)
             else Outcome(false, n, 0)
  {
  }

  /** The letter goes to another user of this system exactly when the walk comes to a mailbox without a forwarding
      address, and that mailbox's owner is the user. */
  lemma GoesToUser(users: seq<User>, w: World, n: nat, system: nat, res: Outcome)
    requires Forwards(users, w, n, system, res)
    ensures res.ok && res.system == 0 <==>
      exists k: nat :: ComesTo(users, n, system, k) && EndsThere(users, Hop(users, n, k))
    ensures forall k: nat :: ComesTo(users, n, system, k) && EndsThere(users, Hop(users, n, k)) ==>
      res.user == Hop(users, n, k)
  {
    hide Delivered, FromStart, ComesTo, PassedOn, KindOf, WalkDecides, Record;
    if k: nat :| ComesTo(users, n, system, k) && EndsThere(users, Hop(users, n, k)) {
      ComesFromHere(users, n, system, k);
      AtTheStop(users, w, n, k, res);
      OnlyOneStop(users, n, k);
    }
    if res.ok && res.system == 0 {
      hide Forwards;
      var k := StopOf(users, w, n, system, res);
    }
  }

  predicate EndsThere(users: seq<User>, u: nat) { Record(users, u).fsys == 0 && Record(users, u).fuser == 0 }

  lemma ComesFromHere(users: seq<User>, n: nat, system: nat, k: nat)
    requires ComesTo(users, n, system, k)
    ensures system == 0 && PassedOn(users, n, system)
  {
    assert LeadsOn(Record(users, Hop(users, n, 0)));
  }

  /** A letter that stays on this system has come somewhere. */
  lemma StopOf(users: seq<User>, w: World, n: nat, system: nat, res: Outcome) returns (k: nat)
    requires Forwards(users, w, n, system, res) && res.ok && res.system == 0
    ensures ComesTo(users, n, system, k) && EndsThere(users, Hop(users, n, k))
  {
    assert system == 0;
    if !PassedOn(users, n, 0) {
      AtTheStart(users, w, n, res);
    }
    ComesSomewhere(users, w, n, res);
    k :| ComesTo(users, n, 0, k);
    AtTheStop(users, w, n, k, res);
  }

  predicate AwayFrom(users: seq<User>, w: World, u: nat) {
    Record(users, u).fsys != 0 && w.validSystem(Record(users, u).fsys)
  }

  /** It goes to another system exactly when the addressee's record or that of the mailbox it comes to names a valid
      one, and then to the user and system that this record names. */
  lemma GoesAway(users: seq<User>, w: World, n: nat, system: nat, res: Outcome)
    requires Forwards(users, w, n, system, res)
    ensures res.ok && res.system != 0 <==>
      || SendsAway(users, w, n, system)
      || exists k: nat :: ComesTo(users, n, system, k) && AwayFrom(users, w, Hop(users, n, k))
    ensures SendsAway(users, w, n, system) ==> res.user == users[n].fuser && res.system == users[n].fsys
    ensures forall k: nat :: ComesTo(users, n, system, k) && AwayFrom(users, w, Hop(users, n, k)) ==>
      res.user == Record(users, Hop(users, n, k)).fuser && res.system == Record(users, Hop(users, n, k)).fsys
  {
    forall k: nat | ComesTo(users, n, system, k)
      ensures PassedOn(users, n, system)
    {
      ComesFromHere(users, n, system, k);
    }
    if system == 0 {
      if PassedOn(users, n, 0) {
        hide Delivered, FromStart, ComesTo, KindOf, WalkDecides, Forwards;
        ComesSomewhere(users, w, n, res);
        if k: nat :| ComesTo(users, n, 0, k) {
          AtTheStop(users, w, n, k, res);
          OnlyOneStop(users, n, k);
        }
      } else {
        AtTheStart(users, w, n, res);
      }
    }
  }

  /** A closed mailbox, the addressee's own or the one the walk comes to. */
  ghost predicate ClosedAt(users: seq<User>, n: nat, system: nat, u: nat) {
    && Record(users, u).fsys == 0 && Record(users, u).fuser == 65535
    && ((system == 0 && n < |users| && !users[n].deleted && u == n)
        || exists k: nat :: ComesTo(users, n, system, k) && Hop(users, n, k) == u)
  }

  /** A closed mailbox gives a sysop that mailbox and everybody else 0 and 0; forwarding to the Internet from the
      addressee's record gives 0 and 0; every other failure leaves both numbers as they were. */
  lemma Fails(users: seq<User>, w: World, n: nat, system: nat, res: Outcome)
    requires Forwards(users, w, n, system, res)
    ensures forall u: nat :: ClosedAt(users, n, system, u) ==>
      res == if w.sysop then Outcome(false, u, 0) else Outcome(false, 0, 0)
    ensures !res.ok && (forall u: nat :: !ClosedAt(users, n, system, u)) ==>
      res == if system == 0 && n < |users| && !users[n].deleted && users[n].fsys != 0 && users[n].fuser == 32767
             then Outcome(false, 0, 0) else Outcome(false, n, system)
  {
    forall u: nat | ClosedAt(users, n, system, u)
      ensures res == if w.sysop then Outcome(false, u, 0) else Outcome(false, 0, 0)
    {
      if k: nat :| ComesTo(users, n, system, k) && Hop(users, n, k) == u {
        AtTheStop(users, w, n, k, res);
      } else {
        AtTheStart(users, w, n, res);
      }
    }
    if system == 0 {
      if PassedOn(users, n, 0) {
        ComesSomewhere(users, w, n, res);
        if k: nat :| ComesTo(users, n, 0, k) {
          AtTheStop(users, w, n, k, res);
          assert Record(users, Hop(users, n, k)).fsys == 0 && Record(users, Hop(users, n, k)).fuser == 65535 ==>
            ClosedAt(users, n, 0, Hop(users, n, k));
        }
      } else {
        AtTheStart(users, w, n, res);
        assert n < |users| && !users[n].deleted && users[n].fsys == 0 && users[n].fuser == 65535 ==>
          ClosedAt(users, n, 0, n);
      }
    }
  }

  /** A walk that comes to a number without a record fails and changes nothing: that number is read as forwarding to
      itself. */
  lemma MissingUser(users: seq<User>, w: World, n: nat, k: nat, res: Outcome)
    requires Forwards(users, w, n, 0, res) && PassedOn(users, n, 0)
    requires forall j :: 0 <= j < k ==> LeadsOn(Record(users, Hop(users, n, j)))
    requires |users| <= Hop(users, n, k) < 65535 && Hop(users, n, k) != 0
    ensures res == Outcome(false, n, 0)
  {
    var u := Hop(users, n, k);
    assert Record(users, u).fsys == 0 && Record(users, u).fuser == u;
    assert Hop(users, n, k + 1) == u;
    NeverStops(users, n, k, k + 1);
  }
}
