/** What holds over every run of deliveries, deletions and log-offs: the live mail behaves as a plain list, the
    counters count it, and no live letter loses its text.
 */
module MailLaws {
  import opened Seqs
  import opened Mail

  datatype Event = Send(m: MailRec) | SendMany(letter: MailRec, users: seq<nat>) | Remove(loc: nat)
                 | Leave(user: nat, mailcheck: bool)

  /** A text is stored before its letter is delivered. */
  function Step(s: Store, e: Event): Store {
    match e
    case Send(m) => Deliver(s.(texts := s.texts + {m.msg}), m)
    case SendMany(m, users) => DeliverMany(s.(texts := s.texts + {m.msg}), m, users)
    case Remove(loc) => if loc < |s.file| then Delete(s, loc) else s
    case Leave(u, mailcheck) => LogOff(s, u, mailcheck)
  }

  function Run(s: Store, es: seq<Event>): Store
    decreases |es|
  {
    if es == [] then s else Run(Step(s, es[0]), es[1..])
  }

  // ----- the live mail is a list -----

  datatype ListEdit = Append(ms: seq<MailRec>) | TakeOut(k: nat) | Same

  /** What an event does to the list of live mail. */
  function EditOf(s: Store, e: Event): ListEdit {
    match e
    case Send(m) => Append(if Live(m) then [m] else [])
    case SendMany(m, users) => Append(LiveMail(Copies(m, users)))
    case Remove(loc) => if loc < |s.file| && Live(s.file[loc]) then TakeOut(|LiveMail(s.file[..loc])|) else Same
    case Leave(_, _) => Same
  }

  function ApplyEdit(l: seq<MailRec>, d: ListEdit): seq<MailRec> {
    match d
    case Append(ms) => l + ms
    case TakeOut(k) => if k < |l| then RemoveAt(l, k) else l
    case Same => l
  }

  function Edits(s: Store, es: seq<Event>): seq<ListEdit>
    decreases |es|
  {
    if es == [] then [] else [EditOf(s, es[0])] + Edits(Step(s, es[0]), es[1..])
  }

  function ApplyEdits(l: seq<MailRec>, ds: seq<ListEdit>): seq<MailRec>
    decreases |ds|
  {
    if ds == [] then l else ApplyEdits(ApplyEdit(l, ds[0]), ds[1..])
  }

  /** The file is its front and tombstones; after a delivery it is the front, the new records and tombstones. */
  lemma WriteSplit(file: seq<MailRec>, recs: seq<MailRec>)
    returns (front: seq<MailRec>, behind: seq<MailRec>, kept: seq<MailRec>)
    ensures file == front + behind && Write(file, Tail(file), recs) == front + recs + kept
    ensures forall k :: 0 <= k < |behind| ==> !Live(behind[k])
    ensures forall k :: 0 <= k < |kept| ==> !Live(kept[k])
  {
    hide Tail;
    var i := Tail(file);
    front, behind := file[..i], file[i..];
    kept := if i + |recs| <= |file| then file[i + |recs|..] else [];
  }

  /** Writing over the tombstones at the end of the file appends to the live mail. */
  lemma WriteAppends(file: seq<MailRec>, recs: seq<MailRec>)
    ensures LiveMail(Write(file, Tail(file), recs)) == LiveMail(file) + LiveMail(recs)
  {
    hide LiveMail, Tail, Write, Live;
    var front, behind, kept := WriteSplit(file, recs);
    LiveAppend(front, behind);
    NoneLive(behind);
    LiveAppend(front + recs, kept);
    LiveAppend(front, recs);
    NoneLive(kept);
    NothingAfter(LiveMail(front), LiveMail(behind));
    NothingAfter(LiveMail(front) + LiveMail(recs), LiveMail(kept));
  }

  lemma LiveAppend(a: seq<MailRec>, b: seq<MailRec>)
    ensures LiveMail(a + b) == LiveMail(a) + LiveMail(b)
  {
    hide Filter;
    FilterAppend(Live, a, b);
  }

  lemma NoneLive(file: seq<MailRec>)
    requires forall i :: 0 <= i < |file| ==> !Live(file[i])
    ensures LiveMail(file) == []
  {
    hide Filter;
    FilterNone(Live, file);
  }

  /** Deleting a letter takes that letter, and no other, out of the live mail. */
  lemma DeleteTakesOut(s: Store, loc: nat)
    requires loc < |s.file| && Live(s.file[loc])
    ensures var k := |LiveMail(s.file[..loc])|;
      && k < |LiveMail(s.file)| && LiveMail(s.file)[k] == s.file[loc]
      && LiveMail(Delete(s, loc).file) == RemoveAt(LiveMail(s.file), k)
  {
    hide LiveMail;
    LiveMiddle(s.file, loc, s.file[loc]);
    LiveMiddle(s.file, loc, Tombstone(s.file[loc]));
    var a, b := LiveMail(s.file[..loc]), LiveMail(s.file[loc + 1..]);
    assert s.file[loc := s.file[loc]] == s.file;
    assert RemoveAt(a + ([s.file[loc]] + b), |a|) == a + b;
  }

  /** The live mail around one record. */
  lemma LiveMiddle(file: seq<MailRec>, loc: nat, m: MailRec)
    requires loc < |file|
    ensures LiveMail(file[loc := m])
         == LiveMail(file[..loc]) + ((if Live(m) then [m] else []) + LiveMail(file[loc + 1..]))
  {
    hide LiveMail;
    var a, b := file[..loc], file[loc + 1..];
    assert file[loc := m] == a + ([m] + b);
    LiveAppend(a, [m] + b);
    LiveAppend([m], b);
    FilterOne(m);
  }

  /** Compaction keeps the live mail in order and leaves no tombstone. */
  lemma CompactionKeeps(file: seq<MailRec>)
    ensures LiveMail(LiveMail(file)) == LiveMail(file)
    ensures forall i :: 0 <= i < |LiveMail(file)| ==> Live(LiveMail(file)[i])
  {
    FilterAll(Live, LiveMail(file));
  }

  lemma StepEdits(s: Store, e: Event)
    ensures LiveMail(Step(s, e).file) == ApplyEdit(LiveMail(s.file), EditOf(s, e))
  {
    hide LiveMail, Write, Tail, Copies;
    match e
    case Send(m) =>
      WriteAppends(s.file, [m]);
      FilterOne(m);
    case SendMany(m, users) =>
      WriteAppends(s.file, Copies(m, users));
    case Remove(loc) =>
      if loc < |s.file| && Live(s.file[loc]) { DeleteTakesOut(s, loc); }
    case Leave(_, _) =>
      CompactionKeeps(s.file);
  }

  /** Over every run the live mail changes only by appending what is delivered and taking out what is deleted. */
  lemma {:induction false} RunEdits(s: Store, es: seq<Event>)
    ensures LiveMail(Run(s, es).file) == ApplyEdits(LiveMail(s.file), Edits(s, es))
    decreases |es|
  {
    hide Step, LiveMail, ApplyEdit, EditOf;
    if es != [] {
      StepEdits(s, es[0]);
      RunEdits(Step(s, es[0]), es[1..]);
      assert Edits(s, es)[1..] == Edits(Step(s, es[0]), es[1..]);
    }
  }

  // ----- the counters -----

  /** The user's counter is the number of live letters to the user on this system. */
  predicate Counted(s: Store, u: nat) {
    u < |s.waiting| && s.waiting[u] == CountTo(s.file, u)
  }

  predicate Bytes(waiting: seq<nat>) {
    forall i :: 0 <= i < |waiting| ==> waiting[i] < 256
  }

  /** Deliveries that stay on this system. */
  predicate LocalEvent(e: Event) {
    match e
    case Send(m) => m.tosys == 0
    case _ => true
  }

  lemma {:induction false} TombstonesCountNothing(file: seq<MailRec>, u: nat)
    requires u >= 1 && forall i :: 0 <= i < |file| ==> !Live(file[i])
    ensures CountTo(file, u) == 0
  {
    if file != [] { TombstonesCountNothing(file[1..], u); }
  }

  lemma WriteCounts(file: seq<MailRec>, recs: seq<MailRec>, u: nat)
    requires u >= 1
    ensures CountTo(Write(file, Tail(file), recs), u) == CountTo(file, u) + CountTo(recs, u)
  {
    hide CountTo, Tail, Write, Live;
    var front, behind, kept := WriteSplit(file, recs);
    CountToAppend(front, behind, u);
    TombstonesCountNothing(behind, u);
    CountToAppend(front + recs, kept, u);
    CountToAppend(front, recs, u);
    TombstonesCountNothing(kept, u);
  }

  lemma CountOne(m: MailRec, u: nat)
    ensures CountTo([m], u) == if LocalTo(m, u) then 1 else 0
  {
    assert [m][1..] == [];
    assert CountTo([], u) == 0;
  }

  lemma DeleteCounts(file: seq<MailRec>, loc: nat, u: nat)
    requires loc < |file| && u >= 1
    ensures CountTo(file[loc := Tombstone(file[loc])], u) == CountTo(file, u) - (if LocalTo(file[loc], u) then 1 else 0)
  {
    hide CountTo;
    var t := Tombstone(file[loc]);
    var a, b := file[..loc], file[loc + 1..];
    assert file == a + ([file[loc]] + b) && file[loc := t] == a + ([t] + b);
    CountToAppend(a, [file[loc]] + b, u);
    CountToAppend([file[loc]], b, u);
    CountToAppend(a, [t] + b, u);
    CountToAppend([t], b, u);
    CountOne(file[loc], u);
    CountOne(t, u);
  }

  lemma {:induction false} CompactionCounts(file: seq<MailRec>, u: nat)
    requires u >= 1
    ensures CountTo(LiveMail(file), u) == CountTo(file, u)
  {
    if file != [] {
      CompactionCounts(file[1..], u);
      if Live(file[0]) { assert LiveMail(file) == [file[0]] + LiveMail(file[1..]); }
    }
  }

  lemma {:induction false} CopiesCount(m: MailRec, users: seq<nat>, u: nat)
    ensures CountTo(Copies(m, users), u) == Occurrences(users, u)
  {
    if users != [] {
      assert Copies(m, users)[1..] == Copies(m, users[1..]);
      CopiesCount(m, users[1..], u);
    }
  }

  /** Counting up one user at a time, as long as the byte does not overflow. */
  lemma {:induction false} CountedUp(waiting: seq<nat>, users: seq<nat>, u: nat)
    requires 1 <= u < |waiting| && waiting[u] + Occurrences(users, u) <= 255
    ensures MoreForAll(waiting, users)[u] == waiting[u] + Occurrences(users, u)
    decreases |users|
  {
    if users != [] {
      CountedUp(OneMore(waiting, users[0]), users[1..], u);
    }
  }

  lemma OneMoreAt(waiting: seq<nat>, v: nat, u: nat)
    requires 1 <= u < |waiting|
    ensures var w := OneMore(waiting, v);
      |w| == |waiting| && w[u] == if v != u then waiting[u] else (waiting[u] + 1) % 256
    ensures waiting[u] < 255 ==> OneMore(waiting, u)[u] == waiting[u] + 1
  {
  }

  lemma OneLessAt(waiting: seq<nat>, v: nat, u: nat)
    requires 1 <= u < |waiting|
    ensures |OneLess(waiting, v)| == |waiting|
    ensures v != u || waiting[u] == 0 ==> OneLess(waiting, v)[u] == waiting[u]
    ensures v == u && 0 < waiting[u] <= 256 ==> OneLess(waiting, v)[u] == waiting[u] - 1
  {
  }

  lemma SetWaitingAt(waiting: seq<nat>, v: nat, n: nat, u: nat)
    requires 1 <= u < |waiting| && n <= 255
    ensures var w := SetWaiting(waiting, v, n);
      |w| == |waiting| && w[u] == if v != u then waiting[u] else n
  {
  }

  /** One event keeps the counter right, if the user has at most 255 letters after it. */
  lemma StepCounts(s: Store, e: Event, u: nat)
    requires u >= 1 && Counted(s, u) && LocalEvent(e)
    requires CountTo(Step(s, e).file, u) <= 255
    ensures Counted(Step(s, e), u)
  {
    hide CountTo, LiveMail, Write, Tail, Copies, MoreForAll, Occurrences, OneMore, OneLess, SetWaiting, Live;
    match e
    case Send(m) =>
      WriteCounts(s.file, [m], u);
      CountOne(m, u);
      OneMoreAt(s.waiting, m.touser, u);
    case SendMany(m, users) =>
      WriteCounts(s.file, Copies(m, users), u);
      CopiesCount(m, users, u);
      CountedUp(s.waiting, users, u);
    case Remove(loc) =>
      if loc < |s.file| && Live(s.file[loc]) {
        DeleteCounts(s.file, loc, u);
        OneLessAt(s.waiting, s.file[loc].touser, u);
      }
    case Leave(v, _) =>
      CompactionCounts(s.file, u);
      SetWaitingAt(s.waiting, v, if CountTo(s.file, v) > 255 then 255 else CountTo(s.file, v), u);
  }

  lemma StepBytes(s: Store, e: Event)
    requires Bytes(s.waiting)
    ensures Bytes(Step(s, e).waiting) && |Step(s, e).waiting| == |s.waiting|
  {
    hide CountTo, LiveMail, Write, Tail, Copies;
    match e
    case SendMany(m, users) => MoreForAllBytes(s.waiting, users);
    case _ =>
  }

  lemma {:induction false} MoreForAllBytes(waiting: seq<nat>, users: seq<nat>)
    requires Bytes(waiting)
    ensures Bytes(MoreForAll(waiting, users))
    decreases |users|
  {
    if users != [] { MoreForAllBytes(OneMore(waiting, users[0]), users[1..]); }
  }

  predicate CountedAlong(s: Store, es: seq<Event>, u: nat)
    decreases |es|
  {
    Counted(s, u) && (es != [] ==> CountedAlong(Step(s, es[0]), es[1..], u))
  }

  predicate FewAlong(s: Store, es: seq<Event>, u: nat)
    decreases |es|
  {
    CountTo(s.file, u) <= 255 && (es != [] ==> FewAlong(Step(s, es[0]), es[1..], u))
  }

  /** A counter that starts right is right in every state of a run exactly when the user never has more than 255
      letters: the byte has no room for more. */
  lemma {:induction false} CounterIsRight(s: Store, es: seq<Event>, u: nat)
    requires u >= 1 && Counted(s, u) && Bytes(s.waiting)
    requires forall i :: 0 <= i < |es| ==> LocalEvent(es[i])
    ensures CountedAlong(s, es, u) <==> FewAlong(s, es, u)
    decreases |es|
  {
    hide Step, CountTo;
    if es != [] {
      var t := Step(s, es[0]);
      StepBytes(s, es[0]);
      if CountTo(t.file, u) <= 255 {
        StepCounts(s, es[0], u);
        CounterIsRight(t, es[1..], u);
      } else {
        assert t.waiting[u] < 256;
        assert !Counted(t, u);
      }
    }
  }

  function Sends(m: MailRec, n: nat): (es: seq<Event>)
    ensures |es| == n && forall i :: 0 <= i < n ==> es[i] == Send(m)
  {
    seq(n, _ => Send(m))
  }

  function Byte(n: nat): nat { n % 256 }

  lemma SendOne(s: Store, m: MailRec)
    requires m.tosys == 0 && 1 <= m.touser < |s.waiting| && Bytes(s.waiting)
    ensures var t := Step(s, Send(m));
      && CountTo(t.file, m.touser) == CountTo(s.file, m.touser) + 1
      && Bytes(t.waiting) && |t.waiting| == |s.waiting|
      && t.waiting[m.touser] == Byte(s.waiting[m.touser] + 1)
  {
    hide CountTo, Write, Tail, Bytes;
    WriteCounts(s.file, [m], m.touser);
    CountOne(m, m.touser);
    StepBytes(s, Send(m));
  }

  lemma RoundAgain(w: nat, n: nat)
    ensures Byte(Byte(w + 1) + n) == Byte(w + (n + 1))
    ensures w < 256 ==> Byte(w) == w
  {
  }

  /** The same letter again and again: the letters are counted, the byte goes round. */
  lemma {:induction false} ManySends(s: Store, m: MailRec, n: nat)
    requires m.tosys == 0 && 1 <= m.touser < |s.waiting| && Bytes(s.waiting)
    ensures var t := Run(s, Sends(m, n));
      && CountTo(t.file, m.touser) == CountTo(s.file, m.touser) + n
      && |t.waiting| == |s.waiting| && t.waiting[m.touser] == Byte(s.waiting[m.touser] + n)
    decreases n
  {
    hide CountTo, Step, Byte;
    if n == 0 {
      RoundAgain(s.waiting[m.touser], 0);
    } else {
      hide Bytes;
      SendOne(s, m);
      assert Sends(m, n)[1..] == Sends(m, n - 1);
      ManySends(Step(s, Send(m)), m, n - 1);
      RoundAgain(s.waiting[m.touser], n - 1);
    }
  }

  /** A user with 256 letters and a counter that says there is none. */
  lemma OneRoundTooMany(n: nat)
    requires n == 256
    ensures var m := MailRec("", 0, 2, 0, 1, 0, false, TextId(0, 2));
      var t := Run(Store([], [0, 0], 0, {}), Sends(m, n));
      CountTo(t.file, 1) == n && t.waiting == [0, 0] && !Counted(t, 1)
  {
    hide CountTo, Run;
    var m := MailRec("", 0, 2, 0, 1, 0, false, TextId(0, 2));
    var s := Store([], [0, 0], 0, {});
    ManySends(s, m, n);
    NobodysMail(1);
    UserZero(s, m, n);
    assert Run(s, Sends(m, n)).waiting == [0, 0];
  }

  lemma NobodysMail(u: nat)
    ensures CountTo([], u) == 0
  {
  }

  lemma {:induction false} UserZero(s: Store, m: MailRec, n: nat)
    requires m.tosys == 0 && m.touser >= 1 && |s.waiting| > 0
    ensures |Run(s, Sends(m, n)).waiting| == |s.waiting| && Run(s, Sends(m, n)).waiting[0] == s.waiting[0]
    decreases n
  {
    hide Write, Tail;
    if n > 0 {
      assert Sends(m, n)[1..] == Sends(m, n - 1);
      UserZero(Step(s, Send(m)), m, n - 1);
    }
  }

  /** The sysop's own counter follows user 1's letters in the same way. */
  predicate SysopCounted(s: Store) { s.fwaiting == CountTo(s.file, 1) }

  /** The sysop logs off with more letters than log-off counts. */
  predicate CutShort(s: Store, e: Event) { e.Leave? && e.user == 1 && CountTo(s.file, 1) > 255 }

  /** This counter is no byte: any number of letters is counted right until the sysop logs off. */
  lemma StepCountsSysop(s: Store, e: Event)
    requires SysopCounted(s) && LocalEvent(e)
    ensures SysopCounted(Step(s, e)) <==> !CutShort(s, e)
  {
    hide CountTo, LiveMail, Write, Tail, Copies, MoreForAll, Occurrences;
    match e
    case Send(m) =>
      WriteCounts(s.file, [m], 1);
      CountOne(m, 1);
    case SendMany(m, users) =>
      WriteCounts(s.file, Copies(m, users), 1);
      CopiesCount(m, users, 1);
    case Remove(loc) =>
      if loc < |s.file| && Live(s.file[loc]) {
        DeleteCounts(s.file, loc, 1);
      }
    case Leave(v, _) =>
      CompactionCounts(s.file, 1);
  }

  predicate SysopCountedAlong(s: Store, es: seq<Event>)
    decreases |es|
  {
    SysopCounted(s) && (es != [] ==> SysopCountedAlong(Step(s, es[0]), es[1..]))
  }

  predicate NeverCutShort(s: Store, es: seq<Event>)
    decreases |es|
  {
    es != [] ==> !CutShort(s, es[0]) && NeverCutShort(Step(s, es[0]), es[1..])
  }

  /** The sysop's counter is right in every state of a run exactly when the sysop never logs off with more than 255
      letters. */
  lemma {:induction false} SysopCounterIsRight(s: Store, es: seq<Event>)
    requires SysopCounted(s) && forall i :: 0 <= i < |es| ==> LocalEvent(es[i])
    ensures SysopCountedAlong(s, es) <==> NeverCutShort(s, es)
    decreases |es|
  {
    hide Step, SysopCounted, CutShort;
    if es != [] {
      StepCountsSysop(s, es[0]);
      if !CutShort(s, es[0]) {
        SysopCounterIsRight(Step(s, es[0]), es[1..]);
      }
    }
  }

  // ----- texts -----

  ghost predicate Dated(file: seq<MailRec>) {
    forall i :: 0 <= i < |file| && Live(file[i]) ==> file[i].daten != NEVER
  }

  ghost predicate TextsPresent(s: Store) {
    forall i :: 0 <= i < |s.file| && Live(s.file[i]) ==> s.file[i].msg in s.texts
  }

  predicate SameText(a: MailRec, b: MailRec) { Live(a) && Live(b) && a.msg == b.msg }

  /** Live records with one text are all multi-mail. */
  ghost predicate SharedAreMultimail(file: seq<MailRec>) {
    forall i, j :: 0 <= i < |file| && 0 <= j < |file| && i != j && SameText(file[i], file[j]) ==> file[i].multimail
  }

  ghost predicate Sound(s: Store) {
    Dated(s.file) && TextsPresent(s) && SharedAreMultimail(s.file)
  }

  ghost predicate NewText(file: seq<MailRec>, t: TextId) {
    forall i :: 0 <= i < |file| && Live(file[i]) ==> file[i].msg != t
  }

  /** A delivered letter has a date, and its text was stored for it. */
  ghost predicate Legal(s: Store, e: Event) {
    match e
    case Send(m) => m.daten != NEVER && NewText(s.file, m.msg)
    case SendMany(m, _) => m.daten != NEVER && NewText(s.file, m.msg)
    case _ => true
  }

  ghost predicate LegalRun(s: Store, es: seq<Event>)
    decreases |es|
  {
    es != [] ==> Legal(s, es[0]) && LegalRun(Step(s, es[0]), es[1..])
  }

  /** Another live record has the text of `file[loc]`. */
  ghost predicate SharedLive(file: seq<MailRec>, loc: nat)
    requires loc < |file|
  {
    exists i :: 0 <= i < |file| && i != loc && Live(file[i]) && file[i].msg == file[loc].msg
  }

  /** Deleting a letter leaves every other live letter its text exactly when the letter is marked multi-mail or its
      text is its own. */
  lemma DeleteSparesOthers(s: Store, loc: nat)
    requires loc < |s.file| && Live(s.file[loc]) && Dated(s.file) && TextsPresent(s)
    ensures (forall i :: 0 <= i < |s.file| && i != loc && Live(s.file[i]) ==> s.file[i].msg in Delete(s, loc).texts)
       <==> s.file[loc].multimail || !SharedLive(s.file, loc)
  {
    if SharedLive(s.file, loc) {
      var i :| 0 <= i < |s.file| && i != loc && Live(s.file[i]) && s.file[i].msg == s.file[loc].msg;
      assert OtherHas(s.file, loc);
      if !s.file[loc].multimail {
        assert s.file[i].msg !in Delete(s, loc).texts;
      }
    }
  }

  /** Two letters with one text and no multi-mail mark, as carbon copies are sent: deleting the first leaves the second
      without its text. */
  lemma CarbonCopyLosesText(t: TextId)
    requires t != NO_TEXT
    ensures var a := MailRec("", 0, 1, 0, 2, 0, false, t);
      var b := a.(touser := 3);
      var s := Run(Store([], [0, 0, 0, 0], 0, {}), [Send(a), Send(b), Remove(0)]);
      |s.file| == 2 && s.file[1] == b && Live(b) && s.file[1].msg !in s.texts
  {
    var a := MailRec("", 0, 1, 0, 2, 0, false, t);
    var b := a.(touser := 3);
    var s0 := Store([], [0, 0, 0, 0], 0, {});
    var s1 := Step(s0, Send(a));
    assert s1.file == [a] && s1.texts == {t};
    var s2 := Step(s1, Send(b));
    assert s2.file == [a, b] && s2.texts == {t};
    var s3 := Step(s2, Remove(0));
    assert s3.file[1] == b && |s3.file| == 2 && s3.texts == {};
    var es := [Send(a), Send(b), Remove(0)];
    assert es[1..] == [Send(b), Remove(0)] && es[1..][1..] == [Remove(0)] && [Remove(0)][1..] == [];
    assert Run(s2, [Remove(0)]) == Run(s3, []) == s3;
    assert Run(s1, es[1..]) == Run(s2, [Remove(0)]);
  }

  /** Each record after a delivery is one of the new ones, or was there before and has kept its place. */
  lemma WrittenAt(file: seq<MailRec>, recs: seq<MailRec>, k: nat)
    requires k < |Write(file, Tail(file), recs)|
    ensures var f, i := Write(file, Tail(file), recs), Tail(file);
      if i <= k < i + |recs| then f[k] == recs[k - i] else k < |file| && f[k] == file[k]
  {
    hide Tail;
  }

  lemma WriteSound(s: Store, recs: seq<MailRec>, t: TextId, waiting: seq<nat>, fwaiting: int)
    requires Sound(s) && NewText(s.file, t)
    requires forall i :: 0 <= i < |recs| ==> recs[i].msg == t && recs[i].daten != NEVER
    requires |recs| > 1 ==> forall i :: 0 <= i < |recs| ==> recs[i].multimail
    ensures Sound(Store(Write(s.file, Tail(s.file), recs), waiting, fwaiting, s.texts + {t}))
  {
    hide Tail, Write, Live;
    var i := Tail(s.file);
    var f := Write(s.file, i, recs);
    forall k: nat | k < |f| && Live(f[k])
      ensures f[k].daten != NEVER && f[k].msg in s.texts + {t}
    {
      WrittenAt(s.file, recs, k);
    }
    forall j: nat, k: nat | j < |f| && k < |f| && j != k && SameText(f[j], f[k])
      ensures f[j].multimail
    {
      WrittenAt(s.file, recs, j);
      WrittenAt(s.file, recs, k);
    }
  }

  lemma StepSound(s: Store, e: Event)
    requires Sound(s) && Legal(s, e)
    ensures Sound(Step(s, e))
  {
    hide Write, Tail, LiveMail, Sound, Delete, CountTo, OneMore, MoreForAll, Occurrences, SetWaiting;
    match e
    case Send(m) =>
      var r := Step(s, e);
      WriteSound(s, [m], m.msg, r.waiting, r.fwaiting);
    case SendMany(m, users) =>
      var r := Step(s, e);
      WriteSound(s, Copies(m, users), m.msg, r.waiting, r.fwaiting);
    case Remove(loc) =>
      if loc < |s.file| { DeleteSound(s, loc); }
    case Leave(u, mailcheck) =>
      CompactSound(s, Step(s, e));
  }

  lemma DeleteSound(s: Store, loc: nat)
    requires Sound(s) && loc < |s.file|
    ensures Sound(Delete(s, loc))
  {
    if Live(s.file[loc]) {
      DeleteSparesOthers(s, loc);
      var f := Delete(s, loc).file;
      assert forall i :: 0 <= i < |f| && i != loc ==> f[i] == s.file[i];
      assert !Live(f[loc]);
    }
  }

  /** Record `k` of `r` is record `from[k]` of `file`, and different places come from different places. */
  ghost predicate ComesFrom(file: seq<MailRec>, r: seq<MailRec>, from: seq<nat>) {
    && |from| == |r|
    && (forall k :: 0 <= k < |from| ==> from[k] < |file| && r[k] == file[from[k]])
    && (forall j, k :: 0 <= j < k < |from| ==> from[j] < from[k])
  }

  /** Every record of the compacted file is one of the file. */
  lemma {:induction false} CompactedFrom(file: seq<MailRec>) returns (from: seq<nat>)
    ensures ComesFrom(file, LiveMail(file), from)
  {
    if file == [] {
      from := [];
    } else {
      hide Live, LiveMail, ComesFrom;
      LiveFirst(file);
      var rest := CompactedFrom(file[1..]);
      from := OnePlaceOn(file, LiveMail(file[1..]), rest);
      if Live(file[0]) {
        FirstComesToo(file, LiveMail(file[1..]), from);
        from := [0] + from;
      }
    }
  }

  lemma OnePlaceOn(file: seq<MailRec>, r: seq<MailRec>, from: seq<nat>) returns (moved: seq<nat>)
    requires file != [] && ComesFrom(file[1..], r, from)
    ensures ComesFrom(file, r, moved) && forall k :: 0 <= k < |moved| ==> moved[k] > 0
  {
    moved := seq(|from|, k requires 0 <= k < |from| => from[k] + 1);
    assert forall k :: 0 <= k < |from| ==> file[moved[k]] == file[1..][from[k]];
  }

  lemma FirstComesToo(file: seq<MailRec>, r: seq<MailRec>, from: seq<nat>)
    requires file != [] && ComesFrom(file, r, from) && forall k :: 0 <= k < |from| ==> from[k] > 0
    ensures ComesFrom(file, [file[0]] + r, [0] + from)
  {
  }

  lemma LiveFirst(file: seq<MailRec>)
    requires file != []
    ensures LiveMail(file) == if Live(file[0]) then [file[0]] + LiveMail(file[1..]) else LiveMail(file[1..])
  {
  }

  lemma CompactSound(s: Store, r: Store)
    requires Sound(s) && r.texts == s.texts && (r.file == s.file || r.file == LiveMail(s.file))
    ensures Sound(r)
  {
    if r.file != s.file {
      hide LiveMail;
      var from := CompactedFrom(s.file);
    }
  }

  /** In every state that can be reached, every live letter still has its text. */
  lemma {:induction false} TextsAreNeverLost(s: Store, es: seq<Event>)
    requires Sound(s) && LegalRun(s, es)
    ensures Sound(Run(s, es)) && TextsPresent(Run(s, es))
    decreases |es|
  {
    hide Step, Legal;
    if es != [] {
      StepSound(s, es[0]);
      TextsAreNeverLost(Step(s, es[0]), es[1..]);
    }
  }

  // ----- runs in which texts are shared without the mark -----

  /** A delivered letter has a date. */
  predicate DatedEvent(e: Event) {
    match e
    case Send(m) => m.daten != NEVER
    case SendMany(m, _) => m.daten != NEVER
    case _ => true
  }

  /** If the event deletes a live letter, that letter is multi-mail or no other live record has its text. */
  ghost predicate Spares(s: Store, e: Event) {
    e.Remove? && e.loc < |s.file| && Live(s.file[e.loc]) ==> s.file[e.loc].multimail || !SharedLive(s.file, e.loc)
  }

  ghost predicate SparesAlong(s: Store, es: seq<Event>)
    decreases |es|
  {
    es != [] ==> Spares(s, es[0]) && SparesAlong(Step(s, es[0]), es[1..])
  }

  ghost predicate PresentAlong(s: Store, es: seq<Event>)
    decreases |es|
  {
    TextsPresent(s) && (es != [] ==> PresentAlong(Step(s, es[0]), es[1..]))
  }

  ghost predicate MarkedAlong(s: Store, es: seq<Event>)
    decreases |es|
  {
    SharedAreMultimail(s.file) && (es != [] ==> MarkedAlong(Step(s, es[0]), es[1..]))
  }

  lemma WritePresent(s: Store, recs: seq<MailRec>, t: TextId, waiting: seq<nat>, fwaiting: int)
    requires Dated(s.file) && TextsPresent(s)
    requires forall i :: 0 <= i < |recs| ==> recs[i].msg == t && recs[i].daten != NEVER
    ensures var r := Store(Write(s.file, Tail(s.file), recs), waiting, fwaiting, s.texts + {t});
      Dated(r.file) && TextsPresent(r)
  {
    hide Tail, Write, Live;
    var f := Write(s.file, Tail(s.file), recs);
    forall k: nat | k < |f| && Live(f[k])
      ensures f[k].daten != NEVER && f[k].msg in s.texts + {t}
    {
      WrittenAt(s.file, recs, k);
    }
  }

  lemma DeletePresent(s: Store, loc: nat)
    requires Dated(s.file) && TextsPresent(s) && loc < |s.file|
    ensures Dated(Delete(s, loc).file) && (TextsPresent(Delete(s, loc)) <==> Spares(s, Remove(loc)))
  {
    if Live(s.file[loc]) {
      DeleteSparesOthers(s, loc);
      var f := Delete(s, loc).file;
      assert forall i :: 0 <= i < |f| && i != loc ==> f[i] == s.file[i];
      assert !Live(f[loc]);
    }
  }

  lemma CompactPresent(s: Store, r: Store)
    requires Dated(s.file) && TextsPresent(s)
    requires r.texts == s.texts && (r.file == s.file || r.file == LiveMail(s.file))
    ensures Dated(r.file) && TextsPresent(r)
  {
    if r.file != s.file {
      hide LiveMail;
      var from := CompactedFrom(s.file);
    }
  }

  /** One event leaves every live letter its text exactly when it is no deletion of a letter that shares its text
      without the mark. */
  lemma StepPresent(s: Store, e: Event)
    requires Dated(s.file) && TextsPresent(s) && DatedEvent(e)
    ensures Dated(Step(s, e).file) && (TextsPresent(Step(s, e)) <==> Spares(s, e))
  {
    hide Write, Tail, LiveMail, Dated, TextsPresent, Delete, CountTo, OneMore, MoreForAll, Occurrences, SetWaiting;
    hide SharedLive, Live;
    match e
    case Send(m) =>
      var r := Step(s, e);
      WritePresent(s, [m], m.msg, r.waiting, r.fwaiting);
    case SendMany(m, users) =>
      var r := Step(s, e);
      WritePresent(s, Copies(m, users), m.msg, r.waiting, r.fwaiting);
    case Remove(loc) =>
      if loc < |s.file| { DeletePresent(s, loc); }
    case Leave(u, mailcheck) =>
      CompactPresent(s, Step(s, e));
  }

  /** Over every run of dated deliveries, whatever texts they share: each live letter has its text in every state if and
      only if no deletion hits a letter that shares its text without the mark. */
  lemma {:induction false} TextsStayExactly(s: Store, es: seq<Event>)
    requires Dated(s.file) && TextsPresent(s) && forall i :: 0 <= i < |es| ==> DatedEvent(es[i])
    ensures PresentAlong(s, es) <==> SparesAlong(s, es)
    decreases |es|
  {
    hide Step, Dated, TextsPresent, Spares, DatedEvent;
    if es != [] {
      StepPresent(s, es[0]);
      if Spares(s, es[0]) {
        TextsStayExactly(Step(s, es[0]), es[1..]);
      } else {
        NotPresent(Step(s, es[0]), es[1..]);
      }
    }
  }

  lemma NotPresent(s: Store, es: seq<Event>)
    requires !TextsPresent(s)
    ensures !PresentAlong(s, es)
  {
    hide Step, TextsPresent;
  }

  lemma {:induction false} MarkedSpares(s: Store, es: seq<Event>)
    requires MarkedAlong(s, es)
    ensures SparesAlong(s, es)
    decreases |es|
  {
    hide Step;
    if es != [] {
      MarkedSpares(Step(s, es[0]), es[1..]);
    }
  }

  /** In particular no text is lost in a run in whose states letters that share a text are all multi-mail. */
  lemma MarkedTextsStay(s: Store, es: seq<Event>)
    requires Dated(s.file) && TextsPresent(s) && forall i :: 0 <= i < |es| ==> DatedEvent(es[i])
    requires MarkedAlong(s, es)
    ensures PresentAlong(s, es)
  {
    hide Dated, TextsPresent, DatedEvent, MarkedAlong, PresentAlong, SparesAlong;
    MarkedSpares(s, es);
    TextsStayExactly(s, es);
  }

  // ----- which texts are stored -----

  /** Deleting a letter removes its text unless the letter is marked multi-mail and some other record with a date has
      that text. Every other text stays. */
  lemma DeleteRemovesText(s: Store, loc: nat)
    requires loc < |s.file| && Live(s.file[loc])
    ensures var m := s.file[loc];
      m.msg in Delete(s, loc).texts <==>
        && m.msg in s.texts && m.multimail
        && exists i :: 0 <= i < |s.file| && i != loc && s.file[i].msg == m.msg && s.file[i].daten != NEVER
    ensures forall t :: t != s.file[loc].msg ==> (t in Delete(s, loc).texts <==> t in s.texts)
  {
  }

  /** Some live letter has the text. */
  ghost predicate HasLetter(file: seq<MailRec>, t: TextId) {
    exists i :: 0 <= i < |file| && Live(file[i]) && file[i].msg == t
  }

  /** No text is stored that no live letter has. */
  ghost predicate NoneLeft(s: Store) {
    forall t :: t in s.texts ==> HasLetter(s.file, t)
  }

  ghost predicate NoneLeftAlong(s: Store, es: seq<Event>)
    decreases |es|
  {
    NoneLeft(s) && (es != [] ==> NoneLeftAlong(Step(s, es[0]), es[1..]))
  }

  /** The event leaves a text behind: it is delivered to nobody, or it is kept for a record that is nobody's. */
  ghost predicate LeavesText(s: Store, e: Event) {
    match e
    case Send(m) => m.tosys == 0 && m.touser == 0 && !HasLetter(s.file, m.msg)
    case SendMany(m, users) => (forall i :: 0 <= i < |users| ==> users[i] == 0) && !HasLetter(s.file, m.msg)
    case Remove(loc) =>
      && loc < |s.file| && Live(s.file[loc]) && s.file[loc].multimail && s.file[loc].msg in s.texts
      && !SharedLive(s.file, loc)
      && exists i :: 0 <= i < |s.file| && i != loc && s.file[i].msg == s.file[loc].msg && s.file[i].daten != NEVER
    case Leave(_, _) => false
  }

  ghost predicate LeavesTextAlong(s: Store, es: seq<Event>)
    decreases |es|
  {
    es != [] && (LeavesText(s, es[0]) || LeavesTextAlong(Step(s, es[0]), es[1..]))
  }

  lemma HasLetterInList(file: seq<MailRec>, t: TextId)
    ensures HasLetter(file, t) <==> exists m :: m in LiveMail(file) && m.msg == t
  {
    hide Filter, Live;
    if HasLetter(file, t) {
      var i :| 0 <= i < |file| && Live(file[i]) && file[i].msg == t;
      assert file[i] in LiveMail(file);
    }
    if m :| m in LiveMail(file) && m.msg == t {
      var i :| 0 <= i < |file| && file[i] == m;
    }
  }

  /** After a delivery a live letter has the text if one had it before or a delivered one has it. */
  lemma HasLetterWritten(file: seq<MailRec>, recs: seq<MailRec>, t: TextId)
    ensures HasLetter(Write(file, Tail(file), recs), t) <==> HasLetter(file, t) || HasLetter(recs, t)
  {
    hide Write, Tail, LiveMail, HasLetter;
    WriteAppends(file, recs);
    HasLetterInList(file, t);
    HasLetterInList(recs, t);
    HasLetterInList(Write(file, Tail(file), recs), t);
  }

  lemma HasLetterCompacted(file: seq<MailRec>, t: TextId)
    ensures HasLetter(LiveMail(file), t) <==> HasLetter(file, t)
  {
    hide LiveMail, HasLetter;
    CompactionKeeps(file);
    HasLetterInList(file, t);
    HasLetterInList(LiveMail(file), t);
  }

  lemma HasLetterDeleted(s: Store, loc: nat, t: TextId)
    requires loc < |s.file| && Live(s.file[loc])
    ensures HasLetter(Delete(s, loc).file, t)
       <==> if t == s.file[loc].msg then SharedLive(s.file, loc) else HasLetter(s.file, t)
  {
    var f := Delete(s, loc).file;
    assert !Live(f[loc]) && forall i :: 0 <= i < |f| && i != loc ==> f[i] == s.file[i];
    if HasLetter(f, t) {
      var i :| 0 <= i < |f| && Live(f[i]) && f[i].msg == t;
      assert s.file[i] == f[i];
    }
    if i :| 0 <= i < |f| && i != loc && Live(s.file[i]) && s.file[i].msg == t {
      assert f[i] == s.file[i];
    }
  }

  lemma WriteLeaves(s: Store, recs: seq<MailRec>, t: TextId, r: Store)
    requires NoneLeft(s) && r.file == Write(s.file, Tail(s.file), recs) && r.texts == s.texts + {t}
    requires forall i :: 0 <= i < |recs| ==> recs[i].msg == t
    ensures NoneLeft(r) <==> HasLetter(s.file, t) || exists i :: 0 <= i < |recs| && Live(recs[i])
  {
    hide Write, Tail, Live;
    HasLetterWritten(s.file, recs, t);
    assert HasLetter(recs, t) <==> exists i :: 0 <= i < |recs| && Live(recs[i]);
    forall u | u in s.texts
      ensures HasLetter(r.file, u)
    {
      HasLetterWritten(s.file, recs, u);
    }
    assert t in r.texts;
  }

  lemma DeleteLeaves(s: Store, loc: nat)
    requires NoneLeft(s) && loc < |s.file| && Live(s.file[loc])
    ensures NoneLeft(Delete(s, loc)) <==> !LeavesText(s, Remove(loc))
  {
    hide Live, Delete, HasLetter, SharedLive;
    DeleteRemovesText(s, loc);
    var r := Delete(s, loc);
    HasLetterDeleted(s, loc, s.file[loc].msg);
    forall t | t in r.texts && t != s.file[loc].msg
      ensures HasLetter(r.file, t)
    {
      HasLetterDeleted(s, loc, t);
    }
  }

  lemma CompactLeaves(s: Store, r: Store)
    requires NoneLeft(s) && r.texts == s.texts && (r.file == s.file || r.file == LiveMail(s.file))
    ensures NoneLeft(r)
  {
    hide LiveMail, HasLetter;
    forall t | t in r.texts
      ensures HasLetter(r.file, t)
    {
      HasLetterCompacted(s.file, t);
    }
  }

  lemma StepLeaves(s: Store, e: Event)
    requires NoneLeft(s)
    ensures NoneLeft(Step(s, e)) <==> !LeavesText(s, e)
  {
    hide Write, Tail, LiveMail, NoneLeft, Delete, CountTo, OneMore, MoreForAll, Occurrences, SetWaiting;
    hide SharedLive, HasLetter;
    match e
    case Send(m) =>
      WriteLeaves(s, [m], m.msg, Step(s, e));
      assert Live(m) <==> Live([m][0]);
    case SendMany(m, users) =>
      var recs := Copies(m, users);
      WriteLeaves(s, recs, m.msg, Step(s, e));
      assert forall i :: 0 <= i < |users| ==> (Live(recs[i]) <==> users[i] != 0);
    case Remove(loc) =>
      if loc < |s.file| && Live(s.file[loc]) { DeleteLeaves(s, loc); } else { NothingDeleted(s, loc); }
    case Leave(u, mailcheck) =>
      CompactLeaves(s, Step(s, e));
  }

  lemma NothingDeleted(s: Store, loc: nat)
    requires !(loc < |s.file| && Live(s.file[loc]))
    ensures Step(s, Remove(loc)) == s
  {
  }

  /** Over every run: in each state every stored text is that of a live letter, exactly when no event of the run leaves
      one behind. */
  lemma {:induction false} TextsAreUsed(s: Store, es: seq<Event>)
    requires NoneLeft(s)
    ensures NoneLeftAlong(s, es) <==> !LeavesTextAlong(s, es)
    decreases |es|
  {
    hide Step, NoneLeft, LeavesText;
    if es != [] {
      StepLeaves(s, es[0]);
      if NoneLeft(Step(s, es[0])) {
        TextsAreUsed(Step(s, es[0]), es[1..]);
      }
    }
  }

  /** A delivery to somebody. */
  predicate Addressed(e: Event) {
    match e
    case Send(m) => m.tosys != 0 || m.touser != 0
    case SendMany(_, users) => users != [] && forall i :: 0 <= i < |users| ==> users[i] != 0
    case _ => true
  }

  /** Only live records have a date. */
  ghost predicate DatedAreLive(file: seq<MailRec>) {
    forall i :: 0 <= i < |file| && file[i].daten != NEVER ==> Live(file[i])
  }

  lemma WriteDatedLive(file: seq<MailRec>, recs: seq<MailRec>)
    requires DatedAreLive(file) && forall i :: 0 <= i < |recs| ==> Live(recs[i])
    ensures DatedAreLive(Write(file, Tail(file), recs))
  {
    hide Tail, Write, Live;
    var f := Write(file, Tail(file), recs);
    forall k: nat | k < |f| && f[k].daten != NEVER
      ensures Live(f[k])
    {
      WrittenAt(file, recs, k);
    }
  }

  lemma CompactDatedLive(file: seq<MailRec>)
    ensures DatedAreLive(LiveMail(file))
  {
    hide Filter;
    CompactionKeeps(file);
  }

  lemma DeleteDatedLive(s: Store, loc: nat)
    requires DatedAreLive(s.file) && loc < |s.file|
    ensures DatedAreLive(Delete(s, loc).file)
    ensures !LeavesText(s, Remove(loc))
  {
    var f := Delete(s, loc).file;
    assert forall i :: 0 <= i < |f| && i != loc ==> f[i] == s.file[i];
  }

  lemma StepDatedLive(s: Store, e: Event)
    requires DatedAreLive(s.file) && Addressed(e)
    ensures DatedAreLive(Step(s, e).file) && !LeavesText(s, e)
  {
    hide Write, Tail, LiveMail, DatedAreLive, Delete, CountTo, OneMore, MoreForAll, Occurrences, SetWaiting, HasLetter;
    match e
    case Send(m) => WriteDatedLive(s.file, [m]);
    case SendMany(m, users) => WriteDatedLive(s.file, Copies(m, users));
    case Remove(loc) => if loc < |s.file| { DeleteDatedLive(s, loc); }
    case Leave(u, mailcheck) => CompactDatedLive(s.file);
  }

  /** If every delivery has an addressee, no text is ever left behind. */
  lemma {:induction false} AddressedLeavesNone(s: Store, es: seq<Event>)
    requires NoneLeft(s) && DatedAreLive(s.file) && forall i :: 0 <= i < |es| ==> Addressed(es[i])
    ensures NoneLeftAlong(s, es)
    decreases |es|
  {
    hide Step, NoneLeft, LeavesText, DatedAreLive, Addressed;
    if es != [] {
      StepDatedLive(s, es[0]);
      StepLeaves(s, es[0]);
      AddressedLeavesNone(Step(s, es[0]), es[1..]);
    }
  }

  // ----- log-off -----

  /** Log-off of user `u`: after a deletion in the session no tombstone is left and the live mail is what it was;
      without one the file is not touched. The user's counter is the number of letters, up to 255; the others stay. */
  lemma LogOffDoes(s: Store, u: nat, mailcheck: bool)
    requires 1 <= u < |s.waiting|
    ensures var r := LogOff(s, u, mailcheck);
      && (mailcheck ==> LiveMail(r.file) == LiveMail(s.file) && forall i :: 0 <= i < |r.file| ==> Live(r.file[i]))
      && (!mailcheck ==> r.file == s.file)
      && r.texts == s.texts && |r.waiting| == |s.waiting|
      && r.waiting[u] == (if CountTo(s.file, u) <= 255 then CountTo(s.file, u) else 255)
      && forall v :: 0 <= v < |s.waiting| && v != u ==> r.waiting[v] == s.waiting[v]
  {
    hide CountTo, LiveMail;
    CompactionKeeps(s.file);
  }
}
