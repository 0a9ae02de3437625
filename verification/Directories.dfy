/** What the sysop's file-area editor (`bbs/diredit.cpp`) does to the three structures that number file areas: the
    area vector, every user's scan flags and every conference's member list. Each edit is one edit of a table with
    one row per area; the row carries the area's record, its flag for each user and its place in each conference.
 */
module Directories {
  import opened Seqs
  import opened Conference

  datatype DirRec = DirRec(name: string, filename: string, path: string, dsl: nat, age: nat, maxfiles: nat,
                           dar: nat, kind: nat, mask: nat)

  /** The record `insert_dir` puts in: the sysop edits it afterwards. */
  function NewDir(dloadsDir: string): DirRec {
    DirRec("** NEW DIR **", "NONAME", dloadsDir, 10, 0, 50, 0, 0, 0)
  }

  datatype State = State(dirs: seq<DirRec>, scans: seq<seq<bool>>, confs: seq<seq<subconf>>)

  predicate Aligned(st: State) {
    forall u :: 0 <= u < |st.scans| ==> |st.scans[u]| == |st.dirs|
  }

  /** Every user has one flag for each area, and conferences hold distinct existing areas. */
  ghost predicate WellFormed(st: State) {
    && Aligned(st)
    && |st.dirs| <= 0xFFFF
    && (forall c :: 0 <= c < |st.confs| ==> GoodMembers(st.confs[c], |st.dirs|))
  }

  ghost predicate GoodMembers(s: seq<subconf>, areas: nat) {
    Distinct(s) && AllBelow(s, areas)
  }

  // ----- the edits -----

  function InsertDir(st: State, n: nat, r: DirRec): (st': State)
    requires Aligned(st)
    ensures Aligned(st')
  {
    if n > |st.dirs| then st
    else State(InsertAt(st.dirs, n, r),
               seq(|st.scans|, u requires 0 <= u < |st.scans| => InsertAt(st.scans[u], n, true)),
               seq(|st.confs|, c requires 0 <= c < |st.confs| => ShiftedUp(st.confs[c], n)))
  }

  function DeleteDir(st: State, n: nat): (st': State)
    requires Aligned(st)
    ensures Aligned(st')
  {
    if n >= |st.dirs| then st
    else State(RemoveAt(st.dirs, n),
               seq(|st.scans|, u requires 0 <= u < |st.scans| => RemoveAt(st.scans[u], n)),
               seq(|st.confs|, c requires 0 <= c < |st.confs| => ShiftedDown(RemoveFirst(st.confs[c], n), n)))
  }

  function SwapDirs(st: State, i: nat, j: nat): (st': State)
    requires Aligned(st)
    ensures Aligned(st')
  {
    if i >= |st.dirs| || j >= |st.dirs| then st
    else State(SwapAt(st.dirs, i, j),
               seq(|st.scans|, u requires 0 <= u < |st.scans| => SwapAt(st.scans[u], i, j)),
               seq(|st.confs|, c requires 0 <= c < |st.confs| => Exchanged(st.confs[c], Wrap(i), Wrap(j))))
  }

  /** The requests of the 'S' command that are carried out. */
  predicate MoveAllowed(st: State, i1: nat, i2: nat, maxDirs: nat) {
    |st.dirs| < maxDirs && i1 < |st.dirs| && i2 % 32 != 0 && i2 <= |st.dirs| && i1 != i2
  }

  /** Where the moved area stands once the empty slot at `i2` is in. */
  function Pushed(i1: nat, i2: nat): nat {
    if i2 < i1 then i1 + 1 else i1
  }

  /** The 'S' command: open a slot, exchange, close the old place. */
  function MoveDir(st: State, i1: nat, i2: nat, r: DirRec, maxDirs: nat): (st': State)
    requires Aligned(st)
    ensures Aligned(st')
  {
    if !MoveAllowed(st, i1, i2, maxDirs) then st
    else
      var a := InsertDir(st, i2, r);
      var b := SwapDirs(a, Pushed(i1, i2), i2);
      DeleteDir(b, Pushed(i1, i2))
  }

  /** The sysop fills in a record. */
  function ModifyDir(st: State, n: nat, r: DirRec): (st': State)
    requires Aligned(st)
    ensures Aligned(st')
  {
    if n >= |st.dirs| then st else st.(dirs := st.dirs[n := r])
  }

  /** The end of the 'I' command: the new area is put in a conference, unless it is full. */
  function HouseDir(st: State, n: nat, c: nat): (st': State)
    requires Aligned(st)
    ensures Aligned(st')
  {
    if n >= |st.dirs| || c >= |st.confs| then st
    else st.(confs := st.confs[c := AddMembers(st.confs[c], [n], |st.dirs|)])
  }

  /** What the commands do: 'I' is an insertion, a change of the new record and, if the sysop picks a conference, a
      `House`; 'M' is changes of records; 'D' and 'S' are a deletion and a move. */
  datatype Edit =
    | Insert(n: nat)
    | Modify(n: nat, rec: DirRec)
    | House(n: nat, c: nat)
    | Delete(n: nat)
    | Swap(i: nat, j: nat)
    | Move(i1: nat, i2: nat)

  /** One step of the editor. A new area is refused when the table is full. */
  function Apply(st: State, e: Edit, r: DirRec, maxDirs: nat): (st': State)
    requires Aligned(st)
    ensures Aligned(st')
  {
    match e
    case Insert(n) => if |st.dirs| < maxDirs then InsertDir(st, n, r) else st
    case Modify(n, rec) => ModifyDir(st, n, rec)
    case House(n, c) => HouseDir(st, n, c)
    case Delete(n) => DeleteDir(st, n)
    case Swap(i, j) => SwapDirs(st, i, j)
    case Move(i1, i2) => MoveDir(st, i1, i2, r, maxDirs)
  }

  function Run(st: State, edits: seq<Edit>, r: DirRec, maxDirs: nat): (st': State)
    requires Aligned(st)
    ensures Aligned(st')
    decreases |edits|
  {
    if edits == [] then st else Run(Apply(st, edits[0], r, maxDirs), edits[1..], r, maxDirs)
  }

  // ----- the table -----

  datatype Row = Row(dir: DirRec, marks: seq<bool>, homes: seq<bool>)

  /** One row per area: its record, whether each user scans it, whether each conference has it. */
  function Table(st: State): (t: seq<Row>)
    requires Aligned(st)
    ensures |t| == |st.dirs|
  {
    seq(|st.dirs|, k requires 0 <= k < |st.dirs| => RowOf(st, k))
  }

  function RowOf(st: State, k: nat): Row
    requires Aligned(st) && k < |st.dirs|
  {
    Row(st.dirs[k],
        seq(|st.scans|, u requires 0 <= u < |st.scans| => st.scans[u][k]),
        seq(|st.confs|, c requires 0 <= c < |st.confs| => k in st.confs[c]))
  }

  /** A new area is scanned by everyone and is in no conference. */
  function NewRow(r: DirRec, users: nat, confs: nat): Row {
    Row(r, seq(users, _ => true), seq(confs, _ => false))
  }

  /** Row `i1` taken out and put in front of what was row `i2`. */
  function MoveRow<T>(t: seq<T>, i1: nat, i2: nat): (r: seq<T>)
    requires i1 < |t| && i2 <= |t|
    ensures |r| == |t|
  {
    InsertAt(RemoveAt(t, i1), if i1 < i2 then i2 - 1 else i2, t[i1])
  }

  /** How many areas conference `c` has. */
  function Homed(t: seq<Row>, c: nat): nat {
    if t == [] then 0
    else
      var last := t[|t| - 1];
      Homed(t[..|t| - 1], c) + if c < |last.homes| && last.homes[c] then 1 else 0
  }

  /** One more home for row `n`, if the conference is not full. */
  function HouseRow(t: seq<Row>, n: nat, c: nat): (r: seq<Row>)
    requires n < |t|
    ensures |r| == |t|
  {
    if c < |t[n].homes| && Homed(t, c) < FULL then t[n := t[n].(homes := t[n].homes[c := true])] else t
  }

  function ApplyToTable(t: seq<Row>, e: Edit, fresh_: Row, maxDirs: nat): seq<Row> {
    match e
    case Insert(n) => if |t| < maxDirs && n <= |t| then InsertAt(t, n, fresh_) else t
    case Modify(n, rec) => if n < |t| then t[n := t[n].(dir := rec)] else t
    case House(n, c) => if n < |t| then HouseRow(t, n, c) else t
    case Delete(n) => if n < |t| then RemoveAt(t, n) else t
    case Swap(i, j) => if i < |t| && j < |t| then SwapAt(t, i, j) else t
    case Move(i1, i2) =>
      if |t| < maxDirs && i1 < |t| && i2 % 32 != 0 && i2 <= |t| then MoveRow(t, i1, i2) else t
  }

  function RunOnTable(t: seq<Row>, edits: seq<Edit>, fresh_: Row, maxDirs: nat): seq<Row>
    decreases |edits|
  {
    if edits == [] then t else RunOnTable(ApplyToTable(t, edits[0], fresh_, maxDirs), edits[1..], fresh_, maxDirs)
  }

  // ----- member lists -----

  lemma ShiftedUpMembers(s: seq<subconf>, n: nat, areas: nat)
    requires GoodMembers(s, areas) && n <= areas < 0xFFFF
    ensures GoodMembers(ShiftedUp(s, n), areas + 1)
  {
    var t := ShiftedUp(s, n);
    assert forall i :: 0 <= i < |s| ==> t[i] == if s[i] >= n then s[i] + 1 else s[i];
  }

  lemma ShiftedUpHas(s: seq<subconf>, n: nat, areas: nat, k: nat)
    requires AllBelow(s, areas) && n <= areas < 0xFFFF
    ensures k in ShiftedUp(s, n) <==> if k < n then k in s else k > n && k - 1 in s
  {
    var t := ShiftedUp(s, n);
    assert forall i :: 0 <= i < |s| ==> t[i] == if s[i] >= n then s[i] + 1 else s[i];
    var was := if k < n then k else k - 1;
    if was in s && k != n {
      var i :| 0 <= i < |s| && s[i] == was;
      assert t[i] == k;
    }
  }

  lemma ShiftedDownMembers(s: seq<subconf>, n: nat, areas: nat)
    requires GoodMembers(s, areas) && n !in s && n < areas
    ensures GoodMembers(ShiftedDown(s, n), areas - 1)
  {
    var t := ShiftedDown(s, n);
    assert forall i :: 0 <= i < |s| ==> s[i] != n && t[i] == if s[i] >= n then s[i] - 1 else s[i];
  }

  lemma ShiftedDownHas(s: seq<subconf>, n: nat, k: nat)
    requires n !in s
    ensures k in ShiftedDown(s, n) <==> if k < n then k in s else k + 1 in s
  {
    var t := ShiftedDown(s, n);
    assert forall i :: 0 <= i < |s| ==> s[i] != n && t[i] == if s[i] >= n then s[i] - 1 else s[i];
    var was := if k < n then k else k + 1;
    if was in s {
      var i :| 0 <= i < |s| && s[i] == was;
      assert t[i] == k;
    }
  }

  lemma DeletedMembers(s: seq<subconf>, n: nat, areas: nat)
    requires GoodMembers(s, areas) && n < areas
    ensures GoodMembers(ShiftedDown(RemoveFirst(s, n), n), areas - 1)
  {
    hide RemoveFirst, ShiftedDown;
    RemoveFirstMembers(s, n);
    var t := RemoveFirst(s, n);
    assert AllBelow(t, areas) by { assert forall i :: 0 <= i < |t| ==> t[i] in t; }
    ShiftedDownMembers(t, n, areas);
  }

  lemma DeletedHas(s: seq<subconf>, n: nat, areas: nat, k: nat)
    requires GoodMembers(s, areas) && n < areas <= 0xFFFF && k + 1 < areas
    ensures k in ShiftedDown(RemoveFirst(s, n), n) <==> if k < n then k in s else k + 1 in s
  {
    hide RemoveFirst, ShiftedDown;
    RemoveFirstMembers(s, n);
    ShiftedDownHas(RemoveFirst(s, n), n, k);
    var was: subconf := if k < n then k else k + 1;
    assert was in RemoveFirst(s, n) <==> was in s;
  }

  lemma ExchangedMembers(s: seq<subconf>, a: subconf, b: subconf, areas: nat)
    requires GoodMembers(s, areas) && a < areas && b < areas
    ensures GoodMembers(Exchanged(s, a, b), areas)
    ensures |Exchanged(s, a, b)| == |s|
    ensures forall i :: 0 <= i < |s| ==> Exchanged(s, a, b)[i] == Other(s[i], a, b)
  {
    hide FirstIndex;
    var t := Exchanged(s, a, b);
    assert forall i :: 0 <= i < |s| ==> t[i] == Other(s[i], a, b);
  }

  lemma ExchangedHas(s: seq<subconf>, a: subconf, b: subconf, areas: nat, k: nat)
    requires GoodMembers(s, areas) && a < areas && b < areas
    ensures k in Exchanged(s, a, b) <==> Other(k, a, b) in s
  {
    hide Exchanged;
    ExchangedMembers(s, a, b, areas);
    var t := Exchanged(s, a, b);
    if k in t {
      var i :| 0 <= i < |t| && t[i] == k;
      assert s[i] == Other(k, a, b);
    }
    if Other(k, a, b) in s {
      var i :| 0 <= i < |s| && s[i] == Other(k, a, b);
      assert t[i] == k;
    }
  }

  function Other(k: int, a: int, b: int): int {
    if k == a then b else if k == b then a else k
  }

  // ----- each edit of the structures is one edit of the table -----

  lemma InsertedRow(st: State, n: nat, r: DirRec, k: nat)
    requires WellFormed(st) && n <= |st.dirs| < 0xFFFF && k <= |st.dirs|
    ensures RowOf(InsertDir(st, n, r), k)
         == (if k < n then RowOf(st, k) else if k == n then NewRow(r, |st.scans|, |st.confs|) else RowOf(st, k - 1))
  {
    hide ShiftedUp;
    var st' := InsertDir(st, n, r);
    var row := if k < n then RowOf(st, k) else if k == n then NewRow(r, |st.scans|, |st.confs|) else RowOf(st, k - 1);
    assert RowOf(st', k).marks == row.marks;
    forall c | 0 <= c < |st.confs|
      ensures RowOf(st', k).homes[c] == row.homes[c]
    {
      ShiftedUpHas(st.confs[c], n, |st.dirs|, k);
    }
    assert RowOf(st', k).homes == row.homes;
  }

  lemma InsertStaysAligned(st: State, n: nat, r: DirRec)
    requires WellFormed(st) && n <= |st.dirs| < 0xFFFF
    ensures WellFormed(InsertDir(st, n, r))
    ensures Table(InsertDir(st, n, r)) == InsertAt(Table(st), n, NewRow(r, |st.scans|, |st.confs|))
  {
    hide ShiftedUp, RowOf;
    var st' := InsertDir(st, n, r);
    forall c | 0 <= c < |st.confs|
      ensures GoodMembers(st'.confs[c], |st'.dirs|)
    {
      ShiftedUpMembers(st.confs[c], n, |st.dirs|);
    }
    forall k | 0 <= k < |st'.dirs|
      ensures RowOf(st', k) == InsertAt(Table(st), n, NewRow(r, |st.scans|, |st.confs|))[k]
    {
      InsertedRow(st, n, r, k);
    }
  }

  lemma DeletedRow(st: State, n: nat, k: nat)
    requires WellFormed(st) && n < |st.dirs| && k < |st.dirs| - 1
    ensures RowOf(DeleteDir(st, n), k) == RowOf(st, if k < n then k else k + 1)
  {
    hide ShiftedDown, RemoveFirst;
    var st' := DeleteDir(st, n);
    var row := RowOf(st, if k < n then k else k + 1);
    assert RowOf(st', k).marks == row.marks;
    forall c | 0 <= c < |st.confs|
      ensures RowOf(st', k).homes[c] == row.homes[c]
    {
      DeletedHas(st.confs[c], n, |st.dirs|, k);
    }
    assert RowOf(st', k).homes == row.homes;
  }

  lemma DeleteStaysAligned(st: State, n: nat)
    requires WellFormed(st) && n < |st.dirs|
    ensures WellFormed(DeleteDir(st, n))
    ensures Table(DeleteDir(st, n)) == RemoveAt(Table(st), n)
  {
    hide ShiftedDown, RemoveFirst, RowOf;
    var st' := DeleteDir(st, n);
    forall c | 0 <= c < |st.confs|
      ensures GoodMembers(st'.confs[c], |st'.dirs|)
    {
      DeletedMembers(st.confs[c], n, |st.dirs|);
    }
    forall k | 0 <= k < |st'.dirs|
      ensures RowOf(st', k) == RemoveAt(Table(st), n)[k]
    {
      DeletedRow(st, n, k);
    }
  }

  lemma SwappedRow(st: State, i: nat, j: nat, k: nat)
    requires WellFormed(st) && i < |st.dirs| && j < |st.dirs| && k < |st.dirs|
    ensures RowOf(SwapDirs(st, i, j), k) == RowOf(st, Other(k, i, j))
  {
    hide Exchanged;
    var st' := SwapDirs(st, i, j);
    var row := RowOf(st, Other(k, i, j));
    assert RowOf(st', k).marks == row.marks;
    forall c | 0 <= c < |st.confs|
      ensures RowOf(st', k).homes[c] == row.homes[c]
    {
      ExchangedHas(st.confs[c], i, j, |st.dirs|, k);
    }
    assert RowOf(st', k).homes == row.homes;
  }

  lemma SwapStaysAligned(st: State, i: nat, j: nat)
    requires WellFormed(st) && i < |st.dirs| && j < |st.dirs|
    ensures WellFormed(SwapDirs(st, i, j))
    ensures Table(SwapDirs(st, i, j)) == SwapAt(Table(st), i, j)
  {
    hide Exchanged, RowOf;
    var st' := SwapDirs(st, i, j);
    forall c | 0 <= c < |st.confs|
      ensures GoodMembers(st'.confs[c], |st'.dirs|)
    {
      ExchangedMembers(st.confs[c], i, j, |st.dirs|);
    }
    forall k | 0 <= k < |st'.dirs|
      ensures RowOf(st', k) == SwapAt(Table(st), i, j)[k]
    {
      SwappedRow(st, i, j, k);
    }
  }

  lemma MoveIsThreeEdits<T>(t: seq<T>, i1: nat, i2: nat, x: T)
    requires i1 < |t| && i2 <= |t| && i1 != i2
    ensures RemoveAt(SwapAt(InsertAt(t, i2, x), Pushed(i1, i2), i2), Pushed(i1, i2)) == MoveRow(t, i1, i2)
  {
    hide InsertAt, RemoveAt, SwapAt;
    var p := Pushed(i1, i2);
    var a := InsertAt(t, i2, x);
    var b := SwapAt(a, p, i2);
    var r := RemoveAt(b, p);
    forall k | 0 <= k < |t|
      ensures r[k] == MoveRow(t, i1, i2)[k]
    {
      var k1 := if k < p then k else k + 1;
      var k2 := if k1 == i2 then p else k1;
      RemoveAtIndex(b, p, k);
      SwapAtIndex(a, p, i2, k1);
      InsertAtIndex(t, i2, x, k2);
      MovedIndex(t, i1, i2, k);
    }
  }

  /** Which row stands at place `k` after the move. */
  function TakenFrom(k: int, i1: int, i2: int): int {
    var to := if i1 < i2 then i2 - 1 else i2;
    var rest := if k < to then k else k - 1;
    if k == to then i1 else if rest < i1 then rest else rest + 1
  }

  lemma MovedIndex<T>(t: seq<T>, i1: nat, i2: nat, k: nat)
    requires i1 < |t| && i2 <= |t| && k < |t|
    ensures 0 <= TakenFrom(k, i1, i2) < |t| && MoveRow(t, i1, i2)[k] == t[TakenFrom(k, i1, i2)]
  {
    hide InsertAt, RemoveAt;
    var to := if i1 < i2 then i2 - 1 else i2;
    InsertAtIndex(RemoveAt(t, i1), to, t[i1], k);
    if k != to { RemoveAtIndex(t, i1, if k < to then k else k - 1); }
  }

  lemma MoveStaysAligned(st: State, i1: nat, i2: nat, r: DirRec, maxDirs: nat)
    requires WellFormed(st) && maxDirs <= 0xFFFF && MoveAllowed(st, i1, i2, maxDirs)
    ensures WellFormed(MoveDir(st, i1, i2, r, maxDirs))
    ensures Table(MoveDir(st, i1, i2, r, maxDirs)) == MoveRow(Table(st), i1, i2)
  {
    hide InsertDir, SwapDirs, DeleteDir, WellFormed, RowOf, Table, InsertAt, RemoveAt, SwapAt, MoveRow;
    AlignedIfWellFormed(st);
    InsertStaysAligned(st, i2, r);
    var a := InsertDir(st, i2, r);
    AlignedIfWellFormed(a);
    InsertedLength(st, i2, r);
    SwapStaysAligned(a, Pushed(i1, i2), i2);
    var b := SwapDirs(a, Pushed(i1, i2), i2);
    AlignedIfWellFormed(b);
    SwappedLength(a, Pushed(i1, i2), i2);
    DeleteStaysAligned(b, Pushed(i1, i2));
    MoveIsThreeEdits(Table(st), i1, i2, NewRow(r, |st.scans|, |st.confs|));
  }

  lemma AlignedIfWellFormed(st: State)
    requires WellFormed(st)
    ensures Aligned(st) && |st.dirs| <= 0xFFFF
  {
  }

  lemma InsertedLength(st: State, n: nat, r: DirRec)
    requires Aligned(st) && n <= |st.dirs|
    ensures |InsertDir(st, n, r).dirs| == |st.dirs| + 1
  {
  }

  lemma DeleteParts(st: State, n: nat)
    requires Aligned(st) && n < |st.dirs|
    ensures var r := DeleteDir(st, n);
      && r.dirs == RemoveAt(st.dirs, n) && |r.scans| == |st.scans| && |r.confs| == |st.confs|
      && (forall u :: 0 <= u < |st.scans| ==> r.scans[u] == RemoveAt(st.scans[u], n))
      && forall c :: 0 <= c < |st.confs| ==> r.confs[c] == ShiftedDown(RemoveFirst(st.confs[c], n), n)
  {
    hide RemoveAt, ShiftedDown, RemoveFirst;
  }

  lemma DeleteRefused(st: State, n: nat)
    requires Aligned(st) && n >= |st.dirs|
    ensures DeleteDir(st, n) == st
  {
  }

  lemma DeletedLength(st: State, n: nat)
    requires Aligned(st) && n < |st.dirs|
    ensures |DeleteDir(st, n).dirs| == |st.dirs| - 1
  {
  }

  lemma SwappedLength(st: State, i: nat, j: nat)
    requires Aligned(st)
    ensures |SwapDirs(st, i, j).dirs| == |st.dirs|
  {
  }

  // ----- records and conferences of their own -----

  lemma ModifyStaysAligned(st: State, n: nat, r: DirRec)
    requires WellFormed(st) && n < |st.dirs|
    ensures WellFormed(ModifyDir(st, n, r))
    ensures Table(ModifyDir(st, n, r)) == Table(st)[n := Table(st)[n].(dir := r)]
  {
  }

  /** How many numbers below `n` are in the list. */
  function CountBelow(s: seq<subconf>, n: nat): nat {
    if n == 0 then 0 else CountBelow(s, n - 1) + if n - 1 in s then 1 else 0
  }

  lemma {:induction false} CountBelowSame(s: seq<subconf>, t: seq<subconf>, n: nat)
    requires forall x :: 0 <= x < n ==> (x in s <==> x in t)
    ensures CountBelow(s, n) == CountBelow(t, n)
  {
    if n > 0 { CountBelowSame(s, t, n - 1); }
  }

  /** Distinct members are as many as there are areas that are members. */
  lemma {:induction false} CountBelowIs(s: seq<subconf>, n: nat)
    requires GoodMembers(s, n) && n <= 0xFFFF
    ensures CountBelow(s, n) == |s|
  {
    if n > 0 {
      hide RemoveFirst, Distinct;
      var t := RemoveFirst(s, n - 1);
      RemoveFirstMembers(s, n - 1);
      if n - 1 in s { RemoveFirstLength(s, n - 1); } else { RemoveAbsent(s, n - 1); }
      forall i | 0 <= i < |t|
        ensures t[i] < n - 1
      {
        assert t[i] in t;
        var j :| 0 <= j < |s| && s[j] == t[i];
      }
      CountBelowIs(t, n - 1);
      CountBelowSame(s, t, n - 1);
    }
  }

  lemma {:induction false} HomedBelow(st: State, c: nat, k: nat)
    requires WellFormed(st) && c < |st.confs| && k <= |st.dirs|
    ensures Homed(Table(st)[..k], c) == CountBelow(st.confs[c], k)
  {
    hide WellFormed;
    AlignedIfWellFormed(st);
    if k > 0 {
      var t := Table(st)[..k];
      assert t[..k - 1] == Table(st)[..k - 1];
      assert t[k - 1] == RowOf(st, k - 1);
      HomedBelow(st, c, k - 1);
    }
  }

  /** The table knows how many members a conference has. */
  lemma HomedIs(st: State, c: nat)
    requires WellFormed(st) && c < |st.confs|
    ensures Homed(Table(st), c) == |st.confs[c]|
  {
    hide Table, CountBelow, Homed;
    HomedBelow(st, c, |st.dirs|);
    assert Table(st)[..|st.dirs|] == Table(st);
    CountBelowIs(st.confs[c], |st.dirs|);
  }

  lemma AddedMember(s: seq<subconf>, n: nat, areas: nat)
    requires GoodMembers(s, areas) && n < areas <= 0xFFFF
    ensures var t := AddMembers(s, [n], areas);
      GoodMembers(t, areas) && forall k :: k in t <==> k in s || (k == n && |s| < FULL)
  {
    AddOne(s, [n], areas);
    AddListStep(if n in s then s else s + [n], [], areas);
    assert [n][1..] == [];
    if n in s || |s| >= FULL {
      assert AddMembers(s, [n], areas) == s;
    } else {
      assert AddMembers(s, [n], areas) == s + [n];
    }
  }

  /** Housing an area in a conference changes that area's row and no other. */
  lemma HouseStaysAligned(st: State, n: nat, c: nat)
    requires WellFormed(st) && n < |st.dirs|
    ensures WellFormed(HouseDir(st, n, c))
    ensures Table(HouseDir(st, n, c)) == HouseRow(Table(st), n, c)
  {
    if c < |st.confs| {
      hide AddMembers, Homed;
      AddedMember(st.confs[c], n, |st.dirs|);
      HomedIs(st, c);
      var st' := HouseDir(st, n, c);
      forall k: nat | k < |st.dirs|
        ensures RowOf(st', k) == HouseRow(Table(st), n, c)[k]
      {
        HousedRow(st, n, c, k);
      }
    } else {
      assert Table(st)[n] == RowOf(st, n);
    }
  }

  lemma HousedRow(st: State, n: nat, c: nat, k: nat)
    requires WellFormed(st) && n < |st.dirs| && c < |st.confs| && k < |st.dirs|
    ensures var row := RowOf(st, k);
      RowOf(HouseDir(st, n, c), k)
        == if k == n && |st.confs[c]| < FULL then row.(homes := row.homes[c := true]) else row
  {
    hide AddMembers;
    AddedMember(st.confs[c], n, |st.dirs|);
    var st', row := HouseDir(st, n, c), RowOf(st, k);
    var homes := if k == n && |st.confs[c]| < FULL then row.homes[c := true] else row.homes;
    assert RowOf(st', k).marks == row.marks;
    assert RowOf(st', k).homes == homes;
  }

  // ----- moving is one permutation -----

  /** Where area `k` stands after area `i1` was moved in front of area `i2`. */
  function MovedTo(k: int, i1: int, i2: int): int {
    if k == i1 then (if i1 < i2 then i2 - 1 else i2)
    else if i1 < k < i2 then k - 1
    else if i2 <= k < i1 then k + 1
    else k
  }

  /** `MovedTo` is a permutation of the areas, and it is what happens to the rows. */
  lemma MovePermutes<T>(t: seq<T>, i1: nat, i2: nat)
    requires i1 < |t| && i2 <= |t|
    ensures forall k :: 0 <= k < |t| ==> 0 <= MovedTo(k, i1, i2) < |t|
    ensures forall j, k :: 0 <= j < k < |t| ==> MovedTo(j, i1, i2) != MovedTo(k, i1, i2)
    ensures forall k :: 0 <= k < |t| ==> MoveRow(t, i1, i2)[MovedTo(k, i1, i2)] == t[k]
  {
  }

  /** After a move every area keeps its record, each user's scan flag for it and each conference it is in. */
  lemma MoveKeepsEveryArea(st: State, i1: nat, i2: nat, r: DirRec, maxDirs: nat, k: nat)
    requires WellFormed(st) && maxDirs <= 0xFFFF && MoveAllowed(st, i1, i2, maxDirs) && k < |st.dirs|
    ensures var st' := MoveDir(st, i1, i2, r, maxDirs);
      && Aligned(st') && 0 <= MovedTo(k, i1, i2) < |st'.dirs| == |st.dirs|
      && RowOf(st', MovedTo(k, i1, i2)) == RowOf(st, k)
  {
    hide MoveDir, RowOf, WellFormed;
    AlignedIfWellFormed(st);
    MoveStaysAligned(st, i1, i2, r, maxDirs);
    AlignedIfWellFormed(MoveDir(st, i1, i2, r, maxDirs));
    MovePermutes(Table(st), i1, i2);
    assert Table(st)[k] == RowOf(st, k);
    var st' := MoveDir(st, i1, i2, r, maxDirs);
    assert Table(st')[MovedTo(k, i1, i2)] == RowOf(st', MovedTo(k, i1, i2));
  }

  /** The member list of one conference after the three edits of a move. */
  function MovedMembers(s: seq<subconf>, i1: nat, i2: nat): seq<subconf> {
    var p := Pushed(i1, i2);
    ShiftedDown(RemoveFirst(Exchanged(ShiftedUp(s, i2), Wrap(p), Wrap(i2)), p), p)
  }

  ghost predicate AtMostOnce(s: seq<subconf>, x: int) {
    forall i, j :: 0 <= i < j < |s| ==> !(s[i] == x && s[j] == x)
  }

  /** The list is renumbered by the permutation, order kept, exactly when the moved area is listed at most once. */
  lemma MoveRenumbersMembers(s: seq<subconf>, i1: nat, i2: nat, areas: nat)
    requires AllBelow(s, areas) && areas < 0xFFFF && i1 < areas && i2 <= areas && i1 != i2
    ensures MovedMembers(s, i1, i2) == seq(|s|, i requires 0 <= i < |s| => MovedTo(s[i], i1, i2))
       <==> AtMostOnce(s, i1)
  {
    if AtMostOnce(s, i1) {
      MovedOnce(s, i1, i2, areas);
    } else {
      var i, j :| 0 <= i < j < |s| && s[i] == i1 && s[j] == i1;
      MovedTwice(s, i1, i2, areas, i, j);
    }
  }

  lemma OpenedUp(s: seq<subconf>, i1: nat, i2: nat, areas: nat)
    requires AllBelow(s, areas) && areas < 0xFFFF && i1 < areas && i2 <= areas && i1 != i2
    ensures var up, p := ShiftedUp(s, i2), Pushed(i1, i2);
      && i2 !in up && (AtMostOnce(s, i1) ==> AtMostOnce(up, p))
      && forall i :: 0 <= i < |s| ==> up[i] == (if s[i] >= i2 then s[i] + 1 else s[i]) && (up[i] == p <==> s[i] == i1)
  {
    var up := ShiftedUp(s, i2);
    assert forall i :: 0 <= i < |s| ==> up[i] == (if s[i] >= i2 then s[i] + 1 else s[i]);
  }

  lemma MovedOnce(s: seq<subconf>, i1: nat, i2: nat, areas: nat)
    requires AllBelow(s, areas) && areas < 0xFFFF && i1 < areas && i2 <= areas && i1 != i2 && AtMostOnce(s, i1)
    ensures MovedMembers(s, i1, i2) == seq(|s|, i requires 0 <= i < |s| => MovedTo(s[i], i1, i2))
  {
    hide FirstIndex, RemoveFirst, Exchanged, ShiftedUp, ShiftedDown, AtMostOnce;
    var p := Pushed(i1, i2);
    OpenedUp(s, i1, i2, areas);
    var swapped := ExchangedAbsent(ShiftedUp(s, i2), p, i2);
    RemoveAbsent(swapped, p);
    ShiftedDownIs(swapped, p);
  }

  /** A list that names the moved area at two places loses an entry. */
  lemma MovedTwice(s: seq<subconf>, i1: nat, i2: nat, areas: nat, i: nat, j: nat)
    requires AllBelow(s, areas) && areas < 0xFFFF && i1 < areas && i2 <= areas && i1 != i2
    requires i < j < |s| && s[i] == i1 && s[j] == i1
    ensures |MovedMembers(s, i1, i2)| == |s| - 1
  {
    hide FirstIndex, RemoveFirst, Exchanged, ShiftedUp, ShiftedDown;
    var p := Pushed(i1, i2);
    OpenedUp(s, i1, i2, areas);
    ExchangeLeavesOne(ShiftedUp(s, i2), p, i2, i, j);
    RemoveFirstLength(Exchanged(ShiftedUp(s, i2), p, i2), p);
  }

  /** Area 4 is listed twice and is moved before area 1: one entry goes. */
  lemma ListedTwice()
    ensures MovedMembers([4, 0, 4], 4, 1) == [1, 0]
  {
    var s: seq<subconf> := [4, 0, 4];
    var up: seq<subconf> := [5, 0, 5];
    assert ShiftedUp(s, 1) == up;
    FirstIndexIs(up, 5, 0);
    FirstIndexIs(up, 1, -1);
    assert Exchanged(up, 5, 1) == [1, 0, 5];
    FirstIndexIs([1, 0, 5], 5, 2);
    assert RemoveFirst([1, 0, 5], 5) == [1, 0];
    assert ShiftedDown([1, 0], 5) == [1, 0];
  }

  lemma ExchangedAbsent(s: seq<subconf>, a: subconf, b: subconf) returns (t: seq<subconf>)
    requires AtMostOnce(s, a) && b !in s && a != b
    ensures t == Exchanged(s, a, b) && |t| == |s| && a !in t
    ensures forall i :: 0 <= i < |s| ==> t[i] == (if s[i] == a then b else s[i])
  {
    hide FirstIndex;
    t := Exchanged(s, a, b);
    assert FirstIndex(s, b) == -1;
  }

  lemma ExchangeLeavesOne(s: seq<subconf>, a: subconf, b: subconf, i: nat, j: nat)
    requires b !in s && a != b && i < j < |s| && s[i] == a && s[j] == a
    ensures a in Exchanged(s, a, b) && |Exchanged(s, a, b)| == |s|
  {
    hide FirstIndex;
    var p := FirstIndex(s, a);
    assert Exchanged(s, a, b) == s[p := b];
    assert s[p := b][if p == i then j else i] == a;
  }

  lemma ShiftedDownIs(s: seq<subconf>, n: nat)
    requires n !in s
    ensures forall i :: 0 <= i < |s| ==> ShiftedDown(s, n)[i] == (if s[i] > n then s[i] - 1 else s[i])
  {
    assert forall i :: 0 <= i < |s| ==> s[i] != n;
  }

  // ----- undoing -----

  lemma RemoveInserted<T>(s: seq<T>, n: nat, x: T)
    requires n <= |s|
    ensures RemoveAt(InsertAt(s, n, x), n) == s
  {
  }

  lemma ShiftsUndone(s: seq<subconf>, n: nat, areas: nat)
    requires AllBelow(s, areas) && n <= areas < 0xFFFF
    ensures ShiftedDown(RemoveFirst(ShiftedUp(s, n), n), n) == s
  {
    hide RemoveFirst;
    var up := ShiftedUp(s, n);
    assert forall i :: 0 <= i < |s| ==> up[i] == (if s[i] >= n then s[i] + 1 else s[i]) && up[i] != n;
    RemoveAbsent(up, n);
    ShiftedDownIs(up, n);
  }

  /** Deleting the area just inserted gives back everything. */
  lemma DeleteUndoesInsert(st: State, n: nat, r: DirRec)
    requires Aligned(st) && n <= |st.dirs| < 0xFFFF
    requires forall c :: 0 <= c < |st.confs| ==> AllBelow(st.confs[c], |st.dirs|)
    ensures Aligned(InsertDir(st, n, r)) && DeleteDir(InsertDir(st, n, r), n) == st
  {
    hide RemoveFirst, ShiftedUp, ShiftedDown, InsertAt, RemoveAt;
    var a := InsertDir(st, n, r);
    var b := DeleteDir(a, n);
    RemoveInserted(st.dirs, n, r);
    forall u | 0 <= u < |st.scans|
      ensures b.scans[u] == st.scans[u]
    {
      RemoveInserted(st.scans[u], n, true);
    }
    forall c | 0 <= c < |st.confs|
      ensures b.confs[c] == st.confs[c]
    {
      ShiftsUndone(st.confs[c], n, |st.dirs|);
    }
    assert b.scans == st.scans && b.confs == st.confs;
  }

  /** Exchanging the same two areas again gives back everything. */
  lemma SwapTwice(st: State, i: nat, j: nat)
    requires WellFormed(st)
    ensures Aligned(SwapDirs(st, i, j)) && SwapDirs(SwapDirs(st, i, j), i, j) == st
  {
    if i < |st.dirs| && j < |st.dirs| {
      hide Exchanged, SwapAt, Wrap;
      var a := SwapDirs(st, i, j);
      assert |a.dirs| == |st.dirs|;
      var b := SwapDirs(a, i, j);
      assert b.dirs == st.dirs by { SwapAtTwice(st.dirs, i, j); }
      forall u | 0 <= u < |st.scans| ensures b.scans[u] == st.scans[u] {
        assert a.scans[u] == SwapAt(st.scans[u], i, j);
        SwapAtTwice(st.scans[u], i, j);
      }
      assert b.scans == st.scans;
      forall c | 0 <= c < |st.confs| ensures b.confs[c] == st.confs[c] {
        assert a.confs[c] == Exchanged(st.confs[c], Wrap(i), Wrap(j));
        ExchangeTwice(st.confs[c], Wrap(i), Wrap(j));
      }
      assert b.confs == st.confs;
    }
  }

  lemma SwapAtTwice<T>(s: seq<T>, i: nat, j: nat)
    requires i < |s| && j < |s|
    ensures SwapAt(SwapAt(s, i, j), i, j) == s
  {
  }

  lemma ExchangeTwice(s: seq<subconf>, a: subconf, b: subconf)
    requires Distinct(s)
    ensures Exchanged(Exchanged(s, a, b), a, b) == s
  {
    hide FirstIndex;
    var t := Exchanged(s, a, b);
    assert forall i :: 0 <= i < |s| ==> t[i] == Other(s[i], a, b);
    assert forall i :: 0 <= i < |s| ==> Exchanged(t, a, b)[i] == Other(t[i], a, b);
  }

  // ----- whole editing sessions -----

  lemma MoveToItself<T>(t: seq<T>, i: nat)
    requires i < |t|
    ensures MoveRow(t, i, i) == t
  {
  }

  /** One command keeps the structures in step. */
  lemma ApplyIsTableEdit(st: State, e: Edit, r: DirRec, maxDirs: nat)
    requires WellFormed(st) && maxDirs <= 0xFFFF
    ensures WellFormed(Apply(st, e, r, maxDirs))
    ensures |Apply(st, e, r, maxDirs).scans| == |st.scans| && |Apply(st, e, r, maxDirs).confs| == |st.confs|
    ensures Table(Apply(st, e, r, maxDirs))
         == ApplyToTable(Table(st), e, NewRow(r, |st.scans|, |st.confs|), maxDirs)
  {
    hide WellFormed, Table, InsertAt, RemoveAt, SwapAt, MoveRow, HouseRow, NewRow;
    AlignedIfWellFormed(st);
    match e
    case Insert(n) =>
      if |st.dirs| < maxDirs && n <= |st.dirs| { InsertStaysAligned(st, n, r); }
    case Modify(n, rec) =>
      if n < |st.dirs| { ModifyStaysAligned(st, n, rec); }
    case House(n, c) =>
      if n < |st.dirs| { HouseStaysAligned(st, n, c); }
    case Delete(n) =>
      if n < |st.dirs| { DeleteStaysAligned(st, n); }
    case Swap(i, j) =>
      if i < |st.dirs| && j < |st.dirs| { SwapStaysAligned(st, i, j); }
    case Move(i1, i2) =>
      if MoveAllowed(st, i1, i2, maxDirs) {
        MoveStaysAligned(st, i1, i2, r, maxDirs);
      } else if i1 == i2 && i1 < |st.dirs| {
        MoveToItself(Table(st), i1);
      }
  }

  /** Over any run of commands the area vector, the scan flags and the conferences stay one table. */
  lemma {:induction false} RunIsTableRun(st: State, edits: seq<Edit>, r: DirRec, maxDirs: nat)
    requires WellFormed(st) && maxDirs <= 0xFFFF
    ensures WellFormed(Run(st, edits, r, maxDirs))
    ensures Table(Run(st, edits, r, maxDirs))
         == RunOnTable(Table(st), edits, NewRow(r, |st.scans|, |st.confs|), maxDirs)
    decreases |edits|
  {
    hide Apply, ApplyToTable, Table, NewRow, WellFormed;
    AlignedIfWellFormed(st);
    if edits != [] {
      ApplyIsTableEdit(st, edits[0], r, maxDirs);
      RunIsTableRun(Apply(st, edits[0], r, maxDirs), edits[1..], r, maxDirs);
    }
  }
}
