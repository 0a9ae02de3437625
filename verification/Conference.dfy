/** The member list of one conference (`confrec.subs` and `confrec.num` in `bbs/conf.cpp`): the operations that edit
    it in place, the functions they compute, and what editing keeps.
 */
module Conference {
  import opened Seqs

  /** `subconf_t` is an unsigned 16-bit number. */
  type subconf = x: int | 0 <= x < 0x1_0000

  function Wrap(x: int): subconf { if 0 <= x < 0x1_0000 then x else x % 0x1_0000 }

  /** No member is added to a conference that already has this many. */
  const FULL := 1023

  // ----- what the operations compute -----

  /** Position of the first occurrence of `x`, or -1. */
  function FirstIndex(s: seq<subconf>, x: int): (p: int)
    ensures p == -1 <==> x !in s
    ensures p != -1 ==> 0 <= p < |s| && s[p] == x && forall i :: 0 <= i < p ==> s[i] != x
  {
    if s == [] then -1
    else if s[0] == x then 0
    else
      var p := FirstIndex(s[1..], x);
      assert forall y :: y in s <==> y == s[0] || y in s[1..];
      if p == -1 then -1 else p + 1
  }

  function RemoveFirst(s: seq<subconf>, x: int): seq<subconf> {
    var p := FirstIndex(s, x);
    if p == -1 then s else RemoveAt(s, p)
  }

  /** The numbers at `n` and above make room. */
  function ShiftedUp(s: seq<subconf>, n: int): (r: seq<subconf>)
    ensures |r| == |s|
  {
    seq(|s|, i requires 0 <= i < |s| => if s[i] >= n then Wrap(s[i] as int + 1) else s[i])
  }

  /** The numbers at `n` and above close the gap. */
  function ShiftedDown(s: seq<subconf>, n: int): (r: seq<subconf>)
    ensures |r| == |s|
  {
    seq(|s|, i requires 0 <= i < |s| => if s[i] >= n then Wrap(s[i] as int - 1) else s[i])
  }

  function Put(s: seq<subconf>, p: int, x: subconf): (r: seq<subconf>)
    requires p == -1 || 0 <= p < |s|
    ensures |r| == |s|
  {
    if p == -1 then s else s[p := x]
  }

  /** The first `a` becomes `b` and the first `b` becomes `a`. */
  function Exchanged(s: seq<subconf>, a: subconf, b: subconf): seq<subconf> {
    Put(Put(s, FirstIndex(s, a), b), FirstIndex(s, b), a)
  }

  /** Numbers are handled in order; the first one that is not an area ends the work. */
  function AddList(s: seq<subconf>, list: seq<nat>, areas: nat): seq<subconf>
    decreases |list|
  {
    if list == [] || list[0] >= areas then s
    else AddList(if Wrap(list[0]) in s then s else s + [Wrap(list[0])], list[1..], areas)
  }

  function DelList(s: seq<subconf>, list: seq<nat>, areas: nat): seq<subconf>
    decreases |list|
  {
    if list == [] || list[0] >= areas then s
    else DelList(RemoveFirst(s, list[0]), list[1..], areas)
  }

  function AddMembers(s: seq<subconf>, list: seq<nat>, areas: nat): seq<subconf> {
    if areas < 1 || |s| >= FULL then s else AddList(s, list, areas)
  }

  /** Remove and add one number again, as the editor does when it is left. */
  function Readd(s: seq<subconf>, i: nat, areas: nat): seq<subconf> {
    if i in s then AddMembers(DelList(s, [i], areas), [i], areas) else s
  }

  function ReaddUpTo(s: seq<subconf>, n: nat, areas: nat): seq<subconf> {
    if n == 0 then s else Readd(ReaddUpTo(s, n - 1, areas), n - 1, areas)
  }

  /** The record, edited in place. The buffer keeps one entry beyond `maxnum`: the removal loop of `delsubconf`
      copies the entry after the last member, which is never a member itself. */
  class ConfRec {
    var num: nat
    var maxnum: nat
    var subs: array<subconf>

    ghost predicate Valid()
      reads this
    {
      num <= maxnum && maxnum + 1 == subs.Length
    }

    /** The live part of the buffer. */
    ghost function Members(): (s: seq<subconf>)
      requires Valid()
      reads this, subs
      ensures |s| == num
    {
      subs[..num]
    }

    constructor (members: seq<subconf>)
      ensures Valid() && fresh(subs) && Members() == members
    {
      num, maxnum := |members|, |members|;
      subs := new subconf[|members| + 1](i requires 0 <= i <= |members| => if i < |members| then members[i] else 0);
      new;
      assert subs[..num] == members;
    }

    /** `in_conference`. */
    method InConference(subnum: int) returns (nInit: int)
      requires Valid()
      ensures nInit == FirstIndex(Members(), subnum)
    {
      nInit := -1;
      var i := 0;
      while i < num
        invariant 0 <= i <= num
        invariant nInit == -1 ==> forall k :: 0 <= k < i ==> subs[k] != subnum
        invariant nInit != -1 ==> 0 <= nInit < i && subs[nInit] == subnum
        invariant nInit != -1 ==> forall k :: 0 <= k < nInit ==> subs[k] != subnum
      {
        if nInit == -1 && subs[i] == subnum {
          nInit := i;
        }
        i := i + 1;
      }
      FirstIndexIs(Members(), subnum, nInit);
    }

    /** The inner loop of `update_conf` for insertion. */
    method MakeRoom(sub1: subconf)
      requires Valid()
      modifies subs
      ensures Members() == ShiftedUp(old(Members()), sub1)
    {
      var i1 := 0;
      while i1 < num
        invariant 0 <= i1 <= num
        invariant forall i :: 0 <= i < i1 ==> subs[i] == ShiftedUp(old(Members()), sub1)[i]
        invariant forall i :: i1 <= i < num ==> subs[i] == old(subs[i])
      {
        if subs[i1] >= sub1 {
          subs[i1] := Wrap(subs[i1] as int + 1);
        }
        i1 := i1 + 1;
      }
    }

    /** `update_conf` for deletion: the number goes, then those above it move down. */
    method CloseGap(sub1: subconf, areas: nat)
      requires Valid() && sub1 < areas
      modifies this`num, subs
      ensures Valid() && Members() == ShiftedDown(RemoveFirst(old(Members()), sub1), sub1)
    {
      hide ShiftedDown, RemoveFirst;
      var pos := -1;
      if num != 0 {
        pos := InConference(sub1);
        if pos != -1 {
          DelSubConf([sub1], areas);
        }
      }
      DelOne(old(Members()), sub1, areas);
      MoveDown(sub1);
    }

    method MoveDown(sub1: subconf)
      requires Valid()
      modifies subs
      ensures Members() == ShiftedDown(old(Members()), sub1)
    {
      var i1 := 0;
      while i1 < num
        invariant 0 <= i1 <= num
        invariant forall i :: 0 <= i < i1 ==> subs[i] == ShiftedDown(old(Members()), sub1)[i]
        invariant forall i :: i1 <= i < num ==> subs[i] == old(subs[i])
      {
        if subs[i1] >= sub1 {
          subs[i1] := Wrap(subs[i1] as int - 1);
        }
        i1 := i1 + 1;
      }
    }

    /** `update_conf` for exchange. */
    method Exchange(sub1: subconf, sub2: subconf)
      requires Valid()
      modifies subs
      ensures Members() == Exchanged(old(Members()), sub1, sub2)
    {
      var pos1 := InConference(sub1);
      var pos2 := InConference(sub2);
      if pos1 != -1 {
        subs[pos1] := sub2;
      }
      if pos2 != -1 {
        subs[pos2] := sub1;
      }
    }

    /** `delsubconf`, given the numbers to remove and the number of areas there are. */
    method DelSubConf(list: seq<nat>, areas: nat)
      requires Valid()
      modifies this`num, subs
      ensures Valid() && Members() == DelList(old(Members()), list, areas)
    {
      if num < 1 {
        DelNothing(list, areas);
        return;
      }
      var k := 0;
      while k < |list|
        invariant 0 <= k <= |list| && Valid()
        invariant DelList(Members(), list[k..], areas) == DelList(old(Members()), list, areas)
      {
        if list[k] >= areas {
          break;
        }
        var pos := InConference(list[k]);
        if pos >= 0 {
          CloseUp(pos);
        }
        assert list[k..][1..] == list[k + 1..];
        k := k + 1;
      }
    }

    /** The removal loop of `delsubconf`: every entry from `pos` on is replaced by the one after it. */
    method CloseUp(pos: nat)
      requires Valid() && pos < num
      modifies this`num, subs
      ensures Valid() && Members() == RemoveAt(old(Members()), pos)
    {
      ghost var before := subs[..];
      var i2 := pos;
      while i2 < num
        invariant Valid() && pos <= i2 <= num == old(num)
        invariant forall i :: 0 <= i < pos ==> subs[i] == before[i]
        invariant forall i :: pos <= i < i2 ==> subs[i] == before[i + 1]
        invariant forall i :: i2 <= i < subs.Length ==> subs[i] == before[i]
      {
        subs[i2] := subs[i2 + 1];
        i2 := i2 + 1;
      }
      num := num - 1;
      ClosedUp(before, subs[..], pos, num);
    }

    /** `addsubconf`, given the numbers to add, the number of areas and the growth step of the buffer. */
    method AddSubConf(list: seq<nat>, areas: nat, step: nat)
      requires Valid() && step > 0
      modifies this, subs
      ensures Valid() && Members() == AddMembers(old(Members()), list, areas)
      ensures subs == old(subs) || fresh(subs)
    {
      if areas < 1 || num >= FULL {
        return;
      }
      hide AddList, FirstIndex;
      var k := 0;
      assert list[0..] == list;
      while k < |list|
        invariant 0 <= k <= |list| && Valid() && (subs == old(subs) || fresh(subs))
        invariant AddList(Members(), list[k..], areas) == AddList(old(Members()), list, areas)
      {
        AddListStep(Members(), list[k..], areas);
        if list[k] >= areas {
          return;
        }
        var pos := InConference(Wrap(list[k]));
        if pos == -1 {
          if num >= maxnum {
            Grow(step);
          }
          ghost var before := Members();
          subs[num] := Wrap(list[k]);
          num := num + 1;
          assert Members() == before + [Wrap(list[k])];
        }
        assert list[k..][1..] == list[k + 1..];
        k := k + 1;
      }
      AddListStep(Members(), list[k..], areas);
    }

    /** A larger buffer with the same members. */
    method Grow(step: nat)
      requires Valid() && step > 0
      modifies this`maxnum, this`subs
      ensures Valid() && fresh(subs) && num < maxnum && Members() == old(Members())
    {
      maxnum := maxnum + step;
      var tptr := new subconf[maxnum + 1](i requires 0 <= i <= maxnum reads this, subs =>
        if i < subs.Length then subs[i] else 0);
      subs := tptr;
    }

    /** The loop that ends the sub-conference editor: every member is removed and added again, in ascending order. */
    method ReaddAll(ns: nat, step: nat)
      requires Valid() && step > 0
      modifies this, subs
      ensures Valid() && Members() == ReaddUpTo(old(Members()), ns, ns)
      ensures subs == old(subs) || fresh(subs)
    {
      hide FirstIndex, DelList, AddMembers;
      var i := 0;
      while i < ns
        invariant 0 <= i <= ns && Valid() && (subs == old(subs) || fresh(subs))
        invariant Members() == ReaddUpTo(old(Members()), i, ns)
      {
        var pos := InConference(i);
        if pos > -1 {
          DelSubConf([i], ns);
          AddSubConf([i], ns, step);
        }
        i := i + 1;
      }
    }
  }

  // ----- the first occurrence -----

  lemma ClosedUp(before: seq<subconf>, after: seq<subconf>, pos: nat, n: nat)
    requires pos <= n < |before| && n <= |after|
    requires forall i :: 0 <= i < pos ==> after[i] == before[i]
    requires forall i :: pos <= i < n ==> after[i] == before[i + 1]
    ensures after[..n] == RemoveAt(before[..n + 1], pos)
  {
  }

  lemma FirstIndexIs(s: seq<subconf>, x: int, p: int)
    requires p == -1 ==> x !in s
    requires p != -1 ==> 0 <= p < |s| && s[p] == x && forall i :: 0 <= i < p ==> s[i] != x
    ensures FirstIndex(s, x) == p
  {
    hide FirstIndex;
    if p != -1 { assert s[p] in s; }
  }

  lemma {:induction false} DelNothing(list: seq<nat>, areas: nat)
    ensures DelList([], list, areas) == []
  {
    if list != [] { DelNothing(list[1..], areas); }
  }

  lemma DelOne(s: seq<subconf>, x: nat, areas: nat)
    requires x < areas
    ensures DelList(s, [x], areas) == RemoveFirst(s, x)
    ensures FirstIndex(s, x) == -1 ==> RemoveFirst(s, x) == s
  {
    hide FirstIndex;
    assert DelList(s, [x], areas) == DelList(RemoveFirst(s, x), [], areas);
  }

  lemma RemoveFirstMembers(s: seq<subconf>, x: int)
    requires Distinct(s)
    ensures Distinct(RemoveFirst(s, x))
    ensures forall y :: y in RemoveFirst(s, x) <==> y in s && y != x
  {
    hide FirstIndex;
    var p := FirstIndex(s, x);
    if p != -1 {
      var r := RemoveAt(s, p);
      forall y | y in s && y != x
        ensures y in r
      {
        var i :| 0 <= i < |s| && s[i] == y;
        assert r[if i < p then i else i - 1] == y;
      }
    }
  }

  // ----- leaving the editor sorts the members -----

  ghost predicate Ascending(s: seq<int>) {
    forall i, j :: 0 <= i < j < |s| ==> s[i] < s[j]
  }

  predicate AllBelow(s: seq<int>, n: int) {
    forall i :: 0 <= i < |s| ==> s[i] < n
  }

  /** The members from `i` up, in the order they are listed. */
  function AtLeast(s: seq<subconf>, i: int): (r: seq<subconf>)
    ensures forall x :: x in r <==> x in s && x >= i
  {
    if s == [] then [] else if s[0] >= i then [s[0]] + AtLeast(s[1..], i) else AtLeast(s[1..], i)
  }

  /** The members below `n`, in ascending order. */
  function Below(s: seq<subconf>, n: nat): (r: seq<subconf>)
    requires n <= 0x1_0000
    ensures forall x :: x in r <==> x in s && x < n
    ensures Ascending(r)
  {
    if n == 0 then []
    else
      var t := Below(s, n - 1);
      assert forall i :: 0 <= i < |t| ==> t[i] in t;
      t + (if n - 1 in s then [n - 1] else [])
  }

  lemma {:induction false} AtLeastZero(s: seq<subconf>)
    ensures AtLeast(s, 0) == s
  {
    if s != [] { AtLeastZero(s[1..]); }
  }

  lemma {:induction false} AtLeastNext(s: seq<subconf>, i: int)
    requires Distinct(s)
    ensures RemoveFirst(AtLeast(s, i), i) == AtLeast(s, i + 1)
    ensures |AtLeast(s, i)| == |AtLeast(s, i + 1)| + (if i in s then 1 else 0)
  {
    hide RemoveFirst;
    if s == [] {
      RemoveAbsent([], i);
    } else {
      var rest := AtLeast(s[1..], i);
      AtLeastNext(s[1..], i);
      assert i in s <==> s[0] == i || i in s[1..];
      if s[0] == i {
        assert i !in s[1..];
        AtLeastSkips(s[1..], i);
        RemoveHead(i, rest);
      } else if s[0] > i {
        RemoveFirstAfter(s[0], rest, i);
      }
    }
  }

  lemma RemoveAbsent(s: seq<subconf>, i: int)
    requires i !in s
    ensures RemoveFirst(s, i) == s
  {
    hide FirstIndex;
  }

  lemma RemoveHead(x: subconf, s: seq<subconf>)
    ensures RemoveFirst([x] + s, x) == s
  {
    hide FirstIndex;
    FirstIndexIs([x] + s, x, 0);
  }

  lemma {:induction false} AtLeastSkips(s: seq<subconf>, i: int)
    requires i !in s
    ensures AtLeast(s, i) == AtLeast(s, i + 1)
  {
    if s != [] { AtLeastSkips(s[1..], i); }
  }

  lemma RemoveFirstAfter(x: subconf, s: seq<subconf>, i: int)
    requires x != i
    ensures RemoveFirst([x] + s, i) == [x] + RemoveFirst(s, i)
  {
    hide FirstIndex, RemoveAt;
    var p := FirstIndex(s, i);
    FirstIndexAfter(x, s, i);
    if p != -1 { RemoveAtAfter(x, s, p); }
  }

  lemma FirstIndexAfter(x: subconf, s: seq<subconf>, i: int)
    requires x != i
    ensures FirstIndex([x] + s, i) == if FirstIndex(s, i) == -1 then -1 else FirstIndex(s, i) + 1
  {
    assert ([x] + s)[1..] == s;
  }

  lemma RemoveAtAfter(x: subconf, s: seq<subconf>, p: nat)
    requires p < |s|
    ensures RemoveAt([x] + s, p + 1) == [x] + RemoveAt(s, p)
  {
  }

  lemma RemoveFirstFrom(a: seq<subconf>, b: seq<subconf>, i: int)
    requires i in a
    ensures RemoveFirst(a + b, i) == RemoveFirst(a, i) + b
  {
    hide FirstIndex;
    var p := FirstIndex(a, i);
    FirstIndexIs(a + b, i, p);
  }

  lemma {:induction false} AtLeastEmpty(s: seq<subconf>, n: int)
    requires AllBelow(s, n)
    ensures AtLeast(s, n) == []
  {
    if s != [] {
      AtLeastEmpty(s[1..], n);
    }
  }

  lemma ReaddMember(t: seq<subconf>, i: nat, areas: nat)
    requires Distinct(t) && i in t && i < areas <= 0x1_0000
    ensures Readd(t, i, areas) == (if |t| <= FULL then RemoveFirst(t, i) + [i] else RemoveFirst(t, i))
  {
    hide RemoveFirst;
    RemoveFirstMembers(t, i);
    var u := RemoveFirst(t, i);
    assert |u| == |t| - 1 by { RemoveFirstLength(t, i); }
    assert DelList(t, [i], areas) == DelList(u, [], areas) == u;
    assert AddList(u, [i], areas) == AddList(u + [i], [], areas) == u + [i];
  }

  lemma RemoveFirstLength(t: seq<subconf>, i: int)
    requires i in t
    ensures |RemoveFirst(t, i)| == |t| - 1
  {
  }

  /** Half way through the loop: the numbers still to come in their old order, then those done, ascending. */
  lemma {:induction false} ReaddHalfWay(s: seq<subconf>, n: nat, ns: nat)
    requires Distinct(s) && n <= ns <= 0x1_0000 && |s| <= FULL
    requires AllBelow(s, ns)
    ensures ReaddUpTo(s, n, ns) == AtLeast(s, n) + Below(s, n)
    ensures |AtLeast(s, n)| + |Below(s, n)| == |s|
  {
    hide RemoveFirst, AtLeast, Readd;
    if n == 0 {
      AtLeastZero(s);
    } else {
      var i := n - 1;
      ReaddHalfWay(s, i, ns);
      AtLeastNext(s, i);
      ReaddHalfWayStep(s, i, ns);
    }
  }

  lemma ReaddHalfWayStep(s: seq<subconf>, i: nat, ns: nat)
    requires Distinct(s) && i < ns <= 0x1_0000 && |AtLeast(s, i)| + |Below(s, i)| <= FULL
    ensures Readd(AtLeast(s, i) + Below(s, i), i, ns) == AtLeast(s, i + 1) + Below(s, i + 1)
  {
    hide AtLeast, RemoveFirst;
    var t := AtLeast(s, i) + Below(s, i);
    if i in s {
      AtLeastNext(s, i);
      AtLeastDistinct(s, i);
      DistinctAppend(AtLeast(s, i), Below(s, i));
      RemoveFirstFrom(AtLeast(s, i), Below(s, i), i);
      assert i in t;
      hide Readd;
      ReaddMember(t, i, ns);
      assert Below(s, i + 1) == Below(s, i) + [i];
    } else {
      AtLeastSkips(s, i);
      assert i !in t;
    }
  }

  lemma {:induction false} AtLeastDistinct(s: seq<subconf>, i: int)
    requires Distinct(s)
    ensures Distinct(AtLeast(s, i))
  {
    if s != [] {
      AtLeastDistinct(s[1..], i);
      assert s[0] !in s[1..];
    }
  }

  /** Leaving the editor sorts the member list: the same members, ascending. */
  lemma ReaddSorts(s: seq<subconf>, ns: nat)
    requires Distinct(s) && ns <= 0x1_0000 && |s| <= FULL
    requires AllBelow(s, ns)
    ensures ReaddUpTo(s, ns, ns) == Below(s, ns)
    ensures Ascending(ReaddUpTo(s, ns, ns))
    ensures forall x :: x in ReaddUpTo(s, ns, ns) <==> x in s
  {
    ReaddHalfWay(s, ns, ns);
    AtLeastEmpty(s, ns);
  }

  /** Once a number is gone it does not come back. */
  lemma {:induction false} ReaddOnlyKeeps(s: seq<subconf>, m: nat, n: nat, areas: nat)
    requires Distinct(s) && m <= n <= areas <= 0x1_0000
    ensures Distinct(ReaddUpTo(s, n, areas))
    ensures forall x :: x in ReaddUpTo(s, n, areas) ==> x in ReaddUpTo(s, m, areas)
    decreases n
  {
    hide Readd;
    if n > m {
      ReaddOnlyKeeps(s, m, n - 1, areas);
      ReaddStep(ReaddUpTo(s, n - 1, areas), n - 1, areas);
    } else if n > 0 {
      ReaddOnlyKeeps(s, m - 1, n - 1, areas);
      ReaddStep(ReaddUpTo(s, n - 1, areas), n - 1, areas);
    }
  }

  lemma ReaddStep(t: seq<subconf>, i: nat, areas: nat)
    requires Distinct(t) && i < areas <= 0x1_0000
    ensures Distinct(Readd(t, i, areas))
    ensures forall x :: x in Readd(t, i, areas) ==> x in t
    ensures i in t ==> (i in Readd(t, i, areas) <==> |t| <= FULL)
  {
    hide Readd, RemoveFirst;
    if i in t {
      ReaddMember(t, i, areas);
      RemoveFirstMembers(t, i);
    } else {
      ReaddAbsent(t, i, areas);
    }
  }

  lemma ReaddAbsent(t: seq<subconf>, i: nat, areas: nat)
    requires i !in t
    ensures Readd(t, i, areas) == t
  {
  }

  /** No step changes the list before the first member is reached. */
  lemma {:induction false} ReaddBeforeFirst(s: seq<subconf>, n: nat, areas: nat)
    requires forall i :: 0 <= i < |s| ==> s[i] >= n
    ensures ReaddUpTo(s, n, areas) == s
  {
    if n > 0 { ReaddBeforeFirst(s, n - 1, areas); }
  }

  /** Leaving the editor keeps every member exactly when there are at most 1023 of them. */
  lemma ReaddKeepsAll(s: seq<subconf>, ns: nat)
    requires Distinct(s) && ns <= 0x1_0000
    requires AllBelow(s, ns)
    ensures (forall x :: x in s ==> x in ReaddUpTo(s, ns, ns)) <==> |s| <= FULL
  {
    hide ReaddUpTo;
    if |s| <= FULL {
      ReaddSorts(s, ns);
    } else {
      var m := Least(s);
      LeastIsLost(s, m, ns);
    }
  }

  /** From a longer list the smallest number is lost: it is taken out first, and the list is still too long to take it
      back. */
  lemma LeastIsLost(s: seq<subconf>, m: subconf, ns: nat)
    requires Distinct(s) && ns <= 0x1_0000 && AllBelow(s, ns) && |s| > FULL
    requires m in s && forall i :: 0 <= i < |s| ==> m <= s[i]
    ensures m !in ReaddUpTo(s, ns, ns)
  {
    hide Readd, ReaddUpTo;
    ReaddBeforeFirst(s, m, ns);
    ReaddStep(s, m, ns);
    ReaddNext(s, m, ns);
    ReaddOnlyKeeps(s, m as nat + 1, ns, ns);
  }

  lemma ReaddNext(s: seq<subconf>, i: nat, areas: nat)
    ensures ReaddUpTo(s, i + 1, areas) == Readd(ReaddUpTo(s, i, areas), i, areas)
  {
  }

  /** The numbers below `n`, ascending. */
  function UpTo(n: nat): (s: seq<subconf>)
    requires n <= 0x1_0000
    ensures |s| == n && Distinct(s) && Ascending(s) && AllBelow(s, n) && forall i :: 0 <= i < n ==> s[i] == i
  {
    seq(n, i requires 0 <= i < n => i)
  }

  /** A conference of all areas below `n`, which are 1024 or more, loses area 0 when the editor is left. */
  lemma TooMany(n: nat)
    requires FULL < n <= 0x1_0000
    ensures 0 in UpTo(n) && 0 !in ReaddUpTo(UpTo(n), n, n)
  {
    hide ReaddUpTo;
    assert UpTo(n)[0] == 0;
    LeastIsLost(UpTo(n), 0, n);
  }

  /** One addition makes such a conference: areas 1022 and 1023 are added to one that has 0 to 1021. */
  lemma TwoMoreThanFit(n: nat)
    requires n == FULL + 1
    ensures AddMembers(UpTo(n - 2), [n - 2, n - 1], n) == UpTo(n)
    ensures 0 !in ReaddUpTo(AddMembers(UpTo(n - 2), [n - 2, n - 1], n), n, n)
  {
    hide ReaddUpTo, AddList;
    var s: seq<subconf> := UpTo(n - 2);
    var a, b: subconf := n - 2, n - 1;
    AddOne(s, [a, b], n);
    AddOne(s + [a], [b], n);
    AddListStep(s + [a] + [b], [], n);
    assert [a, b][1..] == [b] && [b][1..] == [];
    assert s + [a] + [b] == UpTo(n);
    TooMany(n);
  }

  lemma {:induction false} Least(s: seq<subconf>) returns (m: subconf)
    requires s != []
    ensures m in s && forall i :: 0 <= i < |s| ==> m <= s[i]
  {
    if |s| == 1 {
      m := s[0];
    } else {
      m := Least(s[1..]);
      if s[0] < m { m := s[0]; }
    }
  }

  // ----- adding and removing a list of numbers -----

  /** The numbers of the list that name an area. */
  function Areas(list: seq<nat>, areas: nat): (r: seq<nat>)
    ensures forall x :: x in r <==> x in list && x < areas
    ensures AllBelow(r, areas)
  {
    if list == [] then []
    else if list[0] < areas then [list[0]] + Areas(list[1..], areas)
    else Areas(list[1..], areas)
  }

  lemma {:induction false} NoAreas(list: seq<nat>, areas: nat)
    requires Ascending(list) && list != [] && list[0] >= areas
    ensures Areas(list, areas) == []
  {
    if |list| > 1 { NoAreas(list[1..], areas); }
  }

  function WithoutAll(s: seq<subconf>, gone: seq<nat>): (r: seq<subconf>)
    ensures forall x :: x in r <==> x in s && x !in gone
  {
    if s == [] then []
    else if s[0] in gone then WithoutAll(s[1..], gone)
    else [s[0]] + WithoutAll(s[1..], gone)
  }

  function NewOnes(s: seq<subconf>, list: seq<nat>): (r: seq<subconf>)
    requires AllBelow(list, 0x1_0000)
    ensures forall x :: x in r <==> x in list && x !in s
  {
    if list == [] then []
    else if list[0] in s then NewOnes(s, list[1..])
    else [list[0]] + NewOnes(s, list[1..])
  }

  /** Stopping at the first number that is not an area skips exactly those numbers, because the list ascends. */
  lemma {:induction false} AddStopsLate(s: seq<subconf>, list: seq<nat>, areas: nat)
    requires Ascending(list) && areas <= 0x1_0000
    ensures AddList(s, list, areas) == s + NewOnes(s, Areas(list, areas))
    decreases |list|
  {
    if list != [] {
      var x, rest := list[0], Areas(list[1..], areas);
      if x >= areas {
        NoAreas(list, areas);
      } else {
        hide *;
        var t := if x in s then s else s + [x];
        AscendingTail(list);
        AddStopsLate(t, list[1..], areas);
        AddOne(s, list, areas);
        AddedOne(s, x, rest);
      }
    } else {
      assert s + [] == s;
    }
  }

  lemma AddedOne(s: seq<subconf>, x: subconf, rest: seq<nat>)
    requires x !in rest && AllBelow(rest, 0x1_0000)
    ensures var t := if x in s then s else s + [x];
      t + NewOnes(t, rest) == s + NewOnes(s, [x] + rest)
  {
    hide NewOnes;
    NewOnesFirst(s, x, rest);
    if x !in s {
      NewOnesGrow(s, x, rest);
      assert s + [x] + NewOnes(s, rest) == s + ([x] + NewOnes(s, rest));
    }
  }

  lemma AscendingTail(list: seq<nat>)
    requires Ascending(list) && list != []
    ensures Ascending(list[1..]) && list[0] !in list[1..]
  {
  }

  lemma NewOnesFirst(s: seq<subconf>, x: subconf, rest: seq<nat>)
    requires AllBelow(rest, 0x1_0000)
    ensures NewOnes(s, [x] + rest) == (if x in s then NewOnes(s, rest) else [x] + NewOnes(s, rest))
  {
    assert ([x] + rest)[1..] == rest;
  }

  lemma {:induction false} NewOnesGrow(s: seq<subconf>, x: subconf, list: seq<nat>)
    requires x !in list && AllBelow(list, 0x1_0000)
    ensures NewOnes(s + [x], list) == NewOnes(s, list)
  {
    if list != [] {
      NewOnesGrow(s, x, list[1..]);
    }
  }

  lemma {:induction false} DelStopsLate(s: seq<subconf>, list: seq<nat>, areas: nat)
    requires Ascending(list) && Distinct(s)
    ensures DelList(s, list, areas) == WithoutAll(s, Areas(list, areas))
    decreases |list|
  {
    if list == [] {
      WithoutNone(s);
    } else if list[0] >= areas {
      NoAreas(list, areas);
      WithoutNone(s);
    } else {
      RemoveFirstMembers(s, list[0]);
      DelStopsLate(RemoveFirst(s, list[0]), list[1..], areas);
      assert Areas(list, areas) == [list[0]] + Areas(list[1..], areas);
      WithoutOneMore(s, list[0], Areas(list[1..], areas));
    }
  }

  lemma {:induction false} WithoutNone(s: seq<subconf>)
    ensures WithoutAll(s, []) == s
  {
    if s != [] { WithoutNone(s[1..]); }
  }

  lemma {:induction false} WithoutOneMore(s: seq<subconf>, x: nat, gone: seq<nat>)
    requires Distinct(s)
    ensures WithoutAll(RemoveFirst(s, x), gone) == WithoutAll(s, [x] + gone)
  {
    if s != [] {
      WithoutOneMore(s[1..], x, gone);
      if s[0] == x {
        assert RemoveFirst(s, x) == s[1..];
        WithoutAbsent(s[1..], x, gone);
      } else {
        assert s == [s[0]] + s[1..];
        RemoveFirstAfter(s[0], s[1..], x);
        assert ([s[0]] + RemoveFirst(s[1..], x))[1..] == RemoveFirst(s[1..], x);
      }
    }
  }

  lemma {:induction false} WithoutAbsent(s: seq<subconf>, x: nat, gone: seq<nat>)
    requires x !in s
    ensures WithoutAll(s, [x] + gone) == WithoutAll(s, gone)
  {
    if s != [] { WithoutAbsent(s[1..], x, gone); }
  }

  /** One round of `addsubconf`. */
  lemma AddListStep(s: seq<subconf>, list: seq<nat>, areas: nat)
    ensures list == [] || list[0] >= areas ==> AddList(s, list, areas) == s
    ensures list != [] && list[0] < areas ==>
      AddList(s, list, areas)
        == AddList(if FirstIndex(s, Wrap(list[0])) == -1 then s + [Wrap(list[0])] else s, list[1..], areas)
  {
    hide FirstIndex;
  }

  lemma AddOne(s: seq<subconf>, list: seq<nat>, areas: nat)
    requires list != [] && list[0] < areas <= 0x1_0000
    ensures AddList(s, list, areas) == AddList(if list[0] in s then s else s + [list[0]], list[1..], areas)
    ensures Areas(list, areas) == [list[0]] + Areas(list[1..], areas)
  {
  }

  /** The limit is checked once, before a whole list is added: a conference can be pushed past it, and leaving the
      editor then loses members. */
  lemma AddingPastTheLimit(s: seq<subconf>, list: seq<nat>, ns: nat)
    requires Distinct(s) && |s| < FULL && 0 < ns <= 0x1_0000 && Ascending(list)
    requires AllBelow(s, ns)
    ensures var t := AddMembers(s, list, ns);
      (forall x :: x in t ==> x in ReaddUpTo(t, ns, ns)) <==> |s| + |NewOnes(s, Areas(list, ns))| <= FULL
  {
    hide AddList, NewOnes, Areas, ReaddUpTo;
    var t := AddMembers(s, list, ns);
    var new_ := NewOnes(s, Areas(list, ns));
    AddStopsLate(s, list, ns);
    assert t == s + new_;
    AreasAscend(list, ns);
    NewOnesDistinct(s, Areas(list, ns));
    assert AllBelow(new_, ns) by { assert forall i :: 0 <= i < |new_| ==> new_[i] in new_; }
    assert Distinct(t) by { assert forall i :: 0 <= i < |new_| ==> new_[i] in new_; }
    ReaddKeepsAll(t, ns);
  }

  lemma {:induction false} AreasAscend(list: seq<nat>, areas: nat)
    requires Ascending(list)
    ensures Ascending(Areas(list, areas))
  {
    if list != [] {
      var rest := Areas(list[1..], areas);
      AreasAscend(list[1..], areas);
      forall i | 0 <= i < |rest|
        ensures list[0] < rest[i]
      {
        assert rest[i] in rest;
        var j :| 0 <= j < |list| - 1 && list[1..][j] == rest[i];
        assert list[j + 1] == rest[i];
      }
    }
  }

  lemma {:induction false} NewOnesDistinct(s: seq<subconf>, list: seq<nat>)
    requires Ascending(list) && AllBelow(list, 0x1_0000)
    ensures Distinct(NewOnes(s, list))
  {
    if list != [] {
      NewOnesDistinct(s, list[1..]);
      assert list[0] !in list[1..];
    }
  }

  /** A list that names a deleted area twice names the area in front of it afterwards. */
  lemma NamedTwiceMovesDown(s: seq<subconf>, n: subconf)
    requires n > 0 && n in RemoveFirst(s, n)
    ensures n - 1 in ShiftedDown(RemoveFirst(s, n), n)
  {
    hide FirstIndex, RemoveAt;
    var t := RemoveFirst(s, n);
    var i :| 0 <= i < |t| && t[i] == n;
    assert ShiftedDown(t, n)[i] == n - 1;
  }
}
