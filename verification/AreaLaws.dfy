/** Which areas the list of `setconf` holds, and in which order. */
module AreaLaws {
  import opened AreaList
  import opened MenuKeys
  import opened NumText

  /** Where `x` is first named. */
  function FirstAt(order: seq<nat>, x: nat): (r: nat)
    requires x in order
    ensures r < |order| && order[r] == x && x !in order[..r]
  {
    if order[0] == x then 0
    else
      var r := FirstAt(order[1..], x) + 1;
      assert forall i :: 0 < i < r ==> order[i] == order[1..][..r - 1][i - 1];
      r
  }

  lemma FirstAtIs(order: seq<nat>, x: nat, r: nat)
    requires r < |order| && order[r] == x && forall i :: 0 <= i < r ==> order[i] != x
    ensures x in order && FirstAt(order, x) == r
  {
    var f := FirstAt(order, x);
    assert forall i :: 0 <= i < f ==> order[i] == order[..f][i];
  }

  /** Areas in the order in which they were first named. */
  ghost predicate Ordered(order: seq<nat>, r: seq<nat>) {
    && (forall i :: 0 <= i < |r| ==> r[i] in order)
    && (forall i, j :: 0 <= i < j < |r| ==> FirstAt(order, r[i]) < FirstAt(order, r[j]))
  }

  lemma Earlier(order: seq<nat>, x: nat)
    requires order != [] && x in order[..|order| - 1]
    ensures FirstAt(order, x) == FirstAt(order[..|order| - 1], x) < |order| - 1
  {
    var front := order[..|order| - 1];
    var f := FirstAt(front, x);
    assert forall i :: 0 <= i < f ==> order[i] == front[..f][i] && order[i] != x;
    FirstAtIs(order, x, f);
  }

  lemma {:induction false} FirstSeenOrdered(order: seq<nat>, access: nat -> bool)
    ensures Ordered(order, FirstSeen(order, access))
  {
    if order != [] {
      var front, last := order[..|order| - 1], order[|order| - 1];
      FirstSeenOrdered(front, access);
      var r := FirstSeen(front, access);
      forall i | 0 <= i < |r|
        ensures r[i] in order && FirstAt(order, r[i]) == FirstAt(front, r[i]) < |order| - 1
      {
        assert r[i] in front;
        Earlier(order, r[i]);
      }
      if access(last) && last !in r {
        assert forall i :: 0 <= i < |front| ==> order[i] in front && order[i] != last;
        FirstAtIs(order, last, |order| - 1);
      }
    }
  }

  lemma {:induction false} WithKeyOrdered(order: seq<nat>, areas: seq<nat>, key: KeyOf, keyed: bool)
    requires Ordered(order, areas)
    ensures Ordered(order, WithKey(areas, key, keyed))
  {
    hide FirstAt;
    if areas != [] {
      assert Ordered(order, areas[1..]);
      WithKeyOrdered(order, areas[1..], key, keyed);
      var r := WithKey(areas[1..], key, keyed);
      forall i | 0 <= i < |r|
        ensures r[i] in order && FirstAt(order, areas[0]) < FirstAt(order, r[i])
      {
        assert r[i] in areas[1..];
        var j :| 0 <= j < |areas| - 1 && areas[1..][j] == r[i];
        assert areas[j + 1] == r[i];
      }
    }
  }

  /** One entry stands before another: those without a key first, and within each group as first named. */
  ghost predicate StandsBefore(order: seq<nat>, a: UserSub, b: UserSub) {
    && a.subnum >= 0 && b.subnum >= 0 && a.subnum in order && b.subnum in order
    && if a.keys == "" then b.keys == "" ==> FirstAt(order, a.subnum) < FirstAt(order, b.subnum)
       else b.keys != "" && FirstAt(order, a.subnum) < FirstAt(order, b.subnum)
  }

  /** The table holds exactly the areas of `order` the user has access to, no area twice, with their own keys;
      those without a key stand first, and each group is in the order in which its areas are first named. */
  lemma TableLists(order: seq<nat>, access: nat -> bool, key: KeyOf)
    ensures var t := Table(FirstSeen(order, access), key);
      forall x: nat :: IsNumber(t, x) <==> x in order && access(x)
    ensures var t := Table(FirstSeen(order, access), key);
      forall i :: 0 <= i < |t| ==> t[i].subnum >= 0 && t[i] == Entry(t[i].subnum, key)
    ensures var t := Table(FirstSeen(order, access), key);
      forall i, j :: 0 <= i < j < |t| ==> StandsBefore(order, t[i], t[j]) && t[i].subnum != t[j].subnum
  {
    hide FirstSeen, Table, WithKey, IsNumber, Ordered, StandsBefore;
    var areas := FirstSeen(order, access);
    var t := Table(areas, key);
    forall x: nat
      ensures IsNumber(t, x) <==> x in order && access(x)
    {
      TableHas(areas, key, x);
    }
    FirstSeenOrdered(order, access);
    WithKeyOrdered(order, areas, key, false);
    WithKeyOrdered(order, areas, key, true);
    forall i: nat | i < |t|
      ensures t[i].subnum >= 0 && t[i] == Entry(t[i].subnum, key)
    {
      TableEntry(areas, key, i);
    }
    forall i: nat, j: nat | i < j < |t|
      ensures StandsBefore(order, t[i], t[j]) && t[i].subnum != t[j].subnum
    {
      PairStands(order, areas, key, i, j);
    }
  }

  lemma PairStands(order: seq<nat>, areas: seq<nat>, key: KeyOf, i: nat, j: nat)
    requires i < j < |areas|
    requires Ordered(order, WithKey(areas, key, false)) && Ordered(order, WithKey(areas, key, true))
    ensures var t := Table(areas, key);
      StandsBefore(order, t[i], t[j]) && t[i].subnum != t[j].subnum
  {
    hide Table, FirstAt, WithKey, Ordered;
    TableEntry(areas, key, i);
    TableEntry(areas, key, j);
    var u, v := WithKey(areas, key, false), WithKey(areas, key, true);
    if j < |u| {
      OrderedPair(order, u, i, j);
    } else if i >= |u| {
      OrderedPair(order, v, i - |u|, j - |u|);
    } else {
      OrderedPair(order, u, i, i);
      OrderedPair(order, v, j - |u|, j - |u|);
    }
  }

  lemma OrderedPair(order: seq<nat>, r: seq<nat>, i: nat, j: nat)
    requires Ordered(order, r) && i <= j < |r|
    ensures r[i] in order && r[j] in order && (i < j ==> FirstAt(order, r[i]) < FirstAt(order, r[j]))
  {
  }

  /** Different numbers below 10000 are different keys. */
  lemma KeysDiffer(m: nat, n: nat)
    requires m < n < 10000
    ensures NumberKey(m) == Dec(m) && NumberKey(m) != NumberKey(n)
  {
    DecLength(m);
    DecLength(n);
    if Dec(m) == Dec(n) { DecInjective(m, n); }
  }

  /** What the user types for the number of an area is what the list has at that area, and at no other area,
      unless one has a digit as its own key. */
  lemma PickedByNumber(list: seq<UserSub>, dirs: bool, n: nat, i: nat, listing: bool, line: string, stale: string)
    requires i < n <= |list| < 10000 && FirstNumber(dirs, list) + i <= 999
    requires forall j :: n <= j < |list| ==> |list[j].keys| == 1 && !IsDigit(list[j].keys[0])
    ensures var first := FirstNumber(dirs, list);
      var done := Numbered(list, first, n);
      var two, one := HundredsFrom(first, first + n), TensFrom(first, first + n);
      var keys := KeysFor(two, one, NumberKey(first + i));
      && First(keys, 0, two, one, listing, line, stale) == Got(done[i].keys, |keys|)
      && forall j :: 0 <= j < |done| && j != i ==> done[j].keys != done[i].keys
  {
    hide First, HundredsFrom, TensFrom, NumberKey, KeysFor;
    var first := FirstNumber(dirs, list);
    NumberCanBeTyped(first, first + n, first + i, listing, line, stale);
    var done := Numbered(list, first, n);
    assert NumberKey(first + i) == Dec(first + i) by { KeysDiffer(first + i, first + i + 1); }
    forall j | 0 <= j < |done| && j != i
      ensures done[j].keys != done[i].keys
    {
      if j < i {
        KeysDiffer(first + j, first + i);
      } else if j < n {
        KeysDiffer(first + i, first + j);
      }
    }
  }
}
