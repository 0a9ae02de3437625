/** The list of areas a user can reach and the keys that pick them (`addusub` and `setconf`, `bbs/confutil.cpp`). */
module AreaList {
  import opened Seqs
  import opened NumText

  /** One entry of `usub` or `udir`. No key yet is the empty string; an unused entry has number -1. */
  datatype UserSub = UserSub(keys: string, subnum: int)

  const BLANK := UserSub("", -1)

  /** Each of the source's lists of first digits has room for 80 of them. */
  const MAX_AREAS: nat := 8099

  /** An area's own key, if it has one. */
  type KeyOf = nat -> Option<char>

  // ----- what is to be listed -----

  predicate IsNumber(list: seq<UserSub>, n: int) {
    exists i :: 0 <= i < |list| && list[i].subnum == n
  }

  /** The areas of `order` the user may use, each once, in the order first seen. */
  function FirstSeen(order: seq<nat>, access: nat -> bool): (r: seq<nat>)
    ensures Distinct(r)
    ensures forall x :: x in r <==> x in order && access(x)
  {
    if order == [] then []
    else
      var last := order[|order| - 1];
      var r := FirstSeen(order[..|order| - 1], access);
      assert forall x :: x in order <==> x == last || x in order[..|order| - 1];
      if access(last) && last !in r then r + [last] else r
  }

  /** The areas without a key of their own, or those with one. */
  function WithKey(areas: seq<nat>, key: KeyOf, keyed: bool): (r: seq<nat>)
    ensures forall x :: x in r <==> x in areas && key(x).Some? == keyed
  {
    if areas == [] then []
    else if key(areas[0]).Some? == keyed then [areas[0]] + WithKey(areas[1..], key, keyed)
    else WithKey(areas[1..], key, keyed)
  }

  function Entry(x: nat, key: KeyOf): UserSub {
    UserSub(match key(x) case None => "" case Some(k) => [k], x)
  }

  function Entries(areas: seq<nat>, key: KeyOf): (r: seq<UserSub>)
    ensures |r| == |areas| && forall i :: 0 <= i < |r| ==> r[i] == Entry(areas[i], key)
  {
    if areas == [] then [] else [Entry(areas[0], key)] + Entries(areas[1..], key)
  }

  /** First the areas without a key, then those with one. */
  function Table(areas: seq<nat>, key: KeyOf): (r: seq<UserSub>)
    ensures |r| == |areas|
  {
    WithKeyLengths(areas, key);
    Entries(WithKey(areas, key, false) + WithKey(areas, key, true), key)
  }

  lemma {:induction false} WithKeyLengths(areas: seq<nat>, key: KeyOf)
    ensures |WithKey(areas, key, false)| + |WithKey(areas, key, true)| == |areas|
  {
    if areas != [] { WithKeyLengths(areas[1..], key); }
  }

  // ----- addusub -----

  /** One past the last entry without a key. */
  function LastUnkeyed(list: seq<UserSub>): (n: nat)
    ensures n <= |list|
    ensures n > 0 ==> list[n - 1].keys == ""
    ensures forall i :: n <= i < |list| ==> list[i].keys != ""
  {
    if list == [] then 0 else if list[|list| - 1].keys == "" then |list| else LastUnkeyed(list[..|list| - 1])
  }

  /** `list` fills the first entries of the array, the other entries up to `ns` are unused. */
  ghost predicate Holds(ss1: array<UserSub>, ns: nat, list: seq<UserSub>)
    reads ss1
  {
    && |list| <= ns <= ss1.Length
    && (forall i :: 0 <= i < |list| ==> ss1[i] == list[i] && list[i].subnum >= 0)
    && (forall i :: |list| <= i < ns ==> ss1[i] == BLANK)
  }

  /** The list after `addusub`. */
  function Added(list: seq<UserSub>, ns: nat, sub: nat, key: Option<char>): seq<UserSub> {
    if IsNumber(list, sub) || |list| == ns then list
    else match key
      case Some(k) => list + [UserSub([k], sub)]
      case None => InsertAt(list, LastUnkeyed(list), UserSub("", sub))
  }

  /** `addusub`. */
  method AddUsub(ss1: array<UserSub>, ns: nat, sub: nat, key: Option<char>, ghost list: seq<UserSub>)
    requires Holds(ss1, ns, list)
    modifies ss1
    ensures |list| <= ns && Holds(ss1, ns, Added(list, ns, sub, key))
  {
    hide Added, LastUnkeyed, InsertAt;
    var lastNum, last := 0, 0;
    while last < ns && ss1[last].subnum != -1
      invariant 0 <= last <= |list|
      invariant forall i :: 0 <= i < last ==> list[i].subnum != sub
      invariant lastNum <= last && (lastNum > 0 ==> list[lastNum - 1].keys == "")
      invariant forall i :: lastNum <= i < last ==> list[i].keys != ""
    {
      if ss1[last].subnum == sub {
        AddedCases(list, ns, sub, key, 0);
        return;
      }
      if ss1[last].keys == "" {
        lastNum := last + 1;
      }
      last := last + 1;
    }
    assert last == |list|;
    AddedCases(list, ns, sub, key, lastNum);
    if last == ns {
      return;
    }
    match key
    case Some(k) =>
      ss1[last] := UserSub([k], sub);
    case None =>
      ShiftIn(ss1, ns, sub, last, lastNum, list);
      assert forall k :: 0 <= k <= last ==> ss1[k] == Added(list, ns, sub, key)[k];
  }

  /** The end of `addusub` for an area without a key. */
  method ShiftIn(ss1: array<UserSub>, ns: nat, sub: nat, last: nat, lastNum: nat, ghost list: seq<UserSub>)
    requires lastNum <= last == |list| < ns <= ss1.Length
    requires forall k :: 0 <= k < last ==> ss1[k] == list[k]
    modifies ss1
    ensures forall k :: 0 <= k < lastNum ==> ss1[k] == list[k]
    ensures ss1[lastNum] == UserSub("", sub)
    ensures forall k :: lastNum < k <= last ==> ss1[k] == list[k - 1]
    ensures forall k :: last < k < ss1.Length ==> ss1[k] == old(ss1[k])
  {
    var i := last;
    while i > lastNum
      invariant lastNum <= i <= last
      invariant forall k :: 0 <= k < i ==> ss1[k] == list[k]
      invariant forall k :: i < k <= last ==> ss1[k] == list[k - 1]
      invariant forall k :: last < k < ss1.Length ==> ss1[k] == old(ss1[k])
    {
      ss1[i] := ss1[i - 1];
      i := i - 1;
    }
    ss1[lastNum] := UserSub("", sub);
  }

  /** The list after `addusub`, entry by entry. */
  lemma AddedCases(list: seq<UserSub>, ns: nat, sub: nat, key: Option<char>, lastNum: nat)
    requires |list| <= ns
    ensures IsNumber(list, sub) || |list| == ns ==> Added(list, ns, sub, key) == list
    ensures !IsNumber(list, sub) && |list| < ns && key.Some? ==>
      Added(list, ns, sub, key) == list + [UserSub([key.value], sub)]
    ensures !IsNumber(list, sub) && |list| < ns && key.None? && IsLast(list, lastNum) ==>
      Spread(Added(list, ns, sub, key), list, lastNum, UserSub("", sub))
  {
    hide LastUnkeyed, InsertAt, IsLast;
    if IsLast(list, lastNum) {
      LastIs(list, lastNum);
      if |list| < ns { InsertSpreads(list, lastNum, UserSub("", sub)); }
    }
  }

  lemma LastIs(list: seq<UserSub>, n: nat)
    requires IsLast(list, n)
    ensures LastUnkeyed(list) == n <= |list|
  {
    hide LastUnkeyed;
    var m := LastUnkeyed(list);
    assert m > 0 ==> m - 1 < n;
    assert n > 0 ==> n - 1 < m;
  }

  lemma InsertSpreads(list: seq<UserSub>, n: nat, x: UserSub)
    requires n <= |list|
    ensures Spread(InsertAt(list, n, x), list, n, x)
  {
  }

  /** Entry `n - 1` is the last one without a key. */
  ghost predicate IsLast(list: seq<UserSub>, n: nat) {
    n <= |list| && (n > 0 ==> list[n - 1].keys == "") && forall i :: n <= i < |list| ==> list[i].keys != ""
  }

  /** `r` is `list` with `x` put in at `n`. */
  ghost predicate Spread(r: seq<UserSub>, list: seq<UserSub>, n: nat, x: UserSub) {
    && n <= |list| && |r| == |list| + 1 && r[n] == x
    && (forall i :: 0 <= i < n ==> r[i] == list[i])
    && (forall i :: n < i < |r| ==> r[i] == list[i - 1])
  }

  // ----- the list that setconf builds -----

  /** Entry `i` of the table, and when it is one without a key. */
  lemma TableEntry(areas: seq<nat>, key: KeyOf, i: nat)
    requires i < |areas|
    ensures Split(areas, key)
    ensures var u, v := WithKey(areas, key, false), WithKey(areas, key, true);
      Table(areas, key)[i] == Entry(if i < |u| then u[i] else v[i - |u|], key)
    ensures Table(areas, key)[i].keys == "" <==> i < |WithKey(areas, key, false)|
  {
    hide WithKey, Entries;
    WithKeyLengths(areas, key);
    var u, v := WithKey(areas, key, false), WithKey(areas, key, true);
    assert (u + v)[i] == if i < |u| then u[i] else v[i - |u|];
    assert i < |u| ==> u[i] in u;
    assert i >= |u| ==> v[i - |u|] in v;
  }

  ghost predicate Split(areas: seq<nat>, key: KeyOf) {
    |WithKey(areas, key, false)| + |WithKey(areas, key, true)| == |areas|
  }

  /** The entries without a key come first. */
  lemma TableIsSplit(areas: seq<nat>, key: KeyOf)
    ensures IsLast(Table(areas, key), |WithKey(areas, key, false)|)
  {
    hide WithKey, Table;
    WithKeyLengths(areas, key);
    forall i: nat | i < |areas|
      ensures Table(areas, key)[i].keys == "" <==> i < |WithKey(areas, key, false)|
    {
      TableEntry(areas, key, i);
    }
  }

  lemma WithKeyHead(areas: seq<nat>, key: KeyOf, keyed: bool)
    requires areas != []
    ensures WithKey(areas, key, keyed)
         == if key(areas[0]).Some? == keyed then [areas[0]] + WithKey(areas[1..], key, keyed)
            else WithKey(areas[1..], key, keyed)
  {
  }

  lemma WithKeyOne(x: nat, key: KeyOf, keyed: bool)
    ensures WithKey([], key, keyed) == []
    ensures WithKey([x], key, keyed) == if key(x).Some? == keyed then [x] else []
  {
    assert [x][1..] == [];
  }

  lemma {:induction false} WithKeySnoc(areas: seq<nat>, x: nat, key: KeyOf, keyed: bool)
    ensures WithKey(areas + [x], key, keyed)
         == if key(x).Some? == keyed then WithKey(areas, key, keyed) + [x] else WithKey(areas, key, keyed)
  {
    hide WithKey;
    if areas == [] {
      NothingBefore(areas, [x]);
      WithKeyOne(x, key, keyed);
      NothingBefore(WithKey(areas, key, keyed), [x]);
    } else {
      Behead(areas, [x]);
      WithKeySnoc(areas[1..], x, key, keyed);
      WithKeyHead(areas, key, keyed);
      WithKeyHead(areas + [x], key, keyed);
      Associates([areas[0]], WithKey(areas[1..], key, keyed), [x]);
    }
  }

  lemma TableHas(areas: seq<nat>, key: KeyOf, n: nat)
    ensures IsNumber(Table(areas, key), n) <==> n in areas
  {
    var both := WithKey(areas, key, false) + WithKey(areas, key, true);
    if n in areas {
      assert n in both;
      var i :| 0 <= i < |both| && both[i] == n;
      assert Table(areas, key)[i].subnum == n;
    }
    if IsNumber(Table(areas, key), n) {
      var i :| 0 <= i < |both| && Table(areas, key)[i].subnum == n;
      assert both[i] in both;
    }
  }

  /** Distinct numbers below `ns` that leave one out are fewer than `ns`: the table is not full when a new area
      comes. */
  lemma {:induction false} NeverFull(areas: seq<nat>, ns: nat, x: nat)
    requires Distinct(areas) && x < ns && x !in areas && forall i :: 0 <= i < |areas| ==> areas[i] < ns
    ensures |areas| < ns
    decreases ns
  {
    if areas != [] {
      var n := |areas| - 1;
      var y := areas[n];
      assert y != x && y in areas;
      // renumber without y
      var rest := seq(n, i requires 0 <= i < n => if areas[i] > y then areas[i] - 1 else areas[i]);
      assert forall i :: 0 <= i < n ==> areas[i] != y && areas[i] in areas && areas[i] != x;
      NeverFull(rest, ns - 1, if x > y then x - 1 else x);
    }
  }

  /** Where the new area lands. */
  lemma NewTable(areas: seq<nat>, key: KeyOf, x: nat)
    ensures key(x).None? ==>
      Spread(Table(areas + [x], key), Table(areas, key), |WithKey(areas, key, false)|, Entry(x, key))
    ensures key(x).Some? ==> Table(areas + [x], key) == Table(areas, key) + [Entry(x, key)]
  {
    hide WithKey, Table;
    WithKeySnoc(areas, x, key, false);
    WithKeySnoc(areas, x, key, true);
    WithKeyLengths(areas, key);
    var u := |WithKey(areas, key, false)|;
    var t, t' := Table(areas, key), Table(areas + [x], key);
    if key(x).None? {
      NewEntryAt(areas, key, x, u);
      forall i: nat | i < u
        ensures t'[i] == t[i]
      {
        NewEntryAt(areas, key, x, i);
      }
      forall i: nat | u < i <= |areas|
        ensures t'[i] == t[i - 1]
      {
        NewEntryAt(areas, key, x, i);
      }
    } else {
      NewEntryAt(areas, key, x, |areas|);
      forall i: nat | i < |areas|
        ensures t'[i] == t[i]
      {
        NewEntryAt(areas, key, x, i);
      }
    }
  }

  /** The entry at `i` after an area is added at the end of its group. */
  lemma NewEntryAt(areas: seq<nat>, key: KeyOf, x: nat, i: nat)
    requires i <= |areas|
    ensures var at := if key(x).None? then |WithKey(areas, key, false)| else |areas|;
      Table(areas + [x], key)[i]
        == if i < at then Table(areas, key)[i] else if i == at then Entry(x, key) else Table(areas, key)[i - 1]
  {
    hide WithKey, Table, Entry;
    WithKeySnoc(areas, x, key, false);
    WithKeySnoc(areas, x, key, true);
    WithKeyLengths(areas, key);
    TableEntry(areas + [x], key, i);
    if i < |areas| { TableEntry(areas, key, i); }
    if i > 0 { TableEntry(areas, key, i - 1); }
  }

  /** Adding an area to the table of some areas gives the table of those areas and the new one. */
  lemma AddedToTable(areas: seq<nat>, key: KeyOf, ns: nat, x: nat)
    requires Distinct(areas) && x < ns && forall i :: 0 <= i < |areas| ==> areas[i] < ns
    ensures |areas| <= ns
    ensures Added(Table(areas, key), ns, x, key(x))
         == Table(if x in areas then areas else areas + [x], key)
  {
    hide IsNumber, Table, WithKey, Added, IsLast;
    TableHas(areas, key, x);
    AtMost(areas, ns);
    TableIsSplit(areas, key);
    AddedCases(Table(areas, key), ns, x, key(x), |WithKey(areas, key, false)|);
    if x !in areas {
      NeverFull(areas, ns, x);
      NewTable(areas, key, x);
    }
  }

  /** Distinct numbers below `ns` are at most `ns`. */
  lemma AtMost(areas: seq<nat>, ns: nat)
    requires Distinct(areas) && forall i :: 0 <= i < |areas| ==> areas[i] < ns
    ensures |areas| <= ns
  {
    if areas != [] {
      var front := areas[..|areas| - 1];
      assert forall i :: 0 <= i < |front| ==> front[i] == areas[i];
      NeverFull(front, ns, areas[|areas| - 1]);
    }
  }

  // ----- numbering -----

  /** `"%d"` into the five characters of a key. */
  function NumberKey(n: nat): string { if |Dec(n)| > 4 then Dec(n)[..4] else Dec(n) }

  /** The first `n` entries without a key get consecutive numbers. */
  function Numbered(list: seq<UserSub>, first: nat, n: nat): (r: seq<UserSub>)
    requires n <= |list|
    ensures |r| == |list|
  {
    seq(|list|, i requires 0 <= i < |list| => if i < n then list[i].(keys := NumberKey(first + i)) else list[i])
  }

  /** A character code that holds eight bits. */
  function Char8(n: nat): char { (n % 256) as char }

  /** `dc`: a slash, and the first digit of every round two-digit number in use below `n`. */
  function TensFrom(first: nat, n: nat): string {
    if n <= first then "/"
    else if n - 1 < 100 && (n - 1) % 10 == 0 && n - 1 != 0 then
      TensFrom(first, n - 1) + [Char8('0' as int + (n - 1) / 10)]
    else TensFrom(first, n - 1)
  }

  /** `tc`: the first digit of every round three-digit number in use below `n`. */
  function HundredsFrom(first: nat, n: nat): string {
    if n <= first then ""
    else if n - 1 >= 100 && (n - 1) % 100 == 0 then HundredsFrom(first, n - 1) + [Char8('0' as int + (n - 1) / 100)]
    else HundredsFrom(first, n - 1)
  }

  /** Numbers start at 0 only when the first file area is area 0. */
  function FirstNumber(dirs: bool, list: seq<UserSub>): nat {
    if dirs && list != [] && list[0].subnum == 0 then 0 else 1
  }

  /** Where area `osub` stands in the list, or 0. */
  function PositionOf(list: seq<UserSub>, osub: int): (p: nat)
    ensures IsNumber(list, osub) ==> p < |list| && list[p].subnum == osub
    ensures IsNumber(list, osub) ==> forall i :: 0 <= i < p ==> list[i].subnum != osub
    ensures !IsNumber(list, osub) ==> p == 0
  {
    if IsNumber(list, osub) then
      if list[0].subnum == osub then 0
      else
        var rest := list[1..];
        assert IsNumber(rest, osub) by {
          var i :| 0 <= i < |list| && list[i].subnum == osub;
          assert rest[i - 1].subnum == osub;
        }
        PositionOf(rest, osub) + 1
    else 0
  }

  /** What one more number adds to the two lists of first digits. */
  lemma NextDigits(first: nat, n: nat)
    requires first <= n
    ensures TensFrom(first, n + 1)
         == if n < 100 && n % 10 == 0 && n != 0 then TensFrom(first, n) + [Char8('0' as int + n / 10)]
            else TensFrom(first, n)
    ensures HundredsFrom(first, n + 1)
         == if n >= 100 && n % 100 == 0 then HundredsFrom(first, n) + [Char8('0' as int + n / 100)]
            else HundredsFrom(first, n)
  {
  }

  /** `c` is the digit, or for large numbers the character code, of a `k` between 1 and `top` such that `k` times `step`
      is a number from `first` up that is below `n`. */
  ghost predicate Leads(first: nat, n: nat, step: nat, top: nat, c: char) {
    exists k: nat :: 1 <= k <= top && first <= step * k < n && c as int == 48 + k
  }

  lemma NoneLead(first: nat, n: nat, step: nat, top: nat, c: char)
    requires n <= first
    ensures !Leads(first, n, step, top, c)
  {
  }

  lemma OneMoreLeads(first: nat, n: nat, step: nat, top: nat, c: char, k: nat)
    requires first < n && (step == 10 || step == 100) && (n - 1) % step == 0 && k == (n - 1) / step
    ensures Leads(first, n, step, top, c)
       <==> Leads(first, n - 1, step, top, c) || (1 <= k <= top && c as int == 48 + k)
  {
    assert n - 1 == step * k;
    if j: nat :| 1 <= j <= top && first <= step * j < n && c as int == 48 + j {
      assert step * j == n - 1 ==> j == k by { if step == 10 { } }
    }
  }

  lemma NoMoreLead(first: nat, n: nat, step: nat, top: nat, c: char)
    requires first < n && (step == 10 || step == 100) && (n - 1) % step != 0
    ensures Leads(first, n, step, top, c) <==> Leads(first, n - 1, step, top, c)
  {
    if j: nat :| 1 <= j <= top && first <= step * j < n && c as int == 48 + j {
      assert step * j != n - 1 by { if step == 10 { } }
    }
  }

  /** The first list holds the slash and the first digits of the round two-digit numbers in use, and no others. */
  lemma {:induction false} TensAre(first: nat, n: nat, c: char)
    ensures c in TensFrom(first, n) <==> c == '/' || Leads(first, n, 10, 9, c)
  {
    hide Leads, TensFrom, Char8;
    if n <= first {
      NoneLead(first, n, 10, 9, c);
      assert TensFrom(first, n) == "/" by { NoTens(first, n); }
    } else {
      TensAre(first, n - 1, c);
      NextDigits(first, n - 1);
      if (n - 1) % 10 == 0 {
        var k := (n - 1) / 10;
        OneMoreLeads(first, n, 10, 9, c, k);
        if 1 <= k <= 9 { DigitCode(k); }
      } else {
        NoMoreLead(first, n, 10, 9, c);
      }
    }
  }

  lemma NoTens(first: nat, n: nat)
    requires n <= first
    ensures TensFrom(first, n) == "/" && HundredsFrom(first, n) == ""
  {
  }

  lemma DigitCode(k: nat)
    requires k <= 80
    ensures Char8('0' as int + k) as int == 48 + k
  {
  }

  /** The second list likewise for three digits; it goes on with the characters behind the digits. */
  lemma {:induction false} HundredsAre(first: nat, n: nat, c: char)
    requires n <= MAX_AREAS + 1
    ensures c in HundredsFrom(first, n) <==> Leads(first, n, 100, 80, c)
  {
    hide Leads, HundredsFrom, Char8;
    if n <= first {
      NoneLead(first, n, 100, 80, c);
      NoTens(first, n);
    } else {
      HundredsAre(first, n - 1, c);
      NextDigits(first, n - 1);
      if (n - 1) % 100 == 0 {
        var k := (n - 1) / 100;
        OneMoreLeads(first, n, 100, 80, c, k);
        if 1 <= k { DigitCode(k); }
      } else {
        NoMoreLead(first, n, 100, 80, c);
      }
    }
  }

  /** The numbering loop of `setconf`. The two lists of digits must fit in their 81 characters. */
  method NumberAreas(ss1: array<UserSub>, ns: nat, dirs: bool, ghost list: seq<UserSub>)
    returns (xdc: string, xtc: string, ghost n: nat)
    requires Holds(ss1, ns, list) && ss1.Length > 0
    modifies ss1
    ensures n <= |list| && (forall i :: 0 <= i < n ==> list[i].keys == "") && (n < |list| ==> list[n].keys != "")
    ensures Holds(ss1, ns, Numbered(list, FirstNumber(dirs, list), n))
    ensures xdc == TensFrom(FirstNumber(dirs, list), FirstNumber(dirs, list) + n)
    ensures xtc == HundredsFrom(FirstNumber(dirs, list), FirstNumber(dirs, list) + n)
  {
    hide NumberKey, TensFrom, HundredsFrom, Char8, Numbered;
    xdc, xtc := "/", "";
    var i1 := if dirs && ss1[0].subnum == 0 then 0 else 1;
    ghost var first := i1;
    NoDigits(first);
    NoDigits(FirstNumber(dirs, list));
    assert ns > 0 ==> first == FirstNumber(dirs, list);
    var i := 0;
    while i < ns && ss1[i].keys == "" && ss1[i].subnum != -1
      invariant 0 <= i <= |list| && i1 == first + i
      invariant forall k :: 0 <= k < i ==> list[k].keys == "" && ss1[k] == list[k].(keys := NumberKey(first + k))
      invariant forall k :: i <= k < |list| ==> ss1[k] == list[k]
      invariant forall k :: |list| <= k < ns ==> ss1[k] == BLANK
      invariant xdc == TensFrom(first, i1) && xtc == HundredsFrom(first, i1)
    {
      NextDigits(first, i1);
      if i1 < 100 {
        if i1 % 10 == 0 && i1 != 0 {
          xdc := xdc + [Char8('0' as int + i1 / 10)];
        }
      } else {
        if i1 % 100 == 0 {
          xtc := xtc + [Char8('0' as int + i1 / 100)];
        }
      }
      ss1[i] := ss1[i].(keys := NumberKey(i1));
      i1 := i1 + 1;
      i := i + 1;
    }
    n := i;
    NumberedHolds(ss1, ns, list, first, n);
  }

  lemma NumberedHolds(ss1: array<UserSub>, ns: nat, list: seq<UserSub>, first: nat, n: nat)
    requires n <= |list| <= ns <= ss1.Length
    requires forall k :: 0 <= k < |list| ==> list[k].subnum >= 0
    requires forall k :: 0 <= k < n ==> ss1[k] == list[k].(keys := NumberKey(first + k))
    requires forall k :: n <= k < |list| ==> ss1[k] == list[k]
    requires forall k :: |list| <= k < ns ==> ss1[k] == BLANK
    ensures Holds(ss1, ns, Numbered(list, first, n))
  {
    hide NumberKey;
  }

  lemma NoDigits(first: nat)
    ensures TensFrom(first, first) == "/" && HundredsFrom(first, first) == ""
  {
  }

  /** What `setconf` goes through: one conference, or every conference the user may enter, one after the other. */
  function Order(confs: seq<seq<nat>>, accessConf: nat -> bool): (r: seq<nat>)
    ensures forall x :: x in r <==> exists c :: 0 <= c < |confs| && accessConf(c) && x in confs[c]
  {
    if confs == [] then []
    else
      var last := |confs| - 1;
      var r := Order(confs[..last], accessConf);
      if accessConf(last) then r + confs[last] else r
  }

  function Walk(confs: seq<seq<nat>>, which: int, accessConf: nat -> bool): seq<nat>
    requires which < |confs|
  {
    if which >= 0 then confs[which] else Order(confs, accessConf)
  }

  /** Only message areas have keys of their own. */
  function AreaKey(dirs: bool, key: KeyOf): KeyOf {
    (x: nat) => if dirs then None else key(x)
  }

  /** The loop over one conference's areas, after those in `seen`. */
  method AddAll(ss1: array<UserSub>, ns: nat, subs: seq<nat>, access: nat -> bool, key: KeyOf, ghost seen: seq<nat>)
    requires Holds(ss1, ns, Table(FirstSeen(seen, access), key))
    requires forall i :: 0 <= i < |seen| ==> seen[i] < ns
    requires forall i :: 0 <= i < |subs| ==> subs[i] < ns
    modifies ss1
    ensures Holds(ss1, ns, Table(FirstSeen(seen + subs, access), key))
  {
    hide Table, FirstSeen, Added, Holds;
    var i := 0;
    assert seen + subs[..0] == seen;
    while i < |subs|
      invariant 0 <= i <= |subs|
      invariant Holds(ss1, ns, Table(FirstSeen(seen + subs[..i], access), key))
    {
      SeeOne(seen + subs[..i], subs[i], access, key, ns);
      assert seen + subs[..i + 1] == (seen + subs[..i]) + [subs[i]];
      if access(subs[i]) {
        AddUsub(ss1, ns, subs[i], key(subs[i]), Table(FirstSeen(seen + subs[..i], access), key));
      }
      i := i + 1;
    }
    assert subs[..i] == subs;
  }

  /** `setconf`: the array is cleared, filled and numbered, and the area that was current is found again.
      `which` is -1 for all conferences. Nothing happens when it is out of range or barred to the user. */
  method SetConf(ss1: array<UserSub>, ns: nat, confs: seq<seq<nat>>, which: int, accessConf: nat -> bool,
                 access: nat -> bool, key: KeyOf, dirs: bool, oldSub: int, wasAt: nat)
    returns (ok: bool, xdc: string, xtc: string, current: nat, ghost n: nat)
    requires wasAt < ss1.Length && ns <= ss1.Length
    requires forall c, i :: 0 <= c < |confs| && 0 <= i < |confs[c]| ==> confs[c][i] < ns
    modifies ss1
    ensures ok <==> which == -1 || (0 <= which < |confs| && accessConf(which))
    ensures !ok ==> ss1[..] == old(ss1[..])
    ensures ok ==> Listed(ss1, ns, Walk(confs, which, accessConf), access, AreaKey(dirs, key), dirs, n, xdc, xtc)
    ensures ok ==> var count := |FirstSeen(Walk(confs, which, accessConf), access)|;
      ReachShown(ss1, count, confs, which, accessConf, access) && KeysShown(ss1, count, dirs, key)
    ensures ok ==> var all := FirstSeen(Walk(confs, which, accessConf), access);
                   var osub := if oldSub == -1 then old(ss1[wasAt].subnum) else oldSub;
                   current == PositionOf(Table(all, AreaKey(dirs, key)), osub)
  {
    hide *;
    xdc, xtc, current, n := "", "", 0, 0;
    if which != -1 && (which < 0 || which >= |confs| || !accessConf(which)) {
      return false, xdc, xtc, current, n;
    }
    ok := true;
    var osub := if oldSub == -1 then ss1[wasAt].subnum else oldSub;
    Clear(ss1, ns, access, AreaKey(dirs, key));
    if which >= 0 {
      assert [] + confs[which] == confs[which];
      WalkOne(confs, which, accessConf);
      AddAll(ss1, ns, confs[which], access, AreaKey(dirs, key), []);
    } else {
      WalkOne(confs, which, accessConf);
      AddConfs(ss1, ns, confs, accessConf, access, AreaKey(dirs, key));
    }
    xdc, xtc, current, n := NumberAndFind(ss1, ns, dirs, osub,
                                             Walk(confs, which, accessConf), access, AreaKey(dirs, key));
    ListedKeys(ss1, ns, Walk(confs, which, accessConf), access, key, dirs, n, xdc, xtc);
    ListedReach(ss1, ns, confs, which, accessConf, access, AreaKey(dirs, key), dirs, n, xdc, xtc);
  }

  /** A key of at most four characters. */
  function FourOf(s: string): string { if |s| <= 4 then s else s[..4] }

  /** The keys of the `count` areas listed. A message area with a key of its own has that key. The other message areas
      have the numbers from 1 up in the order of the list, and so do all file areas, but from 0 up if the first one is
      area 0. */
  ghost predicate KeysShown(ss1: array<UserSub>, count: nat, dirs: bool, key: KeyOf)
    reads ss1
  {
    && count <= ss1.Length
    && (forall i :: 0 <= i < count ==> ss1[i].subnum >= 0)
    && (forall i :: 0 <= i < count && !dirs && key(ss1[i].subnum).Some? ==> ss1[i].keys == [key(ss1[i].subnum).value])
    && (forall i :: 0 <= i < count && !dirs && key(ss1[i].subnum).None? ==> ss1[i].keys == FourOf(Dec(i + 1)))
    && (forall i :: 0 <= i < count && dirs ==>
          ss1[i].keys == FourOf(Dec(if ss1[0].subnum == 0 then i else i + 1)))
  }

  /** Each entry of the array by the area it names. */
  lemma ListedEntry(ss1: array<UserSub>, ns: nat, order: seq<nat>, access: nat -> bool, key: KeyOf, dirs: bool,
                    n: nat, xdc: string, xtc: string, i: nat)
    requires Listed(ss1, ns, order, access, key, dirs, n, xdc, xtc) && i < |FirstSeen(order, access)|
    ensures n <= |FirstSeen(order, access)| <= ns <= ss1.Length && ss1[i].subnum >= 0
    ensures i < n <==> key(ss1[i].subnum).None?
    ensures ss1[i].keys == match key(ss1[i].subnum)
      case Some(k) => [k]
      case None => NumberKey(i + FirstNumber(dirs, Table(FirstSeen(order, access), key)))
  {
    hide WithKey, FirstSeen, Table, NumberKey, FirstNumber, TensFrom, HundredsFrom;
    var areas := FirstSeen(order, access);
    var list := Table(areas, key);
    TableEntry(areas, key, i);
    var u, v := WithKey(areas, key, false), WithKey(areas, key, true);
    var x := if i < |u| then u[i] else v[i - |u|];
    assert list[i] == Entry(x, key);
    assert i < |u| ==> u[i] in u;
    assert i >= |u| ==> v[i - |u|] in v;
    assert ss1[i] == Numbered(list, FirstNumber(dirs, list), n)[i];
  }

  lemma ListedKeys(ss1: array<UserSub>, ns: nat, order: seq<nat>, access: nat -> bool, key: KeyOf, dirs: bool,
                   n: nat, xdc: string, xtc: string)
    requires ns <= ss1.Length && Listed(ss1, ns, order, access, AreaKey(dirs, key), dirs, n, xdc, xtc)
    ensures KeysShown(ss1, |FirstSeen(order, access)|, dirs, key)
  {
    hide WithKey, FirstSeen, Table, TensFrom, HundredsFrom, Listed, Holds, Dec;
    var areas := FirstSeen(order, access);
    var list := Table(areas, AreaKey(dirs, key));
    FirstArea(ss1, ns, order, access, AreaKey(dirs, key), dirs, n, xdc, xtc);
    forall i: nat | i < |areas|
      ensures ss1[i].subnum >= 0
      ensures !dirs && key(ss1[i].subnum).Some? ==> ss1[i].keys == [key(ss1[i].subnum).value]
      ensures !dirs && key(ss1[i].subnum).None? ==> ss1[i].keys == FourOf(Dec(i + 1))
      ensures dirs ==> ss1[i].keys == FourOf(Dec(if ss1[0].subnum == 0 then i else i + 1))
    {
      ListedEntry(ss1, ns, order, access, AreaKey(dirs, key), dirs, n, xdc, xtc, i);
    }
  }

  lemma FirstArea(ss1: array<UserSub>, ns: nat, order: seq<nat>, access: nat -> bool, key: KeyOf, dirs: bool,
                  n: nat, xdc: string, xtc: string)
    requires Listed(ss1, ns, order, access, key, dirs, n, xdc, xtc)
    ensures var list := Table(FirstSeen(order, access), key);
      |list| == |FirstSeen(order, access)| <= ns <= ss1.Length && (list != [] ==> list[0].subnum == ss1[0].subnum)
  {
    hide WithKey, FirstSeen, Table, NumberKey, TensFrom, HundredsFrom;
    var list := Table(FirstSeen(order, access), key);
    if list != [] {
      assert ss1[0] == Numbered(list, FirstNumber(dirs, list), n)[0];
    }
  }

  /** Area `x` is in the conference asked for, or in one that the user may enter if none is. */
  predicate InReach(confs: seq<seq<nat>>, which: int, accessConf: nat -> bool, x: nat) {
    exists c :: 0 <= c < |confs| && x in confs[c] && if which >= 0 then c == which else accessConf(c)
  }

  /** The first `count` entries name exactly the areas in reach that the user has access to. */
  ghost predicate ReachShown(ss1: array<UserSub>, count: nat, confs: seq<seq<nat>>, which: int,
                             accessConf: nat -> bool, access: nat -> bool)
    reads ss1
  {
    && count <= ss1.Length
    && forall x: nat :: IsNumber(ss1[..count], x) <==> access(x) && InReach(confs, which, accessConf, x)
  }

  lemma ListedReach(ss1: array<UserSub>, ns: nat, confs: seq<seq<nat>>, which: int, accessConf: nat -> bool,
                    access: nat -> bool, key: KeyOf, dirs: bool, n: nat, xdc: string, xtc: string)
    requires which < |confs| && ns <= ss1.Length
    requires Listed(ss1, ns, Walk(confs, which, accessConf), access, key, dirs, n, xdc, xtc)
    ensures ReachShown(ss1, |FirstSeen(Walk(confs, which, accessConf), access)|, confs, which, accessConf, access)
  {
    hide WithKey, FirstSeen, Table, TensFrom, HundredsFrom, NumberKey, IsNumber, Order;
    var areas := FirstSeen(Walk(confs, which, accessConf), access);
    var list := Table(areas, key);
    var shown := ss1[..|areas|];
    assert forall i :: 0 <= i < |areas| ==> shown[i] == Numbered(list, FirstNumber(dirs, list), n)[i];
    forall x: nat
      ensures IsNumber(shown, x) <==> access(x) && InReach(confs, which, accessConf, x)
    {
      SameNames(shown, list, x);
      TableHas(areas, key, x);
    }
  }

  lemma SameNames(s: seq<UserSub>, t: seq<UserSub>, x: nat)
    requires |s| == |t| && forall i :: 0 <= i < |s| ==> s[i].subnum == t[i].subnum
    ensures IsNumber(s, x) <==> IsNumber(t, x)
  {
    if i :| 0 <= i < |s| && s[i].subnum == x { assert t[i].subnum == x; }
    if i :| 0 <= i < |t| && t[i].subnum == x { assert s[i].subnum == x; }
  }

  lemma WalkOne(confs: seq<seq<nat>>, which: int, accessConf: nat -> bool)
    requires which < |confs|
    ensures Walk(confs, which, accessConf) == if which >= 0 then confs[which] else Order(confs, accessConf)
  {
  }

  /** The first loop of `setconf`. */
  method Clear(ss1: array<UserSub>, ns: nat, ghost access: nat -> bool, ghost key: KeyOf)
    requires ns <= ss1.Length
    modifies ss1
    ensures Holds(ss1, ns, Table(FirstSeen([], access), key))
  {
    var i := 0;
    while i < ns
      invariant 0 <= i <= ns
      invariant forall k :: 0 <= k < i ==> ss1[k] == BLANK
    {
      ss1[i] := BLANK;
      i := i + 1;
    }
    NothingSeen(access, key);
  }

  /** The end of `setconf`. */
  method NumberAndFind(ss1: array<UserSub>, ns: nat, dirs: bool, osub: int,
                       ghost order: seq<nat>, ghost access: nat -> bool, ghost key: KeyOf)
    returns (xdc: string, xtc: string, current: nat, ghost n: nat)
    requires 0 < ss1.Length
    requires Holds(ss1, ns, Table(FirstSeen(order, access), key))
    modifies ss1
    ensures Listed(ss1, ns, order, access, key, dirs, n, xdc, xtc)
    ensures current == PositionOf(Table(FirstSeen(order, access), key), osub)
  {
    hide Table, FirstSeen, FirstNumber, Numbered, TensFrom, HundredsFrom, PositionOf, Holds, WithKey;
    ghost var areas := FirstSeen(order, access);
    ghost var list := Table(areas, key);
    xdc, xtc, n := NumberAreas(ss1, ns, dirs, list);
    UnkeyedCount(areas, key, n);
    SameNumbers(list, FirstNumber(dirs, list), n, osub);
    current := Find(ss1, ns, osub, Numbered(list, FirstNumber(dirs, list), n));
  }

  /** The loop over all the conferences. */
  method AddConfs(ss1: array<UserSub>, ns: nat, confs: seq<seq<nat>>, accessConf: nat -> bool,
                  access: nat -> bool, key: KeyOf)
    requires Holds(ss1, ns, Table(FirstSeen([], access), key))
    requires forall c, i :: 0 <= c < |confs| && 0 <= i < |confs[c]| ==> confs[c][i] < ns
    modifies ss1
    ensures Holds(ss1, ns, Table(FirstSeen(Order(confs, accessConf), access), key))
  {
    hide Table, FirstSeen, Holds;
    var i := 0;
    assert confs[..0] == [];
    while i < |confs|
      invariant 0 <= i <= |confs|
      invariant Holds(ss1, ns, Table(FirstSeen(Order(confs[..i], accessConf), access), key))
    {
      assert confs[..i + 1][..i] == confs[..i];
      if accessConf(i) {
        ghost var before := Order(confs[..i], accessConf);
        forall k | 0 <= k < |before| ensures before[k] < ns { assert before[k] in before; }
        AddAll(ss1, ns, confs[i], access, key, before);
      }
      i := i + 1;
    }
    assert confs[..i] == confs;
  }

  /** What `setconf` leaves: the table of the areas in reach, its first `n` entries, those without a key of their own,
      numbered, and the two lists of first digits. */
  ghost predicate Listed(ss1: array<UserSub>, ns: nat, order: seq<nat>, access: nat -> bool, key: KeyOf, dirs: bool,
                         n: nat, xdc: string, xtc: string)
    reads ss1
  {
    var list := Table(FirstSeen(order, access), key);
    var first := FirstNumber(dirs, list);
    && n == |WithKey(FirstSeen(order, access), key, false)| && n <= |list|
    && Holds(ss1, ns, Numbered(list, first, n))
    && xdc == TensFrom(first, first + n) && xtc == HundredsFrom(first, first + n)
  }

  /** The loop that looks for the area that was current. */
  method Find(ss1: array<UserSub>, ns: nat, osub: int, ghost list: seq<UserSub>) returns (current: nat)
    requires Holds(ss1, ns, list)
    ensures current == PositionOf(list, osub)
  {
    current := 0;
    while current < ns && ss1[current].subnum != -1
      invariant 0 <= current <= |list|
      invariant forall i :: 0 <= i < current ==> list[i].subnum != osub
    {
      assert current < |list|;
      if ss1[current].subnum == osub {
        break;
      }
      current := current + 1;
    }
    assert current < |list| ==> ss1[current] == list[current];
    if current >= ns || ss1[current].subnum == -1 {
      current := 0;
    }
  }

  lemma NothingSeen(access: nat -> bool, key: KeyOf)
    ensures Table(FirstSeen([], access), key) == []
  {
  }

  lemma FirstSeenMore(seen: seq<nat>, x: nat, access: nat -> bool)
    ensures var areas := FirstSeen(seen, access);
      FirstSeen(seen + [x], access) == if access(x) && x !in areas then areas + [x] else areas
  {
    assert (seen + [x])[..|seen|] == seen;
  }

  lemma FirstSeenBelow(seen: seq<nat>, access: nat -> bool, ns: nat)
    requires forall k :: 0 <= k < |seen| ==> seen[k] < ns
    ensures var areas := FirstSeen(seen, access);
      forall k :: 0 <= k < |areas| ==> areas[k] < ns
  {
    hide FirstSeen;
    var areas := FirstSeen(seen, access);
    forall k | 0 <= k < |areas|
      ensures areas[k] < ns
    {
      assert areas[k] in areas;
      var j :| 0 <= j < |seen| && seen[j] == areas[k];
    }
  }

  lemma SeeOne(seen: seq<nat>, x: nat, access: nat -> bool, key: KeyOf, ns: nat)
    requires x < ns && forall k :: 0 <= k < |seen| ==> seen[k] < ns
    ensures var areas := FirstSeen(seen, access);
      Table(FirstSeen(seen + [x], access), key)
        == if access(x) then Added(Table(areas, key), ns, x, key(x)) else Table(areas, key)
  {
    hide Table, Added, FirstSeen;
    FirstSeenMore(seen, x, access);
    if access(x) {
      FirstSeenBelow(seen, access, ns);
      AddedToTable(FirstSeen(seen, access), key, ns, x);
    }
  }

  /** Numbering changes no area's place. */
  lemma {:induction false} SameNumbers(list: seq<UserSub>, first: nat, n: nat, osub: int)
    requires n <= |list|
    ensures PositionOf(Numbered(list, first, n), osub) == PositionOf(list, osub)
  {
    hide NumberKey, PositionOf;
    var r := Numbered(list, first, n);
    assert forall i :: 0 <= i < |list| ==> r[i].subnum == list[i].subnum;
    if IsNumber(list, osub) {
      var i :| 0 <= i < |list| && list[i].subnum == osub;
      assert r[i].subnum == osub;
    }
    if IsNumber(r, osub) {
      var i :| 0 <= i < |list| && r[i].subnum == osub;
      assert list[i].subnum == osub;
    }
  }

  lemma UnkeyedCount(areas: seq<nat>, key: KeyOf, n: nat)
    requires n <= |Table(areas, key)|
    requires forall i :: 0 <= i < n ==> Table(areas, key)[i].keys == ""
    requires n < |Table(areas, key)| ==> Table(areas, key)[n].keys != ""
    ensures n == |WithKey(areas, key, false)|
  {
    hide WithKey, Table;
    WithKeyLengths(areas, key);
    var u := |WithKey(areas, key, false)|;
    if n < |areas| { TableEntry(areas, key, n); }
    if u < |areas| { TableEntry(areas, key, u); }
  }
}
