/** The member line of a conference in the conference file (`bbs/conf.cpp`): how it is printed, how it is read back, and
    what is left of it when the reader's line buffer is too short.
 */
module ConfMembers {
  import opened NumText
  import opened TextWords
  import opened Seqs
  import opened Conference

  const WHITE := " \t\r\n"
  /** The reader's line buffer takes one character less than this. */
  const MAX_CONF_LINE := 4096

  /** The members, each followed by a blank. */
  function MemberText(s: seq<subconf>): string {
    if s == [] then "" else Dec(s[0]) + (" " + MemberText(s[1..]))
  }

  /** The number a word of the member line stands for; the first word starts with the at-sign. */
  function MemberOf(word: string, first: bool): int {
    if !first then Atoi(word) else if |word| >= 2 then Atoi(word[1..]) else -1
  }

  function MembersOf(words: seq<string>, first: bool, max: nat): seq<subconf> {
    if words == [] then []
    else
      var k := MemberOf(words[0], first);
      if 0 <= k < max then [Wrap(k)] + MembersOf(words[1..], false, max) else MembersOf(words[1..], false, max)
  }

  /** The loop over the words of a member line. */
  method ReadMembers(words: seq<string>, max: nat) returns (subs: seq<subconf>)
    ensures subs == MembersOf(words, true, max)
  {
    hide MemberOf;
    subs := [];
    var i := 0;
    while i < |words|
      invariant 0 <= i <= |words|
      invariant subs + MembersOf(words[i..], i == 0, max) == MembersOf(words, true, max)
    {
      var i3 := MemberOf(words[i], i == 0);
      assert words[i..][0] == words[i] && words[i..][1..] == words[i + 1..];
      if 0 <= i3 && i3 < max {
        assert subs + [Wrap(i3)] + MembersOf(words[i + 1..], false, max)
            == subs + ([Wrap(i3)] + MembersOf(words[i + 1..], false, max));
        subs := subs + [Wrap(i3)];
      }
      i := i + 1;
    }
  }

  // ----- how long it gets -----

  /** The characters that all numbers below `n` take, each with its blank. */
  function AllNumbersLength(n: nat): nat {
    if n == 0 then 0 else AllNumbersLength(n - 1) + |Dec(n - 1)| + 1
  }

  lemma {:induction false} MemberTextWithout(s: seq<subconf>, p: nat)
    requires p < |s|
    ensures |MemberText(s)| == |MemberText(RemoveAt(s, p))| + |Dec(s[p])| + 1
  {
    hide Dec;
    if p == 0 {
      assert RemoveAt(s, p) == s[1..];
    } else {
      MemberTextWithout(s[1..], p - 1);
      assert RemoveAt(s, p) == [s[0]] + RemoveAt(s[1..], p - 1);
      assert RemoveAt(s, p)[1..] == RemoveAt(s[1..], p - 1);
    }
  }

  lemma {:induction false} MemberTextBound(s: seq<subconf>, n: nat)
    requires Distinct(s) && AllBelow(s, n)
    ensures |MemberText(s)| <= AllNumbersLength(n)
  {
    hide Dec;
    if n == 0 {
      assert s == [];
    } else if n - 1 in s {
      var p :| 0 <= p < |s| && s[p] == n - 1;
      var t := RemoveAt(s, p);
      MemberTextWithout(s, p);
      assert forall i :: 0 <= i < |t| ==> t[i] < n - 1;
      MemberTextBound(t, n - 1);
    } else {
      assert forall i :: 0 <= i < |s| ==> s[i] < n - 1;
      MemberTextBound(s, n - 1);
    }
  }

  lemma {:induction false} AllNumbersLengthIs(n: nat)
    ensures n <= 10 ==> AllNumbersLength(n) == 2 * n
    ensures 10 <= n <= 100 ==> AllNumbersLength(n) == 20 + 3 * (n - 10)
    ensures 100 <= n <= 1000 ==> AllNumbersLength(n) == 290 + 4 * (n - 100)
    ensures 1000 <= n <= 10000 ==> AllNumbersLength(n) == 3890 + 5 * (n - 1000)
  {
    hide Dec;
    if n > 0 {
      AllNumbersLengthIs(n - 1);
      DecLength(n - 1);
    }
  }

  // ----- its words -----

  lemma NextWord(w: string, rest: string)
    requires w != "" && forall i :: 0 <= i < |w| ==> w[i] !in WHITE
    ensures Words(w + (" " + rest), WHITE) == [w] + Words(rest, WHITE)
  {
    hide Words;
    FirstWord(w, " " + rest, WHITE);
    SkipOne(' ', rest, WHITE);
  }

  lemma LastWord(w: string)
    requires w != "" && forall i :: 0 <= i < |w| ==> w[i] !in WHITE
    ensures Words(w + "\n", WHITE) == [w]
  {
    hide Words;
    FirstWord(w, "\n", WHITE);
    NoWords();
  }

  lemma NoWords()
    ensures Words("\n", WHITE) == [] && Words("\n", "\r\n") == [] && Words("", WHITE) == []
  {
    assert "\n"[1..] == "";
  }

  lemma DecIsWord(n: nat)
    ensures Dec(n) != "" && forall i :: 0 <= i < |Dec(n)| ==> Dec(n)[i] !in WHITE
  {
    hide Dec;
    var s := Dec(n);
    assert forall i :: 0 <= i < |s| ==> IsDigit(s[i]);
  }

  lemma NextNumber(n: nat, rest: string)
    ensures Words(Dec(n) + (" " + rest), WHITE) == [Dec(n)] + Words(rest, WHITE)
  {
    hide Dec, Words;
    DecIsWord(n);
    NextWord(Dec(n), rest);
  }

  /** The members after the first, read as words. */
  lemma {:induction false} MembersReadBack(s: seq<subconf>, max: nat)
    requires AllBelow(s, max) && max <= 0x1_0000
    ensures MembersOf(Words(MemberText(s) + "\n", WHITE), false, max) == s
  {
    hide Dec, Words, Atoi;
    if s == [] {
      NoWords();
      assert MemberText(s) + "\n" == "\n";
    } else {
      var rest := MemberText(s[1..]) + "\n";
      assert MemberText(s) + "\n" == Dec(s[0]) + (" " + rest);
      NextNumber(s[0], rest);
      AtoiDec(s[0]);
      MembersReadBack(s[1..], max);
      var w := Words(rest, WHITE);
      assert ([Dec(s[0])] + w)[1..] == w;
    }
  }

  /** The numbers that name an area. */
  function InAreas(max: nat): subconf -> bool { (x: subconf) => x < max }

  /** Members that name no area are passed over, wherever they stand. */
  lemma {:induction false} MembersInAreas(s: seq<subconf>, max: nat)
    ensures MembersOf(Words(MemberText(s) + "\n", WHITE), false, max) == Filter(InAreas(max), s)
  {
    hide Dec, Words, Atoi, Filter;
    if s == [] {
      NoWords();
      assert MemberText(s) + "\n" == "\n";
      FilterNone(InAreas(max), s);
    } else {
      var rest := MemberText(s[1..]) + "\n";
      assert MemberText(s) + "\n" == Dec(s[0]) + (" " + rest);
      NextNumber(s[0], rest);
      AtoiDec(s[0]);
      MembersInAreas(s[1..], max);
      FilterHead(InAreas(max), s);
      var w := Words(rest, WHITE);
      assert ([Dec(s[0])] + w)[1..] == w;
    }
  }

  lemma MemberLineWords(s: seq<subconf>, max: nat)
    requires AllBelow(s, max) && max <= 0x1_0000
    ensures var w := Words("@" + MemberText(s) + "\n", WHITE);
      w != [] && w[0] != "" && w[0][0] == '@' && MembersOf(w, true, max) == s
  {
    hide Dec, Words, Atoi;
    if s == [] {
      assert "@" + MemberText(s) + "\n" == "@" + "\n";
      LastWord("@");
      assert ["@"][1..] == [];
    } else {
      var rest := MemberText(s[1..]) + "\n";
      var first := "@" + Dec(s[0]);
      assert "@" + MemberText(s) + "\n" == first + (" " + rest);
      DecIsWord(s[0]);
      NextWord(first, rest);
      assert first[1..] == Dec(s[0]);
      AtoiDec(s[0]);
      MembersReadBack(s[1..], max);
      var w := Words(rest, WHITE);
      assert ([first] + w)[1..] == w;
    }
  }

  // ----- a text that is cut off -----

  /** The number that the first `n` digits of `k` stand for. */
  function Leading(k: nat, n: nat): (r: nat)
    requires n > 0
    ensures n >= |Dec(k)| ==> r == k
    ensures n < |Dec(k)| ==> r < k
  {
    if n < |Dec(k)| then Leading(k / 10, n) else k
  }

  lemma {:induction false} LeadingIs(k: nat, n: nat)
    requires 0 < n <= |Dec(k)|
    ensures Atoi(Dec(k)[..n]) == Leading(k, n)
  {
    hide Atoi;
    if n == |Dec(k)| {
      AtoiDec(k);
      assert Dec(k)[..n] == Dec(k);
    } else {
      LeadingIs(k / 10, n);
      assert Dec(k)[..n] == Dec(k / 10)[..n];
    }
  }

  /** What is left of a list when only `n` characters of its text are kept: the members whose digits are all there, and
      the number that the kept digits of the next one stand for. */
  function CutTo(s: seq<subconf>, n: nat): seq<subconf> {
    if s == [] || n == 0 then []
    else
      var d := |Dec(s[0])|;
      if n < d then [Leading(s[0], n)] else [s[0]] + CutTo(s[1..], if n == d then 0 else n - d - 1)
  }

  /** Nothing is lost exactly when at most the last blank is cut off. */
  lemma {:induction false} CutKeepsAll(s: seq<subconf>, n: nat)
    ensures CutTo(s, n) == s <==> |MemberText(s)| <= n + 1
  {
    hide Dec, Leading;
    if s != [] && n >= |Dec(s[0])| {
      var m := if n == |Dec(s[0])| then 0 else n - |Dec(s[0])| - 1;
      CutKeepsAll(s[1..], m);
      assert ([s[0]] + CutTo(s[1..], m))[1..] == CutTo(s[1..], m);
    }
  }

  /** A member of the list that is left is a member of the whole list, or smaller than one. */
  lemma {:induction false} CutBelow(s: seq<subconf>, n: nat, max: nat)
    requires AllBelow(s, max)
    ensures AllBelow(CutTo(s, n), max)
  {
    hide Dec, Leading;
    if s != [] && n >= |Dec(s[0])| {
      CutBelow(s[1..], if n == |Dec(s[0])| then 0 else n - |Dec(s[0])| - 1, max);
    }
  }

  lemma OneWord(w: string)
    requires w != "" && forall i :: 0 <= i < |w| ==> w[i] !in WHITE
    ensures Words(w, WHITE) == [w]
  {
    hide Words;
    FirstWord(w, "", WHITE);
    NoWords();
    assert w + "" == w;
  }

  /** The first characters of the members' text are read as `CutTo` says. */
  lemma {:induction false} CutReadBack(s: seq<subconf>, n: nat, max: nat)
    requires AllBelow(s, max) && max <= 0x1_0000 && n <= |MemberText(s)|
    ensures MembersOf(Words(MemberText(s)[..n], WHITE), false, max) == CutTo(s, n)
  {
    hide Dec, Words, Atoi, Leading;
    if s == [] || n == 0 {
      NoWords();
      assert MemberText(s)[..n] == "";
    } else {
      var d := |Dec(s[0])|;
      DecIsWord(s[0]);
      if n <= d {
        var w := Dec(s[0])[..n];
        assert MemberText(s)[..n] == w;
        OneWord(w);
        LeadingIs(s[0], n);
        assert [w][1..] == [];
        assert CutTo(s, n) == [Leading(s[0], n)];
      } else {
        var rest := MemberText(s[1..])[..n - d - 1];
        assert MemberText(s)[..n] == Dec(s[0]) + (" " + rest);
        NextNumber(s[0], rest);
        AtoiDec(s[0]);
        CutReadBack(s[1..], n - d - 1, max);
        var w := Words(rest, WHITE);
        assert ([Dec(s[0])] + w)[1..] == w;
      }
    }
  }

  /** The same behind the at-sign. */
  lemma CutLineWords(s: seq<subconf>, n: nat, max: nat)
    requires AllBelow(s, max) && max <= 0x1_0000 && 5 < n <= |MemberText(s)|
    ensures var w := Words("@" + MemberText(s)[..n], WHITE);
      w != [] && w[0] != "" && w[0][0] == '@' && MembersOf(w, true, max) == CutTo(s, n)
  {
    hide Dec, Words, Atoi;
    var d := |Dec(s[0])|;
    DecLength(s[0]);
    var rest := MemberText(s[1..])[..n - d - 1];
    var first := "@" + Dec(s[0]);
    assert "@" + MemberText(s)[..n] == first + (" " + rest);
    DecIsWord(s[0]);
    NextWord(first, rest);
    assert first[1..] == Dec(s[0]);
    AtoiDec(s[0]);
    CutReadBack(s[1..], n - d - 1, max);
    var w := Words(rest, WHITE);
    assert ([first] + w)[1..] == w;
  }

  // ----- a list that is cut off -----

  /** The areas `a` to `a + n - 1`. */
  function Range(a: nat, n: nat): (s: seq<subconf>)
    requires a + n <= 0x1_0000
    ensures |s| == n && forall i :: 0 <= i < n ==> s[i] == a + i
  {
    seq(n, i requires 0 <= i < n => a + i)
  }

  lemma {:induction false} RangeLength(a: nat, n: nat)
    requires a + n <= 0x1_0000
    ensures |MemberText(Range(a, n))| == AllNumbersLength(a + n) - AllNumbersLength(a)
  {
    hide Dec;
    if n > 0 {
      RangeLength(a, n - 1);
      MemberTextWithout(Range(a, n), n - 1);
      assert RemoveAt(Range(a, n), n - 1) == Range(a, n - 1);
    }
  }

  /** All members before the last one are kept if the cut is in the last one. */
  lemma {:induction false} CutLast(s: seq<subconf>, x: subconf, j: nat)
    requires 0 < j < |Dec(x)|
    ensures CutTo(s + [x], |MemberText(s)| + j) == s + [Leading(x, j)]
  {
    hide Dec, Leading;
    if s == [] {
      assert s + [x] == [x];
    } else {
      assert (s + [x])[1..] == s[1..] + [x];
      CutLast(s[1..], x, j);
    }
  }

  /** Members after `k` insertions in front of all areas, of which there were `areas`: `update_conf` shifts them, and
      the new area is offered to the conference. */
  function InsertedInFront(s: seq<subconf>, k: nat, areas: nat): seq<subconf> {
    if k == 0 then s
    else AddMembers(ShiftedUp(InsertedInFront(s, k - 1, areas), 0), [0], areas + k)
  }

  lemma {:induction false} FullListMoves(n: nat, k: nat)
    requires n == FULL && k <= 1000
    ensures InsertedInFront(Range(0, n), k, n) == Range(k, n)
  {
    hide AddList;
    if k > 0 {
      FullListMoves(n, k - 1);
      assert ShiftedUp(Range(k - 1, n), 0) == Range(k, n);
    }
  }

  lemma FullListLength(n: nat, k: nat)
    requires n == FULL && k == 41
    ensures |MemberText(Range(k, n))| == 4097 && |MemberText(Range(k, n - 1))| == 4092
  {
    hide Dec, MemberText;
    RangeLength(k, n);
    RangeLength(k, n - 1);
    AllNumbersLengthIs(k);
    AllNumbersLengthIs(k + n);
    AllNumbersLengthIs(k + n - 1);
  }

  /** A full conference of areas 0 to 1022, after 41 insertions in front, has a text of 4097 characters. The reader gets
      4094 of them, which end after two digits of 1063. */
  lemma FullListIsCut(n: nat, k: nat)
    requires n == FULL && k == 41
    ensures InsertedInFront(Range(0, n), k, n) == Range(k, n) && |MemberText(Range(k, n))| == 4097
    ensures CutTo(Range(k, n), MAX_CONF_LINE - 2) == Range(k, n - 1) + [10]
  {
    hide Dec, MemberText, CutTo, InsertedInFront;
    FullListMoves(n, k);
    FullListLength(n, k);
    var x: subconf := k + n - 1;
    DecLength(x);
    DecLength(x / 10);
    DecLength(x / 100);
    assert Leading(x, 2) == x / 100;
    CutLast(Range(k, n - 1), x, 2);
    assert Range(k, n - 1) + [x] == Range(k, n);
  }
}
