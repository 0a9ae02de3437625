/** Access flags as words and as letters (`bbs/arword.cpp`). */
module ArWord {

  /** `1 << i`. */
  function Flag(i: nat): (b: bv16)
    requires i < 16
  {
    if i == 0 then 0x1 else if i == 1 then 0x2 else if i == 2 then 0x4 else if i == 3 then 0x8
    else if i == 4 then 0x10 else if i == 5 then 0x20 else if i == 6 then 0x40 else if i == 7 then 0x80
    else if i == 8 then 0x100 else if i == 9 then 0x200 else if i == 10 then 0x400 else if i == 11 then 0x800
    else if i == 12 then 0x1000 else if i == 13 then 0x2000 else if i == 14 then 0x4000 else 0x8000
  }

  /** The flags below `n`. */
  function LowMask(n: nat): bv16
    requires n <= 16
  {
    if n == 16 then 0xFFFF else Flag(n) - 1
  }

  function Meet(a: bv16, b: bv16): bv16 { a & b }

  function Join(a: bv16, b: bv16): bv16 { a | b }

  predicate HasFlag(ar: bv16, i: nat)
    requires i < 16
  {
    Meet(Flag(i), ar) != 0
  }

  function Letter(i: nat): char
    requires i < 16
  {
    'A' + i as char
  }

  /** `strupr`. */
  function Upper(s: string): (r: string)
    ensures |r| == |s|
    ensures forall i :: 0 <= i < |s| ==> r[i] == UpperChar(s[i])
  {
    if s == "" then "" else [UpperChar(s[0])] + Upper(s[1..])
  }

  function UpperChar(c: char): char {
    if 'a' <= c <= 'z' then 'A' + (c - 'a') else c
  }

  /** The letters of the flags below `n`. */
  function Letters(ar: bv16, n: nat): string
    requires n <= 16
  {
    if n == 0 then "" else Letters(ar, n - 1) + (if HasFlag(ar, n - 1) then [Letter(n - 1)] else "")
  }

  function ArString(ar: bv16): string {
    if Letters(ar, 16) == "" then "-" else Letters(ar, 16)
  }

  /** The flags below `n` whose letter is in `s`. */
  function FlagsIn(s: string, n: nat): bv16
    requires n <= 16
  {
    if n == 0 then 0
    else if Letter(n - 1) in s then Join(FlagsIn(s, n - 1), Flag(n - 1))
    else FlagsIn(s, n - 1)
  }

  function ArFlags(s: string): bv16 { FlagsIn(Upper(s), 16) }

  /** `word_to_arstr`. */
  method WordToArStr(ar: bv16) returns (arstr: string)
    ensures arstr == ArString(ar)
  {
    arstr := "";
    if ar != 0 {
      var i := 0;
      while i < 16
        invariant 0 <= i <= 16 && arstr == Letters(ar, i)
      {
        if Meet(Flag(i), ar) != 0 {
          arstr := arstr + [Letter(i)];
        }
        i := i + 1;
      }
    } else {
      NoLetters(ar, 16);
    }
    if arstr == "" {
      arstr := "-";
    }
  }

  /** `str_to_arword`. */
  method StrToArword(arstr: string) returns (rar: bv16)
    ensures rar == ArFlags(arstr)
  {
    rar := 0;
    var s := Upper(arstr);
    var i := 0;
    while i < 16
      invariant 0 <= i <= 16 && rar == FlagsIn(s, i)
    {
      if Letter(i) in s {
        rar := Join(rar, Flag(i));
      }
      i := i + 1;
    }
  }

  lemma {:induction false} NoLetters(ar: bv16, n: nat)
    requires ar == 0 && n <= 16
    ensures Letters(ar, n) == ""
  {
    if n > 0 {
      NoLetters(ar, n - 1);
      ZeroHasNone(Flag(n - 1));
    }
  }

  lemma ZeroHasNone(b: bv16)
    ensures Meet(b, 0) == 0
  {
  }

  // ----- reading back what was printed -----

  lemma {:induction false} LettersAreFlags(ar: bv16, n: nat, k: nat)
    requires n <= 16 && k < 16
    ensures Letter(k) in Letters(ar, n) <==> k < n && HasFlag(ar, k)
  {
    hide Flag;
    if n > 0 { LettersAreFlags(ar, n - 1, k); }
  }

  lemma {:induction false} LettersAreCapitals(ar: bv16, n: nat)
    requires n <= 16
    ensures forall i :: 0 <= i < |Letters(ar, n)| ==> 'A' <= Letters(ar, n)[i] <= 'P'
    ensures |Letters(ar, n)| <= n
  {
    hide Flag;
    if n > 0 { LettersAreCapitals(ar, n - 1); }
  }

  lemma UpperOfCapitals(s: string)
    requires forall i :: 0 <= i < |s| ==> !('a' <= s[i] <= 'z')
    ensures Upper(s) == s
  {
  }

  lemma NextMask(n: nat, ar: bv16)
    requires n < 16
    ensures Meet(ar, LowMask(n + 1))
         == if HasFlag(ar, n) then Join(Meet(ar, LowMask(n)), Flag(n)) else Meet(ar, LowMask(n))
  {
    hide Flag, LowMask, Meet, Join;
    FlagStep(n);
    MeetSwaps(ar, Flag(n));
    OneFlag(ar, Flag(n));
    if HasFlag(ar, n) {
      WithFlag(ar, LowMask(n), Flag(n));
    } else {
      WithoutFlag(ar, LowMask(n), Flag(n));
    }
  }

  lemma FlagStep(n: nat)
    requires n < 16
    ensures LowMask(n + 1) == Join(LowMask(n), Flag(n))
    ensures Flag(n) != 0 && Flag(n) & (Flag(n) - 1) == 0
  {
  }

  lemma WithFlag(ar: bv16, m: bv16, p: bv16)
    requires Meet(ar, p) == p
    ensures Meet(ar, Join(m, p)) == Join(Meet(ar, m), p)
  {
  }

  lemma WithoutFlag(ar: bv16, m: bv16, p: bv16)
    requires Meet(ar, p) == 0
    ensures Meet(ar, Join(m, p)) == Meet(ar, m)
  {
  }

  lemma MeetSwaps(ar: bv16, p: bv16)
    ensures Meet(ar, p) == Meet(p, ar)
  {
  }

  lemma OneFlag(ar: bv16, p: bv16)
    requires p & (p - 1) == 0
    ensures Meet(ar, p) == 0 || Meet(ar, p) == p
  {
  }

  lemma {:induction false} FlagsReadBack(ar: bv16, s: string, n: nat)
    requires n <= 16
    requires forall k :: 0 <= k < 16 ==> (Letter(k) in s <==> HasFlag(ar, k))
    ensures FlagsIn(s, n) == Meet(ar, LowMask(n))
  {
    hide Flag, LowMask, HasFlag, Meet, Join;
    if n == 0 {
      NoMask(ar);
    } else {
      FlagsReadBack(ar, s, n - 1);
      NextMask(n - 1, ar);
    }
  }

  lemma NoMask(ar: bv16)
    ensures Meet(ar, LowMask(0)) == 0 && Meet(ar, LowMask(16)) == ar
  {
  }

  /** The letters of a word read back as that word, for every word. */
  lemma ArRoundTrip(ar: bv16)
    ensures ArFlags(ArString(ar)) == ar
  {
    hide Flag, LowMask, HasFlag, FlagsIn, Letters, Meet;
    var s := ArString(ar);
    LettersAreCapitals(ar, 16);
    UpperOfCapitals(s);
    forall k | 0 <= k < 16
      ensures Letter(k) in s <==> HasFlag(ar, k)
    {
      LettersAreFlags(ar, 16, k);
    }
    FlagsReadBack(ar, s, 16);
    NoMask(ar);
  }

  /** A printed word is one word of at most sixteen characters, none of them blank. */
  lemma ArStringShape(ar: bv16)
    ensures 1 <= |ArString(ar)| <= 16
    ensures forall i :: 0 <= i < |ArString(ar)| ==> ArString(ar)[i] !in " \t\r\n"
  {
    hide Letters;
    LettersAreCapitals(ar, 16);
  }

  // ----- which flags a text sets -----

  lemma FlagIsBit(i: nat)
    requires i < 16
    ensures Flag(i) == (1 as bv16) << i
  {
  }

  lemma FlagsDiffer(i: nat, j: nat)
    requires i < 16 && j < 16
    ensures Meet(Flag(i), Flag(j)) != 0 <==> i == j
  {
  }

  lemma MeetDistributes(p: bv16, a: bv16, b: bv16)
    ensures Meet(p, Join(a, b)) == Join(Meet(p, a), Meet(p, b))
  {
  }

  lemma JoinIsZero(a: bv16, b: bv16)
    ensures Join(a, b) == 0 ==> a == 0 && b == 0
    ensures Join(0, 0) == 0
  {
  }

  lemma MeetJoin(p: bv16, a: bv16, b: bv16)
    ensures Meet(p, Join(a, b)) != 0 <==> Meet(p, a) != 0 || Meet(p, b) != 0
  {
    hide Meet, Join;
    MeetDistributes(p, a, b);
    JoinIsZero(Meet(p, a), Meet(p, b));
  }

  lemma {:induction false} FlagsOf(s: string, n: nat, k: nat)
    requires n <= 16 && k < 16
    ensures HasFlag(FlagsIn(s, n), k) <==> k < n && Letter(k) in s
  {
    hide Flag, Meet, Join, Letter;
    if n == 0 {
      ZeroHasNone(Flag(k));
    } else {
      FlagsOf(s, n - 1, k);
      MeetJoin(Flag(k), FlagsIn(s, n - 1), Flag(n - 1));
      FlagsDiffer(k, n - 1);
    }
  }

  /** A text sets flag `k` exactly when it has the `k`-th letter as a capital or a small letter. */
  lemma TextSetsFlags(s: string, k: nat)
    requires k < 16
    ensures ArFlags(s) & ((1 as bv16) << k) != 0 <==> 'A' + k as char in s || 'a' + k as char in s
  {
    hide Flag, FlagsIn, Upper;
    FlagIsBit(k);
    FlagsOf(Upper(s), 16, k);
    MeetSwaps(ArFlags(s), Flag(k));
    var u := Upper(s);
    if i :| 0 <= i < |u| && u[i] == Letter(k) {
      assert u[i] == UpperChar(s[i]);
    }
    if i :| 0 <= i < |s| && (s[i] == 'A' + k as char || s[i] == 'a' + k as char) {
      assert u[i] == UpperChar(s[i]) == Letter(k);
    }
  }
}
