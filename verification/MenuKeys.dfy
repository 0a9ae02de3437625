/** The keystroke reader of the menus (`mmkey`, `bbs/bbsutl.cpp`), and which area numbers can be typed. */
module MenuKeys {
  import opened Seqs
  import opened NumText
  import opened AreaList

  const RETURN := 13 as char
  const BACKSPACE := 8 as char

  /** What one call returns, and how many keystrokes it took; or more keystrokes are needed. */
  datatype Outcome = Got(cmd: string, used: nat) | Waiting

  /** The letters of `upcase` that are below 127. */
  function Upcase(ch: char): (r: char)
    ensures r != 0 as char <==> ch != 0 as char
    ensures if 'a' <= ch <= 'z' then 'A' <= r <= 'Z' else r == ch
  {
    if 'a' <= ch <= 'z' then ch - ('a' - 'A') else ch
  }

  /** How many more characters the first one asks for. `two` and `one` are `tc` and `dc`, or `dtc` and `dcd`,
      or nothing and `odc`. */
  function Wanted(two: string, one: string, ch: char): nat {
    if ch in two then 2 else if ch in one then 1 else 0
  }

  /** The loop at its first key. `list` lets Return and space through, `stale` is what the buffer holds from index 1. */
  function First(keys: string, i: nat, two: string, one: string, list: bool, line: string, stale: string): Outcome
    decreases |keys| - i, 1
  {
    if i >= |keys| then Waiting
    else if list && (keys[i] == RETURN || keys[i] == ' ') then Got([keys[i]] + stale, i + 1)
    else if keys[i] <= ' ' || keys[i] > '~' then First(keys, i + 1, two, one, list, line, stale)
    else
      var ch := Upcase(keys[i]);
      var p := Wanted(two, one, ch);
      if p == 0 then Got([ch], i + 1) else More(keys, i + 1, two, one, list, line, [ch], p)
  }

  /** The loop for the further keys. `cmd` is what has been typed, `line` what the input routine would return. */
  function More(keys: string, i: nat, two: string, one: string, list: bool, line: string, cmd: string, p: nat): Outcome
    requires cmd != []
    decreases |keys| - i, 0
  {
    if i >= |keys| then Waiting
    else if (keys[i] < ' ' && keys[i] != RETURN && keys[i] != BACKSPACE) || keys[i] > '~' then
      More(keys, i + 1, two, one, list, line, cmd, p)
    else if keys[i] == RETURN then Got(cmd, i + 1)
    else if keys[i] == BACKSPACE then
      if |cmd| == 1 then First(keys, i + 1, two, one, list, line, "")
      else More(keys, i + 1, two, one, list, line, cmd[..|cmd| - 1], p)
    else
      var ch := Upcase(keys[i]);
      if ch == '/' && cmd[0] == '/' then Got(line, i + 1)
      else if |cmd| == p then Got(cmd + [ch], i + 1)
      else More(keys, i + 1, two, one, list, line, cmd + [ch], p)
  }

  // ----- the loop -----

  /** The string in a buffer that ends at the first null. */
  function CString(s: seq<char>): (r: string)
    ensures |r| <= |s| && r == s[..|r|]
    ensures forall i :: 0 <= i < |r| ==> r[i] != 0 as char
    ensures |r| < |s| ==> s[|r|] == 0 as char
  {
    if s == [] || s[0] == 0 as char then [] else [s[0]] + CString(s[1..])
  }

  lemma CStringIs(s: seq<char>, r: string)
    requires |r| < |s| && r == s[..|r|] && s[|r|] == 0 as char
    requires forall i :: 0 <= i < |r| ==> r[i] != 0 as char
    ensures CString(s) == r
  {
    var c := CString(s);
    assert forall i :: 0 <= i < |c| ==> c[i] == s[i];
    assert forall i :: 0 <= i < |r| ==> r[i] == s[i];
  }

  lemma CStringFrom(s: string)
    requires s != [] && s[0] != 0 as char
    ensures CString(s) == [s[0]] + CString(s[1..])
  {
  }

  /** The first `|cmd|` characters of the buffer are `cmd` and a null follows. */
  ghost predicate Typed(cmd1: array<char>, cmd: string)
    reads cmd1
  {
    && 0 < |cmd| <= 3 < cmd1.Length
    && (forall k :: 0 <= k < |cmd| ==> cmd1[k] == cmd[k] && cmd[k] != 0 as char)
    && cmd1[|cmd|] == 0 as char
  }

  /** The inner loop of `mmkey`, which ends without a result when all that was typed has been taken back. */
  method TypeMore(cmd1: array<char>, keys: string, from: nat, two: string, one: string, list: bool, line: string,
                  ghost cmd0: string, p: nat)
    returns (i: nat, done: bool, r: Outcome)
    requires cmd1.Length == 10 && Typed(cmd1, cmd0) && |cmd0| == 1 && 1 <= p <= 2 && from <= |keys|
    modifies cmd1
    ensures from <= i <= |keys|
    ensures done ==> r == More(keys, from, two, one, list, line, cmd0, p)
    ensures done && r.Got? ==> r.cmd == line || Typed(cmd1, r.cmd)
    ensures !done ==> cmd1[1] == 0 as char
    ensures !done ==> More(keys, from, two, one, list, line, cmd0, p) == First(keys, i, two, one, list, line, "")
  {
    hide First, Upcase;
    var cp := 1;
    i, done, r := from, true, Waiting;
    ghost var cmd := cmd0;
    while cp > 0
      invariant from <= i <= |keys| && cp <= p
      invariant cp > 0 ==> |cmd| == cp && Typed(cmd1, cmd)
      invariant cp > 0 ==>
        More(keys, i, two, one, list, line, cmd, p) == More(keys, from, two, one, list, line, cmd0, p)
      invariant cp == 0 ==> cmd1[1] == 0 as char
      invariant cp == 0 ==>
        First(keys, i, two, one, list, line, "") == More(keys, from, two, one, list, line, cmd0, p)
      decreases |keys| - i
    {
      if i == |keys| {
        return i, true, Waiting;
      }
      var ch := keys[i];
      i := i + 1;
      if (ch < ' ' && ch != RETURN && ch != BACKSPACE) || ch > '~' {
        continue;
      }
      ch := Upcase(ch);
      if ch == RETURN {
        return i, true, Got(cmd1[..cp], i);
      } else if ch == BACKSPACE {
        cp := cp - 1;
        cmd1[cp] := 0 as char;
        cmd := cmd[..cp];
      } else {
        cmd1[cp] := ch;
        cp := cp + 1;
        cmd1[cp] := 0 as char;
        cmd := cmd + [ch];
        if ch == '/' && cmd1[0] == '/' {
          return i, true, Got(line, i);
        } else if cp == p + 1 {
          return i, true, Got(cmd1[..cp], i);
        }
      }
    }
    done := false;
  }

  lemma TypedString(cmd1: array<char>, cmd: string)
    requires Typed(cmd1, cmd)
    ensures CString(cmd1[..]) == cmd == cmd1[..|cmd|]
    ensures |cmd| == 1 ==> CString(cmd1[1..]) == ""
  {
    assert cmd == cmd1[..][..|cmd|];
    CStringIs(cmd1[..], cmd);
    if |cmd| == 1 { CStringIs(cmd1[1..], ""); }
  }

  /** `mmkey`. Its buffer outlives the call, and keeps what was typed. */
  method MmKey(cmd1: array<char>, keys: string, two: string, one: string, list: bool, line: string)
    returns (r: Outcome)
    requires cmd1.Length == 10
    modifies cmd1
    ensures r == First(keys, 0, two, one, list, line, old(CString(cmd1[1..])))
    ensures r.Got? ==> r.cmd == line || r.cmd == CString(cmd1[..])
  {
    hide More, CString;
    var i := 0;
    ghost var stale := CString(cmd1[1..]);
    ghost var all := First(keys, 0, two, one, list, line, stale);
    while true
      invariant 0 <= i <= |keys|
      invariant First(keys, i, two, one, list, line, CString(cmd1[1..])) == all
      decreases |keys| - i
    {
      if i == |keys| {
        return Waiting;
      }
      var ch := keys[i];
      i := i + 1;
      if list && (ch == RETURN || ch == ' ') {
        ghost var rest := cmd1[1..];
        cmd1[0] := ch;
        assert cmd1[1..] == rest;
        r := Got(CString(cmd1[..]), i);
        CStringFrom(cmd1[..]);
        return;
      }
      if ch <= ' ' || ch > '~' {
        continue;
      }
      ch := Upcase(ch);
      cmd1[0], cmd1[1] := ch, 0 as char;
      TypedString(cmd1, [ch]);
      var p := Wanted(two, one, ch);
      if p == 0 {
        return Got([ch], i);
      }
      var done;
      i, done, r := TypeMore(cmd1, keys, i, two, one, list, line, [ch], p);
      if done {
        if r.Got? && r.cmd != line { TypedString(cmd1, r.cmd); }
        return;
      }
      CStringIs(cmd1[1..], "");
    }
  }

  // ----- the numbers that can be typed -----

  lemma {:induction false} HasTens(first: nat, n: nat, k: nat)
    requires first <= 10 * k < n && 1 <= k < 10
    ensures Digit(k) in TensFrom(first, n)
  {
    if n - 1 != 10 * k { HasTens(first, n - 1, k); }
  }

  lemma {:induction false} HasHundreds(first: nat, n: nat, k: nat)
    requires first <= 100 * k < n && 1 <= k < 10
    ensures Digit(k) in HundredsFrom(first, n)
  {
    if n - 1 != 100 * k { HasHundreds(first, n - 1, k); }
  }

  /** The keys to press for a number: its digits, and Return when the reader still waits for more. */
  function KeysFor(two: string, one: string, text: string): string
    requires text != []
  {
    if |text| <= Wanted(two, one, text[0]) then text + [RETURN] else text
  }

  /** A few digits are read back as they are, if the first of them lets the reader wait for the others. */
  lemma DigitsTyped(two: string, one: string, list: bool, line: string, stale: string, text: string)
    requires 1 <= |text| <= 1 + Wanted(two, one, text[0])
    requires forall i :: 0 <= i < |text| ==> IsDigit(text[i])
    ensures var keys := KeysFor(two, one, text);
      First(keys, 0, two, one, list, line, stale) == Got(text, |keys|)
  {
    hide Wanted;
    var keys := KeysFor(two, one, text);
    var p := Wanted(two, one, text[0]);
    if p > 0 {
      assert [text[0]] == text[..1];
      MoreDigits(keys, 1, two, one, list, line, text, p);
    } else {
      assert text == [text[0]];
    }
  }

  lemma {:induction false} MoreDigits(keys: string, i: nat, two: string, one: string, list: bool, line: string,
                                      text: string, p: nat)
    requires 1 <= i <= |text| <= 1 + p && (i <= p)
    requires forall k :: 0 <= k < |text| ==> IsDigit(text[k])
    requires keys == if |text| <= p then text + [RETURN] else text
    ensures More(keys, i, two, one, list, line, text[..i], p) == Got(text, |keys|)
    decreases |text| - i
  {
    if i < |text| {
      assert keys[i] == text[i] && IsDigit(text[i]);
      assert text[..i] + [text[i]] == text[..i + 1];
      if i < p {
        MoreDigits(keys, i + 1, two, one, list, line, text, p);
      } else {
        assert text[..i + 1] == text;
      }
    } else {
      assert text[..i] == text;
    }
  }

  /** The first digit of a number below 1000 makes the reader wait for the others, in the lists `setconf` makes
      for numbers `first` up to `n`. */
  lemma FirstDigitWaits(first: nat, n: nat, num: nat)
    requires first <= 1 && first <= num < n && num <= 999
    ensures |Dec(num)| <= 1 + Wanted(HundredsFrom(first, n), TensFrom(first, n), Dec(num)[0])
  {
    hide Dec, TensFrom, HundredsFrom;
    DecLength(num);
    LeadingDigit(num);
    if num >= 100 {
      HasHundreds(first, n, num / 100);
    } else if num >= 10 {
      HasTens(first, n, num / 10);
    }
  }

  lemma LeadingDigit(num: nat)
    ensures 10 <= num < 100 ==> Dec(num)[0] == Digit(num / 10)
    ensures 100 <= num < 1000 ==> Dec(num)[0] == Digit(num / 100)
  {
    if 100 <= num < 1000 {
      assert num / 10 / 10 == num / 100;
      assert Dec(num / 10)[0] == Digit(num / 100);
    }
  }

  /** Every area number up to 999 can be typed: its digits, with Return after them when needed, make the reader
      return exactly that number and take exactly those keys. */
  lemma NumberCanBeTyped(first: nat, n: nat, num: nat, list: bool, line: string, stale: string)
    requires first <= 1 && first <= num < n && num <= 999
    ensures var two, one := HundredsFrom(first, n), TensFrom(first, n);
      var keys := KeysFor(two, one, NumberKey(num));
      First(keys, 0, two, one, list, line, stale) == Got(NumberKey(num), |keys|)
  {
    DecLength(num);
    FirstDigitWaits(first, n, num);
    DigitsTyped(HundredsFrom(first, n), TensFrom(first, n), list, line, stale, Dec(num));
  }

  /** What is not the line read after two slashes has at most three characters. */
  lemma {:induction false} FirstIsShort(keys: string, i: nat, two: string, one: string, line: string, stale: string)
    requires forall k :: 0 <= k < |keys| ==> keys[k] != '/'
    ensures var r := First(keys, i, two, one, false, line, stale);
      r.Got? ==> |r.cmd| <= 3
    decreases |keys| - i, 1
  {
    if i < |keys| {
      if keys[i] <= ' ' || keys[i] > '~' {
        FirstIsShort(keys, i + 1, two, one, line, stale);
      } else {
        var ch := Upcase(keys[i]);
        var p := Wanted(two, one, ch);
        if p > 0 { MoreIsShort(keys, i + 1, two, one, line, [ch], p); }
      }
    }
  }

  lemma {:induction false} MoreIsShort(keys: string, i: nat, two: string, one: string, line: string,
                                       cmd: string, p: nat)
    requires forall k :: 0 <= k < |keys| ==> keys[k] != '/'
    requires 1 <= |cmd| <= p <= 2
    ensures var r := More(keys, i, two, one, false, line, cmd, p);
      r.Got? ==> |r.cmd| <= 3
    decreases |keys| - i, 0
  {
    if i < |keys| {
      if (keys[i] < ' ' && keys[i] != RETURN && keys[i] != BACKSPACE) || keys[i] > '~' {
        MoreIsShort(keys, i + 1, two, one, line, cmd, p);
      } else if keys[i] == BACKSPACE {
        if |cmd| == 1 {
          FirstIsShort(keys, i + 1, two, one, line, "");
        } else {
          MoreIsShort(keys, i + 1, two, one, line, cmd[..|cmd| - 1], p);
        }
      } else if keys[i] != RETURN && |cmd| < p {
        MoreIsShort(keys, i + 1, two, one, line, cmd + [Upcase(keys[i])], p);
      }
    }
  }

  /** Keys without a slash that make the reader return `text`. */
  ghost predicate Types(keys: string, two: string, one: string, text: string) {
    && (forall k :: 0 <= k < |keys| ==> keys[k] != '/')
    && First(keys, 0, two, one, false, "", "") == Got(text, |keys|)
  }

  /** An area's number can be typed directly exactly when it is at most 999. */
  lemma TypableUpTo999(first: nat, n: nat, num: nat)
    requires first <= 1 && first <= num < n <= MAX_AREAS
    ensures (exists keys :: Types(keys, HundredsFrom(first, n), TensFrom(first, n), NumberKey(num))) <==> num <= 999
  {
    var two, one := HundredsFrom(first, n), TensFrom(first, n);
    DecLength(num);
    if num <= 999 {
      NumberCanBeTyped(first, n, num, false, "", "");
      assert Types(KeysFor(two, one, NumberKey(num)), two, one, NumberKey(num));
    } else {
      forall keys | Types(keys, two, one, NumberKey(num))
        ensures false
      {
        FirstIsShort(keys, 0, two, one, "", "");
      }
    }
  }

  /** After two slashes any line can be given, and so any number. */
  lemma SlashesTakeALine(first: nat, n: nat, line: string, stale: string)
    requires first <= n <= MAX_AREAS
    ensures First("//", 0, HundredsFrom(first, n), TensFrom(first, n), false, line, stale) == Got(line, 2)
  {
    Slashes(first, n);
  }

  /** With a thousand areas, number 1000 cannot be typed by any keys without a slash; two slashes and a line do it. */
  lemma Number1000(num: nat, keys: string, stale: string)
    requires num == 1000
    ensures var two, one := HundredsFrom(1, num + 1), TensFrom(1, num + 1);
      && !Types(keys, two, one, NumberKey(num))
      && First("//", 0, two, one, false, NumberKey(num), stale) == Got(NumberKey(num), 2)
  {
    hide HundredsFrom, TensFrom, First;
    TypableUpTo999(1, num + 1, num);
    SlashesTakeALine(1, num + 1, NumberKey(num), stale);
  }

  lemma {:induction false} Slashes(first: nat, n: nat)
    requires n <= MAX_AREAS
    ensures '/' in TensFrom(first, n) && '/' !in HundredsFrom(first, n)
  {
    if n > first { Slashes(first, n - 1); }
  }

  // ----- how many keys are taken -----

  /** A printable key that is no slash and no blank. */
  predicate PlainKey(ch: char) { ' ' < ch <= '~' && ch != '/' }

  function UpcaseAll(keys: string): (r: string)
    ensures |r| == |keys| && forall i :: 0 <= i < |r| ==> r[i] == Upcase(keys[i])
  {
    seq(|keys|, i requires 0 <= i < |keys| => Upcase(keys[i]))
  }

  /** The keys of a command that starts with `ch`: three if the first list of digits has it, two if the other one. */
  function KeysOf(two: string, one: string, ch: char): nat {
    if Upcase(ch) in two then 3 else if Upcase(ch) in one then 2 else 1
  }

  lemma MoreStep(keys: string, i: nat, two: string, one: string, list: bool, line: string, cmd: string, p: nat)
    requires cmd != [] && i <= |keys| && (i < |keys| ==> PlainKey(keys[i]))
    ensures More(keys, i, two, one, list, line, cmd, p)
         == if i == |keys| then Waiting
            else if |cmd| == p then Got(cmd + [Upcase(keys[i])], i + 1)
            else More(keys, i + 1, two, one, list, line, cmd + [Upcase(keys[i])], p)
  {
  }

  lemma UpcaseMore(keys: string, i: nat, n: nat, cmd: string)
    requires 0 < n && i + n <= |keys|
    ensures cmd + UpcaseAll(keys[i..i + n]) == (cmd + [Upcase(keys[i])]) + UpcaseAll(keys[i + 1..i + n])
  {
    hide Upcase;
    assert keys[i..i + n] == [keys[i]] + keys[i + 1..i + n];
  }

  lemma {:induction false} MorePlain(keys: string, i: nat, two: string, one: string, list: bool, line: string,
                                     cmd: string, p: nat)
    requires 1 <= |cmd| <= p && i <= |keys| && forall j :: 0 <= j < |keys| ==> PlainKey(keys[j])
    ensures var n := p + 1 - |cmd|;
      More(keys, i, two, one, list, line, cmd, p)
        == if i + n <= |keys| then Got(cmd + UpcaseAll(keys[i..i + n]), i + n) else Waiting
    decreases |keys| - i
  {
    hide More, First, Upcase, UpcaseAll, PlainKey;
    MoreStep(keys, i, two, one, list, line, cmd, p);
    if i < |keys| {
      var n := p + 1 - |cmd|;
      var more := cmd + [Upcase(keys[i])];
      if |cmd| < p {
        MorePlain(keys, i + 1, two, one, list, line, more, p);
        if i + n <= |keys| { UpcaseMore(keys, i, n, cmd); }
      } else {
        UpcaseMore(keys, i, 1, cmd);
        NothingAfter(more, UpcaseAll(keys[i + 1..i + 1]));
      }
    }
  }

  /** Of keys that are no slash, blank or control character, exactly as many are taken as the first one asks for, and
      they come back as capitals; with fewer keys the reader waits. */
  lemma PlainKeys(keys: string, two: string, one: string, list: bool, line: string, stale: string)
    requires keys != "" && forall j :: 0 <= j < |keys| ==> PlainKey(keys[j])
    ensures var n := KeysOf(two, one, keys[0]);
      First(keys, 0, two, one, list, line, stale)
        == if n <= |keys| then Got(UpcaseAll(keys[..n]), n) else Waiting
  {
    assert PlainKey(keys[0]);
    var n := KeysOf(two, one, keys[0]);
    var ch := Upcase(keys[0]);
    if n > 1 {
      MorePlain(keys, 1, two, one, list, line, [ch], n - 1);
      if n <= |keys| {
        assert keys[..n] == [keys[0]] + keys[1..n];
        assert UpcaseAll(keys[..n]) == [ch] + UpcaseAll(keys[1..n]);
      }
    } else {
      assert keys[..1] == [keys[0]];
      assert UpcaseAll(keys[..1]) == [ch];
    }
  }

  /** A backspace takes back one key of an unfinished command, and after the only one the reader starts again; Return
      ends the command as it is; blanks and control characters before it are passed over. */
  lemma EditingKeys(keys: string, i: nat, two: string, one: string, list: bool, line: string, stale: string)
    requires i + 1 < |keys|
    ensures PlainKey(keys[i]) && KeysOf(two, one, keys[i]) > 1 && keys[i + 1] == BACKSPACE ==>
      First(keys, i, two, one, list, line, stale) == First(keys, i + 2, two, one, list, line, "")
    ensures PlainKey(keys[i]) && KeysOf(two, one, keys[i]) > 1 && keys[i + 1] == RETURN ==>
      First(keys, i, two, one, list, line, stale) == Got([Upcase(keys[i])], i + 2)
    ensures (keys[i] <= ' ' || keys[i] > '~') && !(list && (keys[i] == RETURN || keys[i] == ' ')) ==>
      First(keys, i, two, one, list, line, stale) == First(keys, i + 1, two, one, list, line, stale)
    ensures list && (keys[i] == RETURN || keys[i] == ' ') ==>
      First(keys, i, two, one, list, line, stale) == Got([keys[i]] + stale, i + 1)
  {
  }

  lemma BackspaceTakesBack(keys: string, i: nat, two: string, one: string, list: bool, line: string, cmd: string,
                           p: nat)
    requires i + 1 < |keys| && 1 <= |cmd| < p && PlainKey(keys[i]) && keys[i + 1] == BACKSPACE
    ensures More(keys, i, two, one, list, line, cmd, p) == More(keys, i + 2, two, one, list, line, cmd, p)
  {
    var ch := Upcase(keys[i]);
    assert (cmd + [ch])[..|cmd|] == cmd;
  }
}
