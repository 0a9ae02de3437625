/** The output character machine of `bbs/bputch.cpp` (`bputch`, `execute_ansi`) and the printers that feed it:
    `makeansi` (`bbs/com.cpp`), `Color` and `SystemColor` (`bbs/woutstream.cpp`). This module holds the functions
    the machine computes and what they promise; `Terminal` holds the code itself.
 */
module Ansi {
  import opened NumText
  import opened Attributes

  const ESC: char := '\U{1b}'
  /** Control-C starts a user colour, control-O a macro. */
  const CC: char := '\U{03}'
  const CO: char := '\U{0f}'
  const SOFTRETURN: char := '\n'
  const TAB: char := '\t'

  /** `change_color`: what the next character is taken for. */
  datatype Mode = NoCode | LiteralPipe | Heart | AtMacro | PipeCode | CtrlO | MacroChar

  /** What reaches the local console: a character in the attribute of the moment, or a cursor or erase command. */
  datatype Out = Glyph(ch: char, attr: attribute) | Command(cmd: char, a0: int, a1: int)

  datatype Term = Term(mode: Mode, pipe0: char, esc: string, attr: attribute, eol: string, out: seq<Out>)

  /** What the machine reads and never changes: whether the user has ANSI, whether the console echoes, the column the
      console is in after what it was told to show, the text of each macro (`interpret`), and the user's colours. */
  datatype Env = Env(ansi: bool, echo: bool, column: seq<Out> -> nat, macro: char -> string, palette: int -> bv8)

  function UserColor(e: Env, n: int): attribute { e.palette(n) as bv16 }

  // ----- printing an attribute change -----

  /** The numbers separated by semicolons, as `addto` appends them. */
  function Joined(codes: seq<nat>): string {
    if codes == [] then ""
    else if |codes| == 1 then Dec(codes[0])
    else Joined(codes[..|codes| - 1]) + ";" + Dec(codes[|codes| - 1])
  }

  function AttrText(codes: seq<nat>): string {
    if codes == [] then "" else [ESC, '['] + Joined(codes) + "m"
  }

  /** The string `makeansi` makes. */
  function MakeAnsi(e: Env, attr: attribute, cur: attribute): string {
    if e.ansi then AttrText(Codes(attr, cur)) else ""
  }

  // ----- pipe codes -----

  datatype PipeMeaning = ColorNumber(nc: nat) | UserNumber(n: int) | Literally

  /** What the two characters after a bar mean. */
  function Meaning(p0: char, p1: char): (m: PipeMeaning)
    ensures m.ColorNumber? ==> m.nc < 32
  {
    if IsDigit(p0) then
      if IsDigit(p1) || p1 == ' ' then InRange(Atoi([p0, p1])) else Literally
    else if p0 == ' ' && IsDigit(p1) then InRange(Atoi([p1]))
    else if p0 == 'b' || p0 == 'B' then InRange(16 + Atoi([p1]))
    else if p0 == '#' then UserNumber(Atoi([p1]))
    else Literally
  }

  function InRange(nc: int): PipeMeaning {
    if 0 <= nc < 32 then ColorNumber(nc) else Literally
  }

  /** The attribute a colour number asks for. Numbers from 16 up leave a bit above the low byte, which `makeansi`
      never looks at. */
  function PipeAttr(cur: attribute, nc: nat): attribute
    requires nc < 32
  {
    if nc < 16 then (cur & 0xf0) | (nc as bv16) else (cur & 0x0f) | ((nc as bv16) << 4)
  }

  /** The pipe characters as the C string that is printed back. */
  function CString(p0: char, p1: char): string {
    if p0 == '\0' then "" else if p1 == '\0' then [p0] else [p0, p1]
  }

  // ----- the escape collector -----

  /** The argument loop of `execute_ansi`: at most ten arguments of at most ten characters. */
  function ParseArgs(s: string, temp: string, args: seq<int>): seq<int>
    decreases |s|
  {
    if s == [] || s[0] == '\0' || |args| >= 10 || |temp| >= 10 then
      if temp != [] && |args| < 10 then args + [Atoi(temp)] else args
    else if s[0] == ';' then ParseArgs(s[1..], "", args + [Atoi(temp)])
    else ParseArgs(s[1..], temp + [s[0]], args)
  }

  function Arg(args: seq<int>, i: nat): int { if i < |args| then args[i] else 0 }

  predicate IsCursorCommand(cmd: char) { cmd in "fHABCDsuJkK" }

  /** `execute_ansi`. */
  function Execute(t: Term): Term {
    if |t.esc| < 3 || t.esc[1] != '[' then t.(esc := "")
    else
      var cmd := t.esc[|t.esc| - 1];
      var args := ParseArgs(t.esc[2..|t.esc| - 1], "", []);
      if cmd == 'm' then t.(esc := "", attr := SgrAll(t.attr, if args == [] then [0] else args))
      else if IsCursorCommand(cmd) then
        var a0 := if 'A' <= cmd <= 'D' && Arg(args, 0) == 0 then 1 else Arg(args, 0);
        t.(esc := "", out := t.out + [Command(cmd, a0, Arg(args, 1))])
      else t.(esc := "")
  }

  /** The collector runs the sequence when a character ends it, when it was no sequence, or when it got long. */
  predicate Ends(s: string)
    requires s != []
  {
    var c := s[|s| - 1];
    && ((!IsDigit(c) && c != '[' && c != ';') || |s| < 2 || s[1] != '[' || |s| > 75)
    && !((|s| == 2 && c == '?') || (|s| == 3 && s[2] == '?'))
  }

  function Spaces(e: Env, attr: attribute, n: nat): seq<Out> {
    if n == 0 then [] else Spaces(e, attr, n - 1) + [Glyph(if e.echo then ' ' else 'X', attr)]
  }

  /** The part of `bputch` below the colour codes: collect an escape sequence or draw. */
  function Collect(e: Env, t: Term, c: char): Term {
    if t.esc != "" then
      var s := (if |t.esc| > 80 then "" else t.esc) + [c];
      if Ends(s) then Execute(t.(esc := s)) else t.(esc := s)
    else if c == ESC then t.(esc := [ESC])
    else if c == TAB then t.(out := t.out + Spaces(e, t.attr, 8 - e.column(t.out) % 8))
    else t.(out := t.out + [Glyph(if e.echo then c else 'X', t.attr)])
  }

  /** Printing a string that holds no colour codes. */
  function CollectAll(e: Env, t: Term, s: string): Term
    decreases |s|
  {
    if s == "" then t else CollectAll(e, Collect(e, t.(mode := NoCode), s[0]), s[1..])
  }

  // ----- bputch -----

  /** `bout.Color`: change to a user colour, and remember how to get back at the end of the line. */
  function SetColor(e: Env, t: Term, n: int): Term {
    var c := UserColor(e, n);
    if c == t.attr then t
    else
      var u := CollectAll(e, t, MakeAnsi(e, c, t.attr));
      u.(eol := MakeAnsi(e, UserColor(e, 0), u.attr))
  }

  /** `bputch` when no pipe code is being finished. */
  function PutSimple(e: Env, t: Term, c: char): Term {
    match t.mode
    case MacroChar => t.(mode := NoCode)
    case CtrlO => t.(mode := if c == CO then MacroChar else NoCode)
    case AtMacro => if c == '@' then t.(mode := MacroChar) else t.(mode := PipeCode, pipe0 := c)
    case Heart => if ' ' <= c <= '~' then SetColor(e, t.(mode := NoCode), c as int - 48) else t.(mode := NoCode)
    case PipeCode => t
    case _ =>
      if c == CC then t.(mode := Heart)
      else if c == CO then t.(mode := CtrlO)
      else if c == '|' && t.mode != LiteralPipe then t.(mode := AtMacro)
      else if c == SOFTRETURN && t.eol != "" then Collect(e, CollectAll(e, t, t.eol).(eol := ""), c)
      else Collect(e, t.(mode := NoCode), c)
  }

  function PutEach(e: Env, t: Term, s: string): Term
    decreases |s|
  {
    if s == "" then t else PutEach(e, PutSimple(e, t, s[0]), s[1..])
  }

  /** `bputch` when no macro is being expanded. */
  function PutCode(e: Env, t: Term, c: char): Term {
    if t.mode != PipeCode then PutSimple(e, t, c)
    else
      match Meaning(t.pipe0, c)
      case Literally => PutEach(e, t.(mode := LiteralPipe), "|" + CString(t.pipe0, c))
      case UserNumber(n) => SetColor(e, t.(mode := NoCode), n)
      case ColorNumber(nc) => CollectAll(e, t.(mode := NoCode), MakeAnsi(e, PipeAttr(t.attr, nc), t.attr))
  }

  /** The text of a macro, which may hold colour codes but no macro. */
  function PutCodes(e: Env, t: Term, s: string): Term
    decreases |s|
  {
    if s == "" then t else PutCodes(e, PutCode(e, t, s[0]), s[1..])
  }

  /** `bputch`. */
  function Put(e: Env, t: Term, c: char): Term {
    if t.mode == MacroChar then PutCodes(e, t.(mode := NoCode), e.macro(c)) else PutCode(e, t, c)
  }

  /** `bout.bputs`. */
  function PutAll(e: Env, t: Term, s: string): Term
    decreases |s|
  {
    if s == "" then t else PutAll(e, Put(e, t, s[0]), s[1..])
  }

  // ----- the collector never fills its buffer -----

  lemma CollectBound(e: Env, t: Term, c: char)
    requires |t.esc| <= 75
    ensures |Collect(e, t, c).esc| <= 75
  {
    hide Execute, Spaces;
    ExecuteRests(t.(esc := t.esc + [c]));
  }

  lemma {:induction false} CollectAllBound(e: Env, t: Term, s: string)
    requires |t.esc| <= 75
    ensures |CollectAll(e, t, s).esc| <= 75
    decreases |s|
  {
    hide Collect;
    if s != "" {
      CollectBound(e, t.(mode := NoCode), s[0]);
      CollectAllBound(e, Collect(e, t.(mode := NoCode), s[0]), s[1..]);
    }
  }

  lemma PutSimpleBound(e: Env, t: Term, c: char)
    requires |t.esc| <= 75
    ensures |PutSimple(e, t, c).esc| <= 75
  {
    hide Collect, CollectAll, MakeAnsi;
    CollectBound(e, t.(mode := NoCode), c);
    CollectAllBound(e, t, t.eol);
    CollectBound(e, CollectAll(e, t, t.eol).(eol := ""), c);
    CollectAllBound(e, t.(mode := NoCode), MakeAnsi(e, UserColor(e, c as int - 48), t.attr));
  }

  lemma {:induction false} PutEachBound(e: Env, t: Term, s: string)
    requires |t.esc| <= 75
    ensures |PutEach(e, t, s).esc| <= 75
    decreases |s|
  {
    hide PutSimple;
    if s != "" {
      PutSimpleBound(e, t, s[0]);
      PutEachBound(e, PutSimple(e, t, s[0]), s[1..]);
    }
  }

  lemma PutCodeBound(e: Env, t: Term, c: char)
    requires |t.esc| <= 75
    ensures |PutCode(e, t, c).esc| <= 75
  {
    hide PutSimple, PutEach, CollectAll, MakeAnsi, PipeAttr, Meaning;
    if t.mode != PipeCode {
      PutSimpleBound(e, t, c);
    } else {
      match Meaning(t.pipe0, c)
      case Literally => PutEachBound(e, t.(mode := LiteralPipe), "|" + CString(t.pipe0, c));
      case UserNumber(n) => CollectAllBound(e, t.(mode := NoCode), MakeAnsi(e, UserColor(e, n), t.attr));
      case ColorNumber(nc) => CollectAllBound(e, t.(mode := NoCode), MakeAnsi(e, PipeAttr(t.attr, nc), t.attr));
    }
  }

  lemma {:induction false} PutCodesBound(e: Env, t: Term, s: string)
    requires |t.esc| <= 75
    ensures |PutCodes(e, t, s).esc| <= 75
    decreases |s|
  {
    hide PutCode;
    if s != "" {
      PutCodeBound(e, t, s[0]);
      PutCodesBound(e, PutCode(e, t, s[0]), s[1..]);
    }
  }

  lemma PutBound(e: Env, t: Term, c: char)
    requires |t.esc| <= 75
    ensures |Put(e, t, c).esc| <= 75
  {
    hide PutCode, PutCodes;
    PutCodesBound(e, t.(mode := NoCode), e.macro(c));
    PutCodeBound(e, t, c);
  }

  /** Whatever is printed, at most 75 characters are held between calls, so the branch for more than 80 is dead. */
  lemma {:induction false} CollectorNeverFills(e: Env, t: Term, s: string)
    requires |t.esc| <= 75
    ensures |PutAll(e, t, s).esc| <= 75
    decreases |s|
  {
    hide Put;
    if s != "" {
      PutBound(e, t, s[0]);
      CollectorNeverFills(e, Put(e, t, s[0]), s[1..]);
    }
  }

  // ----- the collector reads back what makeansi prints -----

  predicate BodyChar(c: char) { IsDigit(c) || c == ';' }

  ghost predicate Body(s: string) {
    forall i :: 0 <= i < |s| ==> BodyChar(s[i])
  }

  ghost predicate GoodCodes(codes: seq<nat>) {
    |codes| <= 10 && forall i :: 0 <= i < |codes| ==> codes[i] < 100
  }

  lemma {:induction false} JoinedBody(codes: seq<nat>)
    requires GoodCodes(codes)
    ensures Body(Joined(codes)) && |Joined(codes)| <= 3 * |codes|
  {
    if codes != [] {
      JoinedBody(codes[..|codes| - 1]);
      DecLength(codes[|codes| - 1]);
    }
  }

  /** An escape sequence in the making takes another body character. */
  lemma CollectBody(e: Env, t: Term, c: char)
    requires 2 <= |t.esc| < 75 && t.esc[1] == '[' && BodyChar(c)
    ensures Collect(e, t, c) == t.(esc := t.esc + [c])
  {
  }

  lemma {:induction false} CollectAllBody(e: Env, t: Term, s: string)
    requires t.mode == NoCode && 2 <= |t.esc| && |t.esc| + |s| <= 75 && t.esc[1] == '[' && Body(s)
    ensures CollectAll(e, t, s) == t.(esc := t.esc + s)
    decreases |s|
  {
    hide Collect;
    if s == "" {
      assert t.esc + s == t.esc;
    } else {
      CollectBody(e, t, s[0]);
      CollectAllBody(e, t.(esc := t.esc + [s[0]]), s[1..]);
      assert t.esc + [s[0]] + s[1..] == t.esc + s;
    }
  }

  lemma {:induction false} CollectAllAppend(e: Env, t: Term, a: string, b: string)
    ensures CollectAll(e, t, a + b) == CollectAll(e, CollectAll(e, t, a), b)
    decreases |a|
  {
    hide Collect;
    if a == "" {
      assert a + b == b;
    } else {
      assert (a + b)[1..] == a[1..] + b;
      CollectAllAppend(e, Collect(e, t.(mode := NoCode), a[0]), a[1..], b);
    }
  }

  /** Digits go to the buffer of the current argument. */
  lemma {:induction false} ParseDigits(d: string, rest: string, temp: string, args: seq<int>)
    requires (forall i :: 0 <= i < |d| ==> IsDigit(d[i])) && |temp| + |d| < 10 && |args| < 10
    ensures ParseArgs(d + rest, temp, args) == ParseArgs(rest, temp + d, args)
    decreases |d|
  {
    if d == "" {
      assert d + rest == rest && temp + d == temp;
    } else {
      assert (d + rest)[1..] == d[1..] + rest;
      ParseDigits(d[1..], rest, temp + [d[0]], args);
      assert temp + [d[0]] + d[1..] == temp + d;
    }
  }

  /** The numbers from left to right. */
  function JoinedRight(codes: seq<nat>): string {
    if codes == [] then "" else if |codes| == 1 then Dec(codes[0]) else Dec(codes[0]) + ";" + JoinedRight(codes[1..])
  }

  lemma {:induction false} JoinedRightMore(codes: seq<nat>, c: nat)
    requires codes != []
    ensures JoinedRight(codes + [c]) == JoinedRight(codes) + (";" + Dec(c))
    decreases |codes|
  {
    hide Dec;
    if |codes| == 1 {
      assert codes == [codes[0]] && (codes + [c])[1..] == [c];
      assert JoinedRight([c]) == Dec(c);
      SemicolonBetween(Dec(codes[0]), "", Dec(c));
    } else {
      assert (codes + [c])[1..] == codes[1..] + [c];
      JoinedRightMore(codes[1..], c);
      SemicolonBetween(Dec(codes[0]), JoinedRight(codes[1..]), Dec(c));
    }
  }

  lemma SemicolonBetween(a: string, b: string, c: string)
    ensures a + ";" + (b + (";" + c)) == (a + ";" + b) + (";" + c)
    ensures a + ";" + c == a + (";" + c)
  {
  }

  lemma {:induction false} JoinedIsJoinedRight(codes: seq<nat>)
    ensures Joined(codes) == JoinedRight(codes)
    decreases |codes|
  {
    hide Dec;
    if |codes| >= 2 {
      var front, last := codes[..|codes| - 1], codes[|codes| - 1];
      JoinedIsJoinedRight(front);
      JoinedRightMore(front, last);
      assert codes == front + [last];
    }
  }

  lemma {:induction false} ParseJoined(codes: seq<nat>, args: seq<int>)
    requires codes != [] && |args| + |codes| <= 10 && forall i :: 0 <= i < |codes| ==> codes[i] < 100
    ensures ParseArgs(JoinedRight(codes), "", args) == args + codes
    decreases |codes|
  {
    hide Dec, Atoi;
    var d := Dec(codes[0]);
    DecLength(codes[0]);
    AtoiDec(codes[0]);
    var rest := if |codes| == 1 then "" else ";" + JoinedRight(codes[1..]);
    assert JoinedRight(codes) == d + rest;
    ParseDigits(d, rest, "", args);
    assert "" + d == d;
    if |codes| > 1 {
      assert rest[1..] == JoinedRight(codes[1..]);
      ParseJoined(codes[1..], args + [codes[0]]);
      assert args + [codes[0]] + codes[1..] == args + codes;
    }
  }

  lemma {:induction false} ParsedCodes(codes: seq<nat>)
    requires GoodCodes(codes)
    ensures ParseArgs(Joined(codes), "", []) == codes
  {
    JoinedIsJoinedRight(codes);
    if codes != [] {
      ParseJoined(codes, []);
      assert [] + codes == codes;
    }
  }

  lemma CollectM(e: Env, t: Term, s: string, codes: seq<nat>)
    requires t.esc == [ESC, '['] + s && |t.esc| < 75 && ParseArgs(s, "", []) == codes && codes != []
    ensures Collect(e, t, 'm') == t.(esc := "", attr := SgrAll(t.attr, codes))
  {
    hide ParseArgs, SgrAll;
    var u := t.esc + ['m'];
    assert u[2..|u| - 1] == s;
  }

  /** From rest, an attribute string does its codes and nothing else. */
  lemma CollectAttrText(e: Env, t: Term, codes: seq<nat>)
    requires t.esc == "" && GoodCodes(codes)
    ensures CollectAll(e, t, AttrText(codes))
         == (if codes == [] then t else t.(mode := NoCode, attr := SgrAll(t.attr, codes)))
  {
    if codes != [] {
      hide SgrAll, ParseArgs, Joined, Collect;
      var body := Joined(codes);
      JoinedBody(codes);
      ParsedCodes(codes);
      var u := t.(mode := NoCode, esc := [ESC, '[']);
      StartSequence(e, t);
      CollectAllAppend(e, t, [ESC, '['], body + "m");
      CollectAllAppend(e, u, body, "m");
      assert AttrText(codes) == [ESC, '['] + (body + "m");
      CollectAllBody(e, u, body);
      var v := u.(esc := u.esc + body);
      CollectM(e, v, body, codes);
      assert CollectAll(e, v, "m") == Collect(e, v.(mode := NoCode), 'm');
    }
  }

  lemma StartSequence(e: Env, t: Term)
    requires t.esc == ""
    ensures CollectAll(e, t, [ESC, '[']) == t.(mode := NoCode, esc := [ESC, '['])
  {
    assert [ESC, '['][1..] == ['['];
    var u := t.(mode := NoCode, esc := [ESC]);
    assert CollectAll(e, t, [ESC, '[']) == CollectAll(e, u, ['[']) == Collect(e, u, '[');
    assert [ESC] + ['['] == [ESC, '['];
  }

  /** At most `n` codes, each of at most two digits. */
  ghost predicate Few(codes: seq<nat>, n: nat) {
    |codes| <= n && forall i :: 0 <= i < |codes| ==> codes[i] < 100
  }

  lemma FewWhen(b: bool, code: nat)
    requires code < 100
    ensures Few(When(b, [code]), 1)
  {
  }

  lemma FewReset(b: bool, fore: nat, back: nat)
    requires fore < 100 && back < 100
    ensures Few(When(b, [0, fore, back]), 3)
  {
  }

  lemma FewMore(a: seq<nat>, m: nat, b: seq<nat>, n: nat)
    requires Few(a, m) && Few(b, n)
    ensures Few(a + b, m + n)
  {
  }

  lemma FewAreGood(codes: seq<nat>)
    requires Few(codes, 7)
    ensures GoodCodes(codes) && |codes| <= 7
  {
  }

  lemma NoneAreFew()
    ensures Few([], 7)
  {
  }

  lemma CodesAreGood(attr: attribute, cur: attribute)
    ensures GoodCodes(Codes(attr, cur)) && |Codes(attr, cur)| <= 7
  {
    hide When, Few, GoodCodes, Foreground, Background, Compared;
    hide NeedsReset, ForegroundDiffers, BackgroundDiffers, BoldDiffers, BlinkDiffers;
    NoneAreFew();
    if attr != cur {
      var catr := Compared(attr, cur);
      var reset := When(NeedsReset(attr, cur), [0, Foreground(attr), Background(attr)]);
      var fore := When(ForegroundDiffers(attr, catr), [Foreground(attr)]);
      var back := When(BackgroundDiffers(attr, catr), [Background(attr)]);
      var bold, blink := When(BoldDiffers(attr, catr), [1]), When(BlinkDiffers(attr, catr), [5]);
      FewReset(NeedsReset(attr, cur), Foreground(attr), Background(attr));
      FewWhen(ForegroundDiffers(attr, catr), Foreground(attr));
      FewWhen(BackgroundDiffers(attr, catr), Background(attr));
      FewWhen(BoldDiffers(attr, catr), 1);
      FewWhen(BlinkDiffers(attr, catr), 5);
      FewMore(bold, 1, blink, 1);
      FewMore(back, 1, bold + blink, 2);
      FewMore(fore, 1, back + (bold + blink), 3);
      FewMore(reset, 3, fore + (back + (bold + blink)), 4);
    }
    FewAreGood(Codes(attr, cur));
  }

  /** Printing the string `makeansi` makes for the terminal's own attribute sets the attribute asked for (its low
      byte), and changes nothing else. */
  lemma MakeAnsiSets(e: Env, t: Term, attr: attribute)
    requires t.esc == "" && e.ansi
    ensures var u := CollectAll(e, t, MakeAnsi(e, attr, t.attr));
      && Low(u.attr) == Low(attr)
      && u == t.(attr := u.attr, mode := u.mode) && (u.mode == t.mode || u.mode == NoCode)
  {
    hide CollectAll, AttrText, SgrAll, Codes;
    var codes := Codes(attr, t.attr);
    CodesAreGood(attr, t.attr);
    CollectAttrText(e, t, codes);
    CodesLead(attr, t.attr);
    SgrOne(t.attr, 0);
  }

  // ----- strings without colour codes bypass bputch -----

  /** A character `bputch` hands on as it is, whatever is remembered for the end of the line. */
  predicate Passes(c: char) {
    c != CC && c != CO && c != '|' && c != SOFTRETURN
  }

  ghost predicate AllPass(s: string) {
    forall i :: 0 <= i < |s| ==> Passes(s[i])
  }

  lemma ExecuteRests(t: Term)
    ensures Execute(t).esc == "" && Execute(t).eol == t.eol && Execute(t).mode == t.mode
    ensures Execute(t).pipe0 == t.pipe0
  {
    hide SgrAll, ParseArgs, IsCursorCommand;
  }

  lemma CollectMode(e: Env, t: Term, c: char)
    ensures Collect(e, t, c).mode == t.mode && Collect(e, t, c).eol == t.eol && Collect(e, t, c).pipe0 == t.pipe0
  {
    hide Execute, Ends, Spaces;
    ExecuteRests(t.(esc := (if |t.esc| > 80 then "" else t.esc) + [c]));
  }

  lemma {:induction false} PutAllPasses(e: Env, t: Term, s: string)
    requires t.mode == NoCode && AllPass(s)
    ensures PutAll(e, t, s) == CollectAll(e, t, s)
    decreases |s|
  {
    hide Collect, PutCodes;
    if s != "" {
      assert Passes(s[0]);
      assert t.(mode := NoCode) == t;
      CollectMode(e, t, s[0]);
      assert Put(e, t, s[0]) == Collect(e, t, s[0]);
      PutAllPasses(e, Collect(e, t, s[0]), s[1..]);
    }
  }

  lemma AttrTextPasses(codes: seq<nat>)
    requires GoodCodes(codes)
    ensures AllPass(AttrText(codes))
  {
    hide Joined;
    JoinedBody(codes);
  }

  lemma {:induction false} PutAllAppend(e: Env, t: Term, a: string, b: string)
    ensures PutAll(e, t, a + b) == PutAll(e, PutAll(e, t, a), b)
    decreases |a|
  {
    hide Put;
    if a == "" {
      assert a + b == b;
    } else {
      assert (a + b)[1..] == a[1..] + b;
      PutAllAppend(e, Put(e, t, a[0]), a[1..], b);
    }
  }

  /** A character that is drawn as it is. */
  predicate Drawn(c: char) { Passes(c) && c != ESC && c != TAB }

  lemma DrawOne(e: Env, t: Term, c: char)
    requires t.mode == NoCode && t.esc == "" && Drawn(c)
    ensures Put(e, t, c) == t.(out := t.out + [Glyph(if e.echo then c else 'X', t.attr)])
  {
    hide Spaces, Ends, Execute, PutCodes;
    assert t.(mode := NoCode) == t;
  }

  // ----- a bar that is no colour code -----

  lemma LiteralText(e: Env, t: Term, p0: char, c: char)
    ensures PutEach(e, t, "|" + CString(p0, c))
         == (var u := PutSimple(e, t, '|');
             if p0 == '\0' then u
             else if c == '\0' then PutSimple(e, u, p0)
             else PutSimple(e, PutSimple(e, u, p0), c))
  {
    hide PutSimple;
    var u := PutSimple(e, t, '|');
    var s := CString(p0, c);
    assert ("|" + s)[1..] == s;
    assert PutEach(e, t, "|" + s) == PutEach(e, u, s);
    if s != "" {
      var v := PutSimple(e, u, p0);
      assert PutEach(e, u, s) == PutEach(e, v, s[1..]);
      if c != '\0' {
        assert s[1..] == [c];
        assert PutEach(e, v, [c]) == PutEach(e, PutSimple(e, v, c), []);
      }
    }
  }

  lemma BarIsDrawn(e: Env, t: Term)
    requires t.mode == LiteralPipe
    ensures Put(e, t, '|') == PutSimple(e, t, '|') && PutSimple(e, t, '|').mode == NoCode
  {
    hide Collect, PutCodes;
    CollectMode(e, t.(mode := NoCode), '|');
  }

  lemma {:induction false} CollectAllMode(e: Env, t: Term, s: string)
    ensures CollectAll(e, t, s).mode == (if s == "" then t.mode else NoCode) && CollectAll(e, t, s).eol == t.eol
    decreases |s|
  {
    hide Collect;
    if s != "" {
      CollectMode(e, t.(mode := NoCode), s[0]);
      CollectAllMode(e, Collect(e, t.(mode := NoCode), s[0]), s[1..]);
    }
  }

  lemma LeavesNoPipe(e: Env, t: Term, c: char)
    requires t.mode == NoCode
    ensures Put(e, t, c) == PutSimple(e, t, c)
    ensures PutSimple(e, t, c).mode != PipeCode && PutSimple(e, t, c).mode != MacroChar
  {
    hide Collect, CollectAll, PutCodes;
    CollectMode(e, t.(mode := NoCode), c);
    CollectAllMode(e, t, t.eol);
    CollectMode(e, CollectAll(e, t, t.eol).(eol := ""), c);
  }

  // ----- text with colour codes -----

  datatype Token = Char(c: char) | NewLine | Bar(p: char, q: char) | UserCode(c: char)

  predicate GoodToken(k: Token) {
    match k
    case Char(c) => Drawn(c)
    case NewLine => true
    case Bar(p, q) => Meaning(p, q) != Literally
    case UserCode(c) => ' ' <= c <= '~'
  }

  function TokenText(k: Token): string {
    match k
    case Char(c) => [c]
    case NewLine => [SOFTRETURN]
    case Bar(p, q) => ['|', p, q]
    case UserCode(c) => [CC, c]
  }

  function Text(ks: seq<Token>): string {
    if ks == [] then "" else TokenText(ks[0]) + Text(ks[1..])
  }

  datatype Pending = NoPending | BackFrom(cur: attribute)

  /** The meaning of coloured text without any escape sequence: the attribute in force, the change remembered for the
      end of the line, and what has been drawn. */
  datatype Page = Page(attr: attribute, pending: Pending, drawn: seq<Out>)

  function Draw(e: Env, p: Page, c: char): Page {
    p.(drawn := p.drawn + [Glyph(if e.echo then c else 'X', p.attr)])
  }

  function UseColor(e: Env, p: Page, n: int): Page {
    var c := UserColor(e, n);
    if c == p.attr then p
    else if e.ansi then p.(attr := c, pending := BackFrom(c))
    else p.(pending := NoPending)
  }

  /** One token folded into the page. */
  function Step(e: Env, p: Page, k: Token): Page {
    match k
    case Char(c) => Draw(e, p, c)
    case NewLine =>
      var q := match p.pending
        case NoPending => p
        case BackFrom(cur) => p.(attr := SgrAll(p.attr, Codes(UserColor(e, 0), cur)), pending := NoPending);
      Draw(e, q, SOFTRETURN)
    case UserCode(c) => UseColor(e, p, c as int - 48)
    case Bar(a, b) =>
      match Meaning(a, b)
      case ColorNumber(nc) => if e.ansi then p.(attr := Low(PipeAttr(p.attr, nc))) else p
      case UserNumber(n) => UseColor(e, p, n)
      case Literally => p
  }

  function StepAll(e: Env, p: Page, ks: seq<Token>): Page
    decreases |ks|
  {
    if ks == [] then p else StepAll(e, Step(e, p, ks[0]), ks[1..])
  }

  function PendingText(e: Env, p: Pending): string {
    match p
    case NoPending => ""
    case BackFrom(cur) => AttrText(Codes(UserColor(e, 0), cur))
  }

  predicate IsByte(a: attribute) { a & 0xff00 == 0 }

  /** The terminal is at rest and stands for the page. */
  ghost predicate Shows(e: Env, t: Term, p: Page) {
    && t.mode == NoCode && t.esc == "" && t.attr == p.attr && IsByte(t.attr) && t.out == p.drawn
    && t.eol == PendingText(e, p.pending) && (p.pending.BackFrom? ==> e.ansi)
  }

  lemma AfterIsByte(x: attribute, attr: attribute, cur: attribute)
    requires IsByte(x)
    ensures IsByte(SgrAll(x, Codes(attr, cur)))
  {
    hide SgrAll, Codes, IsByte, SetForeground, SetBackground, SetBold, SetBlink;
    hide NeedsReset, ForegroundDiffers, BackgroundDiffers, BoldDiffers, BlinkDiffers, Compared;
    CodesDo(x, attr, cur);
    if attr != cur {
      var catr := Compared(attr, cur);
      var x1 := if NeedsReset(attr, cur) then SetBackground(SetForeground(0x07, attr), attr) else x;
      PartsAreBytes(x, attr);
      PartsAreBytes(SetForeground(0x07, attr), attr);
      PartsAreBytes(0x07, attr);
      var x2 := if ForegroundDiffers(attr, catr) then SetForeground(x1, attr) else x1;
      PartsAreBytes(x1, attr);
      var x3 := if BackgroundDiffers(attr, catr) then SetBackground(x2, attr) else x2;
      PartsAreBytes(x2, attr);
      PartsAreBytes(x3, attr);
      PartsAreBytes(if BoldDiffers(attr, catr) then SetBold(x3) else x3, attr);
    }
  }

  lemma PartsAreBytes(x: attribute, attr: attribute)
    ensures IsByte(SetForeground(x, attr)) && IsByte(SetBackground(x, attr))
    ensures IsByte(x) ==> IsByte(SetBold(x)) && IsByte(SetBlink(x))
  {
  }

  lemma ByteIsLow(a: attribute)
    ensures IsByte(a) <==> Low(a) == a
    ensures IsByte(Low(a))
  {
  }

  lemma UserColorIsByte(e: Env, n: int)
    ensures IsByte(UserColor(e, n))
  {
  }

  /** Printing the change to `attr` from rest. */
  lemma ChangeTo(e: Env, t: Term, attr: attribute)
    requires t.esc == "" && t.mode == NoCode && IsByte(t.attr)
    ensures CollectAll(e, t, MakeAnsi(e, attr, t.attr)) == if e.ansi then t.(attr := Low(attr)) else t
  {
    hide Low, IsByte, AttrText, Codes, SgrAll;
    if e.ansi {
      hide CollectAll;
      MakeAnsiSets(e, t, attr);
      var u := CollectAll(e, t, MakeAnsi(e, attr, t.attr));
      CodesAreGood(attr, t.attr);
      CollectAttrText(e, t, Codes(attr, t.attr));
      AfterIsByte(t.attr, attr, t.attr);
      ByteIsLow(u.attr);
      SgrOne(t.attr, 0);
    }
  }

  lemma UseColorShows(e: Env, t: Term, p: Page, n: int)
    requires Shows(e, t, p)
    ensures Shows(e, SetColor(e, t, n), UseColor(e, p, n))
  {
    hide IsByte, CollectAll, Codes, AttrText, Low;
    UserColorIsByte(e, n);
    ByteIsLow(UserColor(e, n));
    ChangeTo(e, t, UserColor(e, n));
  }

  lemma EndLine(e: Env, t: Term, p: Page)
    requires Shows(e, t, p)
    ensures Shows(e, PutSimple(e, t, SOFTRETURN), Step(e, p, NewLine))
  {
    hide IsByte, Codes, AttrText, SgrAll, CollectAll, UserColor;
    match p.pending
    case NoPending =>
      assert t.(mode := NoCode) == t;
    case BackFrom(cur) =>
      var codes := Codes(UserColor(e, 0), cur);
      CodesAreGood(UserColor(e, 0), cur);
      CollectAttrText(e, t, codes);
      AfterIsByte(t.attr, UserColor(e, 0), cur);
      AttrTextEmpty(codes);
      if codes == [] {
        SgrOne(t.attr, 0);
        assert t.(mode := NoCode) == t;
      }
  }

  lemma AttrTextEmpty(codes: seq<nat>)
    ensures AttrText(codes) == "" <==> codes == []
  {
    hide Joined;
  }

  lemma PutTwo(e: Env, t: Term, a: char, b: char)
    ensures PutAll(e, t, [a, b]) == Put(e, Put(e, t, a), b)
  {
    hide Put;
    assert [a, b][1..] == [b];
    assert PutAll(e, Put(e, t, a), [b]) == Put(e, Put(e, t, a), b);
  }

  lemma PutThree(e: Env, t: Term, a: char, b: char, c: char)
    ensures PutAll(e, t, [a, b, c]) == Put(e, Put(e, Put(e, t, a), b), c)
  {
    hide Put;
    assert [a, b, c][1..] == [b, c];
    PutTwo(e, Put(e, t, a), b, c);
  }

  lemma BarShows(e: Env, t: Term, p: Page, a: char, b: char)
    requires Shows(e, t, p) && Meaning(a, b) != Literally
    ensures Shows(e, PutAll(e, t, ['|', a, b]), Step(e, p, Bar(a, b)))
  {
    hide PutAll, Collect, CollectAll, MakeAnsi, IsByte, Low, PipeAttr, SetColor, UseColor;
    PutThree(e, t, '|', a, b);
    assert a != '@';
    var u := t.(mode := PipeCode, pipe0 := a);
    assert Put(e, Put(e, t, '|'), a) == u;
    var v := u.(mode := NoCode);
    match Meaning(a, b)
    case ColorNumber(nc) =>
      ChangeTo(e, v, PipeAttr(v.attr, nc));
      ByteIsLow(PipeAttr(v.attr, nc));
    case UserNumber(n) =>
      assert Shows(e, v, p);
      UseColorShows(e, v, p, n);
  }

  lemma CharShows(e: Env, t: Term, p: Page, c: char)
    requires Shows(e, t, p) && Drawn(c)
    ensures Shows(e, PutAll(e, t, [c]), Step(e, p, Char(c)))
  {
    hide Put, IsByte, UserColor, PutAll;
    DrawOne(e, t, c);
    PutOne(e, t, c);
  }

  lemma NewLineShows(e: Env, t: Term, p: Page)
    requires Shows(e, t, p)
    ensures Shows(e, PutAll(e, t, [SOFTRETURN]), Step(e, p, NewLine))
  {
    hide PutSimple, Step, Shows, PutAll;
    EndLine(e, t, p);
    PutOne(e, t, SOFTRETURN);
    AtRest(e, t, p);
  }

  lemma UserCodeShows(e: Env, t: Term, p: Page, c: char)
    requires Shows(e, t, p) && ' ' <= c <= '~'
    ensures Shows(e, PutAll(e, t, [CC, c]), Step(e, p, UserCode(c)))
  {
    hide PutAll, IsByte, SetColor, UseColor, Collect, CollectAll;
    PutTwo(e, t, CC, c);
    assert Put(e, t, CC) == t.(mode := Heart);
    assert t.(mode := Heart).(mode := NoCode) == t;
    UseColorShows(e, t, p, c as int - 48);
  }

  lemma TokenShows(e: Env, t: Term, p: Page, k: Token)
    requires Shows(e, t, p) && GoodToken(k)
    ensures Shows(e, PutAll(e, t, TokenText(k)), Step(e, p, k))
  {
    hide PutAll, Step, Shows, Drawn, Meaning;
    match k
    case Char(c) => CharShows(e, t, p, c);
    case NewLine => NewLineShows(e, t, p);
    case Bar(a, b) => BarShows(e, t, p, a, b);
    case UserCode(c) => UserCodeShows(e, t, p, c);
  }

  lemma AtRest(e: Env, t: Term, p: Page)
    requires Shows(e, t, p)
    ensures t.mode == NoCode
  {
  }

  lemma PutOne(e: Env, t: Term, c: char)
    ensures PutAll(e, t, [c]) == Put(e, t, c)
  {
    hide Put;
    assert PutAll(e, Put(e, t, c), "") == Put(e, t, c);
  }

  /** Any text that mixes characters, line ends, bar codes and user colours shows exactly what folding its colours
      says: each character in the attribute then in force. */
  lemma {:induction false} TextShows(e: Env, t: Term, p: Page, ks: seq<Token>)
    requires Shows(e, t, p) && forall i :: 0 <= i < |ks| ==> GoodToken(ks[i])
    ensures Shows(e, PutAll(e, t, Text(ks)), StepAll(e, p, ks))
    decreases |ks|
  {
    hide Shows, PutAll, Step, TokenText, GoodToken;
    if ks == [] {
      PutNothing(e, t);
    } else {
      TokenShows(e, t, p, ks[0]);
      PutAllAppend(e, t, TokenText(ks[0]), Text(ks[1..]));
      TextShows(e, PutAll(e, t, TokenText(ks[0])), Step(e, p, ks[0]), ks[1..]);
    }
  }

  lemma PutNothing(e: Env, t: Term)
    ensures PutAll(e, t, "") == t
  {
  }

  /** The line end restores the user's first colour exactly when the remembered string starts with a reset or the
      bits it leaves alone have not been changed since it was made. */
  lemma LineEndRestores(e: Env, p: Page, cur: attribute)
    requires p.pending == BackFrom(cur)
    ensures Low(Step(e, p, NewLine).attr) == Low(UserColor(e, 0))
       <==> NeedsReset(UserColor(e, 0), cur) || Agrees(p.attr, UserColor(e, 0), cur)
  {
    hide Low, SgrAll, Codes, NeedsReset, Agrees, UserColor;
    StaleCodesLead(p.attr, UserColor(e, 0), cur);
  }

  /** A user whose first colour is grey on black, and all others green. */
  function GreenUser(column: seq<Out> -> nat, macro: char -> string): Env {
    Env(true, true, column, macro, (n: int) => if n == 0 then 0x07 else 0x02)
  }

  /** A line that does not: user colour 7, then blue behind it with a bar code. The string remembered for the end of the
      line changes green back to grey and leaves the blue. */
  lemma BlueStays(e: Env, t: Term)
    requires e == GreenUser(e.column, e.macro)
    requires t.mode == NoCode && t.esc == "" && t.eol == "" && t.attr == UserColor(e, 0)
    ensures var u := PutAll(e, t, Text([UserCode('7'), Bar('1', '7'), NewLine]));
      u.attr == 0x17 && u.eol == "" && Low(u.attr) != Low(UserColor(e, 0))
  {
    hide PutAll;
    var ks := [UserCode('7'), Bar('1', '7'), NewLine];
    var p := Page(0x07, NoPending, t.out);
    Seventeen();
    TextShows(e, t, p, ks);
    BlueLine(e, p);
  }

  lemma Seventeen()
    ensures Meaning('1', '7') == ColorNumber(17) && PipeAttr(0x02, 17) == 0x112 && Low(0x112) == 0x12
  {
    AtoiDec(17);
    assert Dec(1) == ['1'] && Dec(17) == Dec(1) + ['7'] == ['1', '7'];
  }

  lemma BlueLine(e: Env, p: Page)
    requires e == GreenUser(e.column, e.macro) && p.attr == 0x07 && p.pending == NoPending
    ensures var q := StepAll(e, p, [UserCode('7'), Bar('1', '7'), NewLine]);
      q.attr == 0x17 && q.pending == NoPending
  {
    hide Codes, Meaning, SgrAll, PipeAttr;
    var ks := [UserCode('7'), Bar('1', '7'), NewLine];
    Seventeen();
    GreyCodes();
    var p1, p2 := Step(e, p, ks[0]), Step(e, Step(e, p, ks[0]), ks[1]);
    assert p1.attr == 0x02 && p1.pending == BackFrom(0x02);
    assert p2.attr == 0x12 && p2.pending == BackFrom(0x02);
    var p3 := Step(e, p2, ks[2]);
    assert p3.attr == 0x17;
    assert ks[1..] == [ks[1], ks[2]] && [ks[1], ks[2]][1..] == [ks[2]] && [ks[2]][1..] == [];
    assert StepAll(e, p2, [ks[2]]) == StepAll(e, p3, []) == p3;
    assert StepAll(e, p1, [ks[1], ks[2]]) == StepAll(e, p2, [ks[2]]);
  }

  lemma GreyCodes()
    ensures SgrAll(0x12, Codes(0x07, 0x02)) == 0x17
  {
    assert Codes(0x07, 0x02) == [37];
    SgrOne(0x12, 37);
  }
}
