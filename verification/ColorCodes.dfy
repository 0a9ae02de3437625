/** What each code does that `bputch` and `execute_ansi` (`bbs/bputch.cpp`) take from a text: on the bits of the
    attribute and on what is drawn, without the functions the machine is built from.
 */
module ColorCodes {
  import opened NumText
  import opened Attributes
  import opened Ansi
  import opened SavedLine

  predicate Rests(t: Term) { t.mode == NoCode && t.esc == "" }

  // ----- the colour numbers of a bar -----

  /** The two characters after a bar stand for colour number `n`. */
  predicate StandsFor(p: char, q: char, n: nat) {
    || (IsDigit(p) && IsDigit(q) && n == 10 * DigitOf(p) + DigitOf(q))
    || (IsDigit(p) && q == ' ' && n == DigitOf(p))
    || (p == ' ' && IsDigit(q) && n == DigitOf(q))
    || ((p == 'b' || p == 'B') && n == 16 + (if IsDigit(q) then DigitOf(q) else 0))
  }

  lemma AtoiOne(q: char)
    ensures Atoi([q]) == if IsDigit(q) then DigitOf(q) else 0
  {
    assert [q][1..] == [];
    assert Digits([], 0) == 0;
    if IsDigit(q) {
      assert Digits([q], 0) == Digits([], DigitOf(q)) == DigitOf(q);
    }
  }

  lemma AtoiTwo(p: char, q: char)
    requires IsDigit(p)
    ensures Atoi([p, q]) == if IsDigit(q) then 10 * DigitOf(p) + DigitOf(q) else DigitOf(p)
  {
    var s := [p, q];
    assert s[1..] == [q] && [q][1..] == [];
    assert Digits(s, 0) == Digits([q], DigitOf(p));
    assert IsDigit(q) ==> Digits([q], DigitOf(p)) == Digits([], 10 * DigitOf(p) + DigitOf(q));
  }

  lemma MeaningIs(p: char, q: char, n: nat)
    requires StandsFor(p, q, n)
    ensures Meaning(p, q) == if n < 32 then ColorNumber(n) else Literally
  {
    hide Atoi;
    AtoiOne(q);
    if IsDigit(p) { AtoiTwo(p, q); }
  }

  lemma NoMeaning(p: char, q: char)
    requires p != '#' && forall n: nat | n < 32 :: !StandsFor(p, q, n)
    ensures Meaning(p, q) == Literally
  {
    hide Atoi;
    AtoiOne(q);
    if IsDigit(p) { AtoiTwo(p, q); }
    var m := Meaning(p, q);
    assert m.ColorNumber? ==> StandsFor(p, q, m.nc);
  }

  lemma SmallWord(n: nat)
    requires n < 16
    ensures n as bv16 <= 15
  {
  }

  lemma LowNibble(x: attribute, cur: attribute, b: attribute)
    requires b <= 15 && Low(x) == Low((cur & 0xf0) | b)
    ensures x & 0x0f == b && x & 0xf0 == cur & 0xf0
  {
  }

  lemma HighNibble(x: attribute, cur: attribute, b: attribute)
    requires b <= 15 && Low(x) == Low((cur & 0x0f) | ((b + 16) << 4))
    ensures x & 0x0f == cur & 0x0f && (x & 0xf0) >> 4 == b
  {
  }

  lemma Sixteen(n: nat)
    requires 16 <= n < 32
    ensures n as bv16 == ((n - 16) as bv16) + 16
  {
  }

  /** Attribute `x` is `cur` in colour number `n`: a number below 16 is the colour of the characters, and what is behind
      them is kept; from 16 to 31 what is behind them has the number less 16, and they keep theirs. */
  predicate InColor(cur: attribute, x: attribute, n: nat)
    requires n < 32
  {
    && (n < 16 ==> x & 0x0f == n as bv16 && x & 0xf0 == cur & 0xf0)
    && (n >= 16 ==> x & 0x0f == cur & 0x0f && (x & 0xf0) >> 4 == (n - 16) as bv16)
  }

  lemma PipeNibbles(cur: attribute, x: attribute, n: nat)
    requires n < 32 && Low(x) == Low(PipeAttr(cur, n))
    ensures InColor(cur, x, n)
  {
    hide Low;
    if n < 16 {
      SmallWord(n);
      LowNibble(x, cur, n as bv16);
    } else {
      Sixteen(n);
      SmallWord(n - 16);
      HighNibble(x, cur, (n - 16) as bv16);
    }
  }

  /** A bar with two characters that stand for a colour number sets that colour and draws nothing. */
  lemma BarColors(e: Env, t: Term, p: char, q: char, n: nat)
    requires Rests(t) && e.ansi && StandsFor(p, q, n) && n < 32
    ensures var u := PutAll(e, t, ['|', p, q]);
      u == t.(attr := u.attr, pipe0 := p) && InColor(t.attr, u.attr, n)
  {
    hide PutAll, CollectAll, MakeAnsi, Meaning, StandsFor, Low, ChangedTo, PipeAttr, InColor;
    MeaningIs(p, q, n);
    BarNumber(p, q, n);
    var v := t.(pipe0 := p);
    ColorPut(e, t, p, q, n);
    ChangeCollected(e, v, PipeAttr(v.attr, n));
    MakeAnsiSets(e, v, PipeAttr(v.attr, n));
    PipeNibbles(t.attr, PutAll(e, t, ['|', p, q]).attr, n);
  }

  lemma BarNumber(p: char, q: char, n: nat)
    requires StandsFor(p, q, n)
    ensures p != '@' && p != '#' && p != '\0'
  {
  }

  lemma ColorPut(e: Env, t: Term, p: char, q: char, n: nat)
    requires Rests(t) && p != '@' && n < 32 && Meaning(p, q) == ColorNumber(n)
    ensures var v := t.(pipe0 := p);
      PutAll(e, t, ['|', p, q]) == CollectAll(e, v, MakeAnsi(e, PipeAttr(v.attr, n), v.attr))
  {
    hide PutAll, CollectAll, MakeAnsi, Meaning, PipeAttr, SetColor;
    PutThree(e, t, '|', p, q);
    TwoFed(e, t, p);
    assert t.(mode := PipeCode, pipe0 := p).(mode := NoCode) == t.(pipe0 := p);
  }

  /** Without ANSI a bar with a colour number changes nothing. */
  lemma BarWithoutAnsi(e: Env, t: Term, p: char, q: char, n: nat)
    requires Rests(t) && !e.ansi && StandsFor(p, q, n) && n < 32
    ensures PutAll(e, t, ['|', p, q]) == t.(pipe0 := p)
  {
    hide PutAll, Meaning, StandsFor, PipeAttr;
    MeaningIs(p, q, n);
    BarNumber(p, q, n);
    ColorPut(e, t, p, q, n);
  }

  /** Every other bar is drawn as it is, and its two characters are read again; if they are no codes themselves, they
      are drawn too. */
  lemma OtherBars(e: Env, t: Term, p: char, q: char)
    requires Rests(t) && p != '@' && p != '#' && p != '\0' && q != '\0'
    requires forall n: nat | n < 32 :: !StandsFor(p, q, n)
    ensures PutAll(e, t, ['|', p, q])
         == PutAll(e, t.(pipe0 := p, out := t.out + [Glyph(if e.echo then '|' else 'X', t.attr)]), [p, q])
    ensures Drawn(p) && Drawn(q) ==>
      PutAll(e, t, ['|', p, q]) == t.(pipe0 := p, out := t.out + Glyphs(e, t.attr, ['|', p, q]))
  {
    hide PutAll, Meaning, StandsFor, Collect, Drawn;
    NoMeaning(p, q);
    var s := ['|', p, q];
    BarAgain(e, t, s);
    assert s[1..] == [p, q];
    var v := t.(pipe0 := p, out := t.out + [Glyph(if e.echo then '|' else 'X', t.attr)]);
    BarCollected(e, t);
    if Drawn(p) && Drawn(q) {
      TextDraws(e, v, [p, q]);
      assert Glyphs(e, t.attr, s) == [Glyph(if e.echo then '|' else 'X', t.attr)] + Glyphs(e, t.attr, [p, q]);
    }
  }

  lemma BarCollected(e: Env, t: Term)
    requires Rests(t)
    ensures Collect(e, t, '|') == t.(out := t.out + [Glyph(if e.echo then '|' else 'X', t.attr)])
  {
    hide Execute, Ends, Spaces;
  }

  // ----- text that is drawn -----

  /** The characters as they are drawn in one attribute. */
  function Glyphs(e: Env, attr: attribute, s: string): (r: seq<Out>)
    ensures |r| == |s|
  {
    seq(|s|, i requires 0 <= i < |s| => Glyph(if e.echo then s[i] else 'X', attr))
  }

  lemma {:induction false} TextDraws(e: Env, t: Term, s: string)
    requires Rests(t) && forall i :: 0 <= i < |s| ==> Drawn(s[i])
    ensures PutAll(e, t, s) == t.(out := t.out + Glyphs(e, t.attr, s))
    decreases |s|
  {
    hide Put, Drawn;
    if s == "" {
      assert t.out + Glyphs(e, t.attr, s) == t.out;
    } else {
      var u := t.(out := t.out + [Glyph(if e.echo then s[0] else 'X', t.attr)]);
      DrawOne(e, t, s[0]);
      TextDraws(e, u, s[1..]);
      assert Glyphs(e, t.attr, s) == [Glyph(if e.echo then s[0] else 'X', t.attr)] + Glyphs(e, t.attr, s[1..]);
    }
  }

  // ----- user colours -----

  lemma {:induction false} CodesDraw(e: Env, t: Term, s: string)
    requires Rests(t) && forall i :: 0 <= i < |s| ==> Drawn(s[i])
    ensures PutCodes(e, t, s) == t.(out := t.out + Glyphs(e, t.attr, s))
    decreases |s|
  {
    hide Put, PutCode, Drawn;
    if s == "" {
      assert t.out + Glyphs(e, t.attr, s) == t.out;
    } else {
      var u := t.(out := t.out + [Glyph(if e.echo then s[0] else 'X', t.attr)]);
      DrawOne(e, t, s[0]);
      AtRestPut(e, t, s[0]);
      CodesDraw(e, u, s[1..]);
      assert Glyphs(e, t.attr, s) == [Glyph(if e.echo then s[0] else 'X', t.attr)] + Glyphs(e, t.attr, s[1..]);
    }
  }

  lemma AtRestPut(e: Env, t: Term, c: char)
    requires Rests(t)
    ensures Put(e, t, c) == PutCode(e, t, c)
  {
    hide PutCode, PutCodes;
  }

  /** A macro whose text is drawn characters draws exactly that text, whichever of the two codes starts it. */
  lemma MacroDraws(e: Env, t: Term, c: char)
    requires Rests(t) && forall i :: 0 <= i < |e.macro(c)| ==> Drawn(e.macro(c)[i])
    ensures PutAll(e, t, ['|', '@', c]) == t.(out := t.out + Glyphs(e, t.attr, e.macro(c)))
    ensures PutAll(e, t, [CO, CO, c]) == t.(out := t.out + Glyphs(e, t.attr, e.macro(c)))
  {
    hide PutAll, Collect, CollectAll, PutCodes, Drawn, Meaning, SetColor;
    CodesDraw(e, t, e.macro(c));
    PutThree(e, t, '|', '@', c);
    PutThree(e, t, CO, CO, c);
    var u := t.(mode := MacroChar);
    assert u.(mode := NoCode) == t;
    assert Put(e, u, c) == PutCodes(e, t, e.macro(c));
    TwoFed(e, t, '@');
    assert Put(e, Put(e, t, CO), CO) == u;
  }

  /** The terminal after a change to user colour `n`: in that colour, with a string for the end of the line that leads
      back to user colour 0; or as it was, if it had that colour. */
  ghost predicate InUserColor(e: Env, t: Term, u: Term, n: int) {
    if e.palette(n) as bv16 == t.attr then u == t
    else if e.ansi then
      && u == t.(attr := u.attr, eol := u.eol) && u.attr & 0xff == e.palette(n) as bv16
      && CollectAll(e, u, u.eol).attr & 0xff == e.palette(0) as bv16
      && CollectAll(e, u, u.eol).out == u.out
    else u == t.(eol := "")
  }

  lemma SetColorDoes(e: Env, t: Term, n: int)
    requires Rests(t)
    ensures InUserColor(e, t, SetColor(e, t, n), n)
  {
    hide CollectAll, MakeAnsi, ChangedTo;
    var c := UserColor(e, n);
    UserColorIsByte(e, n);
    UserColorIsByte(e, 0);
    if c != t.attr && e.ansi {
      ChangeCollected(e, t, c);
      MakeAnsiSets(e, t, c);
      var u := t.(attr := ChangedTo(e, c, t.attr));
      ChangeCollected(e, u, UserColor(e, 0));
      MakeAnsiSets(e, u, UserColor(e, 0));
      var v := SetColor(e, t, n);
      CollectEol(e, u, v.eol);
    } else if c != t.attr {
      NoAnsi(e, t, c);
    }
  }

  lemma NoAnsi(e: Env, t: Term, attr: attribute)
    requires !e.ansi
    ensures CollectAll(e, t, MakeAnsi(e, attr, t.attr)) == t && forall cur :: MakeAnsi(e, attr, cur) == ""
    ensures MakeAnsi(e, UserColor(e, 0), t.attr) == ""
  {
  }

  /** The collector does not look at what is remembered for the end of the line. */
  lemma {:induction false} CollectEol(e: Env, t: Term, s: string)
    ensures CollectAll(e, t.(eol := s), s).attr == CollectAll(e, t, s).attr
    ensures CollectAll(e, t.(eol := s), s).out == CollectAll(e, t, s).out
  {
    CollectsWithEol(e, t, s, s);
  }

  lemma {:induction false} CollectsWithEol(e: Env, t: Term, eol: string, s: string)
    ensures CollectAll(e, t.(eol := eol), s) == CollectAll(e, t, s).(eol := eol)
    decreases |s|
  {
    hide Collect;
    if s != "" {
      CollectWithEol(e, t.(mode := NoCode), eol, s[0]);
      CollectsWithEol(e, Collect(e, t.(mode := NoCode), s[0]), eol, s[1..]);
    }
  }

  lemma ExecuteWithEol(t: Term, eol: string)
    ensures Execute(t.(eol := eol)) == Execute(t).(eol := eol)
  {
    hide SgrAll, ParseArgs, IsCursorCommand, Arg;
  }

  lemma CollectWithEol(e: Env, t: Term, eol: string, c: char)
    ensures Collect(e, t.(eol := eol), c) == Collect(e, t, c).(eol := eol)
  {
    hide Execute, Ends, Spaces;
    if t.esc != "" {
      var s := (if |t.esc| > 80 then "" else t.esc) + [c];
      var u := t.(esc := s);
      ExecuteWithEol(u, eol);
      assert t.(eol := eol).(esc := s) == u.(eol := eol);
      assert Collect(e, t, c) == if Ends(s) then Execute(u) else u;
      assert Collect(e, t.(eol := eol), c) == if Ends(s) then Execute(u.(eol := eol)) else u.(eol := eol);
    }
  }

  /** A bar with a number sign and a digit is the user's colour of that number; with any other character it is colour
      0. */
  lemma BarUserColor(e: Env, t: Term, q: char)
    requires Rests(t)
    ensures var n := if IsDigit(q) then DigitOf(q) else 0;
      InUserColor(e, t.(pipe0 := '#'), PutAll(e, t, ['|', '#', q]), n)
  {
    hide PutAll, SetColor, InUserColor, CollectAll, MakeAnsi, Atoi;
    AtoiOne(q);
    PutThree(e, t, '|', '#', q);
    TwoFed(e, t, '#');
    assert t.(mode := PipeCode, pipe0 := '#').(mode := NoCode) == t.(pipe0 := '#');
    SetColorDoes(e, t.(pipe0 := '#'), if IsDigit(q) then DigitOf(q) else 0);
  }

  /** Control-C and a digit likewise; other printable characters are counted on from the digits, and the rest do
      nothing. */
  lemma HeartUserColor(e: Env, t: Term, c: char)
    requires Rests(t)
    ensures var u := PutAll(e, t, [CC, c]);
      && (IsDigit(c) ==> InUserColor(e, t, u, DigitOf(c)))
      && (' ' <= c <= '~' ==> InUserColor(e, t, u, c as int - '0' as int))
      && (!(' ' <= c <= '~') ==> u == t)
  {
    hide PutAll, SetColor, InUserColor, CollectAll, MakeAnsi, Collect;
    PutTwo(e, t, CC, c);
    assert Put(e, t, CC) == t.(mode := Heart);
    assert t.(mode := Heart).(mode := NoCode) == t;
    SetColorDoes(e, t, c as int - '0' as int);
  }

  // ----- escape sequences -----

  // The colour codes one by one.

  lemma SgrResets(cur: attribute)
    ensures Sgr(cur, 0) == 0x07 && Sgr(cur, 8) == 0
  {
  }

  lemma SgrBright(cur: attribute)
    ensures Sgr(cur, 1) & 0x08 == 0x08 && Sgr(cur, 1) & 0xfff7 == cur & 0xfff7
  {
  }

  lemma SgrBlinks(cur: attribute)
    ensures Sgr(cur, 5) & 0x80 == 0x80 && Sgr(cur, 5) & 0xff7f == cur & 0xff7f
  {
  }

  /** The two colours change places, and the bits for bright and blinking stay. */
  lemma SgrReverses(cur: attribute)
    ensures var x := Sgr(cur, 7);
      x & 0x07 == (cur >> 4) & 0x07 && (x >> 4) & 0x07 == cur & 0x07 && x & 0x88 == cur & 0x88
  {
  }

  lemma SgrIgnores(cur: attribute, code: int)
    requires code !in {0, 1, 5, 7, 8} && !(30 <= code <= 37) && !(40 <= code <= 47)
    ensures Sgr(cur, code) == cur
  {
  }

  /** The IBM colours in the order of the ANSI codes, and where each stands as bits. */
  const ANSI_ORDER := "04261537"

  lemma SgrColors(cur: attribute, i: nat)
    requires i < 8
    ensures var x := Sgr(cur, 30 + i); var y := Sgr(cur, 40 + i);
      && x & 0x07 == (ANSI_ORDER[i] as int - '0' as int) as bv16 && x & 0xf8 == cur & 0xf8
      && (y >> 4) & 0x07 == (ANSI_ORDER[i] as int - '0' as int) as bv16 && y & 0x8f == cur & 0x8f
  {
    var b: attribute := Bits3(Swap3(i));
    assert b <= 7 && b == (ANSI_ORDER[i] as int - '0' as int) as bv16;
    ColorBits(cur, b);
  }

  lemma ColorBits(cur: attribute, b: attribute)
    requires b <= 7
    ensures ((cur & 0xf8) | b) & 0x07 == b && ((cur & 0xf8) | b) & 0xf8 == cur & 0xf8
    ensures (((cur & 0x8f) | (b << 4)) >> 4) & 0x07 == b && ((cur & 0x8f) | (b << 4)) & 0x8f == cur & 0x8f
  {
  }

  /** A cursor or erase command with two numbers reaches the console with these numbers, a count of 0 as 1; no other
      letter but `m` does anything. */
  lemma CommandSent(e: Env, t: Term, x: nat, y: nat, cmd: char)
    requires Rests(t) && x < 100 && y < 100
    requires cmd != 'm' && ('A' <= cmd <= 'Z' || 'a' <= cmd <= 'z')
    ensures PutAll(e, t, [ESC, '['] + (Dec(x) + ";" + Dec(y) + [cmd]))
         == if cmd in ['f', 'H', 'A', 'B', 'C', 'D', 's', 'u', 'J', 'k', 'K'] then
              t.(out := t.out + [Command(cmd, if cmd in ['A', 'B', 'C', 'D'] && x == 0 then 1 else x, y)])
            else t
  {
    hide Collect, CollectAll, PutAll, ParseArgs, Dec, Joined;
    var codes: seq<nat> := [x, y];
    var body := Dec(x) + ";" + Dec(y);
    TwoJoined(x, y);
    JoinedBody(codes);
    ParsedCodes(codes);
    var s := [ESC, '['] + (body + [cmd]);
    var v := t.(esc := [ESC, '[']);
    StartSequence(e, t);
    CollectAllAppend(e, t, [ESC, '['], body + [cmd]);
    CollectAllAppend(e, v, body, [cmd]);
    CollectAllBody(e, v, body);
    var w := v.(esc := [ESC, '['] + body);
    CommandEnds(e, w, body, codes, cmd);
    CollectOnce(e, w, cmd);
    CommandPasses(s, body, cmd);
    PutAllPasses(e, t, s);
  }

  lemma TwoJoined(x: nat, y: nat)
    ensures Joined([x, y]) == Dec(x) + ";" + Dec(y)
  {
    hide Dec;
    assert [x, y][..1] == [x];
    assert Joined([x]) == Dec(x);
  }

  lemma CollectOnce(e: Env, t: Term, c: char)
    requires t.mode == NoCode
    ensures CollectAll(e, t, [c]) == Collect(e, t, c)
  {
    hide Collect;
    assert t.(mode := NoCode) == t;
    assert [c][1..] == "";
  }

  lemma CommandPasses(s: string, body: string, cmd: char)
    requires Body(body) && s == [ESC, '['] + (body + [cmd]) && ('A' <= cmd <= 'Z' || 'a' <= cmd <= 'z')
    ensures AllPass(s)
  {
  }

  lemma CommandEnds(e: Env, t: Term, body: string, args: seq<int>, cmd: char)
    requires t.esc == [ESC, '['] + body && |t.esc| < 75 && ParseArgs(body, "", []) == args && |args| == 2
    requires cmd != 'm' && ('A' <= cmd <= 'Z' || 'a' <= cmd <= 'z')
    ensures Collect(e, t, cmd)
         == if cmd in ['f', 'H', 'A', 'B', 'C', 'D', 's', 'u', 'J', 'k', 'K'] then
              t.(esc := "", out := t.out
                + [Command(cmd, if cmd in ['A', 'B', 'C', 'D'] && args[0] == 0 then 1 else args[0], args[1])])
            else t.(esc := "")
  {
    hide ParseArgs, SgrAll, Spaces;
    var u := t.esc + [cmd];
    assert u[2..|u| - 1] == body;
    assert Ends(u);
  }

  /** An escape and a character that is neither a bracket nor a question mark are dropped, and so is the sequence that
      switches off line wrapping. */
  lemma EscapesDropped(e: Env, t: Term, c: char)
    requires Rests(t)
    ensures Passes(c) && c != '[' && c != '?' ==> PutAll(e, t, [ESC, c]) == t
    ensures PutAll(e, t, [ESC, '[', '?', '7', 'h']) == t
  {
    hide PutAll, CollectAll, Collect, ParseArgs, SgrAll;
    CollectEscape(e, t);
    var u := t.(esc := [ESC]);
    if Passes(c) && c != '[' && c != '?' {
      CollectOther(e, u, c);
      CollectTwo(e, t, ESC, c);
      PutAllPasses(e, t, [ESC, c]);
    }
    var s := [ESC, '[', '?', '7', 'h'];
    StartSequence(e, t);
    var v := t.(esc := [ESC, '[']);
    CollectAllAppend(e, t, [ESC, '['], ['?', '7', 'h']);
    assert s == [ESC, '['] + ['?', '7', 'h'];
    WrapDropped(e, v);
    PutAllPasses(e, t, s);
  }

  lemma CollectEscape(e: Env, t: Term)
    requires Rests(t)
    ensures Collect(e, t, ESC) == t.(esc := [ESC])
  {
  }

  lemma CollectOther(e: Env, t: Term, c: char)
    requires t.esc == [ESC] && c != '[' && c != '?'
    ensures Collect(e, t, c) == t.(esc := "")
  {
    hide ParseArgs, SgrAll, Spaces;
    assert [ESC] + [c] == [ESC, c];
  }

  lemma CollectTwo(e: Env, t: Term, a: char, b: char)
    requires t.mode == NoCode
    ensures CollectAll(e, t, [a, b]) == Collect(e, Collect(e, t, a), b)
  {
    hide Collect;
    CollectMode(e, t, a);
    var u := Collect(e, t, a);
    assert t.(mode := NoCode) == t && u.(mode := NoCode) == u && [a, b][1..] == [b];
    assert CollectAll(e, t, [a, b]) == CollectAll(e, u, [b]);
    CollectOnce(e, u, b);
  }

  lemma WrapDropped(e: Env, t: Term)
    requires t.mode == NoCode && t.esc == [ESC, '[']
    ensures CollectAll(e, t, ['?', '7', 'h']) == t.(esc := "")
  {
    hide ParseArgs, SgrAll, Spaces, CollectAll, Execute;
    var t1, t2 := t.(esc := [ESC, '[', '?']), t.(esc := [ESC, '[', '?', '7']);
    assert [ESC, '['] + ['?'] == t1.esc && t1.esc + ['7'] == t2.esc;
    assert Collect(e, t, '?') == t1 && Collect(e, t1, '7') == t2;
    var u := t2.(esc := t2.esc + ['h']);
    assert Collect(e, t2, 'h') == Execute(u);
    UnknownCommand(u);
    assert ['?', '7', 'h'] == ['?', '7'] + ['h'];
    CollectAllAppend(e, t, ['?', '7'], ['h']);
    CollectTwo(e, t, '?', '7');
    CollectOnce(e, t2, 'h');
  }

  lemma UnknownCommand(t: Term)
    requires |t.esc| >= 3 && t.esc[|t.esc| - 1] == 'h'
    ensures Execute(t) == t.(esc := "")
  {
    hide ParseArgs, SgrAll;
  }

  predicate FillsTab(column: nat, k: nat) { 1 <= k <= 8 && (column + k) % 8 == 0 }

  /** A tab draws blanks up to the next column that is a multiple of eight, one at least. */
  lemma TabStops(e: Env, t: Term)
    requires Rests(t)
    ensures exists k: nat ::
      && FillsTab(e.column(t.out), k)
      && PutAll(e, t, [TAB]) == t.(out := t.out + Glyphs(e, t.attr, seq(k, _ => ' ')))
  {
    hide PutAll;
    var k: nat := 8 - e.column(t.out) % 8;
    PutOne(e, t, TAB);
    TabCollected(e, t);
    SpacesAre(e, t.attr, k);
    assert FillsTab(e.column(t.out), k);
  }

  lemma TabCollected(e: Env, t: Term)
    requires Rests(t)
    ensures Put(e, t, TAB) == t.(out := t.out + Spaces(e, t.attr, 8 - e.column(t.out) % 8))
  {
    hide Spaces, Execute, Ends, PutCodes;
    assert t.(mode := NoCode) == t;
  }

  lemma {:induction false} SpacesAre(e: Env, attr: attribute, n: nat)
    ensures Spaces(e, attr, n) == Glyphs(e, attr, seq(n, _ => ' '))
  {
    if n > 0 { SpacesAre(e, attr, n - 1); }
  }

  /** Control-O and any character but a second one are dropped. */
  lemma ControlODropped(e: Env, t: Term, c: char)
    requires Rests(t) && c != CO
    ensures PutAll(e, t, [CO, c]) == t
  {
    hide PutAll, Collect, CollectAll, SetColor;
    PutTwo(e, t, CO, c);
    assert Put(e, t, CO) == t.(mode := CtrlO);
    assert t.(mode := CtrlO).(mode := NoCode) == t;
  }

  // ----- escape sequences with other numbers of arguments -----

  lemma OneParsed(x: nat)
    requires x < 100
    ensures ParseArgs("", "", []) == [] && ParseArgs(Dec(x), "", []) == [x] && Joined([x]) == Dec(x)
    ensures Body(Dec(x)) && |Dec(x)| <= 2
  {
    hide ParseArgs, Dec;
    var none: seq<nat>, one: seq<nat> := [], [x];
    ParsedCodes(none);
    ParsedCodes(one);
    JoinedBody(one);
    DecLength(x);
  }

  /** A sequence without a number counts as 1 for a cursor movement, as 0 for the other commands, and resets the
      attribute; one with a single number has that number and 0. */
  lemma ShortCommands(e: Env, t: Term, x: nat, cmd: char)
    requires Rests(t) && x < 100 && cmd in ['f', 'H', 'A', 'B', 'C', 'D', 's', 'u', 'J', 'k', 'K']
    ensures PutAll(e, t, [ESC, '[', cmd])
         == t.(out := t.out + [Command(cmd, if cmd in ['A', 'B', 'C', 'D'] then 1 else 0, 0)])
    ensures PutAll(e, t, [ESC, '['] + (Dec(x) + [cmd]))
         == t.(out := t.out + [Command(cmd, if cmd in ['A', 'B', 'C', 'D'] && x == 0 then 1 else x, 0)])
    ensures PutAll(e, t, [ESC, '[', 'm']) == t.(attr := 0x07)
  {
    hide Collect, CollectAll, PutAll, ParseArgs, Dec, Joined, Body;
    OneParsed(x);
    EmptyBody();
    SequenceRead(e, t, "", cmd);
    SequenceRead(e, t, Dec(x), cmd);
    SequenceRead(e, t, "", 'm');
    assert [ESC, '['] + ("" + [cmd]) == [ESC, '[', cmd];
    assert [ESC, '['] + ("" + ['m']) == [ESC, '[', 'm'];
    ExecuteShort(t.(esc := [ESC, '['] + [cmd]), "", [], cmd);
    ExecuteShort(t.(esc := [ESC, '['] + (Dec(x) + [cmd])), Dec(x), [x], cmd);
    ExecuteReset(t.(esc := [ESC, '['] + ['m']));
    assert "" + [cmd] == [cmd] && "" + ['m'] == ['m'];
  }

  lemma EmptyBody()
    ensures Body("")
  {
  }

  /** A sequence is collected whole and then carried out. */
  lemma SequenceRead(e: Env, t: Term, body: string, cmd: char)
    requires Rests(t) && Body(body) && |body| < 70 && ('A' <= cmd <= 'Z' || 'a' <= cmd <= 'z')
    ensures PutAll(e, t, [ESC, '['] + (body + [cmd])) == Execute(t.(esc := [ESC, '['] + (body + [cmd])))
  {
    hide Collect, CollectAll, PutAll, Execute;
    var s := [ESC, '['] + (body + [cmd]);
    var v := t.(esc := [ESC, '[']);
    StartSequence(e, t);
    CollectAllAppend(e, t, [ESC, '['], body + [cmd]);
    CollectAllAppend(e, v, body, [cmd]);
    CollectAllBody(e, v, body);
    var w := v.(esc := [ESC, '['] + body);
    SequenceEnds(e, w, body, cmd);
    CollectOnce(e, w, cmd);
    assert ([ESC, '['] + body) + [cmd] == s;
    CommandPasses(s, body, cmd);
    PutAllPasses(e, t, s);
  }

  lemma SequenceEnds(e: Env, t: Term, body: string, cmd: char)
    requires t.esc == [ESC, '['] + body && |t.esc| < 75 && ('A' <= cmd <= 'Z' || 'a' <= cmd <= 'z')
    ensures Collect(e, t, cmd) == Execute(t.(esc := t.esc + [cmd]))
  {
    hide Execute, Spaces;
    assert Ends(t.esc + [cmd]);
  }

  lemma ExecuteShort(t: Term, body: string, args: seq<int>, cmd: char)
    requires t.esc == [ESC, '['] + (body + [cmd]) && ParseArgs(body, "", []) == args && |args| <= 1
    requires cmd in ['f', 'H', 'A', 'B', 'C', 'D', 's', 'u', 'J', 'k', 'K']
    ensures var x := if args == [] then 0 else args[0];
      Execute(t)
        == t.(esc := "", out := t.out + [Command(cmd, if cmd in ['A', 'B', 'C', 'D'] && x == 0 then 1 else x, 0)])
  {
    hide ParseArgs, SgrAll;
    assert t.esc[2..|t.esc| - 1] == body;
  }

  lemma ExecuteReset(t: Term)
    requires t.esc == [ESC, '['] + ['m']
    ensures Execute(t) == t.(esc := "", attr := 0x07)
  {
    hide Sgr;
    assert t.esc[2..|t.esc| - 1] == "";
    SgrOne(t.attr, 0);
    SgrResets(t.attr);
  }

  /** Of more than ten numbers the first ten are read. */
  lemma {:induction false} TenArguments(codes: seq<nat>, args: seq<int>)
    requires |args| < 10 && |args| + |codes| > 10 && forall i :: 0 <= i < |codes| ==> codes[i] < 100
    ensures ParseArgs(JoinedRight(codes), "", args) == args + codes[..10 - |args|]
    decreases |codes|
  {
    hide Atoi, Dec;
    var d := Dec(codes[0]);
    DecLength(codes[0]);
    AtoiDec(codes[0]);
    var rest := ";" + JoinedRight(codes[1..]);
    assert JoinedRight(codes) == d + rest;
    ParseDigits(d, rest, "", args);
    assert "" + d == d;
    assert rest[1..] == JoinedRight(codes[1..]);
    var more := args + [codes[0]];
    assert ParseArgs(rest, d, args) == ParseArgs(JoinedRight(codes[1..]), "", more);
    if |more| < 10 {
      TenArguments(codes[1..], more);
      assert more + codes[1..][..10 - |more|] == args + codes[..10 - |args|];
    } else {
      assert codes[..1] == [codes[0]];
    }
  }

  /** A number of ten digits or more ends the reading after its tenth. */
  lemma LongArgument(d: string, rest: string)
    requires |d| == 10 && forall i :: 0 <= i < |d| ==> IsDigit(d[i])
    ensures ParseArgs(d + rest, "", []) == [Atoi(d)]
  {
    hide Atoi;
    var front := d[..9];
    assert d + rest == front + ([d[9]] + rest);
    ParseDigits(front, [d[9]] + rest, "", []);
    assert "" + front == front && front + [d[9]] == d && ([d[9]] + rest)[1..] == rest;
    assert ParseArgs([d[9]] + rest, front, []) == ParseArgs(rest, d, []);
    assert [] + [Atoi(d)] == [Atoi(d)];
  }

  /** A null behind a bar ends what is printed back. */
  lemma NullBehindBar(e: Env, t: Term, p: char, q: char)
    requires Rests(t)
    ensures var drawn := t.out + [Glyph(if e.echo then '|' else 'X', t.attr)];
      && PutAll(e, t, ['|', '\0', q]) == t.(pipe0 := '\0', out := drawn)
      && (p != '@' && p != '#' && p != '\0' && (forall n: nat | n < 32 :: !StandsFor(p, '\0', n)) ==>
            PutAll(e, t, ['|', p, '\0']) == Put(e, t.(pipe0 := p, out := drawn), p))
  {
    hide PutAll, Meaning, StandsFor, PutSimple, PutEach, SetColor, CollectAll, Collect;
    NullIsLiteral(q);
    NullPrinted(e, t, '\0', q);
    if p != '@' && p != '#' && p != '\0' && forall n: nat | n < 32 :: !StandsFor(p, '\0', n) {
      NoMeaning(p, '\0');
      NullPrinted(e, t, p, '\0');
    }
  }

  lemma NullIsLiteral(q: char)
    ensures Meaning('\0', q) == Literally
  {
    hide Atoi;
  }

  lemma NullPrinted(e: Env, t: Term, p: char, q: char)
    requires Rests(t) && p != '@' && Meaning(p, q) == Literally && (p == '\0' || q == '\0')
    ensures var v := t.(pipe0 := p, out := t.out + [Glyph(if e.echo then '|' else 'X', t.attr)]);
      PutAll(e, t, ['|', p, q]) == if p == '\0' then v else Put(e, v, p)
  {
    hide PutAll, Meaning, PutSimple, PutEach, Collect;
    var u := t.(mode := LiteralPipe, pipe0 := p);
    var v := t.(pipe0 := p, out := t.out + [Glyph(if e.echo then '|' else 'X', t.attr)]);
    ThreeFed(e, t, p, q);
    LiteralText(e, u, p, q);
    BarDrawn(e, t, p);
    BarCollected(e, t);
    assert Collect(e, t, '|').(pipe0 := p) == v;
    LeavesNoPipe(e, v, p);
  }
}
