/** The code of `bputch`, `execute_ansi`, `makeansi` and `RestoreCurrentLine`, on the buffers it uses. Each method is
    proved against the function of `Ansi` that describes it, and every index into a buffer is shown to be inside it.
 */
module Terminal {
  import opened NumText
  import opened Attributes
  import opened Ansi
  import opened SavedLine

  /** What has been appended so far by `addto`. */
  function Opened(codes: seq<nat>): string {
    if codes == [] then "" else [ESC, '['] + Joined(codes)
  }

  /** `addto`. */
  method AddTo(ansiStr: string, num: nat, ghost codes: seq<nat>) returns (r: string)
    requires ansiStr == Opened(codes)
    ensures r == Opened(codes + [num])
  {
    OpenedMore(codes, num);
    r := ansiStr + (if ansiStr != "" then ";" else [ESC, '[']) + Dec(num);
  }

  lemma OpenedMore(codes: seq<nat>, num: nat)
    ensures Opened(codes + [num]) == Opened(codes) + (if Opened(codes) != "" then ";" else [ESC, '[']) + Dec(num)
  {
    hide Dec;
    var more := codes + [num];
    assert more[..|codes|] == codes && more[|codes|] == num;
    if codes == [] {
      assert Joined(more) == Dec(num);
    } else {
      assert Joined(more) == Joined(codes) + ";" + Dec(num);
      assert [ESC, '['] + (Joined(codes) + ";" + Dec(num)) == [ESC, '['] + Joined(codes) + ";" + Dec(num);
    }
  }

  lemma NothingOpened()
    ensures Opened([]) == ""
  {
  }

  lemma OpenedIs(codes: seq<nat>)
    ensures AttrText(codes) == if Opened(codes) == "" then "" else Opened(codes) + "m"
  {
    hide Joined;
  }

  lemma NoCodes(attr: attribute)
    ensures Codes(attr, attr) == []
  {
  }

  lemma Appended(codes: seq<nat>, b: bool, code: nat)
    ensures codes + When(b, [code]) == if b then codes + [code] else codes
  {
  }

  /** The codes from left to right, once the first group is known. */
  lemma CodesStart(attr: attribute, cur: attribute, catr: attribute, w: seq<nat>)
    requires attr != cur && catr == if NeedsReset(attr, cur) then attr & 0x77 else cur
    requires w == if NeedsReset(attr, cur) then [] + [0] + [Foreground(attr)] + [Background(attr)] else []
    ensures Codes(attr, cur)
         == w + When(ForegroundDiffers(attr, catr), [Foreground(attr)])
          + When(BackgroundDiffers(attr, catr), [Background(attr)])
          + When(BoldDiffers(attr, catr), [1]) + When(BlinkDiffers(attr, catr), [5])
  {
    hide Foreground, Background, NeedsReset, ForegroundDiffers, BackgroundDiffers, BoldDiffers, BlinkDiffers;
    assert catr == Compared(attr, cur);
    assert w == When(NeedsReset(attr, cur), [0, Foreground(attr), Background(attr)]);
    hide When;
    Reassociate(w, When(ForegroundDiffers(attr, catr), [Foreground(attr)]),
                When(BackgroundDiffers(attr, catr), [Background(attr)]),
                When(BoldDiffers(attr, catr), [1]), When(BlinkDiffers(attr, catr), [5]));
  }

  lemma Reassociate(a: seq<nat>, b: seq<nat>, c: seq<nat>, d: seq<nat>, e: seq<nat>)
    ensures a + b + c + d + e == a + (b + (c + (d + e)))
  {
  }

  /** A character that `bputch` hands on at once, whatever the colour state. */
  predicate Direct(c: char) { Passes(c) && c != TAB }

  ghost predicate AllDirect(s: string) {
    forall i :: 0 <= i < |s| ==> Direct(s[i])
  }

  lemma AttrTextDirect(codes: seq<nat>)
    requires GoodCodes(codes)
    ensures AllDirect(AttrText(codes))
  {
    hide Joined;
    JoinedBody(codes);
  }

  lemma MakeAnsiDirect(e: Env, attr: attribute, cur: attribute)
    ensures AllDirect(MakeAnsi(e, attr, cur))
  {
    hide AttrText, Codes;
    CodesAreGood(attr, cur);
    AttrTextDirect(Codes(attr, cur));
  }

  /** How deep `bputch` can call itself for character `c` in colour state `mode`. */
  function Rank(mode: Mode, c: char): nat {
    match mode
    case MacroChar => 5
    case PipeCode => 3
    case Heart => 2
    case NoCode => if c == SOFTRETURN || c == TAB then 1 else 0
    case LiteralPipe => if c == SOFTRETURN || c == TAB then 1 else 0
    case _ => 0
  }

  /** A C string that starts no macro itself: it has neither control-O nor a bar followed by an at-sign. */
  predicate Plain(text: string) {
    && (forall i :: 0 <= i < |text| ==> text[i] != CO && text[i] != '\0')
    && (forall i :: 0 < i < |text| ==> !(text[i - 1] == '|' && text[i] == '@'))
  }

  ghost predicate PlainMacros(e: Env) {
    forall c :: Plain(e.macro(c))
  }

  /** The colour state inside a macro's text, after character `last`. */
  predicate InText(mode: Mode, pipe0: char, last: char) {
    && mode != MacroChar && mode != CtrlO
    && (mode == AtMacro ==> last == '|')
    && (mode == PipeCode ==> pipe0 == last)
  }

  lemma StaysInText(e: Env, t: Term, last: char, c: char)
    requires InText(t.mode, t.pipe0, last) && last != CO && last != '\0' && c != CO && c != '\0'
    requires !(last == '|' && c == '@')
    ensures InText(PutCode(e, t, c).mode, PutCode(e, t, c).pipe0, c)
  {
    hide Collect, CollectAll, Meaning, MakeAnsi, PutSimple, PutEach;
    if t.mode != PipeCode {
      SimpleInText(e, t, last, c);
    } else {
      match Meaning(t.pipe0, c)
      case Literally =>
        var u := t.(mode := LiteralPipe);
        LiteralText(e, u, t.pipe0, c);
        BarIsDrawn(e, u);
        var v := PutSimple(e, u, '|');
        SimpleInText(e, v, '\U{01}', t.pipe0);
        SimpleInText(e, PutSimple(e, v, t.pipe0), t.pipe0, c);
      case UserNumber(n) =>
        CollectAllMode(e, t.(mode := NoCode), MakeAnsi(e, UserColor(e, n), t.attr));
      case ColorNumber(nc) =>
        CollectAllMode(e, t.(mode := NoCode), MakeAnsi(e, PipeAttr(t.attr, nc), t.attr));
    }
  }

  lemma SimpleInText(e: Env, t: Term, last: char, c: char)
    requires InText(t.mode, t.pipe0, last) && t.mode != PipeCode && c != CO && !(last == '|' && c == '@')
    ensures InText(PutSimple(e, t, c).mode, PutSimple(e, t, c).pipe0, c)
    ensures PutSimple(e, t, c).mode == PipeCode ==> t.mode == AtMacro
  {
    hide Collect, CollectAll, MakeAnsi;
    CollectMode(e, t.(mode := NoCode), c);
    CollectAllMode(e, t, t.eol);
    CollectMode(e, CollectAll(e, t, t.eol).(eol := ""), c);
    CollectAllMode(e, t.(mode := NoCode), MakeAnsi(e, UserColor(e, c as int - 48), t.attr));
  }

  /** One round of the argument loop. */
  lemma ParseStep(body: string, k: nat, temp: string, args: seq<int>)
    requires k < |body| && body[k] != '\0' && |args| < 10 && |temp| < 10
    ensures ParseArgs(body[k..], temp, args)
         == if body[k] == ';' then ParseArgs(body[k + 1..], "", args + [Atoi(temp)])
            else ParseArgs(body[k + 1..], temp + [body[k]], args)
  {
    hide Atoi;
    assert body[k..][0] == body[k] && body[k..][1..] == body[k + 1..];
  }

  lemma ParseEnds(body: string, k: nat, temp: string, args: seq<int>)
    requires k <= |body| && (k == |body| || body[k] == '\0' || |args| >= 10 || |temp| >= 10)
    ensures ParseArgs(body[k..], temp, args) == if temp != [] && |args| < 10 then args + [Atoi(temp)] else args
  {
    hide Atoi;
    assert k < |body| ==> body[k..][0] == body[k];
  }

  class Console {
    const env: Env
    var changeColor: Mode
    const pipeColor: array<char>
    const ansistr: array<char>
    var ansiptr: nat
    var curatr: attribute
    var endofline: string
    /** What the local console was told to show. */
    var out: seq<Out>

    ghost predicate Valid()
      reads this
    {
      && pipeColor.Length == 3 && ansistr.Length == 81 && pipeColor != ansistr
      && ansiptr <= 75 && AllDirect(endofline) && PlainMacros(env)
    }

    ghost function State(): Term
      requires Valid()
      reads this, pipeColor, ansistr
    {
      Term(changeColor, pipeColor[0], ansistr[..ansiptr], curatr, endofline, out)
    }

    constructor (env: Env)
      requires PlainMacros(env)
      ensures Valid() && this.env == env
      ensures fresh(pipeColor) && fresh(ansistr)
      ensures changeColor == NoCode && ansiptr == 0 && curatr == 0x07 && endofline == "" && out == []
    {
      this.env := env;
      changeColor := NoCode;
      pipeColor := new char[3](_ => '\0');
      ansistr := new char[81](_ => '\0');
      ansiptr, curatr, endofline, out := 0, 0x07, "", [];
    }

    /** `makeansi`. */
    method MakeAnsiString(attr: attribute, forceit: bool) returns (outBuffer: string)
      ensures outBuffer == if env.ansi || forceit then AttrText(Codes(attr, curatr)) else ""
    {
      hide Opened, Foreground, Background, NeedsReset, ForegroundDiffers, BackgroundDiffers, BoldDiffers, BlinkDiffers;
      hide Codes, When, AttrText;
      var catr := curatr;
      outBuffer := "";
      ghost var codes: seq<nat> := [];
      NothingOpened();
      if attr != catr {
        if NeedsReset(attr, catr) {
          outBuffer := AddTo(outBuffer, 0, []);
          outBuffer := AddTo(outBuffer, Foreground(attr), [] + [0]);
          outBuffer := AddTo(outBuffer, Background(attr), [] + [0] + [Foreground(attr)]);
          catr := attr & 0x77;
          codes := [] + [0] + [Foreground(attr)] + [Background(attr)];
        }
        CodesStart(attr, curatr, catr, codes);
        Appended(codes, ForegroundDiffers(attr, catr), Foreground(attr));
        if ForegroundDiffers(attr, catr) {
          outBuffer := AddTo(outBuffer, Foreground(attr), codes);
        }
        codes := codes + When(ForegroundDiffers(attr, catr), [Foreground(attr)]);
        Appended(codes, BackgroundDiffers(attr, catr), Background(attr));
        if BackgroundDiffers(attr, catr) {
          outBuffer := AddTo(outBuffer, Background(attr), codes);
        }
        codes := codes + When(BackgroundDiffers(attr, catr), [Background(attr)]);
        Appended(codes, BoldDiffers(attr, catr), 1);
        if BoldDiffers(attr, catr) {
          outBuffer := AddTo(outBuffer, 1, codes);
        }
        codes := codes + When(BoldDiffers(attr, catr), [1]);
        Appended(codes, BlinkDiffers(attr, catr), 5);
        if BlinkDiffers(attr, catr) {
          outBuffer := AddTo(outBuffer, 5, codes);
        }
        codes := codes + When(BlinkDiffers(attr, catr), [5]);
      } else {
        NoCodes(attr);
      }
      OpenedIs(codes);
      if outBuffer != "" {
        outBuffer := outBuffer + "m";
      }
      if !env.ansi && !forceit {
        outBuffer := "";
      }
    }

    /** The argument loop of `execute_ansi`, on its buffers of eleven entries. */
    method ReadArgs() returns (args: array<int>, argptr: nat)
      requires ansistr.Length == 81 && 3 <= ansiptr <= 80 && ansistr[ansiptr - 1] == '\0'
      ensures fresh(args) && args.Length == 11 && argptr <= 10
      ensures args[..argptr] == ParseArgs(ansistr[2..ansiptr - 1], "", [])
      ensures forall i :: argptr <= i < 11 ==> args[i] == 0
    {
      hide Atoi, ParseArgs;
      ghost var body := ansistr[2..ansiptr - 1];
      args := new int[11](_ => 0);
      var temp := new char[11](_ => '\0');
      var tempptr, ptr := 0, 2;
      argptr := 0;
      while ansistr[ptr] != '\0' && argptr < 10 && tempptr < 10
        invariant 2 <= ptr <= ansiptr - 1 && 0 <= argptr <= 10 && 0 <= tempptr <= 10
        invariant ParseArgs(body[ptr - 2..], temp[..tempptr], args[..argptr]) == ParseArgs(body, "", [])
        invariant forall i :: argptr <= i < 11 ==> args[i] == 0
        decreases ansiptr - ptr
      {
        ghost var soFar, word := args[..argptr], temp[..tempptr];
        ParseStep(body, ptr - 2, word, soFar);
        if ansistr[ptr] == ';' {
          args[argptr] := Atoi(temp[..tempptr]);
          tempptr := 0;
          argptr := argptr + 1;
          assert args[..argptr] == soFar + [Atoi(word)];
        } else {
          temp[tempptr] := ansistr[ptr];
          tempptr := tempptr + 1;
          assert temp[..tempptr] == word + [ansistr[ptr]];
        }
        ptr := ptr + 1;
      }
      ghost var soFar := args[..argptr];
      ParseEnds(body, ptr - 2, temp[..tempptr], soFar);
      if tempptr != 0 && argptr < 10 {
        args[argptr] := Atoi(temp[..tempptr]);
        argptr := argptr + 1;
        assert args[..argptr] == soFar + [Atoi(temp[..tempptr])];
      }
    }

    /** The loop of the `m` command. */
    method ApplyColors(args: array<int>, argptr: nat)
      requires argptr <= args.Length
      modifies this`curatr
      ensures curatr == SgrAll(old(curatr), args[..argptr])
    {
      hide Sgr;
      var count := 0;
      while count < argptr
        invariant 0 <= count <= argptr
        invariant SgrAll(curatr, args[count..argptr]) == SgrAll(old(curatr), args[..argptr])
      {
        assert args[count..argptr][0] == args[count] && args[count..argptr][1..] == args[count + 1..argptr];
        curatr := Sgr(curatr, args[count]);
        count := count + 1;
      }
    }

    /** `execute_ansi`. */
    method ExecuteAnsi()
      requires pipeColor.Length == 3 && ansistr.Length == 81 && pipeColor != ansistr
      requires 2 <= ansiptr <= 80 && (ansistr[1] == '[' ==> ansiptr >= 3)
      modifies this`ansiptr, this`curatr, this`out, ansistr
      ensures ansiptr == 0 && pipeColor[0] == old(pipeColor[0])
      ensures Term(changeColor, pipeColor[0], "", curatr, endofline, out)
           == Execute(old(Term(changeColor, pipeColor[0], ansistr[..ansiptr], curatr, endofline, out)))
    {
      hide SgrAll, ParseArgs, IsCursorCommand;
      if ansistr[1] != '[' {
        ansiptr := 0;
      } else {
        ghost var esc := ansistr[..ansiptr];
        var cmd := ansistr[ansiptr - 1];
        ansistr[ansiptr - 1] := '\0';
        assert ansistr[2..ansiptr - 1] == esc[2..|esc| - 1];
        var args, argptr := ReadArgs();
        ghost var parsed := args[..argptr];
        assert args[0] == Arg(parsed, 0) && args[1] == Arg(parsed, 1);
        if 'A' <= cmd <= 'D' && args[0] == 0 {
          args[0] := 1;
        }
        if cmd == 'm' {
          if argptr == 0 {
            argptr := 1;
            args[0] := 0;
          }
          assert args[..argptr] == if parsed == [] then [0] else parsed;
          ApplyColors(args, argptr);
        } else if IsCursorCommand(cmd) {
          out := out + [Command(cmd, args[0], args[1])];
        }
        ansiptr := 0;
      }
    }

    /** `bputch`. */
    method Bputch(c: char)
      requires Valid()
      modifies this`changeColor, this`ansiptr, this`curatr, this`endofline, this`out, pipeColor, ansistr
      ensures Valid() && State() == Put(env, old(State()), c)
      decreases Rank(changeColor, c), 1
    {
      hide MakeAnsi, PipeAttr, Meaning, CollectAll, Collect, PutCodes, PlainMacros;
      if changeColor == MacroChar {
        changeColor := NoCode;
        PutMacro(c);
      } else if changeColor == CtrlO {
        changeColor := if c == CO then MacroChar else NoCode;
      } else if changeColor == PipeCode {
        FinishPipe(c);
      } else if changeColor == AtMacro {
        if c == '@' {
          changeColor := MacroChar;
        } else {
          pipeColor[0] := c;
          changeColor := PipeCode;
        }
      } else if changeColor == Heart {
        changeColor := NoCode;
        if ' ' <= c <= '~' {
          Color(c as int - 48);
        }
      } else if c == CC {
        changeColor := Heart;
      } else if c == CO {
        changeColor := CtrlO;
      } else if c == '|' && changeColor != LiteralPipe {
        changeColor := AtMacro;
      } else {
        if c == SOFTRETURN && endofline != "" {
          PutDirect(endofline);
          endofline := "";
        } else if changeColor == LiteralPipe {
          changeColor := NoCode;
        }
        CollectOrDraw(c);
      }
    }

    /** `bputs` of a macro's text. */
    method PutMacro(c: char)
      requires Valid() && changeColor == NoCode
      modifies this`changeColor, this`ansiptr, this`curatr, this`endofline, this`out, pipeColor, ansistr
      ensures Valid() && State() == PutCodes(env, old(State()), env.macro(c))
      decreases 4, 0
    {
      hide PutCode;
      var text := env.macro(c);
      assert Plain(text);
      ghost var last := '\U{01}';
      var i := 0;
      while i < |text|
        invariant 0 <= i <= |text| && Valid()
        invariant InText(changeColor, pipeColor[0], last) && last != CO && last != '\0'
        invariant i < |text| ==> !(last == '|' && text[i] == '@')
        invariant PutCodes(env, State(), text[i..]) == PutCodes(env, old(State()), text)
      {
        StaysInText(env, State(), last, text[i]);
        assert text[i..][1..] == text[i + 1..];
        Bputch(text[i]);
        last := text[i];
        i := i + 1;
      }
    }

    /** The branch of `bputch` that has both characters of a pipe code. */
    method FinishPipe(c: char)
      requires Valid() && changeColor == PipeCode
      modifies this`changeColor, this`ansiptr, this`curatr, this`endofline, this`out, pipeColor, ansistr
      ensures Valid() && State() == Put(env, old(State()), c)
      decreases 2, 9
    {
      hide AttrText, Codes, PipeAttr, Meaning, CollectAll, Collect, PutCodes, PlainMacros;
      changeColor := NoCode;
      pipeColor[1] := c;
      pipeColor[2] := '\0';
      var p0 := pipeColor[0];
      var meaning := Meaning(p0, c);
      if meaning.UserNumber? {
        Color(meaning.n);
      } else if meaning.ColorNumber? {
        MakeAnsiDirect(env, PipeAttr(curatr, meaning.nc), curatr);
        var code := MakeAnsiString(PipeAttr(curatr, meaning.nc), false);
        PutDirect(code);
      } else {
        changeColor := LiteralPipe;
        ghost var t := State();
        LiteralText(env, t, p0, c);
        BarIsDrawn(env, t);
        Bputch('|');
        LeavesNoPipe(env, State(), p0);
        if p0 != '\0' {
          Bputch(p0);
          if c != '\0' {
            Bputch(c);
          }
        }
      }
    }

    /** `bout.Color`. */
    method Color(wwivColor: int)
      requires Valid() && changeColor == NoCode
      modifies this`changeColor, this`ansiptr, this`curatr, this`endofline, this`out, pipeColor, ansistr
      ensures Valid() && State() == SetColor(env, old(State()), wwivColor)
      decreases 1, 0
    {
      hide AttrText, Codes, CollectAll;
      var c := UserColor(env, wwivColor);
      if c == curatr {
        return;
      }
      SystemColor(c);
      var base := UserColor(env, 0);
      MakeAnsiDirect(env, base, curatr);
      endofline := MakeAnsiString(base, false);
    }

    /** `bout.SystemColor`. */
    method SystemColor(color: attribute)
      requires Valid() && (changeColor == NoCode || changeColor == LiteralPipe)
      modifies this`changeColor, this`ansiptr, this`curatr, this`endofline, this`out, pipeColor, ansistr
      ensures Valid() && State() == CollectAll(env, old(State()), MakeAnsi(env, color, old(curatr)))
      ensures changeColor == old(changeColor) || changeColor == NoCode
      decreases 0, 3
    {
      hide AttrText, Codes, CollectAll;
      MakeAnsiDirect(env, color, curatr);
      var szBuffer := MakeAnsiString(color, false);
      PutDirect(szBuffer);
    }

    /** `bputs` of a string whose characters go straight to the collector. */
    method PutDirect(text: string)
      requires Valid() && (changeColor == NoCode || changeColor == LiteralPipe) && AllDirect(text)
      modifies this`changeColor, this`ansiptr, this`curatr, this`endofline, this`out, pipeColor, ansistr
      ensures Valid() && State() == CollectAll(env, old(State()), text)
      ensures changeColor == (if text == "" then old(changeColor) else NoCode) && endofline == old(endofline)
      decreases 0, 2
    {
      hide Collect;
      var i := 0;
      while i < |text|
        invariant 0 <= i <= |text| && Valid()
        invariant changeColor == (if i == 0 then old(changeColor) else NoCode) && endofline == old(endofline)
        invariant CollectAll(env, State(), text[i..]) == CollectAll(env, old(State()), text)
      {
        assert Direct(text[i]);
        CollectMode(env, State().(mode := NoCode), text[i]);
        assert text[i..][1..] == text[i + 1..];
        Bputch(text[i]);
        i := i + 1;
      }
    }

    /** The end of `bputch`: collect an escape sequence or draw. */
    method CollectOrDraw(c: char)
      requires Valid()
      requires c == TAB ==> changeColor == NoCode
      modifies this`changeColor, this`ansiptr, this`curatr, this`endofline, this`out, pipeColor, ansistr
      ensures Valid() && State() == Collect(env, old(State()), c)
      decreases 0, if c == TAB then 3 else 0
    {
      hide Execute;
      if ansiptr != 0 {
        CollectOne(c);
      } else if c == ESC {
        ansistr[0] := ESC;
        ansiptr := 1;
        ansistr[ansiptr] := '\0';
      } else if c == TAB {
        Tab();
      } else {
        out := out + [Glyph(if env.echo then c else 'X', curatr)];
      }
    }

    /** Blanks up to the next multiple of eight columns. */
    method Tab()
      requires Valid() && changeColor == NoCode && ansiptr == 0
      modifies this`changeColor, this`ansiptr, this`curatr, this`endofline, this`out, pipeColor, ansistr
      ensures Valid()
      ensures State() == old(State()).(out := old(out) + Spaces(env, old(curatr), 8 - env.column(old(out)) % 8))
      decreases 0, 2
    {
      hide Put;
      var nScreenPos := env.column(out);
      var i := nScreenPos;
      while i < (nScreenPos / 8 + 1) * 8
        invariant nScreenPos <= i <= (nScreenPos / 8 + 1) * 8
        invariant Valid() && State() == old(State()).(out := old(out) + Spaces(env, old(curatr), i - nScreenPos))
      {
        DrawOne(env, State(), ' ');
        Bputch(' ');
        i := i + 1;
      }
    }

    /** One more character of an escape sequence. */
    method CollectOne(c: char)
      requires Valid() && ansiptr != 0
      modifies this`ansiptr, this`curatr, this`out, ansistr
      ensures Valid() && State() == Collect(env, old(State()), c)
    {
      hide Execute;
      if ansiptr > 80 {
        assert false;
      }
      ghost var esc := ansistr[..ansiptr];
      ansistr[ansiptr] := c;
      ansiptr := ansiptr + 1;
      ansistr[ansiptr] := '\0';
      assert ansistr[..ansiptr] == esc + [c];
      if ((c < '0' || c > '9') && c != '[' && c != ';') || ansistr[1] != '[' || ansiptr > 75 {
        // thedraw's ESC[?7h does not end here
        if !((ansiptr == 2 && c == '?') || (ansiptr == 3 && ansistr[2] == '?')) {
          ExecuteAnsi();
          ExecuteRests(old(State()).(esc := esc + [c]));
        }
      }
    }

    /** `bputs`. */
    method Bputs(text: string)
      requires Valid()
      modifies this`changeColor, this`ansiptr, this`curatr, this`endofline, this`out, pipeColor, ansistr
      ensures Valid() && State() == PutAll(env, old(State()), text)
    {
      hide Put;
      var i := 0;
      while i < |text|
        invariant 0 <= i <= |text| && Valid()
        invariant PutAll(env, State(), text[i..]) == PutAll(env, old(State()), text)
      {
        assert text[i..][1..] == text[i + 1..];
        Bputch(text[i]);
        i := i + 1;
      }
    }

    /** `bout.nl`, for one line. */
    method Nl()
      requires Valid()
      modifies this`changeColor, this`ansiptr, this`curatr, this`endofline, this`out, pipeColor, ansistr
      ensures Valid() && State() == NextLine(env, old(State()))
    {
      hide PutAll;
      if endofline != "" {
        Bputs(endofline);
        endofline := "";
      }
      Bputs("\r\n");
    }

    /** `bout.SystemColor` from any colour state, as the printing of a saved line calls it. */
    method PutColor(color: attribute)
      requires Valid()
      modifies this`changeColor, this`ansiptr, this`curatr, this`endofline, this`out, pipeColor, ansistr
      ensures Valid() && State() == PutAll(env, old(State()), MakeAnsi(env, color, old(curatr)))
    {
      hide PutAll, AttrText, Codes;
      var szBuffer := MakeAnsiString(color, false);
      Bputs(szBuffer);
    }

    /** `RestoreCurrentLine`: on a line of their own, the saved characters in their saved attributes, then the saved
        current attribute and line-end string. */
    method RestoreCurrentLine(cl: string, atr: seq<attribute>, xl: string, cc: attribute)
      requires Valid() && |atr| == |cl| && AllDirect(xl) && AllOnScreen(cl)
      requires changeColor == NoCode && ansiptr == 0
      modifies this`changeColor, this`ansiptr, this`curatr, this`endofline, this`out, pipeColor, ansistr
      ensures Valid() && endofline == xl
      ensures var start := if env.column(old(out)) != 0 then NextLine(env, old(State())) else old(State());
        State() == Restored(env, start, cl, atr, cc).(eol := xl)
      ensures var start := if env.column(old(out)) != 0 then NextLine(env, old(State())) else old(State());
        env.ansi && BarsLiteral(Fed(env, start.attr, cl, atr, cc)) ==>
          ShowsLine(env, start.out, out, cl, atr) && Low(curatr) == Low(cc) && changeColor == NoCode && ansiptr == 0
      ensures var start := if env.column(old(out)) != 0 then NextLine(env, old(State())) else old(State());
        env.ansi && env.echo && MacrosDrawNoBar(env) ==>
          (ShowsLine(env, start.out, out, cl, atr) <==> BarsLiteral(Fed(env, start.attr, cl, atr, cc)))
    {
      hide Put, PutAll, MakeAnsi, CollectAll, ShowsLine, NextLine, BarsLiteral, Fed, MacrosDrawNoBar, Low, Bars;
      DirectBars(endofline);
      DirectBars("");
      if env.column(out) != 0 {
        NextLineRests(env, State());
        Nl();
      }
      ghost var start := State();
      var i := 0;
      while i < |cl|
        invariant 0 <= i <= |cl| && Valid()
        invariant Restored(env, State(), cl[i..], atr[i..], cc) == Restored(env, start, cl, atr, cc)
      {
        PutColor(atr[i]);
        Bputch(cl[i]);
        assert cl[i..][1..] == cl[i + 1..] && atr[i..][1..] == atr[i + 1..];
        i := i + 1;
      }
      PutColor(cc);
      if env.ansi {
        LineReproduced(env, start, cl, atr, cc);
      }
      endofline := xl;
    }
  }

  lemma DirectBars(s: string)
    requires AllDirect(s)
    ensures Bars(s) == 0
  {
    NoBars(s);
  }

  /** `bout.nl`. */
  function NextLine(e: Env, t: Term): Term {
    PutAll(e, if t.eol == "" then t else PutAll(e, t, t.eol).(eol := ""), "\r\n")
  }

  /** A carriage return ends whatever escape sequence the line-end string may have left open. */
  lemma NextLineRests(e: Env, t: Term)
    requires t.mode == NoCode && AllDirect(t.eol) && |t.esc| <= 75
    ensures var u := NextLine(e, t);
      u.mode == NoCode && u.esc == "" && u.eol == ""
  {
    hide Put, PutAll;
    PutAllPasses(e, t, t.eol);
    CollectAllMode(e, t, t.eol);
    CollectAllBound(e, t, t.eol);
    var v := if t.eol == "" then t else PutAll(e, t, t.eol).(eol := "");
    PutTwo(e, v, '\r', '\n');
    ReturnRests(e, v);
    DrawFeed(e, Put(e, v, '\r'));
  }

  /** On a line with nothing remembered, a line break draws a carriage return and a line feed. */
  lemma NextLineDraws(e: Env, t: Term)
    requires t.mode == NoCode && t.esc == "" && t.eol == ""
    ensures var a := t.attr;
      NextLine(e, t)
        == t.(out := t.out + [Glyph(if e.echo then '\r' else 'X', a), Glyph(if e.echo then '\n' else 'X', a)])
  {
    hide PutAll, Put;
    PutTwo(e, t, '\r', '\n');
    DrawEnd(e, t, '\r');
    DrawEnd(e, t.(out := t.out + [Glyph(if e.echo then '\r' else 'X', t.attr)]), '\n');
  }

  lemma DrawEnd(e: Env, t: Term, c: char)
    requires t.mode == NoCode && t.esc == "" && t.eol == "" && (c == '\r' || c == '\n')
    ensures Put(e, t, c) == t.(out := t.out + [Glyph(if e.echo then c else 'X', t.attr)])
  {
    hide Execute, PutCodes, Spaces, Ends;
    assert t.(mode := NoCode) == t;
  }

  lemma ReturnRests(e: Env, t: Term)
    requires t.mode == NoCode && |t.esc| <= 75 && t.eol == ""
    ensures var u := Put(e, t, '\r');
      u.mode == NoCode && u.esc == "" && u.eol == ""
  {
    hide Execute, PutCodes;
    ExecuteRests(t.(esc := t.esc + ['\r']));
  }

  lemma DrawFeed(e: Env, t: Term)
    requires t.mode == NoCode && t.esc == "" && t.eol == ""
    ensures var u := Put(e, t, '\n');
      u.mode == NoCode && u.esc == "" && u.eol == ""
  {
    hide Execute, PutCodes;
  }
}
