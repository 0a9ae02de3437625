/** A saved line that is put back (`RestoreCurrentLine`, `bbs/com.cpp`): each character goes through `bputch` after a
    change to its own attribute. A bar on that line is a character to be drawn, but `bputch` takes it for the start of a
    colour code or a macro; the line comes back exactly when every bar turns out to start neither.
 */
module SavedLine {
  import opened NumText
  import opened Attributes
  import opened Ansi

  /** A character of a saved line. Those left out are never drawn by `bputch`; a bar is, when it starts no code. */
  predicate OnScreen(c: char) {
    c != CC && c != CO && c != SOFTRETURN && c != ESC && c != TAB && c != '\0'
  }

  ghost predicate AllOnScreen(s: string) {
    forall i :: 0 <= i < |s| ==> OnScreen(s[i])
  }

  /** `RestoreCurrentLine`: every character is printed after a change to its own attribute, and then the attribute is
      changed to the saved one. */
  function Restored(e: Env, t: Term, cl: string, atr: seq<attribute>, cc: attribute): Term
    requires |cl| == |atr|
    decreases |cl|
  {
    if cl == "" then PutAll(e, t, MakeAnsi(e, cc, t.attr))
    else Restored(e, Put(e, PutAll(e, t, MakeAnsi(e, atr[0], t.attr)), cl[0]), cl[1..], atr[1..], cc)
  }

  /** `out` is `before` and then the characters of the line, each in its own attribute. */
  ghost predicate ShowsLine(e: Env, before: seq<Out>, out: seq<Out>, cl: string, atr: seq<attribute>)
    requires |cl| == |atr|
  {
    && |out| == |before| + |cl| && out[..|before|] == before
    && forall i :: 0 <= i < |cl| ==> ShowsChar(e, out[|before| + i], cl[i], atr[i])
  }

  predicate ShowsChar(e: Env, o: Out, c: char, a: attribute) {
    o.Glyph? && o.ch == (if e.echo then c else 'X') && Low(o.attr) == Low(a)
  }

  // ----- the text that is fed to bputch -----

  /** The attribute after the change. */
  function ChangedTo(e: Env, attr: attribute, cur: attribute): attribute {
    if e.ansi then SgrAll(cur, Codes(attr, cur)) else cur
  }

  /** The characters with the attribute strings between them, from attribute `cur`. */
  function Fed(e: Env, cur: attribute, cl: string, atr: seq<attribute>, cc: attribute): string
    requires |cl| == |atr|
    decreases |cl|
  {
    if cl == "" then MakeAnsi(e, cc, cur)
    else (MakeAnsi(e, atr[0], cur) + [cl[0]]) + Fed(e, ChangedTo(e, atr[0], cur), cl[1..], atr[1..], cc)
  }

  /** The bar at `j` is followed by two characters that make no code with it. */
  predicate StaysLiteral(s: string, j: nat)
    requires j < |s|
  {
    j + 2 < |s| && s[j + 1] != '@' && Meaning(s[j + 1], s[j + 2]) == Literally
  }

  ghost predicate BarsLiteral(s: string) {
    forall j :: 0 <= j < |s| && s[j] == '|' ==> StaysLiteral(s, j)
  }

  /** So far as the text goes, the bar at `j` makes no code. */
  predicate MayStay(s: string, j: nat)
    requires j < |s|
  {
    (j + 1 < |s| ==> s[j + 1] != '@') && (j + 2 < |s| ==> Meaning(s[j + 1], s[j + 2]) == Literally)
  }

  ghost predicate NoneLost(s: string) {
    forall j :: 0 <= j < |s| && s[j] == '|' ==> MayStay(s, j)
  }

  lemma LiteralIsNotLost(s: string)
    ensures BarsLiteral(s) ==> NoneLost(s)
    ensures NoneLost(s) && (forall j :: 0 <= j < |s| && s[j] == '|' ==> j + 2 < |s|) ==> BarsLiteral(s)
  {
    hide Meaning;
  }

  lemma LostBefore(a: string, b: string)
    requires NoneLost(a + b)
    ensures NoneLost(a)
  {
    hide Meaning;
    forall j | 0 <= j < |a| && a[j] == '|'
      ensures MayStay(a, j)
    {
      assert MayStay(a + b, j) && (a + b)[j] == '|';
    }
  }

  lemma LostBehind(a: string, b: string)
    requires NoneLost(a + b)
    ensures NoneLost(b)
  {
    hide Meaning;
    forall j | 0 <= j < |b| && b[j] == '|'
      ensures MayStay(b, j)
    {
      assert (a + b)[|a| + j] == '|' && MayStay(a + b, |a| + j);
    }
  }

  /** The bars in front of `j` have both their characters in `s`, so text behind `s` changes nothing for them. */
  lemma LostLater(s: string, j: nat, more: string)
    requires j <= |s| && NoneLost(s) && NoneLost(s[j..] + more)
    requires forall k :: 0 <= k < j && s[k] == '|' ==> k + 2 < |s|
    ensures NoneLost(s + more)
  {
    hide Meaning;
    var t := s + more;
    forall k | 0 <= k < |t| && t[k] == '|'
      ensures MayStay(t, k)
    {
      if k < j {
        assert s[k] == '|' && MayStay(s, k);
      } else {
        assert t[j..] == s[j..] + more;
        assert (s[j..] + more)[k - j] == '|' && MayStay(s[j..] + more, k - j);
      }
    }
  }

  // ----- text without codes -----

  ghost predicate Feedable(s: string) {
    forall i :: 0 <= i < |s| ==> s[i] != CC && s[i] != CO && s[i] != SOFTRETURN && s[i] != '\0'
  }

  /** An attribute string has no bar, and ends in an `m` behind other characters. */
  lemma AttrTextShape(e: Env, attr: attribute, cur: attribute)
    ensures var m := MakeAnsi(e, attr, cur);
      && Feedable(m) && (forall i :: 0 <= i < |m| ==> m[i] != '|')
      && (m != "" ==> |m| > 2 && m[|m| - 1] == 'm')
  {
    hide Codes, Joined;
    var codes := Codes(attr, cur);
    CodesAreGood(attr, cur);
    JoinedBody(codes);
    AttrTextPasses(codes);
  }

  lemma ExecutePipe(t: Term, x: char)
    ensures Execute(t.(pipe0 := x)) == Execute(t).(pipe0 := x)
  {
    hide SgrAll, ParseArgs, IsCursorCommand, Arg;
  }

  lemma CollectedPipe(e: Env, t: Term, x: char, c: char, s: string)
    requires t.esc != "" && s == (if |t.esc| > 80 then "" else t.esc) + [c]
    ensures Collect(e, t.(pipe0 := x), c) == Collect(e, t, c).(pipe0 := x)
  {
    hide Execute, Ends, Spaces;
    var u := t.(esc := s);
    ExecutePipe(u, x);
    assert t.(pipe0 := x).(esc := s) == u.(pipe0 := x);
    assert Collect(e, t, c) == if Ends(s) then Execute(u) else u;
    assert Collect(e, t.(pipe0 := x), c) == if Ends(s) then Execute(u.(pipe0 := x)) else u.(pipe0 := x);
  }

  lemma CollectPipe(e: Env, t: Term, x: char, c: char)
    ensures Collect(e, t.(pipe0 := x), c) == Collect(e, t, c).(pipe0 := x)
  {
    hide Execute, Ends, Spaces;
    if t.esc != "" {
      hide Collect;
      CollectedPipe(e, t, x, c, (if |t.esc| > 80 then "" else t.esc) + [c]);
    }
  }

  lemma {:induction false} CollectAllPipe(e: Env, t: Term, x: char, s: string)
    ensures CollectAll(e, t.(pipe0 := x), s) == CollectAll(e, t, s).(pipe0 := x)
    decreases |s|
  {
    hide Collect;
    if s != "" {
      CollectPipe(e, t.(mode := NoCode), x, s[0]);
      CollectAllPipe(e, Collect(e, t.(mode := NoCode), s[0]), x, s[1..]);
    }
  }

  /** A bar that makes no code is drawn, and its two characters are looked at again. */
  lemma BarAgain(e: Env, t: Term, s: string)
    requires t.mode == NoCode && |s| > 2 && s[0] == '|' && s[1] != '\0' && s[2] != '\0' && StaysLiteral(s, 0)
    ensures PutAll(e, t, s) == PutAll(e, Collect(e, t, '|').(pipe0 := s[1]), s[1..])
  {
    hide Collect, PutAll, Meaning, PutEach, PutSimple;
    var p, q := s[1], s[2];
    var u := t.(mode := LiteralPipe, pipe0 := p);
    var w := Collect(e, t, '|').(pipe0 := p);
    LiteralText(e, u, p, q);
    BarDrawn(e, t, p);
    LeavesNoPipe(e, w, p);
    ThreeFed(e, t, p, q);
    PutTwo(e, w, p, q);
    assert PutAll(e, t, ['|', p, q]) == PutAll(e, w, [p, q]);
    assert s == ['|', p, q] + s[3..] && s[1..] == [p, q] + s[3..];
    PutAllAppend(e, t, ['|', p, q], s[3..]);
    PutAllAppend(e, w, [p, q], s[3..]);
  }

  lemma BarDrawn(e: Env, t: Term, p: char)
    requires t.mode == NoCode
    ensures PutSimple(e, t.(mode := LiteralPipe, pipe0 := p), '|') == Collect(e, t, '|').(pipe0 := p)
    ensures Collect(e, t, '|').mode == NoCode
  {
    hide Collect;
    CollectMode(e, t, '|');
    CollectPipe(e, t, p, '|');
    assert t.(mode := LiteralPipe, pipe0 := p).(mode := NoCode) == t.(pipe0 := p);
  }

  lemma ThreeFed(e: Env, t: Term, p: char, q: char)
    requires t.mode == NoCode && p != '@' && Meaning(p, q) == Literally
    ensures PutAll(e, t, ['|', p, q]) == PutEach(e, t.(mode := LiteralPipe, pipe0 := p), "|" + CString(p, q))
  {
    hide PutAll, Collect, CollectAll, Meaning, PutEach;
    PutThree(e, t, '|', p, q);
    assert Put(e, Put(e, t, '|'), p) == t.(mode := PipeCode, pipe0 := p);
  }

  /** The start of the text up to the first bar that still waits for its characters goes to the collector as it is. */
  lemma {:induction false} Settle(e: Env, u: Term, s: string) returns (w: Term, j: nat)
    requires u.mode == NoCode && Feedable(s) && NoneLost(s)
    ensures j <= |s| && w.mode == NoCode && w == CollectAll(e, u, s[..j]).(pipe0 := w.pipe0)
    ensures PutAll(e, u, s) == PutAll(e, w, s[j..])
    ensures j == |s| || (s[j] == '|' && j + 2 >= |s|)
    ensures forall k :: 0 <= k < j && s[k] == '|' ==> k + 2 < |s|
    decreases |s|
  {
    hide Collect, CollectAll, PutAll, Meaning;
    if s == "" || (s[0] == '|' && |s| <= 2) {
      w, j := u, 0;
      assert s[..0] == "" && s[0..] == s;
      CollectsNothing(e, u);
    } else {
      var x := if s[0] == '|' then s[1] else u.pipe0;
      var v := Collect(e, u, s[0]).(pipe0 := x);
      LostTail(s);
      assert s[0] == '|' ==> MayStay(s, 0);
      CollectMode(e, u, s[0]);
      FirstFed(e, u, s, x);
      w, j := Settle(e, v, s[1..]);
      CollectsFirst(e, u, s, x, j);
      assert s[1..][j..] == s[j + 1..];
      j := j + 1;
      forall k | 0 <= k < j && s[k] == '|'
        ensures k + 2 < |s|
      {
        if k > 0 { assert s[1..][k - 1] == '|'; }
      }
    }
  }

  lemma CollectsNothing(e: Env, u: Term)
    ensures CollectAll(e, u, "") == u
  {
  }

  lemma LostTail(s: string)
    requires s != "" && NoneLost(s)
    ensures NoneLost(s[1..])
  {
    assert s == [s[0]] + s[1..];
    LostBehind([s[0]], s[1..]);
  }

  lemma FirstFed(e: Env, u: Term, s: string, x: char)
    requires u.mode == NoCode && s != "" && Feedable(s)
    requires s[0] == '|' ==> |s| > 2 && MayStay(s, 0) && x == s[1]
    requires s[0] != '|' ==> x == u.pipe0
    ensures PutAll(e, u, s) == PutAll(e, Collect(e, u, s[0]).(pipe0 := x), s[1..])
  {
    if s[0] == '|' {
      hide PutAll, Collect, Meaning;
      BarAgain(e, u, s);
    } else {
      hide Collect, CollectAll, Meaning;
      CollectMode(e, u, s[0]);
      assert u.(mode := NoCode) == u;
      assert Put(e, u, s[0]) == Collect(e, u, s[0]);
    }
  }

  lemma CollectsFirst(e: Env, u: Term, s: string, x: char, j: nat)
    requires u.mode == NoCode && j < |s|
    ensures var w := CollectAll(e, Collect(e, u, s[0]).(pipe0 := x), s[1..][..j]);
      CollectAll(e, u, s[..j + 1]) == w.(pipe0 := CollectAll(e, u, s[..j + 1]).pipe0)
  {
    hide Collect;
    var a := s[..j + 1];
    assert a[0] == s[0] && a[1..] == s[1..][..j];
    assert u.(mode := NoCode) == u;
    CollectAllPipe(e, Collect(e, u, s[0]), x, a[1..]);
  }

  // ----- from one character of the line to the next -----

  /** At rest, with the characters of a bar still waiting in `p`. */
  ghost predicate Waiting(u: Term, p: string) {
    u.mode == NoCode && u.esc == "" && AllOnScreen(p) && |p| <= 2 && (p != "" ==> p[0] == '|') && NoneLost(p)
  }

  lemma {:induction false} ScreenCollected(e: Env, u: Term, s: string)
    requires u.mode == NoCode && u.esc == "" && AllOnScreen(s)
    ensures CollectAll(e, u, s) == u.(out := CollectAll(e, u, s).out)
    decreases |s|
  {
    hide Spaces, Ends, Execute;
    if s != "" {
      assert OnScreen(s[0]);
      ScreenCollected(e, Collect(e, u.(mode := NoCode), s[0]), s[1..]);
    }
  }

  lemma ChangeCollected(e: Env, u: Term, attr: attribute)
    requires u.mode == NoCode && u.esc == ""
    ensures CollectAll(e, u, MakeAnsi(e, attr, u.attr)) == u.(attr := ChangedTo(e, attr, u.attr))
    ensures MakeAnsi(e, attr, u.attr) == "" ==> ChangedTo(e, attr, u.attr) == u.attr
  {
    hide CollectAll, AttrText, Codes, SgrAll;
    CodesAreGood(attr, u.attr);
    CollectAttrText(e, u, Codes(attr, u.attr));
    AttrTextEmpty(Codes(attr, u.attr));
    SgrOne(u.attr, 0);
    CollectsNothing(e, u);
  }

  /** Waiting characters leave the attribute as it is. */
  lemma WaitingAttr(e: Env, u: Term, p: string)
    requires Waiting(u, p)
    ensures PutAll(e, u, p).attr == u.attr && PutAll(e, u, p).out == u.out
  {
    hide Collect, CollectAll, Meaning;
    if |p| == 1 {
      PutOne(e, u, p[0]);
      assert p == [p[0]];
    } else if |p| == 2 {
      PutTwo(e, u, p[0], p[1]);
      assert p == [p[0], p[1]];
      assert MayStay(p, 0);
    }
  }

  lemma ChangeBehind(e: Env, u: Term, p: string, attr: attribute, tail: string)
    requires Waiting(u, p) && AllOnScreen(tail)
    ensures var w := CollectAll(e, u, (p + MakeAnsi(e, attr, u.attr)) + tail);
      w.mode == NoCode && w.esc == "" && w.attr == ChangedTo(e, attr, u.attr) && w.eol == u.eol
  {
    hide CollectAll, MakeAnsi, ChangedTo, NoneLost, AllOnScreen;
    var m := MakeAnsi(e, attr, u.attr);
    var v := CollectAll(e, u, p);
    ScreenCollected(e, u, p);
    ChangeCollected(e, v, attr);
    CollectAllAppend(e, u, p, m);
    CollectAllAppend(e, u, p + m, tail);
    ScreenCollected(e, v.(attr := ChangedTo(e, attr, u.attr)), tail);
  }

  /** What `Settle` leaves behind once the attribute string and a character of the line have been fed as well. */
  lemma SettledAttr(e: Env, u: Term, p: string, attr: attribute, c: char, j: nat)
    requires Waiting(u, p) && OnScreen(c)
    requires var s := p + (MakeAnsi(e, attr, u.attr) + [c]); j == |s| || (j < |s| && s[j] == '|' && j + 2 >= |s|)
    ensures var s := p + (MakeAnsi(e, attr, u.attr) + [c]); var w := CollectAll(e, u, s[..j]);
      && w.mode == NoCode && w.esc == "" && w.attr == ChangedTo(e, attr, u.attr) && w.eol == u.eol
      && AllOnScreen(s[j..])
  {
    hide CollectAll, MakeAnsi, NoneLost, ChangedTo, OnScreen;
    var m := MakeAnsi(e, attr, u.attr);
    var s := p + (m + [c]);
    AttrTextShape(e, attr, u.attr);
    if m == "" {
      ChangeCollected(e, u, attr);
      ScreenCollected(e, u, s[..j]);
    } else {
      assert s[|s| - 2] == 'm';
      var tail := if j == |s| then [c] else [];
      assert s[..j] == (p + m) + tail;
      ChangeBehind(e, u, p, attr, tail);
    }
  }

  lemma Advance(e: Env, u: Term, p: string, attr: attribute, c: char) returns (w: Term, j: nat)
    requires Waiting(u, p) && OnScreen(c) && NoneLost(p + (MakeAnsi(e, attr, u.attr) + [c]))
    ensures var s := p + (MakeAnsi(e, attr, u.attr) + [c]);
      && j <= |s| && Waiting(w, s[j..]) && PutAll(e, u, s) == PutAll(e, w, s[j..])
      && w == CollectAll(e, u, s[..j]).(pipe0 := w.pipe0)
      && w.attr == ChangedTo(e, attr, u.attr) && w.eol == u.eol
      && forall k :: 0 <= k < j && s[k] == '|' ==> k + 2 < |s|
  {
    hide CollectAll, PutAll, MakeAnsi, Meaning, NoneLost, ChangedTo;
    var s := p + (MakeAnsi(e, attr, u.attr) + [c]);
    AttrTextShape(e, attr, u.attr);
    w, j := Settle(e, u, s);
    SettledAttr(e, u, p, attr, c, j);
    assert s == s[..j] + s[j..];
    LostBehind(s[..j], s[j..]);
  }

  /** Printing character by character, each after its own change, is printing the fed text, as long as the bars make no
      code. */
  lemma {:induction false} FedIsPut(e: Env, u: Term, p: string, cl: string, atr: seq<attribute>, cc: attribute)
    requires |cl| == |atr| && AllOnScreen(cl) && Waiting(u, p) && NoneLost(p + Fed(e, u.attr, cl, atr, cc))
    ensures Restored(e, PutAll(e, u, p), cl, atr, cc) == PutAll(e, u, p + Fed(e, u.attr, cl, atr, cc))
    decreases |cl|
  {
    hide Put, PutAll, MakeAnsi, NoneLost, Waiting, CollectAll, ChangedTo;
    WaitingAttr(e, u, p);
    PutAllAppend(e, u, p, Fed(e, u.attr, cl, atr, cc));
    if cl != "" {
      var m := MakeAnsi(e, atr[0], u.attr) + [cl[0]];
      var s := p + m;
      var rest := Fed(e, ChangedTo(e, atr[0], u.attr), cl[1..], atr[1..], cc);
      assert p + (m + rest) == s + rest;
      LostBefore(s, rest);
      var w, j := Advance(e, u, p, atr[0], cl[0]);
      OneFed(e, u, p, atr[0], cl[0]);
      assert s + rest == s[..j] + (s[j..] + rest);
      LostBehind(s[..j], s[j..] + rest);
      FedIsPut(e, w, s[j..], cl[1..], atr[1..], cc);
      PutAllAppend(e, w, s[j..], rest);
      PutAllAppend(e, u, s, rest);
    }
  }

  lemma OneFed(e: Env, u: Term, p: string, attr: attribute, c: char)
    requires Waiting(u, p)
    ensures var t := PutAll(e, u, p); var m := MakeAnsi(e, attr, u.attr);
      Put(e, PutAll(e, t, MakeAnsi(e, attr, t.attr)), c) == PutAll(e, u, p + (m + [c]))
  {
    hide Put, PutAll, MakeAnsi, Waiting;
    WaitingAttr(e, u, p);
    var t := PutAll(e, u, p);
    var m := MakeAnsi(e, attr, u.attr);
    PutAllAppend(e, u, p, m + [c]);
    PutAllAppend(e, t, m, [c]);
    PutOne(e, PutAll(e, t, m), c);
  }

  // ----- the line without a lost bar -----

  /** In the collector alone, the fed text draws the line. */
  lemma {:induction false} CollectedShows(e: Env, t: Term, cl: string, atr: seq<attribute>, cc: attribute)
    requires |cl| == |atr| && AllOnScreen(cl) && t.mode == NoCode && t.esc == "" && e.ansi
    ensures var r := CollectAll(e, t, Fed(e, t.attr, cl, atr, cc));
      && ShowsLine(e, t.out, r.out, cl, atr)
      && r.mode == NoCode && r.esc == "" && r.eol == t.eol && Low(r.attr) == Low(cc)
    decreases |cl|
  {
    hide CollectAll, MakeAnsi, Low, ChangedTo;
    if cl == "" {
      ChangeCollected(e, t, cc);
      MakeAnsiSets(e, t, cc);
    } else {
      var m := MakeAnsi(e, atr[0], t.attr);
      var a := t.(attr := ChangedTo(e, atr[0], t.attr));
      ChangeCollected(e, t, atr[0]);
      MakeAnsiSets(e, t, atr[0]);
      var b := a.(out := a.out + [Glyph(if e.echo then cl[0] else 'X', a.attr)]);
      DrawScreen(e, a, cl[0]);
      CollectAllAppend(e, t, m, [cl[0]]);
      var rest := Fed(e, a.attr, cl[1..], atr[1..], cc);
      CollectAllAppend(e, t, m + [cl[0]], rest);
      CollectedShows(e, b, cl[1..], atr[1..], cc);
      OneMoreShown(e, t.out, b.out, CollectAll(e, b, rest).out, cl, atr);
    }
  }

  lemma DrawScreen(e: Env, t: Term, c: char)
    requires t.mode == NoCode && t.esc == "" && OnScreen(c)
    ensures CollectAll(e, t, [c]) == t.(out := t.out + [Glyph(if e.echo then c else 'X', t.attr)])
  {
    hide Spaces, Ends, Execute;
    assert t.(mode := NoCode) == t;
    CollectsNothing(e, Collect(e, t, c));
  }

  lemma OneMoreShown(e: Env, before: seq<Out>, one: seq<Out>, out: seq<Out>, cl: string, atr: seq<attribute>)
    requires |cl| == |atr| && cl != "" && |one| == |before| + 1 && one[..|before|] == before
    requires ShowsChar(e, one[|before|], cl[0], atr[0]) && ShowsLine(e, one, out, cl[1..], atr[1..])
    ensures ShowsLine(e, before, out, cl, atr)
  {
    hide ShowsChar;
    assert out[..|before|] == out[..|one|][..|before|] && out[|before|] == out[..|one|][|before|];
    forall i | 0 <= i < |cl|
      ensures ShowsChar(e, out[|before| + i], cl[i], atr[i])
    {
      if i > 0 { assert ShowsChar(e, out[|one| + (i - 1)], cl[1..][i - 1], atr[1..][i - 1]); }
    }
  }

  lemma {:induction false} FedFeedable(e: Env, cur: attribute, cl: string, atr: seq<attribute>, cc: attribute)
    requires |cl| == |atr| && AllOnScreen(cl)
    ensures Feedable(Fed(e, cur, cl, atr, cc))
    decreases |cl|
  {
    hide MakeAnsi, ChangedTo;
    if cl == "" {
      AttrTextShape(e, cc, cur);
    } else {
      AttrTextShape(e, atr[0], cur);
      FedFeedable(e, ChangedTo(e, atr[0], cur), cl[1..], atr[1..], cc);
    }
  }

  lemma NothingLeft(s: string, j: nat)
    requires BarsLiteral(s) && (j == |s| || (j < |s| && s[j] == '|' && j + 2 >= |s|))
    ensures j == |s|
  {
    hide Meaning;
  }

  /** A line none of whose bars makes a code comes back exactly, from any attribute. */
  lemma LiteralBarsShow(e: Env, t: Term, cl: string, atr: seq<attribute>, cc: attribute)
    requires |cl| == |atr| && AllOnScreen(cl) && t.mode == NoCode && t.esc == "" && e.ansi
    requires BarsLiteral(Fed(e, t.attr, cl, atr, cc))
    ensures var r := Restored(e, t, cl, atr, cc);
      && ShowsLine(e, t.out, r.out, cl, atr)
      && r.mode == NoCode && r.esc == "" && r.eol == t.eol && Low(r.attr) == Low(cc)
  {
    hide PutAll, CollectAll, Fed, ShowsLine, Low, Restored, Meaning;
    var s := Fed(e, t.attr, cl, atr, cc);
    LiteralIsNotLost(s);
    FedFeedable(e, t.attr, cl, atr, cc);
    PutNothing(e, t);
    assert "" + s == s;
    FedIsPut(e, t, "", cl, atr, cc);
    var w, j := Settle(e, t, s);
    NothingLeft(s, j);
    assert s[..j] == s && s[j..] == "";
    PutNothing(e, w);
    CollectedShows(e, t, cl, atr, cc);
  }

  // ----- a bar that makes a code is missed -----

  /** The bars in a text. */
  function Bars(s: string): nat {
    if s == "" then 0 else Bars(s[..|s| - 1]) + OneBar(s[|s| - 1])
  }

  function OneBar(c: char): nat { if c == '|' then 1 else 0 }

  function DrawnBars(out: seq<Out>): nat {
    if out == [] then 0 else DrawnBars(out[..|out| - 1]) + OneGlyph(out[|out| - 1])
  }

  function OneGlyph(o: Out): nat { if o.Glyph? then OneBar(o.ch) else 0 }

  /** The bars that `bputch` may still draw of what it was given. */
  function Held(t: Term): nat {
    match t.mode
    case AtMacro => 1
    case PipeCode => 1 + OneBar(t.pipe0)
    case _ => 0
  }

  function Seen(t: Term): nat { DrawnBars(t.out) + Held(t) }

  lemma {:induction false} BarsAppend(a: string, b: string)
    ensures Bars(a + b) == Bars(a) + Bars(b)
    decreases |b|
  {
    hide OneBar;
    if b == "" {
      assert a + b == a;
    } else {
      assert (a + b)[..|a + b| - 1] == a + b[..|b| - 1];
      BarsAppend(a, b[..|b| - 1]);
    }
  }

  lemma BarsOne(c: char)
    ensures Bars([c]) == OneBar(c)
  {
    assert [c][..0] == "";
  }

  lemma BarsHead(s: string)
    requires s != ""
    ensures Bars(s) == OneBar(s[0]) + Bars(s[1..])
  {
    hide Bars, OneBar;
    BarsOne(s[0]);
    BarsAppend([s[0]], s[1..]);
    assert [s[0]] + s[1..] == s;
  }

  lemma {:induction false} NoBars(s: string)
    requires forall i :: 0 <= i < |s| ==> s[i] != '|'
    ensures Bars(s) == 0
  {
    if s != "" { NoBars(s[..|s| - 1]); }
  }

  lemma DrawnOne(out: seq<Out>, o: Out)
    ensures DrawnBars(out + [o]) == DrawnBars(out) + OneGlyph(o)
  {
    hide OneGlyph;
    assert (out + [o])[..|out|] == out;
  }

  lemma {:induction false} DrawnSpaces(e: Env, out: seq<Out>, attr: attribute, n: nat)
    ensures DrawnBars(out + Spaces(e, attr, n)) == DrawnBars(out)
  {
    hide DrawnBars;
    if n == 0 {
      assert out + [] == out;
    } else {
      var o := Glyph(if e.echo then ' ' else 'X', attr);
      DrawnSpaces(e, out, attr, n - 1);
      DrawnOne(out + Spaces(e, attr, n - 1), o);
      assert out + (Spaces(e, attr, n - 1) + [o]) == (out + Spaces(e, attr, n - 1)) + [o];
    }
  }

  lemma ExecuteBars(t: Term)
    ensures DrawnBars(Execute(t).out) == DrawnBars(t.out)
  {
    hide SgrAll, ParseArgs, IsCursorCommand, DrawnBars, Arg;
    if Execute(t).out != t.out {
      DrawnOne(t.out, Execute(t).out[|t.out|]);
    }
  }

  lemma CollectBars(e: Env, t: Term, c: char)
    ensures DrawnBars(Collect(e, t, c).out) <= DrawnBars(t.out) + OneBar(c)
  {
    hide Execute, Ends, Spaces, DrawnBars;
    ExecuteBars(t.(esc := (if |t.esc| > 80 then "" else t.esc) + [c]));
    DrawnSpaces(e, t.out, t.attr, 8 - e.column(t.out) % 8);
    DrawnOne(t.out, Glyph(if e.echo then c else 'X', t.attr));
  }

  lemma {:induction false} CollectAllBars(e: Env, t: Term, s: string)
    ensures DrawnBars(CollectAll(e, t, s).out) <= DrawnBars(t.out) + Bars(s)
    decreases |s|
  {
    hide Collect, DrawnBars, Bars, OneBar;
    if s != "" {
      BarsHead(s);
      CollectBars(e, t.(mode := NoCode), s[0]);
      CollectAllBars(e, Collect(e, t.(mode := NoCode), s[0]), s[1..]);
    }
  }

  lemma MakeAnsiBars(e: Env, t: Term, attr: attribute, cur: attribute)
    ensures Bars(MakeAnsi(e, attr, cur)) == 0
    ensures DrawnBars(CollectAll(e, t, MakeAnsi(e, attr, cur)).out) <= DrawnBars(t.out)
  {
    hide MakeAnsi, CollectAll, DrawnBars, Bars;
    AttrTextShape(e, attr, cur);
    NoBars(MakeAnsi(e, attr, cur));
    CollectAllBars(e, t, MakeAnsi(e, attr, cur));
  }

  lemma SetColorBars(e: Env, t: Term, n: int)
    requires t.mode == NoCode && Bars(t.eol) == 0
    ensures Seen(SetColor(e, t, n)) <= Seen(t) && Bars(SetColor(e, t, n).eol) == 0
    ensures SetColor(e, t, n).mode == NoCode
  {
    hide MakeAnsi, CollectAll, DrawnBars, Bars, UserColor;
    var c := UserColor(e, n);
    MakeAnsiBars(e, t, c, t.attr);
    CollectAllMode(e, t, MakeAnsi(e, c, t.attr));
    MakeAnsiBars(e, t, UserColor(e, 0), CollectAll(e, t, MakeAnsi(e, c, t.attr)).attr);
  }

  lemma PutSimpleBars(e: Env, t: Term, c: char)
    requires t.mode != PipeCode && Bars(t.eol) == 0
    ensures Seen(PutSimple(e, t, c)) <= Seen(t) + OneBar(c) && Bars(PutSimple(e, t, c).eol) == 0
  {
    hide Collect, CollectAll, SetColor, DrawnBars, Bars;
    assert Bars("") == 0 by { NoBars(""); }
    match t.mode
    case Heart => SetColorBars(e, t.(mode := NoCode), c as int - 48);
    case MacroChar =>
    case CtrlO =>
    case AtMacro =>
    case _ =>
      var u := CollectAll(e, t, t.eol).(eol := "");
      CollectAllBars(e, t, t.eol);
      CollectAllMode(e, t, t.eol);
      CollectBars(e, u, c);
      CollectMode(e, u, c);
      CollectBars(e, t.(mode := NoCode), c);
      CollectMode(e, t.(mode := NoCode), c);
  }

  /** A colour code draws no bar; the one that started it is missed. */
  lemma CodeBars(e: Env, t: Term, c: char)
    requires t.mode == PipeCode && Bars(t.eol) == 0 && Meaning(t.pipe0, c) != Literally
    ensures Seen(PutCode(e, t, c)) <= DrawnBars(t.out) && Bars(PutCode(e, t, c).eol) == 0
  {
    hide MakeAnsi, CollectAll, SetColor, DrawnBars, Bars, PipeAttr, Meaning;
    var u := t.(mode := NoCode);
    match Meaning(t.pipe0, c)
    case UserNumber(n) => SetColorBars(e, u, n);
    case ColorNumber(nc) =>
      MakeAnsiBars(e, u, PipeAttr(t.attr, nc), t.attr);
      CollectAllMode(e, u, MakeAnsi(e, PipeAttr(t.attr, nc), t.attr));
  }

  lemma LiteralBars(e: Env, t: Term, c: char)
    requires t.mode == PipeCode && Bars(t.eol) == 0 && Meaning(t.pipe0, c) == Literally
    ensures Seen(PutCode(e, t, c)) <= Seen(t) + OneBar(c) && Bars(PutCode(e, t, c).eol) == 0
  {
    hide PutSimple, PutEach, DrawnBars, Bars, OneBar, Meaning, SetColor, CollectAll;
    var u := t.(mode := LiteralPipe);
    LiteralText(e, u, t.pipe0, c);
    BarIsDrawn(e, u);
    var v := PutSimple(e, u, '|');
    PutSimpleBars(e, u, '|');
    BarIsOne();
    LeavesNoPipe(e, v, t.pipe0);
    PutSimpleBars(e, v, t.pipe0);
    PutSimpleBars(e, PutSimple(e, v, t.pipe0), c);
  }

  lemma BarIsOne()
    ensures OneBar('|') == 1
  {
  }

  lemma PutCodeBars(e: Env, t: Term, c: char)
    requires Bars(t.eol) == 0
    ensures Seen(PutCode(e, t, c)) <= Seen(t) + OneBar(c) && Bars(PutCode(e, t, c).eol) == 0
  {
    hide PutSimple, PutCode, DrawnBars, Bars, OneBar, Meaning;
    if t.mode != PipeCode {
      SimpleIsCode(e, t, c);
      PutSimpleBars(e, t, c);
    } else if Meaning(t.pipe0, c) == Literally {
      LiteralBars(e, t, c);
    } else {
      CodeBars(e, t, c);
    }
  }

  lemma SimpleIsCode(e: Env, t: Term, c: char)
    requires t.mode != PipeCode
    ensures PutCode(e, t, c) == PutSimple(e, t, c)
  {
    hide PutSimple, Meaning, SetColor, CollectAll;
  }

  lemma {:induction false} PutCodesBars(e: Env, t: Term, s: string)
    requires Bars(t.eol) == 0
    ensures Seen(PutCodes(e, t, s)) <= Seen(t) + Bars(s) && Bars(PutCodes(e, t, s).eol) == 0
    decreases |s|
  {
    hide PutCode, Seen, Bars, OneBar;
    if s != "" {
      BarsHead(s);
      PutCodeBars(e, t, s[0]);
      PutCodesBars(e, PutCode(e, t, s[0]), s[1..]);
    }
  }

  /** No macro's text has a bar. */
  ghost predicate MacrosDrawNoBar(e: Env) {
    forall c :: Bars(e.macro(c)) == 0
  }

  lemma PutBars(e: Env, t: Term, c: char)
    requires Bars(t.eol) == 0 && MacrosDrawNoBar(e)
    ensures Seen(Put(e, t, c)) <= Seen(t) + OneBar(c) && Bars(Put(e, t, c).eol) == 0
  {
    hide PutCode, PutCodes, DrawnBars, Bars, OneBar;
    if t.mode == MacroChar {
      PutCodesBars(e, t.(mode := NoCode), e.macro(c));
    } else {
      PutCodeBars(e, t, c);
    }
  }

  /** No printing draws more bars than it is given. */
  lemma {:induction false} PutAllBars(e: Env, t: Term, s: string)
    requires Bars(t.eol) == 0 && MacrosDrawNoBar(e)
    ensures Seen(PutAll(e, t, s)) <= Seen(t) + Bars(s) && Bars(PutAll(e, t, s).eol) == 0
    decreases |s|
  {
    hide Put, Seen, Bars, OneBar, MacrosDrawNoBar;
    if s != "" {
      BarsHead(s);
      PutBars(e, t, s[0]);
      PutAllBars(e, Put(e, t, s[0]), s[1..]);
    }
  }

  lemma {:induction false} RestoredBars(e: Env, t: Term, cl: string, atr: seq<attribute>, cc: attribute)
    requires |cl| == |atr| && Bars(t.eol) == 0 && MacrosDrawNoBar(e)
    ensures Seen(Restored(e, t, cl, atr, cc)) <= Seen(t) + Bars(cl)
    decreases |cl|
  {
    hide Put, PutAll, MakeAnsi, Seen, Bars, OneBar, MacrosDrawNoBar;
    if cl == "" {
      PutAllBars(e, t, MakeAnsi(e, cc, t.attr));
      MakeAnsiBars(e, t, cc, t.attr);
    } else {
      var m := MakeAnsi(e, atr[0], t.attr);
      PutAllBars(e, t, m);
      MakeAnsiBars(e, t, atr[0], t.attr);
      PutBars(e, PutAll(e, t, m), cl[0]);
      BarsHead(cl);
      RestoredBars(e, Put(e, PutAll(e, t, m), cl[0]), cl[1..], atr[1..], cc);
    }
  }

  /** Feeding a text that has a bar with a code draws fewer bars than the text has. */
  lemma {:induction false} LostIsMissed(e: Env, u: Term, s: string)
    requires u.mode == NoCode && Feedable(s) && !NoneLost(s)
    requires Bars(u.eol) == 0 && MacrosDrawNoBar(e)
    ensures Seen(PutAll(e, u, s)) < DrawnBars(u.out) + Bars(s) && Bars(PutAll(e, u, s).eol) == 0
    decreases |s|
  {
    hide Collect, PutAll, DrawnBars, Bars, Meaning, MacrosDrawNoBar, Feedable, Seen, OneBar;
    BarsHead(s);
    PutAllBars(e, u, s);
    if s[0] == '|' && !MayStay(s, 0) {
      FirstIsMissed(e, u, s);
    } else {
      var x := if s[0] == '|' then s[1] else u.pipe0;
      var v := Collect(e, u, s[0]).(pipe0 := x);
      LostInTail(s);
      FeedableTail(s);
      FirstFed(e, u, s, x);
      CollectMode(e, u, s[0]);
      CollectBars(e, u, s[0]);
      LostIsMissed(e, v, s[1..]);
    }
  }

  lemma FeedableTail(s: string)
    requires Feedable(s) && s != ""
    ensures Feedable(s[1..])
  {
  }

  /** If the first bar is not lost, another one is, and the first one has both its characters. */
  lemma LostInTail(s: string)
    requires !NoneLost(s) && (s != "" && s[0] == '|' ==> MayStay(s, 0))
    ensures s != "" && !NoneLost(s[1..]) && (s[0] == '|' ==> |s| > 2)
  {
    hide Meaning;
    var k :| 0 <= k < |s| && s[k] == '|' && !MayStay(s, k);
    assert k > 0;
    assert s[1..][k - 1] == '|' && !MayStay(s[1..], k - 1);
  }

  lemma FirstIsMissed(e: Env, u: Term, s: string)
    requires u.mode == NoCode && |s| > 1 && s[0] == '|' && !MayStay(s, 0)
    requires Bars(u.eol) == 0 && MacrosDrawNoBar(e)
    ensures Seen(PutAll(e, u, s)) < DrawnBars(u.out) + Bars(s)
  {
    hide PutAll, PutCode, DrawnBars, Bars, Meaning, MacrosDrawNoBar, OneBar;
    BarIsOne();
    BarsHead(s);
    BarsHead(s[1..]);
    var v := Put(e, Put(e, u, '|'), s[1]);
    TwoFed(e, u, s[1]);
    PutTwo(e, u, '|', s[1]);
    assert s == ['|', s[1]] + s[2..];
    PutAllAppend(e, u, ['|', s[1]], s[2..]);
    if s[1] == '@' {
      PutAllBars(e, v, s[2..]);
      assert s[1..][1..] == s[2..];
    } else {
      var w := Put(e, v, s[2]);
      CodeBars(e, v, s[2]);
      assert w == PutCode(e, v, s[2]);
      PutOne(e, v, s[2]);
      assert s[2..] == [s[2]] + s[3..];
      PutAllAppend(e, v, [s[2]], s[3..]);
      PutAllBars(e, w, s[3..]);
      BarsHead(s[2..]);
      assert s[1..][1..] == s[2..] && s[2..][1..] == s[3..];
    }
  }

  lemma TwoFed(e: Env, u: Term, x: char)
    requires u.mode == NoCode
    ensures Put(e, Put(e, u, '|'), x) == if x == '@' then u.(mode := MacroChar) else u.(mode := PipeCode, pipe0 := x)
  {
    hide Collect, CollectAll, Meaning, SetColor;
  }

  /** The same along the line, where each attribute string is made for the attribute of that moment. */
  lemma {:induction false} LineMissesBar(e: Env, u: Term, p: string, cl: string, atr: seq<attribute>, cc: attribute)
    requires |cl| == |atr| && AllOnScreen(cl) && Waiting(u, p) && !NoneLost(p + Fed(e, u.attr, cl, atr, cc))
    requires Bars(u.eol) == 0 && MacrosDrawNoBar(e)
    ensures Seen(Restored(e, PutAll(e, u, p), cl, atr, cc)) < DrawnBars(u.out) + Bars(p) + Bars(cl)
    decreases |cl|
  {
    hide Put, PutAll, MakeAnsi, NoneLost, Waiting, CollectAll, ChangedTo;
    hide DrawnBars, Bars, Seen, OneBar, MacrosDrawNoBar;
    WaitingAttr(e, u, p);
    if cl == "" {
      var m := MakeAnsi(e, cc, u.attr);
      MakeAnsiBars(e, u, cc, u.attr);
      AttrTextShape(e, cc, u.attr);
      WaitingFeedable(u, p, m);
      BarsAppend(p, m);
      PutAllAppend(e, u, p, m);
      LostIsMissed(e, u, p + m);
      assert Bars(cl) == 0 by { NoBars(cl); }
    } else {
      var m := MakeAnsi(e, atr[0], u.attr) + [cl[0]];
      var s := p + m;
      var rest := Fed(e, ChangedTo(e, atr[0], u.attr), cl[1..], atr[1..], cc);
      assert p + (m + rest) == s + rest;
      OneFed(e, u, p, atr[0], cl[0]);
      StepBars(e, u, p, atr[0], cl[0]);
      BarsHead(cl);
      if NoneLost(s) {
        var w, j := Advance(e, u, p, atr[0], cl[0]);
        if NoneLost(s[j..] + rest) { LostLater(s, j, rest); }
        CollectAllBars(e, u, s[..j]);
        BarsAppend(s[..j], s[j..]);
        assert s[..j] + s[j..] == s;
        LineMissesBar(e, w, s[j..], cl[1..], atr[1..], cc);
      } else {
        AttrTextShape(e, atr[0], u.attr);
        WaitingFeedable(u, p, m);
        LostIsMissed(e, u, s);
        RestoredBars(e, PutAll(e, u, s), cl[1..], atr[1..], cc);
      }
    }
  }

  lemma StepBars(e: Env, u: Term, p: string, attr: attribute, c: char)
    ensures Bars(p + (MakeAnsi(e, attr, u.attr) + [c])) == Bars(p) + OneBar(c)
  {
    hide MakeAnsi, Bars, OneBar, CollectAll, DrawnBars;
    var m := MakeAnsi(e, attr, u.attr);
    MakeAnsiBars(e, u, attr, u.attr);
    BarsAppend(p, m + [c]);
    BarsAppend(m, [c]);
    BarsOne(c);
  }

  lemma WaitingFeedable(u: Term, p: string, m: string)
    requires Waiting(u, p) && Feedable(m)
    ensures Feedable(p + m) && u.mode == NoCode
  {
    hide NoneLost;
  }

  lemma {:induction false} ShownBars(e: Env, before: seq<Out>, out: seq<Out>, cl: string, atr: seq<attribute>)
    requires |cl| == |atr| && e.echo && ShowsLine(e, before, out, cl, atr)
    ensures DrawnBars(out) == DrawnBars(before) + Bars(cl)
    decreases |cl|
  {
    hide OneBar, Low;
    if cl == "" {
      assert out == before;
    } else {
      var n := |cl| - 1;
      var less := out[..|out| - 1];
      assert ShowsChar(e, out[|before| + n], cl[n], atr[n]);
      assert out == less + [out[|out| - 1]];
      DrawnOne(less, out[|out| - 1]);
      assert less[..|before|] == before;
      assert forall i :: 0 <= i < n ==> ShowsChar(e, out[|before| + i], cl[i], atr[i]);
      ShownBars(e, before, less, cl[..n], atr[..n]);
    }
  }

  lemma {:induction false} FedBars(e: Env, t: Term, cur: attribute, cl: string, atr: seq<attribute>, cc: attribute)
    requires |cl| == |atr|
    ensures Bars(Fed(e, cur, cl, atr, cc)) == Bars(cl)
    decreases |cl|
  {
    hide MakeAnsi, ChangedTo, Bars, OneBar, CollectAll, DrawnBars;
    if cl == "" {
      MakeAnsiBars(e, t, cc, cur);
      NoBars(cl);
    } else {
      var m := MakeAnsi(e, atr[0], cur);
      var rest := Fed(e, ChangedTo(e, atr[0], cur), cl[1..], atr[1..], cc);
      MakeAnsiBars(e, t, atr[0], cur);
      BarsAppend(m, [cl[0]]);
      BarsOne(cl[0]);
      BarsAppend(m + [cl[0]], rest);
      BarsHead(cl);
      FedBars(e, t, ChangedTo(e, atr[0], cur), cl[1..], atr[1..], cc);
    }
  }

  /** A bar still waiting at the end is not drawn. */
  lemma LastBarWaits(e: Env, t: Term, s: string)
    requires t.mode == NoCode && Feedable(s) && NoneLost(s) && !BarsLiteral(s)
    ensures DrawnBars(PutAll(e, t, s).out) < DrawnBars(t.out) + Bars(s)
  {
    hide PutAll, CollectAll, DrawnBars, Bars, Meaning, NoneLost, BarsLiteral, OneBar;
    var w, j := Settle(e, t, s);
    LiteralIsNotLost(s);
    assert j < |s|;
    assert s == s[..j] + s[j..];
    LostBehind(s[..j], s[j..]);
    WaitingOut(e, w, s[j..]);
    CollectAllBars(e, t, s[..j]);
    BarsAppend(s[..j], s[j..]);
    BarsHead(s[j..]);
    BarIsOne();
  }

  lemma WaitingOut(e: Env, u: Term, p: string)
    requires u.mode == NoCode && NoneLost(p) && 0 < |p| <= 2 && p[0] == '|'
    ensures PutAll(e, u, p).out == u.out
  {
    hide Collect, CollectAll, Meaning, PutAll;
    assert MayStay(p, 0);
    if |p| == 1 {
      PutOne(e, u, p[0]);
      assert p == [p[0]];
    } else {
      PutTwo(e, u, p[0], p[1]);
      assert p == [p[0], p[1]];
      TwoFed(e, u, p[1]);
    }
  }

  /** With the console's echo on, a line with a bar that makes a code is not drawn as it was. */
  lemma CodedBarsDoNotShow(e: Env, t: Term, cl: string, atr: seq<attribute>, cc: attribute)
    requires |cl| == |atr| && AllOnScreen(cl) && t.mode == NoCode && t.esc == ""
    requires e.echo && Bars(t.eol) == 0 && MacrosDrawNoBar(e)
    requires !BarsLiteral(Fed(e, t.attr, cl, atr, cc))
    ensures !ShowsLine(e, t.out, Restored(e, t, cl, atr, cc).out, cl, atr)
  {
    hide PutAll, CollectAll, Fed, ShowsLine, Restored, Meaning, MacrosDrawNoBar, DrawnBars, Bars, NoneLost, BarsLiteral;
    var s := Fed(e, t.attr, cl, atr, cc);
    var r := Restored(e, t, cl, atr, cc);
    PutNothing(e, t);
    NothingWaits(t);
    assert "" + s == s;
    if NoneLost(s) {
      FedFeedable(e, t.attr, cl, atr, cc);
      FedIsPut(e, t, "", cl, atr, cc);
      LastBarWaits(e, t, s);
      FedBars(e, t, t.attr, cl, atr, cc);
    } else {
      LineMissesBar(e, t, "", cl, atr, cc);
      assert Bars("") == 0 by { NoBars(""); }
    }
    if ShowsLine(e, t.out, r.out, cl, atr) {
      ShownBars(e, t.out, r.out, cl, atr);
    }
  }

  lemma NothingWaits(t: Term)
    requires t.mode == NoCode && t.esc == ""
    ensures Waiting(t, "")
  {
  }

  /** An attributed line is put back exactly, from any attribute, when each bar of the fed text has two characters
      behind it that make no code with it; with the echo on and no bars in macros, only then. */
  lemma LineReproduced(e: Env, t: Term, cl: string, atr: seq<attribute>, cc: attribute)
    requires |cl| == |atr| && AllOnScreen(cl) && t.mode == NoCode && t.esc == "" && e.ansi
    ensures var r := Restored(e, t, cl, atr, cc); BarsLiteral(Fed(e, t.attr, cl, atr, cc)) ==>
      && ShowsLine(e, t.out, r.out, cl, atr)
      && r.mode == NoCode && r.esc == "" && r.eol == t.eol && Low(r.attr) == Low(cc)
    ensures e.echo && Bars(t.eol) == 0 && MacrosDrawNoBar(e) ==>
      (ShowsLine(e, t.out, Restored(e, t, cl, atr, cc).out, cl, atr) <==> BarsLiteral(Fed(e, t.attr, cl, atr, cc)))
  {
    hide Fed, ShowsLine, Low, Restored, MacrosDrawNoBar, Bars, BarsLiteral;
    if BarsLiteral(Fed(e, t.attr, cl, atr, cc)) {
      LiteralBarsShow(e, t, cl, atr, cc);
    } else if e.echo && Bars(t.eol) == 0 && MacrosDrawNoBar(e) {
      CodedBarsDoNotShow(e, t, cl, atr, cc);
    }
  }

  // ----- one line that is lost and one that is not -----

  /** A character in the attribute of the moment is fed without anything in front of it. */
  lemma SameAttribute(e: Env, t: Term, x: char, cl: string, atr: seq<attribute>, cc: attribute)
    requires |cl| == |atr|
    ensures Restored(e, t, [x] + cl, [t.attr] + atr, cc) == Restored(e, Put(e, t, x), cl, atr, cc)
    ensures Fed(e, t.attr, [x] + cl, [t.attr] + atr, cc) == [x] + Fed(e, t.attr, cl, atr, cc)
  {
    hide Put, PutAll, MakeAnsi, ChangedTo;
    NoChange(e, t.attr);
    PutNothing(e, t);
    assert ([x] + cl)[1..] == cl && ([t.attr] + atr)[1..] == atr;
    assert "" + [x] == [x];
  }

  lemma ThreeCharacters(e: Env, t: Term, x: char, y: char, z: char)
    requires t.mode == NoCode && x == '|' && y != '@'
    ensures var a := t.attr; var u := Put(e, t.(mode := PipeCode, pipe0 := y), z);
      && Restored(e, t, [x, y, z], [a, a, a], a) == PutAll(e, u, MakeAnsi(e, a, u.attr))
      && Fed(e, a, [x, y, z], [a, a, a], a) == [x, y, z]
  {
    hide Put, PutAll, MakeAnsi, Fed, Restored;
    var a := t.attr;
    var t1, t2 := t.(mode := AtMacro), t.(mode := PipeCode, pipe0 := y);
    TwoFed(e, t, y);
    OneFedBar(e, t);
    SameAttribute(e, t, x, [y, z], [a, a], a);
    SameAttribute(e, t1, y, [z], [a], a);
    SameAttribute(e, t2, z, [], [], a);
    NothingMore(e, Put(e, t2, z), a, a);
    NoChange(e, a);
    assert [x, y, z] == [x] + [y, z] && [y, z] == [y] + [z] && [z] == [z] + [];
    assert [a, a, a] == [a] + [a, a] && [a, a] == [a] + [a] && [a] == [a] + [];
  }

  lemma NothingMore(e: Env, t: Term, cur: attribute, cc: attribute)
    ensures Restored(e, t, "", [], cc) == PutAll(e, t, MakeAnsi(e, cc, t.attr))
    ensures Fed(e, cur, "", [], cc) == MakeAnsi(e, cc, cur)
  {
  }

  lemma OneFedBar(e: Env, t: Term)
    requires t.mode == NoCode
    ensures Put(e, t, '|') == t.(mode := AtMacro)
  {
    hide Collect, CollectAll, SetColor;
  }

  lemma NoChange(e: Env, a: attribute)
    ensures MakeAnsi(e, a, a) == "" && ChangedTo(e, a, a) == a
  {
    assert Codes(a, a) == [];
  }

  lemma ColorIsNotDrawn(e: Env, t: Term, y: char, z: char, n: nat)
    requires t.mode == NoCode && t.esc == "" && y != '@' && n < 32 && Meaning(y, z) == ColorNumber(n)
    ensures Restored(e, t, ['|', y, z], [t.attr, t.attr, t.attr], t.attr).out == t.out
  {
    hide PutAll, CollectAll, MakeAnsi, PipeAttr, Collect, ChangedTo, Restored, Meaning;
    ThreeCharacters(e, t, '|', y, z);
    var u := t.(mode := NoCode, pipe0 := y);
    var v := Put(e, t.(mode := PipeCode, pipe0 := y), z);
    assert t.(mode := PipeCode, pipe0 := y).(mode := NoCode) == u;
    assert v == CollectAll(e, u, MakeAnsi(e, PipeAttr(u.attr, n), u.attr));
    ChangeCollected(e, u, PipeAttr(u.attr, n));
    ChangeCollected(e, v, t.attr);
    ChangePut(e, v, t.attr);
  }

  /** A saved line "|05" is a colour change: nothing is drawn. */
  lemma CodeIsNotDrawn(e: Env, t: Term)
    requires t.mode == NoCode && t.esc == ""
    ensures Restored(e, t, "|05", [t.attr, t.attr, t.attr], t.attr).out == t.out
  {
    hide Restored, Meaning;
    FiveIsFive();
    ColorIsNotDrawn(e, t, '0', '5', 5);
    assert "|05" == ['|', '0', '5'];
  }

  lemma FiveIsFive()
    ensures Meaning('0', '5') == ColorNumber(5)
  {
    var s := ['0', '5'];
    assert s[1..] == ['5'] && ['5'][1..] == [];
    assert Digits(['5'], 0) == Digits([], 5) == 5;
    assert Digits(s, 0) == Digits(['5'], 0);
  }

  lemma ChangePut(e: Env, v: Term, attr: attribute)
    requires v.mode == NoCode
    ensures PutAll(e, v, MakeAnsi(e, attr, v.attr)) == CollectAll(e, v, MakeAnsi(e, attr, v.attr))
  {
    hide PutAll, CollectAll, MakeAnsi;
    AttrTextShape(e, attr, v.attr);
    PutAllPasses(e, v, MakeAnsi(e, attr, v.attr));
  }

  /** A saved line of a bar, a blank and a letter comes back. */
  lemma BarComesBack(e: Env, t: Term)
    requires t.mode == NoCode && t.esc == "" && e.ansi
    ensures var atr := [t.attr, t.attr, t.attr];
      ShowsLine(e, t.out, Restored(e, t, "| b", atr, t.attr).out, "| b", atr)
  {
    hide Restored, ShowsLine, Fed;
    var cl := ['|', ' ', 'b'];
    assert "| b" == cl;
    ThreeCharacters(e, t, '|', ' ', 'b');
    assert Meaning(' ', 'b') == Literally;
    LineReproduced(e, t, cl, [t.attr, t.attr, t.attr], t.attr);
  }
}
