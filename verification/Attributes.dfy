/** Screen attributes and the colour codes that change them: `makeansi` of `bbs/com.cpp` against the `m` command of
    `execute_ansi` in `bbs/bputch.cpp`. An attribute's low byte is the IBM text attribute; code 7 can leave bits
    above it, so attributes are 16 bits wide here and are compared by their low byte.
 */
module Attributes {

  type attribute = bv16

  function Low(a: attribute): attribute { a & 0xff }

  /** The digit of "04261537" at `i`: the ANSI number of an IBM colour, and the other way round. */
  function Swap3(i: nat): (r: nat)
    requires i < 8
    ensures r < 8
  {
    if i == 1 then 4 else if i == 3 then 6 else if i == 4 then 1 else if i == 6 then 3 else i
  }

  /** Three bits as a number. */
  function Three(b: attribute): (n: nat)
    ensures n < 8
  {
    if b == 0 then 0 else if b == 1 then 1 else if b == 2 then 2 else if b == 3 then 3
    else if b == 4 then 4 else if b == 5 then 5 else if b == 6 then 6 else 7
  }

  function Bits3(n: nat): attribute
    requires n < 8
  {
    if n == 0 then 0 else if n == 1 then 1 else if n == 2 then 2 else if n == 3 then 3
    else if n == 4 then 4 else if n == 5 then 5 else if n == 6 then 6 else 7
  }

  // ----- the printer -----

  function Foreground(attr: attribute): (code: nat)
    ensures 30 <= code <= 37
  {
    30 + Swap3(Three(attr & 0x07))
  }

  function Background(attr: attribute): (code: nat)
    ensures 40 <= code <= 47
  {
    40 + Swap3(Three((attr & 0x70) >> 4))
  }

  predicate NeedsReset(attr: attribute, cur: attribute) { (cur & 0x88) ^ (attr & 0x88) != 0 }

  predicate ForegroundDiffers(attr: attribute, catr: attribute) { catr & 0x07 != attr & 0x07 }

  predicate BackgroundDiffers(attr: attribute, catr: attribute) { catr & 0x70 != attr & 0x70 }

  predicate BoldDiffers(attr: attribute, catr: attribute) { (catr & 0x08) ^ (attr & 0x08) != 0 }

  predicate BlinkDiffers(attr: attribute, catr: attribute) { (catr & 0x80) ^ (attr & 0x80) != 0 }

  function When(b: bool, codes: seq<nat>): seq<nat> { if b then codes else [] }

  /** What is left to compare with once a reset has been sent. */
  function Compared(attr: attribute, cur: attribute): attribute {
    if NeedsReset(attr, cur) then attr & 0x77 else cur
  }

  /** The codes that lead from attribute `cur` to `attr`. */
  function Codes(attr: attribute, cur: attribute): seq<nat> {
    if attr == cur then []
    else
      var catr := Compared(attr, cur);
      When(NeedsReset(attr, cur), [0, Foreground(attr), Background(attr)])
      + (When(ForegroundDiffers(attr, catr), [Foreground(attr)])
      + (When(BackgroundDiffers(attr, catr), [Background(attr)])
      + (When(BoldDiffers(attr, catr), [1])
      + When(BlinkDiffers(attr, catr), [5]))))
  }

  // ----- the reader -----

  /** What one code of an `m` command does to the attribute. */
  function Sgr(cur: attribute, code: int): attribute {
    if code == 0 then 0x07
    else if code == 1 then cur | 0x08
    else if code == 4 then cur
    else if code == 5 then cur | 0x80
    else if code == 7 then
      var ptr := cur & 0x77;
      (cur & 0x88) | (ptr << 4) | (ptr >> 4)
    else if code == 8 then 0
    else if 30 <= code <= 37 then (cur & 0xf8) | Bits3(Swap3(code - 30))
    else if 40 <= code <= 47 then (cur & 0x8f) | (Bits3(Swap3(code - 40)) << 4)
    else cur
  }

  function SgrAll(cur: attribute, codes: seq<int>): attribute
    decreases |codes|
  {
    if codes == [] then cur else SgrAll(Sgr(cur, codes[0]), codes[1..])
  }

  // ----- one undoes the other -----

  lemma Swap3Twice(i: nat)
    requires i < 8
    ensures Swap3(Swap3(i)) == i
  {
  }

  lemma Bits3OfThree(b: attribute)
    requires b & 0xfff8 == 0
    ensures Bits3(Three(b)) == b
  {
  }

  lemma SgrForeground(cur: attribute, attr: attribute)
    ensures Sgr(cur, Foreground(attr)) == (cur & 0xf8) | (attr & 0x07)
  {
    Bits3OfThree(attr & 0x07);
    Swap3Twice(Three(attr & 0x07));
  }

  lemma SgrBackground(cur: attribute, attr: attribute)
    ensures Sgr(cur, Background(attr)) == (cur & 0x8f) | (attr & 0x70)
  {
    HighThree(attr);
    Bits3OfThree((attr & 0x70) >> 4);
    Swap3Twice(Three((attr & 0x70) >> 4));
  }

  lemma HighThree(attr: attribute)
    ensures ((attr & 0x70) >> 4) & 0xfff8 == 0 && ((attr & 0x70) >> 4) << 4 == attr & 0x70
  {
  }

  lemma {:induction false} SgrAppend(cur: attribute, a: seq<int>, b: seq<int>)
    ensures SgrAll(cur, a + b) == SgrAll(SgrAll(cur, a), b)
    decreases |a|
  {
    hide Sgr;
    if a == [] {
      assert a + b == b;
    } else {
      assert (a + b)[1..] == a[1..] + b;
      SgrAppend(Sgr(cur, a[0]), a[1..], b);
    }
  }

  lemma SgrOne(cur: attribute, code: int)
    ensures SgrAll(cur, [code]) == Sgr(cur, code) && SgrAll(cur, []) == cur
  {
    hide Sgr;
    assert SgrAll(Sgr(cur, code), []) == Sgr(cur, code);
  }

  function SetForeground(x: attribute, attr: attribute): attribute { (x & 0xf8) | (attr & 0x07) }

  function SetBackground(x: attribute, attr: attribute): attribute { (x & 0x8f) | (attr & 0x70) }

  function SetBold(x: attribute): attribute { x | 0x08 }

  function SetBlink(x: attribute): attribute { x | 0x80 }

  /** What the codes for `cur` to `attr` do to any attribute `x`, stage by stage. */
  function After(x: attribute, attr: attribute, cur: attribute): attribute {
    if attr == cur then x
    else
      var catr := Compared(attr, cur);
      var x1 := if NeedsReset(attr, cur) then SetBackground(SetForeground(0x07, attr), attr) else x;
      var x2 := if ForegroundDiffers(attr, catr) then SetForeground(x1, attr) else x1;
      var x3 := if BackgroundDiffers(attr, catr) then SetBackground(x2, attr) else x2;
      var x4 := if BoldDiffers(attr, catr) then SetBold(x3) else x3;
      if BlinkDiffers(attr, catr) then SetBlink(x4) else x4
  }

  lemma SgrWhen(x: attribute, b: bool, code: nat)
    ensures SgrAll(x, When(b, [code])) == if b then Sgr(x, code) else x
  {
    hide Sgr;
    SgrOne(x, code);
  }

  lemma SgrReset(x: attribute, attr: attribute)
    ensures SgrAll(x, [0, Foreground(attr), Background(attr)]) == SetBackground(SetForeground(0x07, attr), attr)
  {
    hide Sgr, Foreground, Background;
    var f, b := Foreground(attr), Background(attr);
    assert [0, f, b] == [0] + ([f] + [b]);
    SgrAppend(x, [0], [f] + [b]);
    SgrOne(x, 0);
    SgrZero(x);
    SgrAppend(0x07, [f], [b]);
    SgrOne(0x07, f);
    SgrForeground(0x07, attr);
    SgrOne(SetForeground(0x07, attr), b);
    SgrBackground(SetForeground(0x07, attr), attr);
  }

  lemma SgrZero(x: attribute)
    ensures Sgr(x, 0) == 0x07 && Sgr(x, 1) == SetBold(x) && Sgr(x, 5) == SetBlink(x)
  {
  }

  /** The codes, read from any attribute, do exactly the stages of `After`. */
  lemma CodesDo(x: attribute, attr: attribute, cur: attribute)
    ensures SgrAll(x, Codes(attr, cur)) == After(x, attr, cur)
  {
    hide Sgr, SgrAll, Foreground, Background, SetForeground, SetBackground, SetBold, SetBlink, When, Compared;
    hide NeedsReset, ForegroundDiffers, BackgroundDiffers, BoldDiffers, BlinkDiffers;
    if attr == cur {
      SgrOne(x, 0);
    } else {
      var catr := Compared(attr, cur);
      var w1 := When(NeedsReset(attr, cur), [0, Foreground(attr), Background(attr)]);
      var w2 := When(ForegroundDiffers(attr, catr), [Foreground(attr)]);
      var w3 := When(BackgroundDiffers(attr, catr), [Background(attr)]);
      var w4 := When(BoldDiffers(attr, catr), [1]);
      var w5 := When(BlinkDiffers(attr, catr), [5]);
      var x1 := FirstStage(x, attr, NeedsReset(attr, cur));
      SgrAppend(x, w1, w2 + (w3 + (w4 + w5)));
      SgrAppend(x1, w2, w3 + (w4 + w5));
      SgrWhen(x1, ForegroundDiffers(attr, catr), Foreground(attr));
      SgrForegroundIs(x1, attr);
      var x2 := if ForegroundDiffers(attr, catr) then SetForeground(x1, attr) else x1;
      SgrAppend(x2, w3, w4 + w5);
      SgrWhen(x2, BackgroundDiffers(attr, catr), Background(attr));
      SgrBackgroundIs(x2, attr);
      var x3 := if BackgroundDiffers(attr, catr) then SetBackground(x2, attr) else x2;
      SgrAppend(x3, w4, w5);
      SgrWhen(x3, BoldDiffers(attr, catr), 1);
      SgrZero(x3);
      var x4 := if BoldDiffers(attr, catr) then SetBold(x3) else x3;
      SgrWhen(x4, BlinkDiffers(attr, catr), 5);
      SgrZero(x4);
    }
  }

  lemma FirstStage(x: attribute, attr: attribute, reset: bool) returns (x1: attribute)
    ensures SgrAll(x, When(reset, [0, Foreground(attr), Background(attr)])) == x1
    ensures x1 == if reset then SetBackground(SetForeground(0x07, attr), attr) else x
  {
    hide Sgr, Foreground, Background, SetForeground, SetBackground;
    x1 := if reset then SetBackground(SetForeground(0x07, attr), attr) else x;
    if reset { SgrReset(x, attr); }
  }

  lemma SgrForegroundIs(x: attribute, attr: attribute)
    ensures Sgr(x, Foreground(attr)) == SetForeground(x, attr)
  {
    SgrForeground(x, attr);
  }

  lemma SgrBackgroundIs(x: attribute, attr: attribute)
    ensures Sgr(x, Background(attr)) == SetBackground(x, attr)
  {
    SgrBackground(x, attr);
  }

  /** Printed for the attribute the terminal has, the codes lead to the attribute asked for. */
  lemma CodesLead(attr: attribute, cur: attribute)
    ensures Low(SgrAll(cur, Codes(attr, cur))) == Low(attr)
  {
    hide SgrAll, Codes;
    CodesDo(cur, attr, cur);
    if attr != cur {
      if NeedsReset(attr, cur) {
        ResetLeads(cur, attr, cur);
      } else {
        KeptLeads(cur, attr, cur);
        SameParts(cur, attr);
      }
    }
  }

  lemma ResetLeads(x: attribute, attr: attribute, cur: attribute)
    requires NeedsReset(attr, cur)
    ensures Low(After(x, attr, cur)) == Low(attr)
  {
  }

  /** Bits of `attr` that the codes leave to the attribute they are read from. */
  predicate Agrees(x: attribute, attr: attribute, cur: attribute) {
    && x & 0x88 == attr & 0x88
    && (cur & 0x07 == attr & 0x07 ==> x & 0x07 == attr & 0x07)
    && (cur & 0x70 == attr & 0x70 ==> x & 0x70 == attr & 0x70)
  }

  lemma KeptLeads(x: attribute, attr: attribute, cur: attribute)
    requires !NeedsReset(attr, cur)
    ensures Low(After(x, attr, cur)) == Low(attr) <==> Agrees(x, attr, cur)
  {
    hide Low, SetForeground, SetBackground, SetBold, SetBlink, NeedsReset, BoldDiffers, BlinkDiffers;
    NoStyle(attr, cur);
    ForegroundParts(x, attr);
    BackgroundParts(x, attr);
    BackgroundParts(SetForeground(x, attr), attr);
    LowParts(After(x, attr, cur), attr);
  }

  lemma NoStyle(attr: attribute, cur: attribute)
    requires !NeedsReset(attr, cur)
    ensures !BoldDiffers(attr, cur) && !BlinkDiffers(attr, cur)
  {
  }

  lemma ForegroundParts(x: attribute, attr: attribute)
    ensures var y := SetForeground(x, attr);
      y & 0x88 == x & 0x88 && y & 0x07 == attr & 0x07 && y & 0x70 == x & 0x70
  {
  }

  lemma BackgroundParts(x: attribute, attr: attribute)
    ensures var y := SetBackground(x, attr);
      y & 0x88 == x & 0x88 && y & 0x07 == x & 0x07 && y & 0x70 == attr & 0x70
  {
  }

  lemma LowParts(y: attribute, attr: attribute)
    ensures Low(y) == Low(attr)
       <==> y & 0x88 == attr & 0x88 && y & 0x07 == attr & 0x07 && y & 0x70 == attr & 0x70
  {
  }

  lemma SameParts(cur: attribute, attr: attribute)
    requires !NeedsReset(attr, cur)
    ensures Agrees(cur, attr, cur)
  {
  }

  /** Printed after the attribute has changed again, the codes for `cur` to `attr` still lead to `attr` exactly when
      they start with a reset or the bits they leave alone already agree. */
  lemma StaleCodesLead(x: attribute, attr: attribute, cur: attribute)
    ensures Low(SgrAll(x, Codes(attr, cur))) == Low(attr) <==> NeedsReset(attr, cur) || Agrees(x, attr, cur)
  {
    hide SgrAll, Codes, Agrees;
    CodesDo(x, attr, cur);
    if NeedsReset(attr, cur) {
      ResetLeads(x, attr, cur);
    } else {
      KeptLeads(x, attr, cur);
    }
  }
}
