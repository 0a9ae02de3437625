/** The 32-bit CRC of `bbs/crc.cpp`: the feedback table, the table-driven loop, and what it promises.

    A register is a 32-bit word. The source's accumulator type is `unsigned long`; where that type is
    wider than 32 bits the model is of its low 32 bits.
 */
module Crc {
  import opened Words

  /** The reversed generator polynomial: the X^32 term is implied, X^0 is the top bit. */
  const POLY: bv32 := 0xEDB8_8320

  // The word operations, named so that proofs can set their bits aside.

  function Not(a: bv32): bv32 { !a }

  predicate Odd(w: bv32) { w & 1 == 1 }

  function Octet(w: bv32): bv8 { (w & 0xff) as bv8 }

  function Drop8(w: bv32): bv32 { w >> 8 }

  /** One step of the shift register the table was built from. */
  function Shift(r: bv32): bv32 {
    if Odd(r) then Xor(Down(r), POLY) else Down(r)
  }

  function Eight(r: bv32): bv32 {
    Shift(Shift(Shift(Shift(Shift(Shift(Shift(Shift(r))))))))
  }

  // ----- the feedback terms, sixteen to a row -----

  function Pick(j: bv8,
                t0: bv32, t1: bv32, t2: bv32, t3: bv32, t4: bv32, t5: bv32, t6: bv32, t7: bv32,
                t8: bv32, t9: bv32, t10: bv32, t11: bv32, t12: bv32, t13: bv32, t14: bv32, t15: bv32): bv32
  {
    if j == 0 then t0 else if j == 1 then t1 else if j == 2 then t2 else if j == 3 then t3
    else if j == 4 then t4 else if j == 5 then t5 else if j == 6 then t6 else if j == 7 then t7
    else if j == 8 then t8 else if j == 9 then t9 else if j == 10 then t10 else if j == 11 then t11
    else if j == 12 then t12 else if j == 13 then t13 else if j == 14 then t14 else t15
  }

  function Row0(i: bv8): (t: bv32)
    requires i >> 4 == 0
    ensures t == Eight(i as bv32)
  {
    Pick(i & 15,
         0x00000000, 0x77073096, 0xee0e612c, 0x990951ba, 0x076dc419, 0x706af48f, 0xe963a535, 0x9e6495a3,
         0x0edb8832, 0x79dcb8a4, 0xe0d5e91e, 0x97d2d988, 0x09b64c2b, 0x7eb17cbd, 0xe7b82d07, 0x90bf1d91)
  }

  function Row1(i: bv8): (t: bv32)
    requires i >> 4 == 1
    ensures t == Eight(i as bv32)
  {
    Pick(i & 15,
         0x1db71064, 0x6ab020f2, 0xf3b97148, 0x84be41de, 0x1adad47d, 0x6ddde4eb, 0xf4d4b551, 0x83d385c7,
         0x136c9856, 0x646ba8c0, 0xfd62f97a, 0x8a65c9ec, 0x14015c4f, 0x63066cd9, 0xfa0f3d63, 0x8d080df5)
  }

  function Row2(i: bv8): (t: bv32)
    requires i >> 4 == 2
    ensures t == Eight(i as bv32)
  {
    Pick(i & 15,
         0x3b6e20c8, 0x4c69105e, 0xd56041e4, 0xa2677172, 0x3c03e4d1, 0x4b04d447, 0xd20d85fd, 0xa50ab56b,
         0x35b5a8fa, 0x42b2986c, 0xdbbbc9d6, 0xacbcf940, 0x32d86ce3, 0x45df5c75, 0xdcd60dcf, 0xabd13d59)
  }

  function Row3(i: bv8): (t: bv32)
    requires i >> 4 == 3
    ensures t == Eight(i as bv32)
  {
    Pick(i & 15,
         0x26d930ac, 0x51de003a, 0xc8d75180, 0xbfd06116, 0x21b4f4b5, 0x56b3c423, 0xcfba9599, 0xb8bda50f,
         0x2802b89e, 0x5f058808, 0xc60cd9b2, 0xb10be924, 0x2f6f7c87, 0x58684c11, 0xc1611dab, 0xb6662d3d)
  }

  function Row4(i: bv8): (t: bv32)
    requires i >> 4 == 4
    ensures t == Eight(i as bv32)
  {
    Pick(i & 15,
         0x76dc4190, 0x01db7106, 0x98d220bc, 0xefd5102a, 0x71b18589, 0x06b6b51f, 0x9fbfe4a5, 0xe8b8d433,
         0x7807c9a2, 0x0f00f934, 0x9609a88e, 0xe10e9818, 0x7f6a0dbb, 0x086d3d2d, 0x91646c97, 0xe6635c01)
  }

  function Row5(i: bv8): (t: bv32)
    requires i >> 4 == 5
    ensures t == Eight(i as bv32)
  {
    Pick(i & 15,
         0x6b6b51f4, 0x1c6c6162, 0x856530d8, 0xf262004e, 0x6c0695ed, 0x1b01a57b, 0x8208f4c1, 0xf50fc457,
         0x65b0d9c6, 0x12b7e950, 0x8bbeb8ea, 0xfcb9887c, 0x62dd1ddf, 0x15da2d49, 0x8cd37cf3, 0xfbd44c65)
  }

  function Row6(i: bv8): (t: bv32)
    requires i >> 4 == 6
    ensures t == Eight(i as bv32)
  {
    Pick(i & 15,
         0x4db26158, 0x3ab551ce, 0xa3bc0074, 0xd4bb30e2, 0x4adfa541, 0x3dd895d7, 0xa4d1c46d, 0xd3d6f4fb,
         0x4369e96a, 0x346ed9fc, 0xad678846, 0xda60b8d0, 0x44042d73, 0x33031de5, 0xaa0a4c5f, 0xdd0d7cc9)
  }

  function Row7(i: bv8): (t: bv32)
    requires i >> 4 == 7
    ensures t == Eight(i as bv32)
  {
    Pick(i & 15,
         0x5005713c, 0x270241aa, 0xbe0b1010, 0xc90c2086, 0x5768b525, 0x206f85b3, 0xb966d409, 0xce61e49f,
         0x5edef90e, 0x29d9c998, 0xb0d09822, 0xc7d7a8b4, 0x59b33d17, 0x2eb40d81, 0xb7bd5c3b, 0xc0ba6cad)
  }

  function Row8(i: bv8): (t: bv32)
    requires i >> 4 == 8
    ensures t == Eight(i as bv32)
  {
    Pick(i & 15,
         0xedb88320, 0x9abfb3b6, 0x03b6e20c, 0x74b1d29a, 0xead54739, 0x9dd277af, 0x04db2615, 0x73dc1683,
         0xe3630b12, 0x94643b84, 0x0d6d6a3e, 0x7a6a5aa8, 0xe40ecf0b, 0x9309ff9d, 0x0a00ae27, 0x7d079eb1)
  }

  function Row9(i: bv8): (t: bv32)
    requires i >> 4 == 9
    ensures t == Eight(i as bv32)
  {
    Pick(i & 15,
         0xf00f9344, 0x8708a3d2, 0x1e01f268, 0x6906c2fe, 0xf762575d, 0x806567cb, 0x196c3671, 0x6e6b06e7,
         0xfed41b76, 0x89d32be0, 0x10da7a5a, 0x67dd4acc, 0xf9b9df6f, 0x8ebeeff9, 0x17b7be43, 0x60b08ed5)
  }

  function RowA(i: bv8): (t: bv32)
    requires i >> 4 == 10
    ensures t == Eight(i as bv32)
  {
    Pick(i & 15,
         0xd6d6a3e8, 0xa1d1937e, 0x38d8c2c4, 0x4fdff252, 0xd1bb67f1, 0xa6bc5767, 0x3fb506dd, 0x48b2364b,
         0xd80d2bda, 0xaf0a1b4c, 0x36034af6, 0x41047a60, 0xdf60efc3, 0xa867df55, 0x316e8eef, 0x4669be79)
  }

  function RowB(i: bv8): (t: bv32)
    requires i >> 4 == 11
    ensures t == Eight(i as bv32)
  {
    Pick(i & 15,
         0xcb61b38c, 0xbc66831a, 0x256fd2a0, 0x5268e236, 0xcc0c7795, 0xbb0b4703, 0x220216b9, 0x5505262f,
         0xc5ba3bbe, 0xb2bd0b28, 0x2bb45a92, 0x5cb36a04, 0xc2d7ffa7, 0xb5d0cf31, 0x2cd99e8b, 0x5bdeae1d)
  }

  function RowC(i: bv8): (t: bv32)
    requires i >> 4 == 12
    ensures t == Eight(i as bv32)
  {
    Pick(i & 15,
         0x9b64c2b0, 0xec63f226, 0x756aa39c, 0x026d930a, 0x9c0906a9, 0xeb0e363f, 0x72076785, 0x05005713,
         0x95bf4a82, 0xe2b87a14, 0x7bb12bae, 0x0cb61b38, 0x92d28e9b, 0xe5d5be0d, 0x7cdcefb7, 0x0bdbdf21)
  }

  function RowD(i: bv8): (t: bv32)
    requires i >> 4 == 13
    ensures t == Eight(i as bv32)
  {
    Pick(i & 15,
         0x86d3d2d4, 0xf1d4e242, 0x68ddb3f8, 0x1fda836e, 0x81be16cd, 0xf6b9265b, 0x6fb077e1, 0x18b74777,
         0x88085ae6, 0xff0f6a70, 0x66063bca, 0x11010b5c, 0x8f659eff, 0xf862ae69, 0x616bffd3, 0x166ccf45)
  }

  function RowE(i: bv8): (t: bv32)
    requires i >> 4 == 14
    ensures t == Eight(i as bv32)
  {
    Pick(i & 15,
         0xa00ae278, 0xd70dd2ee, 0x4e048354, 0x3903b3c2, 0xa7672661, 0xd06016f7, 0x4969474d, 0x3e6e77db,
         0xaed16a4a, 0xd9d65adc, 0x40df0b66, 0x37d83bf0, 0xa9bcae53, 0xdebb9ec5, 0x47b2cf7f, 0x30b5ffe9)
  }

  function RowF(i: bv8): (t: bv32)
    requires i >> 4 == 15
    ensures t == Eight(i as bv32)
  {
    Pick(i & 15,
         0xbdbdf21c, 0xcabac28a, 0x53b39330, 0x24b4a3a6, 0xbad03605, 0xcdd70693, 0x54de5729, 0x23d967bf,
         0xb3667a2e, 0xc4614ab8, 0x5d681b02, 0x2a6f2b94, 0xb40bbe37, 0xc30c8ea1, 0x5a05df1b, 0x2d02ef8d)
  }

  /** The table entry for `i`: the register holding `i` after eight steps. */
  function Crc32Tab(i: bv8): (t: bv32)
    ensures t == Eight(i as bv32)
  {
    var r := i >> 4;
    if r == 0 then Row0(i) else if r == 1 then Row1(i) else if r == 2 then Row2(i) else if r == 3 then Row3(i)
    else if r == 4 then Row4(i) else if r == 5 then Row5(i) else if r == 6 then Row6(i) else if r == 7 then Row7(i)
    else if r == 8 then Row8(i) else if r == 9 then Row9(i) else if r == 10 then RowA(i) else if r == 11 then RowB(i)
    else if r == 12 then RowC(i) else if r == 13 then RowD(i) else if r == 14 then RowE(i) else RowF(i)
  }

  /** The table-driven update by one octet. */
  function Updc32(octet: bv8, crc: bv32): bv32 {
    Xor(Crc32Tab(Octet(Xor(crc, octet as bv32))), Drop8(crc))
  }

  // ----- the reference: a message is a stream of bits, fed one at a time -----

  function FeedBits(r: bv32, bits: seq<bool>): bv32
    decreases |bits|
  {
    if bits == [] then r else FeedBits(Shift(Xor(r, Bit(bits[0]))), bits[1..])
  }

  function Bit(b: bool): bv32 { if b then 1 else 0 }

  /** The low `k` bits of `w`, lowest first: the order in which they are sent. */
  function LowBits(w: bv32, k: nat): (s: seq<bool>)
    ensures |s| == k
    decreases k
  {
    if k == 0 then [] else [Odd(w)] + LowBits(Down(w), k - 1)
  }

  function MessageBits(buf: seq<bv8>): (s: seq<bool>)
    ensures |s| == 8 * |buf|
  {
    if buf == [] then [] else LowBits(buf[0] as bv32, 8) + MessageBits(buf[1..])
  }

  const START: bv32 := 0xFFFF_FFFF

  /** The checksum of a message by the bit-at-a-time definition. */
  function BitwiseCrc(buf: seq<bv8>): bv32 {
    Not(FeedBits(START, MessageBits(buf)))
  }

  /** `crc32buf`: the loop over the buffer computes the bit-at-a-time checksum. */
  method Crc32Buf(buf: seq<bv8>) returns (crc: bv32)
    ensures crc == BitwiseCrc(buf)
  {
    hide Updc32, FeedBits, LowBits, Not;
    var oldcrc32: bv32 := START;
    var p := 0;
    while p < |buf|
      invariant 0 <= p <= |buf|
      invariant FeedBits(oldcrc32, MessageBits(buf[p..])) == FeedBits(START, MessageBits(buf))
    {
      UpdateIsEightBits(buf[p], oldcrc32);
      FeedAppend(oldcrc32, LowBits(buf[p] as bv32, 8), MessageBits(buf[p + 1..]));
      assert buf[p..][1..] == buf[p + 1..];
      oldcrc32 := Updc32(buf[p], oldcrc32);
      p := p + 1;
    }
    FeedNothing(oldcrc32);
    return Not(oldcrc32);
  }

  lemma FeedNothing(r: bv32)
    ensures FeedBits(r, []) == r
  {
  }

  // ----- the step is linear and one-to-one -----

  lemma XorCommutes(a: bv32, b: bv32)
    ensures Xor(a, b) == Xor(b, a)
    ensures Xor(a, 0) == a
  {
  }

  lemma XorAssociates(a: bv32, b: bv32, p: bv32)
    ensures Xor(a, Xor(b, p)) == Xor(Xor(a, b), p)
  {
  }

  lemma XorTwice(r: bv32, a: bv32)
    ensures Xor(r, Xor(r, a)) == a
  {
  }

  lemma HalfOfXor(a: bv32, b: bv32)
    ensures Down(Xor(a, b)) == Xor(Down(a), Down(b))
  {
  }

  lemma OddOfXor(a: bv32, b: bv32)
    ensures Odd(Xor(a, b)) == (Odd(a) != Odd(b))
  {
  }

  lemma XorDrops(a: bv32, b: bv32)
    ensures Xor(Xor(a, POLY), Xor(b, POLY)) == Xor(a, b)
  {
  }

  lemma XorMoves(a: bv32, b: bv32, p: bv32)
    ensures Xor(Xor(a, p), b) == Xor(Xor(a, b), p)
  {
    hide *;
    XorAssociates(a, p, b);
    XorCommutes(p, b);
    XorAssociates(a, b, p);
  }

  lemma XorCancel(a: bv32, b: bv32, r: bv32)
    requires a != b
    ensures Xor(r, a) != Xor(r, b) && Xor(a, r) != Xor(b, r)
  {
    hide *;
    XorTwice(r, a);
    XorTwice(r, b);
    XorCommutes(a, r);
    XorCommutes(b, r);
  }

  lemma NotTwice(a: bv32)
    ensures Not(Not(a)) == a
  {
  }

  lemma NotCancel(a: bv32, b: bv32)
    requires a != b
    ensures Not(a) != Not(b)
  {
    hide Not;
    NotTwice(a);
    NotTwice(b);
  }

  lemma ShiftLinear(a: bv32, b: bv32)
    ensures Shift(Xor(a, b)) == Xor(Shift(a), Shift(b))
  {
    hide Xor, Down, Odd;
    HalfOfXor(a, b);
    OddOfXor(a, b);
    XorDrops(Down(a), Down(b));
    XorMoves(Down(a), Down(b), POLY);
    XorAssociates(Down(a), Down(b), POLY);
  }

  /** One step back: the polynomial has the top bit, so that bit tells whether it was xored in. */
  function Unshift(r: bv32): bv32 {
    if TopClear(r) then Up(r) else Or(Up(Xor(r, POLY)), 1)
  }

  lemma UnshiftShift(r: bv32)
    ensures Unshift(Shift(r)) == r
  {
  }

  lemma ShiftInjective(a: bv32, b: bv32)
    requires a != b
    ensures Shift(a) != Shift(b)
  {
    hide *;
    UnshiftShift(a);
    UnshiftShift(b);
  }

  lemma SplitLowBit(w: bv32)
    ensures w == Xor(Bit(Odd(w)), w & 0xFFFF_FFFE)
    ensures !Odd(w & 0xFFFF_FFFE) && Down(w & 0xFFFF_FFFE) == Down(w)
  {
  }

  /** Feeding a word feeds its lowest bit and leaves the rest to be fed. */
  lemma Peel(r: bv32, w: bv32)
    ensures Shift(Xor(r, w)) == Xor(Shift(Xor(r, Bit(Odd(w)))), Down(w))
  {
    hide Xor, Down, Odd, Bit;
    SplitLowBit(w);
    XorAssociates(r, Bit(Odd(w)), w & 0xFFFF_FFFE);
    ShiftLinear(Xor(r, Bit(Odd(w))), w & 0xFFFF_FFFE);
  }

  function ShiftN(r: bv32, k: nat): bv32
    decreases k
  {
    if k == 0 then r else ShiftN(Shift(r), k - 1)
  }

  predicate Fits(w: bv32, k: nat)
    decreases k
  {
    if k == 0 then w == 0 else Fits(Down(w), k - 1)
  }

  /** A word of `k` bits can be xored into the register at once or fed bit by bit. */
  lemma {:induction false} FeedWord(r: bv32, w: bv32, k: nat)
    requires Fits(w, k)
    ensures FeedBits(r, LowBits(w, k)) == ShiftN(Xor(r, w), k)
    decreases k
  {
    hide Shift, Xor, Down, Odd, Bit;
    if k == 0 {
      XorCommutes(r, 0);
    } else {
      Peel(r, w);
      FeedWord(Shift(Xor(r, Bit(Odd(w)))), Down(w), k - 1);
      assert LowBits(w, k)[1..] == LowBits(Down(w), k - 1);
    }
  }

  lemma {:induction false} FeedAppend(r: bv32, a: seq<bool>, b: seq<bool>)
    ensures FeedBits(r, a + b) == FeedBits(FeedBits(r, a), b)
    decreases |a|
  {
    hide Shift, Xor, Bit;
    if a == [] {
      assert a + b == b;
    } else {
      assert (a + b)[1..] == a[1..] + b;
      FeedAppend(Shift(Xor(r, Bit(a[0]))), a[1..], b);
    }
  }

  lemma TwoMore(x: bv32, k: nat)
    ensures ShiftN(x, k + 2) == ShiftN(Shift(Shift(x)), k)
  {
    hide Shift;
    assert ShiftN(x, k + 2) == ShiftN(Shift(x), k + 1);
  }

  lemma EightMore(x: bv32, k: nat)
    ensures ShiftN(x, k + 8) == ShiftN(Eight(x), k)
  {
    hide Shift, ShiftN;
    var x2 := Shift(Shift(x));
    var x4 := Shift(Shift(x2));
    TwoMore(x, k + 6);
    TwoMore(x2, k + 4);
    TwoMore(x4, k + 2);
    TwoMore(Shift(Shift(x4)), k);
  }

  // Eight steps only look at the low byte; the other three just move down.

  lemma {:induction false} ShiftNLinear(a: bv32, b: bv32, k: nat)
    ensures ShiftN(Xor(a, b), k) == Xor(ShiftN(a, k), ShiftN(b, k))
    decreases k
  {
    hide Shift, Xor;
    if k > 0 {
      ShiftLinear(a, b);
      ShiftNLinear(Shift(a), Shift(b), k - 1);
    }
  }

  lemma EightIs(x: bv32)
    ensures Eight(x) == ShiftN(x, 8)
  {
    hide Eight, ShiftN;
    EightMore(x, 0);
    NoShift(Eight(x));
  }

  lemma EightLinear(a: bv32, b: bv32)
    ensures Eight(Xor(a, b)) == Xor(Eight(a), Eight(b))
  {
    hide *;
    ShiftNLinear(a, b, 8);
    EightIs(a);
    EightIs(b);
    EightIs(Xor(a, b));
  }

  lemma EightOfHighBytes(b: bv32)
    requires b & 0xff == 0
    ensures Eight(b) == Drop8(b)
  {
    ZerosBelow(b);
  }

  lemma ZerosBelow(b: bv32)
    requires b & 0xff == 0
    ensures b & 1 == 0 && (b >> 1) & 1 == 0 && (b >> 1 >> 1) & 1 == 0 && (b >> 1 >> 1 >> 1) & 1 == 0
    ensures (b >> 1 >> 1 >> 1 >> 1) & 1 == 0 && (b >> 1 >> 1 >> 1 >> 1 >> 1) & 1 == 0
    ensures (b >> 1 >> 1 >> 1 >> 1 >> 1 >> 1) & 1 == 0 && (b >> 1 >> 1 >> 1 >> 1 >> 1 >> 1 >> 1) & 1 == 0
    ensures b >> 1 >> 1 >> 1 >> 1 >> 1 >> 1 >> 1 >> 1 == b >> 8
  {
  }

  lemma LowHigh(x: bv32)
    ensures x == Xor(Octet(x) as bv32, x & 0xFFFF_FF00)
    ensures Drop8(x & 0xFFFF_FF00) == Drop8(x)
    ensures x & 0xFFFF_FF00 & 0xff == 0
  {
  }

  lemma EightSplits(x: bv32)
    ensures Eight(x) == Xor(Eight(Octet(x) as bv32), Drop8(x))
  {
    hide *;
    LowHigh(x);
    EightOfHighBytes(x & 0xFFFF_FF00);
    EightLinear(Octet(x) as bv32, x & 0xFFFF_FF00);
  }

  lemma DropOctet(crc: bv32, octet: bv8)
    ensures Drop8(Xor(crc, octet as bv32)) == Drop8(crc)
  {
  }

  lemma OctetFits(octet: bv8)
    ensures Fits(octet as bv32, 8)
  {
    var w := octet as bv32;
    assert w >> 1 >> 1 >> 1 >> 1 >> 1 >> 1 >> 1 >> 1 == 0;
    assert Fits(w >> 1 >> 1 >> 1 >> 1 >> 1 >> 1, 2);
    assert Fits(w >> 1 >> 1 >> 1 >> 1, 4);
    assert Fits(w >> 1 >> 1, 6);
  }

  lemma UpdateIsEight(octet: bv8, crc: bv32)
    ensures Updc32(octet, crc) == Eight(Xor(crc, octet as bv32))
  {
    hide Eight, Crc32Tab, Octet, Xor, Drop8;
    DropOctet(crc, octet);
    EightSplits(Xor(crc, octet as bv32));
  }

  /** One table look-up is eight bits fed. */
  lemma UpdateIsEightBits(octet: bv8, crc: bv32)
    ensures Updc32(octet, crc) == FeedBits(crc, LowBits(octet as bv32, 8))
  {
    hide *;
    UpdateIsEight(octet, crc);
    OctetFits(octet);
    FeedWord(crc, octet as bv32, 8);
    EightMore(Xor(crc, octet as bv32), 0);
    NoShift(Eight(Xor(crc, octet as bv32)));
  }

  lemma NoShift(r: bv32)
    ensures ShiftN(r, 0) == r
  {
  }

  // ----- detection of bursts -----

  function Push(b: bool, y: bv32): bv32 { if b then Or(Up(y), 1) else Up(y) }

  function Pack(bits: seq<bool>): bv32 {
    if bits == [] then 0 else Push(bits[0], Pack(bits[1..]))
  }

  predicate TopClear(y: bv32) { And(y, 0x8000_0000) == 0 }

  lemma PushThenHalve(b: bool, y: bv32)
    requires TopClear(y)
    ensures Down(Push(b, y)) == y && Odd(Push(b, y)) == b
  {
    hide Down, Odd, TopClear, Up, Or;
    PushBits(y);
  }

  lemma PushBits(y: bv32)
    requires TopClear(y)
    ensures Down(Or(Up(y), 1)) == y && Odd(Or(Up(y), 1))
    ensures Down(Up(y)) == y && !Odd(Up(y))
  {
  }

  lemma {:induction false} SmallWordHasNoBitAt(y: bv32, k: nat, p: nat)
    requires Fits(y, k) && k <= p < 32
    ensures !Has(y, p)
    decreases k
  {
    hide Has, Down;
    if k == 0 {
      ZeroHas(p);
    } else {
      DownHas(y, p - 1);
      SmallWordHasNoBitAt(Down(y), k - 1, p - 1);
    }
  }

  lemma SmallWordIsClear(y: bv32, k: nat)
    requires Fits(y, k) && k <= 31
    ensures TopClear(y)
  {
    hide Single, Fits;
    SmallWordHasNoBitAt(y, k, 31);
    TopSingle();
  }

  lemma {:induction false} PackRoundTrip(bits: seq<bool>)
    requires |bits| <= 32
    ensures Fits(Pack(bits), |bits|) && LowBits(Pack(bits), |bits|) == bits
  {
    hide Push, Down, Odd, Bit, TopClear;
    if bits != [] {
      PackRoundTrip(bits[1..]);
      SmallWordIsClear(Pack(bits[1..]), |bits| - 1);
      PushThenHalve(bits[0], Pack(bits[1..]));
    }
  }

  lemma {:induction false} ShiftNInjective(a: bv32, b: bv32, k: nat)
    requires a != b
    ensures ShiftN(a, k) != ShiftN(b, k)
    decreases k
  {
    hide Shift;
    if k > 0 {
      ShiftInjective(a, b);
      ShiftNInjective(Shift(a), Shift(b), k - 1);
    }
  }

  /** Feeding the same bits keeps different registers different. */
  lemma {:induction false} FeedInjective(a: bv32, b: bv32, bits: seq<bool>)
    requires a != b
    ensures FeedBits(a, bits) != FeedBits(b, bits)
    decreases |bits|
  {
    hide Shift, Xor, Bit, Not;
    if bits != [] {
      var x := Bit(bits[0]);
      XorCancel(a, b, x);
      ShiftInjective(Xor(a, x), Xor(b, x));
      FeedInjective(Shift(Xor(a, x)), Shift(Xor(b, x)), bits[1..]);
    }
  }

  /** Different words of at most 32 bits lead one register to different registers. */
  lemma BurstWord(r: bv32, u: seq<bool>, v: seq<bool>)
    requires |u| == |v| <= 32 && u != v
    ensures FeedBits(r, u) != FeedBits(r, v)
  {
    hide *;
    PackRoundTrip(u);
    PackRoundTrip(v);
    FeedWord(r, Pack(u), |u|);
    FeedWord(r, Pack(v), |v|);
    XorCancel(Pack(u), Pack(v), r);
    ShiftNInjective(Xor(r, Pack(u)), Xor(r, Pack(v)), |u|);
  }

  /** Two buffers of one length that differ, and only inside a window of 32 consecutive transmitted bits,
      never have the same checksum. */
  lemma BurstDetected(a: seq<bv8>, b: seq<bv8>, lo: nat, hi: nat)
    requires |a| == |b| && a != b
    requires lo <= hi <= 8 * |a| && hi - lo <= 32
    requires forall i :: 0 <= i < 8 * |a| && !(lo <= i < hi) ==> MessageBits(a)[i] == MessageBits(b)[i]
    ensures BitwiseCrc(a) != BitwiseCrc(b)
  {
    hide FeedBits, Not, MessageBits;
    var x, y := MessageBits(a), MessageBits(b);
    BitsDetermineMessage(a, b);
    WindowSplit(x, y, lo, hi);
    BurstFed(x[..lo], x[lo..hi], y[lo..hi], x[hi..]);
    NotCancel(FeedBits(START, x), FeedBits(START, y));
  }

  /** Two messages that agree outside a window. */
  lemma WindowSplit(x: seq<bool>, y: seq<bool>, lo: nat, hi: nat)
    requires |x| == |y| && x != y && lo <= hi <= |x|
    requires forall i :: 0 <= i < |x| && !(lo <= i < hi) ==> x[i] == y[i]
    ensures x == x[..lo] + (x[lo..hi] + x[hi..]) && y == x[..lo] + (y[lo..hi] + x[hi..])
    ensures x[lo..hi] != y[lo..hi]
  {
    assert x == x[..lo] + (x[lo..hi] + x[hi..]);
    assert y == x[..lo] + (y[lo..hi] + x[hi..]);
  }

  lemma BurstFed(head: seq<bool>, u: seq<bool>, v: seq<bool>, tail: seq<bool>)
    requires |u| == |v| <= 32 && u != v
    ensures FeedBits(START, head + (u + tail)) != FeedBits(START, head + (v + tail))
  {
    hide FeedBits;
    var r := FeedBits(START, head);
    FeedAppend(START, head, u + tail);
    FeedAppend(START, head, v + tail);
    FeedAppend(r, u, tail);
    FeedAppend(r, v, tail);
    BurstWord(r, u, v);
    FeedInjective(FeedBits(r, u), FeedBits(r, v), tail);
  }

  lemma {:induction false} BitsDetermineMessage(a: seq<bv8>, b: seq<bv8>)
    requires |a| == |b| && a != b
    ensures MessageBits(a) != MessageBits(b)
  {
    hide LowBits;
    var u, v := MessageBits(a), MessageBits(b);
    assert u[..8] == LowBits(a[0] as bv32, 8) && v[..8] == LowBits(b[0] as bv32, 8);
    assert u[8..] == MessageBits(a[1..]) && v[8..] == MessageBits(b[1..]);
    if a[0] == b[0] {
      BitsDetermineMessage(a[1..], b[1..]);
    } else {
      OctetBitsDiffer(a[0], b[0]);
    }
  }

  lemma OctetBitsDiffer(a: bv8, b: bv8)
    requires a != b
    ensures LowBits(a as bv32, 8) != LowBits(b as bv32, 8)
  {
    hide *;
    OctetFits(a);
    OctetFits(b);
    FeedWord(0, a as bv32, 8);
    FeedWord(0, b as bv32, 8);
    XorCancel(a as bv32, b as bv32, 0);
    ShiftNInjective(Xor(0, a as bv32), Xor(0, b as bv32), 8);
  }

  /** The same for bytes: a difference confined to four consecutive bytes is always detected. */
  lemma FourByteWindowDetected(prefix: seq<bv8>, u: seq<bv8>, v: seq<bv8>, suffix: seq<bv8>)
    requires |u| == |v| <= 4 && u != v
    ensures BitwiseCrc(prefix + u + suffix) != BitwiseCrc(prefix + v + suffix)
  {
    hide *;
    var a, b := prefix + u + suffix, prefix + v + suffix;
    MessageBitsAppend(prefix + u, suffix);
    MessageBitsAppend(prefix + v, suffix);
    MessageBitsAppend(prefix, u);
    MessageBitsAppend(prefix, v);
    assert a[|prefix|..|prefix| + |u|] == u && b[|prefix|..|prefix| + |u|] == v;
    BurstDetected(a, b, 8 * |prefix|, 8 * |prefix| + 8 * |u|);
  }

  lemma {:induction false} MessageBitsAppend(a: seq<bv8>, b: seq<bv8>)
    ensures MessageBits(a + b) == MessageBits(a) + MessageBits(b)
  {
    hide LowBits;
    if a == [] {
      assert a + b == b;
    } else {
      assert (a + b)[1..] == a[1..] + b;
      MessageBitsAppend(a[1..], b);
    }
  }

  // ----- the residue -----

  /** The four octets of a checksum in the order they are sent, low octet first. */
  function Octets(c: bv32): seq<bv8> {
    [Octet(c)] + ([Octet(Drop8(c))] + ([Octet(Drop8(Drop8(c)))] + [Octet(Drop8(Drop8(Drop8(c))))]))
  }

  lemma ShiftsCompose(c: bv32)
    ensures c >> 1 >> 1 == c >> 2 && c >> 2 >> 1 == c >> 3 && c >> 3 >> 1 == c >> 4 && c >> 4 >> 1 == c >> 5
    ensures c >> 5 >> 1 == c >> 6 && c >> 6 >> 1 == c >> 7 && c >> 7 >> 1 == c >> 8
  {
  }

  lemma HalfIs(c: bv32)
    ensures Down(c) == c >> 1 && Down(c >> 1) == c >> 2 && Down(c >> 2) == c >> 3 && Down(c >> 3) == c >> 4
    ensures Down(c >> 4) == c >> 5 && Down(c >> 5) == c >> 6 && Down(c >> 6) == c >> 7 && Down(c >> 7) == c >> 8
  {
    ShiftsCompose(c);
  }

  lemma Drop8Is(w: bv32)
    ensures Drop8(w) == w >> 8
  {
  }

  lemma LowTwo(w: bv32, k: nat, w1: bv32, w2: bv32)
    requires w1 == Down(w) && w2 == Down(w1)
    ensures LowBits(w, k + 2) == [Odd(w), Odd(w1)] + LowBits(w2, k)
    ensures Fits(w, k + 2) == Fits(w2, k)
  {
    hide Odd, Down;
    assert LowBits(w, k + 2) == [Odd(w)] + LowBits(w1, k + 1);
    assert LowBits(w1, k + 1) == [Odd(w1)] + LowBits(w2, k);
  }

  lemma LowFour(w: bv32, k: nat, w1: bv32, w2: bv32, w3: bv32, w4: bv32)
    requires w1 == Down(w) && w2 == Down(w1) && w3 == Down(w2) && w4 == Down(w3)
    ensures LowBits(w, k + 4) == [Odd(w), Odd(w1), Odd(w2), Odd(w3)] + LowBits(w4, k)
    ensures Fits(w, k + 4) == Fits(w4, k)
  {
    hide *;
    LowTwo(w, k + 2, w1, w2);
    LowTwo(w2, k, w3, w4);
  }

  lemma LowEight(w: bv32, k: nat)
    ensures LowBits(w, k + 8) == [Odd(w), Odd(w >> 1), Odd(w >> 2), Odd(w >> 3), Odd(w >> 4), Odd(w >> 5), Odd(w >> 6),
                                  Odd(w >> 7)] + LowBits(Drop8(w), k)
    ensures Fits(w, k + 8) == Fits(Drop8(w), k)
  {
    hide *;
    HalfIs(w);
    Drop8Is(w);
    LowFour(w, k + 4, w >> 1, w >> 2, w >> 3, w >> 4);
    LowFour(w >> 4, k, w >> 5, w >> 6, w >> 7, w >> 8);
  }

  lemma OctetBitsAgree(w: bv32)
    ensures var v := ((w & 0xff) as bv8) as bv32;
      && v & 1 == w & 1 && (v >> 1) & 1 == (w >> 1) & 1 && (v >> 2) & 1 == (w >> 2) & 1 && (v >> 3) & 1 == (w >> 3) & 1
      && (v >> 4) & 1 == (w >> 4) & 1 && (v >> 5) & 1 == (w >> 5) & 1 && (v >> 6) & 1 == (w >> 6) & 1
      && (v >> 7) & 1 == (w >> 7) & 1
  {
  }

  lemma OctetOddAgree(w: bv32, v: bv32)
    requires v == Octet(w) as bv32
    ensures Odd(v) == Odd(w) && Odd(v >> 1) == Odd(w >> 1) && Odd(v >> 2) == Odd(w >> 2) && Odd(v >> 3) == Odd(w >> 3)
    ensures Odd(v >> 4) == Odd(w >> 4) && Odd(v >> 5) == Odd(w >> 5) && Odd(v >> 6) == Odd(w >> 6)
    ensures Odd(v >> 7) == Odd(w >> 7)
  {
    OctetBitsAgree(w);
  }

  lemma NoBits(w: bv32)
    ensures LowBits(w, 0) == [] && MessageBits([]) == []
  {
  }

  lemma LowByteBits(w: bv32, k: nat)
    ensures LowBits(w, k + 8) == LowBits(Octet(w) as bv32, 8) + LowBits(Drop8(w), k)
  {
    hide *;
    var v := Octet(w) as bv32;
    OctetOddAgree(w, v);
    LowEight(w, k);
    LowEight(v, 0);
    NoBits(Drop8(v));
  }

  lemma OneOctet(o: bv8, rest: seq<bv8>)
    ensures MessageBits([o] + rest) == LowBits(o as bv32, 8) + MessageBits(rest)
  {
    hide LowBits;
    assert ([o] + rest)[1..] == rest;
  }

  lemma LastOctet(f: bv32)
    requires Drop8(f) == 0
    ensures MessageBits([Octet(f)]) == LowBits(f, 8)
  {
    hide *;
    LowByteBits(f, 0);
    OneOctet(Octet(f), []);
    assert [Octet(f)] + [] == [Octet(f)];
    NoBits(Drop8(f));
  }

  lemma NextOctet(f: bv32, k: nat, rest: seq<bv8>)
    requires MessageBits(rest) == LowBits(Drop8(f), k)
    ensures MessageBits([Octet(f)] + rest) == LowBits(f, k + 8)
  {
    hide *;
    LowByteBits(f, k);
    OneOctet(Octet(f), rest);
  }

  lemma OctetBits(c: bv32)
    ensures MessageBits(Octets(c)) == LowBits(c, 32)
  {
    hide LowBits, MessageBits, Octet, Drop8;
    DropAll(c);
    LastOctet(Drop8(Drop8(Drop8(c))));
    NextOctet(Drop8(Drop8(c)), 8, [Octet(Drop8(Drop8(Drop8(c))))]);
    NextOctet(Drop8(c), 16, [Octet(Drop8(Drop8(c)))] + [Octet(Drop8(Drop8(Drop8(c))))]);
    NextOctet(c, 24, [Octet(Drop8(c))] + ([Octet(Drop8(Drop8(c)))] + [Octet(Drop8(Drop8(Drop8(c))))]));
  }

  lemma XorNot(r: bv32)
    ensures Xor(r, Not(r)) == START
  {
  }

  lemma WordFits(w: bv32)
    ensures Fits(w, 32)
  {
    hide *;
    LowEight(Drop8(Drop8(Drop8(w))), 0);
    LowEight(Drop8(Drop8(w)), 8);
    LowEight(Drop8(w), 16);
    LowEight(w, 24);
    DropAll(w);
    FitsNothing();
  }

  lemma DropAll(w: bv32)
    ensures Drop8(Drop8(Drop8(Drop8(w)))) == 0
  {
  }

  lemma FitsNothing()
    ensures Fits(0, 0)
  {
  }

  lemma AllOnesRun()
    ensures ShiftN(START, 32) == 0xDEBB_20E3
  {
    hide ShiftN;
    assert Eight(0xFFFF_FFFF) == 0x2DFD_1072 && Eight(0x2DFD_1072) == 0xBE26_ED00;
    assert Eight(0xBE26_ED00) == 0x00BE_26ED && Eight(0x00BE_26ED) == 0xDEBB_20E3;
    EightMore(0xFFFF_FFFF, 24);
    EightMore(0x2DFD_1072, 16);
    EightMore(0xBE26_ED00, 8);
    EightMore(0x00BE_26ED, 0);
    NoShift(0xDEBB_20E3);
  }

  /** Every message followed by its own checksum has the same checksum. */
  lemma Residue(buf: seq<bv8>)
    ensures BitwiseCrc(buf + Octets(BitwiseCrc(buf))) == 0x2144_DF1C
  {
    hide FeedBits, LowBits, Octets, MessageBits, ShiftN, Xor, Fits;
    var r := FeedBits(START, MessageBits(buf));
    MessageBitsAppend(buf, Octets(Not(r)));
    OctetBits(Not(r));
    FeedAppend(START, MessageBits(buf), LowBits(Not(r), 32));
    WordFits(Not(r));
    FeedWord(r, Not(r), 32);
    XorNot(r);
    AllOnesRun();
  }
}
