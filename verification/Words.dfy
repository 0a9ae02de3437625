/** Bits of 32-bit words: what the shifts and masks of `bbs/diredit.cpp` do to each bit. */
module Words {

  /** `w << k`, one place at a time. A shift by 32 gives 0, which is what the masks of the source intend. */
  function Shl(w: bv32, k: nat): bv32 {
    if k == 0 then w else Up(Shl(w, k - 1))
  }

  /** `w >> k`, one place at a time. */
  function Shr(w: bv32, k: nat): bv32 {
    if k == 0 then w else Down(Shr(w, k - 1))
  }

  function Up(w: bv32): bv32 { w << 1 }

  function Down(w: bv32): bv32 { w >> 1 }

  function And(a: bv32, b: bv32): bv32 { a & b }

  function Or(a: bv32, b: bv32): bv32 { a | b }

  function Xor(a: bv32, b: bv32): bv32 { a ^ b }

  const ONES: bv32 := 0xFFFF_FFFF

  /** The word with bit `j` only. */
  function Single(j: nat): bv32
  {
    Shl(1, j)
  }

  /** Bit `j` of `w` is set. */
  predicate Has(w: bv32, j: nat)
    requires j < 32
  {
    And(w, Single(j)) != 0
  }

  predicate IsSingle(p: bv32) { p != 0 && p & (p - 1) == 0 }

  lemma UpSingle(p: bv32)
    requires IsSingle(p) && p & 0x8000_0000 == 0
    ensures IsSingle(Up(p)) && Down(Up(p)) == p
  {
  }

  lemma TopSingle()
    ensures Single(31) == 0x8000_0000
  {
    assert Shl(1, 8) == 0x100;
    assert Shl(1, 16) == 0x1_0000;
    assert Shl(1, 24) == 0x100_0000;
  }

  lemma {:induction false} ShlTwice(w: bv32, a: nat, b: nat)
    ensures Shl(Shl(w, a), b) == Shl(w, a + b)
  {
    hide Up;
    if b > 0 { ShlTwice(w, a, b - 1); }
  }

  lemma {:induction false} ShlOfZero(k: nat)
    ensures Shl(0, k) == 0
  {
    if k > 0 { ShlOfZero(k - 1); }
  }

  lemma TopIsLast(p: bv32)
    requires IsSingle(p) && p & 0x8000_0000 != 0
    ensures Up(p) == 0
  {
  }

  /** `Single(j)` is one bit, and only the last one is the top bit. */
  lemma {:induction false} SingleBit(j: nat)
    requires j < 32
    ensures IsSingle(Single(j)) && Single(j) != 0
    ensures j < 31 ==> Single(j) & 0x8000_0000 == 0
  {
    hide Up;
    if j == 0 {
      OneIsSingle();
    } else {
      SingleBit(j - 1);
      UpSingle(Single(j - 1));
    }
    if j < 31 && Single(j) & 0x8000_0000 != 0 {
      TopIsLast(Single(j));
      ShlTwice(1, j + 1, 31 - (j + 1));
      ShlOfZero(31 - (j + 1));
      TopSingle();
      assert false;
    }
  }

  lemma OneIsSingle()
    ensures IsSingle(1) && 1 & 0x8000_0000 == 0 as bv32
  {
  }

  // ----- each operation, bit by bit -----

  lemma ZeroHas(j: nat)
    requires j < 32
    ensures !Has(0, j)
  {
    hide Single;
    AndZero(Single(j));
  }

  lemma AndZero(p: bv32)
    ensures And(0, p) == 0 && And(ONES, p) == p
  {
  }

  lemma OnesHas(j: nat)
    requires j < 32
    ensures Has(ONES, j)
  {
    hide Single, And;
    AndZero(Single(j));
    SingleBit(j);
    assert Single(j) != 0;
  }

  lemma OrDistributes(a: bv32, b: bv32, p: bv32)
    ensures And(Or(a, b), p) == Or(And(a, p), And(b, p))
  {
    assert (a | b) & p == (a & p) | (b & p);
  }

  lemma OrZero(a: bv32, b: bv32)
    ensures Or(a, b) != 0 <==> a != 0 || b != 0
  {
  }

  lemma OrHas(a: bv32, b: bv32, j: nat)
    requires j < 32
    ensures Has(Or(a, b), j) <==> Has(a, j) || Has(b, j)
  {
    hide Single, And, Or;
    OrDistributes(a, b, Single(j));
    OrZero(And(a, Single(j)), And(b, Single(j)));
  }

  lemma SingleMeets(a: bv32, p: bv32)
    requires IsSingle(p)
    ensures And(a, p) == 0 || And(a, p) == p
  {
  }

  lemma AndBit(a: bv32, b: bv32, p: bv32)
    ensures And(And(a, b), p) == And(And(a, p), And(b, p))
  {
  }

  lemma AndSelf(p: bv32)
    ensures And(p, p) == p && And(0, p) == 0 && And(p, 0) == 0 && And(0, 0) == 0
  {
  }

  lemma AndHas(a: bv32, b: bv32, j: nat)
    requires j < 32
    ensures Has(And(a, b), j) <==> Has(a, j) && Has(b, j)
  {
    hide Single, And, IsSingle;
    SingleBit(j);
    SingleMeets(a, Single(j));
    SingleMeets(b, Single(j));
    AndBit(a, b, Single(j));
    AndSelf(Single(j));
  }

  lemma UpBit(w: bv32, p: bv32)
    requires p & 0x8000_0000 == 0
    ensures And(Up(w), Up(p)) != 0 <==> And(w, p) != 0
  {
  }

  lemma UpLow(w: bv32)
    ensures And(Up(w), 1) == 0
  {
  }

  lemma UpHas(w: bv32, j: nat)
    requires j < 32
    ensures Has(Up(w), j) <==> j > 0 && Has(w, j - 1)
  {
    hide Up, And;
    if j == 0 {
      UpLow(w);
    } else {
      SingleBit(j - 1);
      UpBit(w, Single(j - 1));
    }
  }

  lemma DownBit(w: bv32, p: bv32)
    requires p & 0x8000_0000 == 0
    ensures And(Down(w), p) != 0 <==> And(w, Up(p)) != 0
  {
  }

  lemma DownTop(w: bv32)
    ensures And(Down(w), 0x8000_0000) == 0
  {
  }

  lemma DownHas(w: bv32, j: nat)
    requires j < 32
    ensures Has(Down(w), j) <==> j < 31 && Has(w, j + 1)
  {
    hide Up, Down, And;
    if j == 31 {
      TopSingle();
      DownTop(w);
    } else {
      SingleBit(j);
      DownBit(w, Single(j));
    }
  }

  lemma {:induction false} ShlHas(w: bv32, k: nat, j: nat)
    requires j < 32
    ensures Has(Shl(w, k), j) <==> j >= k && Has(w, j - k)
  {
    hide Up, Has;
    if k > 0 {
      UpHas(Shl(w, k - 1), j);
      if j > 0 { ShlHas(w, k - 1, j - 1); }
    }
  }

  lemma {:induction false} ShrHas(w: bv32, k: nat, j: nat)
    requires j < 32
    ensures Has(Shr(w, k), j) <==> j + k < 32 && Has(w, j + k)
  {
    hide Down, Has;
    if k > 0 {
      DownHas(Shr(w, k - 1), j);
      if j < 31 { ShrHas(w, k - 1, j + 1); }
    }
  }

  lemma SingleHas(k: nat, j: nat)
    requires j < 32
    ensures Has(Single(k), j) <==> j == k
  {
    hide Has, Shl;
    ShlHas(1, k, j);
    if j >= k { OneHas(j - k); }
  }

  lemma OneHas(j: nat)
    requires j < 32
    ensures Has(1, j) <==> j == 0
  {
    hide And, Up;
    if j > 0 {
      UpLow(Single(j - 1));
      AndSwaps(Single(j), 1);
    } else {
      AndSelf(1);
    }
  }

  lemma AndSwaps(a: bv32, b: bv32)
    ensures And(a, b) == And(b, a)
  {
  }

  lemma FlipOther(w: bv32, p: bv32, q: bv32)
    requires And(p, q) == 0
    ensures And(Xor(w, p), q) == And(w, q)
  {
  }

  lemma FlipOwn(w: bv32, p: bv32)
    ensures And(w, p) == 0 ==> And(Xor(w, p), p) == p
    ensures And(w, p) == p ==> And(Xor(w, p), p) == 0
  {
  }

  lemma SinglesMeet(p: bv32, q: bv32)
    requires IsSingle(p) && IsSingle(q) && p != q
    ensures And(p, q) == 0
  {
  }

  /** Flipping bit `k` changes that bit and no other. */
  lemma FlipHas(w: bv32, k: nat, j: nat)
    requires j < 32 && k < 32
    ensures Has(Xor(w, Single(k)), j) <==> (Has(w, j) != (j == k))
  {
    hide Single, Xor, And, IsSingle;
    SingleBit(j);
    SingleBit(k);
    SingleMeets(w, Single(j));
    if j != k {
      SinglesDiffer(j, k);
      SinglesMeet(Single(k), Single(j));
      FlipOther(w, Single(k), Single(j));
    } else {
      FlipOwn(w, Single(j));
    }
  }

  lemma SinglesDiffer(j: nat, k: nat)
    requires j < 32 && k < 32 && j != k
    ensures Single(j) != Single(k)
  {
    hide Single;
    SingleHas(k, j);
    SingleHas(j, j);
  }

  // ----- the machine's own shifts -----

  function MachineShl(w: bv32, k: bv5): bv32 { w << k }

  function MachineShr(w: bv32, k: bv5): bv32 { w >> k }

  // One place more, for the 31 amounts it can be added to. The cases halve the amounts to look at.

  lemma OnePlaceMoreUp(w: bv32, k: bv5)
    requires k < 31
    ensures MachineShl(w, k + 1) == Up(MachineShl(w, k))
  {
    if k < 16 {
      if k < 8 { if k < 4 {} } else { if k < 12 {} }
    } else {
      if k < 24 {}
    }
  }

  lemma OnePlaceMoreDown(w: bv32, k: bv5)
    requires k < 31
    ensures MachineShr(w, k + 1) == Down(MachineShr(w, k))
  {
    if k < 16 {
      if k < 8 { if k < 4 {} } else { if k < 12 {} }
    } else {
      if k < 24 {}
    }
  }

  lemma NoPlaces(w: bv32, k: bv5)
    requires k == 0
    ensures MachineShl(w, k) == w && MachineShr(w, k) == w
  {
  }

  lemma OneLess(k: bv5)
    requires k != 0
    ensures (k - 1) as nat == k as nat - 1 && (k - 1) + 1 == k && k - 1 < 31
  {
  }

  /** Up to 31 places the shifts are the machine's. */
  lemma {:induction false} ShiftsAreTheMachines(w: bv32, k: bv5)
    ensures Shl(w, k as nat) == MachineShl(w, k) && Shr(w, k as nat) == MachineShr(w, k)
    decreases k as nat
  {
    hide Up, Down, MachineShl, MachineShr;
    if k == 0 {
      NoPlaces(w, k);
    } else {
      OneLess(k);
      ShiftsAreTheMachines(w, k - 1);
      OnePlaceMoreUp(w, k - 1);
      OnePlaceMoreDown(w, k - 1);
    }
  }
}
