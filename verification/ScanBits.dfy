/** The packed new-scan words of one user (`pTempQScan_n` in `bbs/diredit.cpp`): bit `k` of the array says whether
    the user scans file area `k`. The in-place loops over the words refine insertion, removal and exchange of one
    element in a sequence of booleans.
 */
module ScanBits {
  import opened Seqs
  import opened Words

  /** Bit `k` of the word array. */
  predicate BitAt(ws: seq<bv32>, k: nat)
    requires k < 32 * |ws|
  {
    Has(ws[k / 32], k % 32)
  }

  /** The first `len` bits. */
  function BitSeq(ws: seq<bv32>, len: nat): (b: seq<bool>)
    requires len <= 32 * |ws|
    ensures |b| == len
  {
    seq(len, k requires 0 <= k < len => BitAt(ws, k))
  }

  // ----- insert_dir -----

  /** The word that receives the new bit: the bits strictly above `k` move up, those strictly below stay. */
  function OpenSlot(w: bv32, k: nat): bv32
    requires k < 32
  {
    var m1 := Single(k);
    var m2 := Shl(ONES, k + 1);
    var m3 := Shr(ONES, 32 - k);
    Or(Or(m1, And(m2, Up(w))), And(m3, w))
  }

  /** A word above it: everything moves up one place and the top bit of the word below comes in. */
  function CarryUp(w: bv32, below: bv32): bv32 {
    Or(Up(w), Shr(below, 31))
  }

  /** The words after insertion at `n`, when there are now `size` areas. */
  function InsertWords(ws: seq<bv32>, n: nat, size: nat): (r: seq<bv32>)
    requires n <= size && size / 32 < |ws|
    ensures |r| == |ws|
  {
    seq(|ws|, i requires 0 <= i < |ws| =>
      if i < n / 32 || size / 32 < i then ws[i]
      else if i == n / 32 then OpenSlot(ws[i], n % 32)
      else CarryUp(ws[i], ws[i - 1]))
  }

  lemma InsertWordsAt(ws: seq<bv32>, n: nat, size: nat, i: nat)
    requires n <= size && size / 32 < |ws| && i < |ws|
    ensures InsertWords(ws, n, size)[i]
         == if i < n / 32 || size / 32 < i then ws[i]
            else if i == n / 32 then OpenSlot(ws[i], n % 32)
            else CarryUp(ws[i], ws[i - 1])
  {
  }

  /** The loop of `insert_dir` over one user's words. */
  method InsertBit(words: array<bv32>, n: nat, size: nat)
    requires n <= size && size / 32 < words.Length
    modifies words
    ensures words[..] == InsertWords(old(words[..]), n, size)
  {
    hide OpenSlot, CarryUp, InsertWords;
    var low, i1 := n / 32, size / 32;
    ghost var was := words[..];
    ghost var now := InsertWords(was, n, size);
    forall i: nat | i < |was| && (i < low || i > i1) ensures now[i] == was[i] { InsertWordsAt(was, n, size, i); }
    ghost var high := i1;
    while i1 > low
      invariant low <= i1 <= high
      invariant forall i :: 0 <= i <= i1 ==> words[i] == was[i]
      invariant forall i :: i1 < i < words.Length ==> words[i] == now[i]
    {
      InsertWordsAt(was, n, size, i1);
      words[i1] := CarryUp(words[i1], words[i1 - 1]);
      i1 := i1 - 1;
    }
    InsertWordsAt(was, n, size, low);
    words[i1] := OpenSlot(words[i1], n % 32);
    assert words[..] == now;
  }

  lemma OpenSlotHas(w: bv32, k: nat, j: nat)
    requires k < 32 && j < 32
    ensures Has(OpenSlot(w, k), j) <==> if j < k then Has(w, j) else j == k || Has(w, j - 1)
  {
    hide Has, Shl, Shr, And, Or, Up, Single;
    var m1, m2, m3 := Single(k), Shl(ONES, k + 1), Shr(ONES, 32 - k);
    OrHas(Or(m1, And(m2, Up(w))), And(m3, w), j);
    OrHas(m1, And(m2, Up(w)), j);
    AndHas(m2, Up(w), j);
    AndHas(m3, w, j);
    SingleHas(k, j);
    UpHas(w, j);
    ShlHas(ONES, k + 1, j);
    ShrHas(ONES, 32 - k, j);
    if j >= k + 1 { OnesHas(j - (k + 1)); }
    if j + (32 - k) < 32 { OnesHas(j + (32 - k)); }
  }

  lemma CarryUpHas(w: bv32, below: bv32, j: nat)
    requires j < 32
    ensures Has(CarryUp(w, below), j) <==> if j == 0 then Has(below, 31) else Has(w, j - 1)
  {
    hide Has, Shr, Or, Up;
    OrHas(Up(w), Shr(below, 31), j);
    UpHas(w, j);
    ShrHas(below, 31, j);
  }

  /** Where the neighbours of bit `k` are. */
  lemma Neighbours(k: nat)
    ensures (k + 1) / 32 == (if k % 32 == 31 then k / 32 + 1 else k / 32)
    ensures (k + 1) % 32 == (if k % 32 == 31 then 0 else k % 32 + 1)
  {
  }

  /** Every bit after insertion, as far as the words reach. */
  lemma InsertBitAt(ws: seq<bv32>, n: nat, size: nat, k: nat)
    requires n <= size && size / 32 < |ws| && k < 32 * |ws|
    ensures k / 32 <= size / 32
        ==> BitAt(InsertWords(ws, n, size), k) == (if k < n then BitAt(ws, k) else k == n || BitAt(ws, k - 1))
    ensures k / 32 > size / 32 ==> BitAt(InsertWords(ws, n, size), k) == BitAt(ws, k)
  {
    hide OpenSlot, CarryUp, Has, InsertWords;
    var i, j := k / 32, k % 32;
    InsertWordsAt(ws, n, size, i);
    if k > 0 { Neighbours(k - 1); }
    if n / 32 == i {
      OpenSlotHas(ws[i], n % 32, j);
    } else if n / 32 < i <= size / 32 {
      CarryUpHas(ws[i], ws[i - 1], j);
    }
  }

  /** The carry loop and masks of `insert_dir` insert `true` at position `n`. */
  lemma InsertRefines(ws: seq<bv32>, n: nat, len: nat)
    requires n <= len && (len + 1) / 32 < |ws|
    ensures BitSeq(InsertWords(ws, n, len + 1), len + 1) == InsertAt(BitSeq(ws, len), n, true)
  {
    hide InsertWords, BitAt;
    forall k | 0 <= k < len + 1
      ensures BitSeq(InsertWords(ws, n, len + 1), len + 1)[k] == InsertAt(BitSeq(ws, len), n, true)[k]
    {
      InsertBitAt(ws, n, len + 1, k);
    }
  }

  // ----- delete_dir -----

  /** The word that loses bit `k`: the bits below stay, those above move down, and the next word's lowest comes in. */
  function CloseSlot(w: bv32, next: bv32, k: nat): bv32
    requires k < 32
  {
    var m2 := Shl(ONES, k);
    var m3 := Shr(ONES, 32 - k);
    Or(Or(And(w, m3), And(Down(w), m2)), Shl(next, 31))
  }

  function CarryDown(w: bv32, next: bv32): bv32 {
    Or(Down(w), Shl(next, 31))
  }

  /** The words after removal at `n`, when `size` areas are left. The loop reads one word past the last it writes. */
  function DeleteWords(ws: seq<bv32>, n: nat, size: nat): (r: seq<bv32>)
    requires n <= size && size / 32 + 1 < |ws|
    ensures |r| == |ws|
  {
    seq(|ws|, i requires 0 <= i < |ws| =>
      if i < n / 32 || size / 32 < i then ws[i]
      else if i == n / 32 then CloseSlot(ws[i], ws[i + 1], n % 32)
      else CarryDown(ws[i], ws[i + 1]))
  }

  lemma DeleteWordsAt(ws: seq<bv32>, n: nat, size: nat, i: nat)
    requires n <= size && size / 32 + 1 < |ws| && i < |ws|
    ensures DeleteWords(ws, n, size)[i]
         == if i < n / 32 || size / 32 < i then ws[i]
            else if i == n / 32 then CloseSlot(ws[i], ws[i + 1], n % 32)
            else CarryDown(ws[i], ws[i + 1])
  {
  }

  /** The loop of `delete_dir` over one user's words. */
  method DeleteBit(words: array<bv32>, n: nat, size: nat)
    requires n <= size && size / 32 + 1 < words.Length
    modifies words
    ensures words[..] == DeleteWords(old(words[..]), n, size)
  {
    hide CloseSlot, CarryDown, DeleteWords;
    var low, high := n / 32, size / 32;
    ghost var was := words[..];
    ghost var now := DeleteWords(was, n, size);
    forall i: nat | i < |was| && (i < low || i > high) ensures now[i] == was[i] { DeleteWordsAt(was, n, size, i); }
    DeleteWordsAt(was, n, size, low);
    words[low] := CloseSlot(words[low], words[low + 1], n % 32);
    var i1 := low + 1;
    while i1 <= high
      invariant low < i1 <= high + 1
      invariant forall i :: 0 <= i < i1 ==> words[i] == now[i]
      invariant forall i :: i1 <= i < words.Length ==> words[i] == was[i]
    {
      DeleteWordsAt(was, n, size, i1);
      words[i1] := CarryDown(words[i1], words[i1 + 1]);
      i1 := i1 + 1;
    }
    assert words[..] == now;
  }

  lemma CloseSlotHas(w: bv32, next: bv32, k: nat, j: nat)
    requires k < 32 && j < 32
    ensures Has(CloseSlot(w, next, k), j)
       <==> if j < k then Has(w, j) else if j < 31 then Has(w, j + 1) else Has(next, 0)
  {
    hide Has, Shl, Shr, And, Or, Down;
    var m2, m3 := Shl(ONES, k), Shr(ONES, 32 - k);
    OrHas(Or(And(w, m3), And(Down(w), m2)), Shl(next, 31), j);
    OrHas(And(w, m3), And(Down(w), m2), j);
    AndHas(w, m3, j);
    AndHas(Down(w), m2, j);
    DownHas(w, j);
    ShlHas(next, 31, j);
    ShlHas(ONES, k, j);
    ShrHas(ONES, 32 - k, j);
    if j >= k { OnesHas(j - k); }
    if j + (32 - k) < 32 { OnesHas(j + (32 - k)); }
  }

  lemma CarryDownHas(w: bv32, next: bv32, j: nat)
    requires j < 32
    ensures Has(CarryDown(w, next), j) <==> if j < 31 then Has(w, j + 1) else Has(next, 0)
  {
    hide Has, Shl, Or, Down;
    OrHas(Down(w), Shl(next, 31), j);
    DownHas(w, j);
    ShlHas(next, 31, j);
  }

  lemma DeleteBitAt(ws: seq<bv32>, n: nat, size: nat, k: nat)
    requires n <= size && size / 32 + 1 < |ws| && k < 32 * |ws|
    ensures k / 32 <= size / 32
        ==> BitAt(DeleteWords(ws, n, size), k) == (if k < n then BitAt(ws, k) else BitAt(ws, k + 1))
    ensures k / 32 > size / 32 ==> BitAt(DeleteWords(ws, n, size), k) == BitAt(ws, k)
  {
    hide CloseSlot, CarryDown, Has, DeleteWords;
    var i, j := k / 32, k % 32;
    DeleteWordsAt(ws, n, size, i);
    Neighbours(k);
    if n / 32 == i {
      CloseSlotHas(ws[i], ws[i + 1], n % 32, j);
    } else if n / 32 < i <= size / 32 {
      CarryDownHas(ws[i], ws[i + 1], j);
    }
  }

  /** The masks and loop of `delete_dir` remove position `n`. */
  lemma DeleteRefines(ws: seq<bv32>, n: nat, len: nat)
    requires n < len && (len - 1) / 32 + 1 < |ws|
    ensures BitSeq(DeleteWords(ws, n, len - 1), len - 1) == RemoveAt(BitSeq(ws, len), n)
  {
    hide DeleteWords, BitAt;
    forall k | 0 <= k < len - 1
      ensures BitSeq(DeleteWords(ws, n, len - 1), len - 1)[k] == RemoveAt(BitSeq(ws, len), n)[k]
    {
      DeleteBitAt(ws, n, len - 1, k);
    }
  }

  // ----- swap_dirs -----

  /** `vs` is `ws` with the bits `d1` and `d2` exchanged and every other bit kept. */
  ghost predicate Exchanged(ws: seq<bv32>, vs: seq<bv32>, d1: nat, d2: nat)
    requires d1 < 32 * |ws| && d2 < 32 * |ws|
  {
    |vs| == |ws| && forall k :: 0 <= k < 32 * |ws| ==>
      BitAt(vs, k) == BitAt(ws, if k == d1 then d2 else if k == d2 then d1 else k)
  }

  lemma ExchangeRefines(ws: seq<bv32>, vs: seq<bv32>, d1: nat, d2: nat, len: nat)
    requires d1 < len && d2 < len && len <= 32 * |ws| && Exchanged(ws, vs, d1, d2)
    ensures BitSeq(vs, len) == SwapAt(BitSeq(ws, len), d1, d2)
  {
  }

  function FlipBit(ws: seq<bv32>, d: nat): (r: seq<bv32>)
    requires d < 32 * |ws|
    ensures |r| == |ws|
  {
    ws[d / 32 := Xor(ws[d / 32], Single(d % 32))]
  }

  /** The words after `swap_dirs`: when exactly one of the two bits is set, both are flipped. */
  function SwapWords(ws: seq<bv32>, d1: nat, d2: nat): (r: seq<bv32>)
    requires d1 < 32 * |ws| && d2 < 32 * |ws|
    ensures |r| == |ws|
  {
    if BitAt(ws, d1) != BitAt(ws, d2) then FlipBit(FlipBit(ws, d1), d2) else ws
  }

  /** `swap_dirs` on one user's words. */
  method SwapBits(words: array<bv32>, d1: nat, d2: nat)
    requires d1 < 32 * words.Length && d2 < 32 * words.Length
    modifies words
    ensures words[..] == SwapWords(old(words[..]), d1, d2)
  {
    hide Has, Xor, Single;
    var i1 := if Has(words[d1 / 32], d1 % 32) then 1 else 0;
    var i2 := if Has(words[d2 / 32], d2 % 32) then 1 else 0;
    if i1 + i2 == 1 {
      words[d1 / 32] := Xor(words[d1 / 32], Single(d1 % 32));
      assert words[..] == FlipBit(old(words[..]), d1);
      words[d2 / 32] := Xor(words[d2 / 32], Single(d2 % 32));
      assert words[..] == FlipBit(FlipBit(old(words[..]), d1), d2);
    }
  }

  /** That exchanges the two bits and keeps every other bit of the array. */
  lemma SwapExchanges(ws: seq<bv32>, d1: nat, d2: nat)
    requires d1 < 32 * |ws| && d2 < 32 * |ws|
    ensures Exchanged(ws, SwapWords(ws, d1, d2), d1, d2)
  {
    hide FlipBit, BitAt;
    if BitAt(ws, d1) != BitAt(ws, d2) {
      FlippedBits(ws, FlipBit(ws, d1), d1);
      FlippedBits(FlipBit(ws, d1), FlipBit(FlipBit(ws, d1), d2), d2);
    }
  }

  lemma FlippedBits(ws: seq<bv32>, vs: seq<bv32>, d: nat)
    requires d < 32 * |ws| && vs == FlipBit(ws, d)
    ensures forall k :: 0 <= k < 32 * |ws| ==> (BitAt(vs, k) <==> (BitAt(ws, k) != (k == d)))
  {
    hide Has, Xor, Single;
    forall k | 0 <= k < 32 * |ws|
      ensures BitAt(vs, k) <==> (BitAt(ws, k) != (k == d))
    {
      if k / 32 == d / 32 { FlipHas(ws[d / 32], d % 32, k % 32); }
    }
  }

  // ----- the words after the file areas belong to the message areas -----

  /** A move in a list of `len` areas: insertion in front of area `i2`, exchange with the moved area at `p`, removal of
      `p`. */
  function MoveWords(ws: seq<bv32>, p: nat, i2: nat, len: nat): (r: seq<bv32>)
    requires p <= len && i2 <= len && (len + 1) / 32 < |ws| && len / 32 + 1 < |ws|
    ensures |r| == |ws|
  {
    DeleteWords(SwapWords(InsertWords(ws, i2, len + 1), p, i2), p, len)
  }

  /** From word `d` on nothing is changed. */
  ghost predicate TailKept(ws: seq<bv32>, vs: seq<bv32>, d: nat) {
    |vs| == |ws| && forall i :: d <= i < |ws| ==> vs[i] == ws[i]
  }

  lemma InsertKeepsTail(ws: seq<bv32>, n: nat, size: nat, d: nat)
    requires n <= size && size / 32 < |ws| && size < 32 * d
    ensures TailKept(ws, InsertWords(ws, n, size), d)
  {
    hide InsertWords;
    forall i: nat | d <= i < |ws|
      ensures InsertWords(ws, n, size)[i] == ws[i]
    {
      InsertWordsAt(ws, n, size, i);
    }
  }

  /** Removal never touches the words behind the file areas. */
  lemma DeleteKeepsTail(ws: seq<bv32>, n: nat, size: nat, d: nat)
    requires n <= size && size / 32 + 1 < |ws| && size < 32 * d
    ensures TailKept(ws, DeleteWords(ws, n, size), d)
  {
    hide DeleteWords;
    forall i: nat | d <= i < |ws|
      ensures DeleteWords(ws, n, size)[i] == ws[i]
    {
      DeleteWordsAt(ws, n, size, i);
    }
  }

  /** Nor does an exchange. */
  lemma SwapKeepsTail(ws: seq<bv32>, d1: nat, d2: nat, d: nat)
    requires d1 < 32 * |ws| && d2 < 32 * |ws| && d1 < 32 * d && d2 < 32 * d
    ensures TailKept(ws, SwapWords(ws, d1, d2), d)
  {
    hide Has, Xor, Single;
  }

  /** What a move does behind the file areas is what its insertion does there. */
  lemma MoveTail(ws: seq<bv32>, p: nat, i2: nat, len: nat, d: nat)
    requires p <= len && i2 <= len && len < 32 * d && d < |ws|
    ensures TailKept(InsertWords(ws, i2, len + 1), MoveWords(ws, p, i2, len), d)
  {
    hide InsertWords, SwapWords, DeleteWords;
    var a := InsertWords(ws, i2, len + 1);
    SwapKeepsTail(a, p, i2, d);
    DeleteKeepsTail(SwapWords(a, p, i2), p, len, d);
  }

  /** Inserting the area that fills the last word shifts the word behind it. */
  lemma FullInsertDamages(n: nat, d: nat)
    requires n < 32 * d
    ensures var ws: seq<bv32> := Ones(d + 1);
      !TailKept(ws, InsertWords(ws, n, 32 * d), d)
  {
    hide InsertWords, CarryUp;
    InsertWordsAt(Ones(d + 1), n, 32 * d, d);
    CarryChanges();
  }

  function Ones(n: nat): (ws: seq<bv32>)
    ensures |ws| == n && forall i :: 0 <= i < n ==> ws[i] == 1
  {
    seq(n, _ => 1)
  }

  /** The words from `d` on hold the user's message-area scan bits. Inserting a file area leaves all of them alone,
      whatever they hold, exactly when the new number of areas is below `32 * d`. */
  lemma SubScansSurviveInsert(n: nat, size: nat, d: nat)
    requires n < size <= 32 * d
    ensures (forall ws: seq<bv32> :: |ws| > d ==> TailKept(ws, InsertWords(ws, n, size), d)) <==> size < 32 * d
  {
    hide InsertWords, TailKept;
    if size == 32 * d {
      FullInsertDamages(n, d);
    } else {
      forall ws: seq<bv32> | |ws| > d
        ensures TailKept(ws, InsertWords(ws, n, size), d)
      {
        InsertKeepsTail(ws, n, size, d);
      }
    }
  }

  /** The same for a move in a list of `len` areas, although the list is no longer afterwards. */
  lemma SubScansSurviveMove(p: nat, i2: nat, len: nat, d: nat)
    requires p <= len && i2 <= len < 32 * d
    ensures (forall ws: seq<bv32> :: |ws| > d ==> TailKept(ws, MoveWords(ws, p, i2, len), d)) <==> len + 1 < 32 * d
  {
    hide InsertWords, MoveWords;
    if len + 1 == 32 * d {
      FullInsertDamages(i2, d);
      MoveTail(Ones(d + 1), p, i2, len, d);
    } else {
      forall ws: seq<bv32> | |ws| > d
        ensures TailKept(ws, MoveWords(ws, p, i2, len), d)
      {
        InsertKeepsTail(ws, i2, len + 1, d);
        MoveTail(ws, p, i2, len, d);
      }
    }
  }

  lemma CarryChanges()
    ensures CarryUp(1, 1) != 1
  {
    hide Has, CarryUp;
    CarryUpHas(1, 1, 0);
    OneHas(0);
    OneHas(31);
  }
}
