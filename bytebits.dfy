/** Single bits of a byte, numbered as the C shifts number them: bit `k`
    is `(b >> k) & 1`, so bit 7 is the most significant. */
module ByteBits {

  /** Bit `k` of a byte, as the C `(b >> k) & 1`. */
  predicate ByteBit(b: bv8, k: nat)
    requires k < 8
  {
    (b >> k) & 1 == 1
  }

  /** The C test `(b >> k) & 1` is 0 exactly when bit `k` is not 1. */
  lemma ZeroTest(b: bv8, k: nat)
    requires k < 8
    ensures ((b >> k) & 1 == 0) <==> !ByteBit(b, k)
  {
    if k == 0 {} else if k == 1 {} else if k == 2 {} else if k == 3 {}
    else if k == 4 {} else if k == 5 {} else if k == 6 {} else {}
  }

  /** The C `1 << k` as a byte. */
  function Mask(k: nat): bv8
    requires k < 8
  {
    1 << k
  }

  /** The byte with only bit `k` set, spelled out. */
  function Pow2(k: nat): bv8
    requires k < 8
  {
    if k == 0 then 1 else if k == 1 then 2 else if k == 2 then 4 else if k == 3 then 8
    else if k == 4 then 16 else if k == 5 then 32 else if k == 6 then 64 else 128
  }

  lemma MaskIsPow2(k: nat)
    requires k < 8
    ensures Mask(k) == Pow2(k)
  {
    if k == 0 {} else if k == 1 {} else if k == 2 {} else if k == 3 {}
    else if k == 4 {} else if k == 5 {} else if k == 6 {} else {}
  }

  lemma ByteBitIsPow2(b: bv8, k: nat)
    requires k < 8
    ensures ByteBit(b, k) <==> b & Pow2(k) != 0
  {
    if k == 0 {} else if k == 1 {} else if k == 2 {} else if k == 3 {}
    else if k == 4 {} else if k == 5 {} else if k == 6 {} else {}
  }

  lemma Pow2Disjoint(k: nat, k': nat)
    requires k < 8 && k' < 8
    ensures (Pow2(k) & Pow2(k') == 0) <==> k != k'
  {
    if k == 0 {} else if k == 1 {} else if k == 2 {} else if k == 3 {}
    else if k == 4 {} else if k == 5 {} else if k == 6 {} else {}
  }

  /** Or-ing in a mask sets exactly its bit. */
  lemma MaskSetBits(b: bv8, k: nat, k': nat)
    requires k < 8 && k' < 8
    ensures ByteBit(b | Mask(k), k') == (k' == k || ByteBit(b, k'))
  {
    MaskIsPow2(k);
    ByteBitIsPow2(b | Mask(k), k');
    ByteBitIsPow2(b, k');
    Pow2Disjoint(k, k');
    var p, q := Pow2(k), Pow2(k');
    assert (b | p) & q == (b & q) | (p & q);
  }

  /** And-ing with a mask's complement clears exactly its bit. */
  lemma MaskClearBits(b: bv8, k: nat, k': nat)
    requires k < 8 && k' < 8
    ensures ByteBit(b & !Mask(k), k') == (k' != k && ByteBit(b, k'))
  {
    MaskIsPow2(k);
    ByteBitIsPow2(b & !Mask(k), k');
    ByteBitIsPow2(b, k');
    Pow2Disjoint(k, k');
    var p, q := Pow2(k), Pow2(k');
    assert (b & !p) & q == (b & q) & !p;
    if k != k' {
      assert (b & q) & !p == b & q;
    }
  }

  /** Clearing a bit that was just set restores the byte. */
  lemma ClearAfterSetByte(b: bv8, k: nat)
    requires k < 8 && !ByteBit(b, k)
    ensures (b | Mask(k)) & !Mask(k) == b
  {
    MaskIsPow2(k);
    ByteBitIsPow2(b, k);
  }

  /** A byte whose `r` most significant bits are 1 and the rest 0. */
  function TopBits(r: nat): bv8
    requires r < 8
  {
    !(0xFF >> r)
  }

  /** Bit `k` of `TopBits(r)` is 1 exactly when it is among the top `r`. */
  lemma TopBitsBits(r: nat, k: nat)
    requires r < 8 && k < 8
    ensures ByteBit(TopBits(r), k) <==> 7 - k < r
  {
    ByteBitIsPow2(TopBits(r), k);
    var t := TopBits(r);
    if r == 0 { assert t == 0; } else if r == 1 { assert t == 0x80; }
    else if r == 2 { assert t == 0xC0; } else if r == 3 { assert t == 0xE0; }
    else if r == 4 { assert t == 0xF0; } else if r == 5 { assert t == 0xF8; }
    else if r == 6 { assert t == 0xFC; } else { assert t == 0xFE; }
    if k == 0 {} else if k == 1 {} else if k == 2 {} else if k == 3 {}
    else if k == 4 {} else if k == 5 {} else if k == 6 {} else {}
  }

  /** The byte bitmap_init builds for the last, partly set byte: rounds of
      "or in 1 while bits remain, then shift left", after `t` rounds with
      `r` bits to set. */
  function ShiftIn(t: nat, r: nat): bv8
  {
    if t == 0 then 0
    else (ShiftIn(t - 1, r) | (if t - 1 < r then 1 else 0)) << 1
  }

  /** Seven rounds leave the `r` bits at the top of the byte. */
  lemma ShiftInTopBits(r: nat)
    requires r < 8
    ensures ShiftIn(7, r) == TopBits(r)
  {
    if r == 0 {
      assert ShiftIn(7, 0) == 0;
    } else if r == 1 {
      assert ShiftIn(7, 1) == 0x80;
    } else if r == 2 {
      assert ShiftIn(7, 2) == 0xC0;
    } else if r == 3 {
      assert ShiftIn(7, 3) == 0xE0;
    } else if r == 4 {
      assert ShiftIn(7, 4) == 0xF0;
    } else if r == 5 {
      assert ShiftIn(7, 5) == 0xF8;
    } else if r == 6 {
      assert ShiftIn(7, 6) == 0xFC;
    } else {
      assert ShiftIn(7, 7) == 0xFE;
    }
  }
}
