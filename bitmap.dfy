/** The bitmap manager: a bitmap occupies `num` consecutive sectors from
    sector `start`; bit `idx` lives in sector `idx / (SECTOR_SIZE * 8)`, in
    byte `(idx % (SECTOR_SIZE * 8)) / 8` of that sector, and bits are
    numbered from the most significant bit of each byte (bit `idx` is the
    byte's bit `7 - idx % 8`). */
module Bitmap {
  import opened Layout
  import opened Codec
  import opened ByteBits

  function Min(a: int, b: int): int { if a <= b then a else b }
  function Max(a: int, b: int): int { if a >= b then a else b }

  /** A bitmap region: `num` sectors starting at sector `start`. */
  datatype Region = Region(start: nat, num: nat)

  /** Every sector of the disk holds `ss` bytes. */
  predicate Sized(d: seq<seq<bv8>>, ss: nat)
  {
    forall i :: 0 <= i < |d| ==> |d[i]| == ss
  }

  /** The region lies on a disk of `ss`-byte sectors. */
  predicate Fits(d: seq<seq<bv8>>, ss: nat, rg: Region)
  {
    ss > 0 && Sized(d, ss) && rg.start + rg.num <= |d|
  }

  /** Number of bits a region holds. */
  function Bits(ss: nat, rg: Region): nat
  {
    rg.num * (ss * BYTE)
  }

  lemma DivModUnique(x: int, m: int, q: int, r: int)
    requires m > 0 && x == q * m + r && 0 <= r < m
    ensures x / m == q && x % m == r
  {
    var q', r' := x / m, x % m;
    assert q' * m + r' == q * m + r;
    if q' < q {
      MulLe(q' + 1, q, m);
    } else if q' > q {
      MulLe(q + 1, q', m);
    }
  }

  /** The sector of the region that holds bit `idx`. */
  function SectorOf(ss: nat, idx: nat): nat
    requires ss > 0
  {
    Quot(idx, ss * BYTE)
  }

  /** The byte of its sector that holds bit `idx`. */
  function ByteOf(ss: nat, idx: nat): (j: nat)
    requires ss > 0
    ensures j < ss
  {
    var r := idx % (ss * BYTE);
    var j := Quot(r, BYTE);
    assert j < ss by {
      if j >= ss {
        MulLe(ss, j, BYTE);
      }
    }
    j
  }

  /** The C shift amount `k` of bit `idx` inside its byte. */
  function ShiftOf(idx: nat): (k: nat)
    ensures k < 8
  {
    7 - idx % BYTE
  }

  /** The bit index of shift `k` in byte `j` of sector `i` of the region:
      `i * SECTOR_SIZE * 8 + j * 8 + (7 - k)`. */
  function BitIndex(ss: nat, i: nat, j: nat, k: nat): nat
    requires k < 8
  {
    i * (ss * BYTE) + j * BYTE + (7 - k)
  }

  /** A bit index splits into sector, byte and shift and is rebuilt from them. */
  lemma BitParts(ss: nat, idx: nat)
    requires ss > 0
    ensures BitIndex(ss, SectorOf(ss, idx), ByteOf(ss, idx), ShiftOf(idx)) == idx
  {
    var m := ss * BYTE;
    var q, r := idx / m, idx % m;
    var b, t := r / BYTE, r % BYTE;
    assert idx == q * m + b * BYTE + t;
    assert idx == (q * ss + b) * BYTE + t;
    DivModUnique(idx, BYTE, q * ss + b, t);
  }

  /** Sector, byte and shift are recovered from the bit index they build. */
  lemma BitIndexParts(ss: nat, i: nat, j: nat, k: nat)
    requires ss > 0 && j < ss && k < 8
    ensures SectorOf(ss, BitIndex(ss, i, j, k)) == i
    ensures ByteOf(ss, BitIndex(ss, i, j, k)) == j
    ensures ShiftOf(BitIndex(ss, i, j, k)) == k
  {
    var m := ss * BYTE;
    var x := BitIndex(ss, i, j, k);
    var r := j * BYTE + (7 - k);
    assert r < m by {
      MulLe(j + 1, ss, BYTE);
    }
    DivModUnique(x, m, i, r);
    DivModUnique(r, BYTE, j, 7 - k);
    assert x == (i * ss + j) * BYTE + (7 - k);
    DivModUnique(x, BYTE, i * ss + j, 7 - k);
  }

  /** The bits of a region lie in its sectors. */
  lemma SectorOfInRegion(ss: nat, rg: Region, idx: nat)
    requires ss > 0
    ensures idx < Bits(ss, rg) <==> SectorOf(ss, idx) < rg.num
  {
    var m := ss * BYTE;
    var q := idx / m;
    assert idx == q * m + idx % m;
    if q < rg.num {
      MulLe(q + 1, rg.num, m);
    } else {
      MulLe(rg.num, q, m);
    }
  }

  /** Whether bit `idx` of the region is 1. */
  predicate IsSet(d: seq<seq<bv8>>, ss: nat, rg: Region, idx: nat)
    requires Fits(d, ss, rg) && idx < Bits(ss, rg)
  {
    SectorOfInRegion(ss, rg, idx);
    ByteBit(d[rg.start + SectorOf(ss, idx)][ByteOf(ss, idx)], ShiftOf(idx))
  }

  /** The disk with bit `idx` of the region set to 1. */
  function SetBit(d: seq<seq<bv8>>, ss: nat, rg: Region, idx: nat): (d': seq<seq<bv8>>)
    requires Fits(d, ss, rg) && idx < Bits(ss, rg)
    ensures Fits(d', ss, rg) && |d'| == |d|
  {
    SectorOfInRegion(ss, rg, idx);
    var s, j := rg.start + SectorOf(ss, idx), ByteOf(ss, idx);
    d[s := d[s][j := d[s][j] | Mask(ShiftOf(idx))]]
  }

  /** The disk with bit `idx` of the region cleared to 0. */
  function ClearBit(d: seq<seq<bv8>>, ss: nat, rg: Region, idx: nat): (d': seq<seq<bv8>>)
    requires Fits(d, ss, rg) && idx < Bits(ss, rg)
    ensures Fits(d', ss, rg) && |d'| == |d|
  {
    SectorOfInRegion(ss, rg, idx);
    var s, j := rg.start + SectorOf(ss, idx), ByteOf(ss, idx);
    d[s := d[s][j := d[s][j] & !Mask(ShiftOf(idx))]]
  }

  /** Setting a bit turns that bit on and leaves every other bit as it was. */
  lemma BitAfterSetBit(d: seq<seq<bv8>>, ss: nat, rg: Region, idx: nat, idx': nat)
    requires Fits(d, ss, rg) && idx < Bits(ss, rg) && idx' < Bits(ss, rg)
    ensures IsSet(SetBit(d, ss, rg, idx), ss, rg, idx') == (idx' == idx || IsSet(d, ss, rg, idx'))
  {
    BitParts(ss, idx);
    BitParts(ss, idx');
    SectorOfInRegion(ss, rg, idx);
    SectorOfInRegion(ss, rg, idx');
    MaskSetBits(d[rg.start + SectorOf(ss, idx)][ByteOf(ss, idx)], ShiftOf(idx), ShiftOf(idx'));
  }

  /** Clearing a bit turns that bit off and leaves every other bit as it was. */
  lemma BitAfterClearBit(d: seq<seq<bv8>>, ss: nat, rg: Region, idx: nat, idx': nat)
    requires Fits(d, ss, rg) && idx < Bits(ss, rg) && idx' < Bits(ss, rg)
    ensures IsSet(ClearBit(d, ss, rg, idx), ss, rg, idx') == (idx' != idx && IsSet(d, ss, rg, idx'))
  {
    BitParts(ss, idx);
    BitParts(ss, idx');
    SectorOfInRegion(ss, rg, idx);
    SectorOfInRegion(ss, rg, idx');
    MaskClearBits(d[rg.start + SectorOf(ss, idx)][ByteOf(ss, idx)], ShiftOf(idx), ShiftOf(idx'));
  }

  /** Clearing the bit that `FirstUnused` set restores the disk it started
      from. */
  lemma ClearBitUndoesSetBit(d: seq<seq<bv8>>, ss: nat, rg: Region, idx: nat)
    requires Fits(d, ss, rg) && idx < Bits(ss, rg) && !IsSet(d, ss, rg, idx)
    ensures ClearBit(SetBit(d, ss, rg, idx), ss, rg, idx) == d
  {
    SectorOfInRegion(ss, rg, idx);
    var s, j, k := rg.start + SectorOf(ss, idx), ByteOf(ss, idx), ShiftOf(idx);
    var b := d[s][j];
    assert (b | Mask(k)) & !Mask(k) == b by {
      ClearAfterSetByte(b, k);
    }
    var sec := d[s][j := b | Mask(k)];
    UpdateRestores(d[s], j, b | Mask(k), b);
    UpdateRestores(d, s, sec, d[s]);
  }

  /** Writing an element back over an update restores the sequence. */
  lemma UpdateRestores<T>(s: seq<T>, j: nat, x: T, y: T)
    requires j < |s| && y == s[j]
    ensures s[j := x][j := y] == s
  {
  }

  /** The number of bits `bitmap_first_unused` inspects: at most `nbits`,
      and no more than the region holds. */
  function Limit(ss: nat, rg: Region, nbits: int): nat
  {
    Min(Max(nbits, 0), Bits(ss, rg))
  }

  /** The first bit index in `from .. lim` whose bit is 0, or -1. */
  function FirstClear(d: seq<seq<bv8>>, ss: nat, rg: Region, from: nat, lim: nat): int
    requires Fits(d, ss, rg) && lim <= Bits(ss, rg)
    decreases lim - from
  {
    if from >= lim then -1
    else if !IsSet(d, ss, rg, from) then from
    else FirstClear(d, ss, rg, from + 1, lim)
  }

  /** `FirstClear` finds the first 0 bit in its range: either every bit of
      the range is 1 and it is -1, or it is in the range, its bit is 0 and
      every bit before it is 1. */
  lemma {:induction false} FirstClearIsFirst(d: seq<seq<bv8>>, ss: nat, rg: Region, from: nat, lim: nat)
    requires Fits(d, ss, rg) && lim <= Bits(ss, rg)
    ensures var r := FirstClear(d, ss, rg, from, lim);
      || (r == -1 && forall q :: from <= q < lim ==> IsSet(d, ss, rg, q))
      || (from <= r < lim && !IsSet(d, ss, rg, r) && forall q :: from <= q < r ==> IsSet(d, ss, rg, q))
    decreases lim - from
  {
    if from < lim && IsSet(d, ss, rg, from) {
      FirstClearIsFirst(d, ss, rg, from + 1, lim);
    }
  }

  /** A 0 bit with only 1 bits before it is the one `FirstClear` finds. */
  lemma FirstClearAt(d: seq<seq<bv8>>, ss: nat, rg: Region, lim: nat, p: nat)
    requires Fits(d, ss, rg) && p < lim <= Bits(ss, rg)
    requires !IsSet(d, ss, rg, p) && forall q :: 0 <= q < p ==> IsSet(d, ss, rg, q)
    ensures FirstClear(d, ss, rg, 0, lim) == p
  {
    FirstClearIsFirst(d, ss, rg, 0, lim);
  }

  /** With no 0 bit below the limit `FirstClear` is -1. */
  lemma FirstClearNone(d: seq<seq<bv8>>, ss: nat, rg: Region, lim: nat)
    requires Fits(d, ss, rg) && lim <= Bits(ss, rg)
    requires forall q :: 0 <= q < lim ==> IsSet(d, ss, rg, q)
    ensures FirstClear(d, ss, rg, 0, lim) == -1
  {
    FirstClearIsFirst(d, ss, rg, 0, lim);
  }

  /** bitmap_first_unused (HW4/LibFS.c:157-182): scans the first `nbits` bits
      of the region sector by sector, byte by byte, from the most significant
      bit of each byte; sets the first 0 bit, writes its sector back, and
      returns its index; returns -1 and writes nothing if all scanned bits
      are 1. */
  method FirstUnused(disk: array<seq<bv8>>, ss: nat, rg: Region, nbits: int) returns (r: int)
    requires Fits(disk[..], ss, rg)
    modifies disk
    ensures r == FirstClear(old(disk[..]), ss, rg, 0, Limit(ss, rg, nbits))
    ensures r >= 0 ==> r < Bits(ss, rg) && disk[..] == SetBit(old(disk[..]), ss, rg, r)
    ensures r < 0 ==> disk[..] == old(disk[..])
  {
    ghost var d0 := disk[..];
    ghost var lim := Limit(ss, rg, nbits);
    var bits := ss * BYTE;
    var n := nbits;
    var i := 0;
    while i < rg.num
      invariant 0 <= i <= rg.num
      invariant disk[..] == d0
      invariant n == nbits - Min(i * bits, Max(nbits, 0))
      invariant forall q :: 0 <= q < Min(i * bits, lim) ==> IsSet(d0, ss, rg, q)
    {
      var buffer := disk[rg.start + i];
      ghost var base := i * bits;
      assert base + bits <= Bits(ss, rg) by {
        MulLe(i + 1, rg.num, bits);
        assert (i + 1) * bits == base + bits;
      }
      var pos;
      ghost var before := n;
      pos, n := ScanSector(buffer, n);
      if pos >= 0 {
        FoundInSector(d0, ss, rg, i, lim, buffer, pos);
        SetFoundBit(d0, ss, rg, i, pos);
        var j := pos / BYTE;
        disk[rg.start + i] := buffer[j := buffer[j] | Mask(7 - pos % BYTE)];
        return i * bits + pos;
      }
      NextSector(d0, ss, rg, nbits, i, buffer, before, n);
      i := i + 1;
    }
    FirstClearNone(d0, ss, rg, lim);
    return -1;
  }

  /** A 0 bit found at `pos` of sector `i`, with only 1 bits before it in
      that sector and in the sectors before, is the first 0 bit below the
      limit. */
  lemma FoundInSector(d: seq<seq<bv8>>, ss: nat, rg: Region, i: nat, lim: nat, buffer: seq<bv8>, pos: nat)
    requires Fits(d, ss, rg) && i < rg.num && lim <= Bits(ss, rg) && pos < ss * BYTE
    requires buffer == d[rg.start + i] && i * (ss * BYTE) + pos < lim
    requires forall q :: 0 <= q < Min(i * (ss * BYTE), lim) ==> IsSet(d, ss, rg, q)
    requires !BufferBit(buffer, pos)
    requires forall q :: 0 <= q < pos ==> BufferBit(buffer, q)
    ensures FirstClear(d, ss, rg, 0, lim) == i * (ss * BYTE) + pos
  {
    var base := i * (ss * BYTE);
    BufferBitIsSet(d, ss, rg, i, pos);
    forall q | 0 <= q < base + pos
      ensures IsSet(d, ss, rg, q)
    {
      if q >= base {
        BufferBitIsSet(d, ss, rg, i, q - base);
      }
    }
    FirstClearAt(d, ss, rg, lim, base + pos);
  }

  /** A pass over sector `i` that finds no 0 bit carries the loop's
      invariants of bitmap_first_unused on to sector `i + 1`: the count of
      bits left shrinks by the bits inspected, and every bit inspected so far
      is 1. */
  lemma NextSector(d: seq<seq<bv8>>, ss: nat, rg: Region, nbits: int, i: nat, buffer: seq<bv8>, before: int, n: int)
    requires Fits(d, ss, rg) && i < rg.num && buffer == d[rg.start + i]
    requires before == nbits - Min(i * (ss * BYTE), Max(nbits, 0))
    requires n == before - Min(ss * BYTE, Max(before, 0))
    requires forall q :: 0 <= q < Min(i * (ss * BYTE), Limit(ss, rg, nbits)) ==> IsSet(d, ss, rg, q)
    requires forall q :: 0 <= q < Min(ss * BYTE, Max(before, 0)) ==> BufferBit(buffer, q)
    ensures n == nbits - Min((i + 1) * (ss * BYTE), Max(nbits, 0))
    ensures forall q :: 0 <= q < Min((i + 1) * (ss * BYTE), Limit(ss, rg, nbits)) ==> IsSet(d, ss, rg, q)
  {
    var bits := ss * BYTE;
    assert (i + 1) * bits == i * bits + bits;
    assert i * bits + bits <= Bits(ss, rg) by {
      MulLe(i + 1, rg.num, bits);
    }
    SectorAllSet(d, ss, rg, i, Limit(ss, rg, nbits), buffer, Min(bits, Max(before, 0)));
  }

  /** When the first `cnt` bits of sector `i` are 1 and they reach the
      limit or the end of the sector, every bit below the limit up to the
      end of sector `i` is 1. */
  lemma SectorAllSet(d: seq<seq<bv8>>, ss: nat, rg: Region, i: nat, lim: nat, buffer: seq<bv8>, cnt: nat)
    requires Fits(d, ss, rg) && i < rg.num && lim <= Bits(ss, rg) && cnt <= ss * BYTE
    requires buffer == d[rg.start + i]
    requires lim <= i * (ss * BYTE) || Min(i * (ss * BYTE) + ss * BYTE, lim) <= i * (ss * BYTE) + cnt
    requires forall q :: 0 <= q < Min(i * (ss * BYTE), lim) ==> IsSet(d, ss, rg, q)
    requires forall q :: 0 <= q < cnt ==> BufferBit(buffer, q)
    ensures forall q :: 0 <= q < Min(i * (ss * BYTE) + ss * BYTE, lim) ==> IsSet(d, ss, rg, q)
  {
    var base := i * (ss * BYTE);
    forall q | 0 <= q < Min(base + ss * BYTE, lim)
      ensures IsSet(d, ss, rg, q)
    {
      if q >= base {
        BufferBitIsSet(d, ss, rg, i, q - base);
      }
    }
  }

  /** Setting the bit of shift `k` in byte `j` of sector `i` of the region. */
  lemma SetBitAt(d: seq<seq<bv8>>, ss: nat, rg: Region, i: nat, j: nat, k: nat)
    requires Fits(d, ss, rg) && i < rg.num && j < ss && k < 8
    ensures BitIndex(ss, i, j, k) < Bits(ss, rg)
    ensures SetBit(d, ss, rg, BitIndex(ss, i, j, k))
            == d[rg.start + i := d[rg.start + i][j := d[rg.start + i][j] | Mask(k)]]
  {
    BitIndexParts(ss, i, j, k);
    SectorOfInRegion(ss, rg, BitIndex(ss, i, j, k));
  }

  /** Setting bit `pos` of sector `i` of the region, as a byte of the
      sector's bytes. */
  lemma SetFoundBit(d: seq<seq<bv8>>, ss: nat, rg: Region, i: nat, pos: nat)
    requires Fits(d, ss, rg) && i < rg.num && pos < ss * BYTE
    ensures pos / BYTE < ss && i * (ss * BYTE) + pos < Bits(ss, rg)
    ensures var buffer, j := d[rg.start + i], pos / BYTE;
      SetBit(d, ss, rg, i * (ss * BYTE) + pos) == d[rg.start + i := buffer[j := buffer[j] | Mask(7 - pos % BYTE)]]
  {
    var j, k := pos / BYTE, 7 - pos % BYTE;
    assert BitIndex(ss, i, j, k) == i * (ss * BYTE) + pos;
    SetBitAt(d, ss, rg, i, j, k);
  }

  /** Bit `q` of a sector's bytes, counting from the most significant bit
      of its first byte. */
  predicate BufferBit(buffer: seq<bv8>, q: nat)
    requires q < |buffer| * BYTE
  {
    ByteBit(buffer[q / BYTE], 7 - q % BYTE)
  }

  /** Bit `q` of sector `i` of the region is bit `i * SECTOR_SIZE * 8 + q`
      of the bitmap. */
  lemma BufferBitIsSet(d: seq<seq<bv8>>, ss: nat, rg: Region, i: nat, q: nat)
    requires Fits(d, ss, rg) && i < rg.num && q < ss * BYTE
    ensures i * (ss * BYTE) + q < Bits(ss, rg)
    ensures IsSet(d, ss, rg, i * (ss * BYTE) + q) == BufferBit(d[rg.start + i], q)
  {
    var j, k := q / BYTE, 7 - q % BYTE;
    BitIndexParts(ss, i, j, k);
    assert i * (ss * BYTE) + q == BitIndex(ss, i, j, k);
    MulLe(i + 1, rg.num, ss * BYTE);
  }

  /** One sector's pass of bitmap_first_unused (HW4/LibFS.c:163-179): the
      bytes in order, each from its most significant bit, while `nbits`
      bits remain to be inspected.  `pos` is the first 0 bit among the
      inspected ones, or -1 when all of them are 1; `n` is what remains of
      `nbits` after a pass that finds nothing. */
  method ScanSector(buffer: seq<bv8>, nbits: int) returns (pos: int, n: int)
    ensures -1 <= pos < Min(|buffer| * BYTE, Max(nbits, 0))
    ensures pos >= 0 ==> !BufferBit(buffer, pos)
    ensures pos < 0 ==> n == nbits - Min(|buffer| * BYTE, Max(nbits, 0))
    ensures forall q :: 0 <= q < (if pos >= 0 then pos else Min(|buffer| * BYTE, Max(nbits, 0))) ==> BufferBit(buffer, q)
  {
    ghost var lim := Min(|buffer| * BYTE, Max(nbits, 0));
    n := nbits;
    var j := 0;
    while j < |buffer|
      invariant 0 <= j <= |buffer|
      invariant n == nbits - Min(j * BYTE, Max(nbits, 0))
      invariant forall q :: 0 <= q < Min(j * BYTE, lim) ==> BufferBit(buffer, q)
    {
      var k := 7;
      while k >= 0 && n > 0
        invariant -1 <= k <= 7
        invariant n == nbits - Min(j * BYTE + (7 - k), Max(nbits, 0))
        invariant forall q :: 0 <= q < Min(j * BYTE + (7 - k), lim) ==> BufferBit(buffer, q)
        decreases k
      {
        var zero := (buffer[j] >> k) & 1;
        n := n - 1;
        ZeroTest(buffer[j], k);
        assert BufferBit(buffer, j * BYTE + (7 - k)) == ByteBit(buffer[j], k);
        if zero == 0 {
          return j * BYTE + (7 - k), n;
        }
        k := k - 1;
      }
      j := j + 1;
    }
    return -1, n;
  }

  /** bitmap_reset (HW4/LibFS.c:186-203): clears bit `ibit` of the region
      and returns 0, or returns -1 without touching the disk when the bit's
      sector lies past the region. */
  method Reset(disk: array<seq<bv8>>, ss: nat, rg: Region, ibit: nat) returns (r: int)
    requires Fits(disk[..], ss, rg)
    modifies disk
    ensures ibit >= Bits(ss, rg) ==> r == -1 && disk[..] == old(disk[..])
    ensures ibit < Bits(ss, rg) ==> r == 0 && disk[..] == ClearBit(old(disk[..]), ss, rg, ibit)
  {
    var bits := ss * BYTE;
    var sector := ibit / bits;
    var byte := (ibit - sector * bits) / BYTE;
    var bit := ibit - byte * BYTE - sector * bits;
    ResetArithmetic(ss, ibit);
    SectorOfInRegion(ss, rg, ibit);
    if sector >= rg.num {
      return -1;
    }
    var buffer := disk[rg.start + sector];
    buffer := buffer[byte := buffer[byte] & !Mask(7 - bit)];
    disk[rg.start + sector] := buffer;
    return 0;
  }

  /** What bitmap_reset leaves on the disk: bit `ibit` cleared when the
      region holds it, every sector outside the region as it was. */
  function ResetBit(d: seq<seq<bv8>>, ss: nat, rg: Region, ibit: nat): (d': seq<seq<bv8>>)
    requires Fits(d, ss, rg)
    ensures Fits(d', ss, rg) && |d'| == |d|
    ensures forall s :: 0 <= s < |d| && !(rg.start <= s < rg.start + rg.num) ==> d'[s] == d[s]
    ensures ibit < Bits(ss, rg) ==> !IsSet(d', ss, rg, ibit)
    ensures forall i :: 0 <= i < Bits(ss, rg) && i != ibit ==> IsSet(d', ss, rg, i) == IsSet(d, ss, rg, i)
  {
    if ibit < Bits(ss, rg) then
      SectorOfInRegion(ss, rg, ibit);
      forall i | 0 <= i < Bits(ss, rg)
        ensures IsSet(ClearBit(d, ss, rg, ibit), ss, rg, i) == (i != ibit && IsSet(d, ss, rg, i))
      {
        BitAfterClearBit(d, ss, rg, ibit, i);
      }
      ClearBit(d, ss, rg, ibit)
    else d
  }

  /** A bit of a region depends only on the region's sectors. */
  lemma IsSetFrame(d: seq<seq<bv8>>, d': seq<seq<bv8>>, ss: nat, rg: Region, idx: nat)
    requires Fits(d, ss, rg) && Fits(d', ss, rg) && idx < Bits(ss, rg)
    requires forall s :: rg.start <= s < rg.start + rg.num ==> d'[s] == d[s]
    ensures IsSet(d', ss, rg, idx) == IsSet(d, ss, rg, idx)
  {
    SectorOfInRegion(ss, rg, idx);
  }

  /** The C's sector / byte / bit arithmetic in bitmap_reset agrees with the
      bit numbering that bitmap_first_unused returns. */
  lemma ResetArithmetic(ss: nat, ibit: nat)
    requires ss > 0
    ensures ibit / (ss * BYTE) == SectorOf(ss, ibit)
    ensures (ibit - SectorOf(ss, ibit) * (ss * BYTE)) / BYTE == ByteOf(ss, ibit)
    ensures ibit - ByteOf(ss, ibit) * BYTE - SectorOf(ss, ibit) * (ss * BYTE) == 7 - ShiftOf(ibit)
  {
    BitParts(ss, ibit);
    var m := ss * BYTE;
    assert ibit - SectorOf(ss, ibit) * m == ibit % m;
  }

  /** A sector whose bytes are all 0xFF. */
  function Ones(n: nat): (s: seq<bv8>)
    ensures |s| == n
    ensures forall i :: 0 <= i < n ==> s[i] == 0xFF
  {
    seq(n, i => 0xFF)
  }

  /** The bits bitmap_init still has to set before sector `i`: whole
      sectors are subtracted while bits remain, a partly set sector uses up
      the rest, and a count that was not positive is left as it was. */
  function Remaining(ss: nat, nbits: int, i: nat): int
  {
    if nbits <= 0 then nbits else Max(nbits - i * (ss * BYTE), 0)
  }

  /** What one sector of bitmap_init leaves of the bits still to set. */
  lemma RemainingNext(ss: nat, nbits: int, i: nat)
    requires ss > 0
    ensures var n := Remaining(ss, nbits, i);
      Remaining(ss, nbits, i + 1) == if n >= ss * BYTE then n - ss * BYTE else if n > 0 then 0 else n
  {
    assert (i + 1) * (ss * BYTE) == i * (ss * BYTE) + ss * BYTE;
  }

  /** The sector image for `r` remaining bits, built in a cleared buffer:
      all ones if the sector is covered, otherwise `r / 8` bytes of 0xFF,
      then a byte with the top `r % 8` bits set, then zeros. */
  function InitSector(ss: nat, r: int): (s: seq<bv8>)
    requires ss > 0
    ensures |s| == ss
  {
    if r >= ss * BYTE then Ones(ss)
    else if r > 0 then
      var c := r / BYTE;
      assert c < ss by {
        if c >= ss {
          MulLe(ss, c, BYTE);
        }
      }
      Ones(c) + [TopBits(r % BYTE)] + Zeros(ss - c - 1)
    else Zeros(ss)
  }

  /** The disk after the intended bitmap_init: every sector of the region
      holds the image for the bits remaining when it is reached. */
  function Initialized(d: seq<seq<bv8>>, ss: nat, rg: Region, nbits: int): (d': seq<seq<bv8>>)
    requires Fits(d, ss, rg)
    ensures Fits(d', ss, rg) && |d'| == |d|
  {
    var d' := seq(|d|, s requires 0 <= s < |d| =>
      if rg.start <= s < rg.start + rg.num then InitSector(ss, Remaining(ss, nbits, s - rg.start)) else d[s]);
    assert Sized(d', ss) by {
      forall s | 0 <= s < |d'| ensures |d'[s]| == ss {
        if rg.start <= s < rg.start + rg.num {
          assert d'[s] == InitSector(ss, Remaining(ss, nbits, s - rg.start));
        } else {
          assert d'[s] == d[s];
        }
      }
    }
    d'
  }

  /** After the intended bitmap_init exactly the first `nbits` bits of the
      region are 1. */
  lemma InitializedSetsFirstBits(d: seq<seq<bv8>>, ss: nat, rg: Region, nbits: int, idx: nat)
    requires Fits(d, ss, rg) && idx < Bits(ss, rg)
    ensures IsSet(Initialized(d, ss, rg, nbits), ss, rg, idx) <==> idx < nbits
  {
    var bits := ss * BYTE;
    var i, j, k := SectorOf(ss, idx), ByteOf(ss, idx), ShiftOf(idx);
    BitParts(ss, idx);
    SectorOfInRegion(ss, rg, idx);
    var r := Remaining(ss, nbits, i);
    var sec := InitSector(ss, r);
    assert Initialized(d, ss, rg, nbits)[rg.start + i] == sec;
    assert idx == i * bits + j * BYTE + (7 - k);
    if r >= bits {
      assert nbits - i * bits >= bits;
      MulLe(j + 1, ss, BYTE);
    } else if r > 0 {
      var c := r / BYTE;
      assert r == nbits - i * bits;
      assert c * BYTE + r % BYTE == r;
      if j < c {
        MulLe(j + 1, c, BYTE);
      } else if j == c {
        TopBitsBits(r % BYTE, k);
      } else {
        MulLe(c + 1, j, BYTE);
      }
    } else {
      assert nbits <= i * bits;
    }
  }

  /** The bitmap_init of HW4/LibFS.c:121-152 with its buffer cleared for
      every sector: sets the first `nbits` bits of the region to 1 and all
      other bits of the region to 0. */
  method Init(disk: array<seq<bv8>>, ss: nat, rg: Region, nbits: int)
    requires Fits(disk[..], ss, rg)
    modifies disk
    ensures disk[..] == Initialized(old(disk[..]), ss, rg, nbits)
  {
    ghost var d0 := disk[..];
    var bits := ss * BYTE;
    var n := nbits;
    for i := 0 to rg.num
      invariant n == Remaining(ss, nbits, i)
      invariant |disk[..]| == |d0|
      invariant forall s :: 0 <= s < |d0| && !(rg.start <= s < rg.start + i) ==> disk[s] == d0[s]
      invariant forall s :: rg.start <= s < rg.start + i ==> disk[s] == InitSector(ss, Remaining(ss, nbits, s - rg.start))
    {
      var buffer := Zeros(ss);
      buffer, n := FillSector(ss, n);
      disk[rg.start + i] := buffer;
      RemainingNext(ss, nbits, i);
    }
    assert disk[..] == Initialized(d0, ss, rg, nbits);
  }

  /** One round of bitmap_init's loop body in a cleared buffer: the sector
      image for `n` remaining bits and the count left afterwards. */
  method FillSector(ss: nat, n: int) returns (buffer: seq<bv8>, n': int)
    requires ss > 0
    ensures buffer == InitSector(ss, n)
    ensures n' == if n >= ss * BYTE then n - ss * BYTE else if n > 0 then 0 else n
  {
    var bits := ss * BYTE;
    buffer := Zeros(ss);
    n' := n;
    if n' >= bits {
      buffer := Ones(ss);
      n' := n' - bits;
    } else if n' > 0 {
      var chars := n' / BYTE;
      assert chars < ss by {
        if chars >= ss {
          MulLe(ss, chars, BYTE);
        }
      }
      buffer := Ones(chars) + Zeros(ss - chars);
      n' := n' - chars * BYTE;
      ghost var r := n';
      var b: bv8 := buffer[chars];
      for t := 0 to 7
        invariant b == ShiftIn(t, r)
        invariant n' == r - Min(t, r)
      {
        if n' != 0 {
          b := b | 1;
          n' := n' - 1;
        }
        b := b << 1;
      }
      ShiftInTopBits(r);
      buffer := buffer[chars := b];
      assert buffer == Ones(chars) + [TopBits(r)] + Zeros(ss - chars - 1);
    }
  }

  /** The buffer bitmap_init, as written, writes to sector `i` of the
      region: the image for the remaining bits while some remain, and
      otherwise whatever the buffer held after the previous sector. */
  function WrittenAsIs(ss: nat, nbits: int, i: nat): (s: seq<bv8>)
    requires ss > 0
    ensures |s| == ss
  {
    if Remaining(ss, nbits, i) > 0 || i == 0 then InitSector(ss, Remaining(ss, nbits, i))
    else WrittenAsIs(ss, nbits, i - 1)
  }

  /** The disk after bitmap_init as written. */
  function InitializedAsWritten(d: seq<seq<bv8>>, ss: nat, rg: Region, nbits: int): (d': seq<seq<bv8>>)
    requires Fits(d, ss, rg)
    ensures Fits(d', ss, rg) && |d'| == |d|
  {
    var d' := seq(|d|, s requires 0 <= s < |d| =>
      if rg.start <= s < rg.start + rg.num then WrittenAsIs(ss, nbits, s - rg.start) else d[s]);
    assert Sized(d', ss) by {
      forall s | 0 <= s < |d'| ensures |d'[s]| == ss {
        if rg.start <= s < rg.start + rg.num {
          assert d'[s] == WrittenAsIs(ss, nbits, s - rg.start);
        } else {
          assert d'[s] == d[s];
        }
      }
    }
    d'
  }

  /** bitmap_init as written (HW4/LibFS.c:121-152): the buffer is cleared
      only when a partly filled sector is built, so a sector reached after
      the bits run out is written with the previous sector's pattern instead
      of zeros. */
  method InitAsWritten(disk: array<seq<bv8>>, ss: nat, rg: Region, nbits: int)
    requires Fits(disk[..], ss, rg)
    modifies disk
    ensures disk[..] == InitializedAsWritten(old(disk[..]), ss, rg, nbits)
  {
    ghost var d0 := disk[..];
    var bits := ss * BYTE;
    var buffer := Zeros(ss);
    var n := nbits;
    for i := 0 to rg.num
      invariant n == Remaining(ss, nbits, i)
      invariant i > 0 ==> buffer == WrittenAsIs(ss, nbits, i - 1)
      invariant i == 0 ==> buffer == Zeros(ss)
      invariant |disk[..]| == |d0|
      invariant forall s :: 0 <= s < |d0| && !(rg.start <= s < rg.start + i) ==> disk[s] == d0[s]
      invariant forall s :: rg.start <= s < rg.start + i ==> disk[s] == WrittenAsIs(ss, nbits, s - rg.start)
    {
      if n > 0 {
        buffer, n := FillSector(ss, n);
      }
      disk[rg.start + i] := buffer;
      RemainingNext(ss, nbits, i);
    }
    assert disk[..] == InitializedAsWritten(d0, ss, rg, nbits);
  }

  /** The as-written bitmap_init sets a bit past the first `nbits`: with
      `nbits = 1` over two sectors, the first bit of the second sector ends
      up 1 as well. */
  lemma InitAsWrittenSetsExtraBit(d: seq<seq<bv8>>, ss: nat, start: nat)
    requires ss > 0 && Sized(d, ss) && start + 2 <= |d|
    ensures ss * BYTE < Bits(ss, Region(start, 2))
    ensures IsSet(InitializedAsWritten(d, ss, Region(start, 2), 1), ss, Region(start, 2), ss * BYTE)
    ensures ss * BYTE >= 1
  {
    var rg := Region(start, 2);
    var idx := ss * BYTE;
    BitIndexParts(ss, 1, 0, 7);
    assert BitIndex(ss, 1, 0, 7) == idx;
    var d' := InitializedAsWritten(d, ss, rg, 1);
    assert Remaining(ss, 1, 1) == 0;
    assert d'[start + 1] == WrittenAsIs(ss, 1, 1) == WrittenAsIs(ss, 1, 0) == InitSector(ss, 1);
    assert InitSector(ss, 1)[0] == TopBits(1);
    TopBitsBits(1, 7);
  }
}
