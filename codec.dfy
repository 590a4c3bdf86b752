/** Byte-level encoding of the on-disk records.

    A sector is a sequence of bytes.  The C code overlays `int` fields and
    structs on sector buffers; here each field is decoded from, or spliced
    into, the bytes at its offset.  An `int` is 32 bits, two's complement,
    little-endian (the x86 layout the volume image is written in). */
module Codec {

  /** The range of a C `int`. */
  predicate IsInt32(x: int)
  {
    -0x8000_0000 <= x < 0x8000_0000
  }

  /** The value of a byte, as an integer. */
  function ByteVal(b: bv8): (n: int)
    ensures 0 <= n < 256
  {
    b as int
  }

  /** The byte holding the integer `n` (the C cast to `char`), counted up
      from the zero byte so that its value follows by induction. */
  function ToByte(n: int): (b: bv8)
    requires 0 <= n < 256
    ensures ByteVal(b) == n
  {
    if n == 0 then 0 else ToByte(n - 1) + 1
  }

  lemma ByteValInjective(a: bv8, c: bv8)
    requires ByteVal(a) == ByteVal(c)
    ensures a == c
  {
  }

  /** The bit pattern of a C `int`, read as an unsigned number. */
  function Unsigned32(x: int): (u: int)
    requires IsInt32(x)
    ensures 0 <= u < 0x1_0000_0000
    ensures (u - x) % 0x1_0000_0000 == 0
  {
    if x < 0 then x + 0x1_0000_0000 else x
  }

  /** The four bytes of a C `int`, least significant first. */
  function EncodeInt32(x: int): (r: seq<bv8>)
    requires IsInt32(x)
    ensures |r| == 4
  {
    var u0 := Unsigned32(x);
    var u1 := u0 / 256;
    var u2 := u1 / 256;
    var u3 := u2 / 256;
    [ToByte(u0 % 256), ToByte(u1 % 256), ToByte(u2 % 256), ToByte(u3)]
  }

  /** The C `int` stored in four bytes, least significant first. */
  function DecodeInt32(b: seq<bv8>): (x: int)
    requires |b| == 4
    ensures IsInt32(x)
  {
    var u := ByteVal(b[0]) + 256 * (ByteVal(b[1]) + 256 * (ByteVal(b[2]) + 256 * ByteVal(b[3])));
    if u >= 0x8000_0000 then u - 0x1_0000_0000 else u
  }

  /** Reading back a stored `int` gives the value stored. */
  lemma DecodeEncodeInt32(x: int)
    requires IsInt32(x)
    ensures DecodeInt32(EncodeInt32(x)) == x
  {
    var u0 := Unsigned32(x);
    var u1 := u0 / 256;
    var u2 := u1 / 256;
    var u3 := u2 / 256;
    var e := EncodeInt32(x);
    assert ByteVal(e[0]) == u0 % 256 && ByteVal(e[1]) == u1 % 256;
    assert ByteVal(e[2]) == u2 % 256 && ByteVal(e[3]) == u3;
    Base256(u0);
    assert u0 == if x < 0 then x + 0x1_0000_0000 else x;
  }

  /** A number below 2^32 is the sum of its four base-256 digits, least
      significant first. */
  lemma Base256(u0: int)
    requires 0 <= u0 < 0x1_0000_0000
    ensures var u1 := u0 / 256; var u2 := u1 / 256; var u3 := u2 / 256;
      u3 < 256 && u0 % 256 + 256 * (u1 % 256 + 256 * (u2 % 256 + 256 * u3)) == u0
  {
    var u1 := u0 / 256;
    var u2 := u1 / 256;
    var u3 := u2 / 256;
    assert u0 == u0 % 256 + 256 * u1 && u1 == u1 % 256 + 256 * u2 && u2 == u2 % 256 + 256 * u3;
  }

  /** Four zero bytes hold the `int` 0, and 0 is stored as four zero bytes. */
  lemma ZeroInt32()
    ensures DecodeInt32(Zeros(4)) == 0
    ensures EncodeInt32(0) == Zeros(4)
  {
    var e := EncodeInt32(0);
    assert ByteVal(e[0]) == 0 && ByteVal(e[1]) == 0 && ByteVal(e[2]) == 0 && ByteVal(e[3]) == 0;
    ByteValInjective(e[0], 0);
    ByteValInjective(e[1], 0);
    ByteValInjective(e[2], 0);
    ByteValInjective(e[3], 0);
  }

  /** C `int` arithmetic as the machine does it: the result wraps around
      modulo 2^32 into the range of an `int`. */
  function Wrap32(x: int): (r: int)
    ensures IsInt32(r)
    ensures (r - x) % 0x1_0000_0000 == 0
    ensures IsInt32(x) ==> r == x
  {
    var u := x % 0x1_0000_0000;
    if u >= 0x8000_0000 then u - 0x1_0000_0000 else u
  }

  /** `n` zero bytes (what `memset(p, 0, n)` writes). */
  function Zeros(n: nat): (z: seq<bv8>)
    ensures |z| == n
    ensures forall i :: 0 <= i < n ==> z[i] == 0
  {
    seq(n, i => 0)
  }

  /** `s` with the bytes at `off .. off + |x|` replaced by `x` (a `memcpy`
      into a buffer). */
  function Splice(s: seq<bv8>, off: nat, x: seq<bv8>): (r: seq<bv8>)
    requires off + |x| <= |s|
    ensures |r| == |s|
    ensures r[off..off + |x|] == x
    ensures forall i :: 0 <= i < |s| && (i < off || off + |x| <= i) ==> r[i] == s[i]
  {
    s[..off] + x + s[off + |x|..]
  }

  /** Bytes outside the replaced range keep their values. */
  lemma SpliceKeepsOutside(s: seq<bv8>, off: nat, x: seq<bv8>, a: nat, b: nat)
    requires off + |x| <= |s| && a <= b <= |s|
    requires b <= off || off + |x| <= a
    ensures Splice(s, off, x)[a..b] == s[a..b]
  {
    var r := Splice(s, off, x);
    assert forall i :: a <= i < b ==> r[i] == s[i];
  }

  /** The `int` stored at byte offset `off`. */
  function Word(s: seq<bv8>, off: nat): (x: int)
    requires off + 4 <= |s|
    ensures IsInt32(x)
  {
    DecodeInt32(s[off..off + 4])
  }

  /** `s` with the `int` `x` stored at byte offset `off`. */
  function PutWord(s: seq<bv8>, off: nat, x: int): (r: seq<bv8>)
    requires off + 4 <= |s| && IsInt32(x)
    ensures |r| == |s|
  {
    Splice(s, off, EncodeInt32(x))
  }

  /** Storing an `int` and reading it back gives it; an `int` stored at a
      non-overlapping offset is unaffected. */
  lemma WordAfterPutWord(s: seq<bv8>, off: nat, x: int, off': nat)
    requires off + 4 <= |s| && off' + 4 <= |s| && IsInt32(x)
    requires off' == off || off' + 4 <= off || off + 4 <= off'
    ensures Word(PutWord(s, off, x), off') == if off' == off then x else Word(s, off')
  {
    if off' == off {
      DecodeEncodeInt32(x);
    } else {
      SpliceKeepsOutside(s, off, EncodeInt32(x), off', off' + 4);
    }
  }

  /** Bytes written outside an `int` leave it unchanged. */
  lemma WordAfterSplice(s: seq<bv8>, off: nat, x: seq<bv8>, off': nat)
    requires off + |x| <= |s| && off' + 4 <= |s|
    requires off' + 4 <= off || off + |x| <= off'
    ensures Word(Splice(s, off, x), off') == Word(s, off')
  {
    SpliceKeepsOutside(s, off, x, off', off' + 4);
  }

  /** An inode record (inode_t): `size` is the byte count of a file or the
      entry count of a directory, `kind` is the C field `type` (0 regular
      file, 1 directory), `data` the sector indices of its blocks (0 means
      unused). */
  datatype Inode = Inode(size: int, kind: int, data: seq<int>)

  /** The inode with every field zero except `kind`. */
  function BlankInode(kind: int, m: nat): (ino: Inode)
    ensures |ino.data| == m
  {
    Inode(0, kind, seq(m, i => 0))
  }

  /** Size in bytes of an inode record with `m` data slots. */
  function InodeBytes(m: nat): nat
  {
    4 * (2 + m)
  }

  /** The inode record with `m` data slots stored at byte offset `off`. */
  function InodeIn(s: seq<bv8>, off: nat, m: nat): (ino: Inode)
    requires off + InodeBytes(m) <= |s|
    ensures |ino.data| == m
  {
    Inode(Word(s, off), Word(s, off + 4), seq(m, i requires 0 <= i < m => Word(s, off + 8 + 4 * i)))
  }

  /** Data slot `i` of a stored inode record is the word at its offset,
      a 32-bit integer. */
  lemma InodeDataAt(s: seq<bv8>, off: nat, m: nat, i: nat)
    requires off + InodeBytes(m) <= |s| && i < m
    ensures InodeIn(s, off, m).data[i] == Word(s, off + 8 + 4 * i)
    ensures IsInt32(InodeIn(s, off, m).data[i])
  {
  }

  /** An inode record depends only on its own bytes. */
  lemma InodeInFromBytes(s: seq<bv8>, t: seq<bv8>, at: nat, m: nat)
    requires at + InodeBytes(m) <= |s| && at + InodeBytes(m) <= |t|
    requires s[at..at + InodeBytes(m)] == t[at..at + InodeBytes(m)]
    ensures InodeIn(s, at, m) == InodeIn(t, at, m)
  {
    forall w: nat | at <= w && w + 4 <= at + InodeBytes(m)
      ensures Word(s, w) == Word(t, w)
    {
      var a, b := s[w..w + 4], t[w..w + 4];
      forall k | 0 <= k < 4 ensures a[k] == b[k] {
        assert a[k] == s[at..at + InodeBytes(m)][w + k - at];
        assert b[k] == t[at..at + InodeBytes(m)][w + k - at];
      }
      assert a == b;
    }
    forall i | 0 <= i < m
      ensures Word(s, at + 8 + 4 * i) == Word(t, at + 8 + 4 * i)
    {
    }
  }

  /** Bytes written outside an inode record leave the record unchanged. */
  lemma InodeAfterSplice(s: seq<bv8>, off: nat, x: seq<bv8>, at: nat, m: nat)
    requires off + |x| <= |s| && at + InodeBytes(m) <= |s|
    requires at + InodeBytes(m) <= off || off + |x| <= at
    ensures InodeIn(Splice(s, off, x), at, m) == InodeIn(s, at, m)
  {
    SpliceKeepsOutside(s, off, x, at, at + InodeBytes(m));
    InodeInFromBytes(Splice(s, off, x), s, at, m);
  }

  /** A zeroed record reads back as the blank inode of kind 0, and a zeroed
      record whose `type` field is then set reads back as the blank inode of
      that kind (what `memset(child, 0, ...); child->type = type` leaves). */
  lemma BlankInodeBytes(s: seq<bv8>, off: nat, m: nat, kind: int)
    requires off + InodeBytes(m) <= |s| && IsInt32(kind)
    ensures InodeIn(Splice(s, off, Zeros(InodeBytes(m))), off, m) == BlankInode(0, m)
    ensures InodeIn(PutWord(Splice(s, off, Zeros(InodeBytes(m))), off + 4, kind), off, m) == BlankInode(kind, m)
  {
    var z := Splice(s, off, Zeros(InodeBytes(m)));
    ZeroedInode(s, off, m);
    InodeAfterPutKind(z, off, m, kind);
  }

  /** A zeroed record reads back as the blank inode of kind 0. */
  lemma ZeroedInode(s: seq<bv8>, off: nat, m: nat)
    requires off + InodeBytes(m) <= |s|
    ensures InodeIn(Splice(s, off, Zeros(InodeBytes(m))), off, m) == BlankInode(0, m)
  {
    var z := Splice(s, off, Zeros(InodeBytes(m)));
    ZeroInt32();
    forall w | off <= w && w + 4 <= off + InodeBytes(m)
      ensures Word(z, w) == 0
    {
      assert z[w..w + 4] == Zeros(4);
    }
    var a, b := InodeIn(z, off, m).data, BlankInode(0, m).data;
    forall i | 0 <= i < m
      ensures a[i] == b[i]
    {
      InodeDataAt(z, off, m, i);
    }
  }

  /** Storing an `int` in the `size` or `type` field of an inode record
      leaves its data slots unchanged. */
  lemma DataAfterPutHeader(s: seq<bv8>, off: nat, m: nat, at: nat, x: int)
    requires off + InodeBytes(m) <= |s| && (at == off || at == off + 4) && IsInt32(x)
    ensures InodeIn(PutWord(s, at, x), off, m).data == InodeIn(s, off, m).data
  {
    var t := PutWord(s, at, x);
    var a, b := InodeIn(t, off, m).data, InodeIn(s, off, m).data;
    forall i | 0 <= i < m
      ensures a[i] == b[i]
    {
      InodeDataAt(t, off, m, i);
      InodeDataAt(s, off, m, i);
      assert at + 4 <= off + 8 + 4 * i;
      WordAfterPutWord(s, at, x, off + 8 + 4 * i);
    }
  }

  /** Storing a new size in an inode record changes its size and nothing
      else. */
  lemma InodeAfterPutSize(s: seq<bv8>, off: nat, m: nat, x: int)
    requires off + InodeBytes(m) <= |s| && IsInt32(x)
    ensures InodeIn(PutWord(s, off, x), off, m) == InodeIn(s, off, m).(size := x)
  {
    WordAfterPutWord(s, off, x, off);
    WordAfterPutWord(s, off, x, off + 4);
    DataAfterPutHeader(s, off, m, off, x);
  }

  /** Storing a new type in an inode record changes its type and nothing
      else. */
  lemma InodeAfterPutKind(s: seq<bv8>, off: nat, m: nat, x: int)
    requires off + InodeBytes(m) <= |s| && IsInt32(x)
    ensures InodeIn(PutWord(s, off + 4, x), off, m) == InodeIn(s, off, m).(kind := x)
  {
    WordAfterPutWord(s, off + 4, x, off);
    WordAfterPutWord(s, off + 4, x, off + 4);
    DataAfterPutHeader(s, off, m, off + 4, x);
  }

  /** Storing a sector number in data slot `i` of an inode record changes
      that slot and nothing else. */
  lemma InodeAfterPutData(s: seq<bv8>, off: nat, m: nat, i: nat, x: int)
    requires off + InodeBytes(m) <= |s| && i < m && IsInt32(x)
    ensures InodeIn(PutWord(s, off + 8 + 4 * i, x), off, m)
         == InodeIn(s, off, m).(data := InodeIn(s, off, m).data[i := x])
  {
    HeaderAfterPutWord(s, off, m, off + 8 + 4 * i, x);
    DataAfterPutWord(s, off, m, i, x);
  }

  /** Storing an `int` in data slot `i` of an inode record leaves the other
      slots unchanged. */
  lemma DataAfterPutWord(s: seq<bv8>, off: nat, m: nat, i: nat, x: int)
    requires off + InodeBytes(m) <= |s| && i < m && IsInt32(x)
    ensures InodeIn(PutWord(s, off + 8 + 4 * i, x), off, m).data == InodeIn(s, off, m).data[i := x]
  {
    var a := InodeIn(PutWord(s, off + 8 + 4 * i, x), off, m).data;
    var b := InodeIn(s, off, m).data[i := x];
    forall j | 0 <= j < m
      ensures a[j] == b[j]
    {
      DataSlotAfterPutWord(s, off, m, i, x, j);
    }
  }

  /** Storing an `int` past the `size` and `type` fields of an inode record
      leaves those fields unchanged. */
  lemma HeaderAfterPutWord(s: seq<bv8>, off: nat, m: nat, at: nat, x: int)
    requires off + InodeBytes(m) <= |s| && off + 8 <= at && at + 4 <= |s| && IsInt32(x)
    ensures InodeIn(PutWord(s, at, x), off, m).size == InodeIn(s, off, m).size
    ensures InodeIn(PutWord(s, at, x), off, m).kind == InodeIn(s, off, m).kind
  {
    WordAfterPutWord(s, at, x, off);
    WordAfterPutWord(s, at, x, off + 4);
  }

  /** Writing data slot `i` of a record changes that slot only. */
  lemma DataSlotAfterPutWord(s: seq<bv8>, off: nat, m: nat, i: nat, x: int, j: nat)
    requires off + InodeBytes(m) <= |s| && i < m && j < m && IsInt32(x)
    ensures InodeIn(PutWord(s, off + 8 + 4 * i, x), off, m).data[j]
         == if j == i then x else InodeIn(s, off, m).data[j]
  {
    var t := PutWord(s, off + 8 + 4 * i, x);
    var at, at' := off + 8 + 4 * i, off + 8 + 4 * j;
    InodeDataAt(t, off, m, j);
    InodeDataAt(s, off, m, j);
    if j == i {
      WordAfterPutWord(s, at, x, at);
    } else {
      assert at' + 4 <= at || at + 4 <= at';
      WordAfterPutWord(s, at, x, at');
    }
  }

  /** A directory entry (dirent_t): a 16-byte NUL-padded name and an inode
      number. */
  datatype Dirent = Dirent(fname: seq<bv8>, inode: int)

  /** The directory entry stored at byte offset `off`. */
  function DirentIn(s: seq<bv8>, off: nat): (e: Dirent)
    requires off + 20 <= |s|
    ensures |e.fname| == 16
  {
    Dirent(s[off..off + 16], Word(s, off + 16))
  }

  /** Bytes written outside a directory entry leave it unchanged. */
  lemma DirentAfterSplice(s: seq<bv8>, off: nat, x: seq<bv8>, at: nat)
    requires off + |x| <= |s| && at + 20 <= |s|
    requires at + 20 <= off || off + |x| <= at
    ensures DirentIn(Splice(s, off, x), at) == DirentIn(s, at)
  {
    SpliceKeepsOutside(s, off, x, at, at + 16);
    WordAfterSplice(s, off, x, at + 16);
  }

  /** A zeroed entry reads back as an empty name and inode 0. */
  lemma ZeroedDirent(s: seq<bv8>, off: nat)
    requires off + 20 <= |s|
    ensures DirentIn(Splice(s, off, Zeros(20)), off) == Dirent(Zeros(16), 0)
  {
    var z := Splice(s, off, Zeros(20));
    ZeroInt32();
    assert z[off..off + 16] == Zeros(20)[..16];
    assert z[off + 16..off + 20] == Zeros(20)[16..];
  }

  /** Every entry of a zeroed buffer reads as an empty name and inode 0. */
  lemma DirentOfZeros(n: nat, off: nat)
    requires off + 20 <= n
    ensures DirentIn(Zeros(n), off) == Dirent(Zeros(16), 0)
  {
    ZeroInt32();
    assert Zeros(n)[off..off + 16] == Zeros(16);
    assert Zeros(n)[off + 16..off + 20] == Zeros(4);
  }

  /** An entry written as a name field and an inode number reads back as
      that name field and number. */
  lemma WrittenDirent(s: seq<bv8>, off: nat, fname: seq<bv8>, n: int)
    requires off + 20 <= |s| && |fname| == 16 && IsInt32(n)
    ensures DirentIn(Splice(s, off, fname + EncodeInt32(n)), off) == Dirent(fname, n)
  {
    var x := fname + EncodeInt32(n);
    var z := Splice(s, off, x);
    DecodeEncodeInt32(n);
    assert z[off..off + 16] == x[..16];
    assert z[off + 16..off + 20] == x[16..];
  }

  /** A character a C `char` can hold, other than the terminating NUL. */
  predicate IsCChar(c: char)
  {
    0 < c as int < 256
  }

  /** A string a C `char *` can point to: no NUL inside, one byte per char. */
  predicate IsCString(s: string)
  {
    forall i :: 0 <= i < |s| ==> IsCChar(s[i])
  }

  /** The byte holding a C character. */
  function CharByte(c: char): (b: bv8)
    requires IsCChar(c)
    ensures ByteVal(b) == c as int
  {
    ToByte(c as int)
  }

  /** The bytes of a C string, without the terminating NUL. */
  function StringBytes(s: string): (r: seq<bv8>)
    requires IsCString(s)
    ensures |r| == |s|
    ensures forall i :: 0 <= i < |s| ==> r[i] == CharByte(s[i])
  {
    seq(|s|, i requires 0 <= i < |s| => CharByte(s[i]))
  }

  /** `strncpy(dst, src, n)` into an `n`-byte field: the first `n` bytes of
      `src`, padded with NUL bytes up to `n`. */
  function StrNCpy(src: string, n: nat): (r: seq<bv8>)
    requires IsCString(src)
    ensures |r| == n
  {
    if |src| >= n then StringBytes(src[..n]) else StringBytes(src) + Zeros(n - |src|)
  }

  /** `strcmp(field, name) == 0` for a name field and a name shorter than
      the field: the field holds the bytes of `name` followed by a NUL. */
  predicate NameMatches(field: seq<bv8>, name: string)
    requires IsCString(name) && |name| < |field|
  {
    field[|name|] == 0 && forall i :: 0 <= i < |name| ==> field[i] == CharByte(name[i])
  }

  /** A name copied into a field with `strncpy` compares equal to itself,
      and a field of NUL bytes compares equal to no non-empty name. */
  lemma NameMatchesCopy(name: string, other: string)
    requires IsCString(name) && IsCString(other) && |name| < 16 && |other| < 16
    ensures NameMatches(StrNCpy(name, 16), other) <==> other == name
    ensures |other| > 0 ==> !NameMatches(Zeros(16), other)
  {
    var f := StrNCpy(name, 16);
    assert f == StringBytes(name) + Zeros(16 - |name|);
    if |other| < |name| {
      assert ByteVal(f[|other|]) == name[|other|] as int;
    } else if |other| > |name| {
      assert ByteVal(StringBytes(other)[|name|]) != 0;
      assert f[..|other|][|name|] != StringBytes(other)[|name|];
    } else {
      assert f[..|name|] == StringBytes(name);
      if StringBytes(name) == StringBytes(other) {
        forall i | 0 <= i < |name| ensures other[i] == name[i] {
          assert ByteVal(CharByte(other[i])) == ByteVal(CharByte(name[i]));
        }
      }
    }
    if |other| > 0 {
      assert ByteVal(StringBytes(other)[0]) != 0;
      assert Zeros(16)[..|other|][0] != StringBytes(other)[0];
    }
  }
}
