/**
  Bytes, little-endian integers and positional files.

  A file is a byte sequence.  A positional read returns everything up to end of file;
  a positional write past the end leaves a zero-filled hole, as a sparse file does.
*/
module Bytes {

  type Byte = b: int | 0 <= b < 256

  const U32_LIMIT: nat := 0x1_0000_0000
  const U64_LIMIT: nat := 0x1_0000_0000_0000_0000

  type U32 = n: nat | n < 0x1_0000_0000
  type U64 = n: nat | n < 0x1_0000_0000_0000_0000

  /** A page number: the source's 32-bit `PageId`. */
  type PageId = U32

  datatype Option<+T> = None | Some(value: T)

  datatype Result<+T, +E> = Ok(value: T) | Err(error: E)

  function Min(a: int, b: int): int { if a < b then a else b }

  function Max(a: int, b: int): int { if a < b then b else a }

  predicate Distinct<T(==)>(s: seq<T>) {
    forall i, j :: 0 <= i < j < |s| ==> s[i] != s[j]
  }

  function Zeros(n: nat): (s: seq<Byte>)
    ensures |s| == n
    ensures forall i :: 0 <= i < n ==> s[i] == 0
  {
    seq(n, _ => 0)
  }

  lemma SliceOfSlice<T>(s: seq<T>, lo: nat, hi: nat, a: nat, b: nat)
    requires lo <= hi <= |s| && a <= b <= hi - lo
    ensures s[lo..hi][a..b] == s[lo + a..lo + b]
  {
    var x, y := s[lo..hi][a..b], s[lo + a..lo + b];
    forall i | 0 <= i < |x|
      ensures x[i] == y[i]
    {
      assert x[i] == s[lo..hi][a + i] == s[lo + a + i];
    }
  }

  type Uuid = u: seq<Byte> | |u| == 16 witness Zeros(16)

  // ----- 64-bit arithmetic -----

  /** A natural number as wrapping 64-bit arithmetic keeps it. */
  function Wrap64(n: nat): U64 { n % U64_LIMIT }

  lemma {:induction false} WrapShift(x: int, q: nat)
    ensures (q * U64_LIMIT + x) % U64_LIMIT == x % U64_LIMIT
  {
    if q > 0 {
      WrapShift(x, q - 1);
      WrapOnce((q - 1) * U64_LIMIT + x);
      assert q * U64_LIMIT + x == ((q - 1) * U64_LIMIT + x) + U64_LIMIT;
    }
  }

  lemma WrapOnce(x: int)
    ensures (x + U64_LIMIT) % U64_LIMIT == x % U64_LIMIT
  {
  }

  /** Wrapping early or late makes no difference. */
  lemma WrapAdd(x: nat, y: nat)
    ensures Wrap64(0) == 0 && Wrap64(Wrap64(x) + y) == Wrap64(x + y)
  {
    var q := x / U64_LIMIT;
    assert x + y == q * U64_LIMIT + (x % U64_LIMIT + y);
    WrapShift(x % U64_LIMIT + y, q);
  }

  // ----- little-endian integers -----

  function Pow256(width: nat): (r: nat)
    ensures r > 0
  {
    if width == 0 then 1 else 256 * Pow256(width - 1)
  }

  function EncodeLE(n: nat, width: nat): (s: seq<Byte>)
    ensures |s| == width
    decreases width
  {
    if width == 0 then [] else [n % 256] + EncodeLE(n / 256, width - 1)
  }

  function DecodeLE(s: seq<Byte>): nat
    decreases |s|
  {
    if s == [] then 0 else s[0] + 256 * DecodeLE(s[1..])
  }

  lemma {:induction false} DecodeEncodeLE(n: nat, width: nat)
    requires n < Pow256(width)
    ensures DecodeLE(EncodeLE(n, width)) == n
    decreases width
  {
    if width > 0 {
      DecodeEncodeLE(n / 256, width - 1);
      assert EncodeLE(n, width)[1..] == EncodeLE(n / 256, width - 1);
    }
  }

  lemma {:induction false} DecodeLEBound(s: seq<Byte>)
    ensures DecodeLE(s) < Pow256(|s|)
    decreases |s|
  {
    if s != [] {
      DecodeLEBound(s[1..]);
    }
  }

  lemma PowLimits()
    ensures Pow256(4) == U32_LIMIT
    ensures Pow256(8) == U64_LIMIT
  {
    assert Pow256(2) == 0x1_0000;
    assert Pow256(4) == 256 * (256 * Pow256(2));
    assert Pow256(6) == 256 * (256 * Pow256(4));
    assert Pow256(8) == 256 * (256 * Pow256(6));
  }

  function LE32(n: U32): (s: seq<Byte>)
    ensures |s| == 4
  {
    EncodeLE(n, 4)
  }

  function LE64(n: U64): (s: seq<Byte>)
    ensures |s| == 8
  {
    EncodeLE(n, 8)
  }

  function Read32(s: seq<Byte>): (n: U32)
    requires |s| == 4
  {
    DecodeLEBound(s);
    PowLimits();
    DecodeLE(s)
  }

  function Read64(s: seq<Byte>): (n: U64)
    requires |s| == 8
  {
    DecodeLEBound(s);
    PowLimits();
    DecodeLE(s)
  }

  lemma Read32OfLE32(n: U32)
    ensures Read32(LE32(n)) == n
  {
    PowLimits();
    DecodeEncodeLE(n, 4);
  }

  lemma Read64OfLE64(n: U64)
    ensures Read64(LE64(n)) == n
  {
    PowLimits();
    DecodeEncodeLE(n, 8);
  }

  lemma {:induction false} DecodeZeros(n: nat)
    ensures DecodeLE(Zeros(n)) == 0
  {
    if n > 0 {
      DecodeZeros(n - 1);
      assert Zeros(n)[1..] == Zeros(n - 1);
    }
  }

  // ----- positional files -----

  function ReadAt(file: seq<Byte>, off: nat, n: nat): (s: seq<Byte>)
    ensures |s| <= n
    ensures |s| == n <==> off + n <= |file| || n == 0
  {
    if off >= |file| then [] else file[off..Min(off + n, |file|)]
  }

  function SetLen(file: seq<Byte>, n: nat): (s: seq<Byte>)
    ensures |s| == n
    ensures forall i :: 0 <= i < n ==> s[i] == if i < |file| then file[i] else 0
  {
    if n <= |file| then file[..n] else file + Zeros(n - |file|)
  }

  function WriteAt(file: seq<Byte>, off: nat, data: seq<Byte>): (s: seq<Byte>)
    ensures data != [] ==> |s| == Max(|file|, off + |data|)
    ensures data == [] ==> s == file
    ensures forall i {:trigger s[i]} :: 0 <= i < |s| ==>
      s[i] == if off <= i < off + |data| then data[i - off] else if i < |file| then file[i] else 0
  {
    if data == [] then file
    else
      var grown := if |file| < off + |data| then SetLen(file, off + |data|) else file;
      grown[..off] + data + grown[off + |data|..]
  }

  /** What was written reads back. */
  lemma ReadOwnWrite(file: seq<Byte>, off: nat, data: seq<Byte>)
    requires data != []
    ensures ReadAt(WriteAt(file, off, data), off, |data|) == data
  {
  }

  /** A write leaves every other range alone, apart from turning end of file into zeros. */
  lemma ReadOtherRange(file: seq<Byte>, off: nat, data: seq<Byte>, at: nat, n: nat)
    requires at + n <= off || off + |data| <= at
    requires at + n <= |file|
    ensures ReadAt(WriteAt(file, off, data), at, n) == ReadAt(file, at, n)
  {
  }

  /** Writing what is already there changes nothing. */
  lemma RewriteIsIdentity(file: seq<Byte>, off: nat, data: seq<Byte>)
    requires off + |data| <= |file|
    requires file[off..off + |data|] == data
    ensures WriteAt(file, off, data) == file
  {
    var w := WriteAt(file, off, data);
    forall i | 0 <= i < |w|
      ensures w[i] == file[i]
    {
      if off <= i < off + |data| {
        assert file[off..off + |data|][i - off] == file[i];
      }
    }
  }
}
