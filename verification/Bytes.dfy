/** Bytes, little-endian fields and flat byte images. */
module Bytes {

  type byte = x: int | 0 <= x < 256

  const B16: nat := 0x1_0000
  const B32: nat := 0x1_0000_0000
  const B64: nat := 0x1_0000_0000_0000_0000

  function U16(b: seq<byte>): (n: nat)
    requires |b| == 2
    ensures n < B16
  {
    (b[0] as nat) + 256 * (b[1] as nat)
  }

  function U32(b: seq<byte>): (n: nat)
    requires |b| == 4
    ensures n < B32
  {
    U16(b[..2]) + B16 * U16(b[2..])
  }

  function U64(b: seq<byte>): (n: nat)
    requires |b| == 8
    ensures n < B64
  {
    U32(b[..4]) + B32 * U32(b[4..])
  }

  function Le16(n: nat): (b: seq<byte>)
    requires n < B16
    ensures |b| == 2
  {
    [n % 256, n / 256]
  }

  function Le32(n: nat): (b: seq<byte>)
    requires n < B32
    ensures |b| == 4
  {
    Le16(n % B16) + Le16(n / B16)
  }

  function Le64(n: nat): (b: seq<byte>)
    requires n < B64
    ensures |b| == 8
  {
    Le32(n % B32) + Le32(n / B32)
  }

  lemma U16Le16(n: nat)
    requires n < B16
    ensures U16(Le16(n)) == n
  {
  }

  lemma U32Le32(n: nat)
    requires n < B32
    ensures U32(Le32(n)) == n
  {
    U16Le16(n % B16);
    U16Le16(n / B16);
    assert Le32(n)[..2] == Le16(n % B16) && Le32(n)[2..] == Le16(n / B16);
  }

  lemma U64Le64(n: nat)
    requires n < B64
    ensures U64(Le64(n)) == n
  {
    U32Le32(n % B32);
    U32Le32(n / B32);
    assert Le64(n)[..4] == Le32(n % B32) && Le64(n)[4..] == Le32(n / B32);
  }

  lemma Le16U16(b: seq<byte>)
    requires |b| == 2
    ensures Le16(U16(b)) == b
  {
  }

  lemma Le32U32(b: seq<byte>)
    requires |b| == 4
    ensures Le32(U32(b)) == b
  {
    var lo, hi := U16(b[..2]), U16(b[2..]);
    assert U32(b) % B16 == lo && U32(b) / B16 == hi;
    Le16U16(b[..2]);
    Le16U16(b[2..]);
    assert b == b[..2] + b[2..];
  }

  lemma Le64U64(b: seq<byte>)
    requires |b| == 8
    ensures Le64(U64(b)) == b
  {
    hide U32;
    hide Le32;
    var lo, hi := U32(b[..4]), U32(b[4..]);
    assert U64(b) % B32 == lo && U64(b) / B32 == hi;
    Le32U32(b[..4]);
    Le32U32(b[4..]);
    assert b == b[..4] + b[4..];
  }

  /** Indexing past the first part of a concatenation. */
  lemma ConcatAt(a: seq<byte>, b: seq<byte>, i: nat)
    requires |a| <= i < |a| + |b|
    ensures (a + b)[i] == b[i - |a|]
  {
  }

  /** A sequence around one of its elements. */
  lemma CutAt(a: seq<byte>, n: nat)
    requires n < |a|
    ensures a == a[..n] + [a[n]] + a[n + 1..]
  {
    assert a[n..] == [a[n]] + a[n + 1..];
    assert a == a[..n] + a[n..];
  }

  function Zeros(n: nat): (z: seq<byte>)
    ensures |z| == n && forall i :: 0 <= i < n ==> z[i] == 0
  {
    seq(n, _ => 0)
  }

  /** `image` with the bytes from `at` replaced by `data`. */
  function Splice(image: seq<byte>, at: nat, data: seq<byte>): (r: seq<byte>)
    requires at + |data| <= |image|
    ensures |r| == |image|
  {
    image[..at] + data + image[at + |data|..]
  }

  lemma SpliceAt(image: seq<byte>, at: nat, data: seq<byte>)
    requires at + |data| <= |image|
    ensures Splice(image, at, data)[at..at + |data|] == data
    ensures forall i :: 0 <= i < |image| && !(at <= i < at + |data|) ==> Splice(image, at, data)[i] == image[i]
    ensures forall i :: at <= i < at + |data| ==> Splice(image, at, data)[i] == data[i - at]
  {
  }

  /** A slice that a splice does not touch. */
  lemma SpliceElsewhere(image: seq<byte>, at: nat, data: seq<byte>, lo: nat, hi: nat)
    requires at + |data| <= |image| && lo <= hi <= |image|
    requires hi <= at || at + |data| <= lo
    ensures Splice(image, at, data)[lo..hi] == image[lo..hi]
  {
  }

  lemma SpliceAppend(image: seq<byte>, at: nat, a: seq<byte>, b: seq<byte>)
    requires at + |a| + |b| <= |image|
    ensures Splice(Splice(image, at, a), at + |a|, b) == Splice(image, at, a + b)
  {
  }

  /** A slice of a slice. */
  lemma SliceOfSlice(s: seq<byte>, a: nat, b: nat, c: nat, d: nat)
    requires a <= b <= |s| && c <= d <= b - a
    ensures s[a..b][c..d] == s[a + c..a + d]
  {
    var x, y := s[a..b][c..d], s[a + c..a + d];
    forall i | 0 <= i < |x| ensures x[i] == y[i] {}
  }
}
