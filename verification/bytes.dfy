/**
 * Byte-level vocabulary of the grid codec's wire format: fixed-width
 * unsigned integers, their little-endian serialisation, and the
 * buffer-copy primitives the encoder uses to write into or read from a
 * message at a given offset.
 */
module Bytes {

  type byte = x: int | 0 <= x < 0x100
  type uint32 = x: int | 0 <= x < 0x1_0000_0000
  type uint64 = x: int | 0 <= x < 0x1_0000_0000_0000_0000

  datatype Option<T> = None | Some(value: T)

  /** A value read from a buffer together with the offset just past it. */
  datatype Parsed<T> = Parsed(value: T, next: nat)

  /** Number of distinct values of a `width`-byte unsigned integer. */
  function Pow256(width: nat): (r: nat)
    ensures r >= 1
  {
    if width == 0 then 1 else 256 * Pow256(width - 1)
  }

  lemma Pow256Widths()
    ensures Pow256(1) == 0x100
    ensures Pow256(4) == 0x1_0000_0000
    ensures Pow256(8) == 0x1_0000_0000_0000_0000
  {
    assert Pow256(2) == 0x1_0000;
    assert Pow256(4) == 0x1_0000_0000;
  }

  /** `x` written in exactly `width` bytes, least significant byte first. */
  function EncodeLE(x: nat, width: nat): (r: seq<byte>)
    requires x < Pow256(width)
    ensures |r| == width
  {
    if width == 0 then [] else [x % 256] + EncodeLE(x / 256, width - 1)
  }

  /** The unsigned integer whose little-endian serialisation is `s`. */
  function DecodeLE(s: seq<byte>): (x: nat)
    ensures x < Pow256(|s|)
  {
    if s == [] then 0 else s[0] + 256 * DecodeLE(s[1..])
  }

  /** Reading back a written integer gives the integer. */
  lemma {:induction false} DecodeEncodeLE(x: nat, width: nat)
    requires x < Pow256(width)
    ensures DecodeLE(EncodeLE(x, width)) == x
  {
    if width > 0 {
      DecodeEncodeLE(x / 256, width - 1);
      assert EncodeLE(x, width)[1..] == EncodeLE(x / 256, width - 1);
    }
  }

  /** Every byte string is the serialisation of the integer read from it. */
  lemma {:induction false} EncodeDecodeLE(s: seq<byte>)
    ensures EncodeLE(DecodeLE(s), |s|) == s
  {
    if s != [] {
      EncodeDecodeLE(s[1..]);
      var x := DecodeLE(s);
      assert x % 256 == s[0] && x / 256 == DecodeLE(s[1..]);
    }
  }

  /** Byte `k` of `b`; the only term that exposes what Holds says about a single byte. */
  function ByteAt(b: seq<byte>, k: nat): byte
    requires k < |b|
  {
    b[k]
  }

  /** `s` holds the bytes `b` from `offset` on. */
  predicate Holds(s: seq<byte>, offset: nat, b: seq<byte>)
  {
    offset + |b| <= |s| && forall k {:trigger ByteAt(b, k)} :: 0 <= k < |b| ==> s[offset + k] == ByteAt(b, k)
  }

  lemma HoldsAt(s: seq<byte>, offset: nat, b: seq<byte>, k: nat)
    requires Holds(s, offset, b) && k < |b|
    ensures s[offset + k] == b[k]
  {
    assert ByteAt(b, k) == b[k];
  }

  lemma HoldsSlice(s: seq<byte>, offset: nat, b: seq<byte>)
    requires Holds(s, offset, b)
    ensures s[offset..offset + |b|] == b
  {
    var x := s[offset..offset + |b|];
    forall k | 0 <= k < |b|
      ensures x[k] == b[k]
    {
      assert ByteAt(b, k) == b[k];
    }
  }

  lemma HoldsMiddle(prefix: seq<byte>, mid: seq<byte>, suffix: seq<byte>)
    ensures Holds(prefix + mid + suffix, |prefix|, mid)
  {
    var s := prefix + mid + suffix;
    forall k | 0 <= k < |mid|
      ensures s[|prefix| + k] == ByteAt(mid, k)
    {
    }
  }

  lemma HoldsWhole(s: seq<byte>)
    ensures Holds(s, 0, s)
  {
    forall k | 0 <= k < |s|
      ensures s[k] == ByteAt(s, k)
    {
    }
  }

  /** Holding `a + b` is holding `a`, then `b` right after it. */
  lemma HoldsSplit(s: seq<byte>, offset: nat, a: seq<byte>, b: seq<byte>)
    requires Holds(s, offset, a + b)
    ensures Holds(s, offset, a) && Holds(s, offset + |a|, b)
  {
    forall k | 0 <= k < |a|
      ensures s[offset + k] == ByteAt(a, k)
    {
      assert ByteAt(a + b, k) == a[k];
    }
    forall k | 0 <= k < |b|
      ensures s[offset + |a| + k] == ByteAt(b, k)
    {
      assert ByteAt(a + b, |a| + k) == b[k];
    }
  }

  /** A slice of a region known to hold `mid` is the matching slice of `mid`. */
  lemma SliceWithin(s: seq<byte>, offset: nat, n: nat, mid: seq<byte>, a: nat, len: nat)
    requires offset + n <= |s| && |mid| == n && s[offset..offset + n] == mid
    requires a + len <= n
    ensures s[offset + a..offset + a + len] == mid[a..a + len]
  {
    var x := s[offset + a..offset + a + len];
    var y := mid[a..a + len];
    forall j | 0 <= j < len
      ensures x[j] == y[j]
    {
      assert mid[a + j] == s[offset + (a + j)];
    }
  }

  /** The byte strings `f` gives for the elements of `xs`, concatenated in order. */
  function Flatten<T>(xs: seq<T>, f: T -> seq<byte>): seq<byte>
  {
    if xs == [] then [] else Flatten(xs[..|xs| - 1], f) + f(xs[|xs| - 1])
  }

  lemma {:induction false} FlattenAppend<T>(a: seq<T>, b: seq<T>, f: T -> seq<byte>)
    ensures Flatten(a + b, f) == Flatten(a, f) + Flatten(b, f)
  {
    if b != [] {
      var last := |b| - 1;
      assert (a + b)[..|a + b| - 1] == a + b[..last];
      FlattenAppend(a, b[..last], f);
    } else {
      assert a + b == a;
    }
  }

  lemma FlattenSnoc<T>(xs: seq<T>, k: nat, f: T -> seq<byte>)
    requires k < |xs|
    ensures Flatten(xs[..k + 1], f) == Flatten(xs[..k], f) + f(xs[k])
  {
    assert xs[..k + 1][..k] == xs[..k];
  }

  lemma {:induction false} FlattenSplit<T>(xs: seq<T>, k: nat, f: T -> seq<byte>)
    requires k < |xs|
    ensures Flatten(xs, f) == Flatten(xs[..k + 1], f) + Flatten(xs[k + 1..], f)
  {
    var front, back := xs[..k + 1], xs[k + 1..];
    assert front + back == xs;
    FlattenAppend(front, back, f);
  }

  /** Where the concatenation is held, element `k`'s bytes are held right after those of the elements before it. */
  lemma FlattenHeldAt<T>(xs: seq<T>, f: T -> seq<byte>, s: seq<byte>, base: nat, k: nat)
    requires k < |xs| && Holds(s, base, Flatten(xs, f))
    ensures Holds(s, base + |Flatten(xs[..k], f)|, f(xs[k]))
  {
    FlattenSplit(xs, k, f);
    HoldsSplit(s, base, Flatten(xs[..k + 1], f), Flatten(xs[k + 1..], f));
    FlattenSnoc(xs, k, f);
    HoldsSplit(s, base, Flatten(xs[..k], f), f(xs[k]));
  }

  lemma SliceConcat(s: seq<byte>, a: nat, b: nat, c: nat)
    requires a <= b <= c <= |s|
    ensures s[a..c] == s[a..b] + s[b..c]
  {
  }

  /** `s` with `b` written over it from `offset` on; the rest of `s` is kept. */
  function Splice(s: seq<byte>, offset: nat, b: seq<byte>): (r: seq<byte>)
    requires offset + |b| <= |s|
    ensures |r| == |s|
  {
    s[..offset] + b + s[offset + |b|..]
  }

  lemma SpliceAt(s: seq<byte>, offset: nat, b: seq<byte>)
    requires offset + |b| <= |s|
    ensures Splice(s, offset, b)[..offset] == s[..offset]
    ensures Splice(s, offset, b)[offset..offset + |b|] == b
    ensures Splice(s, offset, b)[..offset + |b|] == s[..offset] + b
    ensures Splice(s, offset, b)[offset + |b|..] == s[offset + |b|..]
  {
    var r := Splice(s, offset, b);
    assert r[..offset + |b|] == s[..offset] + b;
  }

  lemma SpliceNothing(s: seq<byte>, offset: nat)
    requires offset <= |s|
    ensures Splice(s, offset, []) == s
  {
    assert s[..offset] + [] + s[offset..] == s;
  }

  /** Writing over the whole of `s` leaves exactly what was written. */
  lemma SpliceWhole(s: seq<byte>, b: seq<byte>)
    requires |b| == |s|
    ensures Splice(s, 0, b) == b
  {
    assert s[..0] + b + s[|b|..] == b;
  }


  /** Two adjacent writes are one write of the concatenation. */
  lemma SpliceTwice(s: seq<byte>, offset: nat, a: seq<byte>, b: seq<byte>)
    requires offset + |a| + |b| <= |s|
    ensures Splice(Splice(s, offset, a), offset + |a|, b) == Splice(s, offset, a + b)
  {
    var t := Splice(s, offset, a);
    assert t[..offset + |a|] == s[..offset] + a;
    assert t[offset + |a| + |b|..] == s[offset + |a| + |b|..];
  }

  /** Reads the `width`-byte little-endian integer at `buf[offset..]`. */
  method ReadLE(buf: array<byte>, offset: nat, width: nat) returns (x: nat)
    requires offset + width <= buf.Length
    ensures x == DecodeLE(buf[offset..offset + width])
  {
    x := 0;
    var i := width;
    while i > 0
      invariant 0 <= i <= width
      invariant x == DecodeLE(buf[offset + i..offset + width])
    {
      i := i - 1;
      assert buf[offset + i..offset + width][1..] == buf[offset + i + 1..offset + width];
      x := buf[offset + i] + 256 * x;
    }
  }

  /** Copies `data` into `buf` starting at `offset`. */
  method WriteBytes(buf: array<byte>, offset: nat, data: seq<byte>)
    requires offset + |data| <= buf.Length
    modifies buf
    ensures buf[..] == Splice(old(buf[..]), offset, data)
  {
    var i := 0;
    while i < |data|
      invariant 0 <= i <= |data|
      invariant buf[offset..offset + i] == data[..i]
      invariant forall j :: 0 <= j < offset ==> buf[j] == old(buf[j])
      invariant forall j :: offset + |data| <= j < buf.Length ==> buf[j] == old(buf[j])
    {
      buf[offset + i] := data[i];
      i := i + 1;
    }
    assert buf[..] == old(buf[..])[..offset] + data + old(buf[..])[offset + |data|..];
  }
}
