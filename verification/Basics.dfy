/** Bytes, buffers, the big-endian codec and the div/mod facts every layer shares. */
module Basics {

  type byte = x: int | 0 <= x < 256

  datatype Option<+T> = None | Some(value: T)

  function Min(a: nat, b: nat): nat { if a < b then a else b }

  function Max(a: nat, b: nat): nat { if a < b then b else a }

  // ---------------------------------------------------------------- buffers

  function Zeros(n: nat): (z: seq<byte>)
    ensures |z| == n && forall i | 0 <= i < n :: z[i] == 0
  {
    seq(n, i => 0)
  }

  /** memcpy into the middle of a buffer; also what one raw device write does. */
  function Patch(d: seq<byte>, off: nat, b: seq<byte>): (r: seq<byte>)
    requires off + |b| <= |d|
    ensures |r| == |d|
    ensures forall i | 0 <= i < |d| :: r[i] == if off <= i < off + |b| then b[i - off] else d[i]
  {
    d[..off] + b + d[off + |b|..]
  }

  /** The chunk of `size` bytes with number `id` on the device. */
  function Chunk(d: seq<byte>, size: nat, id: nat): (r: seq<byte>)
    requires id * size + size <= |d|
    ensures |r| == size
  {
    d[id * size .. id * size + size]
  }

  predicate AllZero(b: seq<byte>) { forall i | 0 <= i < |b| :: b[i] == 0 }

  lemma AllZeroIsZeros(b: seq<byte>)
    requires AllZero(b)
    ensures b == Zeros(|b|)
  {
  }

  // ------------------------------------------------------------- arithmetic

  lemma DivMod(q: nat, s: nat, r: nat)
    requires r < s
    ensures (q * s + r) / s == q && (q * s + r) % s == r
  {
    var n := q * s + r;
    DivBounds(n, s);
    if n / s < q {
      MulMono(n / s, q, s);
    } else if n / s > q {
      MulMono(q, n / s, s);
    }
  }

  lemma MulGe(a: nat, s: nat)
    requires a >= 1
    ensures a * s >= s
  {
    assert a * s == s + (a - 1) * s;
    MulNonneg(a - 1, s);
  }

  lemma MulNonneg(a: nat, b: nat)
    ensures a * b >= 0
  {
  }

  lemma MulMono(a: nat, b: nat, s: nat)
    requires a <= b
    ensures a * s <= b * s
    ensures a < b ==> a * s + s <= b * s
  {
    assert b * s == a * s + (b - a) * s;
    MulNonneg(b - a, s);
    if a < b { MulGe(b - a, s); }
  }

  lemma MulLess(a: nat, b: nat, c: nat)
    requires a >= 1 && b < c
    ensures a * b < a * c
  {
    MulGe(a, c - b);
    assert a * c == a * b + a * (c - b);
  }

  lemma DivBounds(n: nat, s: nat)
    requires s > 0
    ensures n / s * s <= n < n / s * s + s
    ensures n / s * s + n % s == n
    ensures n / s >= 0
  {
  }

  lemma DivMono(a: nat, b: nat, s: nat)
    requires a <= b && s > 0
    ensures a / s <= b / s
  {
    DivBounds(a, s); DivBounds(b, s);
    if a / s > b / s { MulMono(b / s, a / s, s); }
  }

  /** n below q*s is the same as its quotient below q. */
  lemma DivBelow(n: nat, q: nat, s: nat)
    requires s > 0
    ensures n < q * s <==> n / s < q
  {
    DivBounds(n, s);
    if n / s < q { MulMono(n / s, q, s); } else { MulMono(q, n / s, s); }
  }

  // ----------------------------------------------------- raw device accesses

  lemma PatchSlice(d: seq<byte>, off: nat, b: seq<byte>, lo: nat, hi: nat)
    requires off + |b| <= |d| && lo <= hi <= |d|
    requires hi <= off || off + |b| <= lo
    ensures Patch(d, off, b)[lo..hi] == d[lo..hi]
  {
  }

  lemma PatchChunk(d: seq<byte>, size: nat, id: nat, b: seq<byte>)
    requires |b| == size && id * size + size <= |d|
    ensures Chunk(Patch(d, id * size, b), size, id) == b
  {
  }

  lemma PatchOtherChunk(d: seq<byte>, size: nat, id: nat, b: seq<byte>, other: nat)
    requires |b| == size && id * size + size <= |d| && other * size + size <= |d|
    requires other != id
    ensures Chunk(Patch(d, id * size, b), size, other) == Chunk(d, size, other)
  {
    if other < id { MulMono(other, id, size); } else { MulMono(id, other, size); }
    PatchSlice(d, id * size, b, other * size, other * size + size);
  }

  // -------------------------------------------------- big-endian 32-bit codec

  const U32: nat := 0x1_0000_0000

  const U64: nat := 0x1_0000_0000_0000_0000

  function Put32(v: nat): (b: seq<byte>)
    requires v < U32
    ensures |b| == 4
  {
    [v / 256 / 256 / 256, v / 256 / 256 % 256, v / 256 % 256, v % 256]
  }

  function Get32(d: seq<byte>, off: nat): (v: nat)
    requires off + 4 <= |d|
    ensures v < U32
  {
    var b0: int, b1: int, b2: int := d[off], d[off + 1], d[off + 2];
    ((b0 * 256 + b1) * 256 + b2) * 256 + d[off + 3]
  }

  lemma PutGet32(v: nat)
    requires v < U32
    ensures Get32(Put32(v), 0) == v
  {
  }

  lemma Get32At(d: seq<byte>, off: nat, v: nat)
    requires off + 4 <= |d| && v < U32
    requires d[off..off + 4] == Put32(v)
    ensures Get32(d, off) == v
  {
    PutGet32(v);
    var s := d[off..off + 4];
    assert s[0] == d[off] && s[1] == d[off + 1] && s[2] == d[off + 2] && s[3] == d[off + 3];
  }
}
