/**
 * Fixed-width integers and their little-endian byte layout.
 *
 * The C structures are packed and copied to and from the wire in host byte
 * order; the model fixes that order to little-endian (x86, ARM Linux).
 */
module Bytes {
  type uint8 = x: int | 0 <= x < 0x100
  type uint16 = x: int | 0 <= x < 0x1_0000
  type uint32 = x: int | 0 <= x < 0x1_0000_0000
  type int32 = x: int | -0x8000_0000 <= x < 0x8000_0000

  /** `(uint16_t)x`: C's conversion of an unsigned value to 16 bits. */
  function ToU16(x: nat): uint16 { x % 0x1_0000 }

  /** Sum of the bytes of `s`, without wrap-around. */
  function Sum(s: seq<uint8>): nat
  {
    if s == [] then 0 else Sum(s[..|s| - 1]) + s[|s| - 1]
  }

  lemma {:induction false} SumAppend(a: seq<uint8>, b: seq<uint8>)
    ensures Sum(a + b) == Sum(a) + Sum(b)
    decreases |b|
  {
    if b == [] {
      assert a + b == a;
    } else {
      SnocSplit(a, b);
      SumAppend(a, b[..|b| - 1]);
    }
  }

  /** Changing one byte moves the sum by exactly the difference of the two values. */
  lemma {:induction false} SumUpdate(s: seq<uint8>, k: nat, v: uint8)
    requires k < |s|
    ensures Sum(s[k := v]) == Sum(s) - s[k] + v
    decreases |s|
  {
    var n := |s| - 1;
    if k < n {
      assert s[k := v][..n] == s[..n][k := v];
      SumUpdate(s[..n], k, v);
    } else {
      assert s[k := v][..n] == s[..n];
    }
  }

  /** Dropping the last byte of `a + b`, for a non-empty `b`. */
  lemma SnocSplit(a: seq<uint8>, b: seq<uint8>)
    requires b != []
    ensures (a + b)[..|a + b| - 1] == a + b[..|b| - 1] && (a + b)[|a + b| - 1] == b[|b| - 1]
  {
    assert (a + b)[..|a + b| - 1] == a + b[..|b| - 1];
  }

  /** A buffer whose window at `h` holds `p` is `p` followed by the rest, read from `h`. */
  lemma WindowSplit(raw: seq<uint8>, h: nat, p: seq<uint8>)
    requires h + |p| <= |raw| && raw[h..h + |p|] == p
    ensures raw[h..] == p + raw[h + |p|..]
  {
    assert raw[h..] == raw[h..h + |p|] + raw[h + |p|..];
  }

  lemma AppendAssoc(x: seq<uint8>, y: seq<uint8>, z: seq<uint8>)
    ensures (x + y) + z == x + (y + z)
  {
  }

  /** Little-endian bytes of a 16-bit field. */
  function U16Bytes(x: uint16): (r: seq<uint8>)
    ensures |r| == 2
  {
    [x % 0x100, x / 0x100]
  }

  function U16Of(b: seq<uint8>): uint16
    requires |b| == 2
  {
    b[0] as int + 0x100 * b[1] as int
  }

  lemma U16RoundTrip(x: uint16)
    ensures U16Of(U16Bytes(x)) == x
  {
  }

  lemma U16BytesOf(b: seq<uint8>)
    requires |b| == 2
    ensures U16Bytes(U16Of(b)) == b
  {
  }

  /** Little-endian bytes of a 32-bit unsigned field. */
  function U32Bytes(x: uint32): (r: seq<uint8>)
    ensures |r| == 4
  {
    [x % 0x100, (x / 0x100) % 0x100, (x / 0x1_0000) % 0x100, x / 0x100_0000]
  }

  function U32Of(b: seq<uint8>): uint32
    requires |b| == 4
  {
    b[0] as int + 0x100 * b[1] as int + 0x1_0000 * b[2] as int + 0x100_0000 * b[3] as int
  }

  lemma U32RoundTrip(x: uint32)
    ensures U32Of(U32Bytes(x)) == x
  {
    var b0, b1, b2, b3 := x % 0x100, (x / 0x100) % 0x100, (x / 0x1_0000) % 0x100, x / 0x100_0000;
    assert x / 0x100 == b1 + 0x100 * ((x / 0x100) / 0x100);
    assert (x / 0x100) / 0x100 == x / 0x1_0000;
    assert x / 0x1_0000 == b2 + 0x100 * ((x / 0x1_0000) / 0x100);
    assert (x / 0x1_0000) / 0x100 == x / 0x100_0000;
  }

  lemma U32BytesOf(b: seq<uint8>)
    requires |b| == 4
    ensures U32Bytes(U32Of(b)) == b
  {
    var x := U32Of(b);
    var b0, b1, b2, b3 := b[0] as int, b[1] as int, b[2] as int, b[3] as int;
    PlaceByte(b0, b1 + 0x100 * b2 + 0x1_0000 * b3);
    PlaceTwoBytes(b0 + 0x100 * b1, b2 + 0x100 * b3);
    PlaceThreeBytes(b0 + 0x100 * b1 + 0x1_0000 * b2, b3);
    PlaceByte(b1, b2 + 0x100 * b3);
    PlaceByte(b2, b3);
  }

  /** The low digits and the rest above them are recovered by `%` and `/`. */
  lemma PlaceByte(lo: int, hi: int)
    requires 0 <= lo < 0x100 && 0 <= hi
    ensures (lo + 0x100 * hi) % 0x100 == lo && (lo + 0x100 * hi) / 0x100 == hi
  {
  }

  lemma PlaceTwoBytes(lo: int, hi: int)
    requires 0 <= lo < 0x1_0000 && 0 <= hi
    ensures (lo + 0x1_0000 * hi) / 0x1_0000 == hi
  {
  }

  lemma PlaceThreeBytes(lo: int, hi: int)
    requires 0 <= lo < 0x100_0000 && 0 <= hi
    ensures (lo + 0x100_0000 * hi) / 0x100_0000 == hi
  {
  }

  /** Two's complement reinterpretation between `int32_t` and `uint32_t`. */
  function I32ToU32(x: int32): uint32 { if x < 0 then x + 0x1_0000_0000 else x }

  function U32ToI32(x: uint32): int32 { if x < 0x8000_0000 then x else x - 0x1_0000_0000 }

  /** Little-endian bytes of a 32-bit signed field. */
  function I32Bytes(x: int32): (r: seq<uint8>)
    ensures |r| == 4
  {
    U32Bytes(I32ToU32(x))
  }

  function I32Of(b: seq<uint8>): int32
    requires |b| == 4
  {
    U32ToI32(U32Of(b))
  }

  lemma I32RoundTrip(x: int32)
    ensures I32Of(I32Bytes(x)) == x
  {
    U32RoundTrip(I32ToU32(x));
  }

  lemma I32BytesOf(b: seq<uint8>)
    requires |b| == 4
    ensures I32Bytes(I32Of(b)) == b
  {
    U32BytesOf(b);
  }

  /** An array of `int32_t` as it lies in memory: byte `k` is byte `k % 4` of element `k / 4`. */
  function PackI32(xs: seq<int32>): (r: seq<uint8>)
    ensures |r| == 4 * |xs|
  {
    seq(4 * |xs|, k requires 0 <= k < 4 * |xs| => I32Bytes(xs[k / 4])[k % 4])
  }

  /** An array of `uint32_t` as it lies in memory. */
  function PackU32(xs: seq<uint32>): (r: seq<uint8>)
    ensures |r| == 4 * |xs|
  {
    seq(4 * |xs|, k requires 0 <= k < 4 * |xs| => U32Bytes(xs[k / 4])[k % 4])
  }

  /** Reading `n` consecutive `int32_t` values out of a byte buffer. */
  function UnpackI32(b: seq<uint8>, n: nat): (r: seq<int32>)
    requires 4 * n <= |b|
    ensures |r| == n
  {
    if n == 0 then [] else UnpackI32(b, n - 1) + [I32Of(b[4 * (n - 1)..4 * n])]
  }

  function UnpackU32(b: seq<uint8>, n: nat): (r: seq<uint32>)
    requires 4 * n <= |b|
    ensures |r| == n
  {
    if n == 0 then [] else UnpackU32(b, n - 1) + [U32Of(b[4 * (n - 1)..4 * n])]
  }

  /** Byte `k` of element `i` of a packed `int32_t` array. */
  lemma PackI32At(xs: seq<int32>, i: nat, k: nat)
    requires i < |xs| && k < 4
    ensures PackI32(xs)[4 * i + k] == I32Bytes(xs[i])[k]
  {
    assert (4 * i + k) / 4 == i && (4 * i + k) % 4 == k;
  }

  /** The four bytes of element `i` of a packed `int32_t` array. */
  lemma PackI32Slice(xs: seq<int32>, i: nat)
    requires i < |xs|
    ensures PackI32(xs)[4 * i..4 * i + 4] == I32Bytes(xs[i])
  {
    forall k | 0 <= k < 4
      ensures PackI32(xs)[4 * i..4 * i + 4][k] == I32Bytes(xs[i])[k]
    {
      PackI32At(xs, i, k);
    }
  }

  lemma PackU32Slice(xs: seq<uint32>, i: nat)
    requires i < |xs|
    ensures PackU32(xs)[4 * i..4 * i + 4] == U32Bytes(xs[i])
  {
    forall k | 0 <= k < 4
      ensures PackU32(xs)[4 * i..4 * i + 4][k] == U32Bytes(xs[i])[k]
    {
      assert (4 * i + k) / 4 == i && (4 * i + k) % 4 == k;
    }
  }

  /** Element `i` of an unpacked array is read from its own four bytes. */
  lemma {:induction false} UnpackAt(b: seq<uint8>, n: nat, i: nat)
    requires 4 * n <= |b| && i < n
    ensures UnpackI32(b, n)[i] == I32Of(b[4 * i..4 * i + 4])
    ensures UnpackU32(b, n)[i] == U32Of(b[4 * i..4 * i + 4])
  {
    if i < n - 1 {
      UnpackAt(b, n - 1, i);
    }
  }

  /** The i-th value of an array packed at offset `at` of a larger buffer is read back from its four bytes. */
  lemma PackedSlot(data: seq<uint8>, at: nat, xs: seq<int32>, i: nat)
    requires at + 4 * |xs| <= |data| && i < |xs|
    requires data[at..at + 4 * |xs|] == PackI32(xs)
    ensures I32Of(data[at + 4 * i..at + 4 * i + 4]) == xs[i]
  {
    forall k | 0 <= k < 4
      ensures data[at + 4 * i..at + 4 * i + 4][k] == I32Bytes(xs[i])[k]
    {
      assert data[at + 4 * i + k] == data[at..at + 4 * |xs|][4 * i + k];
      PackI32At(xs, i, k);
    }
    I32RoundTrip(xs[i]);
  }

  lemma UnpackPackI32(xs: seq<int32>)
    ensures UnpackI32(PackI32(xs), |xs|) == xs
  {
    forall i | 0 <= i < |xs|
      ensures UnpackI32(PackI32(xs), |xs|)[i] == xs[i]
    {
      UnpackAt(PackI32(xs), |xs|, i);
      PackI32Slice(xs, i);
      I32RoundTrip(xs[i]);
    }
  }

  lemma UnpackPackU32(xs: seq<uint32>)
    ensures UnpackU32(PackU32(xs), |xs|) == xs
  {
    forall i | 0 <= i < |xs|
      ensures UnpackU32(PackU32(xs), |xs|)[i] == xs[i]
    {
      UnpackAt(PackU32(xs), |xs|, i);
      PackU32Slice(xs, i);
      U32RoundTrip(xs[i]);
    }
  }

  lemma PackUnpackI32(b: seq<uint8>, n: nat)
    requires |b| == 4 * n
    ensures PackI32(UnpackI32(b, n)) == b
  {
    var xs := UnpackI32(b, n);
    forall k | 0 <= k < |b|
      ensures PackI32(xs)[k] == b[k]
    {
      var i, j := k / 4, k % 4;
      UnpackAt(b, n, i);
      I32BytesOf(b[4 * i..4 * i + 4]);
      PackI32At(xs, i, j);
    }
  }

  lemma PackUnpackU32(b: seq<uint8>, n: nat)
    requires |b| == 4 * n
    ensures PackU32(UnpackU32(b, n)) == b
  {
    var xs := UnpackU32(b, n);
    forall k | 0 <= k < |b|
      ensures PackU32(xs)[k] == b[k]
    {
      var i, j := k / 4, k % 4;
      UnpackAt(b, n, i);
      U32BytesOf(b[4 * i..4 * i + 4]);
      assert b[4 * i..4 * i + 4][j] == b[k];
    }
  }

  /** The concatenation of a list of fields. */
  function Flatten(fs: seq<seq<uint8>>): seq<uint8>
  {
    if fs == [] then [] else Flatten(fs[..|fs| - 1]) + fs[|fs| - 1]
  }

  function Total(ws: seq<nat>): nat
  {
    if ws == [] then 0 else Total(ws[..|ws| - 1]) + ws[|ws| - 1]
  }

  /** Cutting a buffer into consecutive fields of the given widths. */
  function Split(bs: seq<uint8>, ws: seq<nat>): (r: seq<seq<uint8>>)
    requires |bs| == Total(ws)
    ensures |r| == |ws|
    decreases |ws|
  {
    if ws == [] then []
    else
      var w := ws[|ws| - 1];
      Split(bs[..|bs| - w], ws[..|ws| - 1]) + [bs[|bs| - w..]]
  }

  /** Cutting the concatenation of fields at their widths gives the fields back. */
  lemma {:induction false} SplitFlatten(fs: seq<seq<uint8>>, ws: seq<nat>)
    requires |fs| == |ws| && forall i :: 0 <= i < |fs| ==> |fs[i]| == ws[i]
    ensures |Flatten(fs)| == Total(ws) && Split(Flatten(fs), ws) == fs
    decreases |fs|
  {
    if fs != [] {
      var n := |fs| - 1;
      SplitFlatten(fs[..n], ws[..n]);
      var f := Flatten(fs);
      assert f == Flatten(fs[..n]) + fs[n];
      assert f[..|f| - ws[n]] == Flatten(fs[..n]);
      assert f[|f| - ws[n]..] == fs[n];
      assert fs == fs[..n] + [fs[n]];
    }
  }

  /** Concatenating the fields of a cut buffer gives the buffer back. */
  lemma {:induction false} FlattenSplit(bs: seq<uint8>, ws: seq<nat>)
    requires |bs| == Total(ws)
    ensures Flatten(Split(bs, ws)) == bs
    ensures forall i :: 0 <= i < |ws| ==> |Split(bs, ws)[i]| == ws[i]
    decreases |ws|
  {
    if ws != [] {
      var n := |ws| - 1;
      var w := ws[n];
      var r := Split(bs, ws);
      FlattenSplit(bs[..|bs| - w], ws[..n]);
      assert r[..n] == Split(bs[..|bs| - w], ws[..n]);
      assert bs == bs[..|bs| - w] + bs[|bs| - w..];
      forall i | 0 <= i < |ws|
        ensures |r[i]| == ws[i]
      {
        if i < n {
          assert r[i] == r[..n][i];
        }
      }
    }
  }

  /** A run of zero bytes (what `calloc` hands out). */
  function Zeros(n: nat): (r: seq<uint8>)
    ensures |r| == n && forall i :: 0 <= i < n ==> r[i] == 0
  {
    seq(n, _ => 0)
  }
}
