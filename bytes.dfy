/** Big-endian words as a DataView reads and writes them: `setInt32`, `getInt32`,
    `getUint32`, `setBigInt64`, `getBigInt64`, `setBigUint64`, `getBigUint64`. */
module Bytes {
  import opened Wrappers
  import opened Utils

  function Pow256(k: nat): (r: nat)
    ensures r > 0
  {
    if k == 0 then 1 else 256 * Pow256(k - 1)
  }

  /** Half of 256^k: the bound of the signed `k`-byte range. */
  function Half(k: nat): int {
    Pow256(k) / 2
  }

  lemma Pow256Values()
    ensures Pow256(4) == TwoTo32 && Half(4) == TwoTo31
    ensures Pow256(8) == 0x1_0000_0000_0000_0000 && Half(8) == 0x8000_0000_0000_0000
  {
  }

  /** The `k` bytes of `x` modulo 256^k, most significant first: what a DataView
      setter writes (the setters reduce their argument modulo 2^(8k)). */
  function ToBigEndian(x: int, k: nat): (r: seq<Byte>)
    ensures |r| == k
    decreases k
  {
    if k == 0 then [] else ToBigEndian(x / 256, k - 1) + [x % 256]
  }

  /** The unsigned integer denoted by big-endian bytes. */
  function FromBigEndian(s: seq<Byte>): (r: nat)
    ensures r < Pow256(|s|)
  {
    if s == [] then 0 else FromBigEndian(s[..|s| - 1]) * 256 + s[|s| - 1]
  }

  /** The two's-complement reading of a `k`-byte unsigned value. */
  function Signed(u: int, k: nat): int {
    if u >= Half(k) then u - Pow256(k) else u
  }

  lemma MulAtLeast(d: int, n: int)
    requires d >= 1 && n > 0
    ensures d * n >= n
  {
  }

  lemma MulDistributes(x: int, y: int, n: int)
    ensures (x - y) * n == x * n - y * n
  {
  }

  /** Quotient and remainder are determined by the Euclidean equation. */
  lemma DivModUnique(a: int, n: int, q: int, r: int)
    requires n > 0 && 0 <= r < n && a == q * n + r
    ensures a / n == q && a % n == r
  {
    var q0, r0 := a / n, a % n;
    assert a == q0 * n + r0;
    MulDistributes(q, q0, n);
    MulDistributes(q0, q, n);
    if q0 < q {
      MulAtLeast(q - q0, n);
    } else if q < q0 {
      MulAtLeast(q0 - q, n);
    }
  }

  lemma ShiftMod(q: int, b: int, m: int)
    requires m > 0 && 0 <= b < 256
    ensures (q % m) * 256 + b == (q * 256 + b) % (m * 256)
  {
    var a := q / m;
    assert q == a * m + q % m;
    assert q * 256 == a * (m * 256) + (q % m) * 256;
    DivModUnique(q * 256 + b, m * 256, a, (q % m) * 256 + b);
  }

  /** Reading back the bytes a setter wrote yields the value modulo 256^k. */
  lemma {:induction false} ReadWritten(x: int, k: nat)
    ensures FromBigEndian(ToBigEndian(x, k)) == x % Pow256(k)
    decreases k
  {
    if k > 0 {
      var s := ToBigEndian(x, k);
      assert s[..k - 1] == ToBigEndian(x / 256, k - 1);
      ReadWritten(x / 256, k - 1);
      ShiftMod(x / 256, x % 256, Pow256(k - 1));
      assert (x / 256) * 256 + x % 256 == x;
    }
  }

  /** Writing back the value read from bytes yields the same bytes. */
  lemma {:induction false} WriteRead(s: seq<Byte>)
    ensures ToBigEndian(FromBigEndian(s), |s|) == s
  {
    if s != [] {
      var n := |s|;
      var v := FromBigEndian(s);
      var p := FromBigEndian(s[..n - 1]);
      DivModUnique(v, 256, p, s[n - 1]);
      WriteRead(s[..n - 1]);
      assert s == s[..n - 1] + [s[n - 1]];
    }
  }

  /** Two values with the same bytes are congruent modulo 256^k. */
  lemma BytesDetermineResidue(x: int, y: int, k: nat)
    requires ToBigEndian(x, k) == ToBigEndian(y, k)
    ensures x % Pow256(k) == y % Pow256(k)
  {
    ReadWritten(x, k);
    ReadWritten(y, k);
  }

  /** Values congruent modulo 256^k have the same `k` bytes. */
  lemma ResidueDeterminesBytes(x: int, y: int, k: nat)
    requires x % Pow256(k) == y % Pow256(k)
    ensures ToBigEndian(x, k) == ToBigEndian(y, k)
  {
    ReadWritten(x, k);
    WriteRead(ToBigEndian(x, k));
    ReadWritten(y, k);
    WriteRead(ToBigEndian(y, k));
  }

  /** The signed reading recovers every value of the signed `k`-byte range. */
  lemma SignedRoundTrip(x: int, k: nat)
    requires k > 0
    requires -Half(k) <= x < Half(k)
    ensures Signed(FromBigEndian(ToBigEndian(x, k)), k) == x
  {
    ReadWritten(x, k);
    assert Pow256(k) == 256 * Pow256(k - 1);
    if x < 0 {
      DivModUnique(x, Pow256(k), -1, x + Pow256(k));
    } else {
      DivModUnique(x, Pow256(k), 0, x);
    }
  }

  /** The unsigned reading recovers every value of the unsigned `k`-byte range. */
  lemma UnsignedRoundTrip(x: int, k: nat)
    requires 0 <= x < Pow256(k)
    ensures FromBigEndian(ToBigEndian(x, k)) == x
  {
    ReadWritten(x, k);
    DivModUnique(x, Pow256(k), 0, x);
  }

  /** A DataView read of `k` bytes at `offset`: a RangeError unless the whole
      word lies inside the view (a negative offset fails ToIndex). */
  function ReadUnsigned(view: seq<Byte>, offset: int, k: nat): (r: Result<nat>)
    ensures r.Ok? <==> 0 <= offset && offset + k <= |view|
    ensures r.Ok? ==> r.value < Pow256(k)
  {
    if 0 <= offset && offset + k <= |view| then Ok(FromBigEndian(view[offset..offset + k]))
    else Err(RangeError)
  }

  /** The unsigned value read is the one whose `k` bytes are those of the view. */
  lemma ReadUnsignedBytes(view: seq<Byte>, offset: int, k: nat)
    requires ReadUnsigned(view, offset, k).Ok?
    ensures ToBigEndian(ReadUnsigned(view, offset, k).value, k) == view[offset..offset + k]
  {
    WriteRead(view[offset..offset + k]);
  }

  /** `getInt32` / `getBigInt64`: the signed reading of `k` bytes. */
  function ReadSigned(view: seq<Byte>, offset: int, k: nat): (r: Result<int>)
    requires k > 0
    ensures r.Ok? <==> 0 <= offset && offset + k <= |view|
    ensures r.Ok? ==> -Half(k) <= r.value < Half(k)
  {
    var u :- ReadUnsigned(view, offset, k);
    SignedInRange(u, k);
    Ok(Signed(u, k))
  }

  /** The signed value read is the one whose `k` bytes are those of the view. */
  lemma ReadSignedBytes(view: seq<Byte>, offset: int, k: nat)
    requires k > 0 && ReadSigned(view, offset, k).Ok?
    ensures ToBigEndian(ReadSigned(view, offset, k).value, k) == view[offset..offset + k]
  {
    var u := ReadUnsigned(view, offset, k).value;
    ReadUnsignedBytes(view, offset, k);
    SignedBytes(u, k);
  }

  lemma SignedInRange(u: int, k: nat)
    requires k > 0 && 0 <= u < Pow256(k)
    ensures -Half(k) <= Signed(u, k) < Half(k)
  {
    assert Pow256(k) == 256 * Pow256(k - 1);
  }

  lemma SignedBytes(u: int, k: nat)
    requires k > 0 && 0 <= u < Pow256(k)
    ensures ToBigEndian(Signed(u, k), k) == ToBigEndian(u, k)
  {
    if u >= Half(k) {
      DivModUnique(u, Pow256(k), 0, u);
      DivModUnique(u - Pow256(k), Pow256(k), -1, u);
      ResidueDeterminesBytes(u - Pow256(k), u, k);
    }
  }

  lemma WordExamples()
    ensures ToBigEndian(42, 4) == [0, 0, 0, 42]
    ensures ToBigEndian(129123, 4) == [0, 1, 248, 99]
    ensures ToBigEndian(283711, 4) == [0, 4, 84, 63]
    ensures ToBigEndian(-1, 4) == [255, 255, 255, 255]
  {
  }
}
