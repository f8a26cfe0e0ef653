/** The base class of the fixed-width atomics (src/atomic.js; `Atomic` in
    lib/osc.browser.js; `OSCAtomic` in lib/osc.js): `pack` writes the value
    with a DataView setter into a fresh buffer, `unpack` reads it back with
    the matching getter and moves the offset past it. */
module AtomicBase {
  import opened Wrappers
  import opened Utils
  import opened Bytes

  /** What `pack` treats as a missing value. src/atomic.js, src/atomic/string.js,
      dist/osc.js and lib/osc.js refuse every falsy value (`!this.value`);
      lib/osc.browser.js refuses `undefined` only (`isUndefined(this.value)`). */
  datatype Guard = RejectFalsy | RejectUndefined

  predicate Admits(g: Guard, v: Value) {
    match g
    case RejectFalsy => Truthy(v)
    case RejectUndefined => !v.Undefined?
  }

  /** `view` holds `bytes` from index `o` on. */
  predicate HoldsAt(view: seq<Byte>, o: int, bytes: seq<Byte>) {
    0 <= o && o + |bytes| <= |view| && view[o..o + |bytes|] == bytes
  }

  /** Every sequence holds itself at index 0. */
  lemma HoldsAtWhole(bytes: seq<Byte>)
    ensures HoldsAt(bytes, 0, bytes)
  {
    assert bytes[0..|bytes|] == bytes;
  }

  /** A view holding `x + y` at `o` holds `x` there and `y` after it. */
  lemma HoldsAtSplit(view: seq<Byte>, o: int, x: seq<Byte>, y: seq<Byte>)
    requires HoldsAt(view, o, x + y)
    ensures HoldsAt(view, o, x) && HoldsAt(view, o + |x|, y)
  {
    var w := view[o..o + |x| + |y|];
    assert view[o..o + |x|] == w[..|x|];
    assert view[o + |x|..o + |x| + |y|] == w[|x|..];
  }

  /** What `pack` throws for a value the guard refuses, worded as lib/osc.browser.js words it. */
  const EmptyValue: string := "OSC Atomic cant't be encoded with empty value"

  /** A DataView setter called on a fresh buffer of `width` bytes: ToIndex refuses
      a negative offset, then the value is converted (which may throw), then the
      word must fit inside the buffer, which only offset 0 allows. */
  function WriteWord(bits: Result<int>, offset: int, width: nat): (r: Result<seq<Byte>>)
    ensures offset < 0 ==> r == Err(RangeError)
    ensures offset >= 0 && bits.Err? ==> r == Err(bits.error)
    ensures r.Ok? <==> offset == 0 && bits.Ok?
    ensures r.Ok? ==> r.value == ToBigEndian(bits.value, width)
  {
    if offset < 0 then Err(RangeError)
    else if bits.Err? then Err(bits.error)
    else if offset + width > width then Err(RangeError)
    else Ok(ToBigEndian(bits.value, width))
  }

  /** `Atomic.pack(method, byteLength)`: the emptiness guard, then the setter. */
  function WordPacked(g: Guard, v: Value, offset: int, bits: Result<int>, width: nat): (r: Result<seq<Byte>>)
    ensures !Admits(g, v) ==> r == Err(EmptyValue)
    ensures r.Ok? <==> Admits(g, v) && offset == 0 && bits.Ok?
    ensures r.Ok? ==> |r.value| == width && FromBigEndian(r.value) == bits.value % Pow256(width)
  {
    if !Admits(g, v) then Err(EmptyValue)
    else
      var r := WriteWord(bits, offset, width);
      assert r.Ok? ==> FromBigEndian(r.value) == bits.value % Pow256(width) by {
        if r.Ok? { ReadWritten(bits.value, width); }
      }
      r
  }

  /** A DataView setter: the `k` big-endian bytes of `x` land at `offset`, and no
      other byte of the buffer changes. */
  method SetWord(data: array<Byte>, offset: nat, x: int, k: nat)
    requires offset + k <= data.Length
    modifies data
    ensures data[..] == old(data[..offset]) + ToBigEndian(x, k) + old(data[offset + k..])
  {
    var bytes := ToBigEndian(x, k);
    forall i | 0 <= i < k {
      data[offset + i] := bytes[i];
    }
    assert data[..] == old(data[..offset]) + bytes + old(data[offset + k..]);
  }

  /** `Atomic.pack`: a fresh zeroed buffer of `width` bytes, the guard, then the
      setter at `offset`. */
  method PackWord(g: Guard, v: Value, offset: int, bits: Result<int>, width: nat) returns (r: Result<seq<Byte>>)
    ensures r == WordPacked(g, v, offset, bits, width)
  {
    var data := new Byte[width](_ => 0);
    if !Admits(g, v) {
      return Err(EmptyValue);
    }
    if offset < 0 {
      return Err(RangeError);
    }
    if bits.Err? {
      return Err(bits.error);
    }
    if offset + width > data.Length {
      return Err(RangeError);
    }
    SetWord(data, offset, bits.value, width);
    assert data[..] == ToBigEndian(bits.value, width);
    r := Ok(data[..]);
  }

  /** `Atomic.unpack(dataView, getter, byteLength, offset)`: the word read at
      `offset` and the offset just past it. */
  function WordRead(view: seq<Byte>, offset: int, width: nat, signed: bool): (r: Result<(int, int)>)
    requires width > 0
    ensures r.Ok? <==> 0 <= offset && offset + width <= |view|
    ensures r.Ok? ==> r.value.1 == offset + width
    ensures r.Ok? && signed ==> -Half(width) <= r.value.0 < Half(width)
    ensures r.Ok? && !signed ==> 0 <= r.value.0 < Pow256(width)
  {
    if signed then
      var x :- ReadSigned(view, offset, width);
      Ok((x, offset + width))
    else
      var x :- ReadUnsigned(view, offset, width);
      Ok((x as int, offset + width))
  }

  /** The word read is the one whose `width` bytes are those of the view. */
  lemma WordReadBytes(view: seq<Byte>, offset: int, width: nat, signed: bool)
    requires width > 0 && WordRead(view, offset, width, signed).Ok?
    ensures ToBigEndian(WordRead(view, offset, width, signed).value.0, width) == view[offset..offset + width]
  {
    if signed {
      ReadSignedBytes(view, offset, width);
    } else {
      ReadUnsignedBytes(view, offset, width);
    }
  }

  /** A word is read back as the value that was written, wherever it sits in the view. */
  lemma WordRoundTrip(view: seq<Byte>, offset: int, x: int, width: nat, signed: bool)
    requires width > 0
    requires 0 <= offset && offset + width <= |view|
    requires view[offset..offset + width] == ToBigEndian(x, width)
    requires if signed then -Half(width) <= x < Half(width) else 0 <= x < Pow256(width)
    ensures WordRead(view, offset, width, signed) == Ok((x, offset + width))
  {
    var y := WordRead(view, offset, width, signed).value.0;
    WordReadBytes(view, offset, width, signed);
    BytesDetermineResidue(x, y, width);
    assert Pow256(width) == 256 * Pow256(width - 1);
    if signed {
      if x < 0 { DivModUnique(x, Pow256(width), -1, x + Pow256(width)); }
      else { DivModUnique(x, Pow256(width), 0, x); }
      if y < 0 { DivModUnique(y, Pow256(width), -1, y + Pow256(width)); }
      else { DivModUnique(y, Pow256(width), 0, y); }
    } else {
      DivModUnique(x, Pow256(width), 0, x);
      DivModUnique(y, Pow256(width), 0, y);
    }
  }
}
