/** `AtomicUInt64` (src/atomic/uint64.js): an unsigned 64-bit big-endian
    integer held as a BigInt. */
module UInt64Atomic {
  import opened Wrappers
  import opened Utils
  import opened Bytes
  import opened AtomicBase

  const MaxUInt64: int := 0xFFFF_FFFF_FFFF_FFFF
  const MinUInt64: int := 0
  const TypeMessage: string := "OSC AtomicUInt64 constructor expects value of type BigInt"
  const BoundsMessage: string := "OSC AtomicUInt64 value is out of bounds"

  /** What the constructor keeps for `value`, or what it throws: a truthy
      non-BigInt is refused first, then a BigInt outside the uint64 range; a
      falsy value, `0n` among them, is kept as `undefined`. */
  function Construct(v: Value): (r: Result<Value>)
    ensures r.Err? <==> Truthy(v) && !(v.BigInt? && MinUInt64 <= v.i <= MaxUInt64)
    ensures r.Err? ==> r.error == (if v.BigInt? then BoundsMessage else TypeMessage)
    ensures r.Ok? ==> r.value == (if Truthy(v) then v else Undefined)
  {
    if Truthy(v) && !v.BigInt? then Err(TypeMessage)
    else if Truthy(v) && (v.i < MinUInt64 || v.i > MaxUInt64) then Err(BoundsMessage)
    else if Truthy(v) then Ok(v)
    else Ok(Undefined)
  }

  /** What an `AtomicUInt64` may hold: `undefined`, or a uint64 BigInt (`0n` after an unpack). */
  predicate Holds(v: Value) {
    v.Undefined? || (v.BigInt? && MinUInt64 <= v.i <= MaxUInt64)
  }

  /** `setBigUint64`'s ToBigUint64: a BigInt as itself, `undefined` throws. */
  function Bits(v: Value): (r: Result<int>)
    ensures r.Ok? <==> v.BigInt?
    ensures r.Ok? ==> r.value == v.i
  {
    if v.BigInt? then Ok(v.i) else Err(TypeError)
  }

  function Packed(v: Value, offset: int, g: Guard): (r: Result<seq<Byte>>) {
    WordPacked(g, v, offset, Bits(v), 8)
  }

  function Unpacked(view: seq<Byte>, offset: int): (r: Result<(int, int)>) {
    WordRead(view, offset, 8, false)
  }

  class AtomicUInt64 {
    var value: Value
    var offset: int

    ghost predicate Valid()
      reads this
    {
      Holds(value)
    }

    constructor (v: Value)
      requires Holds(v)
      ensures value == v && offset == 0 && Valid()
    {
      value := v;
      offset := 0;
    }

    /** `new AtomicUInt64(value)`. */
    static method Create(v: Value) returns (r: Result<AtomicUInt64>)
      ensures r.Err? <==> Construct(v).Err?
      ensures r.Err? ==> r.error == Construct(v).error
      ensures r.Ok? ==> fresh(r.value) && r.value.value == Construct(v).value && r.value.offset == 0 && r.value.Valid()
    {
      var kept := Construct(v);
      if kept.Err? {
        return Err(kept.error);
      }
      var a := new AtomicUInt64(kept.value);
      r := Ok(a);
    }

    method Pack(g: Guard) returns (r: Result<seq<Byte>>)
      requires Valid()
      ensures r == Packed(value, offset, g)
    {
      r := PackWord(g, value, offset, Bits(value), 8);
    }

    method Unpack(view: seq<Byte>, initialOffset: int) returns (r: Result<int>)
      modifies this
      ensures match Unpacked(view, initialOffset)
        case Ok(d) => r == Ok(d.1) && value == BigInt(d.0) && offset == d.1 && Valid()
        case Err(e) => r == Err(e) && value == old(value) && offset == old(offset)
    {
      var d := WordRead(view, initialOffset, 8, false);
      if d.Err? {
        return Err(d.error);
      }
      Pow256Values();
      value := BigInt(d.value.0);
      offset := d.value.1;
      r := Ok(offset);
    }
  }

  /** Every uint64 the guard admits is packed to eight bytes and read back unchanged;
      the constructor keeps it, except `0n`, which it turns into `undefined`. */
  lemma RoundTrip(x: int, g: Guard)
    requires MinUInt64 <= x <= MaxUInt64
    requires Admits(g, BigInt(x))
    ensures Construct(BigInt(x)) == Ok(if x != 0 then BigInt(x) else Undefined)
    ensures Packed(BigInt(x), 0, g).Ok?
    ensures Unpacked(Packed(BigInt(x), 0, g).value, 0) == Ok((x, 8))
  {
    Pow256Values();
    var bytes := Packed(BigInt(x), 0, g).value;
    assert bytes[0..8] == bytes;
    WordRoundTrip(bytes, 0, x, 8, false);
  }

  lemma Bounds()
    ensures Construct(BigInt(MaxUInt64 + 1)) == Err(BoundsMessage)
    ensures Construct(BigInt(MinUInt64 - 1)) == Err(BoundsMessage)
    ensures Construct(Int(5)) == Err(TypeMessage)
    ensures Construct(BigInt(0)) == Ok(Undefined)
  {
  }

  /** Eight 0xFF bytes read back as MAX_UINT64, and `unpack` moves the offset by 8. */
  lemma UnpackMax()
    ensures Unpacked([255, 255, 255, 255, 255, 255, 255, 255], 0) == Ok((MaxUInt64, 8))
  {
    var view: seq<Byte> := [255, 255, 255, 255, 255, 255, 255, 255];
    assert view[0..8] == ToBigEndian(MaxUInt64, 8);
    Pow256Values();
    WordRoundTrip(view, 0, MaxUInt64, 8, false);
  }

  lemma PackMax(g: Guard)
    ensures Packed(BigInt(MaxUInt64), 0, g) == Ok([255, 255, 255, 255, 255, 255, 255, 255])
  {
    assert ToBigEndian(0xFF, 1) == [255];
    assert ToBigEndian(0xFFFF, 2) == [255, 255];
    assert ToBigEndian(0xFFFFFF, 3) == [255, 255, 255];
    assert ToBigEndian(0xFFFFFFFF, 4) == [255, 255, 255, 255];
    assert ToBigEndian(0xFFFFFFFFFF, 5) == [255, 255, 255, 255, 255];
    assert ToBigEndian(0xFFFFFFFFFFFF, 6) == [255, 255, 255, 255, 255, 255];
    assert ToBigEndian(0xFFFFFFFFFFFFFF, 7) == [255, 255, 255, 255, 255, 255, 255];
    assert ToBigEndian(0xFFFFFFFFFFFFFFFF, 8) == [255, 255, 255, 255, 255, 255, 255, 255];
  }
}
