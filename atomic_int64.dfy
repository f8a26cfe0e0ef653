/** `AtomicInt64` (src/atomic/int64.js): a 64-bit big-endian two's-complement
    integer held as a BigInt. */
module Int64Atomic {
  import opened Wrappers
  import opened Utils
  import opened Bytes
  import opened AtomicBase

  const MaxInt64: int := 0x7FFF_FFFF_FFFF_FFFF
  const MinInt64: int := -0x8000_0000_0000_0000
  const TypeMessage: string := "OSC AtomicInt64 constructor expects value of type BigInt"
  const BoundsMessage: string := "OSC AtomicInt64 value is out of bounds"

  /** What the constructor keeps for `value`, or what it throws: a truthy
      non-BigInt is refused first, then a BigInt outside the int64 range; a
      falsy value, `0n` among them, is kept as `undefined`. */
  function Construct(v: Value): (r: Result<Value>)
    ensures r.Err? <==> Truthy(v) && !(v.BigInt? && MinInt64 <= v.i <= MaxInt64)
    ensures r.Err? ==> r.error == (if v.BigInt? then BoundsMessage else TypeMessage)
    ensures r.Ok? ==> r.value == (if Truthy(v) then v else Undefined)
  {
    if Truthy(v) && !v.BigInt? then Err(TypeMessage)
    else if Truthy(v) && (v.i < MinInt64 || v.i > MaxInt64) then Err(BoundsMessage)
    else if Truthy(v) then Ok(v)
    else Ok(Undefined)
  }

  /** What an `AtomicInt64` may hold: `undefined`, or an int64 BigInt (`0n` after an unpack). */
  predicate Holds(v: Value) {
    v.Undefined? || (v.BigInt? && MinInt64 <= v.i <= MaxInt64)
  }

  /** `setBigInt64`'s ToBigInt64: a BigInt as itself, `undefined` throws. */
  function Bits(v: Value): (r: Result<int>)
    ensures r.Ok? <==> v.BigInt?
    ensures r.Ok? ==> r.value == v.i
  {
    if v.BigInt? then Ok(v.i) else Err(TypeError)
  }

  function Packed(v: Value, offset: int, g: Guard): (r: Result<seq<Byte>>) {
    WordPacked(g, v, offset, Bits(v), 8)
  }

  function Unpacked(view: seq<Byte>, offset: int): (r: Result<(int, int)>) {
    WordRead(view, offset, 8, true)
  }

  class AtomicInt64 {
    var value: Value
    var offset: int

    ghost predicate Valid()
      reads this
    {
      Holds(value)
    }

    constructor (v: Value)
      requires Holds(v)
      ensures value == v && offset == 0 && Valid()
    {
      value := v;
      offset := 0;
    }

    /** `new AtomicInt64(value)`. */
    static method Create(v: Value) returns (r: Result<AtomicInt64>)
      ensures r.Err? <==> Construct(v).Err?
      ensures r.Err? ==> r.error == Construct(v).error
      ensures r.Ok? ==> fresh(r.value) && r.value.value == Construct(v).value && r.value.offset == 0 && r.value.Valid()
    {
      var kept := Construct(v);
      if kept.Err? {
        return Err(kept.error);
      }
      var a := new AtomicInt64(kept.value);
      r := Ok(a);
    }

    method Pack(g: Guard) returns (r: Result<seq<Byte>>)
      requires Valid()
      ensures r == Packed(value, offset, g)
    {
      r := PackWord(g, value, offset, Bits(value), 8);
    }

    method Unpack(view: seq<Byte>, initialOffset: int) returns (r: Result<int>)
      modifies this
      ensures match Unpacked(view, initialOffset)
        case Ok(d) => r == Ok(d.1) && value == BigInt(d.0) && offset == d.1 && Valid()
        case Err(e) => r == Err(e) && value == old(value) && offset == old(offset)
    {
      var d := WordRead(view, initialOffset, 8, true);
      if d.Err? {
        return Err(d.error);
      }
      Pow256Values();
      value := BigInt(d.value.0);
      offset := d.value.1;
      r := Ok(offset);
    }
  }

  /** Every int64 the guard admits is packed to eight bytes and read back unchanged;
      the constructor keeps it, except `0n`, which it turns into `undefined`. */
  lemma RoundTrip(x: int, g: Guard)
    requires MinInt64 <= x <= MaxInt64
    requires Admits(g, BigInt(x))
    ensures Construct(BigInt(x)) == Ok(if x != 0 then BigInt(x) else Undefined)
    ensures Packed(BigInt(x), 0, g).Ok?
    ensures Unpacked(Packed(BigInt(x), 0, g).value, 0) == Ok((x, 8))
  {
    Pow256Values();
    var bytes := Packed(BigInt(x), 0, g).value;
    assert bytes[0..8] == bytes;
    WordRoundTrip(bytes, 0, x, 8, true);
  }

  lemma Bounds()
    ensures Construct(BigInt(MaxInt64 + 1)) == Err(BoundsMessage)
    ensures Construct(BigInt(MinInt64 - 1)) == Err(BoundsMessage)
    ensures Construct(Int(5)) == Err(TypeMessage)
    ensures Construct(BigInt(0)) == Ok(Undefined)
  {
  }

  lemma PackMax(g: Guard)
    ensures Packed(BigInt(MaxInt64), 0, g) == Ok([127, 255, 255, 255, 255, 255, 255, 255])
  {
    assert ToBigEndian(0x7F, 1) == [127];
    assert ToBigEndian(0x7FFF, 2) == [127, 255];
    assert ToBigEndian(0x7FFFFF, 3) == [127, 255, 255];
    assert ToBigEndian(0x7FFFFFFF, 4) == [127, 255, 255, 255];
    assert ToBigEndian(0x7FFFFFFFFF, 5) == [127, 255, 255, 255, 255];
    assert ToBigEndian(0x7FFFFFFFFFFF, 6) == [127, 255, 255, 255, 255, 255];
    assert ToBigEndian(0x7FFFFFFFFFFFFF, 7) == [127, 255, 255, 255, 255, 255, 255];
    assert ToBigEndian(0x7FFFFFFFFFFFFFFF, 8) == [127, 255, 255, 255, 255, 255, 255, 255];
  }
}
