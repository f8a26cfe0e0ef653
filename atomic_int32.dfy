/** `AtomicInt32` (src/atomic/int32.js; lib/osc.browser.js:248-271): a 32-bit
    big-endian two's-complement integer. */
module Int32Atomic {
  import opened Wrappers
  import opened Utils
  import opened Bytes
  import opened AtomicBase

  const ConstructorError: string := "OSC AtomicInt32 constructor expects value of type number"

  /** What an `AtomicInt32` may hold: an integer number, or any falsy value. */
  predicate Holds(v: Value) {
    !Truthy(v) || IsInt(v)
  }

  /** The number `setInt32` converts a held value to: an integer stays itself, the
      other falsy values become 0 and a BigInt (`0n`) throws a TypeError. */
  function Bits(v: Value): (r: Result<int>)
    requires Holds(v)
    ensures r.Err? <==> v.BigInt?
    ensures IsInt(v) ==> r == Ok(IntOf(v))
    ensures !IsInt(v) && r.Ok? ==> r.value == 0
  {
    if IsInt(v) then Ok(IntOf(v)) else if v.BigInt? then Err(TypeError) else Ok(0)
  }

  /** The bytes `pack` returns for `value` held at `offset`. */
  function Packed(v: Value, offset: int, g: Guard): (r: Result<seq<Byte>>)
    requires Holds(v)
  {
    WordPacked(g, v, offset, Bits(v), 4)
  }

  /** The value `unpack` reads at `offset` and the offset it returns. */
  function Unpacked(view: seq<Byte>, offset: int): (r: Result<(int, int)>) {
    WordRead(view, offset, 4, true)
  }

  class AtomicInt32 {
    var value: Value
    var offset: int

    ghost predicate Valid()
      reads this
    {
      Holds(value)
    }

    constructor (v: Value)
      requires Holds(v)
      ensures value == v && offset == 0 && Valid()
    {
      value := v;
      offset := 0;
    }

    /** `new AtomicInt32(value)`: a truthy value that is not an integer throws. */
    static method Create(v: Value) returns (r: Result<AtomicInt32>)
      ensures r.Err? <==> !Holds(v)
      ensures r.Err? ==> r.error == ConstructorError
      ensures r.Ok? ==> fresh(r.value) && r.value.value == v && r.value.offset == 0 && r.value.Valid()
    {
      if Truthy(v) && !IsInt(v) {
        return Err(ConstructorError);
      }
      var a := new AtomicInt32(v);
      r := Ok(a);
    }

    method Pack(g: Guard) returns (r: Result<seq<Byte>>)
      requires Valid()
      ensures r == Packed(value, offset, g)
    {
      r := PackWord(g, value, offset, Bits(value), 4);
    }

    /** Reads a signed word at `initialOffset`, keeps it and moves `offset` past it;
        a read outside the view throws and changes nothing. */
    method Unpack(view: seq<Byte>, initialOffset: int) returns (r: Result<int>)
      modifies this
      ensures match Unpacked(view, initialOffset)
        case Ok(d) => r == Ok(d.1) && value == Int(d.0) && offset == d.1 && Valid()
        case Err(e) => r == Err(e) && value == old(value) && offset == old(offset)
    {
      var d := WordRead(view, initialOffset, 4, true);
      if d.Err? {
        return Err(d.error);
      }
      IntOfInt(d.value.0);
      value := Int(d.value.0);
      offset := d.value.1;
      r := Ok(offset);
    }
  }

  /** `unpack(pack(v)) == v` for every integer of the int32 range that the guard admits. */
  lemma RoundTrip(x: int, g: Guard)
    requires -TwoTo31 <= x < TwoTo31
    requires Admits(g, Int(x))
    ensures Packed(Int(x), 0, g).Ok?
    ensures Unpacked(Packed(Int(x), 0, g).value, 0) == Ok((x, 4))
  {
    IntOfInt(x);
    Pow256Values();
    var bytes := Packed(Int(x), 0, g).value;
    assert bytes[0..4] == bytes;
    WordRoundTrip(bytes, 0, x, 4, true);
  }

  /** An integer outside the int32 range wraps: what is read back is its ToInt32. */
  lemma Wraps(x: int, g: Guard)
    requires Admits(g, Int(x))
    ensures Packed(Int(x), 0, g).Ok?
    ensures Unpacked(Packed(Int(x), 0, g).value, 0) == Ok((ToInt32(x), 4))
  {
    IntOfInt(x);
    Pow256Values();
    var bytes := Packed(Int(x), 0, g).value;
    assert (x - ToInt32(x)) % TwoTo32 == 0;
    DivModUnique(x - ToInt32(x), TwoTo32, (x - ToInt32(x)) / TwoTo32, 0);
    assert x % TwoTo32 == ToInt32(x) % TwoTo32 by {
      var q := (x - ToInt32(x)) / TwoTo32;
      var t := ToInt32(x);
      DivModUnique(x, TwoTo32, q + t / TwoTo32, t % TwoTo32);
    }
    ResidueDeterminesBytes(x, ToInt32(x), 4);
    assert bytes[0..4] == bytes;
    WordRoundTrip(bytes, 0, ToInt32(x), 4, true);
  }

  /** 0 is falsy: the falsy guard refuses to pack it, the undefined guard packs four zeros. */
  lemma ZeroGuard()
    ensures Packed(Int(0), 0, RejectFalsy) == Err(EmptyValue)
    ensures Packed(Int(0), 0, RejectUndefined) == Ok([0, 0, 0, 0])
  {
    IntOfInt(0);
    assert ToBigEndian(0, 4) == [0, 0, 0, 0];
  }

  lemma PackExample(g: Guard)
    ensures Packed(Int(42), 0, g) == Ok([0, 0, 0, 42])
  {
    IntOfInt(42);
    WordExamples();
  }

  /** A word written at a nonzero offset does not fit the 4-byte buffer. */
  lemma PackOffsetOutOfRange(x: int, offset: int, g: Guard)
    requires offset != 0 && Admits(g, Int(x))
    ensures Packed(Int(x), offset, g) == Err(RangeError)
  {
    IntOfInt(x);
  }
}
