/** The JavaScript values the library inspects, its type predicates and the
    `pad` rounding helper (src/common/utils.js, and its older copy src/utils.js). */
module Utils {

  /** One cell of a Uint8Array. */
  type Byte = b: int | 0 <= b < 256

  const TwoTo31: int := 0x8000_0000
  const TwoTo32: int := 0x1_0000_0000

  /** A JavaScript number: a finite double (its value as a real), an infinity or NaN. */
  datatype Num = Finite(r: real) | PosInf | NegInf | NaN

  /** The JavaScript values that reach the library's public operations. */
  datatype Value =
    | Number(n: Num)
    | BigInt(i: int)
    | Str(s: string)
    | Blob(bytes: seq<Byte>)        // a Uint8Array
    | Boolean(b: bool)
    | Null
    | Undefined
    | Array(items: seq<string>)     // an Array whose elements are strings
    | Function(id: nat)             // a callable, known by an identity only
    | Date(time: int)               // a Date, by its milliseconds since the epoch
    | Object                        // any other object

  /** The JavaScript integer `i` as a number value. */
  function Int(i: int): Value {
    Number(Finite(i as real))
  }

  /** ToBoolean. */
  predicate Truthy(v: Value) {
    match v
    case Number(n) => n.PosInf? || n.NegInf? || (n.Finite? && n.r != 0.0)
    case BigInt(i) => i != 0
    case Str(s) => s != ""
    case Boolean(b) => b
    case Null => false
    case Undefined => false
    case _ => true
  }

  /** `Number(n) === n`: a number that is not NaN. */
  predicate IsNumber(v: Value) {
    v.Number? && !v.n.NaN?
  }

  /** `Number(n) === n && n % 1 === 0`. `Infinity % 1` is NaN, so infinities are not integers. */
  predicate IsInt(v: Value) {
    IsNumber(v) && v.n.Finite? && v.n.r.Floor as real == v.n.r
  }

  /** `Number(n) === n && n % 1 !== 0`, which holds for the infinities as well. */
  predicate IsFloat(v: Value) {
    IsNumber(v) && !(v.n.Finite? && v.n.r.Floor as real == v.n.r)
  }

  predicate IsString(v: Value) { v.Str? }
  predicate IsArray(v: Value) { v.Array? }
  predicate IsFunction(v: Value) { v.Function? }
  predicate IsBlob(v: Value) { v.Blob? }
  predicate IsDate(v: Value) { v.Date? }
  predicate IsUndefined(v: Value) { v.Undefined? }
  predicate IsBoolean(v: Value) { v.Boolean? }
  predicate IsNull(v: Value) { v.Null? }
  /** `n === Infinity`. */
  predicate IsInfinity(v: Value) { v == Number(PosInf) }

  /** The integer an `IsInt` value denotes. */
  function IntOf(v: Value): int
    requires IsInt(v)
  {
    v.n.r.Floor
  }

  lemma IntOfInt(i: int)
    ensures IsInt(Int(i)) && IntOf(Int(i)) == i
  {
  }

  /** On finite numbers exactly one of `isInt` and `isFloat` holds. */
  lemma IntFloatPartition(r: real)
    ensures IsInt(Number(Finite(r))) != IsFloat(Number(Finite(r)))
    ensures IsInt(Number(Finite(r))) <==> r.Floor as real == r
  {
  }

  /** No value at all is both an integer and a float. */
  lemma IntFloatExclusive(v: Value)
    ensures !(IsInt(v) && IsFloat(v))
    ensures IsNumber(v) <==> IsInt(v) || IsFloat(v)
  {
  }

  /** ToInt32 applied to an integer: the 32-bit two's-complement reading of `x`. */
  function ToInt32(x: int): (r: int)
    ensures -TwoTo31 <= r < TwoTo31
    ensures (x - r) % TwoTo32 == 0
  {
    var u := x % TwoTo32;
    if u >= TwoTo31 then u - TwoTo32 else u
  }

  /** The largest `n` for which `n + 3` stays inside the int32 range of `&`. */
  const MaxPadInput: int := TwoTo31 - 4

  /** `(n + 3) & ~0x03` on an integer: ToInt32 of `n + 3` with its two low bits cleared. */
  function Pad(n: int): (r: int)
    ensures -TwoTo31 <= r < TwoTo31 && r % 4 == 0
    ensures 0 <= n <= MaxPadInput ==> n <= r < n + 4
  {
    var w := ToInt32(n + 3);
    w - w % 4
  }

  /** `pad(n)` is the least multiple of four that is at least `n`. */
  lemma PadLeast(n: int, m: int)
    requires 0 <= n <= MaxPadInput
    requires m % 4 == 0 && n <= m
    ensures Pad(n) <= m
  {
  }

  /** `pad(n) - n` lies in 0..3. */
  lemma PadSlack(n: int)
    requires 0 <= n <= MaxPadInput
    ensures 0 <= Pad(n) - n <= 3
  {
  }

  /** `pad` is the identity on multiples of four. */
  lemma PadIdentityOnMultiples(n: int)
    requires 0 <= n < TwoTo31 && n % 4 == 0
    ensures Pad(n) == n
  {
  }

  /** `pad` is idempotent. */
  lemma PadIdempotent(n: int)
    ensures Pad(Pad(n)) == Pad(n)
  {
    var p := Pad(n);
    if p >= 0 {
      PadIdentityOnMultiples(p);
    } else {
      assert ToInt32(p + 3) == p + 3;
    }
  }

  /** `pad` commutes with a shift by a multiple of four. */
  lemma PadShift(o: int, n: int)
    requires 0 <= o && o % 4 == 0 && 0 <= n && o + n <= MaxPadInput
    ensures Pad(o + n) == o + Pad(n)
  {
  }

  /** Padding what follows a 4-byte word at an aligned offset. */
  lemma PadPastWord(o: int, n: int)
    requires 0 <= o && o % 4 == 0 && 0 <= n && o + 4 + n <= MaxPadInput
    ensures Pad(o + 4 + n) == o + 4 + Pad(n)
  {
    PadShift(o, 4 + n);
    PadShift(4, n);
  }

  /** Multiples of four add up to a multiple of four. */
  lemma AlignedSum(a: int, b: int)
    requires a % 4 == 0 && b % 4 == 0
    ensures (a + b) % 4 == 0
  {
    assert a == 4 * (a / 4) && b == 4 * (b / 4);
    assert a + b == 4 * (a / 4 + b / 4);
  }

  lemma PadExamples()
    ensures Pad(0) == 0 && Pad(2) == 4 && Pad(8) == 8 && Pad(31) == 32
  {
    assert ToInt32(3) == 3 && ToInt32(5) == 5 && ToInt32(11) == 11 && ToInt32(34) == 34;
  }

  /** Past `MaxPadInput` the 32-bit `&` wraps: the result is negative. */
  lemma PadWraps()
    ensures Pad(MaxPadInput + 1) == -TwoTo31
  {
  }
}
