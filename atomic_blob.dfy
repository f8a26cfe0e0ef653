/** `AtomicBlob` (src/atomic/blob.js; lib/osc.browser.js:366-402): an int32
    size, then the payload zero-padded to a multiple of four bytes. */
module BlobAtomic {
  import opened Wrappers
  import opened Utils
  import opened Bytes
  import opened AtomicBase

  const ConstructorError: string := "OSC AtomicBlob constructor expects value of type Uint8Array"
  const EmptyBlob: string := "OSC AtomicBlob can not be encoded with empty value"

  /** What an `AtomicBlob` may hold: a Uint8Array, or any falsy value. */
  predicate Holds(v: Value) {
    v.Blob? || !Truthy(v)
  }

  /** The payload `encode` copies out of a held value other than `undefined`. A
      Uint8Array gives its bytes. The other falsy values have no `byteLength`
      (`pad` of it is 0, `setInt32` writes 0) and copy nothing. Reading
      `byteLength` of `null` throws. */
  function Payload(v: Value): (r: Result<seq<Byte>>)
    requires Holds(v) && !v.Undefined?
    ensures r.Err? <==> v.Null?
    ensures v.Blob? ==> r == Ok(v.bytes)
  {
    match v
    case Blob(b) => Ok(b)
    case Null => Err(TypeError)
    case _ => Ok([])
  }

  /** Every byte of `s` from index `k` on is zero. */
  predicate ZerosFrom(s: seq<Byte>, k: nat) {
    forall i :: k <= i < |s| ==> s[i] == 0
  }

  /** The buffer `encode` fills for a payload of `n` bytes: `pad(n) + 4` bytes,
      `n` as a big-endian int32, the payload from byte 4, zeros after it. When
      `pad(n)` wraps below `n` the buffer is too short (or of negative length)
      and a RangeError is thrown. */
  /** The `n` zero bytes that pad a payload. */
  function Zeros(n: nat): (r: seq<Byte>)
    ensures |r| == n && ZerosFrom(r, 0)
  {
    seq(n, _ => 0)
  }

  function Encoded(bytes: seq<Byte>): (r: Result<seq<Byte>>)
    ensures r.Ok? <==> Pad(|bytes|) >= |bytes|
    ensures r.Ok? ==> |r.value| == 4 + Pad(|bytes|) && |r.value| % 4 == 0
  {
    var p := Pad(|bytes|);
    if p < |bytes| then Err(RangeError)
    else
      AlignedSum(4, p);
      Ok(ToBigEndian(|bytes|, 4) + (bytes + Zeros(p - |bytes|)))
  }

  /** Where the three parts of `head + (body + tail)` sit, for a head of `k` bytes. */
  lemma Layout(head: seq<Byte>, body: seq<Byte>, tail: seq<Byte>, k: nat)
    requires |head| == k
    ensures (head + (body + tail))[..k] == head
    ensures (head + (body + tail))[k..k + |body|] == body
    ensures ZerosFrom(tail, 0) ==> ZerosFrom(head + (body + tail), k + |body|)
  {
    var out := head + (body + tail);
    assert out[k..] == body + tail;
    assert (body + tail)[..|body|] == body;
    if ZerosFrom(tail, 0) {
      forall i | k + |body| <= i < |out|
        ensures out[i] == 0
      {
        assert out[i] == tail[i - k - |body|];
      }
    }
  }

  /** The three parts of an encoded blob. */
  lemma EncodedIs(bytes: seq<Byte>)
    requires Encoded(bytes).Ok?
    ensures Encoded(bytes).value == ToBigEndian(|bytes|, 4) + (bytes + Zeros(Pad(|bytes|) - |bytes|))
  {
  }

  /** The size word holds the length. */
  lemma EncodedSize(bytes: seq<Byte>)
    requires Encoded(bytes).Ok?
    ensures Encoded(bytes).value[..4] == ToBigEndian(|bytes|, 4)
  {
    EncodedIs(bytes);
    Layout(ToBigEndian(|bytes|, 4), bytes, Zeros(Pad(|bytes|) - |bytes|), 4);
  }

  /** The payload follows the size word. */
  lemma EncodedPayload(bytes: seq<Byte>)
    requires Encoded(bytes).Ok?
    ensures Encoded(bytes).value[4..4 + |bytes|] == bytes
  {
    EncodedIs(bytes);
    Layout(ToBigEndian(|bytes|, 4), bytes, Zeros(Pad(|bytes|) - |bytes|), 4);
  }

  /** A buffer with the size word, the payload and zeros after it is the
      encoding. */
  lemma EncodedOfParts(out: seq<Byte>, bytes: seq<Byte>)
    requires Encoded(bytes).Ok? && |out| == 4 + Pad(|bytes|)
    requires out[..4] == ToBigEndian(|bytes|, 4) && out[4..4 + |bytes|] == bytes
    requires ZerosFrom(out, 4 + |bytes|)
    ensures out == Encoded(bytes).value
  {
    EncodedIs(bytes);
    ZerosAfter(out, ToBigEndian(|bytes|, 4), bytes, Zeros(Pad(|bytes|) - |bytes|));
  }

  /** A head, a body, then only zeros. */
  lemma ZerosAfter(out: seq<Byte>, head: seq<Byte>, body: seq<Byte>, tail: seq<Byte>)
    requires |out| == |head| + |body| + |tail|
    requires out[..|head|] == head && out[|head|..|head| + |body|] == body
    requires ZerosFrom(out, |head| + |body|) && ZerosFrom(tail, 0)
    ensures out == head + (body + tail)
  {
    var k := |head| + |body|;
    assert out[k..] == tail by {
      forall i | 0 <= i < |tail|
        ensures out[k..][i] == tail[i]
      {
        assert out[k + i] == 0;
      }
    }
    assert out == out[..|head|] + (out[|head|..k] + out[k..]);
  }

  /** Zeros pad the payload. */
  lemma EncodedPadding(bytes: seq<Byte>)
    requires Encoded(bytes).Ok?
    ensures ZerosFrom(Encoded(bytes).value, 4 + |bytes|)
  {
    EncodedIs(bytes);
    Layout(ToBigEndian(|bytes|, 4), bytes, Zeros(Pad(|bytes|) - |bytes|), 4);
  }

  function Packed(v: Value, g: Guard): (r: Result<seq<Byte>>)
    requires Holds(v)
    ensures !Admits(g, v) ==> r == Err(EmptyBlob)
    ensures Admits(g, v) && v.Blob? ==> r == Encoded(v.bytes)
  {
    if !Admits(g, v) then Err(EmptyBlob)
    else
      var bytes :- Payload(v);
      Encoded(bytes)
  }

  /** What `decode(view, offset)` reads: the signed size `n` at `offset`, then the
      `n` bytes after it as a view on the same buffer (a negative `n` or one
      running past the buffer is a RangeError), and `pad(offset + 4 + n)`. */
  function Decoded(view: seq<Byte>, offset: int): (r: Result<(seq<Byte>, int)>)
    ensures r.Ok? ==> 0 <= offset && offset + 4 + |r.value.0| <= |view|
    ensures r.Ok? ==> r.value.0 == view[offset + 4..offset + 4 + |r.value.0|]
    ensures r.Ok? ==> r.value.1 == Pad(offset + 4 + |r.value.0|)
    ensures !(0 <= offset && offset + 4 <= |view|) ==> r == Err(RangeError)
  {
    var w :- WordRead(view, offset, 4, true);
    var n := w.0;
    if n < 0 || offset + 4 + n > |view| then Err(RangeError)
    else Ok((view[offset + 4..offset + 4 + n], Pad(offset + 4 + n)))
  }

  class AtomicBlob {
    var value: Value
    var offset: int

    ghost predicate Valid()
      reads this
    {
      Holds(value)
    }

    constructor (v: Value)
      requires Holds(v)
      ensures value == v && offset == 0 && Valid()
    {
      value := v;
      offset := 0;
    }

    /** `new AtomicBlob(value)`: a truthy value that is not a Uint8Array throws. */
    static method Create(v: Value) returns (r: Result<AtomicBlob>)
      ensures r.Err? <==> !Holds(v)
      ensures r.Err? ==> r.error == ConstructorError
      ensures r.Ok? ==> fresh(r.value) && r.value.value == v && r.value.offset == 0 && r.value.Valid()
    {
      if Truthy(v) && !v.Blob? {
        return Err(ConstructorError);
      }
      var a := new AtomicBlob(v);
      r := Ok(a);
    }

    /** A fresh buffer of `pad(n) + 4` bytes, the size written with `setInt32` at 0,
        the payload copied in with `set` at 4. */
    method Pack(g: Guard) returns (r: Result<seq<Byte>>)
      requires Valid()
      ensures r == Packed(value, g)
    {
      if !Admits(g, value) {
        return Err(EmptyBlob);
      }
      var payload :- Payload(value);
      var byteLength := Pad(|payload|);
      if byteLength < |payload| {
        return Err(RangeError);
      }
      var data := new Byte[byteLength + 4](_ => 0);
      SetWord(data, 0, |payload|, 4);
      assert data[..4] == ToBigEndian(|payload|, 4);
      assert ZerosFrom(data[..], 4);
      forall i | 0 <= i < |payload| {
        data[4 + i] := payload[i];
      }
      assert data[..4] == ToBigEndian(|payload|, 4);
      assert data[4..4 + |payload|] == payload;
      EncodedOfParts(data[..], payload);
      r := Ok(data[..]);
    }

    /** Reads the size and payload at `initialOffset`, keeps the payload and moves
        `offset` past the padding. */
    method Unpack(view: seq<Byte>, initialOffset: int) returns (r: Result<int>)
      modifies this
      ensures match Decoded(view, initialOffset)
        case Ok(d) => r == Ok(d.1) && value == Blob(d.0) && offset == d.1 && Valid()
        case Err(e) => r == Err(e) && value == old(value) && offset == old(offset)
    {
      var d := Decoded(view, initialOffset);
      if d.Err? {
        return Err(d.error);
      }
      value := Blob(d.value.0);
      offset := d.value.1;
      r := Ok(offset);
    }
  }

  /** The size word of a decoded blob holds its length. */
  lemma DecodedSize(view: seq<Byte>, offset: int)
    requires Decoded(view, offset).Ok?
    ensures view[offset..offset + 4] == ToBigEndian(|Decoded(view, offset).value.0|, 4)
  {
    WordReadBytes(view, offset, 4, true);
  }

  lemma DecodedWhenSized(view: seq<Byte>, offset: int, n: int)
    requires WordRead(view, offset, 4, true) == Ok((n, offset + 4))
    requires 0 <= n && offset + 4 + n <= |view|
    ensures Decoded(view, offset) == Ok((view[offset + 4..offset + 4 + n], Pad(offset + 4 + n)))
  {
  }

  /** The encoding of a payload is read back from any 4-aligned offset of a view
      holding it, and the offset lands just past its padding. */
  lemma RoundTripAt(view: seq<Byte>, offset: int, b: seq<Byte>)
    requires 0 <= offset && offset % 4 == 0
    requires |b| <= MaxPadInput
    requires offset + 4 + Pad(|b|) <= |view| <= MaxPadInput
    requires view[offset..offset + 4 + Pad(|b|)] == Encoded(b).value
    ensures Decoded(view, offset) == Ok((b, offset + 4 + Pad(|b|)))
  {
    var n := |b|;
    SizeAt(view, offset, b);
    PayloadAt(view, offset, b);
    DecodedWhenSized(view, offset, n);
    PadPastWord(offset, n);
  }

  lemma SizeAt(view: seq<Byte>, offset: int, b: seq<Byte>)
    requires 0 <= offset && |b| <= MaxPadInput
    requires offset + 4 + Pad(|b|) <= |view|
    requires view[offset..offset + 4 + Pad(|b|)] == Encoded(b).value
    ensures WordRead(view, offset, 4, true) == Ok((|b|, offset + 4))
  {
    var w := view[offset..offset + 4 + Pad(|b|)];
    EncodedSize(b);
    assert view[offset..offset + 4] == w[..4];
    Pow256Values();
    WordRoundTrip(view, offset, |b|, 4, true);
  }

  lemma PayloadAt(view: seq<Byte>, offset: int, b: seq<Byte>)
    requires 0 <= offset && |b| <= MaxPadInput
    requires offset + 4 + Pad(|b|) <= |view|
    requires view[offset..offset + 4 + Pad(|b|)] == Encoded(b).value
    ensures view[offset + 4..offset + 4 + |b|] == b
  {
    var w := view[offset..offset + 4 + Pad(|b|)];
    EncodedPayload(b);
    forall i | 0 <= i < |b|
      ensures view[offset + 4 + i] == b[i]
    {
      assert view[offset + 4 + i] == w[4 + i];
      assert w[4 + i] == w[4..4 + |b|][i];
    }
  }

  /** `decode` gets `b` back from `bytes` wherever they sit at a 4-aligned offset
      of `view`, and stops just past them. */
  ghost predicate DecodesAt(view: seq<Byte>, b: seq<Byte>, bytes: seq<Byte>) {
    forall o {:trigger HoldsAt(view, o, bytes)} :: o % 4 == 0 && HoldsAt(view, o, bytes) ==> Decoded(view, o) == Ok((b, o + |bytes|))
  }

  lemma DecodesEverywhere(view: seq<Byte>, b: seq<Byte>)
    requires |b| <= MaxPadInput && |view| <= MaxPadInput
    ensures Encoded(b).Ok? && |Encoded(b).value| % 4 == 0
    ensures DecodesAt(view, b, Encoded(b).value)
  {
    forall o | o % 4 == 0 && HoldsAt(view, o, Encoded(b).value)
      ensures Decoded(view, o) == Ok((b, o + |Encoded(b).value|))
    {
      RoundTripHeld(view, o, b);
    }
  }

  lemma RoundTripHeld(view: seq<Byte>, o: int, b: seq<Byte>)
    requires |b| <= MaxPadInput && |view| <= MaxPadInput
    requires Encoded(b).Ok? && o % 4 == 0 && HoldsAt(view, o, Encoded(b).value)
    ensures Decoded(view, o) == Ok((b, o + |Encoded(b).value|))
  {
    RoundTripAt(view, o, b);
  }

  lemma RoundTrip(b: seq<Byte>)
    requires |b| <= MaxPadInput - 4
    ensures Encoded(b).Ok?
    ensures Decoded(Encoded(b).value, 0) == Ok((b, 4 + Pad(|b|)))
  {
    var enc := Encoded(b).value;
    assert enc[0..|enc|] == enc;
    RoundTripAt(enc, 0, b);
  }

  lemma PackExample(g: Guard)
    ensures Packed(Blob([54, 42, 11, 33, 66]), g) == Ok([0, 0, 0, 5, 54, 42, 11, 33, 66, 0, 0, 0])
  {
    assert Pad(5) == 8;
    assert ToBigEndian(5, 4) == [0, 0, 0, 5];
    var b: seq<Byte> := [54, 42, 11, 33, 66];
    var zeros := Zeros(3);
    assert zeros == [0, 0, 0];
    assert Encoded(b) == Ok(ToBigEndian(5, 4) + (b + zeros));
    assert Admits(g, Blob(b)) && Payload(Blob(b)) == Ok(b);
    assert ToBigEndian(5, 4) + (b + zeros) == [0, 0, 0, 5, 54, 42, 11, 33, 66, 0, 0, 0];
  }

  /** Under the undefined guard `null` fails on its `byteLength` and the other falsy
      values encode as an empty blob. */
  lemma FalsyValues()
    ensures Packed(Null, RejectUndefined) == Err(TypeError)
    ensures Packed(Int(0), RejectUndefined) == Ok([0, 0, 0, 0])
    ensures Packed(Int(0), RejectFalsy) == Err(EmptyBlob)
  {
    assert ToBigEndian(0, 4) == [0, 0, 0, 0];
    var empty: seq<Byte> := [];
    assert Zeros(0) == empty;
    assert Encoded(empty) == Ok([0, 0, 0, 0] + (empty + empty));
    assert [0, 0, 0, 0] + (empty + empty) == [0, 0, 0, 0];
    assert Payload(Int(0)) == Ok(empty);
  }
}
