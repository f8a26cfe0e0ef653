/** The message reader of the first implementation (src/osc.js:252-393):
    `OSCString`, `OSCInt`, `OSCFloat`, `OSCBlob` and `OSCMessage.decode`.
    The received `ArrayBuffer` is a sequence of bytes; the 32-bit float
    conversion is a parameter `fromFloat32`. */
module LegacyDecode {
  import opened Wrappers
  import opened Utils
  import opened Bytes
  import StringAtomic
  import Messages
  import LegacyTree

  const UnterminatedError: string := "OSCMessage Error: malformed not ending OSC String"
  const TypeStringError: string := "OSCMessage Error: malformed or missing OSC TypeString"
  const NonstandardError: string := "OSCMessage Error: found nonstandard argument type"

  // ---------------------------------------------------------------------------
  // OSCString

  /** `Math.ceil(n / 4) * 4`: the next multiple of four, without the 32-bit
      wrap of the later `pad`. */
  function Ceil4(n: nat): (r: nat)
    ensures r % 4 == 0 && n <= r < n + 4
  {
    (n + 3) / 4 * 4
  }

  /** Below the wrap, `Math.ceil` and `pad` agree. */
  lemma Ceil4IsPad(n: nat)
    requires n <= MaxPadInput
    ensures Ceil4(n) == Pad(n)
  {
    PadLeast(n, Ceil4(n));
    assert Pad(n) % 4 == 0 && n <= Pad(n);
  }

  /** The character `String.fromCharCode` makes of an `Int8Array` cell: a byte
      from 128 up is read as a negative number, whose code unit lies 0xFF00
      above the byte. The low byte of the character is the byte itself. */
  function CharOf(b: Byte): (c: char)
    ensures StringAtomic.Code(c) == b
    ensures c as int < 128 <==> b < 128
  {
    if b < 128 then b as char else (b + 0xFF00) as char
  }

  /** `String.fromCharCode.apply(null, data.subarray(...))`. */
  function Text(bytes: seq<Byte>): (r: string)
    ensures |r| == |bytes|
    ensures forall i :: 0 <= i < |r| ==> StringAtomic.Code(r[i]) == bytes[i]
  {
    seq(|bytes|, i requires 0 <= i < |bytes| => CharOf(bytes[i]))
  }

  /** What `OSCString.decode(data, offset)` stores as value and offset: the
      characters up to the first zero byte, and the word boundary after that
      zero. From an offset inside the data a missing zero throws; from an
      offset past the end the loop does not run, the slice is empty and
      nothing throws. */
  function StringRead(data: seq<Byte>, offset: nat): (r: Result<(string, nat)>)
    ensures r.Err? ==> r == Err(UnterminatedError) && offset <= |data|
    ensures r.Ok? ==> r.value.1 % 4 == 0 && offset + |r.value.0| < r.value.1
    ensures offset == |data| ==> r.Err?
    ensures offset > |data| ==> r.Ok? && r.value.0 == ""
  {
    if offset > |data| then Ok(("", Ceil4(offset + 1)))
    else
      var end := StringAtomic.NulFrom(data, offset);
      if end == |data| then Err(UnterminatedError)
      else Ok((Text(data[offset..end]), Ceil4(end + 1)))
  }

  /** Inside the data, the string is the text up to the first zero at or after
      `offset`; it is read with no zero in it. */
  lemma StringStopsAtFirstZero(data: seq<Byte>, offset: nat, k: nat)
    requires offset <= k < |data| && data[k] == 0
    requires forall j :: offset <= j < k ==> data[j] != 0
    ensures StringRead(data, offset) == Ok((Text(data[offset..k]), Ceil4(k + 1)))
    ensures forall i :: 0 <= i < k - offset ==> StringRead(data, offset).value.0[i] != 0 as char
  {
    StringAtomic.NulFromAt(data, offset, k);
    var s := Text(data[offset..k]);
    forall i | 0 <= i < k - offset
      ensures s[i] != 0 as char
    {
      assert StringAtomic.Code(s[i]) == data[offset + i];
    }
  }

  /** Inside the data, `decode` throws exactly when no zero byte follows. */
  lemma {:induction false} StringThrowsWithoutZero(data: seq<Byte>, offset: nat)
    requires offset <= |data|
    ensures StringRead(data, offset).Err? <==> forall j :: offset <= j < |data| ==> data[j] != 0
  {
    StringAtomic.NulFromFirst(data, offset);
  }

  /** ASCII text without NUL: the characters the two string codecs agree on. */
  predicate Ascii(s: string) {
    forall i :: 0 <= i < |s| ==> 0 < s[i] as int < 128
  }

  /** ASCII characters are read back from their codes. */
  lemma TextOfCodes(bytes: seq<Byte>, s: string)
    requires Ascii(s) && |bytes| == |s|
    requires forall i :: 0 <= i < |s| ==> bytes[i] == StringAtomic.Code(s[i])
    ensures Text(bytes) == s
  {
    var t := Text(bytes);
    forall i | 0 <= i < |s|
      ensures t[i] == s[i]
    {
      assert StringAtomic.Code(t[i]) == bytes[i];
    }
  }

  /** The bytes the `AtomicString` encoder writes for ASCII text are read back
      by `OSCString.decode` from any offset of a view holding them, and the
      offset lands just past their padding. */
  lemma StringReadsEncoded(view: seq<Byte>, offset: nat, s: string)
    requires Ascii(s) && StringAtomic.Encoded(s).Ok?
    requires offset % 4 == 0 && offset + |s| + 1 <= MaxPadInput
    requires offset + |StringAtomic.Encoded(s).value| <= |view|
    requires view[offset..offset + |StringAtomic.Encoded(s).value|] == StringAtomic.Encoded(s).value
    ensures StringRead(view, offset) == Ok((s, offset + |StringAtomic.Encoded(s).value|))
  {
    var enc := StringAtomic.Encoded(s).value;
    var n := |s|;
    StringAtomic.EncodedContents(s);
    assert view[offset + n] == enc[n] == 0;
    forall j | offset <= j < offset + n
      ensures view[j] != 0
    {
      assert view[j] == enc[j - offset] == StringAtomic.Code(s[j - offset]);
    }
    StringAtomic.NulFromAt(view, offset, offset + n);
    forall i | 0 <= i < n
      ensures view[offset..offset + n][i] == StringAtomic.Code(s[i])
    {
      assert view[offset..offset + n][i] == enc[i];
    }
    TextOfCodes(view[offset..offset + n], s);
    Ceil4IsPad(offset + n + 1);
    PadShift(offset, n + 1);
  }

  /** A byte from 128 up comes back as a character outside the byte range:
      0xE9 is read as U+FFE9, not U+00E9. */
  lemma HighByteWidened()
    ensures StringRead([0xE9, 0], 0) == Ok(([0xFFE9 as char], 4))
  {
    var data: seq<Byte> := [0xE9, 0];
    StringAtomic.NulFromAt(data, 0, 1);
    assert data[0..1] == [0xE9];
    assert Text(data[0..1]) == [0xFFE9 as char];
  }

  class OSCString {
    var value: string
    var offset: int

    constructor ()
      ensures value == "" && offset == 0
    {
      value := "";
      offset := 0;
    }

    /** `decode(sData, sOffset)`: scans to the first zero, then stores the
        text and the offset after it and returns that offset. */
    method Decode(data: seq<Byte>, sOffset: nat) returns (r: Result<nat>)
      modifies this
      ensures r.Err? <==> StringRead(data, sOffset).Err?
      ensures r.Err? ==> r == Err(UnterminatedError) && value == old(value) && offset == old(offset)
      ensures r.Ok? ==> (value, r.value) == StringRead(data, sOffset).value && offset == r.value
    {
      var end := sOffset;
      while end < |data| && data[end] != 0
        invariant sOffset <= end && (end <= |data| || end == sOffset)
        invariant forall j :: sOffset <= j < end ==> data[j] != 0
        decreases |data| - end
      {
        end := end + 1;
      }
      if end == |data| {
        return Err(UnterminatedError);
      }
      if end < |data| {
        StringAtomic.NulFromAt(data, sOffset, end);
      }
      value := if end <= |data| then Text(data[sOffset..end]) else "";
      offset := Ceil4(end + 1);
      return Ok(offset);
    }
  }

  // ---------------------------------------------------------------------------
  // OSCInt, OSCFloat, OSCBlob

  /** What `OSCInt.decode(data, offset)` stores: `new DataView(data, offset, 4)`
      throws a RangeError unless the four bytes lie inside the data, and
      `getInt32(0)` reads them big-endian as a two's complement number. */
  function IntRead(data: seq<Byte>, offset: nat): (r: Result<(int, nat)>)
    ensures r.Ok? <==> offset + 4 <= |data|
    ensures r.Err? ==> r.error == RangeError
    ensures r.Ok? ==> -TwoTo31 <= r.value.0 < TwoTo31 && r.value.1 == offset + 4
  {
    var x :- ReadSigned(data, offset, 4);
    Ok((x, offset + 4))
  }

  /** The number read is the one whose four big-endian bytes sit at the offset. */
  lemma IntReadBytes(data: seq<Byte>, offset: nat)
    requires offset + 4 <= |data|
    ensures ToBigEndian(IntRead(data, offset).value.0, 4) == data[offset..offset + 4]
  {
    ReadSignedBytes(data, offset, 4);
  }

  /** The four bytes the `AtomicInt32` encoder writes for an int32 are read
      back as that number. */
  lemma IntReadsEncoded(view: seq<Byte>, offset: nat, x: int)
    requires -TwoTo31 <= x < TwoTo31
    requires offset + 4 <= |view| && view[offset..offset + 4] == ToBigEndian(x, 4)
    ensures IntRead(view, offset) == Ok((x, offset + 4))
  {
    Pow256Values();
    SignedRoundTrip(x, 4);
  }

  /** What `OSCFloat.decode`, and the `OSCBlob` stub that copies it, store:
      the four bytes at the offset, converted by `getFloat32`. */
  function FloatRead(data: seq<Byte>, offset: nat, fromFloat32: Messages.Word -> Num): (r: Result<(Num, nat)>)
    ensures r.Ok? <==> offset + 4 <= |data|
    ensures r.Err? ==> r.error == RangeError
    ensures r.Ok? ==> r.value == (fromFloat32(data[offset..offset + 4]), offset + 4)
  {
    if offset + 4 <= |data| then Ok((fromFloat32(data[offset..offset + 4]), offset + 4))
    else Err(RangeError)
  }

  class OSCInt {
    var value: int
    var offset: int

    constructor ()
      ensures value == 0 && offset == 0
    {
      value := 0;
      offset := 0;
    }

    method Decode(data: seq<Byte>, sOffset: nat) returns (r: Result<nat>)
      modifies this
      ensures r.Err? <==> IntRead(data, sOffset).Err?
      ensures r.Err? ==> r == Err(RangeError) && value == old(value) && offset == old(offset)
      ensures r.Ok? ==> (value, r.value) == IntRead(data, sOffset).value && offset == r.value
    {
      var x := ReadSigned(data, sOffset, 4);
      if x.Err? {
        return Err(x.error);
      }
      value := x.value;
      offset := sOffset + 4;
      return Ok(offset);
    }
  }

  /** `OSCFloat`, and `OSCBlob`, whose `decode` is the same. */
  class OSCFloat {
    var value: Num
    var offset: int

    constructor ()
      ensures value == Finite(0.0) && offset == 0
    {
      value := Finite(0.0);
      offset := 0;
    }

    method Decode(data: seq<Byte>, sOffset: nat, fromFloat32: Messages.Word -> Num) returns (r: Result<nat>)
      modifies this
      ensures r.Err? <==> FloatRead(data, sOffset, fromFloat32).Err?
      ensures r.Err? ==> r == Err(RangeError) && value == old(value) && offset == old(offset)
      ensures r.Ok? ==> (value, r.value) == FloatRead(data, sOffset, fromFloat32).value && offset == r.value
    {
      if sOffset + 4 > |data| {
        return Err(RangeError);
      }
      value := fromFloat32(data[sOffset..sOffset + 4]);
      offset := sOffset + 4;
      return Ok(offset);
    }
  }

  // ---------------------------------------------------------------------------
  // OSCMessage

  /** The argument a tag reads at `offset`, and the offset after it. */
  function ArgumentRead(data: seq<Byte>, tag: char, offset: nat, fromFloat32: Messages.Word -> Num): (r: Result<(Value, nat)>)
    ensures tag !in "ifsb" ==> r == Err(NonstandardError)
    ensures r.Ok? ==> tag in "ifsb" && offset < r.value.1
    ensures r.Ok? && tag == 'i' ==> IsInt(r.value.0)
    ensures r.Ok? && tag == 's' ==> r.value.0.Str?
    ensures r.Ok? && (tag == 'f' || tag == 'b') ==> r.value.0.Number?
  {
    match tag
    case 'i' =>
      var d :- IntRead(data, offset);
      IntOfInt(d.0);
      Ok((Int(d.0), d.1))
    case 'f' =>
      var d :- FloatRead(data, offset, fromFloat32);
      Ok((Number(d.0), d.1))
    case 's' =>
      var d :- StringRead(data, offset);
      Ok((Str(d.0), d.1))
    case 'b' =>
      var d :- FloatRead(data, offset, fromFloat32);
      Ok((Number(d.0), d.1))
    case _ => Err(NonstandardError)
  }

  /** The kind of value a tag's reader stores. */
  predicate Fits(tag: char, v: Value) {
    && tag in "ifsb"
    && (tag == 'i' ==> IsInt(v))
    && (tag == 's' ==> v.Str?)
    && (tag != 'i' && tag != 's' ==> v.Number?)
  }

  /** The arguments of the first `k` tags, read in order from `start`, and the
      offset after them; the first failure ends the reading. */
  function ArgumentsRead(data: seq<Byte>, tags: string, start: nat, k: nat, fromFloat32: Messages.Word -> Num): (r: Result<(seq<Value>, nat)>)
    requires k <= |tags|
    decreases k
  {
    if k == 0 then Ok(([], start))
    else
      var before :- ArgumentsRead(data, tags, start, k - 1, fromFloat32);
      var d :- ArgumentRead(data, tags[k - 1], before.1, fromFloat32);
      Ok((before.0 + [d.0], d.1))
  }

  /** A successful reading has one argument per tag, each of its tag's kind,
      so every tag is one of 'i', 'f', 's' and 'b', and it moves forward. */
  lemma {:induction false} ArgumentsFit(data: seq<Byte>, tags: string, start: nat, k: nat, fromFloat32: Messages.Word -> Num)
    requires k <= |tags|
    requires ArgumentsRead(data, tags, start, k, fromFloat32).Ok?
    ensures var args := ArgumentsRead(data, tags, start, k, fromFloat32).value.0;
      |args| == k && forall i :: 0 <= i < k ==> Fits(tags[i], args[i])
    ensures start + k <= ArgumentsRead(data, tags, start, k, fromFloat32).value.1
    decreases k
  {
    if k > 0 {
      ArgumentsFit(data, tags, start, k - 1, fromFloat32);
      var before := ArgumentsRead(data, tags, start, k - 1, fromFloat32).value;
      var d := ArgumentRead(data, tags[k - 1], before.1, fromFloat32).value;
      assert ArgumentsRead(data, tags, start, k, fromFloat32).value.0 == before.0 + [d.0];
    }
  }

  /** The tags after the first `k` do not change the reading of the first `k`. */
  lemma {:induction false} ArgumentsReadPrefix(data: seq<Byte>, tags: string, more: string, start: nat, k: nat,
                                               fromFloat32: Messages.Word -> Num)
    requires k <= |tags|
    ensures ArgumentsRead(data, tags + more, start, k, fromFloat32) == ArgumentsRead(data, tags, start, k, fromFloat32)
    decreases k
  {
    if k > 0 {
      ArgumentsReadPrefix(data, tags, more, start, k - 1, fromFloat32);
      assert (tags + more)[k - 1] == tags[k - 1];
    }
  }

  /** The reading of one more tag, from the reading of the tags before it. */
  lemma ArgumentsReadNext(data: seq<Byte>, tags: string, start: nat, k: nat, fromFloat32: Messages.Word -> Num,
                          args: seq<Value>, offset: nat, next: Result<(Value, nat)>)
    requires k < |tags| && ArgumentsRead(data, tags, start, k, fromFloat32) == Ok((args, offset))
    requires next == ArgumentRead(data, tags[k], offset, fromFloat32)
    ensures next.Err? ==> ArgumentsRead(data, tags, start, k + 1, fromFloat32) == Err(next.error)
    ensures next.Ok? ==> ArgumentsRead(data, tags, start, k + 1, fromFloat32) == Ok((args + [next.value.0], next.value.1))
  {
  }

  /** Once the reading has failed, the remaining tags keep that failure. */
  lemma {:induction false} ArgumentsFailureStays(data: seq<Byte>, tags: string, start: nat, k: nat, m: nat,
                                                 fromFloat32: Messages.Word -> Num)
    requires k <= m <= |tags|
    requires ArgumentsRead(data, tags, start, k, fromFloat32).Err?
    ensures ArgumentsRead(data, tags, start, m, fromFloat32) == ArgumentsRead(data, tags, start, k, fromFloat32)
    decreases m
  {
    if k < m {
      ArgumentsFailureStays(data, tags, start, k, m - 1, fromFloat32);
    }
  }

  /** A tag other than 'i', 'f', 's' and 'b' makes the reading throw, once the
      arguments before it are read. */
  lemma NonstandardTagThrows(data: seq<Byte>, tags: string, start: nat, k: nat, fromFloat32: Messages.Word -> Num)
    requires k < |tags| && tags[k] !in "ifsb"
    requires ArgumentsRead(data, tags, start, k, fromFloat32).Ok?
    ensures ArgumentsRead(data, tags, start, k + 1, fromFloat32) == Err(NonstandardError)
  {
  }

  /** What a successful `decode` stores, as `toJSON` returns it: the address
      split into segments, the address string, the type tags without their
      ',' and the arguments. */
  datatype Json = Json(address: seq<string>, addressString: string, types: string, arguments: seq<Value>)

  /** `OSCMessage.decode(mData)`: the address string from byte 0, the type
      string after it, which must start with ',', then one argument per tag.
      `types.length === 0` reads a property a string object lacks, so only the
      ',' test decides. */
  function MessageRead(data: seq<Byte>, fromFloat32: Messages.Word -> Num): (r: Result<Json>)
    ensures r.Ok? ==> r.value.address == LegacyTree.Segments(r.value.addressString)
    ensures r.Ok? ==> |r.value.arguments| == |r.value.types|
    ensures r.Ok? ==> forall i :: 0 <= i < |r.value.types| ==> Fits(r.value.types[i], r.value.arguments[i])
    ensures r.Err? ==> r.error in {UnterminatedError, TypeStringError, NonstandardError, RangeError}
  {
    var address :- StringRead(data, 0);
    var types :- StringRead(data, address.1);
    if |types.0| == 0 || types.0[0] != ',' then Err(TypeStringError)
    else
      var tags := types.0[1..];
      ArgumentsErrors(data, tags, types.1, |tags|, fromFloat32);
      var args :- ArgumentsRead(data, tags, types.1, |tags|, fromFloat32);
      ArgumentsFit(data, tags, types.1, |tags|, fromFloat32);
      Ok(Json(LegacyTree.Segments(address.0), address.0, tags, args.0))
  }

  /** The errors an argument reading can end with. */
  lemma {:induction false} ArgumentsErrors(data: seq<Byte>, tags: string, start: nat, k: nat, fromFloat32: Messages.Word -> Num)
    requires k <= |tags|
    ensures ArgumentsRead(data, tags, start, k, fromFloat32).Err? ==>
      ArgumentsRead(data, tags, start, k, fromFloat32).error in {UnterminatedError, NonstandardError, RangeError}
    decreases k
  {
    if k > 0 {
      ArgumentsErrors(data, tags, start, k - 1, fromFloat32);
    }
  }

  /** A type string that does not start with ',' is refused, whatever follows. */
  lemma TypeStringNeedsComma(data: seq<Byte>, fromFloat32: Messages.Word -> Num)
    requires StringRead(data, 0).Ok?
    requires var t := StringRead(data, StringRead(data, 0).value.1); t.Ok? && (t.value.0 == "" || t.value.0[0] != ',')
    ensures MessageRead(data, fromFloat32) == Err(TypeStringError)
  {
  }

  /** One step of the argument loop: the reader the tag names decodes at the
      running offset; any other tag throws. */
  method ReadArgument(data: seq<Byte>, tag: char, offset: nat, fromFloat32: Messages.Word -> Num)
    returns (r: Result<(Value, nat)>)
    ensures r == ArgumentRead(data, tag, offset, fromFloat32)
  {
    if tag == 'i' {
      var next := new OSCInt();
      var o := next.Decode(data, offset);
      if o.Err? {
        return Err(o.error);
      }
      IntOfInt(next.value);
      return Ok((Int(next.value), o.value));
    } else if tag == 'f' || tag == 'b' {
      var next := new OSCFloat();
      var o := next.Decode(data, offset, fromFloat32);
      if o.Err? {
        return Err(o.error);
      }
      return Ok((Number(next.value), o.value));
    } else if tag == 's' {
      var next := new OSCString();
      var o := next.Decode(data, offset);
      if o.Err? {
        return Err(o.error);
      }
      return Ok((Str(next.value), o.value));
    }
    return Err(NonstandardError);
  }

  /** The argument loop of `decode`: one reading per tag, pushed in order. */
  method ReadArguments(data: seq<Byte>, tags: string, start: nat, fromFloat32: Messages.Word -> Num)
    returns (r: Result<(seq<Value>, nat)>)
    ensures r == ArgumentsRead(data, tags, start, |tags|, fromFloat32)
  {
    var args: seq<Value> := [];
    var offset := start;
    for i := 0 to |tags|
      invariant ArgumentsRead(data, tags, start, i, fromFloat32) == Ok((args, offset))
    {
      var next := ReadArgument(data, tags[i], offset, fromFloat32);
      ArgumentsReadNext(data, tags, start, i, fromFloat32, args, offset, next);
      if next.Err? {
        ArgumentsFailureStays(data, tags, start, i + 1, |tags|, fromFloat32);
        return Err(next.error);
      }
      args, offset := args + [next.value.0], next.value.1;
    }
    return Ok((args, offset));
  }

  class OSCMessage {
    var address: seq<string>
    var addressString: string
    var typesString: string
    var args: seq<Value>

    /** `toJSON()`. */
    function ToJson(): Json
      reads this
    {
      Json(address, addressString, typesString, args)
    }

    constructor ()
      ensures ToJson() == Json([], "", "", [])
    {
      address, addressString, typesString, args := [], "", "", [];
    }

    /** `decode(mData)`: on success the four fields hold what was read; a
        throw leaves them as they were. */
    method Decode(mData: seq<Byte>, fromFloat32: Messages.Word -> Num) returns (r: Result<bool>)
      modifies this
      ensures r.Ok? <==> MessageRead(mData, fromFloat32).Ok?
      ensures r.Ok? ==> r.value && ToJson() == MessageRead(mData, fromFloat32).value
      ensures r.Err? ==> r.error == MessageRead(mData, fromFloat32).error && ToJson() == old(ToJson())
    {
      var a := new OSCString();
      var x := a.Decode(mData, 0);
      if x.Err? {
        return Err(x.error);
      }
      var types := new OSCString();
      var y := types.Decode(mData, x.value);
      if y.Err? {
        return Err(y.error);
      }
      if |types.value| == 0 || types.value[0] != ',' {
        return Err(TypeStringError);
      }
      var read := ReadArguments(mData, types.value[1..], y.value, fromFloat32);
      if read.Err? {
        return Err(read.error);
      }
      address := LegacyTree.Segments(a.value);
      addressString := a.value;
      typesString := types.value[1..];
      args := read.value.0;
      return Ok(true);
    }
  }

  // ---------------------------------------------------------------------------
  // Examples and agreement with the encoder

  /** A message whose type string is "," alone has no arguments. */
  lemma NoArgumentsRead(data: seq<Byte>, address: string, o1: nat, o2: nat, fromFloat32: Messages.Word -> Num)
    requires StringRead(data, 0) == Ok((address, o1)) && StringRead(data, o1) == Ok((",", o2))
    ensures MessageRead(data, fromFloat32) == Ok(Json(LegacyTree.Segments(address), address, "", []))
  {
    assert ","[1..] == "";
  }

  /** The header the `Message` encoder writes for an ASCII address and no
      arguments is read back: the address, its segments, and no tags. */
  lemma EmptyMessageRead(view: seq<Byte>, address: string, fromFloat32: Messages.Word -> Num)
    requires Ascii(address) && |address| + 1 <= 0x1000
    requires StringAtomic.Encoded(address).Ok? && StringAtomic.Encoded(",").Ok?
    requires view == StringAtomic.Encoded(address).value + StringAtomic.Encoded(",").value
    ensures MessageRead(view, fromFloat32) == Ok(Json(LegacyTree.Segments(address), address, "", []))
  {
    var a := StringAtomic.Encoded(address).value;
    var c := StringAtomic.Encoded(",").value;
    assert view[0..|a|] == a;
    StringReadsEncoded(view, 0, address);
    assert Ascii(",");
    assert view[|a|..|a| + |c|] == c;
    StringReadsEncoded(view, |a|, ",");
    NoArgumentsRead(view, address, |a|, |a| + |c|, fromFloat32);
  }

  /** `Messages.ExampleView` holds "/test/path", ",i" and 653: `decode` stores
      the segments ["test", "path"], the tags "i" and the number 653. */
  lemma ExampleRead(fromFloat32: Messages.Word -> Num)
    ensures MessageRead(Messages.ExampleView, fromFloat32) == Ok(Json(["test", "path"], "/test/path", "i", [Int(653)]))
  {
    ExampleStrings();
    ExampleArgument(fromFloat32);
    ExampleSegments();
  }

  lemma ExampleStrings()
    ensures StringRead(Messages.ExampleView, 0) == Ok(("/test/path", 12))
    ensures StringRead(Messages.ExampleView, 12) == Ok((",i", 16))
  {
    var view := Messages.ExampleView;
    StringStopsAtFirstZero(view, 0, 10);
    assert Text(view[0..10]) == "/test/path";
    StringStopsAtFirstZero(view, 12, 14);
    assert Text(view[12..14]) == ",i";
  }

  lemma ExampleArgument(fromFloat32: Messages.Word -> Num)
    ensures ArgumentsRead(Messages.ExampleView, ",i"[1..], 16, 1, fromFloat32) == Ok(([Int(653)], 20))
  {
    var view := Messages.ExampleView;
    WordExamples();
    assert view[16..20] == [0, 0, 2, 141] == ToBigEndian(653, 4);
    IntReadsEncoded(view, 16, 653);
    IntOfInt(653);
    assert ",i"[1..][0] == 'i';
    assert ArgumentRead(view, 'i', 16, fromFloat32) == Ok((Int(653), 20));
    assert [] + [Int(653)] == [Int(653)];
  }

  lemma ExampleSegments()
    ensures LegacyTree.Segments("/test/path") == ["test", "path"]
  {
    LegacyTree.SegmentsOfPath(["test", "path"]);
    assert LegacyTree.PathString(["test", "path"]) == "/test/path";
  }
}
