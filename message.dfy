/** `Message` (src/message.js; lib/osc.browser.js:404-505): an address, a
    type-tag string and the arguments. The `OSCMessage` of lib/osc.js is
    LibMessage, which packs and reads through this module. */
module Messages {
  import opened Wrappers
  import opened Utils
  import opened Bytes
  import opened AtomicBase
  import opened Helpers
  import Int32Atomic
  import StringAtomic
  import BlobAtomic

  const AddressTypeError: string := "OSC Message constructor first argument (address) must be a string or array"
  const AddError: string := "OSC Message needs a valid OSC Atomic Data Type"
  const InvalidAddress: string := "OSC Message has an invalid address"
  const UnknownArgument: string := "OSC Message found unknown argument type"
  const MalformedAddress: string := "OSC Message found malformed or missing address string"
  const MalformedTypes: string := "OSC Message found malformed or missing type string"
  const NonStandardType: string := "OSC Message found non-standard argument type"

  /** The four bytes of a float32 argument. IEEE 754 conversion is not part of
      this model: packing and unpacking a float go through the functions passed
      in as `float32` and `fromFloat32`. */
  type Word = s: seq<Byte> | |s| == 4 witness [0, 0, 0, 0]

  /** How `unpack` tests the type string. As written (src/message.js:132 and its
      copies) the test is `length === 0 && value[0] !== ','`, which only refuses
      the empty string; corrected, it is `||`, which also refuses a type string
      that does not start with ','. */
  datatype Reading = AsWritten | Corrected

  predicate TypesRejected(reading: Reading, t: string) {
    match reading
    case AsWritten => |t| == 0
    case Corrected => |t| == 0 || t[0] != ','
  }

  // ---------------------------------------------------------------------------
  // Type tags of the arguments

  /** `args.map(item => typeTag(item)).join('')` with the build's tagger: the
      first argument without a tag throws. */
  function Tags(tagger: Tagger, args: seq<Value>): (r: Result<string>)
    ensures r.Ok? <==> forall i :: 0 <= i < |args| ==> TagOf(tagger, args[i]).Ok?
    ensures r.Ok? ==> |r.value| == |args| && forall i :: 0 <= i < |args| ==> TagOf(tagger, args[i]) == Ok(r.value[i])
    decreases |args|
  {
    if |args| == 0 then Ok("")
    else
      var front :- Tags(tagger, args[..|args| - 1]);
      var last :- TagOf(tagger, args[|args| - 1]);
      assert forall i :: 0 <= i < |args| - 1 ==> args[..|args| - 1][i] == args[i];
      Ok(front + [last])
  }

  // ---------------------------------------------------------------------------
  // Packing

  /** The atomic `pack` picks for one argument, in the order int, float, string,
      Uint8Array, and the bytes it packs to. */
  function ArgumentPacked(v: Value, g: Guard, float32: Num -> Word): (r: Result<seq<Byte>>)
    ensures r.Ok? ==> |r.value| % 4 == 0
    ensures r.Ok? ==> IsNumber(v) || IsString(v) || IsBlob(v)
    ensures !(IsNumber(v) || IsString(v) || IsBlob(v)) ==> r == Err(UnknownArgument)
  {
    if IsInt(v) then Int32Atomic.Packed(v, 0, g)
    else if IsFloat(v) then (if Admits(g, v) then Ok(float32(v.n)) else Err(EmptyValue))
    else if IsString(v) then StringAtomic.Packed(v, g)
    else if IsBlob(v) then BlobAtomic.Packed(v, g)
    else Err(UnknownArgument)
  }

  /** The parts `pack` gives `items`, joined in order; the first part that fails
      decides the error. */
  function Joined(pack: Value -> Result<seq<Byte>>, items: seq<Value>): (r: Result<seq<Byte>>)
    decreases |items|
  {
    if |items| == 0 then Ok([])
    else
      var first :- pack(items[0]);
      var rest :- Joined(pack, items[1..]);
      Ok(first + rest)
  }

  /** Parts of whole words join to whole words. */
  lemma {:induction false} JoinedAligned(pack: Value -> Result<seq<Byte>>, items: seq<Value>)
    requires forall i :: 0 <= i < |items| && pack(items[i]).Ok? ==> |pack(items[i]).value| % 4 == 0
    ensures Joined(pack, items).Ok? ==> |Joined(pack, items).value| % 4 == 0
    decreases |items|
  {
    if |items| > 0 && Joined(pack, items).Ok? {
      var rest := items[1..];
      assert forall i :: 0 <= i < |rest| ==> rest[i] == items[i + 1];
      JoinedAligned(pack, rest);
      AlignedSum(|pack(items[0]).value|, |Joined(pack, rest).value|);
    }
  }

  /** `ArgumentPacked` as a function value: `Joined(Packer(g, float32), args)` is
      what packing the arguments in order gives. */
  function Packer(g: Guard, float32: Num -> Word): Value -> Result<seq<Byte>> {
    v => ArgumentPacked(v, g, float32)
  }

  /** Packed arguments fill whole words. */
  lemma PackerAligned(args: seq<Value>, g: Guard, float32: Num -> Word)
    ensures Joined(Packer(g, float32), args).Ok? ==> |Joined(Packer(g, float32), args).value| % 4 == 0
  {
    JoinedAligned(Packer(g, float32), args);
  }

  /** Prefixes `done` to a successful packing of the remaining arguments. */
  function Append(done: seq<Byte>, r: Result<seq<Byte>>): Result<seq<Byte>> {
    match r
    case Ok(b) => Ok(done + b)
    case Err(e) => Err(e)
  }

  lemma AppendEmpty(r: Result<seq<Byte>>)
    ensures Append([], r) == r
  {
    if r.Ok? {
      assert [] + r.value == r.value;
    }
  }

  lemma AppendTwice(a: seq<Byte>, b: seq<Byte>, r: Result<seq<Byte>>)
    ensures Append(a, Append(b, r)) == Append(a + b, r)
  {
    if r.Ok? {
      assert a + (b + r.value) == a + b + r.value;
    }
  }

  /** `pack`: the address (it must start with '/'), ','+types, then each argument. */
  function Packed(address: string, types: string, args: seq<Value>, g: Guard, float32: Num -> Word): (r: Result<seq<Byte>>)
    ensures (|address| == 0 || address[0] != '/') ==> r == Err(InvalidAddress)
    ensures r.Ok? ==>
      && StringAtomic.Encoded(address).Ok? && StringAtomic.Encoded("," + types).Ok?
      && Joined(Packer(g, float32), args).Ok?
      && r.value == StringAtomic.Encoded(address).value + StringAtomic.Encoded("," + types).value + Joined(Packer(g, float32), args).value
  {
    if |address| == 0 || address[0] != '/' then Err(InvalidAddress)
    else
      var a :- StringAtomic.Packed(Str(address), g);
      var t :- StringAtomic.Packed(Str("," + types), g);
      var rest :- Joined(Packer(g, float32), args);
      Ok(a + t + rest)
  }

  /** A packed message is a whole number of 4-byte words. */
  lemma PackedAligned(address: string, types: string, args: seq<Value>, g: Guard, float32: Num -> Word)
    ensures Packed(address, types, args, g, float32).Ok? ==> |Packed(address, types, args, g, float32).value| % 4 == 0
  {
    var p := Packed(address, types, args, g, float32);
    if p.Ok? {
      var a, t := StringAtomic.Encoded(address).value, StringAtomic.Encoded("," + types).value;
      var rest := Joined(Packer(g, float32), args).value;
      PackerAligned(args, g, float32);
      AlignedSum(|a|, |t|);
      AlignedSum(|a| + |t|, |rest|);
      assert |p.value| == |a| + |t| + |rest|;
    }
  }

  // ---------------------------------------------------------------------------
  // Unpacking

  /** What `unpack` stores: the address, the type string (with its ','), the
      arguments and the offset past the last one. */
  datatype Unpacked = Unpacked(address: string, types: string, args: seq<Value>, offset: int)

  /** One argument read at `offset` by the atomic its tag names. */
  function ArgumentDecoded(view: seq<Byte>, tag: char, offset: int, fromFloat32: Word -> Num): (r: Result<(Value, int)>)
    ensures r.Ok? ==> tag in "ifsb" && offset >= 0
    ensures tag !in "ifsb" ==> r == Err(NonStandardType)
    ensures r.Ok? && tag == 'i' ==> IsInt(r.value.0) && r.value.1 == offset + 4
    ensures r.Ok? && tag == 's' ==> r.value.0.Str?
    ensures r.Ok? && tag == 'b' ==> r.value.0.Blob?
  {
    match tag
    case 'i' =>
      var d :- Int32Atomic.Unpacked(view, offset);
      IntOfInt(d.0);
      Ok((Int(d.0), d.1))
    case 'f' =>
      if 0 <= offset && offset + 4 <= |view| then Ok((Number(fromFloat32(view[offset..offset + 4])), offset + 4))
      else Err(RangeError)
    case 's' =>
      var d :- StringAtomic.Decoded(view, offset);
      Ok((Str(d.0), d.1))
    case 'b' =>
      var d :- BlobAtomic.Decoded(view, offset);
      Ok((Blob(d.0), d.1))
    case _ => Err(NonStandardType)
  }

  /** Prefixes `args` to a successful reading of the remaining arguments. */
  function Prepend(args: seq<Value>, r: Result<(seq<Value>, int)>): Result<(seq<Value>, int)> {
    match r
    case Ok(d) => Ok((args + d.0, d.1))
    case Err(e) => Err(e)
  }

  lemma PrependEmpty(r: Result<(seq<Value>, int)>)
    ensures Prepend([], r) == r
  {
    if r.Ok? {
      assert [] + r.value.0 == r.value.0;
    }
  }

  lemma PrependTwice(a: seq<Value>, b: seq<Value>, r: Result<(seq<Value>, int)>)
    ensures Prepend(a, Prepend(b, r)) == Prepend(a + b, r)
  {
    if r.Ok? {
      assert a + (b + r.value.0) == a + b + r.value.0;
    }
  }

  /** One value per tag, each read by `read` where the previous one ended. */
  function ReadAll(read: (char, int) -> Result<(Value, int)>, tags: string, offset: int): (r: Result<(seq<Value>, int)>)
    ensures r.Ok? ==> |r.value.0| == |tags|
    decreases |tags|
  {
    if |tags| == 0 then Ok(([], offset))
    else
      var first :- read(tags[0], offset);
      Prepend([first.0], ReadAll(read, tags[1..], first.1))
  }

  /** `ArgumentDecoded` on `view` as a function value: `ReadAll(Reader(view,
      fromFloat32), tags, offset)` is what reading one argument per tag gives. */
  function Reader(view: seq<Byte>, fromFloat32: Word -> Num): (char, int) -> Result<(Value, int)> {
    (tag, offset) => ArgumentDecoded(view, tag, offset, fromFloat32)
  }

  /** `unpack(view, offset)`: the address string, then the type string, the two
      checks, then one argument per character of the type string after its first. */
  function MessageUnpacked(view: seq<Byte>, offset: int, reading: Reading, fromFloat32: Word -> Num): (r: Result<Unpacked>)
    ensures r.Ok? ==> 0 <= offset < |view|
    ensures r.Ok? ==> |r.value.address| > 0 && r.value.address[0] == '/'
    ensures r.Ok? ==> !TypesRejected(reading, r.value.types)
    ensures r.Ok? ==> |r.value.args| == |r.value.types| - 1
  {
    UnpackedWith(view, offset, reading, Reader(view, fromFloat32))
  }

  /** The steps of `unpack` with `read` reading each argument. */
  function UnpackedWith(view: seq<Byte>, offset: int, reading: Reading, read: (char, int) -> Result<(Value, int)>): Result<Unpacked> {
    var a :- StringAtomic.Decoded(view, offset);
    var t :- StringAtomic.Decoded(view, a.1);
    if |a.0| == 0 || a.0[0] != '/' then Err(MalformedAddress)
    else if TypesRejected(reading, t.0) then Err(MalformedTypes)
    else
      var args :- ReadAll(read, t.0[1..], t.1);
      Ok(Unpacked(a.0, t.0, args.0, args.1))
  }

  // ---------------------------------------------------------------------------
  // The Message class

  class Message {
    var offset: int
    var address: string
    var types: string
    var args: seq<Value>

    /** `new Message()`. */
    constructor ()
      ensures offset == 0 && address == "" && types == "" && args == []
    {
      offset := 0;
      address := "";
      types := "";
      args := [];
    }

    /** `new Message(address, ...args)`: the address must be a string or an array
        and is normalised by `prepareAddress`; the types are the tags the build's
        tagger gives the arguments. */
    static method Create(items: seq<Value>, tagger: Tagger) returns (r: Result<Message>)
      ensures |items| == 0 ==> r.Ok? && r.value.address == "" && r.value.args == []
      ensures |items| > 0 ==> (r.Ok? <==> (items[0].Str? || items[0].Array?) && Tags(tagger, items[1..]).Ok?)
      ensures |items| > 0 && !(items[0].Str? || items[0].Array?) ==> r == Err(AddressTypeError)
      ensures r.Ok? ==> fresh(r.value) && r.value.offset == 0
      ensures r.Ok? && |items| > 0 ==> (r.value.address == PrepareAddress(items[0]).value
        && r.value.args == items[1..] && Tags(tagger, items[1..]) == Ok(r.value.types))
    {
      var m := new Message();
      if |items| == 0 {
        return Ok(m);
      }
      if !(items[0].Str? || items[0].Array?) {
        return Err(AddressTypeError);
      }
      var types :- Tags(tagger, items[1..]);
      m.address := PrepareAddress(items[0]).value;
      m.types := types;
      m.args := items[1..];
      r := Ok(m);
    }

    /** `add(item)`: refuses `undefined`; pushes the item, then appends its tag.
        An item without a tag is pushed before `typeTag` throws. */
    method Add(item: Value, tagger: Tagger) returns (r: Result<()>)
      modifies this
      ensures item.Undefined? ==> r == Err(AddError) && args == old(args) && types == old(types)
      ensures !item.Undefined? ==> args == old(args) + [item]
      ensures !item.Undefined? ==> match TagOf(tagger, item)
        case Ok(c) => r.Ok? && types == old(types) + [c]
        case Err(e) => r == Err(e) && types == old(types)
      ensures address == old(address) && offset == old(offset)
    {
      if item.Undefined? {
        return Err(AddError);
      }
      args := args + [item];
      var tag :- TagOf(tagger, item);
      types := types + [tag];
      r := Ok(());
    }

    /** `pack`: the address and type string, then one atomic per argument, added to
        an `EncodeHelper` and merged. */
    method Pack(g: Guard, float32: Num -> Word) returns (r: Result<seq<Byte>>)
      ensures r == Packed(address, types, args, g, float32)
    {
      if |address| == 0 || address[0] != '/' {
        return Err(InvalidAddress);
      }
      var encoder := new EncodeHelper();
      var head := new StringAtomic.AtomicString(Str(address));
      var packed := head.Pack(g);
      if packed.Err? {
        return Err(packed.error);
      }
      var _ := encoder.AddPacked(packed);
      var a := packed.value;
      ConcatSingle(a);
      var typeString := new StringAtomic.AtomicString(Str("," + types));
      packed := typeString.Pack(g);
      if packed.Err? {
        return Err(packed.error);
      }
      var _ := encoder.AddPacked(packed);
      var t := packed.value;
      ConcatAppend([a], [t]);
      ConcatSingle(t);
      assert Concat(encoder.data) == a + t;
      var _ :- AddArguments(encoder, args, g, float32);
      var merged := encoder.Merge();
      r := Ok(merged);
    }

    /** `unpack(dataView, initialOffset)`: reads the address and type strings with
        two `AtomicString`s, checks them, reads one atomic per tag, and only then
        stores the fields; a throw leaves the message as it was. */
    method Unpack(view: seq<Byte>, initialOffset: int, reading: Reading, fromFloat32: Word -> Num) returns (r: Result<int>)
      modifies this
      ensures match MessageUnpacked(view, initialOffset, reading, fromFloat32)
        case Ok(d) => (r == Ok(d.offset) && offset == d.offset && address == d.address
          && types == d.types && args == d.args)
        case Err(e) => (r == Err(e) && offset == old(offset) && address == old(address)
          && types == old(types) && args == old(args))
    {
      var addressAtomic := new StringAtomic.AtomicString(Undefined);
      var next :- addressAtomic.Unpack(view, initialOffset);
      var typesAtomic := new StringAtomic.AtomicString(Undefined);
      var _ :- typesAtomic.Unpack(view, next);
      var addressValue := addressAtomic.value.s;
      var typesValue := typesAtomic.value.s;
      if |addressValue| == 0 || addressValue[0] != '/' {
        return Err(MalformedAddress);
      }
      if TypesRejected(reading, typesValue) {
        return Err(MalformedTypes);
      }
      var read :- ReadArguments(view, typesValue[1..], typesAtomic.offset, fromFloat32);
      offset := read.1;
      address := addressValue;
      types := typesValue;
      args := read.0;
      r := Ok(offset);
    }
  }
  /** The loop body of `unpack`: a fresh atomic of the kind the tag names reads
      one argument at `position`; the float atomic is the 4-byte word. */
  method ReadArgument(view: seq<Byte>, tag: char, position: int, fromFloat32: Word -> Num) returns (r: Result<(Value, int)>)
    ensures r == ArgumentDecoded(view, tag, position, fromFloat32)
  {
    if tag == 'i' {
      var atomic := new Int32Atomic.AtomicInt32(Undefined);
      var _ :- atomic.Unpack(view, position);
      r := Ok((atomic.value, atomic.offset));
    } else if tag == 'f' {
      if !(0 <= position && position + 4 <= |view|) {
        return Err(RangeError);
      }
      r := Ok((Number(fromFloat32(view[position..position + 4])), position + 4));
    } else if tag == 's' {
      var atomic := new StringAtomic.AtomicString(Undefined);
      var _ :- atomic.Unpack(view, position);
      r := Ok((atomic.value, atomic.offset));
    } else if tag == 'b' {
      var atomic := new BlobAtomic.AtomicBlob(Undefined);
      var _ :- atomic.Unpack(view, position);
      r := Ok((atomic.value, atomic.offset));
    } else {
      r := Err(NonStandardType);
    }
  }

  /** The `forEach` of `pack`: the atomic each argument calls for. */
  method PackArgument(value: Value, g: Guard, float32: Num -> Word) returns (r: Result<seq<Byte>>)
    ensures r == ArgumentPacked(value, g, float32)
  {
    if IsInt(value) {
      var atomic := new Int32Atomic.AtomicInt32(value);
      r := atomic.Pack(g);
    } else if IsFloat(value) {
      r := if Admits(g, value) then Ok(float32(value.n)) else Err(EmptyValue);
    } else if IsString(value) {
      var atomic := new StringAtomic.AtomicString(value);
      r := atomic.Pack(g);
    } else if IsBlob(value) {
      var atomic := new BlobAtomic.AtomicBlob(value);
      r := atomic.Pack(g);
    } else {
      r := Err(UnknownArgument);
    }
  }

  lemma ConcatGrows(bufs: seq<seq<Byte>>, start: seq<Byte>, done: seq<Byte>, b: seq<Byte>)
    requires Concat(bufs) == start + done
    ensures Concat(bufs + [b]) == start + (done + b)
  {
    ConcatSnoc(bufs, b);
  }

  /** `encoder.add(argument)` for one argument. */
  method AddArgument(encoder: EncodeHelper, value: Value, g: Guard, float32: Num -> Word) returns (r: Result<()>)
    requires encoder.Valid()
    modifies encoder
    ensures encoder.Valid()
    ensures var p := ArgumentPacked(value, g, float32);
      && (r.Err? <==> p.Err?)
      && (r.Err? ==> r.error == p.error)
      && encoder.data == if p.Ok? then old(encoder.data) + [p.value] else old(encoder.data)
  {
    var packed := PackArgument(value, g, float32);
    r := encoder.AddPacked(packed);
  }

  /** Adds each argument's atomic to the encoder in order; stops at the first that
      throws. */
  method AddArguments(encoder: EncodeHelper, args: seq<Value>, g: Guard, float32: Num -> Word) returns (r: Result<()>)
    requires encoder.Valid()
    modifies encoder
    ensures encoder.Valid()
    ensures r.Ok? <==> Joined(Packer(g, float32), args).Ok?
    ensures r.Err? ==> r.error == Joined(Packer(g, float32), args).error
    ensures r.Ok? ==> Concat(encoder.data) == old(Concat(encoder.data)) + Joined(Packer(g, float32), args).value
  {
    ghost var start := Concat(encoder.data);
    ghost var done: seq<Byte> := [];
    assert args[0..] == args;
    assert start + [] == start;
    AppendEmpty(Joined(Packer(g, float32), args));
    for i := 0 to |args|
      invariant encoder.Valid()
      invariant Concat(encoder.data) == start + done
      invariant Joined(Packer(g, float32), args) == Append(done, Joined(Packer(g, float32), args[i..]))
    {
      assert args[i..][0] == args[i] && args[i..][1..] == args[i + 1..];
      var before := encoder.data;
      var added := AddArgument(encoder, args[i], g, float32);
      if added.Err? {
        return Err(added.error);
      }
      ghost var p := ArgumentPacked(args[i], g, float32).value;
      AppendTwice(done, p, Joined(Packer(g, float32), args[i + 1..]));
      ConcatGrows(before, start, done, p);
      done := done + p;
    }
    assert args[|args|..] == [];
    assert done + [] == done;
    r := Ok(());
  }

  /** The argument loop of `unpack`: one atomic per tag, each starting where the
      previous one ended. */
  method ReadArguments(view: seq<Byte>, tags: string, start: int, fromFloat32: Word -> Num) returns (r: Result<(seq<Value>, int)>)
    ensures r == ReadAll(Reader(view, fromFloat32), tags, start)
  {
    var position := start;
    var values: seq<Value> := [];
    assert tags[0..] == tags;
    assert Prepend([], ReadAll(Reader(view, fromFloat32), tags, start)) == ReadAll(Reader(view, fromFloat32), tags, start) by {
      PrependEmpty(ReadAll(Reader(view, fromFloat32), tags, start));
    }
    for j := 0 to |tags|
      invariant ReadAll(Reader(view, fromFloat32), tags, start)
        == Prepend(values, ReadAll(Reader(view, fromFloat32), tags[j..], position))
    {
      assert tags[j..][0] == tags[j] && tags[j..][1..] == tags[j + 1..];
      var step := ReadArgument(view, tags[j], position, fromFloat32);
      if step.Err? {
        return Err(step.error);
      }
      PrependTwice(values, [step.value.0], ReadAll(Reader(view, fromFloat32), tags[j + 1..], step.value.1));
      values := values + [step.value.0];
      position := step.value.1;
    }
    assert tags[|tags|..] == [];
    assert values + [] == values;
    r := Ok((values, position));
  }

  // ---------------------------------------------------------------------------
  // Round trips

  /** The arguments `unpack` gives back unchanged: int32-range integers, strings
      of byte-sized non-NUL characters, and blobs, each admitted by the guard. */
  predicate Restorable(v: Value, g: Guard) {
    Admits(g, v)
    && ((IsInt(v) && -TwoTo31 <= IntOf(v) < TwoTo31)
        || (v.Str? && StringAtomic.Plain(v.s) && |v.s| + 1 <= MaxPadInput)
        || (v.Blob? && |v.bytes| <= MaxPadInput))
  }

  predicate AllRestorable(args: seq<Value>, g: Guard) {
    forall i :: 0 <= i < |args| ==> Restorable(args[i], g)
  }

  lemma RestorableTail(args: seq<Value>, g: Guard)
    requires |args| > 0 && AllRestorable(args, g)
    ensures Restorable(args[0], g) && AllRestorable(args[1..], g)
  {
    forall i | 0 <= i < |args[1..]|
      ensures Restorable(args[1..][i], g)
    {
      assert args[1..][i] == args[i + 1];
    }
  }

  /** A restorable argument is tagged 'i', 's' or 'b'. */
  lemma RestorableTag(v: Value, g: Guard, tagger: Tagger)
    requires Restorable(v, g)
    ensures TagOf(tagger, v).Ok? && TagOf(tagger, v).value in "isb"
  {
    if IsInt(v) {
      assert TagOf(tagger, v) == Ok('i');
    } else if v.Str? {
      assert TagOf(tagger, v) == Ok('s');
    } else {
      assert TagOf(tagger, v) == Ok('b');
    }
  }

  /** Restorable arguments get the same type string from every build's
      tagger, so the round trip below holds for each build. */
  lemma TagsAgreeOnRestorable(args: seq<Value>, g: Guard, tagger: Tagger, other: Tagger)
    requires AllRestorable(args, g)
    ensures Tags(tagger, args).Ok? && Tags(tagger, args) == Tags(other, args)
  {
    forall i | 0 <= i < |args|
      ensures TagOf(tagger, args[i]).Ok? && TagOf(tagger, args[i]) == TagOf(other, args[i])
    {
      RestorableTag(args[i], g, tagger);
      RestorableTag(args[i], g, other);
    }
    var mine, theirs := Tags(tagger, args).value, Tags(other, args).value;
    assert forall i :: 0 <= i < |args| ==> mine[i] == theirs[i];
  }

  /** src/message.js, with the common `typeTag` as written, tags Infinity 'f'
      and booleans and null 'T', 'F' and 'N'. */
  lemma CommonTagsAsWritten()
    ensures Tags(CommonAsWritten, [Number(PosInf), Boolean(true), Boolean(false), Null]) == Ok("fTFN")
  {
    var written := [Number(PosInf), Boolean(true), Boolean(false), Null];
    assert TagOf(CommonAsWritten, written[0]) == Ok('f');
    assert TagOf(CommonAsWritten, written[1]) == Ok('T');
    assert TagOf(CommonAsWritten, written[2]) == Ok('F');
    assert TagOf(CommonAsWritten, written[3]) == Ok('N');
    var t := Tags(CommonAsWritten, written);
    assert t.Ok? && t.value[0] == 'f' && t.value[1] == 'T' && t.value[2] == 'F' && t.value[3] == 'N';
    assert t.value == "fTFN";
  }

  /** With the Infinity test first, Infinity is tagged 'I'. */
  lemma CommonTagsCorrected()
    ensures Tags(CommonCorrected, [Number(PosInf)]) == Ok("I")
  {
    var infinity := [Number(PosInf)];
    assert TagOf(CommonCorrected, infinity[0]) == Ok('I');
    var c := Tags(CommonCorrected, infinity);
    assert c.Ok? && c.value[0] == 'I';
    assert c.value == "I";
  }

  /** The browser and dist builds tag Infinity 'f' and throw for booleans and
      null, wherever they stand. */
  lemma BasicTags()
    ensures Tags(Basic, [Number(PosInf)]) == Ok("f")
    ensures Tags(Basic, [Int(1), Boolean(true)]).Err? && Tags(Basic, [Null]).Err?
  {
    var infinity := [Number(PosInf)];
    assert TagOf(Basic, infinity[0]) == Ok('f');
    var f := Tags(Basic, infinity);
    assert f.Ok? && f.value[0] == 'f';
    assert f.value == "f";
    assert TagOf(Basic, [Int(1), Boolean(true)][1]).Err?;
  }

  /** A restorable argument packs to at least four bytes. */
  lemma ArgumentPackedOk(v: Value, g: Guard, float32: Num -> Word)
    requires Restorable(v, g)
    ensures ArgumentPacked(v, g, float32).Ok? && |ArgumentPacked(v, g, float32).value| >= 4
  {
    if IsInt(v) {
      IntFloatExclusive(v);
    } else if v.Str? {
      assert !IsNumber(v);
    } else {
      assert !IsNumber(v) && !IsString(v);
    }
  }

  /** Restorable arguments pack, to at least four bytes each, and have tags
      under every tagger. */
  lemma {:induction false} ArgumentsPackedOk(args: seq<Value>, g: Guard, float32: Num -> Word, tagger: Tagger)
    requires AllRestorable(args, g)
    ensures Joined(Packer(g, float32), args).Ok?
    ensures |Joined(Packer(g, float32), args).value| >= 4 * |args|
    ensures Tags(tagger, args).Ok?
    decreases |args|
  {
    if |args| > 0 {
      RestorableTail(args, g);
      ArgumentsPackedOk(args[1..], g, float32, tagger);
      ArgumentPackedOk(args[0], g, float32);
      forall i | 0 <= i < |args|
        ensures TagOf(tagger, args[i]).Ok?
      {
        RestorableTag(args[i], g, tagger);
      }
    }
  }

  /** `tags` are the characters `tagger` gives `args`, one per argument. */
  predicate Tagged(tagger: Tagger, args: seq<Value>, tags: string) {
    |tags| == |args| && forall i :: 0 <= i < |args| ==> TagOf(tagger, args[i]) == Ok(tags[i])
  }

  lemma TaggedTail(tagger: Tagger, args: seq<Value>, tags: string)
    requires |args| > 0 && Tagged(tagger, args, tags)
    ensures TagOf(tagger, args[0]) == Ok(tags[0]) && Tagged(tagger, args[1..], tags[1..])
  {
    forall i | 0 <= i < |args[1..]|
      ensures TagOf(tagger, args[1..][i]) == Ok(tags[1..][i])
    {
      assert args[1..][i] == args[i + 1];
    }
  }

  /** `bytes` are whole words, and wherever they sit at a 4-aligned offset of
      `view`, `read` gets `v` back from them under `tag` and stops just past them. */
  ghost predicate ReadsAt(view: seq<Byte>, read: (char, int) -> Result<(Value, int)>, v: Value, tag: char, bytes: seq<Byte>) {
    && |bytes| % 4 == 0
    && (forall o {:trigger HoldsAt(view, o, bytes)} :: o % 4 == 0 && HoldsAt(view, o, bytes) ==> read(tag, o) == Ok((v, o + |bytes|)))
  }

  /** `pack` turns `v` into bytes that `read` gets `v` back from under `tag`. */
  ghost predicate ReadsBack(view: seq<Byte>, pack: Value -> Result<seq<Byte>>, read: (char, int) -> Result<(Value, int)>, v: Value, tag: char) {
    pack(v).Ok? && ReadsAt(view, read, v, tag, pack(v).value)
  }

  /** Every item reads back under the tag at its index. */
  ghost predicate AllReadBack(view: seq<Byte>, pack: Value -> Result<seq<Byte>>, read: (char, int) -> Result<(Value, int)>, items: seq<Value>, tags: string)
    decreases |items|
  {
    |tags| == |items|
    && (|items| > 0 ==> ReadsBack(view, pack, read, items[0], tags[0]) && AllReadBack(view, pack, read, items[1..], tags[1..]))
  }

  /** Joined parts that each read back are read back in order, and the reading
      stops just past the last of them. */
  lemma {:induction false} ReadAllJoined(view: seq<Byte>, offset: int, items: seq<Value>, tags: string,
                                         pack: Value -> Result<seq<Byte>>, read: (char, int) -> Result<(Value, int)>, end: int)
    requires AllReadBack(view, pack, read, items, tags) && 0 <= offset && offset % 4 == 0
    requires Joined(pack, items).Ok? && HoldsAt(view, offset, Joined(pack, items).value)
    requires end == offset + |Joined(pack, items).value|
    ensures ReadAll(read, tags, offset) == Ok((items, end))
    decreases |items|
  {
    if |items| > 0 {
      var rest := items[1..];
      var p := pack(items[0]).value;
      var q := Joined(pack, rest).value;
      HoldsAtSplit(view, offset, p, q);
      assert read(tags[0], offset) == Ok((items[0], offset + |p|));
      AlignedSum(offset, |p|);
      ReadAllJoined(view, offset + |p|, rest, tags[1..], pack, read, end);
      assert [items[0]] + rest == items;
    }
  }

  /** An int32-range integer is read back from the four bytes it packs to. */
  lemma IntDecodedAt(view: seq<Byte>, o: int, x: int, fromFloat32: Word -> Num)
    requires -TwoTo31 <= x < TwoTo31
    requires 0 <= o && o + 4 <= |view| && view[o..o + 4] == ToBigEndian(x, 4)
    ensures Reader(view, fromFloat32)('i', o) == Ok((Int(x), o + 4))
  {
    Pow256Values();
    WordRoundTrip(view, o, x, 4, true);
  }

  lemma IntReadsEverywhere(view: seq<Byte>, x: int, fromFloat32: Word -> Num)
    requires -TwoTo31 <= x < TwoTo31
    ensures ReadsAt(view, Reader(view, fromFloat32), Int(x), 'i', ToBigEndian(x, 4))
  {
    Pow256Values();
    forall o | o % 4 == 0 && HoldsAt(view, o, ToBigEndian(x, 4))
      ensures Reader(view, fromFloat32)('i', o) == Ok((Int(x), o + 4))
    {
      IntDecodedAt(view, o, x, fromFloat32);
    }
  }

  lemma IntPacks(x: int, g: Guard, float32: Num -> Word)
    requires Admits(g, Int(x))
    ensures Packer(g, float32)(Int(x)) == Ok(ToBigEndian(x, 4))
  {
    IntOfInt(x);
  }

  /** Wherever a string's packed bytes decode back to it, an 's' argument reads it. */
  lemma StrReadsEverywhere(view: seq<Byte>, s: string, p: seq<Byte>, fromFloat32: Word -> Num)
    requires |p| % 4 == 0 && StringAtomic.DecodesAt(view, s, p)
    ensures ReadsAt(view, Reader(view, fromFloat32), Str(s), 's', p)
  {
    forall o | o % 4 == 0 && HoldsAt(view, o, p)
      ensures Reader(view, fromFloat32)('s', o) == Ok((Str(s), o + |p|))
    {
      assert StringAtomic.Decoded(view, o) == Ok((s, o + |p|));
    }
  }

  lemma StrPacks(s: string, g: Guard, float32: Num -> Word)
    requires Admits(g, Str(s))
    ensures Packer(g, float32)(Str(s)) == StringAtomic.Encoded(s)
  {
    assert !IsNumber(Str(s));
  }

  /** Wherever a blob's packed bytes decode back to it, a 'b' argument reads it. */
  lemma BlobReadsEverywhere(view: seq<Byte>, b: seq<Byte>, p: seq<Byte>, fromFloat32: Word -> Num)
    requires |p| % 4 == 0 && BlobAtomic.DecodesAt(view, b, p)
    ensures ReadsAt(view, Reader(view, fromFloat32), Blob(b), 'b', p)
  {
    forall o | o % 4 == 0 && HoldsAt(view, o, p)
      ensures Reader(view, fromFloat32)('b', o) == Ok((Blob(b), o + |p|))
    {
      assert BlobAtomic.Decoded(view, o) == Ok((b, o + |p|));
    }
  }

  lemma BlobPacks(b: seq<Byte>, g: Guard, float32: Num -> Word)
    requires Admits(g, Blob(b))
    ensures Packer(g, float32)(Blob(b)) == BlobAtomic.Encoded(b)
  {
    assert !IsNumber(Blob(b)) && !IsString(Blob(b));
  }

  /** Each restorable argument reads back under its tag. */
  lemma ArgumentReadsBack(view: seq<Byte>, v: Value, tag: char, tagger: Tagger, g: Guard, float32: Num -> Word, fromFloat32: Word -> Num)
    requires Restorable(v, g) && TagOf(tagger, v) == Ok(tag) && |view| <= MaxPadInput
    ensures ReadsBack(view, Packer(g, float32), Reader(view, fromFloat32), v, tag)
  {
    if IsInt(v) {
      var x := IntOf(v);
      IntOfInt(x);
      assert Int(x) == v && tag == 'i';
      IntPacks(x, g, float32);
      IntReadsEverywhere(view, x, fromFloat32);
    } else if v.Str? {
      assert tag == 's';
      StrPacks(v.s, g, float32);
      StringAtomic.DecodesEverywhere(view, v.s);
      StrReadsEverywhere(view, v.s, StringAtomic.Encoded(v.s).value, fromFloat32);
    } else {
      assert tag == 'b';
      BlobPacks(v.bytes, g, float32);
      BlobAtomic.DecodesEverywhere(view, v.bytes);
      BlobReadsEverywhere(view, v.bytes, BlobAtomic.Encoded(v.bytes).value, fromFloat32);
    }
  }

  /** Restorable arguments all read back under the tags `tagger` gives them. */
  lemma {:induction false} ArgumentsReadBack(view: seq<Byte>, args: seq<Value>, tags: string, tagger: Tagger,
                                             g: Guard, float32: Num -> Word, fromFloat32: Word -> Num)
    requires AllRestorable(args, g) && Tagged(tagger, args, tags) && |view| <= MaxPadInput
    ensures AllReadBack(view, Packer(g, float32), Reader(view, fromFloat32), args, tags)
    decreases |args|
  {
    if |args| > 0 {
      RestorableTail(args, g);
      TaggedTail(tagger, args, tags);
      ArgumentReadsBack(view, args[0], tags[0], tagger, g, float32, fromFloat32);
      ArgumentsReadBack(view, args[1..], tags[1..], tagger, g, float32, fromFloat32);
    }
  }

  /** Restorable arguments are read back, in order, by the tags any build's
      tagger gives them. */
  lemma ArgumentsRoundTripAt(view: seq<Byte>, offset: int, args: seq<Value>, tags: string, joined: seq<Byte>,
                             tagger: Tagger, g: Guard, float32: Num -> Word, fromFloat32: Word -> Num)
    requires AllRestorable(args, g) && Tagged(tagger, args, tags)
    requires Joined(Packer(g, float32), args) == Ok(joined)
    requires 0 <= offset && offset % 4 == 0 && HoldsAt(view, offset, joined) && |view| <= MaxPadInput
    ensures ReadAll(Reader(view, fromFloat32), tags, offset) == Ok((args, offset + |joined|))
  {
    ArgumentsReadBack(view, args, tags, tagger, g, float32, fromFloat32);
    JoinedReadBack(view, offset, args, tags, joined, Packer(g, float32), Reader(view, fromFloat32));
  }

  /** `ReadAllJoined` for bytes `joined` held at `offset`. */
  lemma JoinedReadBack(view: seq<Byte>, offset: int, items: seq<Value>, tags: string, joined: seq<Byte>,
                       pack: Value -> Result<seq<Byte>>, read: (char, int) -> Result<(Value, int)>)
    requires AllReadBack(view, pack, read, items, tags) && Joined(pack, items) == Ok(joined)
    requires 0 <= offset && offset % 4 == 0 && HoldsAt(view, offset, joined)
    ensures ReadAll(read, tags, offset) == Ok((items, offset + |joined|))
  {
    ReadAllJoined(view, offset, items, tags, pack, read, offset + |joined|);
  }

  /** The characters a tagger gives restorable arguments are plain. */
  lemma TagsPlain(tagger: Tagger, args: seq<Value>, g: Guard)
    requires AllRestorable(args, g)
    requires Tags(tagger, args).Ok?
    ensures StringAtomic.Plain("," + Tags(tagger, args).value)
  {
    var t := "," + Tags(tagger, args).value;
    forall i | 0 <= i < |t|
      ensures 0 < t[i] as int < 256
    {
      if i > 0 {
        RestorableTag(args[i - 1], g, tagger);
      }
    }
  }

  /** The address, the type string and the arguments of a packed message sit one
      after another, each at a 4-aligned offset, in a view holding it. */
  lemma PiecesAt(view: seq<Byte>, offset: int, a: seq<Byte>, t: seq<Byte>, j: seq<Byte>, packed: seq<Byte>)
    requires packed == a + t + j && HoldsAt(view, offset, packed)
    requires offset % 4 == 0 && |a| % 4 == 0 && |t| % 4 == 0
    ensures HoldsAt(view, offset, a) && HoldsAt(view, offset + |a|, t) && HoldsAt(view, offset + |a| + |t|, j)
    ensures (offset + |a|) % 4 == 0 && (offset + |a| + |t|) % 4 == 0
  {
    HoldsAtSplit(view, offset, a + t, j);
    HoldsAtSplit(view, offset, a, t);
    AlignedSum(offset, |a|);
    AlignedSum(offset + |a|, |t|);
  }

  /** The address decodes from where its packed bytes `a` sit. */
  lemma AddressAt(view: seq<Byte>, offset: int, address: string, a: seq<Byte>)
    requires StringAtomic.DecodesAt(view, address, a) && offset % 4 == 0 && HoldsAt(view, offset, a)
    ensures StringAtomic.Decoded(view, offset) == Ok((address, offset + |a|))
  {
  }

  /** The type string decodes from its packed bytes `t` just past the address. */
  lemma TypesAt(view: seq<Byte>, offset: int, a: seq<Byte>, types: string, t: seq<Byte>)
    requires StringAtomic.DecodesAt(view, "," + types, t) && (offset + |a|) % 4 == 0 && HoldsAt(view, offset + |a|, t)
    ensures StringAtomic.Decoded(view, offset + |a|) == Ok(("," + types, offset + |a| + |t|))
  {
  }

  /** The arguments are read from just past the type string to the end of the
      packed message. */
  lemma ArgumentsAt(view: seq<Byte>, offset: int, a: seq<Byte>, t: seq<Byte>, j: seq<Byte>, packed: seq<Byte>,
                    args: seq<Value>, types: string, pack: Value -> Result<seq<Byte>>, read: (char, int) -> Result<(Value, int)>)
    requires AllReadBack(view, pack, read, args, types) && Joined(pack, args) == Ok(j)
    requires packed == a + t + j && 0 <= offset && (offset + |a| + |t|) % 4 == 0 && HoldsAt(view, offset + |a| + |t|, j)
    ensures ReadAll(read, types, offset + |a| + |t|) == Ok((args, offset + |packed|))
  {
    ReadAllJoined(view, offset + |a| + |t|, args, types, pack, read, offset + |packed|);
  }

  /** `unpack` assembles what its three readings give: a well-formed address, a type
      string ','+`types`, and one argument per character of `types`. */
  lemma UnpackedFrom(view: seq<Byte>, offset: int, reading: Reading, read: (char, int) -> Result<(Value, int)>,
                     address: string, types: string, args: seq<Value>, a: seq<Byte>, t: seq<Byte>, packed: seq<Byte>)
    requires |address| > 0 && address[0] == '/'
    requires StringAtomic.Decoded(view, offset) == Ok((address, offset + |a|))
    requires StringAtomic.Decoded(view, offset + |a|) == Ok(("," + types, offset + |a| + |t|))
    requires ReadAll(read, types, offset + |a| + |t|) == Ok((args, offset + |packed|))
    ensures UnpackedWith(view, offset, reading, read) == Ok(Unpacked(address, "," + types, args, offset + |packed|))
  {
    assert ("," + types)[1..] == types;
  }

  /** Whatever bytes `a`, `t` and `j` stand for, a view holding `a + t + j` at a
      4-aligned offset is unpacked to the address `a` decodes to, the type string
      `t` decodes to and the arguments `j` joins. */
  lemma AssembledAt(view: seq<Byte>, offset: int, reading: Reading, read: (char, int) -> Result<(Value, int)>,
                    address: string, types: string, args: seq<Value>, pack: Value -> Result<seq<Byte>>,
                    a: seq<Byte>, t: seq<Byte>, j: seq<Byte>, packed: seq<Byte>)
    requires |address| > 0 && address[0] == '/'
    requires |a| % 4 == 0 && StringAtomic.DecodesAt(view, address, a)
    requires |t| % 4 == 0 && StringAtomic.DecodesAt(view, "," + types, t)
    requires AllReadBack(view, pack, read, args, types) && Joined(pack, args) == Ok(j)
    requires packed == a + t + j && offset % 4 == 0 && HoldsAt(view, offset, packed)
    ensures UnpackedWith(view, offset, reading, read) == Ok(Unpacked(address, "," + types, args, offset + |packed|))
  {
    PiecesAt(view, offset, a, t, j, packed);
    AddressAt(view, offset, address, a);
    TypesAt(view, offset, a, types, t);
    ArgumentsAt(view, offset, a, t, j, packed, args, types, pack, read);
    UnpackedFrom(view, offset, reading, read, address, types, args, a, t, packed);
  }

  /** `unpack(pack(m))` restores the address, the type string with its ',' and the
      int32, string and blob arguments of `m`, wherever the packed bytes sit at a
      4-aligned offset of the view, and stops just past them. */
  lemma {:induction false} MessageRoundTripAt(view: seq<Byte>, offset: int, packed: seq<Byte>, address: string, types: string, args: seq<Value>,
                           tagger: Tagger, g: Guard, float32: Num -> Word, fromFloat32: Word -> Num, reading: Reading)
    requires StringAtomic.Plain(address) && |address| + 1 <= MaxPadInput
    requires AllRestorable(args, g) && Tags(tagger, args) == Ok(types) && |types| + 2 <= MaxPadInput
    requires Packed(address, types, args, g, float32) == Ok(packed)
    requires offset % 4 == 0 && HoldsAt(view, offset, packed) && |view| <= MaxPadInput
    ensures MessageUnpacked(view, offset, reading, fromFloat32) == Ok(Unpacked(address, "," + types, args, offset + |packed|))
  {
    var a, t, j := StringAtomic.Encoded(address).value, StringAtomic.Encoded("," + types).value, Joined(Packer(g, float32), args).value;
    RoundTripOfParts(view, offset, address, types, args, tagger, g, float32, fromFloat32, reading, a, t, j, packed);
  }

  /** `MessageRoundTripAt` for the three parts `pack` joins: the packed address `a`,
      the packed type string `t` and the packed arguments `j`. */
  lemma {:induction false} RoundTripOfParts(view: seq<Byte>, offset: int, address: string, types: string, args: seq<Value>,
                                            tagger: Tagger, g: Guard, float32: Num -> Word, fromFloat32: Word -> Num, reading: Reading,
                                            a: seq<Byte>, t: seq<Byte>, j: seq<Byte>, packed: seq<Byte>)
    requires |address| > 0 && address[0] == '/'
    requires StringAtomic.Plain(address) && |address| + 1 <= MaxPadInput
    requires AllRestorable(args, g) && Tags(tagger, args) == Ok(types) && |types| + 2 <= MaxPadInput
    requires StringAtomic.Encoded(address) == Ok(a) && StringAtomic.Encoded("," + types) == Ok(t)
    requires Joined(Packer(g, float32), args) == Ok(j)
    requires packed == a + t + j && offset % 4 == 0 && HoldsAt(view, offset, packed) && |view| <= MaxPadInput
    ensures MessageUnpacked(view, offset, reading, fromFloat32) == Ok(Unpacked(address, "," + types, args, offset + |packed|))
  {
    StringAtomic.DecodesEverywhere(view, address);
    TagsPlain(tagger, args, g);
    StringAtomic.DecodesEverywhere(view, "," + types);
    ArgumentsReadBack(view, args, types, tagger, g, float32, fromFloat32);
    AssembledAt(view, offset, reading, Reader(view, fromFloat32), address, types, args, Packer(g, float32), a, t, j, packed);
  }

  // ---------------------------------------------------------------------------
  // Progress: `unpack` ends past where it starts

  /** The offsets a reading can reach in `view`: inside it, or a multiple of four
      at most three bytes past its end. */
  predicate Reachable(view: seq<Byte>, x: int) {
    0 <= x && (x <= |view| || (x % 4 == 0 && x <= |view| + 3))
  }

  /** Each successful `read` from a reachable offset ends at a reachable offset no
      earlier than where it started. */
  ghost predicate ReadsForward(view: seq<Byte>, read: (char, int) -> Result<(Value, int)>) {
    forall tag, x {:trigger read(tag, x)} :: Reachable(view, x) && read(tag, x).Ok? ==>
      x <= read(tag, x).value.1 && Reachable(view, read(tag, x).value.1)
  }

  /** A string read from a reachable offset ends at a reachable offset, past the
      start when the start lies inside the view. */
  lemma StringForward(view: seq<Byte>, x: int)
    requires Reachable(view, x) && |view| + 3 <= MaxPadInput
    ensures StringAtomic.Decoded(view, x).Ok?
    ensures x <= StringAtomic.Decoded(view, x).value.1 && Reachable(view, StringAtomic.Decoded(view, x).value.1)
    ensures x < |view| ==> x < StringAtomic.Decoded(view, x).value.1
  {
    if x > |view| {
      PadIdentityOnMultiples(x);
    }
  }

  /** Every atomic an argument tag names reads forward. */
  lemma ArgumentForward(view: seq<Byte>, tag: char, x: int, fromFloat32: Word -> Num)
    requires Reachable(view, x) && |view| + 3 <= MaxPadInput
    requires ArgumentDecoded(view, tag, x, fromFloat32).Ok?
    ensures x <= ArgumentDecoded(view, tag, x, fromFloat32).value.1
    ensures Reachable(view, ArgumentDecoded(view, tag, x, fromFloat32).value.1)
  {
    if tag == 's' {
      StringForward(view, x);
    }
  }

  lemma ReaderForward(view: seq<Byte>, fromFloat32: Word -> Num)
    requires |view| + 3 <= MaxPadInput
    ensures ReadsForward(view, Reader(view, fromFloat32))
  {
    var read := Reader(view, fromFloat32);
    forall tag, x | Reachable(view, x) && read(tag, x).Ok?
      ensures x <= read(tag, x).value.1 && Reachable(view, read(tag, x).value.1)
    {
      ArgumentForward(view, tag, x, fromFloat32);
    }
  }

  /** Reading one argument per tag from a reachable offset ends at a reachable
      offset no earlier than the start. */
  lemma {:induction false} ReadAllForward(view: seq<Byte>, read: (char, int) -> Result<(Value, int)>, tags: string, x: int)
    requires ReadsForward(view, read) && Reachable(view, x)
    requires ReadAll(read, tags, x).Ok?
    ensures x <= ReadAll(read, tags, x).value.1 && Reachable(view, ReadAll(read, tags, x).value.1)
    decreases |tags|
  {
    if |tags| > 0 {
      var first := read(tags[0], x).value;
      ReadAllForward(view, read, tags[1..], first.1);
    }
  }

  lemma UnpackedWithForward(view: seq<Byte>, offset: int, reading: Reading, read: (char, int) -> Result<(Value, int)>)
    requires ReadsForward(view, read) && |view| + 3 <= MaxPadInput
    requires UnpackedWith(view, offset, reading, read).Ok? && 0 <= offset < |view|
    ensures offset < UnpackedWith(view, offset, reading, read).value.offset
    ensures Reachable(view, UnpackedWith(view, offset, reading, read).value.offset)
  {
    StringForward(view, offset);
    var a := StringAtomic.Decoded(view, offset).value;
    StringForward(view, a.1);
    var t := StringAtomic.Decoded(view, a.1).value;
    ReadAllForward(view, read, t.0[1..], t.1);
  }

  /** A message `unpack` accepts ends past the offset it starts at, and at most
      three bytes past the end of the view. */
  lemma MessageAdvances(view: seq<Byte>, offset: int, reading: Reading, fromFloat32: Word -> Num)
    requires |view| + 3 <= MaxPadInput
    requires MessageUnpacked(view, offset, reading, fromFloat32).Ok?
    ensures offset < MessageUnpacked(view, offset, reading, fromFloat32).value.offset
    ensures Reachable(view, MessageUnpacked(view, offset, reading, fromFloat32).value.offset)
  {
    ReaderForward(view, fromFloat32);
    UnpackedWithForward(view, offset, reading, Reader(view, fromFloat32));
  }

  /** The head `Packet.unpack` reads to tell a bundle from a message is the
      address of the message it unpacks. */
  lemma MessageHead(view: seq<Byte>, offset: int, reading: Reading, fromFloat32: Word -> Num)
    requires MessageUnpacked(view, offset, reading, fromFloat32).Ok?
    ensures StringAtomic.Decoded(view, offset).Ok?
    ensures StringAtomic.Decoded(view, offset).value.0 == MessageUnpacked(view, offset, reading, fromFloat32).value.address
  {
  }

  // ---------------------------------------------------------------------------
  // Examples

  /** A message with the address "/test/path" and the int32 argument 653. */
  const ExampleView: seq<Byte> := [47, 116, 101, 115, 116, 47, 112, 97, 116, 104, 0, 0, 44, 105, 0, 0, 0, 0, 2, 141]

  /** A view whose type string "xi" lacks its ','. */
  const CommaLessView: seq<Byte> := [47, 97, 0, 0, 120, 105, 0, 0, 0, 0, 0, 7]

  lemma ExampleStrings()
    ensures StringAtomic.Decoded(ExampleView, 0) == Ok(("/test/path", 12))
    ensures StringAtomic.Decoded(ExampleView, 12) == Ok((",i", 16))
  {
    var view := ExampleView;
    StringAtomic.NulFromAt(view, 0, 10);
    assert StringAtomic.Chars(view[0..10]) == "/test/path";
    StringAtomic.NulFromAt(view, 12, 14);
    assert StringAtomic.Chars(view[12..14]) == ",i";
  }

  lemma CommaLessStrings()
    ensures StringAtomic.Decoded(CommaLessView, 0) == Ok(("/a", 4))
    ensures StringAtomic.Decoded(CommaLessView, 4) == Ok(("xi", 8))
  {
    var view := CommaLessView;
    StringAtomic.NulFromAt(view, 0, 2);
    assert StringAtomic.Chars(view[0..2]) == "/a";
    StringAtomic.NulFromAt(view, 4, 6);
    assert StringAtomic.Chars(view[4..6]) == "xi";
  }

  /** An int32 whose bytes sit at `o` is read as the one argument of the tags "i". */
  lemma OneIntRead(view: seq<Byte>, o: int, x: int, fromFloat32: Word -> Num)
    requires 0 <= o && o + 4 <= |view| && -TwoTo31 <= x < TwoTo31
    requires view[o..o + 4] == ToBigEndian(x, 4)
    ensures ReadAll(Reader(view, fromFloat32), "i", o) == Ok(([Int(x)], o + 4))
  {
    Pow256Values();
    WordRoundTrip(view, o, x, 4, true);
    var read := Reader(view, fromFloat32);
    assert read('i', o) == Ok((Int(x), o + 4));
    assert "i"[1..] == "";
    assert [Int(x)] + [] == [Int(x)];
  }

  /** `unpack` assembles what its readings give when both checks pass. */
  lemma UnpackedOfReadings(view: seq<Byte>, offset: int, reading: Reading, fromFloat32: Word -> Num,
                           address: string, typeString: string, args: seq<Value>, o1: int, o2: int, o3: int)
    requires |address| > 0 && address[0] == '/' && !TypesRejected(reading, typeString)
    requires StringAtomic.Decoded(view, offset) == Ok((address, o1))
    requires StringAtomic.Decoded(view, o1) == Ok((typeString, o2))
    requires ReadAll(Reader(view, fromFloat32), typeString[1..], o2) == Ok((args, o3))
    ensures MessageUnpacked(view, offset, reading, fromFloat32) == Ok(Unpacked(address, typeString, args, o3))
  {
  }

  lemma ExampleArgument(fromFloat32: Word -> Num)
    ensures ReadAll(Reader(ExampleView, fromFloat32), "i", 16) == Ok(([Int(653)], 20))
  {
    WordExamples();
    assert ExampleView[16..20] == [0, 0, 2, 141] == ToBigEndian(653, 4);
    OneIntRead(ExampleView, 16, 653, fromFloat32);
  }

  lemma CommaLessArgument(fromFloat32: Word -> Num)
    ensures ReadAll(Reader(CommaLessView, fromFloat32), "i", 8) == Ok(([Int(7)], 12))
  {
    assert CommaLessView[8..12] == [0, 0, 0, 7] == ToBigEndian(7, 4);
    OneIntRead(CommaLessView, 8, 7, fromFloat32);
  }

  /** `unpack` reads the example message under either test of the type string. */
  lemma UnpackExample(reading: Reading, fromFloat32: Word -> Num)
    ensures MessageUnpacked(ExampleView, 0, reading, fromFloat32) == Ok(Unpacked("/test/path", ",i", [Int(653)], 20))
  {
    ExampleStrings();
    ExampleArgument(fromFloat32);
    assert ",i"[1..] == "i";
    UnpackedOfReadings(ExampleView, 0, reading, fromFloat32, "/test/path", ",i", [Int(653)], 12, 16, 20);
  }

  /** As written, a type string without its ',' is accepted: "xi" is taken for
      the tags of one int32 argument, whose first tag character is dropped. */
  lemma TypesWithoutCommaAccepted(fromFloat32: Word -> Num)
    ensures MessageUnpacked(CommaLessView, 0, AsWritten, fromFloat32) == Ok(Unpacked("/a", "xi", [Int(7)], 12))
  {
    CommaLessStrings();
    CommaLessArgument(fromFloat32);
    assert "xi"[1..] == "i";
    UnpackedOfReadings(CommaLessView, 0, AsWritten, fromFloat32, "/a", "xi", [Int(7)], 4, 8, 12);
  }

  /** With the corrected test the same view is refused as a malformed type string. */
  lemma TypesWithoutCommaRejected(fromFloat32: Word -> Num)
    ensures MessageUnpacked(CommaLessView, 0, Corrected, fromFloat32) == Err(MalformedTypes)
  {
    CommaLessStrings();
  }
}
