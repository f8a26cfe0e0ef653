/** `OSCMessage` of the oldest build (lib/osc.js:474-598). The atomics, `pad`,
    `typeChar`, `prepareAddress` and `EncodeHelper` it uses (lib/osc.js:7-472)
    are the code of src/atomic, src/helpers.js and src/common/utils.js with the
    falsy guard. The message differs from `Message` in three ways: its tags come
    from `typeChar` (the `Basic` tagger), `add` refuses every falsy value, and
    `decode` always reads from byte 0 and returns the message rather than an
    offset. */
module LibMessage {
  import opened Wrappers
  import opened Utils
  import opened AtomicBase
  import opened Helpers
  import Messages
  import StringAtomic

  const AddressTypeError: string := "OSCMessage constructor first argument (address) must be a string or array."
  const AddError: string := "OSCMessage expects a valid value for adding."

  /** No falsy argument packs under the guard of this build: 0 and "" are
      refused by their atomics, and `false`, `null`, `undefined` and NaN have no
      atomic at all. */
  lemma FalsyNotPacked(v: Value, float32: Num -> Messages.Word)
    requires !Truthy(v)
    ensures Messages.ArgumentPacked(v, RejectFalsy, float32).Err?
  {
  }

  /** Packing stops at the first argument that fails, wherever it stands. */
  lemma {:induction false} JoinedFails(args: seq<Value>, i: int, float32: Num -> Messages.Word)
    requires 0 <= i < |args| && Messages.ArgumentPacked(args[i], RejectFalsy, float32).Err?
    ensures Messages.Joined(Messages.Packer(RejectFalsy, float32), args).Err?
    decreases i
  {
    if i > 0 {
      assert args[1..][i - 1] == args[i];
      JoinedFails(args[1..], i - 1, float32);
    }
  }

  /** A message holding a falsy argument, such as the integer 0 or the empty
      string, can never be encoded. */
  lemma FalsyArgumentNotEncoded(address: string, types: string, args: seq<Value>, i: int, float32: Num -> Messages.Word)
    requires 0 <= i < |args| && !Truthy(args[i])
    ensures Messages.Packed(address, types, args, RejectFalsy, float32).Err?
  {
    FalsyNotPacked(args[i], float32);
    JoinedFails(args, i, float32);
  }

  /** The bytes `encode` gives, held by a view at a word-aligned offset, read
      back as the address, the type string with its ',' and the int32, string
      and blob arguments. */
  lemma EncodedReadAt(view: seq<Byte>, o: int, address: string, args: seq<Value>, types: string, p: seq<Byte>,
                      float32: Num -> Messages.Word, fromFloat32: Messages.Word -> Num, reading: Messages.Reading, m: Messages.Unpacked)
    requires StringAtomic.Plain(address) && |address| + 1 <= MaxPadInput
    requires Messages.AllRestorable(args, RejectFalsy) && |args| + 2 <= MaxPadInput
    requires Messages.Tags(Basic, args) == Ok(types) && Messages.Packed(address, types, args, RejectFalsy, float32) == Ok(p)
    requires o % 4 == 0 && HoldsAt(view, o, p) && |view| <= MaxPadInput
    requires m == Messages.Unpacked(address, "," + types, args, o + |p|)
    ensures Messages.MessageUnpacked(view, o, reading, fromFloat32) == Ok(m)
  {
    Messages.MessageRoundTripAt(view, o, p, address, types, args, Basic, RejectFalsy, float32, fromFloat32, reading);
  }

  /** `decode(encode(m))`: `decode`, reading from byte 0 of a view that starts
      with the bytes `encode` gives, restores the address, the type string
      with its ',' and the int32, string and blob arguments. */
  lemma EncodeDecode(view: seq<Byte>, address: string, args: seq<Value>, types: string, p: seq<Byte>,
                     float32: Num -> Messages.Word, fromFloat32: Messages.Word -> Num, m: Messages.Unpacked)
    requires StringAtomic.Plain(address) && |address| + 1 <= MaxPadInput
    requires Messages.AllRestorable(args, RejectFalsy) && |args| + 2 <= MaxPadInput
    requires Messages.Tags(Basic, args) == Ok(types) && Messages.Packed(address, types, args, RejectFalsy, float32) == Ok(p)
    requires HoldsAt(view, 0, p) && |view| <= MaxPadInput
    requires m == Messages.Unpacked(address, "," + types, args, |p|)
    ensures Messages.MessageUnpacked(view, 0, Messages.AsWritten, fromFloat32) == Ok(m)
  {
    var o := 0;
    assert m.offset == o + |p| && m.address == address && m.types == "," + types && m.args == args;
    EncodedReadAt(view, o, address, args, types, p, float32, fromFloat32, Messages.AsWritten, m);
  }

  class OSCMessage {
    var address: string
    var types: string
    var args: seq<Value>
    var timetag: int

    /** `new OSCMessage()`. */
    constructor ()
      ensures address == "" && types == "" && args == [] && timetag == 0
    {
      address := "";
      types := "";
      args := [];
      timetag := 0;
    }

    /** `new OSCMessage(address, ...args)`: the address must be a string or an
        array and is normalised by `prepareAddress`; the types are the
        arguments' `typeChar`s. */
    static method Create(items: seq<Value>) returns (r: Result<OSCMessage>)
      ensures |items| == 0 ==> r.Ok? && r.value.address == "" && r.value.types == "" && r.value.args == []
      ensures |items| > 0 ==> (r.Ok? <==> (items[0].Str? || items[0].Array?) && Messages.Tags(Basic, items[1..]).Ok?)
      ensures |items| > 0 && !(items[0].Str? || items[0].Array?) ==> r == Err(AddressTypeError)
      ensures r.Ok? ==> fresh(r.value) && r.value.timetag == 0
      ensures r.Ok? && |items| > 0 ==> (r.value.address == PrepareAddress(items[0]).value
        && r.value.args == items[1..] && Messages.Tags(Basic, items[1..]) == Ok(r.value.types))
    {
      var m := new OSCMessage();
      if |items| == 0 {
        return Ok(m);
      }
      if !(items[0].Str? || items[0].Array?) {
        return Err(AddressTypeError);
      }
      var types :- Messages.Tags(Basic, items[1..]);
      m.address := PrepareAddress(items[0]).value;
      m.types := types;
      m.args := items[1..];
      r := Ok(m);
    }

    /** `add(value)`: refuses every falsy value; pushes the value, then appends
        its type character. A value without one is pushed before `typeChar` throws. */
    method Add(value: Value) returns (r: Result<()>)
      modifies this
      ensures !Truthy(value) ==> r == Err(AddError) && args == old(args) && types == old(types)
      ensures Truthy(value) ==> args == old(args) + [value]
      ensures Truthy(value) ==> match TypeChar(value)
        case Ok(c) => r.Ok? && types == old(types) + [c]
        case Err(e) => r == Err(e) && types == old(types)
      ensures address == old(address) && timetag == old(timetag)
    {
      if !Truthy(value) {
        return Err(AddError);
      }
      args := args + [value];
      var c :- TypeChar(value);
      types := types + [c];
      r := Ok(());
    }

    /** `encode()`: the address, ','+types and one atomic per argument, each
        refusing a falsy value. */
    method Encode(float32: Num -> Messages.Word) returns (r: Result<seq<Byte>>)
      ensures r == Messages.Packed(address, types, args, RejectFalsy, float32)
    {
      var m := new Messages.Message();
      m.address := address;
      m.types := types;
      m.args := args;
      r := m.Pack(RejectFalsy, float32);
    }

    /** `decode(dataView)`: reads a message from byte 0 and stores its address,
        its type string (with the ',') and its arguments; a throw leaves the
        message as it was. */
    method Decode(view: seq<Byte>, fromFloat32: Messages.Word -> Num) returns (r: Result<()>)
      modifies this
      ensures match Messages.MessageUnpacked(view, 0, Messages.AsWritten, fromFloat32)
        case Ok(d) => r.Ok? && address == d.address && types == d.types && args == d.args
        case Err(e) => r == Err(e) && address == old(address) && types == old(types) && args == old(args)
      ensures timetag == old(timetag)
    {
      var m := new Messages.Message();
      var read := m.Unpack(view, 0, Messages.AsWritten, fromFloat32);
      if read.Err? {
        return Err(read.error);
      }
      address := m.address;
      types := m.types;
      args := m.args;
      r := Ok(());
    }
  }
}
