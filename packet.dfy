/** `Bundle` and `Packet` (lib/osc.browser.js:586-714; src/bundle.js; src/packet.js):
    a bundle is the OSC-string "#bundle", a time tag and size-prefixed elements,
    each a message or a bundle; a packet is one message or one bundle. */
module Packets {
  import opened Wrappers
  import opened Utils
  import opened Bytes
  import opened AtomicBase
  import opened Helpers
  import Int32Atomic
  import StringAtomic
  import TimetagAtomic
  import Messages

  const BundleTag: string := "#bundle"
  const AddError: string := "OSC Bundle contains only Messages and Bundles"
  const HeadError: string := "OSC Bundle does not contain a valid #bundle head"
  const TimestampError: string := "OSC Bundle needs an integer for setting the timestamp"
  const PacketValueError: string := "OSC Packet value has to be Message or Bundle"
  const EmptyBody: string := "OSC Packet can not be encoded with empty body"
  const LengthError: string := "OSC Packet byteLength has to be a multiple of four"

  /** The contents of a packet: a message, or a bundle of a time tag and elements. */
  datatype Element =
    | MessageElement(address: string, types: string, args: seq<Value>)
    | BundleElement(time: TimetagAtomic.Time, elements: seq<Element>)

  // ---------------------------------------------------------------------------
  // Packing

  /** The eight bytes every bundle starts with. */
  const BundleHead: seq<Byte> := [35, 98, 117, 110, 100, 108, 101, 0]

  /** They are the OSC-string "#bundle", the head `pack` writes with an `AtomicString`. */
  lemma BundleHeadBytes()
    ensures StringAtomic.Encoded(BundleTag) == Ok(BundleHead)
  {
    PadExamples();
    var r := StringAtomic.Encoded(BundleTag).value;
    assert |r| == 8;
    assert r == BundleHead;
  }

  /** The bytes `pack` gives an element: a message packs itself; a bundle packs
      "#bundle", its time tag and its framed elements. */
  function ElementPacked(e: Element, g: Guard, float32: Num -> Messages.Word): (r: Result<seq<Byte>>)
    ensures r.Ok? ==> |r.value| % 4 == 0
    ensures e.MessageElement? ==> r == Messages.Packed(e.address, e.types, e.args, g, float32)
    decreases e, 1
  {
    match e
    case MessageElement(address, types, args) =>
      Messages.PackedAligned(address, types, args, g, float32);
      Messages.Packed(address, types, args, g, float32)
    case BundleElement(time, elements) =>
      var framed :- Framed(elements, g, float32);
      AlignedSum(16, |framed|);
      Ok(BundleHead + TimetagAtomic.Encoded(time) + framed)
  }

  /** Each element as the int32 size of its packed bytes followed by those bytes,
      in order; the first element that fails to pack decides the error. */
  function Framed(elements: seq<Element>, g: Guard, float32: Num -> Messages.Word): (r: Result<seq<Byte>>)
    ensures r.Ok? ==> |r.value| % 4 == 0
    decreases elements, 0
  {
    if |elements| == 0 then Ok([])
    else
      var p :- ElementPacked(elements[0], g, float32);
      IntOfInt(|p|);
      var size :- Int32Atomic.Packed(Int(|p|), 0, g);
      var rest :- Framed(elements[1..], g, float32);
      AlignedSum(4, |p|);
      AlignedSum(4 + |p|, |rest|);
      Ok(size + p + rest)
  }

  /** The first element of a framed list: its size word and bytes, then the rest. */
  lemma FramedFront(elements: seq<Element>, g: Guard, float32: Num -> Messages.Word, p: seq<Byte>, size: seq<Byte>)
    requires |elements| > 0 && ElementPacked(elements[0], g, float32) == Ok(p)
    requires IsInt(Int(|p|)) && Int32Atomic.Packed(Int(|p|), 0, g) == Ok(size)
    ensures Framed(elements, g, float32) == Messages.Append(size + p, Framed(elements[1..], g, float32))
  {
  }

  // ---------------------------------------------------------------------------
  // Unpacking

  /** How a bundle reads its elements. `WholeView` is `unpack` as written: the
      int32 size before each element is read and ignored, and the element is
      read from the whole view, so a nested bundle reads elements up to the
      view's end. `BySize` reads each element from the `size` bytes after its
      size word only, and goes on after them. */
  datatype Framing = WholeView | BySize

  /** What `unpack` stores: the element read and the offset past it. */
  datatype Unpacked = Unpacked(element: Element, offset: int)

  /** `Packet.unpack(view, offset)`: the view's length must be a multiple of
      four; the OSC-string at `offset` tells a bundle ("#bundle") from a message. */
  function PacketUnpacked(view: seq<Byte>, offset: int, reading: Messages.Reading, framing: Framing,
                          fromFloat32: Messages.Word -> Num): (r: Result<Unpacked>)
    requires |view| + 3 <= MaxPadInput
    ensures r.Ok? ==> offset < r.value.offset && Messages.Reachable(view, r.value.offset)
    ensures r.Ok? && r.value.element.BundleElement? ==> |view| <= r.value.offset
    ensures r.Ok? && framing.WholeView? && r.value.element.BundleElement? ==> MessagesBeforeLast(r.value.element.elements)
    decreases |view| - offset, 3
  {
    if |view| % 4 != 0 then Err(LengthError)
    else
      var head :- StringAtomic.Decoded(view, offset);
      if head.0 == BundleTag then BundleUnpacked(view, offset, reading, framing, fromFloat32)
      else
        var m :- Messages.MessageUnpacked(view, offset, reading, fromFloat32);
        Messages.MessageAdvances(view, offset, reading, fromFloat32);
        Ok(Unpacked(MessageElement(m.address, m.types, m.args), m.offset))
  }

  /** Every element but the last is a message. */
  predicate MessagesBeforeLast(elements: seq<Element>) {
    forall i :: 0 <= i < |elements| - 1 ==> elements[i].MessageElement?
  }

  /** `Bundle.unpack(view, offset)`: the head must be "#bundle"; then the time
      tag, then elements until the offset reaches the end of the view. */
  function BundleUnpacked(view: seq<Byte>, offset: int, reading: Messages.Reading, framing: Framing,
                          fromFloat32: Messages.Word -> Num): (r: Result<Unpacked>)
    requires |view| + 3 <= MaxPadInput
    ensures r.Ok? ==> r.value.element.BundleElement?
    ensures r.Ok? ==> offset < r.value.offset && |view| <= r.value.offset && Messages.Reachable(view, r.value.offset)
    ensures r.Ok? && framing.WholeView? ==> MessagesBeforeLast(r.value.element.elements)
    decreases |view| - offset, 2
  {
    var head :- StringAtomic.Decoded(view, offset);
    if head.0 != BundleTag then Err(HeadError)
    else
      Messages.StringForward(view, offset);
      var time :- TimetagAtomic.Decoded(view, head.1);
      var elements :- ElementsFrom(view, time.1, reading, framing, fromFloat32);
      Ok(Unpacked(BundleElement(time.0, elements.0), elements.1))
  }

  /** The element loop of `Bundle.unpack` from `offset` on: one element at a
      time while the offset is inside the view. Read against the whole view,
      every element but the last is a message. */
  function ElementsFrom(view: seq<Byte>, offset: int, reading: Messages.Reading, framing: Framing,
                        fromFloat32: Messages.Word -> Num): (r: Result<(seq<Element>, int)>)
    requires |view| + 3 <= MaxPadInput && Messages.Reachable(view, offset)
    ensures r.Ok? ==> offset <= r.value.1 && |view| <= r.value.1 && Messages.Reachable(view, r.value.1)
    ensures r.Ok? && framing.WholeView? ==> MessagesBeforeLast(r.value.0)
    decreases |view| - offset, 1
  {
    if offset >= |view| then Ok(([], offset))
    else
      var p :- ElementAt(view, offset, reading, framing, fromFloat32);
      var rest :- ElementsFrom(view, p.offset, reading, framing, fromFloat32);
      Ok(([p.element] + rest.0, rest.1))
  }

  /** The elements the loop of `Bundle.unpack` has pushed when it stops at
      `offset` or later: all of them when the loop ends, and those before the
      element that throws otherwise. */
  function ElementsPushed(view: seq<Byte>, offset: int, reading: Messages.Reading, framing: Framing,
                          fromFloat32: Messages.Word -> Num): (r: seq<Element>)
    requires |view| + 3 <= MaxPadInput && Messages.Reachable(view, offset)
    ensures ElementsFrom(view, offset, reading, framing, fromFloat32).Ok? ==> r == ElementsFrom(view, offset, reading, framing, fromFloat32).value.0
    ensures ElementsFrom(view, offset, reading, framing, fromFloat32).Err? ==> |r| < |view| - offset
    decreases |view| - offset
  {
    if offset >= |view| then []
    else match ElementAt(view, offset, reading, framing, fromFloat32)
      case Err(_) => []
      case Ok(p) => [p.element] + ElementsPushed(view, p.offset, reading, framing, fromFloat32)
  }

  /** The `bundleElements` a Bundle holds after `unpack(view, offset)`, given
      the list `before` it held: the list is emptied only once the head and the
      time tag are read, so a throw before that keeps `before`, and a throw in
      the element loop keeps the elements pushed so far. */
  function ElementsAfterUnpack(view: seq<Byte>, offset: int, reading: Messages.Reading, framing: Framing,
                               fromFloat32: Messages.Word -> Num, before: seq<Element>): (r: seq<Element>)
    requires |view| + 3 <= MaxPadInput
    ensures BundleUnpacked(view, offset, reading, framing, fromFloat32).Ok? ==> r == BundleUnpacked(view, offset, reading, framing, fromFloat32).value.element.elements
    ensures StringAtomic.Decoded(view, offset).Err? ==> r == before
    ensures StringAtomic.Decoded(view, offset).Ok? && StringAtomic.Decoded(view, offset).value.0 != BundleTag ==> r == before
  {
    match StringAtomic.Decoded(view, offset)
    case Err(_) => before
    case Ok(head) =>
      if head.0 != BundleTag then before
      else
        Messages.StringForward(view, offset);
        match TimetagAtomic.Decoded(view, head.1)
        case Err(_) => before
        case Ok(time) => ElementsPushed(view, time.1, reading, framing, fromFloat32)
  }

  /** Once the "#bundle" head ends at `headEnd` and the time tag `time` at
      `position`, `unpack` gives what the element loop from `position` gives. */
  lemma BundleAfterHead(view: seq<Byte>, offset: int, reading: Messages.Reading, framing: Framing,
                        fromFloat32: Messages.Word -> Num, before: seq<Element>,
                        headEnd: int, time: TimetagAtomic.Time, position: int)
    requires |view| + 3 <= MaxPadInput
    requires StringAtomic.Decoded(view, offset) == Ok((BundleTag, headEnd))
    requires TimetagAtomic.Decoded(view, headEnd) == Ok((time, position))
    ensures offset < position && Messages.Reachable(view, position)
    ensures ElementsAfterUnpack(view, offset, reading, framing, fromFloat32, before)
      == ElementsPushed(view, position, reading, framing, fromFloat32)
    ensures BundleUnpacked(view, offset, reading, framing, fromFloat32)
      == match ElementsFrom(view, position, reading, framing, fromFloat32)
         case Ok(es) => Ok(Unpacked(BundleElement(time, es.0), es.1))
         case Err(e) => Err(e)
  {
    Messages.StringForward(view, offset);
  }

  /** A successful read moved to end at `end`. */
  function Ending(r: Result<Unpacked>, end: int): Result<Unpacked> {
    match r
    case Ok(p) => Ok(Unpacked(p.element, end))
    case Err(e) => Err(e)
  }

  /** One pass of the element loop at `offset`: an int32 size, then a packet
      read from the whole view (`WholeView`) or from the `size` bytes after the
      size word (`BySize`). */
  function ElementAt(view: seq<Byte>, offset: int, reading: Messages.Reading, framing: Framing,
                     fromFloat32: Messages.Word -> Num): (r: Result<Unpacked>)
    requires |view| + 3 <= MaxPadInput && 0 <= offset < |view|
    ensures r.Ok? ==> offset < r.value.offset && Messages.Reachable(view, r.value.offset)
    ensures r.Ok? && framing.WholeView? && r.value.element.BundleElement? ==> |view| <= r.value.offset
    ensures r.Ok? && framing.BySize? ==> r.value.offset <= |view|
    decreases |view| - offset, 0
  {
    var size :- Int32Atomic.Unpacked(view, offset);
    match framing
    case WholeView =>
      PacketUnpacked(view, size.1, reading, framing, fromFloat32)
    case BySize =>
      SizedElement(view, size.1, size.0, reading, fromFloat32)
  }

  /** The element of `n` bytes from `after` on, read from those bytes alone; they
      must lie inside the view. */
  function SizedElement(view: seq<Byte>, after: int, n: int, reading: Messages.Reading,
                        fromFloat32: Messages.Word -> Num): (r: Result<Unpacked>)
    requires |view| + 3 <= MaxPadInput && 0 <= after
    ensures r.Ok? ==> r.value.offset == after + n && after < r.value.offset <= |view|
    decreases |view| - after + 1, 0
  {
    if n < 0 || after + n > |view| then Err(RangeError)
    else Ending(PacketUnpacked(view[..after + n], after, reading, BySize, fromFloat32), after + n)
  }

  /** `ElementAt` read against the whole view, once the size word ending at
      `after` is read. */
  lemma ElementAtWhole(view: seq<Byte>, offset: int, reading: Messages.Reading,
                       fromFloat32: Messages.Word -> Num, n: int, after: int)
    requires |view| + 3 <= MaxPadInput && 0 <= offset < |view|
    requires Int32Atomic.Unpacked(view, offset) == Ok((n, after))
    ensures ElementAt(view, offset, reading, WholeView, fromFloat32) == PacketUnpacked(view, after, reading, WholeView, fromFloat32)
  {
  }

  /** `ElementAt` read by size, once the size word `n` ending at `after` is read. */
  lemma ElementAtSized(view: seq<Byte>, offset: int, reading: Messages.Reading,
                       fromFloat32: Messages.Word -> Num, n: int, after: int)
    requires |view| + 3 <= MaxPadInput && 0 <= offset < |view|
    requires Int32Atomic.Unpacked(view, offset) == Ok((n, after))
    ensures ElementAt(view, offset, reading, BySize, fromFloat32) == SizedElement(view, after, n, reading, fromFloat32)
  {
  }

  /** The element loop takes one element and goes on where it ends. */
  lemma ElementsFromStep(view: seq<Byte>, offset: int, reading: Messages.Reading, framing: Framing,
                         fromFloat32: Messages.Word -> Num, u: Unpacked)
    requires |view| + 3 <= MaxPadInput && 0 <= offset < |view|
    requires ElementAt(view, offset, reading, framing, fromFloat32) == Ok(u)
    ensures Messages.Reachable(view, u.offset)
    ensures ElementsFrom(view, offset, reading, framing, fromFloat32)
      == Prepend([u.element], ElementsFrom(view, u.offset, reading, framing, fromFloat32))
  {
  }

  /** Puts `es` in front of the elements of a successful read. */
  function Prepend(es: seq<Element>, r: Result<(seq<Element>, int)>): Result<(seq<Element>, int)> {
    match r
    case Ok(v) => Ok((es + v.0, v.1))
    case Err(e) => Err(e)
  }

  lemma PrependEmpty(r: Result<(seq<Element>, int)>)
    ensures Prepend([], r) == r
  {
    if r.Ok? {
      assert [] + r.value.0 == r.value.0;
    }
  }

  /** Moving one element from the unread part to the pushed part. */
  lemma PushedStep(done: seq<Element>, e: Element, rest: seq<Element>)
    ensures done + ([e] + rest) == (done + [e]) + rest
  {
  }

  lemma PrependTwice(a: seq<Element>, b: seq<Element>, r: Result<(seq<Element>, int)>)
    ensures Prepend(a, Prepend(b, r)) == Prepend(a + b, r)
  {
    if r.Ok? {
      assert a + (b + r.value.0) == a + b + r.value.0;
    }
  }

  // ---------------------------------------------------------------------------
  // Construction

  /** What the Bundle constructor, `add` and the Packet constructor receive: a
      Message or a Bundle (by its contents), an Array of arguments, or any other
      value. */
  datatype Arg = Content(e: Element) | List(items: seq<Arg>) | Other(v: Value)

  predicate IsDateArg(a: Arg) {
    a.Other? && a.v.Date?
  }

  predicate IsIntArg(a: Arg) {
    a.Other? && IsInt(a.v)
  }

  /** `items.forEach(item => this.add(item))`: every item must be a Message or a
      Bundle, and the first that is not throws. */
  function Added(items: seq<Arg>): (r: Result<seq<Element>>)
    ensures r.Ok? <==> forall i :: 0 <= i < |items| ==> items[i].Content?
    ensures r.Err? ==> r.error == AddError
    ensures r.Ok? ==> |r.value| == |items| && forall i :: 0 <= i < |items| ==> r.value[i] == items[i].e
  {
    if |items| == 0 then Ok([])
    else if !items[0].Content? then Err(AddError)
    else
      var rest :- Added(items[1..]);
      assert forall i :: 1 <= i < |items| ==> items[i] == items[1..][i - 1];
      Ok([items[0].e] + rest)
  }

  /** Which argument the constructor's second time test looks at. As written it
      tests `isInt(args[0])`, which is an Array at that point and never an
      integer; `TestsSecond` tests `args[1]`, the argument it then builds the
      time tag from. */
  datatype SecondTest = TestsFirst | TestsSecond

  /** The time tag and elements of a new bundle. */
  datatype Construction = Construction(time: TimetagAtomic.Time, elements: seq<Element>)

  /** `new Bundle(...args)` at time `now` (milliseconds since 1970): no argument
      stamps `now`; a Date or an integer first sets the time tag; an Array first
      adds its items, and a Date or (by `test`) an integer second sets the time
      tag; otherwise every argument is added. */
  function Constructed(args: seq<Arg>, now: int, test: SecondTest): (r: Result<Construction>)
    ensures r.Err? ==> r == Err(AddError)
    ensures r.Ok? && (|args| == 0 || !args[0].List?) ==> r.value.elements == [] || Added(args) == Ok(r.value.elements)
  {
    var start := TimetagAtomic.FromMilliseconds(now);
    if |args| == 0 then Ok(Construction(start, []))
    else if IsDateArg(args[0]) || IsIntArg(args[0]) then
      Ok(Construction(TimetagAtomic.BrowserDefault(args[0].v, now), []))
    else if args[0].List? then
      var elements :- Added(args[0].items);
      if |args| > 1 && (IsDateArg(args[1]) || IsIntArg(if test.TestsFirst? then args[0] else args[1])) then
        Ok(Construction(TimetagAtomic.BrowserDefault(args[1].v, now), elements))
      else Ok(Construction(start, elements))
    else
      var elements :- Added(args);
      Ok(Construction(start, elements))
  }

  /** The items of an Array argument holding exactly `elements`. */
  function Contents(elements: seq<Element>): (r: seq<Arg>)
    ensures |r| == |elements| && forall i :: 0 <= i < |r| ==> r[i] == Content(elements[i])
  {
    seq(|elements|, i requires 0 <= i < |elements| => Content(elements[i]))
  }

  lemma AddedContents(elements: seq<Element>)
    ensures Added(Contents(elements)) == Ok(elements)
  {
    var r := Added(Contents(elements));
    assert r.Ok? && |r.value| == |elements|;
    assert forall i :: 0 <= i < |elements| ==> r.value[i] == elements[i];
    assert r.value == elements;
  }

  /** With no argument the bundle is empty and stamped with the current time. */
  lemma ConstructedEmpty(now: int, test: SecondTest)
    ensures Constructed([], now, test) == Ok(Construction(TimetagAtomic.FromMilliseconds(now), []))
  {
  }

  /** Messages and bundles passed directly are added in order, with the current time. */
  lemma ConstructedFromElements(elements: seq<Element>, now: int, test: SecondTest)
    requires |elements| > 0
    ensures Constructed(Contents(elements), now, test) == Ok(Construction(TimetagAtomic.FromMilliseconds(now), elements))
  {
    AddedContents(elements);
  }

  /** A Date or an integer first sets the time tag, and every other argument is ignored. */
  lemma ConstructedFromTime(v: Value, rest: seq<Arg>, now: int, test: SecondTest)
    requires v.Date? || IsInt(v)
    ensures Constructed([Other(v)] + rest, now, test)
      == Ok(Construction(TimetagAtomic.FromMilliseconds(if v.Date? then v.time else IntOf(v)), []))
  {
    assert ([Other(v)] + rest)[0] == Other(v);
  }

  /** An Array first and a Date second: the Array's items, stamped with the Date. */
  lemma ConstructedWithDate(elements: seq<Element>, date: int, now: int, test: SecondTest)
    ensures Constructed([List(Contents(elements)), Other(Date(date))], now, test)
      == Ok(Construction(TimetagAtomic.FromMilliseconds(date), elements))
  {
    AddedContents(elements);
  }

  /** As written, an integer after an Array is ignored: the bundle keeps the
      current time instead of the time the integer gives. */
  lemma SecondIntegerIgnored(elements: seq<Element>, ms: int, now: int)
    ensures Constructed([List(Contents(elements)), Other(Int(ms))], now, TestsFirst)
      == Ok(Construction(TimetagAtomic.FromMilliseconds(now), elements))
    ensures ms / 1000 != now / 1000 ==>
      Constructed([List(Contents(elements)), Other(Int(ms))], now, TestsFirst).value.time != TimetagAtomic.FromMilliseconds(ms)
  {
    AddedContents(elements);
  }

  /** Testing the second argument, an integer after an Array sets the time tag. */
  lemma SecondIntegerSetsTime(elements: seq<Element>, ms: int, now: int)
    ensures Constructed([List(Contents(elements)), Other(Int(ms))], now, TestsSecond)
      == Ok(Construction(TimetagAtomic.FromMilliseconds(ms), elements))
  {
    AddedContents(elements);
    IntOfInt(ms);
  }

  /** A value that is neither a Message nor a Bundle, among the arguments or
      the first Array's items, makes construction fail. */
  lemma ConstructedRejects(args: seq<Arg>, now: int, test: SecondTest, i: int)
    requires 0 < |args| && !IsDateArg(args[0]) && !IsIntArg(args[0])
    requires if args[0].List? then 0 <= i < |args[0].items| && !args[0].items[i].Content?
             else 0 <= i < |args| && !args[i].Content?
    ensures Constructed(args, now, test) == Err(AddError)
  {
  }

  // ---------------------------------------------------------------------------
  // The Bundle and Packet classes

  /** `pack` of a bundle element: a Message or a Bundle object with its contents. */
  method PackElement(e: Element, g: Guard, float32: Num -> Messages.Word) returns (r: Result<seq<Byte>>)
    ensures r == ElementPacked(e, g, float32)
    decreases e, 2
  {
    match e
    case MessageElement(address, types, args) =>
      var m := new Messages.Message();
      m.address, m.types, m.args := address, types, args;
      r := m.Pack(g, float32);
    case BundleElement(time, elements) =>
      var b := new Bundle(time, elements);
      r := b.Pack(g, float32);
  }

  /** `encoder.add(new AtomicInt32(size))` then `encoder.add(item)`, on an
      encoder holding `start + done`. */
  method AddFramed(encoder: EncodeHelper, ghost start: seq<Byte>, ghost done: seq<Byte>, size: seq<Byte>, item: seq<Byte>)
    requires encoder.Valid() && Concat(encoder.data) == start + done
    modifies encoder
    ensures encoder.Valid()
    ensures Concat(encoder.data) == start + (done + (size + item))
  {
    var _ := encoder.AddPacked(Ok(size));
    ConcatSnoc(old(encoder.data), size);
    var before := encoder.data;
    var _ := encoder.AddPacked(Ok(item));
    ConcatSnoc(before, item);
    assert start + done + size + item == start + (done + (size + item));
  }

  /** The element loop of `Bundle.pack`: for each element, `encoder.add` of an
      `AtomicInt32` holding its byte length, then of the element itself. */
  method AddElements(encoder: EncodeHelper, elements: seq<Element>, g: Guard, float32: Num -> Messages.Word) returns (r: Result<()>)
    requires encoder.Valid()
    modifies encoder
    ensures encoder.Valid()
    ensures r.Ok? <==> Framed(elements, g, float32).Ok?
    ensures r.Err? ==> r.error == Framed(elements, g, float32).error
    ensures r.Ok? ==> Concat(encoder.data) == old(Concat(encoder.data)) + Framed(elements, g, float32).value
    decreases elements
  {
    ghost var start := Concat(encoder.data);
    ghost var done: seq<Byte> := [];
    assert elements[0..] == elements;
    assert start + [] == start;
    Messages.AppendEmpty(Framed(elements, g, float32));
    for i := 0 to |elements|
      invariant encoder.Valid()
      invariant Concat(encoder.data) == start + done
      invariant Framed(elements, g, float32) == Messages.Append(done, Framed(elements[i..], g, float32))
    {
      assert elements[i..][0] == elements[i] && elements[i..][1..] == elements[i + 1..];
      var item := PackElement(elements[i], g, float32);
      if item.Err? {
        return Err(item.error);
      }
      IntOfInt(|item.value|);
      var size := new Int32Atomic.AtomicInt32(Int(|item.value|));
      var sizePacked := size.Pack(g);
      if sizePacked.Err? {
        return Err(sizePacked.error);
      }
      AddFramed(encoder, start, done, sizePacked.value, item.value);
      FramedFront(elements[i..], g, float32, item.value, sizePacked.value);
      Messages.AppendTwice(done, sizePacked.value + item.value, Framed(elements[i + 1..], g, float32));
      done := done + (sizePacked.value + item.value);
    }
    assert elements[|elements|..] == [];
    assert done + [] == done;
    r := Ok(());
  }

  class Bundle {
    var offset: int
    var timetag: TimetagAtomic.Time
    var bundleElements: seq<Element>

    constructor (time: TimetagAtomic.Time, elements: seq<Element>)
      ensures offset == 0 && timetag == time && bundleElements == elements
    {
      offset := 0;
      timetag := time;
      bundleElements := elements;
    }

    /** `new Bundle(...args)`; `now` stands for `Date.now()`. */
    static method Create(args: seq<Arg>, now: int, test: SecondTest) returns (r: Result<Bundle>)
      ensures match Constructed(args, now, test)
        case Ok(c) => r.Ok? && fresh(r.value) && r.value.offset == 0
          && r.value.timetag == c.time && r.value.bundleElements == c.elements
        case Err(e) => r == Err(e)
    {
      var stamp := TimetagAtomic.AtomicTimetag.CreateBrowser(null, Undefined, now);
      var b := new Bundle(stamp.value.Tag(), []);
      if |args| > 0 {
        if IsDateArg(args[0]) || IsIntArg(args[0]) {
          stamp := TimetagAtomic.AtomicTimetag.CreateBrowser(null, args[0].v, now);
          b.timetag := stamp.value.Tag();
        } else if args[0].List? {
          var _ :- b.AddAll(args[0].items);
          if |args| > 1 && (IsDateArg(args[1]) || IsIntArg(if test.TestsFirst? then args[0] else args[1])) {
            stamp := TimetagAtomic.AtomicTimetag.CreateBrowser(null, args[1].v, now);
            b.timetag := stamp.value.Tag();
          }
        } else {
          var _ :- b.AddAll(args);
        }
      }
      r := Ok(b);
    }

    /** `add(item)`: only a Message or a Bundle is appended. */
    method Add(item: Arg) returns (r: Result<()>)
      modifies this
      ensures item.Content? ==> r.Ok? && bundleElements == old(bundleElements) + [item.e]
      ensures !item.Content? ==> r == Err(AddError) && bundleElements == old(bundleElements)
      ensures offset == old(offset) && timetag == old(timetag)
    {
      if !item.Content? {
        return Err(AddError);
      }
      bundleElements := bundleElements + [item.e];
      r := Ok(());
    }

    /** `items.forEach(item => this.add(item))`: the items up to the first that
        is refused are appended. */
    method AddAll(items: seq<Arg>) returns (r: Result<()>)
      modifies this
      ensures match Added(items)
        case Ok(es) => r.Ok? && bundleElements == old(bundleElements) + es
        case Err(e) => r == Err(e)
      ensures offset == old(offset) && timetag == old(timetag)
    {
      ghost var start := bundleElements;
      for i := 0 to |items|
        invariant forall j :: 0 <= j < i ==> items[j].Content?
        invariant |bundleElements| == |start| + i && bundleElements[..|start|] == start
        invariant forall j :: 0 <= j < i ==> bundleElements[|start| + j] == items[j].e
        invariant offset == old(offset) && timetag == old(timetag)
      {
        var _ :- Add(items[i]);
      }
      assert bundleElements == start + Added(items).value;
      r := Ok(());
    }

    /** `timestamp(ms)`: an integer sets the time tag from milliseconds since 1970. */
    method Timestamp(ms: Value) returns (r: Result<()>)
      modifies this
      ensures IsInt(ms) ==> r.Ok? && timetag == TimetagAtomic.FromMilliseconds(IntOf(ms))
      ensures !IsInt(ms) ==> r == Err(TimestampError) && timetag == old(timetag)
      ensures offset == old(offset) && bundleElements == old(bundleElements)
    {
      if !IsInt(ms) {
        return Err(TimestampError);
      }
      var tag := new TimetagAtomic.Timetag(0, 0);
      var _ := tag.SetTimestamp(IntOf(ms));
      timetag := tag.Tag();
      r := Ok(());
    }

    /** `pack`: "#bundle" and the time tag, then for each element its int32 size
        and its bytes, added to an `EncodeHelper` and merged. */
    method Pack(g: Guard, float32: Num -> Messages.Word) returns (r: Result<seq<Byte>>)
      ensures r == ElementPacked(BundleElement(timetag, bundleElements), g, float32)
      decreases BundleElement(timetag, bundleElements), 1
    {
      var encoder := new EncodeHelper();
      var head := new StringAtomic.AtomicString(Str(BundleTag));
      var packed := head.Pack(g);
      BundleHeadBytes();
      var _ := encoder.AddPacked(packed);
      var tag := new TimetagAtomic.Timetag(timetag.seconds, timetag.fractions);
      var stamp := new TimetagAtomic.AtomicTimetag(tag);
      packed := stamp.Pack();
      ConcatSingle(BundleHead);
      ConcatSnoc([BundleHead], packed.value);
      var _ := encoder.AddPacked(packed);
      var _ :- AddElements(encoder, bundleElements, g, float32);
      var merged := encoder.Merge();
      r := Ok(merged);
    }

    /** `unpack(view, initialOffset)`: the "#bundle" head, the time tag, then a
        size and a packet while the offset is inside the view. The time tag and
        the offset are stored only at the end. */
    method Unpack(view: seq<Byte>, initialOffset: int, reading: Messages.Reading, framing: Framing,
                  fromFloat32: Messages.Word -> Num) returns (r: Result<int>)
      requires |view| + 3 <= MaxPadInput
      modifies this
      ensures match BundleUnpacked(view, initialOffset, reading, framing, fromFloat32)
        case Ok(u) => r == Ok(u.offset) && offset == u.offset && u.element == BundleElement(timetag, bundleElements)
        case Err(e) => r == Err(e) && offset == old(offset) && timetag == old(timetag)
      ensures bundleElements == ElementsAfterUnpack(view, initialOffset, reading, framing, fromFloat32, old(bundleElements))
      decreases |view| - initialOffset, 2
    {
      var head := new StringAtomic.AtomicString(Undefined);
      var headEnd :- head.Unpack(view, initialOffset);
      if head.value != Str(BundleTag) {
        return Err(HeadError);
      }
      Messages.StringForward(view, initialOffset);
      var stamp := new TimetagAtomic.AtomicTimetag(null);
      var position :- stamp.Unpack(view, headEnd);
      var time := stamp.value.Tag();
      BundleAfterHead(view, initialOffset, reading, framing, fromFloat32, old(bundleElements), headEnd, time, position);
      var end :- PushElements(view, position, reading, framing, fromFloat32);
      offset := end;
      timetag := time;
      r := Ok(offset);
    }

    /** The element loop of `unpack` from `start`: `bundleElements` is emptied,
        then a size and a packet are read and the packet pushed while the
        offset is inside the view. A throw keeps what was pushed so far. */
    method PushElements(view: seq<Byte>, start: int, reading: Messages.Reading, framing: Framing,
                        fromFloat32: Messages.Word -> Num) returns (r: Result<int>)
      requires |view| + 3 <= MaxPadInput && Messages.Reachable(view, start)
      modifies this
      ensures match ElementsFrom(view, start, reading, framing, fromFloat32)
        case Ok(es) => r == Ok(es.1) && bundleElements == es.0
        case Err(e) => r == Err(e)
      ensures bundleElements == ElementsPushed(view, start, reading, framing, fromFloat32)
      ensures offset == old(offset) && timetag == old(timetag)
      decreases |view| - start, 2
    {
      var position := start;
      ghost var pushed := ElementsPushed(view, start, reading, framing, fromFloat32);
      bundleElements := [];
      PrependEmpty(ElementsFrom(view, start, reading, framing, fromFloat32));
      while position < |view|
        invariant Messages.Reachable(view, position) && start <= position
        invariant ElementsFrom(view, start, reading, framing, fromFloat32)
          == Prepend(bundleElements, ElementsFrom(view, position, reading, framing, fromFloat32))
        invariant pushed == bundleElements + ElementsPushed(view, position, reading, framing, fromFloat32)
        invariant offset == old(offset) && timetag == old(timetag)
        decreases |view| - position
      {
        var element := ReadElement(view, position, reading, framing, fromFloat32);
        if element.Err? {
          assert ElementsPushed(view, position, reading, framing, fromFloat32) == [];
          assert bundleElements + [] == bundleElements;
          return Err(element.error);
        }
        ElementsFromStep(view, position, reading, framing, fromFloat32, element.value);
        PrependTwice(bundleElements, [element.value.element], ElementsFrom(view, element.value.offset, reading, framing, fromFloat32));
        PushedStep(bundleElements, element.value.element, ElementsPushed(view, element.value.offset, reading, framing, fromFloat32));
        bundleElements := bundleElements + [element.value.element];
        position := element.value.offset;
      }
      assert bundleElements + [] == bundleElements;
      r := Ok(position);
    }
  }

  /** The body of the element loop of `Bundle.unpack`: a fresh `AtomicInt32`
      reads the size, a fresh `Packet` the element. */
  method ReadElement(view: seq<Byte>, position: int, reading: Messages.Reading, framing: Framing,
                     fromFloat32: Messages.Word -> Num) returns (r: Result<Unpacked>)
    requires |view| + 3 <= MaxPadInput && 0 <= position < |view|
    ensures r == ElementAt(view, position, reading, framing, fromFloat32)
    decreases |view| - position, 1
  {
    var size := new Int32Atomic.AtomicInt32(Undefined);
    var afterSize :- size.Unpack(view, position);
    IntOfInt(Int32Atomic.Unpacked(view, position).value.0);
    var n := IntOf(size.value);
    if framing.WholeView? {
      ElementAtWhole(view, position, reading, fromFloat32, n, afterSize);
      r := ReadWhole(view, afterSize, reading, fromFloat32);
    } else {
      ElementAtSized(view, position, reading, fromFloat32, n, afterSize);
      r := ReadSized(view, afterSize, n, reading, fromFloat32);
    }
  }

  /** The element after its size word, read as a packet against the whole view. */
  method ReadWhole(view: seq<Byte>, after: int, reading: Messages.Reading,
                   fromFloat32: Messages.Word -> Num) returns (r: Result<Unpacked>)
    requires |view| + 3 <= MaxPadInput
    ensures r == PacketUnpacked(view, after, reading, WholeView, fromFloat32)
    decreases |view| - after, 4
  {
    var packet := new Packet();
    var read := packet.Unpack(view, after, reading, WholeView, fromFloat32);
    if read.Err? {
      return Err(read.error);
    }
    r := Ok(Unpacked(packet.value.value, read.value));
  }

  /** The element after its size word, read as a packet from the view cut
      `n` bytes further on. */
  method ReadSized(view: seq<Byte>, after: int, n: int, reading: Messages.Reading,
                   fromFloat32: Messages.Word -> Num) returns (r: Result<Unpacked>)
    requires |view| + 3 <= MaxPadInput && 0 <= after
    ensures r == SizedElement(view, after, n, reading, fromFloat32)
    decreases |view| - after + 1, 4
  {
    var end := after + n;
    if n < 0 || end > |view| {
      return Err(RangeError);
    }
    var packet := new Packet();
    var read := packet.Unpack(view[..end], after, reading, BySize, fromFloat32);
    if read.Err? {
      return Err(read.error);
    }
    r := Ok(Unpacked(packet.value.value, end));
  }

  class Packet {
    var value: Option<Element>
    var offset: int

    constructor ()
      ensures value.None? && offset == 0
    {
      value := None;
      offset := 0;
    }

    /** `new Packet(value)`: a truthy value must be a Message or a Bundle. */
    static method Create(arg: Arg) returns (r: Result<Packet>)
      ensures arg.Content? ==> r.Ok? && fresh(r.value) && r.value.value == Some(arg.e) && r.value.offset == 0
      ensures arg.Other? && !Truthy(arg.v) ==> r.Ok? && fresh(r.value) && r.value.value.None? && r.value.offset == 0
      ensures arg.List? || (arg.Other? && Truthy(arg.v)) ==> r == Err(PacketValueError)
    {
      if arg.List? || (arg.Other? && Truthy(arg.v)) {
        return Err(PacketValueError);
      }
      var p := new Packet();
      if arg.Content? {
        p.value := Some(arg.e);
      }
      r := Ok(p);
    }

    /** `pack`: the value's bytes; an empty packet throws. */
    method Pack(g: Guard, float32: Num -> Messages.Word) returns (r: Result<seq<Byte>>)
      ensures value.None? ==> r == Err(EmptyBody)
      ensures value.Some? ==> r == ElementPacked(value.value, g, float32)
    {
      if value.None? {
        return Err(EmptyBody);
      }
      r := PackElement(value.value, g, float32);
    }

    /** `unpack(view, initialOffset)`: checks the view's length, reads the head
        and lets a new Bundle or Message unpack from the same offset. */
    method Unpack(view: seq<Byte>, initialOffset: int, reading: Messages.Reading, framing: Framing,
                  fromFloat32: Messages.Word -> Num) returns (r: Result<int>)
      requires |view| + 3 <= MaxPadInput
      modifies this
      ensures match PacketUnpacked(view, initialOffset, reading, framing, fromFloat32)
        case Ok(u) => r == Ok(u.offset) && offset == u.offset && value == Some(u.element)
        case Err(e) => r == Err(e) && offset == old(offset) && value == old(value)
      decreases |view| - initialOffset, 3
    {
      if |view| % 4 != 0 {
        return Err(LengthError);
      }
      var head := new StringAtomic.AtomicString(Undefined);
      var _ :- head.Unpack(view, initialOffset);
      if head.value == Str(BundleTag) {
        // `new Bundle()` stamps the current time, which a successful unpack replaces.
        var item := new Bundle(TimetagAtomic.Time(0, 0), []);
        var _ :- item.Unpack(view, initialOffset, reading, framing, fromFloat32);
        offset := item.offset;
        value := Some(BundleElement(item.timetag, item.bundleElements));
      } else {
        var item := new Messages.Message();
        var _ :- item.Unpack(view, initialOffset, reading, fromFloat32);
        Messages.MessageAdvances(view, initialOffset, reading, fromFloat32);
        offset := item.offset;
        value := Some(MessageElement(item.address, item.types, item.args));
      }
      r := Ok(offset);
    }
  }

  // ---------------------------------------------------------------------------
  // Round trips

  /** What `unpack` gives back for a packed element: a message's type string
      gains its ','. */
  function AsRead(e: Element): (r: Element)
    ensures r.BundleElement? <==> e.BundleElement?
    decreases e
  {
    match e
    case MessageElement(address, types, args) => MessageElement(address, "," + types, args)
    case BundleElement(time, elements) =>
      BundleElement(time, seq(|elements|, i requires 0 <= i < |elements| => AsRead(elements[i])))
  }

  function AllAsRead(elements: seq<Element>): (r: seq<Element>)
    ensures |r| == |elements|
  {
    seq(|elements|, i requires 0 <= i < |elements| => AsRead(elements[i]))
  }

  lemma AllAsReadCons(elements: seq<Element>)
    requires |elements| > 0
    ensures AllAsRead(elements) == [AsRead(elements[0])] + AllAsRead(elements[1..])
  {
    assert AllAsRead(elements)[1..] == AllAsRead(elements[1..]);
  }

  /** The elements whose packing is read back unchanged: messages with plain
      addresses and restorable arguments tagged by `types`, and bundles whose
      time words lie in the unsigned 32-bit range `unpack` reads. */
  predicate Restorable(e: Element, g: Guard)
    decreases e
  {
    match e
    case MessageElement(address, types, args) =>
      && StringAtomic.Plain(address) && |address| + 1 <= MaxPadInput
      && Messages.AllRestorable(args, g) && Messages.Tags(Basic, args) == Ok(types) && |types| + 2 <= MaxPadInput
    case BundleElement(time, elements) =>
      && 0 <= time.seconds < TimetagAtomic.TwoPower32 && 0 <= time.fractions < TimetagAtomic.TwoPower32
      && forall i :: 0 <= i < |elements| ==> Restorable(elements[i], g)
  }

  /** No bundle inside `e` is followed by another element of its enclosing
      bundle: the shape that reading against the whole view gets back. */
  predicate NestedLast(e: Element)
    decreases e
  {
    match e
    case MessageElement(_, _, _) => true
    case BundleElement(_, elements) =>
      forall i :: 0 <= i < |elements| ==> NestedLast(elements[i]) && (elements[i].BundleElement? ==> i == |elements| - 1)
  }

  /** The size word in front of an element is read back as its length. */
  lemma SizeRead(view: seq<Byte>, o: int, p: seq<Byte>, size: seq<Byte>, g: Guard)
    requires IsInt(Int(|p|)) && Int32Atomic.Packed(Int(|p|), 0, g) == Ok(size)
    requires HoldsAt(view, o, size) && |p| <= |view| <= MaxPadInput
    ensures Int32Atomic.Unpacked(view, o) == Ok((|p|, o + 4))
  {
    Pow256Values();
    assert size == ToBigEndian(|p|, 4);
    WordRoundTrip(view, o, |p|, 4, true);
  }

  /** The bytes `elements` pack to, framed, are read back from a 4-aligned
      offset to the end of the view: by size always, and against the whole view
      when no nested bundle is followed by another element. */
  lemma {:induction false} FramedRoundTrip(view: seq<Byte>, o: int, elements: seq<Element>, framed: seq<Byte>,
                                           g: Guard, float32: Num -> Messages.Word, fromFloat32: Messages.Word -> Num,
                                           reading: Messages.Reading, framing: Framing)
    requires forall i :: 0 <= i < |elements| ==> Restorable(elements[i], g)
    requires framing.BySize? || forall i :: 0 <= i < |elements| ==> NestedLast(elements[i]) && (elements[i].BundleElement? ==> i == |elements| - 1)
    requires Framed(elements, g, float32) == Ok(framed)
    requires o % 4 == 0 && HoldsAt(view, o, framed) && o + |framed| == |view| && |view| + 3 <= MaxPadInput
    ensures ElementsFrom(view, o, reading, framing, fromFloat32) == Ok((AllAsRead(elements), |view|))
    decreases elements, 1
  {
    if |elements| > 0 {
      var p, size, rest := FramedParts(elements, g, float32, framed);
      var first, tail := elements[0], elements[1..];
      FramedShape(elements, first, tail, g, framing);
      var after := o + 4;
      var end := after + |p|;
      FrameLayout(view, o, size, p, rest, after, end);
      FramedRoundTrip(view, end, tail, rest, g, float32, fromFloat32, reading, framing);
      FramedFirst(view, o, elements, p, size, rest, g, float32, fromFloat32, reading, framing, end);
    }
  }

  /** The first element of a framed list is read, then the rest as already read
      back from where it ends. */
  lemma FramedFirst(view: seq<Byte>, o: int, elements: seq<Element>, p: seq<Byte>, size: seq<Byte>, rest: seq<Byte>,
                    g: Guard, float32: Num -> Messages.Word, fromFloat32: Messages.Word -> Num,
                    reading: Messages.Reading, framing: Framing, end: int)
    requires |elements| > 0 && Restorable(elements[0], g) && (framing.BySize? || NestedLast(elements[0]))
    requires framing.WholeView? && elements[0].BundleElement? ==> rest == []
    requires ElementPacked(elements[0], g, float32) == Ok(p) && IsInt(Int(|p|)) && Int32Atomic.Packed(Int(|p|), 0, g) == Ok(size)
    requires o % 4 == 0 && HoldsAt(view, o, size + p + rest) && o + |size + p + rest| == |view| && |view| + 3 <= MaxPadInput
    requires |rest| % 4 == 0 && end == o + 4 + |p|
    requires Messages.Reachable(view, end)
    requires ElementsFrom(view, end, reading, framing, fromFloat32) == Ok((AllAsRead(elements[1..]), |view|))
    ensures Messages.Reachable(view, o)
    ensures ElementsFrom(view, o, reading, framing, fromFloat32) == Ok((AllAsRead(elements), |view|))
    decreases elements, 0
  {
    var first := elements[0];
    var u := Unpacked(AsRead(first), end);
    FirstElementRead(view, o, first, p, size, rest, g, float32, fromFloat32, reading, framing, u);
    ElementsFromStep(view, o, reading, framing, fromFloat32, u);
    var whole := AllAsRead(elements);
    AllAsReadCons(elements);
    ElementsFromCons(view, o, reading, framing, fromFloat32, u, AllAsRead(elements[1..]), whole);
  }

  /** The parts `Framed` joins for a nonempty list: the size word, the first
      element's bytes and the framed rest. */
  lemma FramedParts(elements: seq<Element>, g: Guard, float32: Num -> Messages.Word, framed: seq<Byte>)
    returns (p: seq<Byte>, size: seq<Byte>, rest: seq<Byte>)
    requires |elements| > 0 && Framed(elements, g, float32) == Ok(framed)
    ensures ElementPacked(elements[0], g, float32) == Ok(p)
    ensures IsInt(Int(|p|)) && Int32Atomic.Packed(Int(|p|), 0, g) == Ok(size) && |size| == 4
    ensures Framed(elements[1..], g, float32) == Ok(rest)
    ensures framed == size + p + rest
  {
    p := ElementPacked(elements[0], g, float32).value;
    IntOfInt(|p|);
    size := Int32Atomic.Packed(Int(|p|), 0, g).value;
    rest := Framed(elements[1..], g, float32).value;
  }

  /** The conditions on a list of elements hold for its first element and its tail. */
  lemma FramedShape(elements: seq<Element>, first: Element, tail: seq<Element>, g: Guard, framing: Framing)
    requires |elements| > 0 && first == elements[0] && tail == elements[1..]
    requires forall i :: 0 <= i < |elements| ==> Restorable(elements[i], g)
    requires framing.BySize? || forall i :: 0 <= i < |elements| ==> NestedLast(elements[i]) && (elements[i].BundleElement? ==> i == |elements| - 1)
    ensures Restorable(first, g) && (framing.BySize? || NestedLast(first))
    ensures framing.WholeView? && first.BundleElement? ==> tail == []
    ensures forall i :: 0 <= i < |tail| ==> Restorable(tail[i], g)
    ensures framing.BySize? || forall i :: 0 <= i < |tail| ==> NestedLast(tail[i]) && (tail[i].BundleElement? ==> i == |tail| - 1)
  {
    forall i | 0 <= i < |tail|
      ensures Restorable(tail[i], g)
      ensures framing.WholeView? ==> NestedLast(tail[i]) && (tail[i].BundleElement? ==> i == |tail| - 1)
    {
      assert tail[i] == elements[i + 1];
    }
  }

  /** Where the size word, the element's bytes and the rest of a frame lie. */
  lemma FrameLayout(view: seq<Byte>, o: int, size: seq<Byte>, p: seq<Byte>, rest: seq<Byte>, after: int, end: int)
    requires |size| == 4 && |p| % 4 == 0 && |rest| % 4 == 0 && o % 4 == 0
    requires HoldsAt(view, o, size + p + rest) && o + |size + p + rest| == |view|
    requires after == o + 4 && end == after + |p|
    ensures HoldsAt(view, o, size) && HoldsAt(view, after, p) && HoldsAt(view, end, rest)
    ensures after % 4 == 0 && end % 4 == 0 && |view| % 4 == 0
    ensures 0 <= o < after <= end <= |view| && end + |rest| == |view|
  {
    HoldsAtSplit(view, o, size + p, rest);
    HoldsAtSplit(view, o, size, p);
    AlignedSum(o, 4);
    AlignedSum(after, |p|);
    AlignedSum(end, |rest|);
  }

  /** The bytes of an element, seen in the view cut where they end. */
  lemma CutLayout(view: seq<Byte>, after: int, p: seq<Byte>, end: int, sub: seq<Byte>)
    requires HoldsAt(view, after, p) && after % 4 == 0 && end % 4 == 0 && end == after + |p| && |view| + 3 <= MaxPadInput
    requires sub == view[..end]
    ensures HoldsAt(sub, after, p) && |sub| == end && |sub| % 4 == 0 && |sub| + 3 <= MaxPadInput
  {
    assert sub[after..end] == view[after..end];
  }

  /** Reading one element, then the rest to the end of the view. */
  lemma ElementsFromCons(view: seq<Byte>, o: int, reading: Messages.Reading, framing: Framing,
                         fromFloat32: Messages.Word -> Num, u: Unpacked, tail: seq<Element>, whole: seq<Element>)
    requires |view| + 3 <= MaxPadInput && Messages.Reachable(view, o) && Messages.Reachable(view, u.offset)
    requires ElementsFrom(view, o, reading, framing, fromFloat32) == Prepend([u.element], ElementsFrom(view, u.offset, reading, framing, fromFloat32))
    requires ElementsFrom(view, u.offset, reading, framing, fromFloat32) == Ok((tail, |view|))
    requires whole == [u.element] + tail
    ensures ElementsFrom(view, o, reading, framing, fromFloat32) == Ok((whole, |view|))
  {
  }

  /** The first framed element: its size word, then its packet read back and
      ending where its bytes end. */
  lemma FirstElementRead(view: seq<Byte>, o: int, e: Element, p: seq<Byte>, size: seq<Byte>, rest: seq<Byte>,
                         g: Guard, float32: Num -> Messages.Word, fromFloat32: Messages.Word -> Num,
                         reading: Messages.Reading, framing: Framing, u: Unpacked)
    requires Restorable(e, g) && (framing.BySize? || NestedLast(e))
    requires framing.WholeView? && e.BundleElement? ==> rest == []
    requires ElementPacked(e, g, float32) == Ok(p) && IsInt(Int(|p|)) && Int32Atomic.Packed(Int(|p|), 0, g) == Ok(size)
    requires o % 4 == 0 && HoldsAt(view, o, size + p + rest) && o + |size + p + rest| == |view| && |view| + 3 <= MaxPadInput
    requires |rest| % 4 == 0 && u == Unpacked(AsRead(e), o + 4 + |p|)
    ensures 0 <= o < |view|
    ensures ElementAt(view, o, reading, framing, fromFloat32) == Ok(u)
    decreases e, 2
  {
    assert |size| == 4 && |p| % 4 == 0;
    var after := o + 4;
    var end := after + |p|;
    FrameLayout(view, o, size, p, rest, after, end);
    SizeRead(view, o, p, size, g);
    if framing.WholeView? {
      ElementAtWhole(view, o, reading, fromFloat32, |p|, after);
      PacketRoundTrip(view, after, e, p, g, float32, fromFloat32, reading, framing, u);
    } else {
      ElementAtSized(view, o, reading, fromFloat32, |p|, after);
      var sub := view[..end];
      CutLayout(view, after, p, end, sub);
      PacketRoundTrip(sub, after, e, p, g, float32, fromFloat32, reading, framing, u);
      SizedElementRead(view, after, |p|, sub, reading, fromFloat32, u);
    }
  }

  /** An element read by size is its packet read from the view cut at its end. */
  lemma SizedElementRead(view: seq<Byte>, after: int, n: int, sub: seq<Byte>, reading: Messages.Reading,
                         fromFloat32: Messages.Word -> Num, u: Unpacked)
    requires |view| + 3 <= MaxPadInput && 0 <= after && 0 <= n && after + n <= |view|
    requires sub == view[..after + n]
    requires PacketUnpacked(sub, after, reading, BySize, fromFloat32) == Ok(u) && u.offset == after + n
    ensures SizedElement(view, after, n, reading, fromFloat32) == Ok(u)
  {
  }

  /** `unpack(pack(e))` gives back `e` (with ',' before each message's types) from
      a 4-aligned offset of a view of whole words; a bundle's bytes must run to
      the end of the view, which is where `unpack` stops reading elements. Read by
      size this holds for every restorable element; against the whole view, only
      when no nested bundle is followed by another element. */
  lemma {:induction false} PacketRoundTrip(view: seq<Byte>, o: int, e: Element, p: seq<Byte>,
                                           g: Guard, float32: Num -> Messages.Word, fromFloat32: Messages.Word -> Num,
                                           reading: Messages.Reading, framing: Framing, u: Unpacked)
    requires Restorable(e, g) && (framing.BySize? || NestedLast(e))
    requires ElementPacked(e, g, float32) == Ok(p)
    requires o % 4 == 0 && HoldsAt(view, o, p) && |view| % 4 == 0 && |view| + 3 <= MaxPadInput
    requires e.BundleElement? ==> o + |p| == |view|
    requires u == Unpacked(AsRead(e), o + |p|)
    ensures PacketUnpacked(view, o, reading, framing, fromFloat32) == Ok(u)
    decreases e, 1
  {
    match e
    case MessageElement(address, types, args) =>
      MessagePacketRead(view, o, address, types, args, p, g, float32, fromFloat32, reading, framing, u);
    case BundleElement(time, elements) =>
      BundlePacketRead(view, o, time, elements, p, g, float32, fromFloat32, reading, framing, u);
  }

  /** `unpack` of the bytes `pack` gives, from their start: by size every
      restorable element comes back; against the whole view, those whose
      nested bundles all come last. */
  lemma PackUnpack(e: Element, p: seq<Byte>, g: Guard, float32: Num -> Messages.Word, fromFloat32: Messages.Word -> Num,
                   reading: Messages.Reading, framing: Framing)
    requires Restorable(e, g) && (framing.BySize? || NestedLast(e))
    requires ElementPacked(e, g, float32) == Ok(p) && |p| + 3 <= MaxPadInput
    ensures PacketUnpacked(p, 0, reading, framing, fromFloat32) == Ok(Unpacked(AsRead(e), |p|))
  {
    HoldsAtWhole(p);
    var u := Unpacked(AsRead(e), |p|);
    PacketRoundTrip(p, 0, e, p, g, float32, fromFloat32, reading, framing, u);
  }

  /** Read against the whole view, a bundle one of whose elements other than
      the last is a bundle never comes back, from any bytes at all. */
  lemma NestedBundleNotRestored(view: seq<Byte>, o: int, e: Element, reading: Messages.Reading,
                                fromFloat32: Messages.Word -> Num, i: int)
    requires |view| + 3 <= MaxPadInput
    requires e.BundleElement? && 0 <= i < |e.elements| - 1 && e.elements[i].BundleElement?
    ensures PacketUnpacked(view, o, reading, WholeView, fromFloat32).Ok? ==>
      PacketUnpacked(view, o, reading, WholeView, fromFloat32).value.element != AsRead(e)
  {
    var a := AsRead(e);
    assert a.elements[i] == AsRead(e.elements[i]);
  }

  /** A packed bundle read as a packet: its head, its time tag, then its
      elements to the end of the view. */
  lemma BundlePacketRead(view: seq<Byte>, o: int, time: TimetagAtomic.Time, elements: seq<Element>, p: seq<Byte>,
                         g: Guard, float32: Num -> Messages.Word, fromFloat32: Messages.Word -> Num,
                         reading: Messages.Reading, framing: Framing, u: Unpacked)
    requires Restorable(BundleElement(time, elements), g) && (framing.BySize? || NestedLast(BundleElement(time, elements)))
    requires ElementPacked(BundleElement(time, elements), g, float32) == Ok(p)
    requires o % 4 == 0 && HoldsAt(view, o, p) && |view| % 4 == 0 && |view| + 3 <= MaxPadInput
    requires o + |p| == |view|
    requires u == Unpacked(AsRead(BundleElement(time, elements)), o + |p|)
    ensures PacketUnpacked(view, o, reading, framing, fromFloat32) == Ok(u)
    decreases BundleElement(time, elements), 0
  {
    var framed := Framed(elements, g, float32).value;
    assert p == BundleHead + TimetagAtomic.Encoded(time) + framed;
    BundleHeadRead(view, o, time, framed);
    AlignedSum(o, 16);
    FramedRoundTrip(view, o + 16, elements, framed, g, float32, fromFloat32, reading, framing);
    BundleFromParts(view, o, time, AllAsRead(elements), reading, framing, fromFloat32, u);
  }

  /** A packed message read as a packet: its address is not "#bundle". */
  lemma {:induction false} MessagePacketRead(view: seq<Byte>, o: int, address: string, types: string, args: seq<Value>, p: seq<Byte>,
                          g: Guard, float32: Num -> Messages.Word, fromFloat32: Messages.Word -> Num,
                          reading: Messages.Reading, framing: Framing, u: Unpacked)
    requires Restorable(MessageElement(address, types, args), g)
    requires Messages.Packed(address, types, args, g, float32) == Ok(p)
    requires o % 4 == 0 && HoldsAt(view, o, p) && |view| % 4 == 0 && |view| + 3 <= MaxPadInput
    requires u == Unpacked(MessageElement(address, "," + types, args), o + |p|)
    ensures PacketUnpacked(view, o, reading, framing, fromFloat32) == Ok(u)
  {
    var m := Messages.Unpacked(address, "," + types, args, o + |p|);
    MessageReadAt(view, o, address, types, args, p, g, float32, fromFloat32, reading, m);
    PacketOfMessage(view, o, reading, framing, fromFloat32, m, u);
  }

  /** A packed message is read back at `o`, and its head is its address. */
  lemma MessageReadAt(view: seq<Byte>, o: int, address: string, types: string, args: seq<Value>, p: seq<Byte>,
                      g: Guard, float32: Num -> Messages.Word, fromFloat32: Messages.Word -> Num,
                      reading: Messages.Reading, m: Messages.Unpacked)
    requires Restorable(MessageElement(address, types, args), g)
    requires Messages.Packed(address, types, args, g, float32) == Ok(p)
    requires o % 4 == 0 && HoldsAt(view, o, p) && |view| <= MaxPadInput
    requires m == Messages.Unpacked(address, "," + types, args, o + |p|)
    ensures Messages.MessageUnpacked(view, o, reading, fromFloat32) == Ok(m)
    ensures StringAtomic.Decoded(view, o).Ok? && StringAtomic.Decoded(view, o).value.0 != BundleTag
  {
    Messages.MessageRoundTripAt(view, o, p, address, types, args, Basic, g, float32, fromFloat32, reading);
    Messages.MessageHead(view, o, reading, fromFloat32);
    assert address[0] != BundleTag[0];
  }

  /** A view whose head at `o` is not "#bundle" is read as a message. */
  lemma PacketOfMessage(view: seq<Byte>, o: int, reading: Messages.Reading, framing: Framing,
                        fromFloat32: Messages.Word -> Num, m: Messages.Unpacked, u: Unpacked)
    requires |view| % 4 == 0 && |view| + 3 <= MaxPadInput
    requires Messages.MessageUnpacked(view, o, reading, fromFloat32) == Ok(m)
    requires u == Unpacked(MessageElement(m.address, m.types, m.args), m.offset)
    requires StringAtomic.Decoded(view, o).Ok? && StringAtomic.Decoded(view, o).value.0 != BundleTag
    ensures PacketUnpacked(view, o, reading, framing, fromFloat32) == Ok(u)
  {
  }

  /** The head and time tag of a packed bundle are read back. */
  lemma BundleHeadRead(view: seq<Byte>, o: int, time: TimetagAtomic.Time, framed: seq<Byte>)
    requires 0 <= time.seconds < TimetagAtomic.TwoPower32 && 0 <= time.fractions < TimetagAtomic.TwoPower32
    requires o % 4 == 0 && HoldsAt(view, o, BundleHead + TimetagAtomic.Encoded(time) + framed) && |view| <= MaxPadInput
    ensures StringAtomic.Decoded(view, o) == Ok((BundleTag, o + 8))
    ensures TimetagAtomic.Decoded(view, o + 8) == Ok((time, o + 16))
    ensures HoldsAt(view, o + 16, framed)
  {
    HoldsAtSplit(view, o, BundleHead + TimetagAtomic.Encoded(time), framed);
    HoldsAtSplit(view, o, BundleHead, TimetagAtomic.Encoded(time));
    BundleHeadBytes();
    StringAtomic.RoundTripAt(view, o, BundleTag);
    TimetagAtomic.RoundTripAt(view, o + 8, time);
  }

  /** A bundle read as a packet from its head, time tag and elements. */
  lemma BundleFromParts(view: seq<Byte>, o: int, time: TimetagAtomic.Time, elements: seq<Element>,
                        reading: Messages.Reading, framing: Framing, fromFloat32: Messages.Word -> Num, u: Unpacked)
    requires |view| % 4 == 0 && |view| + 3 <= MaxPadInput
    requires StringAtomic.Decoded(view, o) == Ok((BundleTag, o + 8))
    requires TimetagAtomic.Decoded(view, o + 8) == Ok((time, o + 16))
    requires ElementsFrom(view, o + 16, reading, framing, fromFloat32) == Ok((elements, |view|))
    requires u == Unpacked(BundleElement(time, elements), |view|)
    ensures PacketUnpacked(view, o, reading, framing, fromFloat32) == Ok(u)
  {
  }
}
