/** `AtomicString` (src/atomic/string.js; lib/osc.browser.js:313-364): an
    OSC-string, the character codes followed by a NUL and zero padding to a
    multiple of four bytes. */
module StringAtomic {
  import opened Wrappers
  import opened Utils
  import opened AtomicBase

  const ConstructorError: string := "OSC AtomicString constructor expects value of type string"
  const EmptyString: string := "OSC AtomicString can not be encoded with empty value"

  /** What an `AtomicString` may hold: a string, or any falsy value. */
  predicate Holds(v: Value) {
    v.Str? || !Truthy(v)
  }

  /** `${this.value}`: the text of a held value other than `undefined`. */
  function Text(v: Value): (r: string)
    requires Holds(v) && !v.Undefined?
    ensures v.Str? ==> r == v.s
  {
    match v
    case Str(s) => s
    case Number(n) => if n.NaN? then "NaN" else "0"
    case BigInt(_) => "0"
    case Boolean(_) => "false"
    case Null => "null"
  }

  /** The byte a Uint8Array cell keeps of a character code. */
  function Code(c: char): Byte {
    (c as int) % 256
  }

  /** The buffer `pack` fills for `text`: `pad(|text| + 1)` bytes, the character
      codes first, zeros after (the NUL among them). A length whose `pad` wraps
      negative is refused by the Uint8Array constructor. */
  function Encoded(text: string): (r: Result<seq<Byte>>)
    ensures r.Ok? <==> Pad(|text| + 1) >= 0
    ensures r.Ok? ==> |r.value| == Pad(|text| + 1) && |r.value| % 4 == 0
    ensures r.Ok? && |text| < MaxPadInput ==> |text| < |r.value| <= |text| + 4
  {
    var n := Pad(|text| + 1);
    if n < 0 then Err(RangeError)
    else Ok(seq(n, i requires 0 <= i < n => if i < |text| then Code(text[i]) else 0))
  }

  /** The packed text holds the character codes, then zeros: the NUL and the padding. */
  lemma EncodedContents(text: string)
    requires Encoded(text).Ok?
    ensures forall i :: 0 <= i < |Encoded(text).value| ==> Encoded(text).value[i] == if i < |text| then Code(text[i]) else 0
  {
  }

  /** The bytes `pack` returns for a held value under the emptiness guard `g`. */
  function Packed(v: Value, g: Guard): (r: Result<seq<Byte>>)
    requires Holds(v)
    ensures !Admits(g, v) ==> r == Err(EmptyString)
    ensures Admits(g, v) ==> r == Encoded(Text(v))
  {
    if !Admits(g, v) then Err(EmptyString) else Encoded(Text(v))
  }

  /** The index of the first NUL at or after `i`, or the end of the view. */
  function NulFrom(view: seq<Byte>, i: nat): (r: nat)
    requires i <= |view|
    ensures i <= r <= |view|
    ensures r < |view| ==> view[r] == 0
    decreases |view| - i
  {
    if i == |view| || view[i] == 0 then i else NulFrom(view, i + 1)
  }

  /** No byte before the first NUL is a NUL. */
  lemma {:induction false} NulFromFirst(view: seq<Byte>, i: nat)
    requires i <= |view|
    ensures forall j :: i <= j < NulFrom(view, i) ==> view[j] != 0
    decreases |view| - i
  {
    if i < |view| && view[i] != 0 {
      NulFromFirst(view, i + 1);
    }
  }

  /** The first NUL at or after `i`: a NUL at `k` with none in between. */
  lemma NulFromAt(view: seq<Byte>, i: nat, k: nat)
    requires i <= k < |view| && view[k] == 0
    requires forall j :: i <= j < k ==> view[j] != 0
    ensures NulFrom(view, i) == k
  {
    NulFromFirst(view, i);
  }

  /** `String.fromCharCode` of byte values. */
  function Chars(bytes: seq<Byte>): (r: string)
    ensures |r| == |bytes|
  {
    seq(|bytes|, i requires 0 <= i < |bytes| => bytes[i] as char)
  }

  /** What `unpack(view, offset)` reads and the offset it returns. It collects the
      bytes up to the first NUL and returns `pad` of the index just past that NUL.
      A negative offset fails the first `getUint8`. A view without a NUL is read
      to its end and accepted: the check for it compares against
      `dataView.length`, which a DataView does not have. */
  function Decoded(view: seq<Byte>, offset: int): (r: Result<(string, int)>)
    ensures r.Err? <==> offset < 0
  {
    if offset < 0 then Err(RangeError)
    else if offset >= |view| then Ok(("", Pad(offset)))
    else
      var e := NulFrom(view, offset);
      Ok((Chars(view[offset..e]), Pad(if e < |view| then e + 1 else e)))
  }

  class AtomicString {
    var value: Value
    var offset: int

    ghost predicate Valid()
      reads this
    {
      Holds(value)
    }

    constructor (v: Value)
      requires Holds(v)
      ensures value == v && offset == 0 && Valid()
    {
      value := v;
      offset := 0;
    }

    /** `new AtomicString(value)`: a truthy value that is not a string throws. */
    static method Create(v: Value) returns (r: Result<AtomicString>)
      ensures r.Err? <==> !Holds(v)
      ensures r.Err? ==> r.error == ConstructorError
      ensures r.Ok? ==> fresh(r.value) && r.value.value == v && r.value.offset == 0 && r.value.Valid()
    {
      if Truthy(v) && !v.Str? {
        return Err(ConstructorError);
      }
      var a := new AtomicString(v);
      r := Ok(a);
    }

    /** Writes the terminated text into a fresh buffer of `pad(length)` bytes, one
        character code per cell; writes past the end of the buffer are dropped. */
    method Pack(g: Guard) returns (r: Result<seq<Byte>>)
      requires Valid()
      ensures r == Packed(value, g)
    {
      if !Admits(g, value) {
        return Err(EmptyString);
      }
      var terminated := Text(value) + [0 as char];
      var byteLength := Pad(|terminated|);
      if byteLength < 0 {
        return Err(RangeError);
      }
      var buffer := new Byte[byteLength](_ => 0);
      var text := Text(value);
      for i := 0 to |terminated|
        invariant forall j :: 0 <= j < byteLength ==> buffer[j] == if j < i && j < |text| then Code(text[j]) else 0
      {
        if i < buffer.Length {
          buffer[i] := Code(terminated[i]);
        }
      }
      assert buffer[..] == Encoded(text).value;
      r := Ok(buffer[..]);
    }

    /** Scans from `initialOffset` to the first NUL, keeps the characters before
        it and moves `offset` to `pad` of the index past the NUL. */
    method Unpack(view: seq<Byte>, initialOffset: int) returns (r: Result<int>)
      modifies this
      ensures match Decoded(view, initialOffset)
        case Ok(d) => r == Ok(d.1) && value == Str(d.0) && offset == d.1 && Valid()
        case Err(e) => r == Err(e) && value == old(value) && offset == old(offset)
    {
      if 0 <= initialOffset < |view| {
        NulFromFirst(view, initialOffset);
      }
      var end := initialOffset;
      var data: seq<Byte> := [];
      var done := false;
      while !done && end < |view|
        invariant initialOffset <= end
        invariant end == initialOffset || 0 <= initialOffset < |view|
        invariant 0 <= initialOffset < |view| ==>
          var e := NulFrom(view, initialOffset);
          if done then e < |view| && end == e + 1 && data == view[initialOffset..e]
          else end <= e && data == view[initialOffset..end]
        invariant !(0 <= initialOffset < |view|) ==> !done && data == []
        decreases |view| - end
      {
        if end < 0 {
          return Err(RangeError);
        }
        var charcode := view[end];
        if charcode != 0 {
          data := data + [charcode];
        } else {
          done := true;
        }
        end := end + 1;
      }
      offset := Pad(end);
      value := Str(Chars(data));
      r := Ok(offset);
    }
  }

  /** No character is NUL and every code fits in a byte: the strings an OSC-string
      carries unchanged. */
  predicate Plain(s: string) {
    forall i :: 0 <= i < |s| ==> 0 < s[i] as int < 256
  }

  /** The packed text of a plain string is read back from any 4-aligned offset of a
      view holding it, and the offset lands just past its padding. */
  lemma RoundTripAt(view: seq<Byte>, offset: int, s: string)
    requires Plain(s) && |s| + 1 <= MaxPadInput
    requires 0 <= offset && offset % 4 == 0
    requires Encoded(s).Ok?
    requires offset + |Encoded(s).value| <= |view| <= MaxPadInput
    requires view[offset..offset + |Encoded(s).value|] == Encoded(s).value
    ensures Decoded(view, offset) == Ok((s, offset + |Encoded(s).value|))
  {
    var enc := Encoded(s).value;
    TextBeforeNul(view, offset, s);
    CharsOfCodes(view[offset..offset + |s|], s);
    PadShift(offset, |s| + 1);
  }

  /** Where the packed text of a plain string sits, the first NUL is the one
      just past its codes. */
  lemma TextBeforeNul(view: seq<Byte>, offset: int, s: string)
    requires Plain(s) && |s| + 1 <= MaxPadInput && 0 <= offset
    requires Encoded(s).Ok?
    requires offset + |Encoded(s).value| <= |view|
    requires view[offset..offset + |Encoded(s).value|] == Encoded(s).value
    ensures NulFrom(view, offset) == offset + |s|
    ensures forall i :: 0 <= i < |s| ==> view[offset..offset + |s|][i] == Code(s[i])
  {
    var enc := Encoded(s).value;
    EncodedContents(s);
    assert view[offset + |s|] == enc[|s|] == 0;
    forall j | offset <= j < offset + |s|
      ensures view[j] != 0
    {
      assert view[j] == enc[j - offset] == Code(s[j - offset]);
    }
    NulFromAt(view, offset, offset + |s|);
    forall i | 0 <= i < |s|
      ensures view[offset..offset + |s|][i] == Code(s[i])
    {
      assert view[offset + i] == enc[i];
    }
  }

  /** The codes of a plain string read back as that string. */
  lemma CharsOfCodes(bytes: seq<Byte>, s: string)
    requires Plain(s) && |bytes| == |s|
    requires forall i :: 0 <= i < |s| ==> bytes[i] == Code(s[i])
    ensures Chars(bytes) == s
  {
    var chars := Chars(bytes);
    forall i | 0 <= i < |s|
      ensures chars[i] == s[i]
    {
    }
  }

  /** `unpack` gets `s` back from `bytes` wherever they sit at a 4-aligned offset
      of `view`, and stops just past them. */
  ghost predicate DecodesAt(view: seq<Byte>, s: string, bytes: seq<Byte>) {
    forall o {:trigger HoldsAt(view, o, bytes)} :: o % 4 == 0 && HoldsAt(view, o, bytes) ==> Decoded(view, o) == Ok((s, o + |bytes|))
  }

  lemma DecodesEverywhere(view: seq<Byte>, s: string)
    requires Plain(s) && |s| + 1 <= MaxPadInput && |view| <= MaxPadInput
    ensures Encoded(s).Ok? && |Encoded(s).value| % 4 == 0
    ensures DecodesAt(view, s, Encoded(s).value)
  {
    forall o | o % 4 == 0 && HoldsAt(view, o, Encoded(s).value)
      ensures Decoded(view, o) == Ok((s, o + |Encoded(s).value|))
    {
      RoundTripHeld(view, o, s);
    }
  }

  /** `RoundTripAt` for a view that holds the packed text at `o`. */
  lemma RoundTripHeld(view: seq<Byte>, o: int, s: string)
    requires Plain(s) && |s| + 1 <= MaxPadInput && |view| <= MaxPadInput
    requires Encoded(s).Ok? && o % 4 == 0 && HoldsAt(view, o, Encoded(s).value)
    ensures Decoded(view, o) == Ok((s, o + |Encoded(s).value|))
  {
    RoundTripAt(view, o, s);
  }

  lemma RoundTrip(s: string)
    requires Plain(s) && |s| + 1 <= MaxPadInput
    ensures Encoded(s).Ok?
    ensures Decoded(Encoded(s).value, 0) == Ok((s, |Encoded(s).value|))
  {
    var enc := Encoded(s).value;
    assert enc[0..|enc|] == enc;
    RoundTripAt(enc, 0, s);
  }

  lemma PackExample(g: Guard)
    ensures Packed(Str("hallo"), g) == Ok([104, 97, 108, 108, 111, 0, 0, 0])
  {
    var r := Encoded("hallo").value;
    assert |r| == 8;
    assert r == [104, 97, 108, 108, 111, 0, 0, 0];
  }

  /** The empty string is falsy: refused by the falsy guard, packed as four zeros by the
      undefined guard, which also packs `0` as the text "0". */
  lemma EmptyGuard()
    ensures Packed(Str(""), RejectFalsy) == Err(EmptyString)
    ensures Packed(Str(""), RejectUndefined) == Ok([0, 0, 0, 0])
    ensures Packed(Int(0), RejectUndefined) == Ok([48, 0, 0, 0])
  {
    assert Text(Int(0)) == "0";
    var r := Encoded("0").value;
    assert |r| == 4;
    assert r == [48, 0, 0, 0];
    var q := Encoded("").value;
    assert |q| == 4;
    assert q == [0, 0, 0, 0];
  }

  /** A string missing its NUL is read to the end of the view without an error. */
  lemma UnterminatedAccepted()
    ensures Decoded([97, 98], 0) == Ok(("ab", 4))
  {
    var view: seq<Byte> := [97, 98];
    assert NulFrom(view, 0) == 2;
    assert view[0..2] == view;
    assert Chars(view) == "ab";
  }
}
