/** `Timetag` and `AtomicTimetag` (src/atomic/timetag.js; lib/osc.browser.js:509-582):
    an NTP time stamp of two 32-bit words, seconds since 1900 and fractions of
    a second in units of 2^-32 s. */
module TimetagAtomic {
  import opened Wrappers
  import opened Utils
  import opened Bytes
  import opened AtomicBase

  const Seconds70Years: int := 2208988800
  const TwoPower32: int := 0x1_0000_0000
  const TimetagError: string := "OSC Timetag constructor expects values of type integer number"
  const AtomicTimetagError: string := "OSC AtomicTimetag constructor expects value of type Timetag."
  const EmptyTimetag: string := "OSC AtomicTimetag can not be encoded with empty value"

  /** The two words of a time tag. */
  datatype Time = Time(seconds: int, fractions: int)

  /** The time tag the `timestamp(ms)` setter stores: `floor(ms / 1000)` plus the
      seconds from 1900 to 1970, and the remaining milliseconds as a rounded
      fraction of 2^32. */
  function FromMilliseconds(ms: int): (t: Time)
    ensures t.seconds - Seconds70Years == ms / 1000
    ensures 0 <= t.fractions < TwoPower32
  {
    Time(ms / 1000 + Seconds70Years, ((ms % 1000) * TwoPower32 + 500) / 1000)
  }

  /** The browser build's `timestamp()` getter: whole seconds since 1970, plus
      `Math.round(fractions / 2^32)`, times 1000. */
  function RoundedMilliseconds(t: Time): (ms: int) {
    (t.seconds - Seconds70Years + (t.fractions + TwoPower32 / 2) / TwoPower32) * 1000
  }

  /** The src build's `timestamp()` getter, in exact arithmetic. */
  function ExactMilliseconds(t: Time): (ms: real) {
    ((t.seconds - Seconds70Years) as real + t.fractions as real / TwoPower32 as real) * 1000.0
  }

  /** The browser getter after the setter gives `ms` rounded to the nearest second,
      halves rounding up. */
  lemma {:induction false} RoundedAfterSetter(ms: int)
    ensures RoundedMilliseconds(FromMilliseconds(ms)) == (ms / 1000 + (if ms % 1000 >= 500 then 1 else 0)) * 1000
  {
    var r := ms % 1000;
    var f := (r * TwoPower32 + 500) / 1000;
    if r >= 500 {
      assert r * TwoPower32 >= 500 * TwoPower32;
      assert f >= TwoPower32 / 2 by {
        DivModUnique(1000 * (TwoPower32 / 2), 1000, TwoPower32 / 2, 0);
        DivMonotone(1000 * (TwoPower32 / 2), r * TwoPower32 + 500, 1000);
      }
      assert f + TwoPower32 / 2 < 2 * TwoPower32;
      DivModUnique(f + TwoPower32 / 2, TwoPower32, 1, f + TwoPower32 / 2 - TwoPower32);
    } else {
      assert r * TwoPower32 <= 499 * TwoPower32;
      assert f < TwoPower32 / 2 by {
        DivModUnique(1000 * (TwoPower32 / 2), 1000, TwoPower32 / 2, 0);
        DivMonotone(r * TwoPower32 + 500, 1000 * (TwoPower32 / 2) - 1, 1000);
        DivModUnique(1000 * (TwoPower32 / 2) - 1, 1000, TwoPower32 / 2 - 1, 999);
      }
      DivModUnique(f + TwoPower32 / 2, TwoPower32, 0, f + TwoPower32 / 2);
    }
  }

  lemma DivMonotone(a: int, b: int, n: int)
    requires n > 0 && a <= b
    ensures a / n <= b / n
  {
    if a / n > b / n {
      MulLeftMonotone(n, b / n + 1, a / n);
    }
  }

  lemma MulLeftMonotone(n: int, x: int, y: int)
    requires n > 0 && x <= y
    ensures n * x <= n * y
  {
  }

  /** The getters agree with the stored words for whole seconds. */
  lemma WholeSeconds(s: int)
    ensures RoundedMilliseconds(Time(s, 0)) == (s - Seconds70Years) * 1000
    ensures ExactMilliseconds(Time(s, 0)) == ((s - Seconds70Years) * 1000) as real
  {
  }

  lemma GetterExample()
    ensures RoundedMilliseconds(Time(3718482449, 131799040)) == 1509493649000
  {
  }

  /** `Timetag`: the two words as fields that the `timestamp(ms)` setter overwrites. */
  class Timetag {
    var seconds: int
    var fractions: int

    function Tag(): (t: Time)
      reads this
      ensures t.seconds == seconds && t.fractions == fractions
    {
      Time(seconds, fractions)
    }

    constructor (s: int, f: int)
      ensures seconds == s && fractions == f
    {
      seconds := s;
      fractions := f;
    }

    /** `new Timetag(seconds = 0, fractions = 0)`: both must be integer numbers. */
    static method Create(s: Value, f: Value) returns (r: Result<Timetag>)
      ensures var s', f' := (if s.Undefined? then Int(0) else s), (if f.Undefined? then Int(0) else f);
        (r.Err? <==> !(IsInt(s') && IsInt(f')))
        && (r.Err? ==> r.error == TimetagError)
        && (r.Ok? ==> fresh(r.value) && r.value.seconds == IntOf(s') && r.value.fractions == IntOf(f'))
    {
      var s' := if s.Undefined? then Int(0) else s;
      var f' := if f.Undefined? then Int(0) else f;
      IntOfInt(0);
      if !(IsInt(s') && IsInt(f')) {
        return Err(TimetagError);
      }
      var t := new Timetag(IntOf(s'), IntOf(f'));
      r := Ok(t);
    }

    /** The `timestamp(ms)` setter: stores the time tag of `ms` and returns `ms`. */
    method SetTimestamp(ms: int) returns (r: int)
      modifies this
      ensures Tag() == FromMilliseconds(ms) && r == ms
    {
      var t := FromMilliseconds(ms);
      seconds := t.seconds;
      fractions := t.fractions;
      r := ms;
    }
  }

  /** The eight bytes `encode`/`pack` writes: each word with `setInt32`, seconds at
      0 and fractions at 4 whatever the atomic's offset. */
  function Encoded(t: Time): (r: seq<Byte>)
    ensures |r| == 8
    ensures r[..4] == ToBigEndian(t.seconds, 4) && r[4..] == ToBigEndian(t.fractions, 4)
  {
    ToBigEndian(t.seconds, 4) + ToBigEndian(t.fractions, 4)
  }

  /** The two unsigned words read at `offset` and `offset + 4`, and the offset past them. */
  function Decoded(view: seq<Byte>, offset: int): (r: Result<(Time, int)>)
    ensures r.Ok? <==> 0 <= offset && offset + 8 <= |view|
    ensures r.Ok? ==> r.value.1 == offset + 8
    ensures r.Ok? ==> 0 <= r.value.0.seconds < TwoPower32 && 0 <= r.value.0.fractions < TwoPower32
  {
    var s :- WordRead(view, offset, 4, false);
    var f :- WordRead(view, offset + 4, 4, false);
    Pow256Values();
    Ok((Time(s.0, f.0), offset + 8))
  }

  /** The eight bytes a time tag is decoded from are its encoding. */
  lemma DecodedBytes(view: seq<Byte>, offset: int)
    requires Decoded(view, offset).Ok?
    ensures Encoded(Decoded(view, offset).value.0) == view[offset..offset + 8]
  {
    WordReadBytes(view, offset, 4, false);
    WordReadBytes(view, offset + 4, 4, false);
    assert view[offset..offset + 8] == view[offset..offset + 4] + view[offset + 4..offset + 8];
  }

  /** A time tag whose words are both in the unsigned 32-bit range is read back
      unchanged from wherever its encoding sits. */
  lemma RoundTripAt(view: seq<Byte>, offset: int, t: Time)
    requires 0 <= t.seconds < TwoPower32 && 0 <= t.fractions < TwoPower32
    requires 0 <= offset && offset + 8 <= |view|
    requires view[offset..offset + 8] == Encoded(t)
    ensures Decoded(view, offset) == Ok((t, offset + 8))
  {
    var e := Encoded(t);
    assert view[offset..offset + 4] == e[..4];
    assert view[offset + 4..offset + 8] == e[4..];
    Pow256Values();
    WordRoundTrip(view, offset, t.seconds, 4, false);
    WordRoundTrip(view, offset + 4, t.fractions, 4, false);
  }

  lemma EncodeExample()
    ensures Encoded(Time(129123, 283711)) == [0, 1, 248, 99, 0, 4, 84, 63]
  {
    WordExamples();
  }

  /** The time tag the browser `AtomicTimetag` constructor builds when it is not
      given a Timetag. */
  function BrowserDefault(v: Value, now: int): (t: Time)
    ensures v.Undefined? ==> t == FromMilliseconds(now)
    ensures IsInt(v) ==> t == FromMilliseconds(IntOf(v))
    ensures v.Date? ==> t == FromMilliseconds(v.time)
    ensures !(v.Undefined? || IsInt(v) || v.Date?) ==> t == Time(0, 0)
  {
    if v.Undefined? then FromMilliseconds(now)
    else if IsInt(v) then FromMilliseconds(IntOf(v))
    else if v.Date? then FromMilliseconds(v.time)
    else Time(0, 0)
  }

  /** `AtomicTimetag`. `value` is the Timetag it holds; `null` stands for every
      falsy value the src constructor lets through. */
  class AtomicTimetag {
    var value: Timetag?
    var offset: int

    constructor (t: Timetag?)
      ensures value == t && offset == 0
    {
      value := t;
      offset := 0;
    }

    /** The src constructor given a value that is not a Timetag: a truthy one
        throws, a falsy one leaves the atomic empty. */
    static method Create(v: Value) returns (r: Result<AtomicTimetag>)
      ensures r.Err? <==> Truthy(v)
      ensures r.Err? ==> r.error == AtomicTimetagError
      ensures r.Ok? ==> fresh(r.value) && r.value.value == null && r.value.offset == 0
    {
      if Truthy(v) {
        return Err(AtomicTimetagError);
      }
      var a := new AtomicTimetag(null);
      r := Ok(a);
    }

    /** The browser constructor: a given Timetag is kept; an integer or a Date sets a
        new Timetag through `timestamp(ms)`; no argument means `Date.now()`, passed
        here as `now`; any other value leaves the new Timetag at (0, 0). */
    static method CreateBrowser(tag: Timetag?, v: Value, now: int) returns (a: AtomicTimetag)
      ensures fresh(a) && a.offset == 0 && a.value != null
      ensures tag != null ==> a.value == tag
      ensures tag == null ==> fresh(a.value) && a.value.Tag() == BrowserDefault(v, now)
    {
      var t := new Timetag(0, 0);
      if tag != null {
        t := tag;
      } else if v.Undefined? {
        var _ := t.SetTimestamp(now);
      } else if IsInt(v) {
        var _ := t.SetTimestamp(IntOf(v));
      } else if v.Date? {
        var _ := t.SetTimestamp(v.time);
      }
      a := new AtomicTimetag(t);
    }

    /** `encode`/`pack`: eight bytes, or an error when the atomic is empty. */
    method Pack() returns (r: Result<seq<Byte>>)
      ensures value == null ==> r == Err(EmptyTimetag)
      ensures value != null ==> r == Ok(Encoded(value.Tag()))
    {
      if value == null {
        return Err(EmptyTimetag);
      }
      var data := new Byte[8](_ => 0);
      SetWord(data, 0, value.seconds, 4);
      SetWord(data, 4, value.fractions, 4);
      assert data[..] == Encoded(value.Tag());
      r := Ok(data[..]);
    }

    /** src `decode` as written: reads at `offset` but adds 8 to the atomic's own
        previous offset. */
    method DecodeAsWritten(view: seq<Byte>, initialOffset: int) returns (r: Result<int>)
      modifies this
      ensures match Decoded(view, initialOffset)
        case Ok(d) => value != null && fresh(value) && value.Tag() == d.0
          && offset == old(offset) + 8 && r == Ok(offset)
        case Err(e) => r == Err(e) && value == old(value) && offset == old(offset)
    {
      var d := Decoded(view, initialOffset);
      if d.Err? {
        return Err(d.error);
      }
      value := new Timetag(d.value.0.seconds, d.value.0.fractions);
      offset := offset + 8;
      r := Ok(offset);
    }

    /** `unpack` (lib/osc.browser.js): the offset becomes the read offset plus 8. */
    method Unpack(view: seq<Byte>, initialOffset: int) returns (r: Result<int>)
      modifies this
      ensures match Decoded(view, initialOffset)
        case Ok(d) => value != null && fresh(value) && value.Tag() == d.0
          && offset == d.1 && r == Ok(d.1)
        case Err(e) => r == Err(e) && value == old(value) && offset == old(offset)
    {
      var d := Decoded(view, initialOffset);
      if d.Err? {
        return Err(d.error);
      }
      value := new Timetag(d.value.0.seconds, d.value.0.fractions);
      offset := d.value.1;
      r := Ok(offset);
    }
  }

  /** A fresh atomic decoding the second of two time tags: the src `decode` reports
      offset 8, the end of the first, where `unpack` reports 16. */
  method DecodeOffsetExample() returns (asWritten: int, corrected: int)
    ensures asWritten == 8 && corrected == 16
  {
    var view: seq<Byte> := seq(16, _ => 0);
    var a := new AtomicTimetag(null);
    var r1 := a.DecodeAsWritten(view, 8);
    asWritten := r1.value;
    var b := new AtomicTimetag(null);
    var r2 := b.Unpack(view, 8);
    corrected := r2.value;
  }
}
