/** The time-tag check of dist/osc.js `Packet.unpack` (lines 842-875): a
    Packet read inside a bundle receives the enclosing bundle's time tag as a
    third argument, and an enclosed bundle whose time is earlier than that is
    refused (section "OSC Bundles" of the OSC 1.0 specification: the time tag
    of an enclosed bundle must be greater than or equal to that of the
    enclosing one). */
module DistPacket {
  import opened Wrappers
  import TimetagAtomic

  const OrderError: string := "OSC Packet timetag of enclosing bundle is past timestamp of enclosed ones."

  /** Which time tag `Bundle.unpack` hands to each element's `Packet.unpack`.
      As written (dist/osc.js:813) it passes `this.timetag`, which at that point
      is still the `AtomicTimetag` the constructor made, and only afterwards
      (line 817) stores the time tag it has read. Corrected, it passes the
      `Timetag` value it has read. */
  datatype Passing = AsWritten | Corrected

  /** The third argument of `Packet.unpack`: an `AtomicTimetag` object, which
      has no `timestamp` method, or a `Timetag` value, which has one. */
  datatype Enclosing = AtomicObject(atomic: TimetagAtomic.Time) | TimetagValue(time: TimetagAtomic.Time)

  /** The time tag an enclosed Packet receives from the bundle being read:
      `constructed` is the one `new Bundle()` made, `read` the one read from
      the bytes. */
  function EnclosingOf(passing: Passing, constructed: TimetagAtomic.Time, read: TimetagAtomic.Time): (r: Enclosing)
    ensures passing.AsWritten? <==> r.AtomicObject?
    ensures passing.AsWritten? ==> r == AtomicObject(constructed)
    ensures passing.Corrected? ==> r == TimetagValue(read)
  {
    match passing
    case AsWritten => AtomicObject(constructed)
    case Corrected => TimetagValue(read)
  }

  /** `timetag.timestamp()` on the third argument: calling a method an
      `AtomicTimetag` lacks throws a TypeError. */
  function TimestampOf(e: Enclosing): (r: Result<real>)
    ensures r.Ok? <==> e.TimetagValue?
    ensures r.Err? ==> r.error == TypeError
    ensures e.TimetagValue? ==> r.value == TimetagAtomic.ExactMilliseconds(e.time)
  {
    match e
    case AtomicObject(_) => Err(TypeError)
    case TimetagValue(t) => Ok(TimetagAtomic.ExactMilliseconds(t))
  }

  /** Lines 857-860 for an item that is a bundle: without an enclosing time tag
      it is accepted; otherwise its own time stamp is taken, then the enclosing
      one, and it is refused when it is the earlier. */
  function EnclosedChecked(enclosing: Option<Enclosing>, enclosed: TimetagAtomic.Time): (r: Result<()>)
    ensures enclosing.None? ==> r.Ok?
    ensures r.Err? ==> r.error == TypeError || r.error == OrderError
    ensures enclosing.Some? && enclosing.value.AtomicObject? ==> r == Err(TypeError)
  {
    if enclosing.None? then Ok(())
    else
      var inner := TimetagAtomic.ExactMilliseconds(enclosed);
      var outer :- TimestampOf(enclosing.value);
      if inner < outer then Err(OrderError) else Ok(())
  }

  /** The order of two time tags as the wire carries them: seconds first, then
      fractions. */
  predicate NotBefore(enclosed: TimetagAtomic.Time, enclosing: TimetagAtomic.Time) {
    enclosing.seconds < enclosed.seconds
    || (enclosing.seconds == enclosed.seconds && enclosing.fractions <= enclosed.fractions)
  }

  /** For time tags as they are read (fractions below 2^32), the millisecond
      getter orders them as seconds-then-fractions does. */
  lemma MillisecondsOrder(a: TimetagAtomic.Time, b: TimetagAtomic.Time)
    requires 0 <= a.fractions < TimetagAtomic.TwoPower32 && 0 <= b.fractions < TimetagAtomic.TwoPower32
    ensures TimetagAtomic.ExactMilliseconds(a) < TimetagAtomic.ExactMilliseconds(b) <==> !NotBefore(a, b)
  {
    var w := TimetagAtomic.TwoPower32 as real;
    var fa := a.fractions as real / w;
    var fb := b.fractions as real / w;
    assert 0.0 <= fa < 1.0 && 0.0 <= fb < 1.0;
    var d := (a.seconds - b.seconds) as real + (fa - fb);
    assert TimetagAtomic.ExactMilliseconds(a) - TimetagAtomic.ExactMilliseconds(b) == d * 1000.0;
    if a.seconds == b.seconds {
      assert fa < fb <==> a.fractions < b.fractions;
    }
  }

  /** As written, every bundle nested in a bundle makes `unpack` throw: the
      enclosing argument is the constructor's `AtomicTimetag`, whatever the
      time tags are. */
  lemma NestedBundleThrows(constructed: TimetagAtomic.Time, read: TimetagAtomic.Time, enclosed: TimetagAtomic.Time)
    ensures EnclosedChecked(Some(EnclosingOf(AsWritten, constructed, read)), enclosed) == Err(TypeError)
  {
  }

  /** Corrected, a nested bundle is accepted exactly when its time tag is not
      before the one read for the enclosing bundle, and refused with the order
      error otherwise. */
  lemma NestedBundleOrdered(constructed: TimetagAtomic.Time, read: TimetagAtomic.Time, enclosed: TimetagAtomic.Time)
    requires 0 <= read.fractions < TimetagAtomic.TwoPower32 && 0 <= enclosed.fractions < TimetagAtomic.TwoPower32
    ensures EnclosedChecked(Some(EnclosingOf(Corrected, constructed, read)), enclosed).Ok? <==> NotBefore(enclosed, read)
    ensures !NotBefore(enclosed, read) ==>
      EnclosedChecked(Some(EnclosingOf(Corrected, constructed, read)), enclosed) == Err(OrderError)
  {
    MillisecondsOrder(enclosed, read);
  }
}
