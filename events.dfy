/** The `EventHandler` class: src/events.js (`on`, `off`, `notify`) and the
    browser build's copy in lib/osc.browser.js, which adds `call` and
    `dispatch` and takes `discardLateMessages` from its options. Each method is
    proved against the function of EventSpec that states what it does. */
module Events {
  import opened Wrappers
  import opened Utils
  import opened Helpers
  import opened EventSpec
  import Packets
  import TimetagAtomic
  import Messages

  /** `hs.forEach((handler) => { handler.callback(data); success = true })`. */
  method CallEach(hs: seq<Handler>, data: Argument) returns (calls: seq<Call>, success: bool)
    ensures calls == CallsOf(hs, data)
    ensures success == (hs != [])
  {
    calls := [];
    success := false;
    for j := 0 to |hs|
      invariant calls == CallsOf(hs[..j], data)
      invariant success == (j > 0)
    {
      assert hs[..j + 1][..j] == hs[..j];
      calls := calls + [Call(hs[j].callback, data)];
      success := true;
    }
    assert hs[..|hs|] == hs;
  }

  /** The address phase: for each key in turn the pattern is compiled (a
      pattern that does not compile throws at the first key) and, when it
      selects the key, the key's handlers run. */
  method CallMatching(keys: seq<string>, handlers: map<string, seq<Handler>>, pattern: string, data: Argument,
                      m: Matcher) returns (r: Result<seq<Call>>, success: bool)
    requires forall k :: k in keys ==> k in handlers
    ensures r == if keys != [] && !m.compiles(pattern) then Err(SyntaxError)
                 else Ok(Selected(keys, handlers, pattern, data, m.selects))
    ensures r.Ok? ==> success == (r.value != [])
  {
    var calls := [];
    success := false;
    for i := 0 to |keys|
      invariant calls == Selected(keys[..i], handlers, pattern, data, m.selects)
      invariant success == (calls != [])
      invariant i > 0 ==> m.compiles(pattern)
    {
      if !m.compiles(pattern) {
        return Err(SyntaxError), false;
      }
      SelectedStep(keys, i, handlers, pattern, data, m.selects);
      if m.selects(pattern, keys[i]) {
        var more, ran := CallEach(handlers[keys[i]], data);
        calls := calls + more;
        success := success || ran;
      }
    }
    assert keys[..|keys|] == keys;
    return Ok(calls), success;
  }

  /** Creating a missing list and pushing onto it appends to the list, or to
      an empty one. */
  lemma PushedAt(m: map<string, seq<Handler>>, a: string, h: Handler)
    ensures var c := if a in m then m else m[a := []]; c[a := c[a] + [h]] == m[a := ListAt(m, a) + [h]]
  {
  }

  class EventHandler {
    /** The keys of `addressHandlers` in the order `Object.keys` lists them. */
    var keys: seq<string>
    var addressHandlers: map<string, seq<Handler>>
    var eventHandlers: map<string, seq<Handler>>
    var uuid: int
    /** `options.discardLateMessages` of the browser build. src/events.js
        means to read it through `option()`, an import src/osc.js does not
        provide. */
    const discardLateMessages: bool

    function State(): Tables
      reads this
    {
      Tables(keys, addressHandlers, eventHandlers)
    }

    ghost predicate Valid()
      reads this
    {
      Consistent(State(), uuid)
    }

    constructor (discardLateMessages: bool)
      ensures Valid() && State() == Empty && uuid == 0
      ensures this.discardLateMessages == discardLateMessages
    {
      keys := [];
      addressHandlers := map[];
      eventHandlers := map["open" := [], "error" := [], "close" := []];
      uuid := 0;
      this.discardLateMessages := discardLateMessages;
      EmptyConsistent();
    }

    /** `on(name, callback)`. */
    method On(name: Value, callback: Value) returns (r: Result<int>)
      requires Valid()
      modifies this
      ensures Valid()
      ensures (State(), uuid, r) == Subscribed(old(State()), old(uuid), name, callback)
    {
      SubscribedConsistent(State(), uuid, name, callback);
      r := AddHandler(name, callback);
    }

    /** The body of `on`, which needs no invariant of the tables. */
    method AddHandler(name: Value, callback: Value) returns (r: Result<int>)
      modifies this
      ensures (State(), uuid, r) == Subscribed(old(State()), old(uuid), name, callback)
    {
      if !(name.Str? || name.Array?) {
        return Err(NameError);
      }
      if !callback.Function? {
        return Err(CallbackError);
      }
      ghost var before, last := State(), uuid;
      uuid := uuid + 1;
      var handler := Handler(uuid, callback.id);
      if name.Str? && name.s in eventHandlers {
        SubscribedEvent(before, last, name, callback);
        eventHandlers := eventHandlers[name.s := eventHandlers[name.s] + [handler]];
        return Ok(uuid);
      }
      var address := PrepareAddress(name).value;
      SubscribedAddress(before, last, name, callback, address);
      if HasReserved(address) {
        return Err(AddressError);
      }
      Push(address, handler);
      return Ok(uuid);
    }

    /** Creates the address list when it is missing, then pushes the handler onto it. */
    method Push(address: string, handler: Handler)
      modifies this
      ensures keys == if address in old(addressHandlers) then old(keys) else old(keys) + [address]
      ensures addressHandlers == old(addressHandlers)[address := ListAt(old(addressHandlers), address) + [handler]]
      ensures eventHandlers == old(eventHandlers) && uuid == old(uuid)
    {
      PushedAt(addressHandlers, address, handler);
      if address !in addressHandlers {
        keys := keys + [address];
        addressHandlers := addressHandlers[address := []];
      }
      addressHandlers := addressHandlers[address := addressHandlers[address] + [handler]];
    }

    /** `off(name, id)`: `some` walks the list and splices out the first
        handler with the id. */
    method Off(name: Value, id: Value) returns (r: Result<bool>)
      requires Valid()
      modifies this
      ensures Valid() && uuid == old(uuid)
      ensures (State(), r) == Unsubscribed(old(State()), name, id)
    {
      UnsubscribedConsistent(State(), uuid, name, id);
      r := RemoveHandler(name, id);
    }

    /** The body of `off`, which needs no invariant of the tables. */
    method RemoveHandler(name: Value, id: Value) returns (r: Result<bool>)
      modifies this
      ensures uuid == old(uuid)
      ensures (State(), r) == Unsubscribed(old(State()), name, id)
    {
      if !(name.Str? || name.Array?) {
        return Err(NameError);
      }
      if !IsInt(id) {
        return Err(IdError);
      }
      var n := IntOf(id);
      var event := name.Str? && name.s in eventHandlers;
      var key := if event then name.s else PrepareAddress(name).value;
      var haystack := if event then eventHandlers else addressHandlers;
      if key !in haystack {
        return Ok(false);
      }
      var hs := haystack[key];
      var i := 0;
      while i < |hs|
        invariant 0 <= i <= |hs|
        invariant forall j :: 0 <= j < i ==> hs[j].id != n
      {
        if hs[i].id == n {
          WithoutAt(hs, n, i);
          if event {
            eventHandlers := eventHandlers[key := hs[..i] + hs[i + 1..]];
          } else {
            addressHandlers := addressHandlers[key := hs[..i] + hs[i + 1..]];
          }
          return Ok(true);
        }
        i := i + 1;
      }
      return Ok(false);
    }

    /** The handlers a notification of `name` runs at once (the last part of
        `notify` in src/events.js, and `call` in the browser build), with the
        `success` flag `call` keeps. */
    method Immediately(name: string, data: Argument, m: Matcher) returns (r: Result<seq<Call>>, success: bool)
      requires forall k :: k in keys ==> k in addressHandlers
      ensures r == Immediate(State(), name, data, m)
      ensures r.Ok? ==> success == (r.value != [])
    {
      if name in eventHandlers {
        var calls;
        calls, success := CallEach(eventHandlers[name], data);
        return Ok(calls), success;
      }
      r, success := CallMatching(keys, addressHandlers, Pattern(name), data, m);
    }

    /** src/events.js `notify(...args)` at time `now`. */
    method Notify(args: seq<Argument>, now: int, m: Matcher) returns (r: Result<Outcome>)
      requires Valid()
      ensures r == Notified(State(), args, now, discardLateMessages, m)
    {
      var notice := NoticeOf(args);
      if notice.Err? {
        return Err(notice.error);
      }
      var n := notice.value;
      if n.stamp.Some? && n.stamp.value != 0.0 {
        if now as real > n.stamp.value {
          if !discardLateMessages {
            var calls, success := Immediately(n.name, n.data, m);
            if calls.Err? {
              return Err(calls.error);
            }
            return Ok(Outcome(calls.value, [], Boolean(true)));
          }
        } else {
          return Ok(Outcome([], [Later(n.name, n.data, n.stamp.value - now as real)], Boolean(true)));
        }
        return Ok(Outcome([], [], Boolean(true)));
      }
      var calls, success := Immediately(n.name, n.data, m);
      if calls.Err? {
        return Err(calls.error);
      }
      return Ok(Outcome(calls.value, [], Boolean(true)));
    }

    /** The browser `call(name, data)`. */
    method Call(name: string, data: Argument, m: Matcher) returns (r: Result<Outcome>)
      requires Valid()
      ensures r == Called(State(), name, data, m)
    {
      var calls, success := Immediately(name, data, m);
      if calls.Err? {
        return Err(calls.error);
      }
      return Ok(Outcome(calls.value, [], Boolean(success)));
    }

    /** The browser `notify` from its timestamp test on. */
    method NotifyAt(name: string, data: Argument, stamp: Option<int>, now: int, m: Matcher, d: Dispatching)
      returns (r: Result<Outcome>)
      requires Valid()
      ensures r == Timed(State(), name, data, stamp, now, discardLateMessages, m, d)
    {
      if stamp.Some? && stamp.value != 0 {
        if now > stamp.value {
          if !discardLateMessages {
            r := Call(name, data, m);
            return;
          }
          if d.Intended? {
            return Ok(Outcome([], [], Boolean(true)));
          }
        }
        return Ok(Outcome([], [Later(name, data, (stamp.value - now) as real)], Boolean(true)));
      }
      r := Call(name, data, m);
    }

    /** The browser `dispatch(packet)`, given the packet's value; `done` is
        what it has done by the time it returns or throws. */
    method Dispatch(value: Option<Packets.Element>, now: int, m: Matcher, d: Dispatching)
      returns (r: Result<Outcome>, done: Effects)
      requires Valid()
      ensures r == Dispatched(State(), value, now, discardLateMessages, m, d)
      ensures done == DispatchEffects(State(), value, now, discardLateMessages, m, d)
    {
      if value.None? {
        return Err(EmptyPacketError), NoEffects;
      }
      match value.value {
        case MessageElement(address, _, _) =>
          r := Call(address, ElementArg(value.value, None), m);
          done := if r.Ok? then EffectsOf(r.value) else NoEffects;
        case BundleElement(time, elements) =>
          r, done := DispatchElements(time, elements, now, m, d);
      }
    }

    /** `bundle.bundleElements.forEach(...)` inside `dispatch`. */
    method DispatchElements(outer: TimetagAtomic.Time, elements: seq<Packets.Element>, now: int, m: Matcher,
                            d: Dispatching) returns (r: Result<Outcome>, done: Effects)
      requires Valid()
      ensures r == ElementsDispatched(State(), outer, elements, now, discardLateMessages, m, d)
      ensures done == ElementsEffects(State(), outer, elements, now, discardLateMessages, m, d)
      decreases elements
    {
      var calls := [];
      var later := [];
      var outerStamp := TimetagAtomic.RoundedMilliseconds(outer);
      for i := 0 to |elements|
        invariant ElementsDispatched(State(), outer, elements[..i], now, discardLateMessages, m, d)
          == Ok(Outcome(calls, later, Undefined))
      {
        var e := elements[i];
        var one: Result<Outcome>;
        var part := NoEffects;
        match e {
          case MessageElement(address, _, _) =>
            one := NotifyAt(address, ElementArg(e, None), Some(outerStamp), now, m, d);
          case BundleElement(inner, nested) =>
            var innerStamp := TimetagAtomic.RoundedMilliseconds(inner);
            if d.AsWritten? {
              one := if outerStamp < innerStamp then Err(DispatchOrderError) else Err(DispatchTypeError);
            } else if innerStamp < outerStamp {
              one := Err(DispatchOrderError);
            } else {
              one, part := DispatchElements(inner, nested, now, m, d);
            }
        }
        assert one == ItemDispatched(State(), outer, e, now, discardLateMessages, m, d);
        assert elements[..i + 1][..i] == elements[..i];
        if one.Err? {
          assert part == ItemEffects(State(), outer, e, now, discardLateMessages, m, d);
          EffectsBeforeThrow(State(), outer, elements, i, now, discardLateMessages, m, d);
          return Err(one.error), Effects(calls + part.calls, later + part.later);
        }
        calls := calls + one.value.calls;
        later := later + one.value.later;
      }
      assert elements[..|elements|] == elements;
      r := Ok(Outcome(calls, later, Undefined));
      done := Effects(calls, later);
    }

    /** The browser `notify(...args)`; `done` is what it has done by the time
        it returns or throws. */
    method BrowserNotify(args: seq<Argument>, now: int, m: Matcher, d: Dispatching, fromFloat32: Messages.Word -> Num)
      returns (r: Result<Outcome>, done: Effects)
      requires Valid()
      ensures r == BrowserNotified(State(), args, now, discardLateMessages, m, d, fromFloat32)
      ensures done == BrowserEffects(State(), args, now, discardLateMessages, m, d, fromFloat32)
    {
      if |args| == 0 {
        return Err(NoArgumentError), NoEffects;
      }
      match args[0] {
        case PacketArg(p) =>
          r, done := Dispatch(p, now, m, d);
        case ElementArg(e, _) =>
          r, done := Dispatch(Some(e), now, m, d);
        case Given(v) =>
          if v.Str? {
            var data := if |args| > 1 then args[1] else Given(Null);
            var stamp := StampOf(args);
            if stamp.Err? {
              return Err(stamp.error), NoEffects;
            }
            r := NotifyAt(v.s, data, stamp.value, now, m, d);
            done := if r.Ok? then EffectsOf(r.value) else NoEffects;
          } else {
            var view := ViewOf(v);
            if view.Err? {
              return Err(view.error), NoEffects;
            }
            if |view.value| + 3 > MaxPadInput {
              return Err(UnreadView), NoEffects;
            }
            var packet := new Packets.Packet();
            var read := packet.Unpack(view.value, 0, ReadingOf(d), FramingOf(d), fromFloat32);
            if read.Err? {
              return Err(read.error), NoEffects;
            }
            r, done := Dispatch(packet.value, now, m, d);
          }
      }
    }
  }
}
