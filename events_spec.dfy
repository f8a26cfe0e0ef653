/** The subscription tables of `EventHandler` (src/events.js, and its copy in
    the browser build lib/osc.browser.js) and what `on`, `off`, `notify`,
    `call` and `dispatch` do with them, stated on values. */
module EventSpec {
  import opened Wrappers
  import opened Utils
  import opened Helpers
  import Packets
  import Messages
  import TimetagAtomic

  const NameError: string := "OSC EventHandler accepts only strings or arrays for address patterns."
  const CallbackError: string := "OSC EventHandler callback has to be a function."
  const AddressError: string := "OSC EventHandler address string contains invalid characters."
  const IdError: string := "OSC EventHandler subscription id has to be a number."
  const ArgumentsError: string := "OSC EventHandler was notified with invalid arguments."
  /** What `new RegExp(source)` throws for a source that is not a regular expression. */
  const SyntaxError: string := "SyntaxError"
  const NoArgumentError: string := "OSC EventHandler can not be called without any argument"
  const TimestampTypeError: string := "OSC EventHandler timestamp has to be a number or Date"
  const DispatchTypeError: string := "OSC EventHander dispatch() accepts only arguments of type Packet"
  const EmptyPacketError: string := "OSC EventHander dispatch() can't read empty Packets"
  const DispatchOrderError: string := "OSC Bundle timestamp is older than the timestamp of enclosed Bundles"
  /** The model's own error for a Uint8Array longer than the readers' size bound,
      which the source would go on to read. */
  const UnreadView: string := "Uint8Array beyond the modelled size"

  // ---------------------------------------------------------------------------
  // Subscriptions

  /** One subscription: the id `on` returned and the callback, known by its identity. */
  datatype Handler = Handler(id: int, callback: nat)

  /** The keys of the `eventHandlers` object: the connection status events. */
  const EventNames: set<string> := {"open", "error", "close"}

  /** The handler lists: `addressHandlers` by normalised address, with its keys
      in the order they were created, and `eventHandlers` by event name. */
  datatype Tables = Tables(keys: seq<string>, addresses: map<string, seq<Handler>>, events: map<string, seq<Handler>>)

  /** The tables of a new EventHandler. */
  const Empty: Tables := Tables([], map[], map["open" := [], "error" := [], "close" := []])

  /** Where `on` and `off` look for `name`: an event name in the event table;
      any other string or array, normalised by `prepareAddress`, in the address table. */
  datatype Target = Event(name: string) | Address(address: string)

  function TargetOf(t: Tables, name: Value): Target
    requires name.Str? || name.Array?
  {
    if name.Str? && name.s in t.events then Event(name.s) else Address(PrepareAddress(name).value)
  }

  function ListAt(m: map<string, seq<Handler>>, k: string): seq<Handler> {
    if k in m then m[k] else []
  }

  /** The handlers registered under a target; none when it has no list. */
  function Registered(t: Tables, g: Target): seq<Handler> {
    match g
    case Event(e) => ListAt(t.events, e)
    case Address(a) => ListAt(t.addresses, a)
  }

  /** Ids in 1..uuid, strictly increasing along the list. */
  predicate Ascending(hs: seq<Handler>, uuid: int) {
    && (forall i :: 0 <= i < |hs| ==> 1 <= hs[i].id <= uuid)
    && (forall i, j :: 0 <= i < j < |hs| ==> hs[i].id < hs[j].id)
  }

  /** What every EventHandler keeps: the key list names each address list once,
      the event table has exactly the three events, and each list holds ids
      that `on` has handed out, in the order it handed them out. */
  ghost predicate Consistent(t: Tables, uuid: int) {
    && 0 <= uuid
    && (forall k :: k in t.addresses <==> k in t.keys)
    && (forall i, j :: 0 <= i < j < |t.keys| ==> t.keys[i] != t.keys[j])
    && t.events.Keys == EventNames
    && (forall k :: k in t.addresses ==> Ascending(t.addresses[k], uuid))
    && (forall k :: k in t.events ==> Ascending(t.events[k], uuid))
  }

  lemma EmptyConsistent()
    ensures Consistent(Empty, 0)
  {
  }

  /** `\s` of a JavaScript regular expression. */
  predicate IsSpace(c: char) {
    || c == '\t' || c == '\n' || c == '\U{000B}' || c == '\U{000C}' || c == '\r' || c == ' '
    || c == '\U{00A0}' || c == '\U{1680}' || ('\U{2000}' <= c <= '\U{200A}')
    || c == '\U{2028}' || c == '\U{2029}' || c == '\U{202F}' || c == '\U{205F}'
    || c == '\U{3000}' || c == '\U{FEFF}'
  }

  /** The class `[#*\s[\],/{}|?]` of `on`'s address test. */
  predicate IsReserved(c: char) {
    c in "#*[],/{}|?" || IsSpace(c)
  }

  /** `address.split('/').join('')`. */
  function Unslashed(a: string): (r: string)
    ensures |r| <= |a|
    ensures forall c :: c in r <==> c in a && c != '/'
  {
    if a == [] then []
    else
      assert a == [a[0]] + a[1..];
      (if a[0] == '/' then [] else [a[0]]) + Unslashed(a[1..])
  }

  /** The test `on` applies to a normalised address before registering it. */
  predicate HasReserved(a: string) {
    exists c :: c in Unslashed(a) && IsReserved(c)
  }

  /** A pattern character or a space anywhere but in the '/' separators makes
      `on` refuse the address. */
  lemma ReservedExamples()
    ensures HasReserved("/a b") && HasReserved("/a/*") && HasReserved("/a/{b,c}")
  {
    assert ' ' in "/a b" && ' ' in Unslashed("/a b") && IsReserved(' ');
    assert '*' in "/a/*" && '*' in Unslashed("/a/*") && IsReserved('*');
    assert '{' in "/a/{b,c}" && '{' in Unslashed("/a/{b,c}") && IsReserved('{');
  }

  /** An address made of ASCII letters, digits and '/' passes `on`'s test. */
  lemma PlainAddressAccepted(a: string)
    requires forall i :: 0 <= i < |a| ==> a[i] == '/' || 'a' <= a[i] <= 'z' || 'A' <= a[i] <= 'Z' || '0' <= a[i] <= '9'
    ensures !HasReserved(a)
  {
    forall c | c in Unslashed(a) ensures !IsReserved(c) {
      assert c in a && c != '/';
      var i :| 0 <= i < |a| && a[i] == c;
      assert 'a' <= c <= 'z' || 'A' <= c <= 'Z' || '0' <= c <= '9';
    }
  }

  /** `on(name, callback)`: the name must be a string or an array and the
      callback a function; then the next id is taken, even when the address
      test then throws. An event name appends to its event list; any other
      name is normalised, checked, and appended to the address list, which is
      created at the end of the key order when missing. The result is the new
      tables, the new `uuid` and what `on` returns or throws. */
  function Subscribed(t: Tables, uuid: int, name: Value, callback: Value): (r: (Tables, int, Result<int>))
    ensures r.2.Ok? <==>
      (name.Str? || name.Array?) && callback.Function? && (TargetOf(t, name).Event? || !HasReserved(TargetOf(t, name).address))
    ensures r.1 == if (name.Str? || name.Array?) && callback.Function? then uuid + 1 else uuid
    ensures r.2.Err? ==> r.0 == t
    ensures r.2.Ok? ==> r.2.value == r.1
  {
    if !(name.Str? || name.Array?) then (t, uuid, Err(NameError))
    else if !callback.Function? then (t, uuid, Err(CallbackError))
    else
      var id := uuid + 1;
      var h := Handler(id, callback.id);
      match TargetOf(t, name)
      case Event(e) => (t.(events := t.events[e := ListAt(t.events, e) + [h]]), id, Ok(id))
      case Address(a) =>
        if HasReserved(a) then (t, id, Err(AddressError))
        else
          var keys := if a in t.addresses then t.keys else t.keys + [a];
          (t.(keys := keys, addresses := t.addresses[a := ListAt(t.addresses, a) + [h]]), id, Ok(id))
  }

  /** A successful `on` appends the new handler to the list of the name's
      target and leaves every other list as it was. */
  lemma SubscribedAppends(t: Tables, uuid: int, name: Value, callback: Value)
    requires Subscribed(t, uuid, name, callback).2.Ok?
    ensures var r := Subscribed(t, uuid, name, callback);
      && Registered(r.0, TargetOf(t, name)) == Registered(t, TargetOf(t, name)) + [Handler(r.1, callback.id)]
      && forall g :: g != TargetOf(t, name) ==> Registered(r.0, g) == Registered(t, g)
  {
  }

  lemma SubscribedEvent(t: Tables, uuid: int, name: Value, callback: Value)
    requires name.Str? && name.s in t.events && callback.Function?
    ensures Subscribed(t, uuid, name, callback)
      == (t.(events := t.events[name.s := ListAt(t.events, name.s) + [Handler(uuid + 1, callback.id)]]), uuid + 1, Ok(uuid + 1))
  {
  }

  lemma SubscribedAddress(t: Tables, uuid: int, name: Value, callback: Value, a: string)
    requires (name.Str? || name.Array?) && !(name.Str? && name.s in t.events) && callback.Function?
    requires a == PrepareAddress(name).value
    ensures HasReserved(a) ==> Subscribed(t, uuid, name, callback) == (t, uuid + 1, Err(AddressError))
    ensures !HasReserved(a) ==>
      var keys := if a in t.addresses then t.keys else t.keys + [a];
      var addresses := t.addresses[a := ListAt(t.addresses, a) + [Handler(uuid + 1, callback.id)]];
      Subscribed(t, uuid, name, callback) == (t.(keys := keys, addresses := addresses), uuid + 1, Ok(uuid + 1))
  {
  }

  /** `on` keeps the tables consistent. */
  lemma SubscribedConsistent(t: Tables, uuid: int, name: Value, callback: Value)
    requires Consistent(t, uuid)
    ensures var r := Subscribed(t, uuid, name, callback); Consistent(r.0, r.1)
  {
    var r := Subscribed(t, uuid, name, callback);
    if r.2.Ok? {
      var h := Handler(uuid + 1, callback.id);
      match TargetOf(t, name)
      case Event(e) =>
        EventAppendedConsistent(t, uuid, e, h);
      case Address(a) =>
        AddressAppendedConsistent(t, uuid, a, h);
    } else {
      WidenedConsistent(t, uuid, r.1);
    }
  }

  /** A list of ids up to `uuid` stays ascending under a larger bound. */
  lemma AscendingWiden(hs: seq<Handler>, uuid: int, bound: int)
    requires Ascending(hs, uuid) && uuid <= bound
    ensures Ascending(hs, bound)
  {
  }

  /** ... and with a handler of the next id appended. */
  lemma AscendingAppend(hs: seq<Handler>, uuid: int, h: Handler)
    requires Ascending(hs, uuid) && h.id == uuid + 1 && uuid >= 0
    ensures Ascending(hs + [h], uuid + 1)
  {
  }

  lemma WidenedConsistent(t: Tables, uuid: int, bound: int)
    requires Consistent(t, uuid) && uuid <= bound
    ensures Consistent(t, bound)
  {
    forall k | k in t.addresses ensures Ascending(t.addresses[k], bound) {
      AscendingWiden(t.addresses[k], uuid, bound);
    }
    forall k | k in t.events ensures Ascending(t.events[k], bound) {
      AscendingWiden(t.events[k], uuid, bound);
    }
  }

  lemma EventAppendedConsistent(t: Tables, uuid: int, e: string, h: Handler)
    requires Consistent(t, uuid) && h.id == uuid + 1 && e in t.events
    ensures Consistent(t.(events := t.events[e := ListAt(t.events, e) + [h]]), uuid + 1)
  {
    WidenedConsistent(t, uuid, uuid + 1);
    AscendingAppend(t.events[e], uuid, h);
  }

  lemma AddressAppendedConsistent(t: Tables, uuid: int, a: string, h: Handler)
    requires Consistent(t, uuid) && h.id == uuid + 1
    ensures var keys := if a in t.addresses then t.keys else t.keys + [a];
      Consistent(t.(keys := keys, addresses := t.addresses[a := ListAt(t.addresses, a) + [h]]), uuid + 1)
  {
    WidenedConsistent(t, uuid, uuid + 1);
    if a in t.addresses {
      AscendingAppend(t.addresses[a], uuid, h);
    } else {
      assert Ascending([] + [h], uuid + 1);
      var keys := t.keys + [a];
      forall i, j | 0 <= i < j < |keys| ensures keys[i] != keys[j] {
        if j == |t.keys| {
          assert keys[i] == t.keys[i] && t.keys[i] in t.addresses;
        }
      }
    }
  }

  /** Some handler in `hs` has the id `n`: what `some` reports. */
  predicate Found(hs: seq<Handler>, n: int) {
    exists i :: 0 <= i < |hs| && hs[i].id == n
  }

  /** `hs` after `some` has spliced out its first handler with id `n`. */
  function Without(hs: seq<Handler>, n: int): (r: seq<Handler>)
    ensures Found(hs, n) ==> |r| == |hs| - 1
    ensures !Found(hs, n) ==> r == hs
  {
    if hs == [] then []
    else if hs[0].id == n then hs[1..]
    else
      assert Found(hs, n) <==> Found(hs[1..], n) by {
        if Found(hs, n) {
          var i :| 0 <= i < |hs| && hs[i].id == n;
          assert hs[1..][i - 1].id == n;
        }
        if Found(hs[1..], n) {
          var i :| 0 <= i < |hs[1..]| && hs[1..][i].id == n;
          assert hs[i + 1].id == n;
        }
      }
      [hs[0]] + Without(hs[1..], n)
  }

  /** Removing the first handler with id `n`, found at `i`, cuts out index `i`. */
  lemma {:induction false} WithoutAt(hs: seq<Handler>, n: int, i: int)
    requires 0 <= i < |hs| && hs[i].id == n
    requires forall j :: 0 <= j < i ==> hs[j].id != n
    ensures Without(hs, n) == hs[..i] + hs[i + 1..]
    decreases i
  {
    if i > 0 {
      WithoutAt(hs[1..], n, i - 1);
      assert hs[1..][..i - 1] == hs[1..i];
      assert hs[1..][i..] == hs[i + 1..];
      assert [hs[0]] + hs[1..i] == hs[..i];
    }
  }

  /** In an ascending list the handler with a given id is the first one with it. */
  lemma AscendingFirst(hs: seq<Handler>, uuid: int, n: int) returns (i: int)
    requires Ascending(hs, uuid) && Found(hs, n)
    ensures 0 <= i < |hs| && hs[i].id == n
    ensures forall j :: 0 <= j < |hs| && j != i ==> hs[j].id != n
  {
    i :| 0 <= i < |hs| && hs[i].id == n;
  }

  /** Splicing out one handler keeps a list ascending, and leaves no handler with its id. */
  lemma WithoutAscending(hs: seq<Handler>, uuid: int, n: int)
    requires Ascending(hs, uuid)
    ensures Ascending(Without(hs, n), uuid)
    ensures !Found(Without(hs, n), n)
  {
    if Found(hs, n) {
      var i := AscendingFirst(hs, uuid, n);
      WithoutAt(hs, n, i);
      var r := hs[..i] + hs[i + 1..];
      forall j | 0 <= j < |r|
        ensures r[j] == hs[if j < i then j else j + 1]
      {
      }
      forall j | 0 <= j < |r|
        ensures 1 <= r[j].id <= uuid && r[j].id != n
      {
      }
      forall j, k | 0 <= j < k < |r|
        ensures r[j].id < r[k].id
      {
        assert hs[if j < i then j else j + 1].id < hs[if k < i then k else k + 1].id;
      }
    }
  }

  /** Removing the id of a handler just appended gives back the list before it. */
  lemma WithoutAppended(hs: seq<Handler>, n: int, callback: nat)
    requires !Found(hs, n)
    ensures Without(hs + [Handler(n, callback)], n) == hs
  {
    var l := hs + [Handler(n, callback)];
    assert forall j :: 0 <= j < |hs| ==> l[j] == hs[j];
    WithoutAt(l, n, |hs|);
    assert l[..|hs|] == hs;
  }

  /** The tables with the list of `g` replaced. */
  function Replaced(t: Tables, g: Target, hs: seq<Handler>): Tables {
    match g
    case Event(e) => t.(events := t.events[e := hs])
    case Address(a) => t.(addresses := t.addresses[a := hs])
  }

  /** `off(name, id)`: the name must be a string or an array, the id an integer;
      then the first handler with that id is spliced out of the list of the
      name's target, and `off` returns whether there was one. */
  function Unsubscribed(t: Tables, name: Value, id: Value): (r: (Tables, Result<bool>))
    ensures !(name.Str? || name.Array?) ==> r.1 == Err(NameError)
    ensures (name.Str? || name.Array?) && !IsInt(id) ==> r.1 == Err(IdError)
    ensures r.1 == Ok(true) <==>
      (name.Str? || name.Array?) && IsInt(id) && Found(Registered(t, TargetOf(t, name)), IntOf(id))
    ensures r.1 != Ok(true) ==> r.0 == t
  {
    if !(name.Str? || name.Array?) then (t, Err(NameError))
    else if !IsInt(id) then (t, Err(IdError))
    else
      var g := TargetOf(t, name);
      var hs := Registered(t, g);
      if Found(hs, IntOf(id)) then (Replaced(t, g, Without(hs, IntOf(id))), Ok(true))
      else (t, Ok(false))
  }

  /** A successful `off` shortens the list of the name's target by the one
      handler it splices out and leaves every other list as it was. */
  lemma UnsubscribedRemoves(t: Tables, name: Value, id: Value)
    requires Unsubscribed(t, name, id).1 == Ok(true)
    ensures var r := Unsubscribed(t, name, id);
      && Registered(r.0, TargetOf(t, name)) == Without(Registered(t, TargetOf(t, name)), IntOf(id))
      && |Registered(r.0, TargetOf(t, name))| == |Registered(t, TargetOf(t, name))| - 1
      && forall g :: g != TargetOf(t, name) ==> Registered(r.0, g) == Registered(t, g)
  {
  }

  /** `off` keeps the tables consistent. */
  lemma UnsubscribedConsistent(t: Tables, uuid: int, name: Value, id: Value)
    requires Consistent(t, uuid)
    ensures Consistent(Unsubscribed(t, name, id).0, uuid)
  {
    var r := Unsubscribed(t, name, id);
    if r.1 == Ok(true) {
      var g := TargetOf(t, name);
      var hs := Registered(t, g);
      match g
      case Event(e) =>
        assert e in t.events;
        WithoutAscending(hs, uuid, IntOf(id));
      case Address(a) =>
        assert a in t.addresses;
        WithoutAscending(hs, uuid, IntOf(id));
    }
  }

  /** `off` with the id `on` has just returned removes exactly that
      subscription: every list is as it was before `on`. */
  lemma SubscribeThenUnsubscribe(t: Tables, uuid: int, name: Value, callback: Value)
    requires Consistent(t, uuid)
    requires Subscribed(t, uuid, name, callback).2.Ok?
    ensures var s := Subscribed(t, uuid, name, callback);
      var u := Unsubscribed(s.0, name, Int(s.2.value));
      u.1 == Ok(true) && forall g :: Registered(u.0, g) == Registered(t, g)
  {
    var s := Subscribed(t, uuid, name, callback);
    SubscribedAppends(t, uuid, name, callback);
    var id := s.2.value;
    var g := TargetOf(t, name);
    var before := Registered(t, g);
    IntOfInt(id);
    if Unsubscribed(s.0, name, Int(id)).1 == Ok(true) {
      UnsubscribedRemoves(s.0, name, Int(id));
    }
    assert Ascending(before, uuid) by {
      match g
      case Event(e) =>
      case Address(a) =>
    }
    assert !Found(before, id);
    assert Registered(s.0, g)[|before|].id == id;
    WithoutAppended(before, id, callback.id);
  }

  /** A second `off` with the same id finds nothing: ids are never shared
      within a list. */
  lemma UnsubscribeTwice(t: Tables, uuid: int, name: Value, id: Value)
    requires Consistent(t, uuid)
    requires Unsubscribed(t, name, id).1 == Ok(true)
    ensures var u := Unsubscribed(t, name, id).0; Unsubscribed(u, name, id) == (u, Ok(false))
  {
    var g := TargetOf(t, name);
    var hs := Registered(t, g);
    assert Ascending(hs, uuid) by {
      match g
      case Event(e) =>
      case Address(a) =>
    }
    WithoutAscending(hs, uuid, IntOf(id));
  }

  /** The id `on` returns is held by no handler yet, in any list. */
  lemma SubscribedFresh(t: Tables, uuid: int, name: Value, callback: Value)
    requires Consistent(t, uuid)
    requires Subscribed(t, uuid, name, callback).2.Ok?
    ensures forall g :: !Found(Registered(t, g), Subscribed(t, uuid, name, callback).2.value)
  {
    var id := Subscribed(t, uuid, name, callback).2.value;
    forall g ensures !Found(Registered(t, g), id) {
      var hs := Registered(t, g);
      assert Ascending(hs, uuid) by {
        match g
        case Event(e) =>
        case Address(a) =>
      }
    }
  }

  // ---------------------------------------------------------------------------
  // Notification

  /** An argument of `notify`: a plain JavaScript value, a Message or a Bundle
      object (src/events.js reads the time tag a message may carry), or a
      Packet object with its value. */
  datatype Argument =
    | Given(v: Value)
    | ElementArg(e: Packets.Element, timetag: Option<TimetagAtomic.Time>)
    | PacketArg(value: Option<Packets.Element>)

  /** ToBoolean of an argument: every object is truthy. */
  predicate ArgTruthy(a: Argument) {
    !a.Given? || Truthy(a.v)
  }

  /** One callback invocation, `handler.callback(data)`. */
  datatype Call = Call(callback: nat, data: Argument)

  /** A `setTimeout` that will notify `name` with `data` after `delay` milliseconds. */
  datatype Later = Later(name: string, data: Argument, delay: real)

  /** What a notification does: the callbacks run now, in order, the
      notifications it schedules, and the value it returns. */
  datatype Outcome = Outcome(calls: seq<Call>, later: seq<Later>, returned: Value)

  /** What a notification has done by the time it returns or throws: the
      callbacks it ran and the notifications it scheduled. */
  datatype Effects = Effects(calls: seq<Call>, later: seq<Later>)

  const NoEffects: Effects := Effects([], [])

  function EffectsOf(o: Outcome): Effects {
    Effects(o.calls, o.later)
  }

  /** The regular-expression engine, which this model does not contain:
      whether `new RegExp(source)` accepts a source, and whether the compiled
      pattern `selects` a key (`regex.test(key) && key.length === regex.lastIndex`). */
  datatype Matcher = Matcher(compiles: string -> bool, selects: (string, string) -> bool)

  /** The RegExp source an event name is matched with. */
  function Pattern(name: string): string {
    PrepareRegExPattern(Str(PrepareAddress(Str(name)).value)).value
  }

  /** Each handler of `hs` called with `data`, in the order they subscribed. */
  function CallsOf(hs: seq<Handler>, data: Argument): (r: seq<Call>)
    ensures |r| == |hs|
    ensures forall i :: 0 <= i < |hs| ==> r[i] == Call(hs[i].callback, data)
  {
    if hs == [] then [] else CallsOf(hs[..|hs| - 1], data) + [Call(hs[|hs| - 1].callback, data)]
  }

  /** The handlers of every key the pattern selects, key by key in the order of `keys`. */
  function Selected(keys: seq<string>, handlers: map<string, seq<Handler>>, pattern: string, data: Argument,
                    selects: (string, string) -> bool): seq<Call>
  {
    if keys == [] then []
    else
      var k := keys[|keys| - 1];
      Selected(keys[..|keys| - 1], handlers, pattern, data, selects)
        + (if selects(pattern, k) then CallsOf(ListAt(handlers, k), data) else [])
  }

  /** One more key of the address phase adds the calls that key contributes. */
  lemma SelectedStep(keys: seq<string>, i: nat, handlers: map<string, seq<Handler>>, pattern: string, data: Argument,
                     selects: (string, string) -> bool)
    requires i < |keys|
    ensures Selected(keys[..i + 1], handlers, pattern, data, selects) ==
      Selected(keys[..i], handlers, pattern, data, selects)
        + (if selects(pattern, keys[i]) then CallsOf(ListAt(handlers, keys[i]), data) else [])
  {
    assert keys[..i + 1][..i] == keys[..i];
  }

  lemma CallsOfCallbacks(hs: seq<Handler>, data: Argument, cb: nat)
    ensures Call(cb, data) in CallsOf(hs, data) <==> exists h :: h in hs && h.callback == cb
  {
    var r := CallsOf(hs, data);
    if Call(cb, data) in r {
      var i :| 0 <= i < |r| && r[i] == Call(cb, data);
      assert hs[i] in hs;
    }
    if exists h :: h in hs && h.callback == cb {
      var h :| h in hs && h.callback == cb;
      var i :| 0 <= i < |hs| && hs[i] == h;
      assert r[i] == Call(cb, data);
    }
  }

  /** Some key of `keys` that the pattern selects holds a handler of `cb`. */
  ghost predicate SubscribedUnder(keys: seq<string>, handlers: map<string, seq<Handler>>, pattern: string,
                                  selects: (string, string) -> bool, cb: nat) {
    exists k, h :: k in keys && selects(pattern, k) && h in ListAt(handlers, k) && h.callback == cb
  }

  lemma SubscribedUnderSnoc(init: seq<string>, k: string, handlers: map<string, seq<Handler>>, pattern: string,
                            selects: (string, string) -> bool, cb: nat)
    ensures SubscribedUnder(init + [k], handlers, pattern, selects, cb) <==>
      SubscribedUnder(init, handlers, pattern, selects, cb)
        || (selects(pattern, k) && exists h :: h in ListAt(handlers, k) && h.callback == cb)
  {
    var keys := init + [k];
    if SubscribedUnder(keys, handlers, pattern, selects, cb) {
      var k', h :| k' in keys && selects(pattern, k') && h in ListAt(handlers, k') && h.callback == cb;
      if k' != k {
        assert k' in init;
      }
    }
    if SubscribedUnder(init, handlers, pattern, selects, cb) {
      var k', h :| k' in init && selects(pattern, k') && h in ListAt(handlers, k') && h.callback == cb;
      assert k' in keys;
    }
    if selects(pattern, k) && exists h :: h in ListAt(handlers, k) && h.callback == cb {
      var h :| h in ListAt(handlers, k) && h.callback == cb;
      assert k in keys;
    }
  }

  /** Every call of the address phase carries the data. */
  lemma {:induction false} SelectedData(keys: seq<string>, handlers: map<string, seq<Handler>>, pattern: string,
                                        data: Argument, selects: (string, string) -> bool)
    ensures forall c :: c in Selected(keys, handlers, pattern, data, selects) ==> c.data == data
    decreases |keys|
  {
    if keys != [] {
      var k := keys[|keys| - 1];
      SelectedData(keys[..|keys| - 1], handlers, pattern, data, selects);
      var last := if selects(pattern, k) then CallsOf(ListAt(handlers, k), data) else [];
      forall c | c in last
        ensures c.data == data
      {
        var i :| 0 <= i < |last| && last[i] == c;
      }
    }
  }

  /** A callback is run by the address phase exactly when it subscribed under
      some key that the pattern selects; every call carries the data. */
  lemma {:induction false} SelectedCallbacks(keys: seq<string>, handlers: map<string, seq<Handler>>, pattern: string,
                                            data: Argument, selects: (string, string) -> bool, cb: nat)
    ensures forall c :: c in Selected(keys, handlers, pattern, data, selects) ==> c.data == data
    ensures Call(cb, data) in Selected(keys, handlers, pattern, data, selects) <==>
      exists k, h :: k in keys && selects(pattern, k) && h in ListAt(handlers, k) && h.callback == cb
    decreases |keys|
  {
    SelectedData(keys, handlers, pattern, data, selects);
    if keys != [] {
      var init := keys[..|keys| - 1];
      var k := keys[|keys| - 1];
      SelectedCallbacks(init, handlers, pattern, data, selects, cb);
      CallsOfCallbacks(ListAt(handlers, k), data, cb);
      assert keys == init + [k];
      SubscribedUnderSnoc(init, k, handlers, pattern, selects, cb);
      var last := if selects(pattern, k) then CallsOf(ListAt(handlers, k), data) else [];
      assert Selected(keys, handlers, pattern, data, selects) == Selected(init, handlers, pattern, data, selects) + last;
    }
    assert SubscribedUnder(keys, handlers, pattern, selects, cb) <==>
      exists k, h :: k in keys && selects(pattern, k) && h in ListAt(handlers, k) && h.callback == cb;
  }

  /** The callbacks a notification of `name` runs at once: the handlers of an
      event name, or else those of every address key the name's pattern
      selects; the pattern is compiled once per key, so an invalid one throws
      as soon as there is a key. */
  function Immediate(t: Tables, name: string, data: Argument, m: Matcher): Result<seq<Call>> {
    if name in t.events then Ok(CallsOf(ListAt(t.events, name), data))
    else if t.keys != [] && !m.compiles(Pattern(name)) then Err(SyntaxError)
    else Ok(Selected(t.keys, t.addresses, Pattern(name), data, m.selects))
  }

  /** An immediate notification runs exactly the handlers of the event name,
      or exactly those subscribed under an address the pattern selects. */
  lemma ImmediateCallbacks(t: Tables, name: string, data: Argument, m: Matcher, cb: nat)
    requires Immediate(t, name, data, m).Ok?
    ensures var calls := Immediate(t, name, data, m).value;
      && (forall c :: c in calls ==> c.data == data)
      && (name in t.events ==> calls == CallsOf(ListAt(t.events, name), data))
      && (name !in t.events ==>
            (Call(cb, data) in calls <==>
             exists k, h :: k in t.keys && m.selects(Pattern(name), k) && h in ListAt(t.addresses, k) && h.callback == cb))
  {
    SelectedCallbacks(t.keys, t.addresses, Pattern(name), data, m.selects, cb);
    if name in t.events {
      var calls := CallsOf(ListAt(t.events, name), data);
      forall c | c in calls ensures c.data == data {
        var i :| 0 <= i < |calls| && calls[i] == c;
      }
    }
  }

  /** What src/events.js `notify` makes of its arguments: the event name, the
      data for the callbacks and the timestamp in milliseconds, if any. */
  datatype Notice = Notice(name: string, data: Argument, stamp: Option<real>)

  /** The arguments of src/events.js `notify`: a lone Message gives its address,
      itself, and the timestamp of its time tag when it has one; a string
      name takes truthy data (anything falsy becomes `undefined`) and an
      integer timestamp in third place; anything else throws. */
  function NoticeOf(args: seq<Argument>): (r: Result<Notice>)
    ensures r.Ok? <==>
      (|args| == 1 && args[0].ElementArg? && args[0].e.MessageElement?) || (|args| > 0 && args[0].Given? && args[0].v.Str?)
    ensures r.Ok? ==> ArgTruthy(r.value.data) || r.value.data == Given(Undefined)
    ensures r.Ok? && args[0].Given? ==>
      && r.value.name == args[0].v.s
      && (r.value.stamp.Some? <==> |args| > 2 && args[2].Given? && IsInt(args[2].v))
  {
    if |args| == 1 && args[0].ElementArg? && args[0].e.MessageElement? then
      var stamp := if args[0].timetag.Some? then Some(TimetagAtomic.ExactMilliseconds(args[0].timetag.value)) else None;
      Ok(Notice(args[0].e.address, args[0], stamp))
    else if |args| > 0 && args[0].Given? && args[0].v.Str? then
      var data := if |args| > 1 && ArgTruthy(args[1]) then args[1] else Given(Undefined);
      var stamp := if |args| > 2 && args[2].Given? && IsInt(args[2].v) then Some(IntOf(args[2].v) as real) else None;
      Ok(Notice(args[0].v.s, data, stamp))
    else Err(ArgumentsError)
  }

  /** src/events.js `notify(...args)` at time `now`: a non-zero timestamp in the
      past notifies at once (or, when late messages are discarded, not at all),
      one in the future schedules the notification; without one the handlers
      run at once. It returns true whenever it does not throw. `discardLate`
      stands for `option('discardLateMessages')`, whose import src/osc.js
      does not provide. */
  function Notified(t: Tables, args: seq<Argument>, now: int, discardLate: bool, m: Matcher): (r: Result<Outcome>)
    ensures r.Ok? ==> r.value.returned == Boolean(true)
    ensures r.Ok? ==> |r.value.later| <= 1 && (r.value.later != [] ==> r.value.calls == [] && r.value.later[0].delay >= 0.0)
  {
    var n :- NoticeOf(args);
    if n.stamp.Some? && n.stamp.value != 0.0 then
      if now as real > n.stamp.value then
        if discardLate then Ok(Outcome([], [], Boolean(true)))
        else
          var calls :- Immediate(t, n.name, n.data, m);
          Ok(Outcome(calls, [], Boolean(true)))
      else Ok(Outcome([], [Later(n.name, n.data, n.stamp.value - now as real)], Boolean(true)))
    else
      var calls :- Immediate(t, n.name, n.data, m);
      Ok(Outcome(calls, [], Boolean(true)))
  }

  /** A notification with a non-zero timestamp runs nothing now when the time
      lies ahead or late messages are discarded, and otherwise runs what an
      immediate notification runs. */
  lemma NotifiedTimed(t: Tables, name: string, data: Value, stamp: int, now: int, discardLate: bool, m: Matcher)
    requires stamp != 0
    ensures var r := Notified(t, [Given(Str(name)), Given(data), Given(Int(stamp))], now, discardLate, m);
      var d := if Truthy(data) then Given(data) else Given(Undefined);
      && (stamp >= now ==> r == Ok(Outcome([], [Later(name, d, (stamp - now) as real)], Boolean(true))))
      && (stamp < now && discardLate ==> r == Ok(Outcome([], [], Boolean(true))))
      && (stamp < now && !discardLate ==>
            (r.Ok? <==> Immediate(t, name, d, m).Ok?) && (r.Ok? ==> r.value.calls == Immediate(t, name, d, m).value))
  {
    IntOfInt(stamp);
  }

  // ---------------------------------------------------------------------------
  // The browser build: call, notify and dispatch (lib/osc.browser.js)

  /** How the browser build's `notify` and `dispatch` are read. `AsWritten`:
      a late message with `discardLateMessages` set is still scheduled; a
      nested bundle is refused when it is later than its enclosing bundle, and
      otherwise passed to `dispatch`, which refuses it for not being a Packet;
      packets are read with the codec as written. `Intended`: a late message is
      discarded; a nested bundle earlier than its enclosing one is refused and
      any other is dispatched; packets are read size by size with the
      corrected type-string test. */
  datatype Dispatching = AsWritten | Intended

  /** `call(name, data)`: the handlers `Immediate` selects run, and `call`
      reports whether any of them did. */
  function Called(t: Tables, name: string, data: Argument, m: Matcher): (r: Result<Outcome>)
    ensures r.Ok? ==> r.value.later == [] && r.value.returned == Boolean(r.value.calls != [])
    ensures r.Ok? <==> Immediate(t, name, data, m).Ok?
  {
    var calls :- Immediate(t, name, data, m);
    Ok(Outcome(calls, [], Boolean(calls != [])))
  }

  /** The browser `notify` once its name, data and timestamp are known
      (lines 821-834): a non-zero timestamp in the past calls at once unless
      late messages are discarded; otherwise the call is scheduled. */
  function Timed(t: Tables, name: string, data: Argument, stamp: Option<int>, now: int, discardLate: bool,
                 m: Matcher, d: Dispatching): (r: Result<Outcome>)
    ensures stamp.None? || stamp == Some(0) ==> r == Called(t, name, data, m)
    ensures r.Ok? && r.value.later != [] ==> r.value.calls == [] && r.value.returned == Boolean(true)
  {
    if stamp.Some? && stamp.value != 0 then
      if now > stamp.value && !discardLate then Called(t, name, data, m)
      else if now > stamp.value && d.Intended? then Ok(Outcome([], [], Boolean(true)))
      else Ok(Outcome([], [Later(name, data, (stamp.value - now) as real)], Boolean(true)))
    else Called(t, name, data, m)
  }

  /** As written, a late notification is not discarded when late messages
      are to be discarded: it is scheduled with a negative delay, so its
      handlers still run. */
  lemma LateMessageScheduled(t: Tables, name: string, data: Argument, stamp: int, now: int, m: Matcher)
    requires stamp != 0 && now > stamp
    ensures Timed(t, name, data, Some(stamp), now, true, m, AsWritten)
      == Ok(Outcome([], [Later(name, data, (stamp - now) as real)], Boolean(true)))
    ensures (stamp - now) as real < 0.0
  {
  }

  /** Read as intended, a late notification with late messages discarded
      runs nothing and schedules nothing, as src/events.js does. */
  lemma LateMessageDiscarded(t: Tables, name: string, data: Argument, stamp: int, now: int, m: Matcher)
    requires stamp != 0 && now > stamp
    ensures Timed(t, name, data, Some(stamp), now, true, m, Intended) == Ok(Outcome([], [], Boolean(true)))
  {
  }

  /** The timestamp argument of the browser `notify`: an integer or a Date's
      time when there is a third argument; anything else there throws. */
  function StampOf(args: seq<Argument>): (r: Result<Option<int>>)
    ensures r.Err? <==> |args| > 2 && !(args[2].Given? && (IsInt(args[2].v) || args[2].v.Date?))
  {
    if |args| > 2 then
      if args[2].Given? && IsInt(args[2].v) then Ok(Some(IntOf(args[2].v)))
      else if args[2].Given? && args[2].v.Date? then Ok(Some(args[2].v.time))
      else Err(TimestampTypeError)
    else Ok(None)
  }

  /** The codec settings a reading of the browser build implies. */
  function ReadingOf(d: Dispatching): Messages.Reading {
    if d.AsWritten? then Messages.AsWritten else Messages.Corrected
  }

  function FramingOf(d: Dispatching): Packets.Framing {
    if d.AsWritten? then Packets.WholeView else Packets.BySize
  }

  /** The browser `notify(...args)`: a Packet is dispatched, a Message or Bundle
      wrapped in a Packet and dispatched, a Uint8Array read as a packet and
      dispatched; a string name is notified with the data (null when absent)
      and the timestamp. Any other value throws where `dataView` throws. */
  function BrowserNotified(t: Tables, args: seq<Argument>, now: int, discardLate: bool, m: Matcher, d: Dispatching,
                           fromFloat32: Messages.Word -> Num): (r: Result<Outcome>)
    ensures |args| == 0 ==> r == Err(NoArgumentError)
    ensures |args| > 0 && args[0].Given? && args[0].v.Str? ==>
      r == (match StampOf(args)
            case Err(e) => Err(e)
            case Ok(stamp) => Timed(t, args[0].v.s, if |args| > 1 then args[1] else Given(Null), stamp, now, discardLate, m, d))
    ensures |args| > 0 && args[0].Given? && args[0].v.Blob? && |args[0].v.bytes| + 3 <= MaxPadInput ==>
      r == (match Packets.PacketUnpacked(args[0].v.bytes, 0, ReadingOf(d), FramingOf(d), fromFloat32)
            case Err(e) => Err(e)
            case Ok(u) => Dispatched(t, Some(u.element), now, discardLate, m, d))
    ensures |args| > 0 && args[0].Given? && !args[0].v.Str? && !args[0].v.Blob? ==>
      r == Err(if args[0].v.Number? && !IsIndex(args[0].v.n) then RangeError else TypeError)
  {
    if |args| == 0 then Err(NoArgumentError)
    else match args[0]
      case PacketArg(p) => Dispatched(t, p, now, discardLate, m, d)
      case ElementArg(e, _) => Dispatched(t, Some(e), now, discardLate, m, d)
      case Given(v) =>
        if v.Str? then
          var data := if |args| > 1 then args[1] else Given(Null);
          var stamp :- StampOf(args);
          Timed(t, v.s, data, stamp, now, discardLate, m, d)
        else
          var bytes :- ViewOf(v);
          if |bytes| + 3 <= MaxPadInput then
            var u :- Packets.PacketUnpacked(bytes, 0, ReadingOf(d), FramingOf(d), fromFloat32);
            Dispatched(t, Some(u.element), now, discardLate, m, d)
          else Err(UnreadView)
  }

  /** What the browser `notify(...args)` has done when it returns or throws:
      only a dispatched bundle can throw after it has run handlers or
      scheduled notifications. */
  function BrowserEffects(t: Tables, args: seq<Argument>, now: int, discardLate: bool, m: Matcher, d: Dispatching,
                          fromFloat32: Messages.Word -> Num): (r: Effects)
    ensures BrowserNotified(t, args, now, discardLate, m, d, fromFloat32).Ok? ==>
      r == EffectsOf(BrowserNotified(t, args, now, discardLate, m, d, fromFloat32).value)
    ensures |args| > 0 && args[0].PacketArg? ==> r == DispatchEffects(t, args[0].value, now, discardLate, m, d)
  {
    if |args| == 0 then NoEffects
    else match args[0]
      case PacketArg(p) => DispatchEffects(t, p, now, discardLate, m, d)
      case ElementArg(e, _) => DispatchEffects(t, Some(e), now, discardLate, m, d)
      case Given(v) =>
        if v.Str? then
          var one := BrowserNotified(t, args, now, discardLate, m, d, fromFloat32);
          if one.Ok? then EffectsOf(one.value) else NoEffects
        else
          var view := ViewOf(v);
          if view.Err? || |view.value| + 3 > MaxPadInput then NoEffects
          else
            var u := Packets.PacketUnpacked(view.value, 0, ReadingOf(d), FramingOf(d), fromFloat32);
            if u.Err? then NoEffects else DispatchEffects(t, Some(u.value.element), now, discardLate, m, d)
  }

  /** Whether `ToIndex` accepts a number as a typed array's length: NaN counts as
      0, and the integer part must lie in 0..2^53-1. */
  predicate IsIndex(n: Num) {
    n.NaN? || (n.Finite? && -1.0 < n.r < 9007199254740992.0)
  }

  /** `dataView(obj)`: a Uint8Array is read through its buffer. Reading `.buffer`
      of null or undefined throws a TypeError. Any other value is first made a
      `Uint8Array`, which throws a RangeError for a number `ToIndex` refuses, and
      then given to the `DataView` constructor, which accepts only an ArrayBuffer
      and so throws a TypeError. */
  function ViewOf(v: Value): (r: Result<seq<Byte>>)
    requires !v.Str?
    ensures r.Ok? <==> v.Blob?
    ensures v.Blob? ==> r.value == v.bytes
    ensures r == Err(RangeError) <==> v.Number? && !IsIndex(v.n)
    ensures r.Err? ==> r.error == RangeError || r.error == TypeError
  {
    match v
    case Blob(bytes) => Ok(bytes)
    case Number(n) => if IsIndex(n) then Err(TypeError) else Err(RangeError)
    case _ => Err(TypeError)
  }

  /** `dispatch(packet)` of a packet's value: a message notifies its address
      with itself; a bundle dispatches its elements in order and returns
      `undefined`. */
  function Dispatched(t: Tables, p: Option<Packets.Element>, now: int, discardLate: bool, m: Matcher,
                      d: Dispatching): (r: Result<Outcome>)
    ensures p.None? ==> r == Err(EmptyPacketError)
    ensures r.Ok? && p.value.BundleElement? ==> r.value.returned == Undefined
  {
    if p.None? then Err(EmptyPacketError)
    else match p.value
      case MessageElement(address, _, _) => Called(t, address, ElementArg(p.value, None), m)
      case BundleElement(time, elements) => ElementsDispatched(t, time, elements, now, discardLate, m, d)
  }

  /** What `dispatch(packet)` has done when it returns or throws. */
  function DispatchEffects(t: Tables, p: Option<Packets.Element>, now: int, discardLate: bool, m: Matcher,
                           d: Dispatching): (r: Effects)
    ensures Dispatched(t, p, now, discardLate, m, d).Ok? ==> r == EffectsOf(Dispatched(t, p, now, discardLate, m, d).value)
    ensures p.Some? && p.value.BundleElement? ==>
      r == ElementsEffects(t, p.value.time, p.value.elements, now, discardLate, m, d)
    ensures Dispatched(t, p, now, discardLate, m, d).Err? && !(p.Some? && p.value.BundleElement?) ==> r == NoEffects
  {
    if p.Some? && p.value.BundleElement? then ElementsEffects(t, p.value.time, p.value.elements, now, discardLate, m, d)
    else
      var one := Dispatched(t, p, now, discardLate, m, d);
      if one.Ok? then EffectsOf(one.value) else NoEffects
  }

  /** The elements of a bundle whose time tag is `outer`, dispatched in order;
      the first that throws ends the dispatch. */
  function ElementsDispatched(t: Tables, outer: TimetagAtomic.Time, elements: seq<Packets.Element>, now: int,
                              discardLate: bool, m: Matcher, d: Dispatching): (r: Result<Outcome>)
    ensures r.Ok? ==> r.value.returned == Undefined
    decreases elements, 0
  {
    if elements == [] then Ok(Outcome([], [], Undefined))
    else
      var init :- ElementsDispatched(t, outer, elements[..|elements| - 1], now, discardLate, m, d);
      var last :- ItemDispatched(t, outer, elements[|elements| - 1], now, discardLate, m, d);
      Ok(Outcome(init.calls + last.calls, init.later + last.later, Undefined))
  }

  /** One element of a bundle: a message notifies its address with itself and
      the bundle's timestamp; a nested bundle is checked against the
      enclosing time tag and then dispatched. */
  function ItemDispatched(t: Tables, outer: TimetagAtomic.Time, e: Packets.Element, now: int,
                          discardLate: bool, m: Matcher, d: Dispatching): (r: Result<Outcome>)
    decreases e, 1
  {
    var outerStamp := TimetagAtomic.RoundedMilliseconds(outer);
    match e
    case MessageElement(address, _, _) =>
      Timed(t, address, ElementArg(e, None), Some(outerStamp), now, discardLate, m, d)
    case BundleElement(inner, nested) =>
      var innerStamp := TimetagAtomic.RoundedMilliseconds(inner);
      if d.AsWritten? then
        if outerStamp < innerStamp then Err(DispatchOrderError) else Err(DispatchTypeError)
      else if innerStamp < outerStamp then Err(DispatchOrderError)
      else ElementsDispatched(t, inner, nested, now, discardLate, m, d)
  }

  /** Once an element throws, the dispatch of the elements after it does not
      change the outcome. */
  lemma {:induction false} DispatchStops(t: Tables, outer: TimetagAtomic.Time, elements: seq<Packets.Element>, i: int,
                                         now: int, discardLate: bool, m: Matcher, d: Dispatching)
    requires 0 <= i <= |elements|
    requires ElementsDispatched(t, outer, elements[..i], now, discardLate, m, d).Err?
    ensures ElementsDispatched(t, outer, elements, now, discardLate, m, d)
      == ElementsDispatched(t, outer, elements[..i], now, discardLate, m, d)
    decreases |elements| - i
  {
    if i < |elements| {
      assert elements[..i + 1][..i] == elements[..i];
      DispatchStops(t, outer, elements, i + 1, now, discardLate, m, d);
    } else {
      assert elements[..i] == elements;
    }
  }

  /** What dispatching one element of a bundle has done when it returns or
      throws. A message's `call` compiles the same pattern for every key, so
      it throws before any handler runs; a nested bundle keeps what its own
      elements did before one of them threw. */
  function ItemEffects(t: Tables, outer: TimetagAtomic.Time, e: Packets.Element, now: int,
                       discardLate: bool, m: Matcher, d: Dispatching): (r: Effects)
    ensures ItemDispatched(t, outer, e, now, discardLate, m, d).Ok? ==>
      r == EffectsOf(ItemDispatched(t, outer, e, now, discardLate, m, d).value)
    ensures e.MessageElement? && ItemDispatched(t, outer, e, now, discardLate, m, d).Err? ==> r == NoEffects
    decreases e, 1
  {
    match e
    case MessageElement(_, _, _) =>
      var one := ItemDispatched(t, outer, e, now, discardLate, m, d);
      if one.Ok? then EffectsOf(one.value) else NoEffects
    case BundleElement(inner, nested) =>
      if d.Intended? && TimetagAtomic.RoundedMilliseconds(outer) <= TimetagAtomic.RoundedMilliseconds(inner) then
        ElementsEffects(t, inner, nested, now, discardLate, m, d)
      else NoEffects
  }

  /** What the `forEach` over a bundle's elements has done when it returns or
      throws: everything the elements before the throwing one did, then what
      the throwing one did itself. */
  function ElementsEffects(t: Tables, outer: TimetagAtomic.Time, elements: seq<Packets.Element>, now: int,
                           discardLate: bool, m: Matcher, d: Dispatching): (r: Effects)
    ensures ElementsDispatched(t, outer, elements, now, discardLate, m, d).Ok? ==>
      r == EffectsOf(ElementsDispatched(t, outer, elements, now, discardLate, m, d).value)
    decreases elements, 0
  {
    if elements == [] then NoEffects
    else
      var init := ElementsDispatched(t, outer, elements[..|elements| - 1], now, discardLate, m, d);
      if init.Err? then ElementsEffects(t, outer, elements[..|elements| - 1], now, discardLate, m, d)
      else
        var last := ItemEffects(t, outer, elements[|elements| - 1], now, discardLate, m, d);
        Effects(init.value.calls + last.calls, init.value.later + last.later)
  }

  /** Once an element throws, the elements after it add no effects. */
  lemma {:induction false} EffectsStop(t: Tables, outer: TimetagAtomic.Time, elements: seq<Packets.Element>, i: int,
                                       now: int, discardLate: bool, m: Matcher, d: Dispatching)
    requires 0 <= i <= |elements|
    requires ElementsDispatched(t, outer, elements[..i], now, discardLate, m, d).Err?
    ensures ElementsEffects(t, outer, elements, now, discardLate, m, d)
      == ElementsEffects(t, outer, elements[..i], now, discardLate, m, d)
    decreases |elements| - i
  {
    if i < |elements| {
      assert elements[..i + 1][..i] == elements[..i];
      DispatchStops(t, outer, elements[..i + 1], i, now, discardLate, m, d);
      EffectsStop(t, outer, elements, i + 1, now, discardLate, m, d);
    } else {
      assert elements[..i] == elements;
    }
  }

  /** When element `i` is the first to throw, the bundle's dispatch throws,
      and the calls made and the notifications scheduled for the elements
      before it stay made, followed by what element `i` did before throwing. */
  lemma EffectsBeforeThrow(t: Tables, outer: TimetagAtomic.Time, elements: seq<Packets.Element>, i: int,
                           now: int, discardLate: bool, m: Matcher, d: Dispatching)
    requires 0 <= i < |elements|
    requires ElementsDispatched(t, outer, elements[..i], now, discardLate, m, d).Ok?
    requires ItemDispatched(t, outer, elements[i], now, discardLate, m, d).Err?
    ensures ElementsDispatched(t, outer, elements, now, discardLate, m, d)
      == Err(ItemDispatched(t, outer, elements[i], now, discardLate, m, d).error)
    ensures var before := ElementsDispatched(t, outer, elements[..i], now, discardLate, m, d).value;
      var part := ItemEffects(t, outer, elements[i], now, discardLate, m, d);
      ElementsEffects(t, outer, elements, now, discardLate, m, d)
        == Effects(before.calls + part.calls, before.later + part.later)
  {
    assert elements[..i + 1][..i] == elements[..i];
    assert elements[..i + 1][i] == elements[i];
    DispatchStops(t, outer, elements, i + 1, now, discardLate, m, d);
    EffectsStop(t, outer, elements, i + 1, now, discardLate, m, d);
  }

  /** As written, a bundle holding a message and then a nested bundle throws
      at the nested bundle, after the message's handlers have run or its
      notification has been scheduled. */
  lemma MessageBeforeNestedBundleKept(t: Tables, outer: TimetagAtomic.Time, message: Packets.Element,
                                      inner: TimetagAtomic.Time, nested: seq<Packets.Element>,
                                      now: int, discardLate: bool, m: Matcher)
    requires message.MessageElement?
    requires ItemDispatched(t, outer, message, now, discardLate, m, AsWritten).Ok?
    ensures var elements := [message, Packets.BundleElement(inner, nested)];
      && ElementsDispatched(t, outer, elements, now, discardLate, m, AsWritten).Err?
      && ElementsEffects(t, outer, elements, now, discardLate, m, AsWritten)
        == EffectsOf(ItemDispatched(t, outer, message, now, discardLate, m, AsWritten).value)
  {
    var elements := [message, Packets.BundleElement(inner, nested)];
    var first := ItemDispatched(t, outer, message, now, discardLate, m, AsWritten).value;
    assert elements[..1][..0] == [];
    assert elements[..1] == [message];
    assert ElementsDispatched(t, outer, elements[..1], now, discardLate, m, AsWritten)
      == Ok(Outcome([] + first.calls, [] + first.later, Undefined));
    EffectsBeforeThrow(t, outer, elements, 1, now, discardLate, m, AsWritten);
    assert first.calls + [] == first.calls && first.later + [] == first.later;
  }

  /** As written, a bundle whose first element is a bundle cannot be
      dispatched: the nested bundle fails the order test or is refused for
      not being a Packet. */
  lemma NestedBundleRefused(t: Tables, outer: TimetagAtomic.Time, elements: seq<Packets.Element>, now: int,
                            discardLate: bool, m: Matcher)
    requires |elements| > 0 && elements[0].BundleElement?
    ensures var r := Dispatched(t, Some(Packets.BundleElement(outer, elements)), now, discardLate, m, AsWritten);
      r == Err(DispatchOrderError) || r == Err(DispatchTypeError)
  {
    assert elements[..1][..0] == [];
    DispatchStops(t, outer, elements, 1, now, discardLate, m, AsWritten);
  }

  /** As written, the order test refuses an enclosed bundle that is later than
      the enclosing one, which OSC 1.0 allows, and lets an earlier one through
      to the next test. */
  lemma NestedOrderAsWritten(t: Tables, outer: TimetagAtomic.Time, inner: TimetagAtomic.Time, nested: seq<Packets.Element>,
                             now: int, discardLate: bool, m: Matcher)
    ensures var r := ItemDispatched(t, outer, Packets.BundleElement(inner, nested), now, discardLate, m, AsWritten);
      (r == Err(DispatchOrderError) <==> TimetagAtomic.RoundedMilliseconds(outer) < TimetagAtomic.RoundedMilliseconds(inner))
  {
  }

  /** Read as intended, an enclosed bundle earlier than the enclosing one is
      refused, and a bundle holding one nested bundle that is not earlier
      delivers exactly what the nested bundle delivers. */
  lemma NestedBundleDispatched(t: Tables, outer: TimetagAtomic.Time, inner: TimetagAtomic.Time, nested: seq<Packets.Element>,
                               now: int, discardLate: bool, m: Matcher)
    ensures TimetagAtomic.RoundedMilliseconds(inner) < TimetagAtomic.RoundedMilliseconds(outer) ==>
      Dispatched(t, Some(Packets.BundleElement(outer, [Packets.BundleElement(inner, nested)])), now, discardLate, m, Intended)
        == Err(DispatchOrderError)
    ensures TimetagAtomic.RoundedMilliseconds(outer) <= TimetagAtomic.RoundedMilliseconds(inner) ==>
      Dispatched(t, Some(Packets.BundleElement(outer, [Packets.BundleElement(inner, nested)])), now, discardLate, m, Intended)
        == Dispatched(t, Some(Packets.BundleElement(inner, nested)), now, discardLate, m, Intended)
  {
    var one := [Packets.BundleElement(inner, nested)];
    assert one[..0] == [];
    assert ElementsDispatched(t, outer, one[..0], now, discardLate, m, Intended) == Ok(Outcome([], [], Undefined));
    var item := ItemDispatched(t, outer, one[0], now, discardLate, m, Intended);
    assert ElementsDispatched(t, outer, one, now, discardLate, m, Intended)
      == if item.Err? then Err(item.error) else Ok(Outcome([] + item.value.calls, [] + item.value.later, Undefined));
    if item.Ok? {
      assert [] + item.value.calls == item.value.calls && [] + item.value.later == item.value.later;
    }
  }

  /** Every message of a dispatched bundle is notified with the bundle's
      timestamp: for a bundle of messages whose time lies ahead, nothing runs
      now and each message is scheduled, in order. */
  lemma {:induction false} FutureBundleScheduled(t: Tables, outer: TimetagAtomic.Time, elements: seq<Packets.Element>,
                                                 now: int, discardLate: bool, m: Matcher, d: Dispatching)
    requires forall i :: 0 <= i < |elements| ==> elements[i].MessageElement?
    requires TimetagAtomic.RoundedMilliseconds(outer) > now && TimetagAtomic.RoundedMilliseconds(outer) != 0
    ensures var r := ElementsDispatched(t, outer, elements, now, discardLate, m, d);
      && r.Ok? && r.value.calls == [] && |r.value.later| == |elements|
      && forall i :: 0 <= i < |elements| ==>
           r.value.later[i] == Later(elements[i].address, ElementArg(elements[i], None), (TimetagAtomic.RoundedMilliseconds(outer) - now) as real)
    decreases |elements|
  {
    if elements != [] {
      FutureBundleScheduled(t, outer, elements[..|elements| - 1], now, discardLate, m, d);
    }
  }
}
