/** `OSCEventHandler` of src/osc.js (lines 23-204): the three connection
    callbacks `onOpen`, `onError` and `onClose`, and the address tree of
    LegacyTree. Tokens are the decimal strings of a counter that starts at -1.
    The functions state what `on`, `off` and `notify` do to a `Registry`
    value; the class does it step by step and is proved against them. */
module LegacyRegistry {
  import opened Wrappers
  import opened Utils
  import opened LegacyTree

  const OnError: string := "OSCEventHandler Error: on expects string/array as eventName and function as callback"
  const SlashError: string := "OSCEventHandler Error: expects string to start with a / character"
  const OffError: string := "OSCEventHandler Error: off expects string/array as eventName and a proper token"

  const CallbackNames: set<string> := {"onOpen", "onError", "onClose"}

  /** `typeof v === 'object'`. */
  predicate IsObjectType(v: Value) {
    v.Array? || v.Null? || v.Blob? || v.Date? || v.Object?
  }

  /** The segments a name that is not a string is walked by: `address.length`
      and `address[i]`, where a Uint8Array's bytes become property names by
      their decimal strings, a value without `length` walks nothing, and
      `null` or `undefined` throws. */
  function PathOf(name: Value): (r: Result<seq<string>>)
    requires !name.Str?
    ensures r.Err? <==> name.Null? || name.Undefined?
    ensures r.Err? ==> r.error == TypeError
    ensures name.Array? ==> r == Ok(name.items)
    ensures name.Blob? ==> r.Ok? && |r.value| == |name.bytes|
  {
    match name
    case Array(items) => Ok(items)
    case Blob(bytes) => Ok(Decimals(bytes))
    case Null => Err(TypeError)
    case Undefined => Err(TypeError)
    case _ => Ok([])
  }

  /** The property names `address[i]` gives for the bytes of a Uint8Array. */
  function Decimals(bytes: seq<Byte>): (r: seq<string>)
    ensures |r| == |bytes|
    decreases |bytes|
  {
    if bytes == [] then [] else [Decimal(bytes[0])] + Decimals(bytes[1..])
  }

  /** The path a name addresses: a string is cut into its segments. */
  function AddressOf(name: Value): (r: Result<seq<string>>)
    ensures name.Str? ==> r == Ok(Segments(name.s))
  {
    if name.Str? then Ok(Segments(name.s)) else PathOf(name)
  }

  /** `item.token === sToken`. */
  predicate Matches(e: Entry, token: Value) {
    token.Str? && token.s == e.token
  }

  predicate HasMatch(hs: seq<Entry>, token: Value) {
    exists i :: 0 <= i < |hs| && Matches(hs[i], token)
  }

  /** `handlers.some(...)` with `splice`: the first entry with the token goes. */
  function RemovedFirst(hs: seq<Entry>, token: Value): (r: seq<Entry>)
    ensures HasMatch(hs, token) ==> |r| == |hs| - 1
    ensures !HasMatch(hs, token) ==> r == hs
    decreases |hs|
  {
    if hs == [] then []
    else if Matches(hs[0], token) then hs[1..]
    else
      assert HasMatch(hs, token) <==> HasMatch(hs[1..], token) by {
        if HasMatch(hs, token) {
          var i :| 0 <= i < |hs| && Matches(hs[i], token);
          assert hs[1..][i - 1] == hs[i];
        }
        if HasMatch(hs[1..], token) {
          var i :| 0 <= i < |hs| - 1 && Matches(hs[1..][i], token);
          assert hs[i + 1] == hs[1..][i];
        }
      }
      [hs[0]] + RemovedFirst(hs[1..], token)
  }

  /** The removal loop over a callback list (src/osc.js:115-121): each entry
      with the token is spliced out and the index still moves on, so the
      entry after a spliced one is not looked at. */
  function Spliced(hs: seq<Entry>, token: Value): seq<Entry>
    decreases |hs|
  {
    if hs == [] then []
    else if Matches(hs[0], token) then (if |hs| == 1 then [] else [hs[1]] + Spliced(hs[2..], token))
    else [hs[0]] + Spliced(hs[1..], token)
  }

  /** When at most one entry carries the token, the list loop removes exactly
      what `some` removes. */
  lemma {:induction false} SplicedUnique(hs: seq<Entry>, token: Value)
    requires forall i, j :: 0 <= i < j < |hs| && Matches(hs[i], token) ==> !Matches(hs[j], token)
    ensures Spliced(hs, token) == RemovedFirst(hs, token)
    decreases |hs|
  {
    if hs != [] {
      if Matches(hs[0], token) {
        if |hs| > 1 {
          forall i | 0 <= i < |hs[2..]|
            ensures !Matches(hs[2..][i], token)
          {
            assert hs[2..][i] == hs[i + 2];
          }
          NoMatchUnspliced(hs[2..], token);
          assert [hs[1]] + hs[2..] == hs[1..];
        }
      } else {
        forall i, j | 0 <= i < j < |hs[1..]| && Matches(hs[1..][i], token)
          ensures !Matches(hs[1..][j], token)
        {
          assert hs[1..][i] == hs[i + 1] && hs[1..][j] == hs[j + 1];
        }
        SplicedUnique(hs[1..], token);
      }
    }
  }

  lemma {:induction false} NoMatchUnspliced(hs: seq<Entry>, token: Value)
    requires forall i :: 0 <= i < |hs| ==> !Matches(hs[i], token)
    ensures Spliced(hs, token) == hs
    decreases |hs|
  {
    if hs != [] {
      forall i | 0 <= i < |hs[1..]|
        ensures !Matches(hs[1..][i], token)
      {
        assert hs[1..][i] == hs[i + 1];
      }
      NoMatchUnspliced(hs[1..], token);
      assert [hs[0]] + hs[1..] == hs;
    }
  }

  /** The state of an `OSCEventHandler`: `_callbackHandlers`, `_addressHandlers`
      and `_uuid`. */
  datatype Registry = Registry(callbacks: map<string, seq<Entry>>, tree: Node, uuid: int)

  const Initial: Registry := Registry(map["onOpen" := [], "onError" := [], "onClose" := []], EmptyNode, -1)

  /** The registry's light invariant: exactly the three connection callback
      lists, and a counter no lower than its start value -1. It says nothing
      of the tree. */
  ghost predicate NamesAndCounter(g: Registry) {
    g.uuid >= -1 && g.callbacks.Keys == CallbackNames
  }

  /** `on(sEventName, sCallback)`: after the type check the counter moves on
      (also when the address is then refused); a connection callback name
      appends to its list, any other string must start with '/', and the
      entry is pushed at the node of the address, created on the way. */
  function Subscribed(g: Registry, name: Value, callback: Value): (r: (Registry, Result<string>))
    requires g.uuid >= -1
    ensures !((name.Str? || IsObjectType(name)) && callback.Function?) <==> r == (g, Err(OnError))
    ensures (name.Str? || IsObjectType(name)) && callback.Function? ==>
      r.0.uuid == g.uuid + 1 && (r.1.Ok? ==> r.1.value == Decimal(g.uuid + 1))
    ensures r.0.callbacks.Keys == g.callbacks.Keys
    ensures name.Str? && name.s !in g.callbacks && callback.Function? ==>
      (r.1 == Err(SlashError) <==> |name.s| == 0 || name.s[0] != '/')
    ensures r.1.Err? ==> r.0.callbacks == g.callbacks && r.0.tree == g.tree
  {
    if !((name.Str? || IsObjectType(name)) && callback.Function?) then (g, Err(OnError))
    else
      var uuid := g.uuid + 1;
      var e := Entry(Decimal(uuid), callback.id);
      if name.Str? && name.s in g.callbacks then
        (g.(callbacks := g.callbacks[name.s := g.callbacks[name.s] + [e]], uuid := uuid), Ok(e.token))
      else if name.Str? && (|name.s| == 0 || name.s[0] != '/') then
        (g.(uuid := uuid), Err(SlashError))
      else
        match AddressOf(name)
        case Err(error) => (g.(uuid := uuid), Err(error))
        case Ok(path) => (g.(tree := Inserted(g.tree, path, e), uuid := uuid), Ok(e.token))
  }

  /** `off(sEventName, sToken)`: a connection callback name runs the list
      loop; otherwise the walk looks for the node at exactly the address,
      and `some` splices the first entry with the token there. */
  function Unsubscribed(g: Registry, name: Value, token: Value): (r: (Registry, Result<bool>))
    ensures !((name.Str? || IsObjectType(name)) && Truthy(token)) <==> r == (g, Err(OffError))
    ensures r.0.uuid == g.uuid && r.0.callbacks.Keys == g.callbacks.Keys
    ensures r.1 != Ok(true) ==> r.0 == g
  {
    if !((name.Str? || IsObjectType(name)) && Truthy(token)) then (g, Err(OffError))
    else if name.Str? && name.s in g.callbacks then
      var hs := g.callbacks[name.s];
      if HasMatch(hs, token) then (g.(callbacks := g.callbacks[name.s := Spliced(hs, token)]), Ok(true))
      else (g, Ok(false))
    else
      match AddressOf(name)
      case Err(error) => (g, Err(error))
      case Ok(path) =>
        var (tree, success) := Detached(g.tree, path, token);
        (g.(tree := tree), Ok(success))
  }

  /** The address part of `off`: only the node at exactly `path` is looked
      at, and the first entry there with the token is removed. */
  function Detached(tree: Node, path: seq<string>, token: Value): (r: (Node, bool))
    ensures !r.1 ==> r.0 == tree
  {
    match Find(tree, path)
    case None => (tree, false)
    case Some(n) =>
      if HasMatch(n.callbacks, token) then (Placed(tree, path, n.(callbacks := RemovedFirst(n.callbacks, token))), true)
      else (tree, false)
  }

  /** A callback run by `notify`, with the data it receives. */
  datatype Call = Call(callback: nat, data: Value)

  function CallsOf(hs: seq<Entry>, data: Value): (r: seq<Call>)
    ensures |r| == |hs| && forall i :: 0 <= i < |hs| ==> r[i] == Call(hs[i].callback, data)
  {
    seq(|hs|, i requires 0 <= i < |hs| => Call(hs[i].callback, data))
  }

  /** `notify(sEventName, sEventData)`: a connection callback name runs its
      list; otherwise the entries met from the root along the address run. */
  function Notified(g: Registry, name: Value, data: Value): (r: Result<seq<Call>>)
    ensures name.Str? && name.s in g.callbacks ==> r == Ok(CallsOf(g.callbacks[name.s], data))
    ensures r.Err? <==> name.Null? || name.Undefined?
  {
    if name.Str? && name.s in g.callbacks then Ok(CallsOf(g.callbacks[name.s], data))
    else
      var path :- AddressOf(name);
      Ok(CallsOf(Collected(g.tree, path), data))
  }

  // ---------------------------------------------------------------------------
  // What the three operations promise together

  /** Two subscriptions in a row get different tokens. */
  lemma SuccessiveTokensDiffer(g: Registry, n1: Value, c1: Value, n2: Value, c2: Value)
    requires g.uuid >= -1
    requires Subscribed(g, n1, c1).1.Ok?
    requires Subscribed(Subscribed(g, n1, c1).0, n2, c2).1.Ok?
    ensures Subscribed(g, n1, c1).1.value != Subscribed(Subscribed(g, n1, c1).0, n2, c2).1.value
  {
    DecimalInjective(g.uuid + 1, g.uuid + 2);
  }

  /** The first token is "0", and the next "1". */
  lemma FirstTokens(n1: Value, c1: Value, n2: Value, c2: Value)
    requires Subscribed(Initial, n1, c1).1.Ok?
    requires Subscribed(Subscribed(Initial, n1, c1).0, n2, c2).1.Ok?
    ensures Subscribed(Initial, n1, c1).1.value == "0"
    ensures Subscribed(Subscribed(Initial, n1, c1).0, n2, c2).1.value == "1"
  {
  }

  /** A subscription to a path-shaped string is run by a notification of the
      same string. */
  lemma NotifyAfterOn(g: Registry, name: string, callback: nat, data: Value)
    requires g.uuid >= -1 && name !in g.callbacks && |name| > 0 && name[0] == '/'
    ensures var s := Subscribed(g, Str(name), Function(callback)).0;
      Call(callback, data) in Notified(s, Str(name), data).value
  {
    var e := Entry(Decimal(g.uuid + 1), callback);
    ReachedInserted(g.tree, Segments(name), e);
    var hs := Collected(Inserted(g.tree, Segments(name), e), Segments(name));
    var i :| 0 <= i < |hs| && hs[i] == e;
    assert CallsOf(hs, data)[i] == Call(callback, data);
  }

  /** A notification does not run a subscription made at a longer path when
      the callback was not subscribed within that depth before. */
  lemma NotifyNotDeeper(g: Registry, name: Value, callback: nat, other: Value, data: Value)
    requires g.uuid >= -1 && name.Array? && other.Array? && |other.items| < |name.items|
    requires forall x: Entry :: x.callback == callback ==> !HoldsWithin(g.tree, x, |other.items|)
    ensures var s := Subscribed(g, name, Function(callback)).0;
      Call(callback, data) !in Notified(s, other, data).value
  {
    var e := Entry(Decimal(g.uuid + 1), callback);
    var t := Inserted(g.tree, name.items, e);
    var hs := Collected(t, other.items);
    if Call(callback, data) in CallsOf(hs, data) {
      var i :| 0 <= i < |hs| && CallsOf(hs, data)[i] == Call(callback, data);
      assert hs[i] in Collected(t, other.items);
      CollectedWithin(t, other.items, hs[i]);
      InsertedHolds(g.tree, name.items, e, hs[i], |other.items|);
      assert false;
    }
  }

  /** Unsubscribing with the token `on` returned, at the same address,
      succeeds. */
  lemma OffAfterOn(g: Registry, name: Value, callback: nat)
    requires g.uuid >= -1 && (name.Array? || (name.Str? && name.s !in g.callbacks && |name.s| > 0 && name.s[0] == '/'))
    ensures var s := Subscribed(g, name, Function(callback));
      s.1.Ok? && Unsubscribed(s.0, name, Str(s.1.value)).1 == Ok(true)
  {
    var e := Entry(Decimal(g.uuid + 1), callback);
    var path := AddressOf(name).value;
    FindInserted(g.tree, path, e);
    var hs := Appended(g.tree, path, e).callbacks;
    assert Matches(hs[|hs| - 1], Str(e.token));
  }

  /** `off` finds a token only at the exact node: at any other path a token
      that was not there before the subscription is not found. */
  lemma OffOnlyAtExactNode(g: Registry, name: Value, callback: nat, other: Value)
    requires g.uuid >= -1 && name.Array? && other.Array? && other.items != name.items
    requires var tk := Decimal(g.uuid + 1);
      Find(g.tree, other.items).None? || !HasMatch(Find(g.tree, other.items).value.callbacks, Str(tk))
    ensures var s := Subscribed(g, name, Function(callback));
      Unsubscribed(s.0, other, Str(s.1.value)) == (s.0, Ok(false))
  {
    var e := Entry(Decimal(g.uuid + 1), callback);
    if Find(Inserted(g.tree, name.items, e), other.items).Some? {
      FindElsewhere(g.tree, name.items, e, other.items);
    }
  }

  /** '/' subscribes at the root, whose callbacks every address notification runs. */
  lemma RootSubscription(g: Registry, callback: nat, name: string, data: Value)
    requires g.uuid >= -1 && "/" !in g.callbacks && name !in g.callbacks
    ensures var s := Subscribed(g, Str("/"), Function(callback)).0;
      && s.tree.callbacks == g.tree.callbacks + [Entry(Decimal(g.uuid + 1), callback)]
      && Call(callback, data) in Notified(s, Str(name), data).value
  {
    assert Split("/") == [""] + Split("");
    var s := Subscribed(g, Str("/"), Function(callback)).0;
    var hs := Collected(s.tree, Segments(name));
    assert hs[|g.tree.callbacks|] == Entry(Decimal(g.uuid + 1), callback);
    assert CallsOf(hs, data)[|g.tree.callbacks|] == Call(callback, data);
  }

  /** The operations keep the connection callback names and the counter's range. */
  lemma OperationsKeepNamesAndCounter(g: Registry, name: Value, v: Value)
    requires NamesAndCounter(g)
    ensures NamesAndCounter(Subscribed(g, name, v).0)
    ensures NamesAndCounter(Unsubscribed(g, name, v).0)
  {
  }

  // ---------------------------------------------------------------------------
  // The handler object

  /** `handlers.splice(k, 1)` where `k` is the first entry with the token. */
  lemma {:induction false} RemovedFirstAt(hs: seq<Entry>, token: Value, k: nat)
    requires k < |hs| && Matches(hs[k], token)
    requires forall j :: 0 <= j < k ==> !Matches(hs[j], token)
    ensures RemovedFirst(hs, token) == hs[..k] + hs[k + 1..]
    decreases k
  {
    if k > 0 {
      RemovedFirstAt(hs[1..], token, k - 1);
      assert hs[1..][..k - 1] == hs[1..k];
      assert hs[1..][k..] == hs[k + 1..];
      assert [hs[0]] + hs[1..k] == hs[..k];
    }
  }

  /** Writes `leaf` back at the end of a walk that met `nodes` along `path`:
      each node on the way gets its updated child, as the in-place change of
      the last node shows through the parents that hold it. */
  method Rebuild(nodes: seq<Node>, path: seq<string>, leaf: Node) returns (root: Node)
    requires |nodes| == |path| + 1
    requires forall j :: 0 <= j < |path| ==> nodes[j + 1] == ChildOr(nodes[j], path[j])
    ensures root == Placed(nodes[0], path, leaf)
  {
    root := leaf;
    var j := |path|;
    while j > 0
      invariant 0 <= j <= |path|
      invariant root == Placed(nodes[j], path[j..], leaf)
    {
      j := j - 1;
      assert path[j..][0] == path[j] && path[j..][1..] == path[j + 1..];
      root := nodes[j].(children := nodes[j].children[path[j] := root]);
    }
  }

  /** The list loop of `off` after `i` steps over the current list `hs`: the
      entries already passed, then what the loop will make of the rest. Once
      the last entry is spliced the index is past the end and the list stays. */
  ghost function Pending(hs: seq<Entry>, i: nat, token: Value): seq<Entry> {
    if i <= |hs| then hs[..i] + Spliced(hs[i..], token) else hs
  }

  /** The list after one step of the loop at index `i`. */
  function SpliceStep(hs: seq<Entry>, i: nat, token: Value): (r: seq<Entry>)
    requires i < |hs|
    ensures Matches(hs[i], token) ==> |r| == |hs| - 1
  {
    if Matches(hs[i], token) then hs[..i] + hs[i + 1..] else hs
  }

  /** One step of the loop keeps what it will end with. */
  lemma PendingStep(hs: seq<Entry>, i: nat, token: Value)
    requires i < |hs|
    ensures Pending(hs, i, token) == Pending(SpliceStep(hs, i, token), i + 1, token)
  {
    var rest := hs[i..];
    assert rest[0] == hs[i];
    var next := SpliceStep(hs, i, token);
    if Matches(hs[i], token) {
      if i + 1 < |hs| {
        assert rest[1] == hs[i + 1] && rest[2..] == hs[i + 2..];
        assert next[..i + 1] == hs[..i] + [hs[i + 1]];
        assert next[i + 1..] == hs[i + 2..];
      } else {
        assert next == hs[..i];
      }
    } else {
      assert rest[1..] == hs[i + 1..];
      assert hs[..i + 1] == hs[..i] + [hs[i]];
    }
  }

  /** The loop of `off` over a connection callback list (src/osc.js:115-121). */
  method SpliceAll(list: seq<Entry>, token: Value) returns (hs: seq<Entry>, success: bool)
    ensures success == HasMatch(list, token)
    ensures hs == if success then Spliced(list, token) else list
  {
    hs := list;
    success := false;
    var i := 0;
    assert Pending(hs, 0, token) == Spliced(list, token) by {
      assert hs[..0] == [] && hs[0..] == hs;
    }
    while i < |hs|
      invariant Pending(hs, i, token) == Spliced(list, token)
      invariant !success ==> hs == list && i <= |hs| && forall j :: 0 <= j < i ==> !Matches(list[j], token)
      invariant success ==> HasMatch(list, token)
      decreases |hs| - i + 1
    {
      PendingStep(hs, i, token);
      if Matches(hs[i], token) {
        if !success {
          assert Matches(list[i], token);
        }
        success := true;
      }
      hs := SpliceStep(hs, i, token);
      i := i + 1;
    }
    if i == |hs| {
      assert hs[..i] == hs && hs[i..] == [];
    }
  }

  /** `on`'s walk (src/osc.js:84-93): each missing node is created empty and
      the walk moves into it; `nodes` are the nodes met, the root first. */
  method WalkCreating(root: Node, path: seq<string>) returns (nodes: seq<Node>)
    ensures |nodes| == |path| + 1 && nodes[0] == root
    ensures forall j :: 0 <= j < |path| ==> nodes[j + 1] == ChildOr(nodes[j], path[j])
    ensures nodes[|path|] == At(root, path)
  {
    nodes := [root];
    for i := 0 to |path|
      invariant |nodes| == i + 1 && nodes[0] == root
      invariant forall j :: 0 <= j < i ==> nodes[j + 1] == ChildOr(nodes[j], path[j])
      invariant nodes[i] == At(root, path[..i])
    {
      AtSnoc(root, path[..i], path[i]);
      assert path[..i + 1] == path[..i] + [path[i]];
      nodes := nodes + [ChildOr(nodes[i], path[i])];
    }
    assert path[..|path|] == path;
  }

  /** `off`'s walk (src/osc.js:137-143): a missing segment leaves `null`, and
      `null` stays. */
  method WalkExisting(root: Node, path: seq<string>) returns (obj: Option<Node>, nodes: seq<Node>)
    ensures obj == Find(root, path)
    ensures obj.Some? ==> |nodes| == |path| + 1 && nodes[0] == root
    ensures obj.Some? ==> forall j :: 0 <= j < |path| ==> nodes[j + 1] == ChildOr(nodes[j], path[j])
  {
    obj := Some(root);
    nodes := [root];
    for i := 0 to |path|
      invariant obj == Find(root, path[..i])
      invariant obj.Some? ==> |nodes| == i + 1 && nodes[0] == root && nodes[i] == obj.value
      invariant obj.Some? ==> forall j :: 0 <= j < i ==> nodes[j + 1] == ChildOr(nodes[j], path[j])
    {
      FindSnoc(root, path[..i], path[i]);
      assert path[..i + 1] == path[..i] + [path[i]];
      if obj.Some? && path[i] in obj.value.children {
        obj := Some(obj.value.children[path[i]]);
        nodes := nodes + [obj.value];
      } else {
        obj := None;
      }
    }
    assert path[..|path|] == path;
  }

  /** The search of `handlers.some(...)`: the index of the first entry with
      the token, or the length when there is none. */
  method FirstMatch(handlers: seq<Entry>, token: Value) returns (k: nat)
    ensures k <= |handlers|
    ensures forall j :: 0 <= j < k ==> !Matches(handlers[j], token)
    ensures k < |handlers| ==> Matches(handlers[k], token)
  {
    k := 0;
    while k < |handlers| && !Matches(handlers[k], token)
      invariant k <= |handlers|
      invariant forall j :: 0 <= j < k ==> !Matches(handlers[j], token)
    {
      k := k + 1;
    }
  }

  /** `notify`'s walk (src/osc.js:182-195), from the root's callbacks on. */
  method Collect(root: Node, path: seq<string>) returns (handlers: seq<Entry>)
    ensures handlers == Collected(root, path)
  {
    handlers := root.callbacks;
    var obj := root;
    assert path[0..] == path;
    for i := 0 to |path|
      invariant handlers + Reached(obj, path[i..]) == Collected(root, path)
    {
      assert path[i..][0] == path[i] && path[i..][1..] == path[i + 1..];
      if path[i] in obj.children {
        obj := obj.children[path[i]];
        handlers := handlers + obj.callbacks;
      }
    }
    assert path[|path|..] == [];
    assert handlers + [] == handlers;
  }

  /** The address part of `on` (src/osc.js:80-97): the walk that creates the
      missing nodes, then the push at the last one. */
  method Attach(root: Node, path: seq<string>, e: Entry) returns (tree: Node)
    ensures tree == Inserted(root, path, e)
  {
    var nodes := WalkCreating(root, path);
    var target := nodes[|path|];
    tree := Rebuild(nodes, path, target.(callbacks := target.callbacks + [e]));
  }

  /** The address part of `off` (src/osc.js:129-159): the walk, then `some`
      with `splice` on the callbacks of the node reached. */
  method Detach(root: Node, path: seq<string>, token: Value) returns (tree: Node, success: bool)
    ensures (tree, success) == Detached(root, path, token)
  {
    var obj, nodes := WalkExisting(root, path);
    if obj.None? {
      return root, false;
    }
    var handlers := obj.value.callbacks;
    var k := FirstMatch(handlers, token);
    if k < |handlers| {
      RemovedFirstAt(handlers, token, k);
      tree := Rebuild(nodes, path, obj.value.(callbacks := handlers[..k] + handlers[k + 1..]));
      return tree, true;
    }
    return root, false;
  }

  class OSCEventHandler {
    /** `_callbackHandlers`. */
    var callbackHandlers: map<string, seq<Entry>>
    /** `_addressHandlers`. */
    var addressHandlers: Node
    /** `_uuid`. */
    var uuid: int

    function State(): Registry
      reads this
    {
      Registry(callbackHandlers, addressHandlers, uuid)
    }

    ghost predicate Valid()
      reads this
    {
      NamesAndCounter(State())
    }

    constructor ()
      ensures Valid() && State() == Initial
    {
      callbackHandlers := map["onOpen" := [], "onError" := [], "onClose" := []];
      addressHandlers := EmptyNode;
      uuid := -1;
    }

    /** `on(sEventName, sCallback)`: the walk creates the missing nodes, then
        the entry is pushed at the last one. */
    method On(name: Value, callback: Value) returns (r: Result<string>)
      requires Valid()
      modifies this
      ensures Valid()
      ensures (State(), r) == Subscribed(old(State()), name, callback)
    {
      if !((name.Str? || IsObjectType(name)) && callback.Function?) {
        return Err(OnError);
      }
      uuid := uuid + 1;
      var token := Decimal(uuid);
      var e := Entry(token, callback.id);
      if name.Str? && name.s in callbackHandlers {
        callbackHandlers := callbackHandlers[name.s := callbackHandlers[name.s] + [e]];
        return Ok(token);
      }
      var address := AddressOf(name);
      if name.Str? && (|name.s| == 0 || name.s[0] != '/') {
        return Err(SlashError);
      }
      if address.Err? {
        return Err(address.error);
      }
      addressHandlers := Attach(addressHandlers, address.value, e);
      return Ok(token);
    }

    /** `off(sEventName, sToken)`. */
    method Off(name: Value, token: Value) returns (r: Result<bool>)
      requires Valid()
      modifies this
      ensures Valid()
      ensures (State(), r) == Unsubscribed(old(State()), name, token)
    {
      if !((name.Str? || IsObjectType(name)) && Truthy(token)) {
        return Err(OffError);
      }
      if name.Str? && name.s in callbackHandlers {
        var hs, success := SpliceAll(callbackHandlers[name.s], token);
        if success {
          callbackHandlers := callbackHandlers[name.s := hs];
        }
        return Ok(success);
      }
      var address := AddressOf(name);
      if address.Err? {
        return Err(address.error);
      }
      var tree, success := Detach(addressHandlers, address.value, token);
      addressHandlers := tree;
      return Ok(success);
    }

    /** `notify(sEventName, sEventData)`: the walk adds the callbacks of each
        node it reaches, then every collected callback runs. */
    method Notify(name: Value, data: Value) returns (r: Result<seq<Call>>)
      ensures r == Notified(State(), name, data)
    {
      if name.Str? && name.s in callbackHandlers {
        return Ok(CallsOf(callbackHandlers[name.s], data));
      }
      var address := AddressOf(name);
      if address.Err? {
        return Err(address.error);
      }
      var handlers := Collect(addressHandlers, address.value);
      return Ok(CallsOf(handlers, data));
    }
  }
}
