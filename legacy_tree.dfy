/** The address tree of the early `OSCEventHandler` in src/osc.js: an address
    is cut into its segments (`_addressToArray`), and every node of the tree
    holds the callbacks subscribed to the path leading to it (the node's `_cb`
    list) and its children by segment. Subscription tokens are the decimal
    strings of a counter. */
module LegacyTree {
  import opened Wrappers

  // ---------------------------------------------------------------------------
  // Tokens

  function Digit(d: nat): (c: char)
    requires d < 10
    ensures '0' <= c <= '9'
  {
    ('0' as int + d) as char
  }

  /** `n.toString()` for a non-negative integer. */
  function Decimal(n: nat): (r: string)
    ensures |r| >= 1
    ensures n >= 10 ==> |r| >= 2
    ensures forall i :: 0 <= i < |r| ==> '0' <= r[i] <= '9'
    decreases n
  {
    if n < 10 then [Digit(n)] else Decimal(n / 10) + [Digit(n % 10)]
  }

  /** Distinct counter values give distinct tokens. */
  lemma {:induction false} DecimalInjective(a: nat, b: nat)
    ensures Decimal(a) == Decimal(b) ==> a == b
    decreases a
  {
    if Decimal(a) == Decimal(b) && a >= 10 && b >= 10 {
      var x, y := Decimal(a), Decimal(b);
      assert x[..|x| - 1] == Decimal(a / 10) && y[..|y| - 1] == Decimal(b / 10);
      DecimalInjective(a / 10, b / 10);
      assert Digit(a % 10) == x[|x| - 1] == Digit(b % 10);
    }
  }

  // ---------------------------------------------------------------------------
  // Addresses

  /** `s.split('/')`: the pieces between slashes, empty ones included. */
  function Split(s: string): (r: seq<string>)
    ensures |r| >= 1
    ensures forall i :: 0 <= i < |r| ==> '/' !in r[i]
    decreases |s|
  {
    if s == [] then [""]
    else
      var rest := Split(s[1..]);
      if s[0] == '/' then [""] + rest else [[s[0]] + rest[0]] + rest[1..]
  }

  /** `parts.join('/')`. */
  function Joined(parts: seq<string>): string
    decreases |parts|
  {
    if |parts| <= 1 then (if parts == [] then "" else parts[0]) else parts[0] + "/" + Joined(parts[1..])
  }

  /** Joining the pieces with slashes gives the string back. */
  lemma {:induction false} SplitJoined(s: string)
    ensures Joined(Split(s)) == s
    decreases |s|
  {
    if s != [] {
      var rest := Split(s[1..]);
      SplitJoined(s[1..]);
      assert s == [s[0]] + s[1..];
    }
  }

  /** `.filter(item => item.length > 0)`. */
  function NonEmpty(parts: seq<string>): (r: seq<string>)
    ensures |r| <= |parts|
    ensures forall i :: 0 <= i < |r| ==> r[i] != "" && r[i] in parts
    decreases |parts|
  {
    if parts == [] then []
    else (if parts[0] == "" then [] else [parts[0]]) + NonEmpty(parts[1..])
  }

  lemma {:induction false} NonEmptyAppend(a: seq<string>, b: seq<string>)
    ensures NonEmpty(a + b) == NonEmpty(a) + NonEmpty(b)
    decreases |a|
  {
    if a != [] {
      assert (a + b)[0] == a[0] && (a + b)[1..] == a[1..] + b;
      NonEmptyAppend(a[1..], b);
      var head := if a[0] == "" then [] else [a[0]];
      assert NonEmpty(a + b) == head + (NonEmpty(a[1..]) + NonEmpty(b));
      assert NonEmpty(a) == head + NonEmpty(a[1..]);
    } else {
      assert a + b == b;
    }
  }

  /** `_addressToArray(address)` (src/osc.js:17-21). */
  function Segments(address: string): (r: seq<string>)
    ensures forall i :: 0 <= i < |r| ==> r[i] != "" && '/' !in r[i]
  {
    NonEmpty(Split(address))
  }

  lemma {:induction false} SplitSlash(s: string)
    ensures Split(s + "/") == Split(s) + [""]
    decreases |s|
  {
    if s == [] {
      assert Split("/") == [""] + Split("");
    } else {
      assert (s + "/")[1..] == s[1..] + "/";
      SplitSlash(s[1..]);
    }
  }

  /** A trailing slash names the same node: '/a/test/' and '/a/test' have the
      same segments. */
  lemma TrailingSlashIgnored(address: string)
    ensures Segments(address + "/") == Segments(address)
  {
    SplitSlash(address);
    NonEmptyAppend(Split(address), [""]);
  }

  /** The address '/s1/s2/...' of a list of segments. */
  function PathString(segments: seq<string>): (r: string)
    ensures segments != [] ==> r != [] && r[0] == '/'
    decreases |segments|
  {
    if segments == [] then "" else "/" + segments[0] + PathString(segments[1..])
  }

  lemma {:induction false} SplitPiece(w: string, rest: seq<string>)
    requires '/' !in w
    requires forall i :: 0 <= i < |rest| ==> '/' !in rest[i]
    ensures Split(w + PathString(rest)) == [w] + rest
    decreases |w| + |PathString(rest)|
  {
    if w == [] {
      if rest != [] {
        var tail := rest[0] + PathString(rest[1..]);
        assert w + PathString(rest) == "/" + tail;
        assert ("/" + tail)[0] == '/' && ("/" + tail)[1..] == tail;
        SplitPiece(rest[0], rest[1..]);
        assert Split("/" + tail) == [""] + Split(tail);
        assert [""] + ([rest[0]] + rest[1..]) == [w] + rest;
      }
    } else {
      assert (w + PathString(rest))[1..] == w[1..] + PathString(rest);
      assert w[0] != '/' by { assert w[0] in w; }
      SplitPiece(w[1..], rest);
      assert [w[0]] + w[1..] == w;
    }
  }

  /** Segments are read back from the address they spell. */
  lemma SegmentsOfPath(segments: seq<string>)
    requires forall i :: 0 <= i < |segments| ==> segments[i] != "" && '/' !in segments[i]
    ensures Segments(PathString(segments)) == segments
  {
    SplitPiece("", segments);
    assert PathString(segments) == "" + PathString(segments);
    assert Split(PathString(segments)) == [""] + segments;
    NonEmptyAppend([""], segments);
    NonEmptyAll(segments);
  }

  lemma {:induction false} NonEmptyAll(parts: seq<string>)
    requires forall i :: 0 <= i < |parts| ==> parts[i] != ""
    ensures NonEmpty(parts) == parts
    decreases |parts|
  {
    if parts != [] {
      NonEmptyAll(parts[1..]);
      assert [parts[0]] + parts[1..] == parts;
    }
  }

  // ---------------------------------------------------------------------------
  // The tree

  /** `{ token, callback }`. */
  datatype Entry = Entry(token: string, callback: nat)

  /** A node: its `_cb` list and its children by segment. The root starts
      without a `_cb` list, which reads the same as an empty one. */
  datatype Node = Node(callbacks: seq<Entry>, children: map<string, Node>)

  const EmptyNode: Node := Node([], map[])

  /** `obj[key]`, created empty when missing, as `on`'s walk does. */
  function ChildOr(n: Node, key: string): (r: Node)
    ensures key in n.children ==> r == n.children[key]
    ensures key !in n.children ==> r == EmptyNode
  {
    if key in n.children then n.children[key] else EmptyNode
  }

  /** The node at `path` once `on`'s walk has created whatever is missing. */
  function At(n: Node, path: seq<string>): Node
    decreases |path|
  {
    if path == [] then n else At(ChildOr(n, path[0]), path[1..])
  }

  /** One more segment on the walk of `on`. */
  lemma {:induction false} AtSnoc(n: Node, path: seq<string>, key: string)
    ensures At(n, path + [key]) == ChildOr(At(n, path), key)
    decreases |path|
  {
    if path == [] {
      assert At(ChildOr(n, key), []) == ChildOr(n, key);
      assert ([] + [key])[1..] == [];
    } else {
      assert (path + [key])[0] == path[0] && (path + [key])[1..] == path[1..] + [key];
      AtSnoc(ChildOr(n, path[0]), path[1..], key);
    }
  }

  /** The tree with the node at `path` replaced by `leaf`, missing nodes on the
      way created empty. */
  function Placed(n: Node, path: seq<string>, leaf: Node): (r: Node)
    ensures path != [] ==> path[0] in r.children && r.callbacks == n.callbacks
    ensures path != [] ==> r.children.Keys == n.children.Keys + {path[0]}
    decreases |path|
  {
    if path == [] then leaf
    else n.(children := n.children[path[0] := Placed(ChildOr(n, path[0]), path[1..], leaf)])
  }

  /** The node at `path` with `e` appended to its callbacks. */
  function Appended(n: Node, path: seq<string>, e: Entry): Node {
    var target := At(n, path);
    target.(callbacks := target.callbacks + [e])
  }

  /** `on`'s effect on the tree: `e` is pushed onto the `_cb` list at `path`. */
  function Inserted(n: Node, path: seq<string>, e: Entry): Node {
    Placed(n, path, Appended(n, path, e))
  }

  /** `off`'s walk: the node at exactly `path`, if every segment is there. */
  function Find(n: Node, path: seq<string>): (r: Option<Node>)
    ensures path == [] ==> r == Some(n)
    decreases |path|
  {
    if path == [] then Some(n)
    else if path[0] in n.children then Find(n.children[path[0]], path[1..])
    else None
  }

  /** One more segment on the walk of `off`. */
  lemma {:induction false} FindSnoc(n: Node, path: seq<string>, key: string)
    ensures Find(n, path + [key]) ==
      if Find(n, path).Some? && key in Find(n, path).value.children then Some(Find(n, path).value.children[key]) else None
    decreases |path|
  {
    if path == [] {
      assert ([] + [key])[1..] == [];
    } else {
      assert (path + [key])[0] == path[0] && (path + [key])[1..] == path[1..] + [key];
      if path[0] in n.children {
        FindSnoc(n.children[path[0]], path[1..], key);
      }
    }
  }

  /** `notify`'s walk below the root: a segment that is a child moves the walk
      there and adds that node's callbacks; a segment that is not is skipped,
      and the walk goes on from the same node. */
  function Reached(n: Node, path: seq<string>): seq<Entry>
    decreases |path|
  {
    if path == [] then []
    else if path[0] in n.children then
      n.children[path[0]].callbacks + Reached(n.children[path[0]], path[1..])
    else Reached(n, path[1..])
  }

  /** Everything `notify(path)` calls: the root's callbacks, then those met on the way. */
  function Collected(n: Node, path: seq<string>): seq<Entry> {
    n.callbacks + Reached(n, path)
  }

  /** `e` sits in a node at most `d` levels below `n`. */
  ghost predicate HoldsWithin(n: Node, e: Entry, d: nat)
    decreases d
  {
    e in n.callbacks || (d > 0 && exists k :: k in n.children && HoldsWithin(n.children[k], e, d - 1))
  }

  lemma {:induction false} HoldsWithinMore(n: Node, e: Entry, d: nat, d': nat)
    requires d <= d' && HoldsWithin(n, e, d)
    ensures HoldsWithin(n, e, d')
    decreases d
  {
    if e !in n.callbacks {
      var k :| k in n.children && HoldsWithin(n.children[k], e, d - 1);
      HoldsWithinMore(n.children[k], e, d - 1, d' - 1);
    }
  }

  /** Whatever `notify` calls sits at most as deep as the path is long. */
  lemma {:induction false} ReachedWithin(n: Node, path: seq<string>, e: Entry)
    requires e in Reached(n, path)
    ensures |path| > 0 && exists k :: k in n.children && HoldsWithin(n.children[k], e, |path| - 1)
    decreases |path|
  {
    if path[0] in n.children {
      var c := n.children[path[0]];
      if e !in c.callbacks {
        ReachedWithin(c, path[1..], e);
        var k :| k in c.children && HoldsWithin(c.children[k], e, |path| - 2);
        assert HoldsWithin(c, e, |path| - 1);
      }
    } else {
      ReachedWithin(n, path[1..], e);
      var k :| k in n.children && HoldsWithin(n.children[k], e, |path| - 2);
      HoldsWithinMore(n.children[k], e, |path| - 2, |path| - 1);
    }
  }

  lemma CollectedWithin(n: Node, path: seq<string>, e: Entry)
    requires e in Collected(n, path)
    ensures HoldsWithin(n, e, |path|)
  {
    if e !in n.callbacks {
      ReachedWithin(n, path, e);
    }
  }

  /** An insertion adds its entry at depth |path| and nothing else: whatever
      the new tree holds within `d` levels, the old one did, or it is the new
      entry and `d` reaches its depth. */
  lemma {:induction false} InsertedHolds(n: Node, path: seq<string>, e: Entry, x: Entry, d: nat)
    requires HoldsWithin(Inserted(n, path, e), x, d)
    ensures HoldsWithin(n, x, d) || (x == e && |path| <= d)
    decreases |path|
  {
    var r := Inserted(n, path, e);
    if path == [] {
      assert r.children == n.children;
      if x !in r.callbacks {
        var k :| k in r.children && HoldsWithin(r.children[k], x, d - 1);
        assert k in n.children;
      }
    } else if x !in n.callbacks {
      assert r.callbacks == n.callbacks;
      var k :| k in r.children && HoldsWithin(r.children[k], x, d - 1);
      if k == path[0] {
        var c := ChildOr(n, k);
        assert r.children[k] == Inserted(c, path[1..], e);
        InsertedHolds(c, path[1..], e, x, d - 1);
        if k !in n.children {
          EmptyNodeHolds(x, d - 1);
        }
      } else {
        assert r.children[k] == n.children[k];
      }
    }
  }

  lemma EmptyNodeHolds(e: Entry, d: nat)
    ensures !HoldsWithin(EmptyNode, e, d)
  {
  }

  /** The node at `path` after an insertion there holds the new entry last. */
  lemma {:induction false} FindInserted(n: Node, path: seq<string>, e: Entry)
    ensures Find(Inserted(n, path, e), path) == Some(Appended(n, path, e))
    decreases |path|
  {
    if path != [] {
      var c := ChildOr(n, path[0]);
      FindInserted(c, path[1..], e);
      assert At(n, path) == At(c, path[1..]);
    }
  }

  /** A subscription at `path` is called by a notification of `path`. */
  lemma {:induction false} ReachedInserted(n: Node, path: seq<string>, e: Entry)
    ensures e in Collected(Inserted(n, path, e), path)
    decreases |path|
  {
    if path != [] {
      var c := ChildOr(n, path[0]);
      ReachedInserted(c, path[1..], e);
      assert At(n, path) == At(c, path[1..]);
      assert Inserted(n, path, e).children[path[0]] == Inserted(c, path[1..], e);
    }
  }

  /** `notify` calls the handlers at the root and along the path, and none
      subscribed deeper than the path goes: a fresh subscription at a longer
      path is not called. */
  lemma DeeperNotCalled(n: Node, q: seq<string>, e: Entry, p: seq<string>)
    requires |p| < |q|
    requires !HoldsWithin(n, e, |p|)
    ensures e !in Collected(Inserted(n, q, e), p)
  {
    if e in Collected(Inserted(n, q, e), p) {
      CollectedWithin(Inserted(n, q, e), p, e);
      InsertedHolds(n, q, e, e, |p|);
    }
  }

  /** The node `off` finds at any other path than the one of an insertion has
      the callbacks it had before, or is a node the insertion created. */
  lemma {:induction false} FindElsewhere(n: Node, q: seq<string>, e: Entry, p: seq<string>)
    requires p != q
    requires Find(Inserted(n, q, e), p).Some?
    ensures var m := Find(Inserted(n, q, e), p).value;
      m.callbacks == [] || (Find(n, p).Some? && m.callbacks == Find(n, p).value.callbacks)
    decreases |p|
  {
    var r := Inserted(n, q, e);
    if p == [] {
      assert r.callbacks == n.callbacks;
    } else if q == [] {
      assert r.children == n.children;
    } else {
      var c := ChildOr(n, q[0]);
      assert r.children[q[0]] == Inserted(c, q[1..], e);
      assert At(n, q) == At(c, q[1..]);
      if p[0] == q[0] {
        assert p == [p[0]] + p[1..] && q == [q[0]] + q[1..];
        FindElsewhere(c, q[1..], e, p[1..]);
        if q[0] !in n.children {
          FindEmpty(p[1..]);
          FindInEmptyTree(c, q[1..], e, p[1..]);
        }
      } else {
        assert r.children[p[0]] == n.children[p[0]];
      }
    }
  }

  lemma FindEmpty(p: seq<string>)
    ensures Find(EmptyNode, p) == if p == [] then Some(EmptyNode) else None
  {
  }

  /** Inside a subtree the insertion created, every node other than the target
      has no callbacks. */
  lemma {:induction false} FindInEmptyTree(c: Node, q: seq<string>, e: Entry, p: seq<string>)
    requires c == EmptyNode && p != q
    requires Find(Inserted(c, q, e), p).Some?
    ensures Find(Inserted(c, q, e), p).value.callbacks == []
    decreases |p|
  {
    if p != [] && q != [] {
      assert Inserted(c, q, e).children[q[0]] == Inserted(EmptyNode, q[1..], e);
      assert At(c, q) == At(EmptyNode, q[1..]);
      assert p[0] == q[0];
      assert p == [p[0]] + p[1..] && q == [q[0]] + q[1..];
      FindInEmptyTree(EmptyNode, q[1..], e, p[1..]);
    }
  }
}
