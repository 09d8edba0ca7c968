/** The segment trie of xero/routing.py: `TrieRouter.add_route` and
    `find_route`. Handlers are opaque numbers; the locks, the printing and the
    demonstration server are not modelled. A node's `param_name` is `None` or a
    string, and the code only ever tests it for truthiness, so the model keeps a
    string and lets the empty string stand for both falsy values. */
module TrieRouter {
  import opened Results

  type Handler = nat
  type Params = map<string, string>

  /** One trie node. `order` lists the keys of `children` in insertion order,
      which is the order the parameter-child search walks them in. */
  datatype Node = Node(children: map<string, Node>, order: seq<string>, handler: Option<Handler>,
                       isEnd: bool, paramName: string, wildcard: bool)

  datatype Router = Router(root: Node, routeCount: nat)

  const EmptyNode := Node(map[], [], None, false, "", false)

  function NewRouter(): Router {
    Router(EmptyNode, 0)
  }

  // ---------------------------------------------------------------------
  // Paths and segments
  // ---------------------------------------------------------------------

  /** `str.split("/")`: the pieces between slashes, empty ones included. */
  function Split(s: string): (r: seq<string>)
    ensures |r| >= 1
    ensures forall i :: 0 <= i < |r| ==> '/' !in r[i]
  {
    if |s| == 0 then [""]
    else
      var rest := Split(s[1..]);
      if s[0] == '/' then [""] + rest
      else [[s[0]] + rest[0]] + rest[1..]
  }

  /** `"/".join(parts)`. */
  function Join(parts: seq<string>): string {
    if |parts| == 0 then ""
    else if |parts| == 1 then parts[0]
    else parts[0] + "/" + Join(parts[1..])
  }

  lemma {:induction false} JoinSplit(s: string)
    ensures Join(Split(s)) == s
  {
    if |s| > 0 {
      JoinSplit(s[1..]);
      var rest := Split(s[1..]);
      if s[0] == '/' {
        assert s == "/" + s[1..];
      } else {
        if |rest| == 1 {
          assert s == [s[0]] + rest[0];
        } else {
          assert Join(rest) == rest[0] + "/" + Join(rest[1..]);
          assert s == [s[0]] + s[1..];
        }
      }
    }
  }

  lemma {:induction false} SplitPlain(a: string)
    requires '/' !in a
    ensures Split(a) == [a]
  {
    if |a| > 0 {
      SplitPlain(a[1..]);
      assert a == [a[0]] + a[1..];
    }
  }

  lemma {:induction false} SplitCons(a: string, b: string)
    requires '/' !in a
    ensures Split(a + "/" + b) == [a] + Split(b)
  {
    if |a| == 0 {
      assert a + "/" + b == "/" + b;
      assert ("/" + b)[1..] == b;
    } else {
      SplitCons(a[1..], b);
      assert (a + "/" + b)[1..] == a[1..] + "/" + b;
      assert a == [a[0]] + a[1..];
    }
  }

  /** Splitting undoes joining when no part holds a slash. */
  lemma {:induction false} SplitJoin(parts: seq<string>)
    requires |parts| >= 1 && forall i :: 0 <= i < |parts| ==> '/' !in parts[i]
    ensures Split(Join(parts)) == parts
  {
    if |parts| == 1 {
      SplitPlain(parts[0]);
    } else {
      SplitJoin(parts[1..]);
      SplitCons(parts[0], Join(parts[1..]));
    }
  }

  function Normalize(path: string): (r: string)
    ensures |r| > 0 && r[0] == '/'
    ensures |path| > 0 && path[0] == '/' ==> r == path
  {
    if |path| > 0 && path[0] == '/' then path else "/" + path
  }

  /** `path.split("/")[1:]` after the leading slash is ensured. */
  function Segments(path: string): seq<string> {
    Split(Normalize(path))[1..]
  }

  /** The segments of a slash-joined path are its parts. */
  lemma SegmentsJoin(parts: seq<string>)
    requires |parts| >= 2 && parts[0] == "" && forall i :: 0 <= i < |parts| ==> '/' !in parts[i]
    ensures Segments(Join(parts)) == parts[1..]
  {
    SplitJoin(parts);
  }

  /** A path without its leading slash names the same segments. */
  lemma SegmentsNormalized(path: string)
    ensures !(|path| > 0 && path[0] == '/') ==> Segments(path) == Segments("/" + path)
    ensures Segments(Normalize(path)) == Segments(path)
  {
  }

  predicate IsParamSegment(seg: string) {
    |seg| > 0 && seg[0] == ':'
  }

  // ---------------------------------------------------------------------
  // add_route
  // ---------------------------------------------------------------------

  /** The child under `key`, or a fresh node when there is none. */
  function ChildOrNew(n: Node, key: string): Node {
    if key in n.children then n.children[key] else EmptyNode
  }

  /** Store `child` under `key`, recording the key's insertion if it is new. */
  function WithChild(n: Node, key: string, child: Node): (r: Node)
    ensures r.children == n.children[key := child]
    ensures r.handler == n.handler && r.isEnd == n.isEnd && r.paramName == n.paramName && r.wildcard == n.wildcard
  {
    n.(children := n.children[key := child], order := if key in n.children then n.order else n.order + [key])
  }

  datatype Conflict = Conflict(existing: string, requested: string)

  /** The descent of `add_route` (lines 59-89) from `n` over `segs`. The result
      keeps every node the walk created or changed before a conflicting
      parameter name stopped it, as the Python objects do. */
  function Insert(n: Node, segs: seq<string>, h: Handler): (r: (Node, Option<Conflict>))
    decreases |segs|
  {
    if |segs| == 0 then (n.(handler := Some(h), isEnd := true), None)
    else
      var seg, rest := segs[0], segs[1..];
      if seg == "" then Insert(n, rest, h)
      else if IsParamSegment(seg) then
        var name := seg[1..];
        if n.paramName != "" && n.paramName != name then (n, Some(Conflict(n.paramName, name)))
        else
          var n1 := n.(paramName := name);
          var (c, err) := Insert(ChildOrNew(n1, seg), rest, h);
          (WithChild(n1, seg, c), err)
      else if seg == "*" then
        var n1 := n.(wildcard := true);
        var (c, err) := Insert(ChildOrNew(n1, seg), rest, h);
        (WithChild(n1, seg, c), err)
      else
        var (c, err) := Insert(ChildOrNew(n, seg), rest, h);
        (WithChild(n, seg, c), err)
  }

  datatype AddOutcome = AddOutcome(router: Router, conflict: Option<Conflict>)

  /** `add_route` (lines 41-90): it raises exactly when a `:name` segment of
      the path meets a node already holding another parameter name; otherwise
      the count grows by one and the path itself now finds the handler. The
      trie keeps its shape either way. */
  function AddRoute(rt: Router, path: string, h: Handler): (r: AddOutcome)
    ensures r.conflict.None? <==> Compatible(rt.root, Segments(path))
    ensures r.conflict.None? ==> r.router.routeCount == rt.routeCount + 1
    ensures r.conflict.Some? ==> r.router.routeCount == rt.routeCount
    ensures r.conflict.None? ==> FindRoute(r.router, path) == Ok(Matched(h, map[]))
    ensures WellFormed(rt.root) ==> WellFormed(r.router.root)
  {
    AddSegments(rt, Segments(path), h)
  }

  /** `add_route` once the path is split into segments. */
  function AddSegments(rt: Router, segs: seq<string>, h: Handler): (r: AddOutcome)
    ensures r.conflict.None? <==> Compatible(rt.root, segs)
    ensures r.conflict.None? ==> r.router.routeCount == rt.routeCount + 1
    ensures r.conflict.Some? ==> r.router.routeCount == rt.routeCount
    ensures r.conflict.None? ==> FindSegments(r.router, segs) == Ok(Matched(h, map[]))
    ensures WellFormed(rt.root) ==> WellFormed(r.router.root)
  {
    InsertFacts(rt.root, segs, h);
    var (root, err) := Insert(rt.root, segs, h);
    AddOutcome(Router(root, if err.None? then rt.routeCount + 1 else rt.routeCount), err)
  }

  // ---------------------------------------------------------------------
  // find_route
  // ---------------------------------------------------------------------

  datatype Match = NoMatch | Matched(handler: Handler, params: Params)

  /** `node.children["*"]` on a node flagged as wildcard without such a child. */
  datatype FindError = MissingWildcardChild

  /** The first key, in insertion order, that starts with a colon. */
  function FirstParamKey(order: seq<string>): (r: Option<string>)
    ensures r.Some? ==> r.value in order && IsParamSegment(r.value)
    ensures r.None? ==> forall i :: 0 <= i < |order| ==> !IsParamSegment(order[i])
  {
    if |order| == 0 then None
    else if IsParamSegment(order[0]) then Some(order[0])
    else FirstParamKey(order[1..])
  }

  /** The end-of-walk test (lines 140-143). */
  function Terminal(n: Node, params: Params): Match {
    if n.isEnd && n.handler.Some? then Matched(n.handler.value, params) else NoMatch
  }

  /** The walk of `find_route` (lines 110-143) from segment `i` on. */
  function Walk(n: Node, segs: seq<string>, i: nat, params: Params): (r: Result<Match, FindError>)
    requires i <= |segs|
    decreases |segs| - i
  {
    if i == |segs| then Ok(Terminal(n, params))
    else
      var seg := segs[i];
      if seg == "" then Walk(n, segs, i + 1, params)
      else if seg in n.children then Walk(n.children[seg], segs, i + 1, params)
      else if n.paramName != "" then
        var p := params[n.paramName := seg];
        match FirstParamKey(n.order)
        case None => Ok(NoMatch)
        case Some(k) => if k in n.children then Walk(n.children[k], segs, i + 1, p) else Ok(NoMatch)
      else if n.wildcard then
        var p := params["*" := Join(segs[i..])];
        if "*" !in n.children then Err(MissingWildcardChild)
        else Ok(Terminal(n.children["*"], p))
      else Ok(NoMatch)
  }

  function FindRoute(rt: Router, path: string): Result<Match, FindError> {
    FindSegments(rt, Segments(path))
  }

  function FindSegments(rt: Router, segs: seq<string>): Result<Match, FindError> {
    Walk(rt.root, segs, 0, map[])
  }

  // ---------------------------------------------------------------------
  // Properties
  // ---------------------------------------------------------------------

  predicate NoDupKeys(order: seq<string>) {
    forall i, j :: 0 <= i < j < |order| ==> order[i] != order[j]
  }

  /** The shape `add_route` maintains: `order` lists each child key once, and a
      node flagged as wildcard has a `*` child. */
  ghost predicate WellFormed(n: Node) {
    NoDupKeys(n.order) &&
    (forall i :: 0 <= i < |n.order| ==> n.order[i] in n.children) &&
    (forall k :: k in n.children ==> k in n.order) &&
    (n.wildcard ==> "*" in n.children) &&
    forall k :: k in n.children ==> WellFormed(n.children[k])
  }

  lemma WithChildWellFormed(n: Node, key: string, child: Node)
    requires WellFormed(n) && WellFormed(child)
    ensures WellFormed(WithChild(n, key, child))
  {
    var r := WithChild(n, key, child);
    if key !in n.children {
      assert key !in n.order;
      forall i, j | 0 <= i < j < |r.order| ensures r.order[i] != r.order[j] {
        if j == |n.order| { assert r.order[i] == n.order[i]; }
      }
    }
    forall k | k in r.children ensures WellFormed(r.children[k]) {
      if k != key { assert r.children[k] == n.children[k]; }
    }
  }

  /** Every trie `add_route` builds, even one a conflict interrupted, keeps the
      shape. */
  lemma {:induction false} InsertWellFormed(n: Node, segs: seq<string>, h: Handler)
    requires WellFormed(n)
    ensures WellFormed(Insert(n, segs, h).0)
    decreases |segs|
  {
    if |segs| > 0 {
      var seg, rest := segs[0], segs[1..];
      if seg == "" {
        InsertWellFormed(n, rest, h);
      } else if IsParamSegment(seg) {
        var name := seg[1..];
        if !(n.paramName != "" && n.paramName != name) {
          var n1 := n.(paramName := name);
          InsertWellFormed(ChildOrNew(n1, seg), rest, h);
          WithChildWellFormed(n1, seg, Insert(ChildOrNew(n1, seg), rest, h).0);
        }
      } else if seg == "*" {
        var c := Insert(ChildOrNew(n, seg), rest, h).0;
        InsertWellFormed(ChildOrNew(n, seg), rest, h);
        WithChildWellFormed(n, seg, c);
        assert WithChild(n.(wildcard := true), seg, c) == WithChild(n, seg, c).(wildcard := true);
      } else {
        InsertWellFormed(ChildOrNew(n, seg), rest, h);
        WithChildWellFormed(n, seg, Insert(ChildOrNew(n, seg), rest, h).0);
      }
    }
  }

  /** On a well-formed trie the wildcard lookup at line 134 always finds its
      child, so `find_route` never raises. */
  lemma {:induction false} WalkNeverFails(n: Node, segs: seq<string>, i: nat, params: Params)
    requires WellFormed(n) && i <= |segs|
    ensures Walk(n, segs, i, params).Ok?
    decreases |segs| - i
  {
    if i < |segs| {
      var seg := segs[i];
      if seg == "" {
        WalkNeverFails(n, segs, i + 1, params);
      } else if seg in n.children {
        WalkNeverFails(n.children[seg], segs, i + 1, params);
      } else if n.paramName != "" {
        var k := FirstParamKey(n.order);
        if k.Some? && k.value in n.children {
          WalkNeverFails(n.children[k.value], segs, i + 1, params[n.paramName := seg]);
        }
      }
    }
  }

  /** A plain path segment: neither a parameter nor the wildcard. */
  predicate Literal(seg: string) {
    !IsParamSegment(seg) && seg != "*"
  }

  /** No `:name` segment of the path meets a node that already holds another
      parameter name. */
  ghost predicate Compatible(n: Node, segs: seq<string>)
    decreases |segs|
  {
    |segs| == 0 ||
    var seg, rest := segs[0], segs[1..];
    if seg == "" then Compatible(n, rest)
    else if IsParamSegment(seg) then
      (n.paramName == "" || n.paramName == seg[1..]) && Compatible(ChildOrNew(n, seg), rest)
    else Compatible(ChildOrNew(n, seg), rest)
  }

  /** Registration raises exactly on an incompatible path. */
  lemma {:induction false} InsertConflict(n: Node, segs: seq<string>, h: Handler)
    ensures Insert(n, segs, h).1.None? <==> Compatible(n, segs)
    decreases |segs|
  {
    if |segs| > 0 {
      var seg, rest := segs[0], segs[1..];
      if seg == "" {
        InsertConflict(n, rest, h);
      } else if IsParamSegment(seg) {
        InsertConflict(ChildOrNew(n.(paramName := seg[1..]), seg), rest, h);
        assert ChildOrNew(n.(paramName := seg[1..]), seg) == ChildOrNew(n, seg);
      } else if seg == "*" {
        InsertConflict(ChildOrNew(n.(wildcard := true), seg), rest, h);
        assert ChildOrNew(n.(wildcard := true), seg) == ChildOrNew(n, seg);
      } else {
        InsertConflict(ChildOrNew(n, seg), rest, h);
      }
    }
  }

  /** A path of plain segments is compatible with every trie. */
  lemma {:induction false} LiteralCompatible(n: Node, segs: seq<string>)
    requires forall i :: 0 <= i < |segs| ==> Literal(segs[i])
    ensures Compatible(n, segs)
    decreases |segs|
  {
    if |segs| > 0 {
      LiteralCompatible(if segs[0] == "" then n else ChildOrNew(n, segs[0]), segs[1..]);
    }
  }

  lemma {:induction false} WalkShift(n: Node, segs: seq<string>, i: nat, params: Params)
    requires 1 <= i <= |segs|
    ensures Walk(n, segs, i, params) == Walk(n, segs[1..], i - 1, params)
    decreases |segs| - i
  {
    if i < |segs| {
      assert segs[1..][i - 1] == segs[i];
      assert segs[1..][i - 1..] == segs[i..];
      var seg := segs[i];
      if seg == "" {
        WalkShift(n, segs, i + 1, params);
      } else if seg in n.children {
        WalkShift(n.children[seg], segs, i + 1, params);
      } else if n.paramName != "" {
        var k := FirstParamKey(n.order);
        if k.Some? && k.value in n.children {
          WalkShift(n.children[k.value], segs, i + 1, params[n.paramName := seg]);
        }
      }
    }
  }

  /** Registering a compatible path succeeds, and looking the same path up
      afterwards finds the handler just registered with no parameters,
      whatever was registered before (a later registration overwrites): each
      segment, `:name` and `*` included, is now a child key, and the exact
      child is tried first. */
  lemma {:induction false} AddThenFind(n: Node, segs: seq<string>, h: Handler, params: Params)
    requires Compatible(n, segs)
    ensures Insert(n, segs, h).1.None?
    ensures Walk(Insert(n, segs, h).0, segs, 0, params) == Ok(Matched(h, params))
    decreases |segs|
  {
    InsertConflict(n, segs, h);
    if |segs| > 0 {
      var seg, rest := segs[0], segs[1..];
      var n' := Insert(n, segs, h).0;
      if seg == "" {
        AddThenFind(n, rest, h, params);
        WalkShift(n', segs, 1, params);
      } else {
        var n1 := if IsParamSegment(seg) then n.(paramName := seg[1..])
                  else if seg == "*" then n.(wildcard := true) else n;
        assert ChildOrNew(n1, seg) == ChildOrNew(n, seg);
        AddThenFind(ChildOrNew(n, seg), rest, h, params);
        assert n'.children[seg] == Insert(ChildOrNew(n, seg), rest, h).0;
        WalkShift(n'.children[seg], segs, 1, params);
      }
    }
  }

  /** The same for whole paths through the router: normalisation and the
      leading slash included, the count grows by one. Paths of plain segments
      are always compatible. */
  lemma AddRouteThenFind(rt: Router, path: string, h: Handler)
    requires Compatible(rt.root, Segments(path))
    ensures AddRoute(rt, path, h).conflict.None?
    ensures FindRoute(AddRoute(rt, path, h).router, path) == Ok(Matched(h, map[]))
    ensures AddRoute(rt, path, h).router.routeCount == rt.routeCount + 1
  {
    AddThenFind(rt.root, Segments(path), h, map[]);
  }

  /** What `add_route` guarantees of the trie, gathered for `AddSegments`. */
  lemma InsertFacts(n: Node, segs: seq<string>, h: Handler)
    ensures Insert(n, segs, h).1.None? <==> Compatible(n, segs)
    ensures Insert(n, segs, h).1.None? ==> Walk(Insert(n, segs, h).0, segs, 0, map[]) == Ok(Matched(h, map[]))
    ensures WellFormed(n) ==> WellFormed(Insert(n, segs, h).0)
  {
    InsertConflict(n, segs, h);
    if Compatible(n, segs) {
      AddThenFind(n, segs, h, map[]);
    }
    if WellFormed(n) {
      InsertWellFormed(n, segs, h);
    }
  }

  /** The node `add_route` has reached after `segs`: the existing child, or
      a fresh node where there is none, empty segments skipped. */
  function Descend(n: Node, segs: seq<string>): Node
    decreases |segs|
  {
    if |segs| == 0 then n
    else if segs[0] == "" then Descend(n, segs[1..])
    else Descend(ChildOrNew(n, segs[0]), segs[1..])
  }

  /** A path is compatible exactly when its prefix is, and the rest is
      compatible with the node the prefix reaches. */
  lemma {:induction false} CompatibleAppend(n: Node, pre: seq<string>, suffix: seq<string>)
    ensures Compatible(n, pre + suffix) <==> Compatible(n, pre) && Compatible(Descend(n, pre), suffix)
    decreases |pre|
  {
    if |pre| > 0 {
      assert (pre + suffix)[0] == pre[0] && (pre + suffix)[1..] == pre[1..] + suffix;
      if pre[0] == "" {
        CompatibleAppend(n, pre[1..], suffix);
      } else {
        CompatibleAppend(ChildOrNew(n, pre[0]), pre[1..], suffix);
      }
    } else {
      assert pre + suffix == suffix;
    }
  }

  /** Registration descends through a compatible prefix without raising, and
      a request that repeats the prefix walks down the child keys it created
      to the node where the rest of the registration happened. */
  lemma {:induction false} WalkPrefix(n: Node, pre: seq<string>, suffix: seq<string>, tail: seq<string>, h: Handler, params: Params)
    requires Compatible(n, pre)
    ensures Insert(n, pre + suffix, h).1 == Insert(Descend(n, pre), suffix, h).1
    ensures Walk(Insert(n, pre + suffix, h).0, pre + tail, 0, params) ==
            Walk(Insert(Descend(n, pre), suffix, h).0, tail, 0, params)
    decreases |pre|
  {
    if |pre| == 0 {
      assert pre + suffix == suffix && pre + tail == tail;
    } else {
      var seg := pre[0];
      assert (pre + suffix)[0] == seg && (pre + suffix)[1..] == pre[1..] + suffix;
      assert (pre + tail)[0] == seg && (pre + tail)[1..] == pre[1..] + tail;
      var x := Insert(n, pre + suffix, h).0;
      if seg == "" {
        WalkPrefix(n, pre[1..], suffix, tail, h, params);
        WalkShift(x, pre + tail, 1, params);
      } else {
        var n1 := if IsParamSegment(seg) then n.(paramName := seg[1..])
                  else if seg == "*" then n.(wildcard := true) else n;
        assert ChildOrNew(n1, seg) == ChildOrNew(n, seg);
        var c := Insert(ChildOrNew(n, seg), pre[1..] + suffix, h).0;
        assert x == WithChild(n1, seg, c);
        WalkPrefix(ChildOrNew(n, seg), pre[1..], suffix, tail, h, params);
        WalkShift(c, pre + tail, 1, params);
      }
    }
  }

  /** Every parameter child of `n` is `:x`, and a `:x` child is listed in the
      insertion order, as on a trie that has only ever seen the name `x` here. */
  predicate OnlyParam(n: Node, x: string) {
    (forall i :: 0 <= i < |n.order| ==> IsParamSegment(n.order[i]) ==> n.order[i] == ":" + x) &&
    (":" + x in n.children ==> ":" + x in n.order)
  }

  lemma {:induction false} FirstParamOnly(order: seq<string>, key: string)
    requires IsParamSegment(key) && key in order
    requires forall i :: 0 <= i < |order| ==> IsParamSegment(order[i]) ==> order[i] == key
    ensures FirstParamKey(order) == Some(key)
  {
    if !IsParamSegment(order[0]) {
      assert key in order[1..];
      FirstParamOnly(order[1..], key);
    }
  }

  /** One level of parameter binding: at a node where `:x` was registered
      followed by `post`, a segment `v` that is not a child key binds `x` to
      `v` and the walk goes on through the `:x` child. */
  lemma ParamStep(m: Node, x: string, post: seq<string>, v: string, h: Handler, params: Params)
    requires x != "" && (m.paramName == "" || m.paramName == x) && OnlyParam(m, x)
    requires Compatible(ChildOrNew(m, ":" + x), post)
    requires v != "" && v != ":" + x && v !in m.children
    ensures Walk(Insert(m, [":" + x] + post, h).0, [v] + post, 0, params) == Ok(Matched(h, params[x := v]))
  {
    var key := ":" + x;
    assert IsParamSegment(key) && key[1..] == x;
    assert ([key] + post)[0] == key && ([key] + post)[1..] == post;
    var m1 := m.(paramName := x);
    assert ChildOrNew(m1, key) == ChildOrNew(m, key);
    var c := Insert(ChildOrNew(m, key), post, h).0;
    var m' := WithChild(m1, key, c);
    assert Insert(m, [key] + post, h).0 == m';
    assert key in m'.order;
    FirstParamOnly(m'.order, key);
    AddThenFind(ChildOrNew(m, key), post, h, params[x := v]);
    WalkShift(c, [v] + post, 1, params[x := v]);
    assert ([v] + post)[1..] == post;
  }

  /** Parameter binding for every registration: after registering
      `pre + [":x"] + post` on a compatible trie, the request
      `pre + [v] + post` finds the same handler with `x` bound to `v`,
      provided `x` is a real name and `v` is a non-empty segment that is no
      child key of the node `pre` leads to (the exact match is tried first),
      and that node has no other parameter child. */
  lemma ParamBinds(rt: Router, pre: seq<string>, x: string, post: seq<string>, v: string, h: Handler)
    requires Compatible(rt.root, pre + [":" + x] + post)
    requires x != "" && v != "" && v != ":" + x
    requires v !in Descend(rt.root, pre).children && OnlyParam(Descend(rt.root, pre), x)
    ensures var r := AddSegments(rt, pre + [":" + x] + post, h);
      r.conflict.None? && FindSegments(r.router, pre + [v] + post) == Ok(Matched(h, map[x := v]))
  {
    var key := ":" + x;
    assert pre + [key] + post == pre + ([key] + post);
    assert pre + [v] + post == pre + ([v] + post);
    CompatibleAppend(rt.root, pre, [key] + post);
    var m := Descend(rt.root, pre);
    assert ([key] + post)[0] == key && ([key] + post)[1..] == post && IsParamSegment(key) && key[1..] == x;
    WalkPrefix(rt.root, pre, [key] + post, [v] + post, h, map[]);
    ParamStep(m, x, post, v, h, map[]);
  }

  /** Wildcard capture for every registration: after registering
      `pre + ["*"]` on a trie where `pre` is compatible, a request
      `pre + rest` finds the handler with "*" bound to the rest of the path
      joined by slashes, provided the first segment of `rest` is non-empty,
      no child key there, and the node has no parameter name (the parameter
      match is tried before the wildcard). */
  lemma WildcardCaptures(rt: Router, pre: seq<string>, rest: seq<string>, h: Handler)
    requires Compatible(rt.root, pre)
    requires |rest| > 0 && rest[0] != "" && rest[0] != "*"
    requires rest[0] !in Descend(rt.root, pre).children && Descend(rt.root, pre).paramName == ""
    ensures var r := AddSegments(rt, pre + ["*"], h);
      r.conflict.None? && FindSegments(r.router, pre + rest) == Ok(Matched(h, map["*" := Join(rest)]))
  {
    var m := Descend(rt.root, pre);
    assert ["*"][1..] == [] && !IsParamSegment("*");
    assert Compatible(m, ["*"]);
    CompatibleAppend(rt.root, pre, ["*"]);
    WalkPrefix(rt.root, pre, ["*"], rest, h, map[]);
    var c := Insert(ChildOrNew(m, "*"), [], h).0;
    assert ChildOrNew(m.(wildcard := true), "*") == ChildOrNew(m, "*");
    var m' := WithChild(m.(wildcard := true), "*", c);
    assert Insert(m, ["*"], h).0 == m';
    assert rest[0..] == rest;
    assert Walk(m', rest, 0, map[]) == Ok(Terminal(c, map["*" := Join(rest)]));
  }

  /** The path is spelled out by child keys from `n`, empty segments skipped:
      the segments of a route registered earlier. */
  ghost predicate Exact(n: Node, segs: seq<string>)
    decreases |segs|
  {
    |segs| == 0 ||
    if segs[0] == "" then Exact(n, segs[1..])
    else segs[0] in n.children && Exact(n.children[segs[0]], segs[1..])
  }

  /** Registering a route leaves every other registered route as it was:
      looking up the segments of an earlier route (spelled out by child keys)
      that differ from the new one, empty segments aside, gives the same
      answer before and after. */
  lemma {:induction false} AddKeepsRoutes(n: Node, segs: seq<string>, h: Handler, prior: seq<string>, params: Params)
    requires Insert(n, segs, h).1.None? && Exact(n, prior) && NonEmpty(prior) != NonEmpty(segs)
    ensures Walk(Insert(n, segs, h).0, prior, 0, params) == Walk(n, prior, 0, params)
    decreases |prior| + |segs|
  {
    var n' := Insert(n, segs, h).0;
    if |prior| > 0 && prior[0] == "" {
      AddKeepsRoutes(n, segs, h, prior[1..], params);
      WalkShift(n', prior, 1, params);
      WalkShift(n, prior, 1, params);
    } else if |segs| > 0 && segs[0] == "" {
      AddKeepsRoutes(n, segs[1..], h, prior, params);
    } else if |segs| == 0 {
      assert n'.children == n.children;
    } else if |prior| > 0 {
      var a, b := prior[0], segs[0];
      var n1 := if IsParamSegment(b) then n.(paramName := b[1..])
                else if b == "*" then n.(wildcard := true) else n;
      assert ChildOrNew(n1, b) == ChildOrNew(n, b);
      var c := Insert(ChildOrNew(n, b), segs[1..], h).0;
      assert n' == WithChild(n1, b, c);
      if a == b {
        assert NonEmpty(prior) == [a] + NonEmpty(prior[1..]) && NonEmpty(segs) == [b] + NonEmpty(segs[1..]);
        AddKeepsRoutes(n.children[a], segs[1..], h, prior[1..], params);
        WalkShift(c, prior, 1, params);
        WalkShift(n.children[a], prior, 1, params);
      }
    }
  }

  /** Registering a second parameter name under the same parent raises, and
      the failed registration is not counted: `/users/:id`, then `/users/:name`. */
  lemma ConflictingParameter()
    ensures var r1 := AddSegments(NewRouter(), ["users", ":id"], 1);
      var r2 := AddSegments(r1.router, ["users", ":name"], 2);
      r1.conflict.None? && r2.conflict == Some(Conflict("id", "name")) && r2.router.routeCount == 1
  {
    hide Compatible, WellFormed, FindSegments, Walk;
  }

  /** The route table of the demonstration server (xero/routing.py:199-213),
      handlers numbered 1 to 8 in registration order: home, users, posts, api,
      user detail, post detail, search, files. */
  function DemoRouter(): Router {
    var r4 := DemoStatic();
    var r5 := AddSegments(r4, ["users", ":id"], 5).router;
    var r6 := AddSegments(r5, ["posts", ":id"], 6).router;
    var r7 := AddSegments(r6, ["search", ":query"], 7).router;
    AddSegments(r7, ["files", "*"], 8).router
  }

  /** The first four registrations: home, users, posts, api. */
  function DemoStatic(): Router {
    var r0 := NewRouter();
    var r1 := AddSegments(r0, [""], 1).router;
    var r2 := AddSegments(r1, ["users"], 2).router;
    var r3 := AddSegments(r2, ["posts"], 3).router;
    AddSegments(r3, ["api"], 4).router
  }

  function StaticTrie(): Node {
    Node(map["users" := Leaf(2), "posts" := Leaf(3), "api" := Leaf(4)], ["users", "posts", "api"], Some(1), true, "", false)
  }

  /** The static routes register without conflict into a root with three
      children. */
  lemma DemoStaticShape()
    ensures DemoStatic() == Router(StaticTrie(), 4)
  {
    hide Compatible, WellFormed, FindSegments, Walk;
    var u := Leaf(2);
    var p := Leaf(3);
    var t1 := Node(map[], [], Some(1), true, "", false);
    var t2 := Node(map["users" := u], ["users"], Some(1), true, "", false);
    var t3 := Node(map["users" := u, "posts" := p], ["users", "posts"], Some(1), true, "", false);
    var r1 := AddSegments(NewRouter(), [""], 1);
    assert r1 == AddOutcome(Router(t1, 1), None);
    var r2 := AddSegments(r1.router, ["users"], 2);
    assert r2 == AddOutcome(Router(t2, 2), None);
    var r3 := AddSegments(r2.router, ["posts"], 3);
    assert r3 == AddOutcome(Router(t3, 3), None);
    var r4 := AddSegments(r3.router, ["api"], 4);
    assert r4 == AddOutcome(Router(StaticTrie(), 4), None);
  }

  function Leaf(h: Handler): Node {
    Node(map[], [], Some(h), true, "", false)
  }

  /** The trie those eight registrations build. */
  function DemoTrie(): Node {
    Node(map["users" := Node(map[":id" := Leaf(5)], [":id"], Some(2), true, "id", false),
             "posts" := Node(map[":id" := Leaf(6)], [":id"], Some(3), true, "id", false),
             "api" := Leaf(4),
             "search" := Node(map[":query" := Leaf(7)], [":query"], None, false, "query", false),
             "files" := Node(map["*" := Leaf(8)], ["*"], None, false, "", true)],
         ["users", "posts", "api", "search", "files"], Some(1), true, "", false)
  }

  /** The trie after `/users/:id`, `/posts/:id` and `/search/:query`. */
  function UsersTrie(): Node {
    var t := StaticTrie();
    t.(children := t.children["users" := Node(map[":id" := Leaf(5)], [":id"], Some(2), true, "id", false)])
  }

  function PostsTrie(): Node {
    var t := UsersTrie();
    t.(children := t.children["posts" := Node(map[":id" := Leaf(6)], [":id"], Some(3), true, "id", false)])
  }

  function SearchTrie(): Node {
    var t := PostsTrie();
    t.(children := t.children["search" := Node(map[":query" := Leaf(7)], [":query"], None, false, "query", false)],
       order := t.order + ["search"])
  }

  lemma DemoUsersStep()
    ensures AddSegments(Router(StaticTrie(), 4), ["users", ":id"], 5) == AddOutcome(Router(UsersTrie(), 5), None)
  {
    hide Compatible, WellFormed, FindSegments, Walk;
    var u := Leaf(2);
    assert ":id"[1..] == "id" && IsParamSegment(":id") && [":id"][1..] == [];
    assert Insert(EmptyNode, [], 5) == (Leaf(5), None);
    assert ChildOrNew(u.(paramName := "id"), ":id") == EmptyNode;
    assert WithChild(u.(paramName := "id"), ":id", Leaf(5)) == UsersTrie().children["users"];
    assert Insert(u, [":id"], 5) == (UsersTrie().children["users"], None);
  }

  lemma DemoPostsStep()
    ensures AddSegments(Router(UsersTrie(), 5), ["posts", ":id"], 6) == AddOutcome(Router(PostsTrie(), 6), None)
  {
    hide Compatible, WellFormed, FindSegments, Walk;
    var p := Leaf(3);
    assert ":id"[1..] == "id" && IsParamSegment(":id") && [":id"][1..] == [];
    assert Insert(EmptyNode, [], 6) == (Leaf(6), None);
    assert ChildOrNew(p.(paramName := "id"), ":id") == EmptyNode;
    assert WithChild(p.(paramName := "id"), ":id", Leaf(6)) == PostsTrie().children["posts"];
    assert Insert(p, [":id"], 6) == (PostsTrie().children["posts"], None);
  }

  lemma DemoSearchStep()
    ensures AddSegments(Router(PostsTrie(), 6), ["search", ":query"], 7) == AddOutcome(Router(SearchTrie(), 7), None)
  {
    hide Compatible, WellFormed, FindSegments, Walk;
    assert ":query"[1..] == "query" && IsParamSegment(":query") && [":query"][1..] == [];
    assert Insert(EmptyNode, [], 7) == (Leaf(7), None);
    assert WithChild(EmptyNode.(paramName := "query"), ":query", Leaf(7)) == SearchTrie().children["search"];
    assert Insert(EmptyNode, [":query"], 7) == (SearchTrie().children["search"], None);
  }

  /** The full demonstration trie is the one above with the files route added. */
  lemma DemoTrieExtends()
    ensures var t, f := SearchTrie(), Node(map["*" := Leaf(8)], ["*"], None, false, "", true);
      DemoTrie() == t.(children := t.children["files" := f], order := t.order + ["files"])
  {
  }

  lemma DemoFilesStep()
    ensures AddSegments(Router(SearchTrie(), 7), ["files", "*"], 8) == AddOutcome(Router(DemoTrie(), 8), None)
  {
    var t, f := SearchTrie(), Node(map["*" := Leaf(8)], ["*"], None, false, "", true);
    DemoTrieExtends();
    assert "files" !in t.children;
    hide Compatible, WellFormed, FindSegments, Walk, DemoTrie, SearchTrie;
    assert ["*"][1..] == [] && Insert(EmptyNode, [], 8) == (Leaf(8), None);
    assert WithChild(EmptyNode.(wildcard := true), "*", Leaf(8)) == f;
    assert Insert(EmptyNode, ["*"], 8) == (f, None);
  }

  /** All eight demonstration routes register without conflict, into the
      trie above. */
  lemma DemoRouterShape()
    ensures DemoRouter() == Router(DemoTrie(), 8)
  {
    DemoStaticShape();
    DemoUsersStep();
    DemoPostsStep();
    DemoSearchStep();
    DemoFilesStep();
    hide Compatible, WellFormed, FindSegments, Walk, DemoStatic, AddSegments;
  }

  // The demonstration requests (xero/routing.py:244-262), by their segments:
  // static routes, parameter binding, wildcard capture of the rest of the path,
  // a trailing slash, an unknown route and a path one level too deep.

  lemma DemoHome()
    ensures FindSegments(DemoRouter(), [""]) == Ok(Matched(1, map[]))
  {
    DemoRouterShape();
    hide DemoRouter;
  }

  lemma DemoUsers()
    ensures FindSegments(DemoRouter(), ["users"]) == Ok(Matched(2, map[]))
  {
    DemoRouterShape();
    hide DemoRouter;
  }

  lemma DemoUserDetail()
    ensures FindSegments(DemoRouter(), ["users", "123"]) == Ok(Matched(5, map["id" := "123"]))
  {
    DemoRouterShape();
    hide DemoRouter;
  }

  lemma DemoFiles()
    ensures FindSegments(DemoRouter(), ["files", "images", "photo.jpg"]) == Ok(Matched(8, map["*" := "images/photo.jpg"]))
  {
    DemoRouterShape();
    hide DemoRouter;
    var segs := ["files", "images", "photo.jpg"];
    assert segs[1..] == ["images", "photo.jpg"];
    assert Join(segs[1..]) == "images/photo.jpg";
  }

  lemma DemoTrailing()
    ensures FindSegments(DemoRouter(), ["users", ""]) == Ok(Matched(2, map[]))
  {
    DemoRouterShape();
    hide DemoRouter;
  }

  lemma DemoUnknown()
    ensures FindSegments(DemoRouter(), ["nonexistent"]) == Ok(NoMatch)
  {
    DemoRouterShape();
    hide DemoRouter;
  }

  lemma DemoTooDeep()
    ensures FindSegments(DemoRouter(), ["users", "123", "posts"]) == Ok(NoMatch)
  {
    DemoRouterShape();
    hide DemoRouter;
  }

  /** An exact child wins over the parameter child, which wins over nothing:
      with `/users/:id` and `/users/me` registered, `/users/me` reaches the
      literal route and `/users/7` binds the parameter. */
  lemma ExactBeforeParameter()
    ensures var r := AddSegments(AddSegments(NewRouter(), ["users", ":id"], 1).router, ["users", "me"], 2).router;
      FindSegments(r, ["users", "me"]) == Ok(Matched(2, map[])) &&
      FindSegments(r, ["users", "7"]) == Ok(Matched(1, map["id" := "7"]))
  {
    hide Compatible, WellFormed;
  }

  /** The segments with the empty ones dropped. */
  function NonEmpty(segs: seq<string>): (r: seq<string>)
    ensures forall i :: 0 <= i < |r| ==> r[i] != ""
  {
    if |segs| == 0 then []
    else if segs[0] == "" then NonEmpty(segs[1..])
    else [segs[0]] + NonEmpty(segs[1..])
  }

  /** `add_route` skips empty segments: a doubled or trailing slash registers
      the same route as the clean path. */
  lemma {:induction false} InsertSkipsEmpty(n: Node, segs: seq<string>, h: Handler)
    ensures Insert(n, segs, h) == Insert(n, NonEmpty(segs), h)
    decreases |segs|
  {
    if |segs| > 0 {
      var seg, rest := segs[0], segs[1..];
      if seg == "" {
        InsertSkipsEmpty(n, rest, h);
      } else {
        var ne := NonEmpty(segs);
        assert ne[0] == seg && ne[1..] == NonEmpty(rest);
        if IsParamSegment(seg) {
          InsertSkipsEmpty(ChildOrNew(n.(paramName := seg[1..]), seg), rest, h);
        } else if seg == "*" {
          InsertSkipsEmpty(ChildOrNew(n.(wildcard := true), seg), rest, h);
        } else {
          InsertSkipsEmpty(ChildOrNew(n, seg), rest, h);
        }
      }
    }
  }
}
