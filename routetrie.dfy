/**
 * The route trie of zallocrout (pkg/zallocrout/node.go, pkg/zallocrout/router.go): one tree of
 * route nodes per HTTP method. AddRoute inserts a route, and Match looks a request path up,
 * trying at each segment the static child, then the parameter child, then the wildcard child,
 * without backtracking.
 *
 * The router keeps its nodes in an arena: a pointer to a node is its index in `nodes`, and a
 * node whose fields Go updates in place is replaced there by its updated value.
 */
module RouteTrie {
  import opened Wrappers
  import opened RoutePath
  import opened RouteCtx

  datatype NodeType = StaticCompressed | ParamNode | WildcardNode

  /** A RouteNode; the children are arena indices. */
  datatype Node = Node(
    typ: NodeType,
    seg: string,
    staticChildren: map<string, nat>,
    paramChild: Option<nat>,
    wildcardChild: Option<nat>,
    paramName: string,
    handler: Option<HandlerId>,
    middlewares: seq<MiddlewareId>,
    paramNames: seq<string>,
    isWildcard: bool,
    hitCount: u32)

  /** A node as acquireNode hands it out, given its type, segment and parameter name. */
  function NewNodeOf(typ: NodeType, seg: string, paramName: string): Node
  {
    Node(typ, seg, map[], None, None, paramName, None, [], [], typ == WildcardNode, 0)
  }

  // ---------------------------------------------------------------------------
  // node.go

  function FindStaticChild(n: Node, seg: string): (r: Option<nat>)
    ensures r.Some? <==> seg in n.staticChildren
    ensures r.Some? ==> r.value == n.staticChildren[seg]
  {
    if seg in n.staticChildren then Some(n.staticChildren[seg]) else None
  }

  /** insertChild: the child goes where its type says. */
  function InsertChild(n: Node, seg: string, child: nat, childType: NodeType): Node
  {
    match childType
    case StaticCompressed => n.(staticChildren := n.staticChildren[seg := child])
    case ParamNode => n.(paramChild := Some(child))
    case WildcardNode => n.(wildcardChild := Some(child))
  }

  /** After insertChild the child is found under its own kind, and nothing else moved. */
  lemma FindAfterInsert(n: Node, seg: string, child: nat, childType: NodeType, s: string)
    ensures var n' := InsertChild(n, seg, child, childType);
            && FindStaticChild(n', s) ==
                 (if childType == StaticCompressed && s == seg then Some(child) else FindStaticChild(n, s))
            && n'.paramChild == (if childType == ParamNode then Some(child) else n.paramChild)
            && n'.wildcardChild == (if childType == WildcardNode then Some(child) else n.wildcardChild)
            && Payload(n') == Payload(n)
  {
  }

  /** Everything of a node but its children. */
  function Payload(n: Node): Node
  {
    n.(staticChildren := map[], paramChild := None, wildcardChild := None)
  }

  /** setHandler: the middlewares are replaced only by a non-empty list. */
  function SetHandler(n: Node, handler: Option<HandlerId>, middlewares: seq<MiddlewareId>): (n': Node)
    ensures n'.handler == handler
    ensures n'.middlewares == if middlewares == [] then n.middlewares else middlewares
    ensures n' == n.(handler := n'.handler, middlewares := n'.middlewares)
  {
    n.(handler := handler, middlewares := if |middlewares| > 0 then middlewares else n.middlewares)
  }

  /** setHandlerWithParams: as setHandler, and the parameter names are replaced only by a
      non-empty list. */
  function SetHandlerWithParams(n: Node, handler: Option<HandlerId>, middlewares: seq<MiddlewareId>,
                                paramNames: seq<string>): (n': Node)
    ensures n'.handler == handler
    ensures n'.middlewares == if middlewares == [] then n.middlewares else middlewares
    ensures n'.paramNames == if paramNames == [] then n.paramNames else paramNames
    ensures n' == n.(handler := n'.handler, middlewares := n'.middlewares, paramNames := n'.paramNames)
  {
    var n1 := n.(handler := handler, middlewares := if |middlewares| > 0 then middlewares else n.middlewares);
    if |paramNames| > 0 then n1.(paramNames := paramNames) else n1
  }

  /** Without parameter names the two setters agree. */
  lemma SetHandlerWithoutParams(n: Node, handler: Option<HandlerId>, middlewares: seq<MiddlewareId>)
    ensures SetHandlerWithParams(n, handler, middlewares, []) == SetHandler(n, handler, middlewares)
  {
  }

  // ---------------------------------------------------------------------------
  // The arena

  predicate ChildrenBelow(n: Node, len: int)
  {
    && (forall s :: s in n.staticChildren ==> n.staticChildren[s] < len)
    && (n.paramChild.Some? ==> n.paramChild.value < len)
    && (n.wildcardChild.Some? ==> n.wildcardChild.value < len)
  }

  predicate RootsIn(roots: map<string, nat>, len: int)
  {
    forall m :: m in roots ==> roots[m] < len
  }

  /** Every child index points into the arena. */
  predicate Closed(nodes: seq<Node>)
  {
    forall i :: 0 <= i < |nodes| ==> ChildrenBelow(nodes[i], |nodes|)
  }

  /** The children of n belong to the tree of method m. */
  ghost predicate ChildrenOwned(n: Node, owner: seq<string>, m: string)
  {
    && (forall s :: s in n.staticChildren ==> n.staticChildren[s] < |owner| && owner[n.staticChildren[s]] == m)
    && (n.paramChild.Some? ==> n.paramChild.value < |owner| && owner[n.paramChild.value] == m)
    && (n.wildcardChild.Some? ==> n.wildcardChild.value < |owner| && owner[n.wildcardChild.value] == m)
  }

  /** The roots map and the arena form one tree per method: owner names the method whose tree
      each node is in, and children stay in their parent's tree. */
  ghost predicate Forest(nodes: seq<Node>, roots: map<string, nat>, owner: seq<string>)
  {
    && |owner| == |nodes|
    && (forall m :: m in roots ==> roots[m] < |nodes| && owner[roots[m]] == m)
    && (forall i :: 0 <= i < |nodes| ==> ChildrenOwned(nodes[i], owner, owner[i]))
  }

  lemma ForestClosed(nodes: seq<Node>, roots: map<string, nat>, owner: seq<string>)
    requires Forest(nodes, roots, owner)
    ensures Closed(nodes)
  {
    forall i | 0 <= i < |nodes|
      ensures ChildrenBelow(nodes[i], |nodes|)
    {
      assert ChildrenOwned(nodes[i], owner, owner[i]);
    }
  }

  // ---------------------------------------------------------------------------
  // Match

  /** A parameter is recorded only while fewer than MaxParams are. */
  function Bind(pairs: seq<Pair<string>>, key: string, value: string): (r: seq<Pair<string>>)
    ensures |pairs| < MaxParams ==> r == pairs + [Pair(key, value)]
    ensures |pairs| >= MaxParams ==> r == pairs
  {
    if |pairs| < MaxParams then pairs + [Pair(key, value)] else pairs
  }

  /** The matching loop from segment k at node cur: the node it ends at and the parameters it
      recorded. A wildcard ends the walk and binds "*" to the segments not yet consumed, joined
      by '/' (RestAt shows this is the rest of the normalized path). */
  function Walk(nodes: seq<Node>, cur: nat, segs: seq<string>, k: nat, pairs: seq<Pair<string>>)
    : (r: Option<(nat, seq<Pair<string>>)>)
    requires Closed(nodes) && cur < |nodes| && k <= |segs| && |pairs| <= MaxParams
    ensures r.Some? ==> r.value.0 < |nodes| && |pairs| <= |r.value.1| <= MaxParams
    ensures r.Some? ==> r.value.1[..|pairs|] == pairs
    decreases |segs| - k
  {
    if k == |segs| then Some((cur, pairs))
    else
      var seg := segs[k];
      var n := nodes[cur];
      if seg in n.staticChildren then
        Walk(nodes, n.staticChildren[seg], segs, k + 1, pairs)
      else if n.paramChild.Some? then
        var c := n.paramChild.value;
        Walk(nodes, c, segs, k + 1, Bind(pairs, nodes[c].paramName, seg))
      else if n.wildcardChild.Some? then
        Some((n.wildcardChild.value, Bind(pairs, "*", JoinSlash(segs[k..]))))
      else None
  }

  /** Step 7 of Match: the route's own parameter names replace the keys when the counts
      agree. */
  function Remap(pairs: seq<Pair<string>>, names: seq<string>): (r: seq<Pair<string>>)
    ensures |r| == |pairs| && forall i :: 0 <= i < |r| ==> r[i].value == pairs[i].value
    ensures |names| > 0 && |names| == |pairs| ==> forall i :: 0 <= i < |r| ==> r[i].key == names[i]
    ensures !(|names| > 0 && |names| == |pairs|) ==> r == pairs
  {
    if |names| > 0 && |names| == |pairs| then
      seq(|pairs|, i requires 0 <= i < |pairs| => Pair(names[i], pairs[i].value))
    else pairs
  }

  /** What a successful Match returns besides its context. */
  datatype Matched = Matched(handler: HandlerId, middlewares: seq<MiddlewareId>, params: seq<Pair<string>>)

  /** The path Match walks: the request path itself when needsNormalization passes it, its
      normal form otherwise. */
  function MatchPath(path: string): string
  {
    if NeedsNormalization(path) then Normalized(path) else path
  }

  lemma MatchPathNormalized(path: string)
    ensures MatchPath(path) == Normalized(path)
    ensures MatchPath(path) == [] <==> path == []
  {
    if !NeedsNormalization(path) {
      FastPathSound(path);
    }
    NormalizedShape(path);
  }

  /** Match without the hot cache. */
  function MatchSpec(nodes: seq<Node>, roots: map<string, nat>, httpMethod: string, path: string): Option<Matched>
    requires Closed(nodes) && RootsIn(roots, |nodes|)
  {
    var np := MatchPath(path);
    if np == [] || httpMethod !in roots then None
    else
      match Walk(nodes, roots[httpMethod], Segs(np), 0, [])
      case None => None
      case Some((n, pairs)) =>
        var node := nodes[n];
        if node.handler.None? then None
        else Some(Matched(node.handler.value, node.middlewares, Remap(pairs, node.paramNames)))
  }
  /** MatchSpec once the walk has found node n with the parameters pairs. */
  lemma MatchSpecFound(nodes: seq<Node>, roots: map<string, nat>, m: string, path: string, n: nat,
                       pairs: seq<Pair<string>>)
    requires Closed(nodes) && RootsIn(roots, |nodes|) && m in roots && MatchPath(path) != []
    requires Walk(nodes, roots[m], Segs(MatchPath(path)), 0, []) == Some((n, pairs))
    ensures MatchSpec(nodes, roots, m, path) ==
              if nodes[n].handler.None? then None
              else Some(Matched(nodes[n].handler.value, nodes[n].middlewares, Remap(pairs, nodes[n].paramNames)))
  {
  }

  // ---------------------------------------------------------------------------
  // Positions in the normalized path

  /** The steps of the matching walk: a static child first, ... */
  lemma WalkStatic(nodes: seq<Node>, cur: nat, segs: seq<string>, k: nat, pairs: seq<Pair<string>>)
    requires Closed(nodes) && cur < |nodes| && k < |segs| && |pairs| <= MaxParams
    requires segs[k] in nodes[cur].staticChildren
    ensures Walk(nodes, cur, segs, k, pairs) == Walk(nodes, nodes[cur].staticChildren[segs[k]], segs, k + 1, pairs)
  {
  }

  /** ... then the parameter child, ... */
  lemma WalkParam(nodes: seq<Node>, cur: nat, segs: seq<string>, k: nat, pairs: seq<Pair<string>>)
    requires Closed(nodes) && cur < |nodes| && k < |segs| && |pairs| <= MaxParams
    requires segs[k] !in nodes[cur].staticChildren && nodes[cur].paramChild.Some?
    ensures var c := nodes[cur].paramChild.value;
            Walk(nodes, cur, segs, k, pairs) == Walk(nodes, c, segs, k + 1, Bind(pairs, nodes[c].paramName, segs[k]))
  {
  }

  /** ... then the wildcard child, which ends the walk. */
  lemma WalkWildcard(nodes: seq<Node>, cur: nat, segs: seq<string>, k: nat, pairs: seq<Pair<string>>)
    requires Closed(nodes) && cur < |nodes| && k < |segs| && |pairs| <= MaxParams
    requires segs[k] !in nodes[cur].staticChildren && nodes[cur].paramChild.None?
    ensures Walk(nodes, cur, segs, k, pairs) ==
              if nodes[cur].wildcardChild.Some? then
                Some((nodes[cur].wildcardChild.value, Bind(pairs, "*", JoinSlash(segs[k..]))))
              else None
  {
  }

  lemma PosStep(segs: seq<string>, k: nat)
    requires k < |segs|
    ensures Pos(segs, k + 1) == Pos(segs, k) + |segs[k]| + 1
  {
  }

  /** Where segment k starts in "/" + JoinSlash(segs), not counting the leading '/': the
      pathPos of Match's loop, less one. */
  function Pos(segs: seq<string>, k: nat): nat
    requires k <= |segs|
  {
    if k == 0 then 0 else Pos(segs, k - 1) + |segs[k - 1]| + 1
  }

  /** From the position of segment k on, the joined path spells the remaining segments. */
  lemma {:induction false} RestAt(segs: seq<string>, k: nat)
    requires k < |segs|
    ensures Pos(segs, k) <= |JoinSlash(segs)|
    ensures JoinSlash(segs)[Pos(segs, k)..] == JoinSlash(segs[k..])
  {
    if k == 0 {
      assert segs[0..] == segs;
    } else {
      RestAt(segs, k - 1);
      var t := segs[k - 1..];
      assert t[1..] == segs[k..];
      var j := JoinSlash(segs);
      var p := Pos(segs, k - 1);
      assert j[p..] == segs[k - 1] + "/" + JoinSlash(segs[k..]);
      assert j[Pos(segs, k)..] == j[p..][|segs[k - 1]| + 1..];
    }
  }

  /** A path that spells its segments: "/" alone for none. */
  ghost predicate Spells(np: string, segs: seq<string>)
  {
    if segs == [] then np == "/" else np == "/" + JoinSlash(segs)
  }

  lemma Regroup(a: string, b: string, c: string, d: string, e: string)
    ensures a + b + (c + d + e) == a + (b + c + d) + e
  {
  }

  lemma {:induction false} OutJoin(r: seq<string>)
    requires r != []
    ensures Out(r) == "/" + JoinSlash(r) + "/"
  {
    if |r| > 1 {
      OutJoin(r[1..]);
      Regroup("/", r[0], "/", JoinSlash(r[1..]), "/");
    } else {
      assert r[1..] == [];
    }
  }

  /** The path Match walks, when not empty, spells its own segments. */
  lemma MatchPathSpells(path: string)
    requires MatchPath(path) != []
    ensures Spells(MatchPath(path), Segs(MatchPath(path)))
  {
    MatchPathNormalized(path);
    NormalizedSegs(path);
    var r := ResolveAll(Segs(path));
    if r != [] {
      OutJoin(r);
      var o := Out(r);
      assert o[..|o| - 1] == "/" + JoinSlash(r);
    }
  }

  /** The wildcard's binding is the rest of the path Match walks: normalizedPath[pathPos:]. */
  lemma WildcardBindsRest(np: string, segs: seq<string>, k: nat)
    requires Spells(np, segs) && k < |segs|
    ensures 1 + Pos(segs, k) <= |np|
    ensures np[1 + Pos(segs, k)..] == JoinSlash(segs[k..])
  {
    RestAt(segs, k);
    assert np[1 + Pos(segs, k)..] == JoinSlash(segs)[Pos(segs, k)..];
  }

  // ---------------------------------------------------------------------------
  // AddRoute's descent

  /** The child a pattern segment leads to when AddRoute descends; a segment of no kind
      (":" or "*" alone) leaves the descent where it is. */
  function Edge(nodes: seq<Node>, cur: nat, seg: string): (r: Option<nat>)
    requires Closed(nodes) && cur < |nodes|
    ensures r.Some? ==> r.value < |nodes|
  {
    var n := nodes[cur];
    if IsStaticSeg(seg) then FindStaticChild(n, seg)
    else if IsParamSeg(seg) then n.paramChild
    else if IsWildcardSeg(seg) then n.wildcardChild
    else Some(cur)
  }

  /** The descent along segs[k..stop]. */
  function Reach(nodes: seq<Node>, cur: nat, segs: seq<string>, k: nat, stop: nat): (r: Option<nat>)
    requires Closed(nodes) && cur < |nodes| && k <= stop <= |segs|
    ensures r.Some? ==> r.value < |nodes|
    decreases stop - k
  {
    if k == stop then Some(cur)
    else
      match Edge(nodes, cur, segs[k])
      case None => None
      case Some(c) => Reach(nodes, c, segs, k + 1, stop)
  }

  /** The node AddRoute binds the handler to: the descent along all segments, stopping right
      after the first wildcard. */
  function Target(nodes: seq<Node>, cur: nat, segs: seq<string>, k: nat): (r: Option<nat>)
    requires Closed(nodes) && cur < |nodes| && k <= |segs|
    ensures r.Some? ==> r.value < |nodes|
    decreases |segs| - k
  {
    if k == |segs| then Some(cur)
    else
      match Edge(nodes, cur, segs[k])
      case None => None
      case Some(c) => if IsWildcardSeg(segs[k]) then Some(c) else Target(nodes, c, segs, k + 1)
  }

  /** The segments before k are not wildcards. */
  predicate NoWildcardBefore(segs: seq<string>, k: nat)
    requires k <= |segs|
  {
    forall j :: 0 <= j < k ==> !IsWildcardSeg(segs[j])
  }

  lemma NoWildcardStep(segs: seq<string>, k: nat)
    requires k < |segs| && NoWildcardBefore(segs, k) && !IsWildcardSeg(segs[k])
    ensures NoWildcardBefore(segs, k + 1)
  {
  }

  /** One more step of a descent. */
  lemma {:induction false} ReachSnoc(nodes: seq<Node>, cur: nat, segs: seq<string>, k: nat, stop: nat)
    requires Closed(nodes) && cur < |nodes| && k <= stop < |segs|
    requires Reach(nodes, cur, segs, k, stop).Some?
    ensures Reach(nodes, cur, segs, k, stop + 1) == Edge(nodes, Reach(nodes, cur, segs, k, stop).value, segs[stop])
    decreases stop - k
  {
    if k < stop {
      ReachSnoc(nodes, Edge(nodes, cur, segs[k]).value, segs, k + 1, stop);
    } else {
      var e := Edge(nodes, cur, segs[k]);
      if e.Some? {
        assert Reach(nodes, e.value, segs, k + 1, k + 1) == Some(e.value);
      }
    }
  }

  /** A descent without wildcards leaves the target to be found from where it ends. */
  lemma {:induction false} TargetReach(nodes: seq<Node>, cur: nat, segs: seq<string>, k: nat, stop: nat)
    requires Closed(nodes) && cur < |nodes| && k <= stop <= |segs|
    requires forall j :: k <= j < stop ==> !IsWildcardSeg(segs[j])
    requires Reach(nodes, cur, segs, k, stop).Some?
    ensures Target(nodes, cur, segs, k) == Target(nodes, Reach(nodes, cur, segs, k, stop).value, segs, stop)
    decreases stop - k
  {
    if k < stop {
      TargetReach(nodes, Edge(nodes, cur, segs[k]).value, segs, k + 1, stop);
    }
  }

  /** n' keeps the children of n, maybe with more. */
  predicate EdgesKept(n: Node, n': Node)
  {
    && (forall s :: s in n.staticChildren ==> s in n'.staticChildren && n'.staticChildren[s] == n.staticChildren[s])
    && (n.paramChild.Some? ==> n'.paramChild == n.paramChild)
    && (n.wildcardChild.Some? ==> n'.wildcardChild == n.wildcardChild)
  }

  /** A node with no route bound to it, as acquireNode hands it out. */
  predicate Unrouted(n: Node)
  {
    n.handler.None? && n.middlewares == [] && n.paramNames == []
  }

  /** How AddRoute for method m changes the arena: old nodes keep their children and, but for
      the one at except, everything else; nodes of other methods do not change at all; nodes
      are only appended, to m's tree, and carry no route unless at except. */
  ghost predicate Extends(nodes: seq<Node>, owner: seq<string>, nodes': seq<Node>, owner': seq<string>,
                          m: string, except: int)
  {
    && |owner| == |nodes| <= |nodes'| == |owner'|
    && (forall i :: 0 <= i < |owner| ==> owner'[i] == owner[i])
    && (forall i :: 0 <= i < |nodes| ==> EdgesKept(nodes[i], nodes'[i]))
    && (forall i :: 0 <= i < |nodes| && i != except ==> Payload(nodes'[i]) == Payload(nodes[i]))
    && (forall i :: 0 <= i < |nodes| && owner[i] != m ==> nodes'[i] == nodes[i])
    && (forall i :: |nodes| <= i < |nodes'| ==> owner'[i] == m && (i != except ==> Unrouted(nodes'[i])))
  }

  lemma ExtendsRefl(nodes: seq<Node>, owner: seq<string>, m: string)
    requires |owner| == |nodes|
    ensures Extends(nodes, owner, nodes, owner, m, -1)
  {
  }

  lemma ExtendsTrans(a: seq<Node>, oa: seq<string>, b: seq<Node>, ob: seq<string>, c: seq<Node>, oc: seq<string>,
                     m: string, except: int)
    requires Extends(a, oa, b, ob, m, -1) && Extends(b, ob, c, oc, m, except)
    ensures Extends(a, oa, c, oc, m, except)
  {
    forall i | 0 <= i < |a|
      ensures EdgesKept(a[i], c[i])
    {
      assert EdgesKept(a[i], b[i]) && EdgesKept(b[i], c[i]);
    }
    forall i | |a| <= i < |c| && i != except
      ensures Unrouted(c[i])
    {
      if i < |b| {
        assert Unrouted(b[i]) && Payload(c[i]) == Payload(b[i]);
      }
    }
  }

  lemma ExtendsAppend(nodes: seq<Node>, owner: seq<string>, n: Node, m: string)
    requires |owner| == |nodes| && Unrouted(n)
    ensures Extends(nodes, owner, nodes + [n], owner + [m], m, -1)
  {
  }

  lemma ExtendsInsert(nodes: seq<Node>, owner: seq<string>, at: nat, seg: string, child: nat,
                      childType: NodeType, m: string)
    requires |owner| == |nodes| && at < |nodes| && owner[at] == m
    requires childType == StaticCompressed ==> seg !in nodes[at].staticChildren
    requires childType == ParamNode ==> nodes[at].paramChild.None?
    requires childType == WildcardNode ==> nodes[at].wildcardChild.None?
    ensures Extends(nodes, owner, nodes[at := InsertChild(nodes[at], seg, child, childType)], owner, m, -1)
  {
    var n := nodes[at];
    var n' := InsertChild(n, seg, child, childType);
    forall s | s in n.staticChildren
      ensures s in n'.staticChildren && n'.staticChildren[s] == n.staticChildren[s]
    {
      FindAfterInsert(n, seg, child, childType, s);
    }
    FindAfterInsert(n, seg, child, childType, seg);
  }

  /** Binding the handler at t is the one payload change AddRoute makes. */
  lemma ExtendsSet(nodes: seq<Node>, owner: seq<string>, nodes': seq<Node>, owner': seq<string>, m: string,
                   t: nat, n: Node)
    requires Extends(nodes, owner, nodes', owner', m, -1) && t < |nodes'| && owner'[t] == m
    requires n.staticChildren == nodes'[t].staticChildren && n.paramChild == nodes'[t].paramChild
    requires n.wildcardChild == nodes'[t].wildcardChild
    ensures Extends(nodes, owner, nodes'[t := n], owner', m, t)
    ensures Extends(nodes', owner', nodes'[t := n], owner', m, t)
  {
  }

  /** Growing the arena by Extends keeps every descent that got somewhere. */
  lemma {:induction false} ReachGrow(nodes: seq<Node>, owner: seq<string>, nodes': seq<Node>, owner': seq<string>,
                                     m: string, except: int, cur: nat, segs: seq<string>, k: nat, stop: nat)
    requires Closed(nodes) && Closed(nodes') && Extends(nodes, owner, nodes', owner', m, except)
    requires cur < |nodes| && k <= stop <= |segs| && Reach(nodes, cur, segs, k, stop).Some?
    ensures Reach(nodes', cur, segs, k, stop) == Reach(nodes, cur, segs, k, stop)
    decreases stop - k
  {
    if k < stop {
      EdgeGrow(nodes, nodes', cur, segs[k]);
      ReachGrow(nodes, owner, nodes', owner', m, except, Edge(nodes, cur, segs[k]).value, segs, k + 1, stop);
    }
  }

  lemma {:induction false} TargetGrow(nodes: seq<Node>, owner: seq<string>, nodes': seq<Node>, owner': seq<string>,
                                      m: string, except: int, cur: nat, segs: seq<string>, k: nat)
    requires Closed(nodes) && Closed(nodes') && Extends(nodes, owner, nodes', owner', m, except)
    requires cur < |nodes| && k <= |segs| && Target(nodes, cur, segs, k).Some?
    ensures Target(nodes', cur, segs, k) == Target(nodes, cur, segs, k)
    decreases |segs| - k
  {
    if k < |segs| {
      EdgeGrow(nodes, nodes', cur, segs[k]);
      if !IsWildcardSeg(segs[k]) {
        TargetGrow(nodes, owner, nodes', owner', m, except, Edge(nodes, cur, segs[k]).value, segs, k + 1);
      }
    }
  }

  lemma EdgeGrow(nodes: seq<Node>, nodes': seq<Node>, cur: nat, seg: string)
    requires Closed(nodes) && Closed(nodes') && cur < |nodes| <= |nodes'|
    requires EdgesKept(nodes[cur], nodes'[cur])
    requires Edge(nodes, cur, seg).Some?
    ensures Edge(nodes', cur, seg) == Edge(nodes, cur, seg)
  {
  }

  /** Replacing one node by a node whose children are in the same tree keeps the forest. */
  lemma ForestUpdate(nodes: seq<Node>, roots: map<string, nat>, owner: seq<string>, at: nat, n: Node)
    requires Forest(nodes, roots, owner) && at < |nodes| && ChildrenOwned(n, owner, owner[at])
    ensures Forest(nodes[at := n], roots, owner) && Closed(nodes[at := n])
  {
    ForestClosed(nodes[at := n], roots, owner);
  }

  /** Setting anything but the children keeps them in their tree. */
  lemma OwnedPayload(n: Node, n': Node, owner: seq<string>, m: string)
    requires ChildrenOwned(n, owner, m)
    requires n'.staticChildren == n.staticChildren && n'.paramChild == n.paramChild && n'.wildcardChild == n.wildcardChild
    ensures ChildrenOwned(n', owner, m)
  {
  }

  /** insertChild of a child in the same tree keeps the children in it. */
  lemma OwnedInsert(n: Node, seg: string, child: nat, childType: NodeType, owner: seq<string>, m: string)
    requires ChildrenOwned(n, owner, m) && child < |owner| && owner[child] == m
    ensures ChildrenOwned(InsertChild(n, seg, child, childType), owner, m)
  {
    var n' := InsertChild(n, seg, child, childType);
    forall s | s in n'.staticChildren
      ensures n'.staticChildren[s] < |owner| && owner[n'.staticChildren[s]] == m
    {
      if !(childType == StaticCompressed && s == seg) {
        FindAfterInsert(n, seg, child, childType, s);
      }
    }
  }

  /** The tree each node is in stays what it was when the arena grows. */
  lemma OwnedGrow(n: Node, owner: seq<string>, owner': seq<string>, m: string)
    requires ChildrenOwned(n, owner, m)
    requires |owner| <= |owner'| && forall i :: 0 <= i < |owner| ==> owner'[i] == owner[i]
    ensures ChildrenOwned(n, owner', m)
  {
  }

  /** The names of the parameter segments from k on, in order, without their ':'. */
  function ParamNamesFrom(segs: seq<string>, k: nat): seq<string>
    requires k <= |segs|
    decreases |segs| - k
  {
    if k == |segs| then []
    else (if IsParamSeg(segs[k]) then [segs[k][1..]] else []) + ParamNamesFrom(segs, k + 1)
  }

  /** AddRoute's paramNames. */
  function ParamNamesOf(segs: seq<string>): seq<string>
  {
    ParamNamesFrom(segs, 0)
  }

  // ---------------------------------------------------------------------------
  // Match looks only at the tree of its method

  lemma {:induction false} WalkKept(nodes: seq<Node>, owner: seq<string>, nodes': seq<Node>, m: string,
                                    cur: nat, segs: seq<string>, k: nat, pairs: seq<Pair<string>>)
    requires Closed(nodes) && Closed(nodes') && |owner| == |nodes| <= |nodes'|
    requires forall i :: 0 <= i < |nodes| ==> ChildrenOwned(nodes[i], owner, owner[i])
    requires forall i :: 0 <= i < |nodes| && owner[i] == m ==> nodes'[i] == nodes[i]
    requires cur < |nodes| && owner[cur] == m && k <= |segs| && |pairs| <= MaxParams
    ensures Walk(nodes', cur, segs, k, pairs) == Walk(nodes, cur, segs, k, pairs)
    ensures Walk(nodes, cur, segs, k, pairs).Some? ==> owner[Walk(nodes, cur, segs, k, pairs).value.0] == m
    decreases |segs| - k
  {
    if k < |segs| {
      var n := nodes[cur];
      assert nodes'[cur] == n;
      assert ChildrenOwned(n, owner, m);
      var seg := segs[k];
      if seg in n.staticChildren {
        WalkKept(nodes, owner, nodes', m, n.staticChildren[seg], segs, k + 1, pairs);
      } else if n.paramChild.Some? {
        var c := n.paramChild.value;
        assert nodes'[c] == nodes[c];
        WalkKept(nodes, owner, nodes', m, c, segs, k + 1, Bind(pairs, nodes[c].paramName, seg));
      }
    }
  }

  /** Two arenas that agree on the tree of m, and on its root, match m's requests alike. */
  lemma MatchKept(nodes: seq<Node>, roots: map<string, nat>, owner: seq<string>,
                  nodes': seq<Node>, roots': map<string, nat>, m: string, path: string)
    requires Forest(nodes, roots, owner) && Closed(nodes) && Closed(nodes') && RootsIn(roots', |nodes'|)
    requires |nodes| <= |nodes'|
    requires forall i :: 0 <= i < |nodes| && owner[i] == m ==> nodes'[i] == nodes[i]
    requires (m in roots' <==> m in roots) && (m in roots ==> roots'[m] == roots[m])
    ensures MatchSpec(nodes', roots', m, path) == MatchSpec(nodes, roots, m, path)
  {
    var np := MatchPath(path);
    if np != [] && m in roots {
      WalkKept(nodes, owner, nodes', m, roots[m], Segs(np), 0, []);
    }
  }

  /** What AddRoute for m changes is invisible to every other method. */
  lemma OtherMethodsKept(nodes: seq<Node>, roots: map<string, nat>, owner: seq<string>,
                         nodes': seq<Node>, roots': map<string, nat>, owner': seq<string>, m: string, except: int)
    requires Forest(nodes, roots, owner) && Closed(nodes) && Closed(nodes') && RootsIn(roots', |nodes'|)
    requires Extends(nodes, owner, nodes', owner', m, except)
    requires m in roots' && roots' == roots[m := roots'[m]]
    ensures forall m', p :: m' != m ==> MatchSpec(nodes', roots', m', p) == MatchSpec(nodes, roots, m', p)
  {
    forall m', p | m' != m
      ensures MatchSpec(nodes', roots', m', p) == MatchSpec(nodes, roots, m', p)
    {
      MatchKept(nodes, roots, owner, nodes', roots', m', p);
    }
  }

  /** The effect of AddRoute for m, put together from its steps: the root (n1), the descent
      to t (nl) and the handler bound at t (nodes'). */
  lemma AddRouteEffect(n0: seq<Node>, o0: seq<string>, r0: map<string, nat>, n1: seq<Node>, o1: seq<string>,
                       nl: seq<Node>, nodes': seq<Node>, owner': seq<string>, roots': map<string, nat>,
                       m: string, root: nat, segs: seq<string>, t: nat,
                       handler: Option<HandlerId>, middlewares: seq<MiddlewareId>)
    requires Forest(n0, r0, o0) && Closed(n0) && Closed(nl) && Closed(nodes') && RootsIn(roots', |nodes'|)
    requires Extends(n0, o0, n1, o1, m, -1) && Extends(n1, o1, nl, owner', m, -1)
    requires root < |nl| && t < |nl| && owner'[t] == m && Target(nl, root, segs, 0) == Some(t)
    requires nodes' == nl[t := SetHandlerWithParams(nl[t], handler, middlewares, ParamNamesOf(segs))]
    requires m in roots' && roots' == r0[m := roots'[m]] && roots'[m] == root
    ensures Target(nodes', root, segs, 0) == Some(t)
    ensures BoundAt(n0, nodes', root, segs, handler, middlewares)
    ensures Extends(n0, o0, nodes', owner', m, t)
    ensures forall m', p :: m' != m ==> MatchSpec(nodes', roots', m', p) == MatchSpec(n0, r0, m', p)
  {
    ExtendsTrans(n0, o0, n1, o1, nl, owner', m, -1);
    ExtendsSet(n0, o0, nl, owner', m, t, nodes'[t]);
    TargetGrow(nl, owner', nodes', owner', m, t, root, segs, 0);
    OtherMethodsKept(n0, r0, o0, nodes', roots', owner', m, t);
  }

  // ---------------------------------------------------------------------------
  // A static route is matched by its own path

  lemma {:induction false} StaticWalk(nodes: seq<Node>, cur: nat, segs: seq<string>, k: nat, pairs: seq<Pair<string>>)
    requires Closed(nodes) && cur < |nodes| && k <= |segs| && |pairs| <= MaxParams
    requires forall j :: k <= j < |segs| ==> IsStaticSeg(segs[j])
    requires Target(nodes, cur, segs, k).Some?
    ensures Walk(nodes, cur, segs, k, pairs) == Some((Target(nodes, cur, segs, k).value, pairs))
    decreases |segs| - k
  {
    if k < |segs| {
      StaticWalk(nodes, nodes[cur].staticChildren[segs[k]], segs, k + 1, pairs);
    }
  }

  /** Static segments that are neither "." nor "..". */
  predicate StaticWords(segs: seq<string>)
  {
    forall j :: 0 <= j < |segs| ==> IsStaticSeg(segs[j]) && Plain(segs[j])
  }

  /** The segments of a request path whose pattern segments are all plain words are those
      segments. */
  lemma PlainRequestSegs(path: string)
    requires path != [] && forall j :: 0 <= j < |Segs(path)| ==> Plain(Segs(path)[j])
    ensures MatchPath(path) != [] && Segs(MatchPath(path)) == Segs(path)
  {
    MatchPathNormalized(path);
    NormalizedSegs(path);
    ResolveAllOfPlain(Segs(path));
  }

  /** A route of static segments only, once bound at t with a handler, is what Match answers
      for its own path. */
  lemma StaticRouteMatches(nodes: seq<Node>, roots: map<string, nat>, m: string, path: string, t: nat)
    requires Closed(nodes) && RootsIn(roots, |nodes|) && m in roots && path != []
    requires StaticWords(Segs(path))
    requires Target(nodes, roots[m], Segs(path), 0) == Some(t) && nodes[t].handler.Some?
    ensures MatchSpec(nodes, roots, m, path) == Some(Matched(nodes[t].handler.value, nodes[t].middlewares, []))
  {
    PlainRequestSegs(path);
    StaticWalk(nodes, roots[m], Segs(path), 0, []);
  }

  /** What AddRoute promises about the node it binds the route to: it is the target of the
      route's segments, the handler is set, and the middlewares and parameter names are the
      new ones unless those are empty. */
  ghost predicate BoundAt(nodes: seq<Node>, nodes': seq<Node>, root: nat, segs: seq<string>,
                          handler: Option<HandlerId>, middlewares: seq<MiddlewareId>)
    requires Closed(nodes') && root < |nodes'|
  {
    var t := Target(nodes', root, segs, 0);
    var names := ParamNamesOf(segs);
    && t.Some?
    && nodes'[t.value].handler == handler
    && nodes'[t.value].middlewares ==
         (if middlewares != [] then middlewares else if t.value < |nodes| then nodes[t.value].middlewares else [])
    && nodes'[t.value].paramNames ==
         (if names != [] then names else if t.value < |nodes| then nodes[t.value].paramNames else [])
  }

  // ---------------------------------------------------------------------------
  // A route with parameters is matched by a request that fits it

  /** The request segments rs follow the route's segments segs from node cur on: equal at a
      static segment, and at a parameter segment not the name of a static child, which the
      walk would try first. */
  ghost predicate Fits(nodes: seq<Node>, cur: nat, segs: seq<string>, rs: seq<string>, k: nat)
    requires Closed(nodes) && cur < |nodes| && k <= |segs| == |rs|
    decreases |segs| - k
  {
    k == |segs| ||
    match Edge(nodes, cur, segs[k])
    case None => false
    case Some(c) =>
      && ((IsStaticSeg(segs[k]) && rs[k] == segs[k]) || (IsParamSeg(segs[k]) && rs[k] !in nodes[cur].staticChildren))
      && Fits(nodes, c, segs, rs, k + 1)
  }

  /** The request segments at the route's parameter segments from k on. */
  function ParamValuesFrom(segs: seq<string>, rs: seq<string>, k: nat): (vs: seq<string>)
    requires k <= |segs| == |rs|
    ensures |vs| == |ParamNamesFrom(segs, k)|
    decreases |segs| - k
  {
    if k == |segs| then []
    else (if IsParamSeg(segs[k]) then [rs[k]] else []) + ParamValuesFrom(segs, rs, k + 1)
  }

  function Values(ps: seq<Pair<string>>): seq<string>
  {
    seq(|ps|, i requires 0 <= i < |ps| => ps[i].value)
  }

  lemma ValuesSnoc(ps: seq<Pair<string>>, p: Pair<string>)
    ensures Values(ps + [p]) == Values(ps) + [p.value]
  {
    assert forall i :: 0 <= i < |ps| + 1 ==> Values(ps + [p])[i] == (Values(ps) + [p.value])[i];
  }

  /** One step of a fitting request: the child it goes to, and what that segment adds. */
  lemma FitsStep(nodes: seq<Node>, cur: nat, segs: seq<string>, rs: seq<string>, k: nat) returns (c: nat)
    requires Closed(nodes) && cur < |nodes| && k < |segs| == |rs|
    requires Fits(nodes, cur, segs, rs, k)
    ensures c < |nodes| && Fits(nodes, c, segs, rs, k + 1)
    ensures Target(nodes, cur, segs, k) == Target(nodes, c, segs, k + 1)
    ensures IsStaticSeg(segs[k]) ==>
              && rs[k] in nodes[cur].staticChildren && c == nodes[cur].staticChildren[rs[k]]
              && ParamNamesFrom(segs, k) == ParamNamesFrom(segs, k + 1)
              && ParamValuesFrom(segs, rs, k) == ParamValuesFrom(segs, rs, k + 1)
    ensures !IsStaticSeg(segs[k]) ==>
              && rs[k] !in nodes[cur].staticChildren && nodes[cur].paramChild == Some(c)
              && |ParamNamesFrom(segs, k)| == 1 + |ParamNamesFrom(segs, k + 1)|
              && ParamValuesFrom(segs, rs, k) == [rs[k]] + ParamValuesFrom(segs, rs, k + 1)
  {
    c := Edge(nodes, cur, segs[k]).value;
  }

  /** Walking a fitting request records one pair per parameter segment, whose value is the
      request's segment there, and ends where the route was bound. */
  lemma {:induction false} FitsWalk(nodes: seq<Node>, cur: nat, segs: seq<string>, rs: seq<string>, k: nat,
                                    pairs: seq<Pair<string>>)
    requires Closed(nodes) && cur < |nodes| && k <= |segs| == |rs|
    requires Fits(nodes, cur, segs, rs, k) && |pairs| + |ParamNamesFrom(segs, k)| <= MaxParams
    ensures var w := Walk(nodes, cur, rs, k, pairs);
            && w.Some? && Target(nodes, cur, segs, k) == Some(w.value.0)
            && |w.value.1| == |pairs| + |ParamNamesFrom(segs, k)|
            && Values(w.value.1) == Values(pairs) + ParamValuesFrom(segs, rs, k)
    decreases |segs| - k
  {
    if k == |segs| {
      assert Values(pairs) + [] == Values(pairs);
    } else {
      var c := FitsStep(nodes, cur, segs, rs, k);
      if IsStaticSeg(segs[k]) {
        WalkStatic(nodes, cur, rs, k, pairs);
        FitsWalk(nodes, c, segs, rs, k + 1, pairs);
      } else {
        var p := Pair(nodes[c].paramName, rs[k]);
        WalkParam(nodes, cur, rs, k, pairs);
        assert Bind(pairs, nodes[c].paramName, rs[k]) == pairs + [p];
        FitsWalk(nodes, c, segs, rs, k + 1, pairs + [p]);
        ValuesSnoc(pairs, p);
        assert Values(pairs) + ParamValuesFrom(segs, rs, k) == Values(pairs) + [rs[k]] + ParamValuesFrom(segs, rs, k + 1);
      }
    }
  }

  /** A route bound at t with its own parameter names is what Match answers for a request
      that fits it: each name paired with the request's segment in its place. */
  lemma ParamRouteMatches(nodes: seq<Node>, roots: map<string, nat>, m: string, req: string,
                          segs: seq<string>, t: nat)
    requires Closed(nodes) && RootsIn(roots, |nodes|) && m in roots && MatchPath(req) != []
    requires |Segs(MatchPath(req))| == |segs| && Fits(nodes, roots[m], segs, Segs(MatchPath(req)), 0)
    requires Target(nodes, roots[m], segs, 0) == Some(t) && nodes[t].handler.Some?
    requires |ParamNamesOf(segs)| <= MaxParams && nodes[t].paramNames == ParamNamesOf(segs)
    ensures var r := MatchSpec(nodes, roots, m, req);
            var names := ParamNamesOf(segs);
            var values := ParamValuesFrom(segs, Segs(MatchPath(req)), 0);
            && r.Some? && r.value.handler == nodes[t].handler.value && r.value.middlewares == nodes[t].middlewares
            && |r.value.params| == |names|
            && forall i :: 0 <= i < |names| ==> r.value.params[i] == Pair(names[i], values[i])
  {
    var rs := Segs(MatchPath(req));
    FitsWalk(nodes, roots[m], segs, rs, 0, []);
    var w := Walk(nodes, roots[m], rs, 0, []);
    MatchSpecFound(nodes, roots, m, req, w.value.0, w.value.1);
    assert Values([]) == [];
    var r := MatchSpec(nodes, roots, m, req).value;
    forall i | 0 <= i < |ParamNamesOf(segs)|
      ensures r.params[i] == Pair(ParamNamesOf(segs)[i], ParamValuesFrom(segs, rs, 0)[i])
    {
      assert Values(w.value.1)[i] == w.value.1[i].value;
    }
  }

  /** Static children win without backtracking: with routes /a/b and /:x/c, the request
      segments a, c go to the static child a, find no c below it, and fail, even though
      /:x/c would have matched them. */
  lemma NoBacktrack()
    ensures var n := NewNodeOf(StaticCompressed, "", "");
            var nodes := [
              n.(staticChildren := map["a" := 1], paramChild := Some(2)),
              NewNodeOf(StaticCompressed, "a", "").(staticChildren := map["b" := 3]),
              NewNodeOf(ParamNode, "", "x").(staticChildren := map["c" := 4]),
              NewNodeOf(StaticCompressed, "b", "").(handler := Some(1)),
              NewNodeOf(StaticCompressed, "c", "").(handler := Some(2))];
            && Closed(nodes)
            && Walk(nodes, 0, ["a", "c"], 0, []) == None
            && Walk(nodes, 0, ["z", "c"], 0, []) == Some((4, [Pair("x", "z")]))
  {
    var n := NewNodeOf(StaticCompressed, "", "");
    var nodes := [
      n.(staticChildren := map["a" := 1], paramChild := Some(2)),
      NewNodeOf(StaticCompressed, "a", "").(staticChildren := map["b" := 3]),
      NewNodeOf(ParamNode, "", "x").(staticChildren := map["c" := 4]),
      NewNodeOf(StaticCompressed, "b", "").(handler := Some(1)),
      NewNodeOf(StaticCompressed, "c", "").(handler := Some(2))];
    assert Closed(nodes);
    WalkStatic(nodes, 0, ["a", "c"], 0, []);
    assert "c" !in nodes[1].staticChildren;
    assert "z" !in nodes[0].staticChildren;
    WalkParam(nodes, 0, ["z", "c"], 0, []);
    WalkStatic(nodes, 2, ["z", "c"], 1, [Pair("x", "z")]);
  }

  newtype u32 = x: int | 0 <= x < 0x1_0000_0000

  // ---------------------------------------------------------------------------
  // The router

  class Router {
    var roots: map<string, nat>
    var nodes: seq<Node>
    /** The method whose tree each node is in. */
    ghost var owner: seq<string>

    ghost predicate Valid()
      reads this
    {
      Forest(nodes, roots, owner) && Closed(nodes) && RootsIn(roots, |nodes|)
    }

    /** NewRouter: no methods, no nodes. */
    constructor ()
      ensures Valid() && roots == map[] && nodes == []
    {
      roots := map[];
      nodes := [];
      owner := [];
    }

    /** acquireNode for the tree of method m: a node without children is appended. */
    method AcquireNode(n: Node, ghost m: string) returns (i: nat)
      requires Valid() && n.staticChildren == map[] && n.paramChild.None? && n.wildcardChild.None?
      modifies this
      ensures Valid() && roots == old(roots)
      ensures i == |old(nodes)| && nodes == old(nodes) + [n] && owner == old(owner) + [m]
    {
      ghost var o := owner;
      i := |nodes|;
      nodes := nodes + [n];
      owner := owner + [m];
      forall j | 0 <= j < |nodes|
        ensures ChildrenOwned(nodes[j], owner, owner[j])
      {
        if j < i {
          OwnedGrow(nodes[j], o, owner, owner[j]);
        }
      }
      ForestClosed(nodes, roots, owner);
    }

    /** insertChild on the node at: the child is stored by its own type. */
    method InsertChildAt(at: nat, seg: string, child: nat)
      requires Valid() && at < |nodes| && child < |nodes| && owner[child] == owner[at]
      modifies this
      ensures Valid() && roots == old(roots) && owner == old(owner)
      ensures nodes == old(nodes)[at := InsertChild(old(nodes)[at], seg, child, old(nodes)[child].typ)]
    {
      var n := InsertChild(nodes[at], seg, child, nodes[child].typ);
      assert ChildrenOwned(nodes[at], owner, owner[at]);
      OwnedInsert(nodes[at], seg, child, nodes[child].typ, owner, owner[at]);
      ForestUpdate(nodes, roots, owner, at, n);
      nodes := nodes[at := n];
    }

    /** setHandlerWithParams on the node at. */
    method SetHandlerAt(at: nat, handler: Option<HandlerId>, middlewares: seq<MiddlewareId>, paramNames: seq<string>)
      requires Valid() && at < |nodes|
      modifies this
      ensures Valid() && roots == old(roots) && owner == old(owner)
      ensures nodes == old(nodes)[at := SetHandlerWithParams(old(nodes)[at], handler, middlewares, paramNames)]
    {
      var n := SetHandlerWithParams(nodes[at], handler, middlewares, paramNames);
      assert ChildrenOwned(nodes[at], owner, owner[at]);
      OwnedPayload(nodes[at], n, owner, owner[at]);
      ForestUpdate(nodes, roots, owner, at, n);
      nodes := nodes[at := n];
    }

    /** incrementHitCount: a 32-bit atomic add of one, answering the new count. */
    method IncrementHitCount(at: nat) returns (count: u32)
      requires Valid() && at < |nodes|
      modifies this
      ensures count as int == (old(nodes)[at].hitCount as int + 1) % 0x1_0000_0000
      ensures Valid() && roots == old(roots) && owner == old(owner)
      ensures nodes == old(nodes)[at := old(nodes)[at].(hitCount := count)]
    {
      count := ((nodes[at].hitCount as int + 1) % 0x1_0000_0000) as u32;
      var n := nodes[at].(hitCount := count);
      assert ChildrenOwned(nodes[at], owner, owner[at]);
      OwnedPayload(nodes[at], n, owner, owner[at]);
      ForestUpdate(nodes, roots, owner, at, n);
      nodes := nodes[at := n];
    }

    /** One step of AddRoute's descent for a static, parameter or wildcard segment: the
        existing child of that kind, or a new node inserted as that child. */
    method Descend(current: nat, seg: string, ghost m: string) returns (child: nat)
      requires Valid() && current < |nodes| && owner[current] == m
      requires IsStaticSeg(seg) || IsParamSeg(seg) || IsWildcardSeg(seg)
      modifies this
      ensures Valid() && roots == old(roots)
      ensures Extends(old(nodes), old(owner), nodes, owner, m, -1)
      ensures child < |nodes| && owner[child] == m
      ensures Edge(nodes, current, seg) == Some(child)
    {
      var n := nodes[current];
      assert ChildrenOwned(n, owner, m);
      ExtendsRefl(nodes, owner, m);
      var made: Node;
      if IsStaticSeg(seg) {
        var found := FindStaticChild(n, seg);
        if found.Some? {
          return found.value;
        }
        made := NewNodeOf(StaticCompressed, seg, []);
      } else if IsParamSeg(seg) {
        if n.paramChild.Some? {
          return n.paramChild.value;
        }
        made := NewNodeOf(ParamNode, seg, seg[1..]);
      } else {
        if n.wildcardChild.Some? {
          return n.wildcardChild.value;
        }
        made := NewNodeOf(WildcardNode, seg, []);
      }
      child := AddChild(current, seg, made, m);
    }

    /** The else-branches of AddRoute's descent: a new node made for seg, of the kind seg is,
        becomes that child of current. */
    method AddChild(current: nat, seg: string, made: Node, ghost m: string) returns (child: nat)
      requires Valid() && current < |nodes| && owner[current] == m
      requires made == NewNodeOf(made.typ, made.seg, made.paramName)
      requires match made.typ
               case StaticCompressed => IsStaticSeg(seg)
               case ParamNode => IsParamSeg(seg)
               case WildcardNode => IsWildcardSeg(seg)
      requires Edge(nodes, current, seg).None?
      modifies this
      ensures Valid() && roots == old(roots)
      ensures Extends(old(nodes), old(owner), nodes, owner, m, -1)
      ensures child < |nodes| && owner[child] == m
      ensures Edge(nodes, current, seg) == Some(child)
    {
      ghost var n0, o0 := nodes, owner;
      child := AcquireNode(made, m);
      ExtendsAppend(n0, o0, made, m);
      ghost var n1, o1 := nodes, owner;
      InsertChildAt(current, seg, child);
      ExtendsInsert(n1, o1, current, seg, child, made.typ, m);
      ExtendsTrans(n0, o0, n1, o1, nodes, owner, m, -1);
      FindAfterInsert(n1[current], seg, child, made.typ, seg);
    }

    /** AddRoute's step 4: the parameter names of the route, in order. */
    static method CollectParamNames(segs: seq<string>) returns (names: seq<string>)
      ensures names == ParamNamesOf(segs)
    {
      names := [];
      var i := 0;
      while i < |segs|
        invariant 0 <= i <= |segs|
        invariant names + ParamNamesFrom(segs, i) == ParamNamesOf(segs)
      {
        if IsParamSeg(segs[i]) {
          assert names + ParamNamesFrom(segs, i) == (names + [segs[i][1..]]) + ParamNamesFrom(segs, i + 1);
          names := names + [segs[i][1..]];
        }
        i := i + 1;
      }
      assert names + [] == names;
    }

    /** One step of AddRoute's descent along segs, from the node the first k segments reached. */
    method DescendStep(root: nat, current: nat, segs: seq<string>, k: nat, ghost m: string,
                       ghost n0: seq<Node>, ghost o0: seq<string>) returns (child: nat)
      requires Valid() && root < |nodes| && current < |nodes| && owner[current] == m && k < |segs|
      requires NoWildcardBefore(segs, k)
      requires Reach(nodes, root, segs, 0, k) == Some(current)
      requires Extends(n0, o0, nodes, owner, m, -1)
      modifies this
      ensures Valid() && roots == old(roots) && |old(nodes)| <= |nodes|
      ensures Extends(n0, o0, nodes, owner, m, -1)
      ensures child < |nodes| && owner[child] == m
      ensures Reach(nodes, root, segs, 0, k + 1) == Some(child)
      ensures IsWildcardSeg(segs[k]) ==> Target(nodes, root, segs, 0) == Some(child)
    {
      var seg := segs[k];
      if IsStaticSeg(seg) || IsParamSeg(seg) || IsWildcardSeg(seg) {
        ghost var n1, o1 := nodes, owner;
        child := Descend(current, seg, m);
        ReachGrow(n1, o1, nodes, owner, m, -1, root, segs, 0, k);
        ExtendsTrans(n0, o0, n1, o1, nodes, owner, m, -1);
      } else {
        child := current;
      }
      ReachSnoc(nodes, root, segs, 0, k);
      if IsWildcardSeg(seg) {
        TargetReach(nodes, root, segs, 0, k);
      }
    }

    /** AddRoute's step 2: the root of the method's tree, made when there is none. */
    method RootFor(httpMethod: string) returns (root: nat)
      requires Valid()
      modifies this
      ensures Valid() && |old(nodes)| <= |nodes| && root < |nodes| && owner[root] == httpMethod
      ensures roots == old(roots)[httpMethod := root]
      ensures httpMethod in old(roots) ==> root == old(roots)[httpMethod] && roots == old(roots)
      ensures Extends(old(nodes), old(owner), nodes, owner, httpMethod, -1)
    {
      if httpMethod in roots {
        root := roots[httpMethod];
        ExtendsRefl(nodes, owner, httpMethod);
      } else {
        ghost var n0, o0 := nodes, owner;
        var made := NewNodeOf(StaticCompressed, [], []);
        root := AcquireNode(made, httpMethod);
        ExtendsAppend(n0, o0, made, httpMethod);
        roots := roots[httpMethod := root];
        ForestClosed(nodes, roots, owner);
      }
    }

    /** AddRoute's step 5: the descent along the route's segments, making the children that
        are missing, up to the node the route is bound to. */
    method DescendAll(root: nat, segs: seq<string>, ghost m: string) returns (t: nat)
      requires Valid() && root < |nodes| && owner[root] == m
      modifies this
      ensures Valid() && roots == old(roots) && |old(nodes)| <= |nodes|
      ensures Extends(old(nodes), old(owner), nodes, owner, m, -1)
      ensures t < |nodes| && owner[t] == m
      ensures Target(nodes, root, segs, 0) == Some(t)
    {
      ghost var n0, o0 := nodes, owner;
      ExtendsRefl(nodes, owner, m);
      t := root;
      var k := 0;
      while k < |segs|
        invariant Valid() && roots == old(roots) && |owner| == |nodes| && |n0| <= |nodes|
        invariant 0 <= k <= |segs| && t < |nodes| && owner[t] == m
        invariant NoWildcardBefore(segs, k)
        invariant Reach(nodes, root, segs, 0, k) == Some(t)
        invariant Extends(n0, o0, nodes, owner, m, -1)
      {
        var wild := IsWildcardSeg(segs[k]);
        t := DescendStep(root, t, segs, k, m, n0, o0);
        if wild {
          return;
        }
        NoWildcardStep(segs, k);
        k := k + 1;
      }
      TargetReach(nodes, root, segs, 0, k);
    }

    /** AddRoute: validateRoute first, and nothing changes on an error; then the method's
        root, found or made, the descent that makes missing children, and the handler bound
        at its end. Other methods' trees, and so their matches, do not change. */
    method AddRoute(httpMethod: string, path: string, handler: Option<HandlerId>, middlewares: seq<MiddlewareId>)
      returns (err: Option<RouteError>)
      requires Valid()
      modifies this
      ensures Valid()
      ensures err == RouteCheck(path)
      ensures err.Some? ==> roots == old(roots) && nodes == old(nodes) && owner == old(owner)
      ensures err.None? ==> httpMethod in roots && roots == old(roots)[httpMethod := roots[httpMethod]]
      ensures err.None? && httpMethod in old(roots) ==> roots == old(roots)
      ensures err.None? ==> BoundAt(old(nodes), nodes, roots[httpMethod], Segs(path), handler, middlewares)
      ensures err.None? ==>
                Extends(old(nodes), old(owner), nodes, owner, httpMethod, Target(nodes, roots[httpMethod], Segs(path), 0).value)
      ensures err.None? ==> forall m, p :: m != httpMethod ==> MatchSpec(nodes, roots, m, p) == MatchSpec(old(nodes), old(roots), m, p)
      ensures err.None? && handler.Some? && StaticWords(Segs(path)) ==>
                MatchSpec(nodes, roots, httpMethod, path) ==
                Some(Matched(handler.value, nodes[Target(nodes, roots[httpMethod], Segs(path), 0).value].middlewares, []))
    {
      err := ValidateRoute(path);
      if err.Some? {
        return;
      }
      ghost var n0, o0, r0 := nodes, owner, roots;
      var root := RootFor(httpMethod);
      ghost var n1, o1 := nodes, owner;
      var segs := SplitPath(path);
      var names := CollectParamNames(segs);
      var t := DescendAll(root, segs, httpMethod);
      ghost var nl, ol := nodes, owner;
      SetHandlerAt(t, handler, middlewares, names);
      AddRouteEffect(n0, o0, r0, n1, o1, nl, nodes, owner, roots, httpMethod, root, segs, t, handler, middlewares);
      if handler.Some? && StaticWords(segs) {
        StaticRouteMatches(nodes, roots, httpMethod, path, t);
      }
    }
  
    /** Match, without the hot cache: the path normalized when needsNormalization says so, its
        segments walked from the method's root, the handler checked, the parameter keys
        remapped, and a context acquired holding the parameters. */
    method Match(httpMethod: string, path: string, parent: Option<Parent>)
      returns (ctx: RouteContext?, handler: Option<HandlerId>, middlewares: seq<MiddlewareId>, ok: bool)
      requires Valid()
      ensures ok <==> MatchSpec(nodes, roots, httpMethod, path).Some?
      ensures ok ==> var r := MatchSpec(nodes, roots, httpMethod, path).value;
                     && handler == Some(r.handler) && middlewares == r.middlewares
                     && ctx != null && fresh(ctx) && ctx.Valid() && ctx.parent == parent
                     && ctx.Params() == r.params && ctx.Values() == []
      ensures !ok ==> ctx == null && handler.None? && middlewares == []
    {
      ctx, handler, middlewares, ok := null, None, [], false;
      var np, some := NormalizedForMatch(path);
      if !some {
        return;
      }
      var segs := SplitPath(np);
      if httpMethod !in roots {
        return;
      }
      MatchPathSpells(path);
      var paramPairs := new Pair<string>[MaxParams](_ => Pair("", ""));
      var current, paramCount, found := WalkSegments(np, segs, roots[httpMethod], paramPairs);
      if !found {
        return;
      }
      var node := nodes[current];
      MatchSpecFound(nodes, roots, httpMethod, path, current, paramPairs[..paramCount]);
      if node.handler.None? {
        return;
      }
      if |node.paramNames| > 0 && |node.paramNames| == paramCount {
        RemapKeys(paramPairs, paramCount, node.paramNames);
      }
      ctx := new RouteContext();
      ctx.Acquire(parent, paramPairs, paramCount);
      handler, middlewares, ok := node.handler, node.middlewares, true;
    }

    /** Match's step 2: the path itself when needsNormalization passes it, else its bytes
        normalized; an empty result ends the match. */
    static method NormalizedForMatch(path: string) returns (np: string, some: bool)
      ensures some <==> MatchPath(path) != []
      ensures np == MatchPath(path)
    {
      np := path;
      var needs := ScanNeedsNormalization(path);
      if needs {
        var bytes := new char[|path|](i requires 0 <= i < |path| => path[i]);
        assert bytes[..] == path;
        var buf, n := NormalizePathBytes(bytes);
        np := buf[..n];
        if n == 0 {
          return np, false;
        }
      }
      return np, np != [];
    }

    /** Match's step 5: the walk from the root, static child first, then the parameter
        child, then the wildcard child, recording parameters while fewer than MaxParams are. */
    method WalkSegments(np: string, segs: seq<string>, root: nat, paramPairs: array<Pair<string>>)
      returns (current: nat, paramCount: nat, found: bool)
      requires Closed(nodes) && root < |nodes| && Spells(np, segs) && paramPairs.Length == MaxParams
      modifies paramPairs
      ensures paramCount <= MaxParams
      ensures found <==> Walk(nodes, root, segs, 0, []).Some?
      ensures found ==> Walk(nodes, root, segs, 0, []) == Some((current, paramPairs[..paramCount]))
    {
      current := root;
      paramCount := 0;
      var pathPos := 1;
      var k := 0;
      ghost var recorded: seq<Pair<string>> := [];
      while k < |segs|
        invariant 0 <= k <= |segs| && current < |nodes| && 0 <= paramCount <= MaxParams
        invariant pathPos == 1 + Pos(segs, k)
        invariant paramPairs[..paramCount] == recorded
        invariant Walk(nodes, current, segs, k, recorded) == Walk(nodes, root, segs, 0, [])
      {
        var seg := segs[k];
        var n := nodes[current];
        PosStep(segs, k);
        var child := FindStaticChild(n, seg);
        if child.Some? {
          WalkStatic(nodes, current, segs, k, recorded);
          current := child.value;
          pathPos := pathPos + |seg| + 1;
        } else if n.paramChild.Some? {
          WalkParam(nodes, current, segs, k, recorded);
          var c := n.paramChild.value;
          paramCount := Record(paramPairs, paramCount, nodes[c].paramName, seg);
          recorded := Bind(recorded, nodes[c].paramName, seg);
          current := c;
          pathPos := pathPos + |seg| + 1;
        } else {
          WalkWildcard(nodes, current, segs, k, recorded);
          if n.wildcardChild.None? {
            return current, paramCount, false;
          }
          WildcardBindsRest(np, segs, k);
          var remaining := np[pathPos..];
          paramCount := Record(paramPairs, paramCount, "*", remaining);
          recorded := Bind(recorded, "*", remaining);
          return n.wildcardChild.value, paramCount, true;
        }
        k := k + 1;
      }
      found := true;
    }

    /** A parameter stored in the next free slot, when there is one. */
    static method Record(paramPairs: array<Pair<string>>, paramCount: nat, key: string, value: string)
      returns (count: nat)
      requires paramPairs.Length == MaxParams && paramCount <= MaxParams
      modifies paramPairs
      ensures count <= MaxParams
      ensures paramPairs[..count] == Bind(old(paramPairs[..paramCount]), key, value)
    {
      count := paramCount;
      if paramCount < MaxParams {
        paramPairs[paramCount] := Pair(key, value);
        count := paramCount + 1;
        assert paramPairs[..count] == old(paramPairs[..paramCount]) + [Pair(key, value)];
      }
    }

    /** Match's step 7: the route's parameter names become the keys of the first count
        pairs. */
    static method RemapKeys(paramPairs: array<Pair<string>>, count: int, names: seq<string>)
      requires 0 < count <= paramPairs.Length && |names| == count
      modifies paramPairs
      ensures paramPairs[..count] == Remap(old(paramPairs[..count]), names)
      ensures paramPairs[count..] == old(paramPairs[count..])
    {
      var i := 0;
      while i < count && i < |names|
        invariant 0 <= i <= count
        invariant forall q :: 0 <= q < i ==> paramPairs[q] == Pair(names[q], old(paramPairs[q]).value)
        invariant forall q :: i <= q < paramPairs.Length ==> paramPairs[q] == old(paramPairs[q])
      {
        paramPairs[i] := Pair(names[i], paramPairs[i].value);
        i := i + 1;
      }
      assert forall q :: 0 <= q < count ==> paramPairs[..count][q] == Remap(old(paramPairs[..count]), names)[q];
    }
  }
}
