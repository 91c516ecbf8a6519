/**
 * `ResourceTreeTraverser.__call__`: the state machine that walks a tuple of path
 * segments from the root, stopping at the first segment that is a view selector
 * (`@@name`), that meets a resource without `__getitem__`, or that names no child,
 * while recording the virtual root at the index the `HTTP_X_VHM_ROOT` value ends.
 */
module Traversal {
  import opened Wrappers
  import opened PathText
  import opened Resources

  /** The prefix that marks a segment as an explicit view name. */
  const VIEW_SELECTOR: string := "@@"

  /** `segment[:2] == '@@'`. */
  predicate IsViewSelector(segment: string)
  {
    |segment| >= 2 && segment[..2] == VIEW_SELECTOR
  }

  /** A matchdict value: a string (a `{name}` replacement) or a sequence (a `*name` star argument). */
  datatype MatchValue = Text(text: string) | Parts(parts: seq<string>)
  {
    /** Python truthiness: an empty string or an empty sequence is false. */
    predicate IsTruthy()
    {
      match this
      case Text(s) => s != ""
      case Parts(p) => p != []
    }
  }

  /** The two matchdict keys the traverser reads; `None` stands for a missing key. */
  datatype MatchDict = MatchDict(traverse: Option<MatchValue>, subpath: Option<MatchValue>)

  /**
   * What the traverser reads from a request: its `matchdict` (`None` when no route
   * matched), its decoded `path_info`, and the decoded value of `HTTP_X_VHM_ROOT`
   * (`None` when the key is not in the environment).
   */
  datatype Request = Request(matchdict: Option<MatchDict>, pathInfo: string, vhRoot: Option<string>)

  /** The dictionary `__call__` returns. */
  datatype TraversalResult = TraversalResult(
    context: Id,
    viewName: string,
    subpath: seq<string>,
    traversed: seq<string>,
    virtualRoot: Id,
    virtualRootPath: seq<string>,
    root: Id)

  /**
   * The path `__call__` traverses, before the virtual-root value is put in front of it:
   * the matchdict's `traverse` when it is truthy (a star argument joined after '/'),
   * otherwise `/`; without a matchdict, `path_info`, or `/` when it is empty. It is
   * never empty.
   */
  function RequestPath(request: Request): (r: string)
    ensures r != ""
  {
    match request.matchdict
    case None => if request.pathInfo == "" then "/" else request.pathInfo
    case Some(md) =>
      var value := if md.traverse.Some? && md.traverse.value.IsTruthy() then md.traverse.value else Text("/");
      match value
      case Text(s) => s
      case Parts(p) => "/" + JoinSlash(p)
  }

  /** The subpath `__call__` returns when every segment is consumed. */
  function RequestSubpath(request: Request): seq<string>
  {
    match request.matchdict
    case None => []
    case Some(md) =>
      match md.subpath
      case None => []
      case Some(Parts(p)) => p
      case Some(Text(s)) => PathSegments(s)
  }

  /**
   * What the walk works from: the segments of the virtual-root value followed by the
   * request's path, the index of the last virtual-root segment (-1 without one), the
   * virtual root's own segments, and the subpath to report on success.
   */
  datatype Plan = Plan(segments: seq<string>, vrootIdx: int, vrootTuple: seq<string>, subpath: seq<string>)

  /**
   * The set-up of `__call__`: the virtual-root value's segments put in front of the
   * path, `vroot_idx`, and the tuple of segments to walk (`()` for the path `/`). Every
   * segment walked is clean and holds no '/'.
   */
  function PlanOf(request: Request): (plan: Plan)
    ensures plan.vrootIdx >= -1
    ensures forall j :: 0 <= j < |plan.segments| ==> IsCleanSegment(plan.segments[j]) && '/' !in plan.segments[j]
  {
    var path := RequestPath(request);
    var vrootTuple := if request.vhRoot.Some? then PathSegments(request.vhRoot.value) else [];
    var vpath := if request.vhRoot.Some? then request.vhRoot.value + path else path;
    var vrootIdx := if request.vhRoot.Some? then |vrootTuple| - 1 else -1;
    PathSegmentsClean(vpath);
    Plan(if vpath == "/" then [] else PathSegments(vpath), vrootIdx, vrootTuple, RequestSubpath(request))
  }

  /** `ob[segment]`: `None` when `ob` has no `__getitem__` or the lookup raises KeyError. */
  function Lookup(tree: Tree, ob: Id, segment: string): (r: Option<Id>)
    requires tree.Valid() && ob in tree.nodes
    ensures r.Some? ==> r.value in tree.nodes
  {
    match tree.nodes[ob].children
    case NoGetItem => None
    case Items(m) => if segment in m then Some(m[segment]) else None
  }

  /** The record of an early return at segment index `i`. */
  function EarlyExit(plan: Plan, i: nat, ob: Id, viewName: string, vroot: Id, root: Id): TraversalResult
    requires i < |plan.segments|
  {
    TraversalResult(ob, viewName, plan.segments[i + 1..], SliceTo(plan.segments, plan.vrootIdx + i + 1),
                    vroot, plan.vrootTuple, root)
  }

  /** The loop of `__call__` from segment index `i`, current resource `ob` and virtual root `vroot`. */
  function Walk(tree: Tree, root: Id, plan: Plan, i: nat, ob: Id, vroot: Id): (r: TraversalResult)
    requires tree.Valid() && ob in tree.nodes && i <= |plan.segments|
    ensures r.context in tree.nodes && r.root == root
    decreases |plan.segments| - i
  {
    if i == |plan.segments| then
      TraversalResult(ob, "", plan.subpath, plan.segments, vroot, plan.vrootTuple, root)
    else
      var segment := plan.segments[i];
      if IsViewSelector(segment) then EarlyExit(plan, i, ob, segment[2..], vroot, root)
      else
        match Lookup(tree, ob, segment)
        case None => EarlyExit(plan, i, ob, segment, vroot, root)
        case Some(next) => Walk(tree, root, plan, i + 1, next, if i == plan.vrootIdx then next else vroot)
  }

  /** What `ResourceTreeTraverser(root)(request)` returns. */
  function Resolve(tree: Tree, root: Id, request: Request): (r: TraversalResult)
    requires tree.Valid() && root in tree.nodes
    ensures r.context in tree.nodes && r.root == root
  {
    Walk(tree, root, PlanOf(request), 0, root, root)
  }

  class ResourceTreeTraverser {
    const root: Id

    constructor (root: Id)
      ensures this.root == root
    {
      this.root := root;
    }

    /**
     * The loop of `__call__`: walks the segments from the root, returning early at a
     * view selector, at a resource without `__getitem__` or at a name the resource
     * does not hold, and moving the virtual root at segment index `vroot_idx`.
     */
    method WalkSegments(tree: Tree, plan: Plan) returns (result: TraversalResult)
      requires tree.Valid() && root in tree.nodes
      ensures result == Walk(tree, root, plan, 0, root, root)
    {
      var segs := plan.segments;
      var ob := root;
      var vroot := root;
      for i := 0 to |segs|
        invariant ob in tree.nodes
        invariant Walk(tree, root, plan, i, ob, vroot) == Walk(tree, root, plan, 0, root, root)
      {
        var segment := segs[i];
        if IsViewSelector(segment) {
          return TraversalResult(ob, segment[2..], segs[i + 1..], SliceTo(segs, plan.vrootIdx + i + 1),
                                 vroot, plan.vrootTuple, root);
        }
        match tree.nodes[ob].children {
          case NoGetItem =>
            return TraversalResult(ob, segment, segs[i + 1..], SliceTo(segs, plan.vrootIdx + i + 1),
                                   vroot, plan.vrootTuple, root);
          case Items(getitem) =>
            if segment !in getitem {
              return TraversalResult(ob, segment, segs[i + 1..], SliceTo(segs, plan.vrootIdx + i + 1),
                                     vroot, plan.vrootTuple, root);
            }
            var next := getitem[segment];
            if i == plan.vrootIdx {
              vroot := next;
            }
            ob := next;
        }
      }
      return TraversalResult(ob, "", plan.subpath, segs, vroot, plan.vrootTuple, root);
    }

    /** `__call__`: the set-up of `PlanOf`, then the walk. */
    method Call(tree: Tree, request: Request) returns (result: TraversalResult)
      requires tree.Valid() && root in tree.nodes
      ensures result == Resolve(tree, root, request)
    {
      var plan := PlanOf(request);
      result := WalkSegments(tree, plan);
    }
  }

  /** The resource reached from `start` by looking up every segment of `s` in turn, if any. */
  function Follow(tree: Tree, start: Id, s: seq<string>): (r: Option<Id>)
    requires tree.Valid() && start in tree.nodes
    ensures r.Some? ==> r.value in tree.nodes
    decreases |s|
  {
    if |s| == 0 then Some(start)
    else
      match Follow(tree, start, s[..|s| - 1])
      case None => None
      case Some(p) => Lookup(tree, p, s[|s| - 1])
  }

  /** The resource `Follow` reaches, or `start` when it reaches none. */
  function FollowOr(tree: Tree, start: Id, s: seq<string>): Id
    requires tree.Valid() && start in tree.nodes
  {
    match Follow(tree, start, s)
    case Some(r) => r
    case None => start
  }

  /** The walk can consume segment `j`: it is no view selector and the lookups up to it succeed. */
  ghost predicate Consumes(tree: Tree, root: Id, segs: seq<string>, j: nat)
    requires tree.Valid() && root in tree.nodes && j < |segs|
  {
    !IsViewSelector(segs[j]) && Follow(tree, root, segs[..j + 1]).Some?
  }

  /**
   * Segment index `k` is where the walk must stop: every segment before it can be
   * consumed and, unless `k` is the end, segment `k` cannot.
   */
  ghost predicate StopsAt(tree: Tree, root: Id, segs: seq<string>, k: nat)
    requires tree.Valid() && root in tree.nodes
  {
    && k <= |segs|
    && (forall j :: 0 <= j < k ==> Consumes(tree, root, segs, j))
    && (k < |segs| ==> !Consumes(tree, root, segs, k))
  }

  /** The virtual root once the walk has consumed `n` segments. */
  ghost function VirtualRootAt(tree: Tree, root: Id, plan: Plan, n: nat): Id
    requires tree.Valid() && root in tree.nodes && n <= |plan.segments|
  {
    if 0 <= plan.vrootIdx < n then FollowOr(tree, root, plan.segments[..plan.vrootIdx + 1]) else root
  }

  /** The view name an unconsumable segment gives: the segment, less `@@` for a view selector. */
  function ViewNameOf(segment: string): string
  {
    if IsViewSelector(segment) then segment[2..] else segment
  }

  /**
   * `r` is the record of a walk over `plan` that stops at segment index `k`: the
   * context is where the first `k` segments lead, the virtual root is the one after
   * `k` segments, and the view name, subpath and `traversed` are those of an early
   * stop at `k`, or of full consumption when `k` is the end.
   */
  ghost predicate WalkEndsAt(tree: Tree, root: Id, plan: Plan, k: nat, r: TraversalResult)
    requires tree.Valid() && root in tree.nodes && k <= |plan.segments|
  {
    var segs := plan.segments;
    && r.context == FollowOr(tree, root, segs[..k])
    && r.virtualRoot == VirtualRootAt(tree, root, plan, k)
    && r.root == root && r.virtualRootPath == plan.vrootTuple
    && (k < |segs| ==>
          r.viewName == ViewNameOf(segs[k]) && r.subpath == segs[k + 1..]
          && r.traversed == SliceTo(segs, plan.vrootIdx + k + 1))
    && (k == |segs| ==> r.viewName == "" && r.subpath == plan.subpath && r.traversed == segs)
  }

  /** From any index before the stopping index, with the state the walk has there, it ends at the stopping index. */
  lemma {:induction false} WalkFrom(tree: Tree, root: Id, plan: Plan, i: nat, ob: Id, vroot: Id, k: nat)
    requires tree.Valid() && root in tree.nodes && ob in tree.nodes
    requires i <= k && StopsAt(tree, root, plan.segments, k)
    requires Follow(tree, root, plan.segments[..i]) == Some(ob)
    requires vroot == VirtualRootAt(tree, root, plan, i)
    ensures WalkEndsAt(tree, root, plan, k, Walk(tree, root, plan, i, ob, vroot))
    decreases k - i
  {
    if i < k {
      assert Consumes(tree, root, plan.segments, i);
      var next := ConsumedStep(tree, root, plan, i, ob, vroot);
      WalkFrom(tree, root, plan, i + 1, next, if i == plan.vrootIdx then next else vroot, k);
    } else {
      WalkAtStop(tree, root, plan, k, ob, vroot);
    }
  }

  /**
   * Consuming segment `i` moves the walk to the resource the first `i + 1` segments
   * lead to, with the virtual root it has after `i + 1` segments.
   */
  lemma ConsumedStep(tree: Tree, root: Id, plan: Plan, i: nat, ob: Id, vroot: Id) returns (next: Id)
    requires tree.Valid() && root in tree.nodes && ob in tree.nodes && i < |plan.segments|
    requires Consumes(tree, root, plan.segments, i)
    requires Follow(tree, root, plan.segments[..i]) == Some(ob)
    requires vroot == VirtualRootAt(tree, root, plan, i)
    ensures next in tree.nodes && Follow(tree, root, plan.segments[..i + 1]) == Some(next)
    ensures Walk(tree, root, plan, i, ob, vroot) == Walk(tree, root, plan, i + 1, next, if i == plan.vrootIdx then next else vroot)
    ensures (if i == plan.vrootIdx then next else vroot) == VirtualRootAt(tree, root, plan, i + 1)
  {
    var segs := plan.segments;
    assert segs[..i + 1][..i] == segs[..i];
    next := Lookup(tree, ob, segs[i]).value;
  }

  /** At the stopping index the walk returns the record `WalkEndsAt` describes. */
  lemma WalkAtStop(tree: Tree, root: Id, plan: Plan, k: nat, ob: Id, vroot: Id)
    requires tree.Valid() && root in tree.nodes && ob in tree.nodes
    requires StopsAt(tree, root, plan.segments, k)
    requires Follow(tree, root, plan.segments[..k]) == Some(ob)
    requires vroot == VirtualRootAt(tree, root, plan, k)
    ensures WalkEndsAt(tree, root, plan, k, Walk(tree, root, plan, k, ob, vroot))
  {
    var segs := plan.segments;
    if k < |segs| {
      assert segs[..k + 1][..k] == segs[..k];
    }
  }

  /**
   * The walk stops at the first segment it cannot consume, with no backtracking. The
   * context is the resource the consumed segments lead to. After an early stop the
   * view name comes from the stopping segment, the subpath is what follows it, and
   * `traversed` is the first `vroot_idx + k + 1` segments. When nothing stops it, the
   * view name is empty, the subpath is the request's and `traversed` is every segment.
   * The virtual root is the resource at index `vroot_idx`, or the root when the walk
   * never got past it; `virtual_root_path` is always the virtual root's own segments.
   */
  lemma ResolveStopsAt(tree: Tree, root: Id, request: Request, k: nat)
    requires tree.Valid() && root in tree.nodes
    requires StopsAt(tree, root, PlanOf(request).segments, k)
    ensures var r := Resolve(tree, root, request);
            var plan := PlanOf(request);
            var segs := plan.segments;
            && r.context == FollowOr(tree, root, segs[..k])
            && r.virtualRoot == (if 0 <= plan.vrootIdx < k then FollowOr(tree, root, segs[..plan.vrootIdx + 1]) else root)
            && r.root == root
            && r.virtualRootPath == (if request.vhRoot.Some? then PathSegments(request.vhRoot.value) else [])
            && (k < |segs| ==>
                  r.viewName == ViewNameOf(segs[k]) && r.subpath == segs[k + 1..]
                  && r.traversed == SliceTo(segs, plan.vrootIdx + k + 1))
            && (k == |segs| ==> r.viewName == "" && r.subpath == RequestSubpath(request) && r.traversed == segs)
  {
    var plan := PlanOf(request);
    assert plan.segments[..0] == [];
    WalkFrom(tree, root, plan, 0, root, root, k);
  }

  /**
   * Without an `HTTP_X_VHM_ROOT` value `vroot_idx` is -1, so after an early stop at
   * index `k`, `traversed` is exactly the `k` segments consumed.
   */
  lemma TraversedWithoutHeader(tree: Tree, root: Id, request: Request, k: nat)
    requires tree.Valid() && root in tree.nodes && request.vhRoot.None?
    requires StopsAt(tree, root, PlanOf(request).segments, k) && k < |PlanOf(request).segments|
    ensures Resolve(tree, root, request).traversed == PlanOf(request).segments[..k]
  {
    ResolveStopsAt(tree, root, request, k);
  }

  lemma {:induction false} StopFrom(tree: Tree, root: Id, segs: seq<string>, i: nat) returns (k: nat)
    requires tree.Valid() && root in tree.nodes && i <= |segs|
    requires forall j :: 0 <= j < i ==> Consumes(tree, root, segs, j)
    ensures StopsAt(tree, root, segs, k)
    decreases |segs| - i
  {
    if i == |segs| || !Consumes(tree, root, segs, i) {
      k := i;
    } else {
      k := StopFrom(tree, root, segs, i + 1);
    }
  }

  /** A followable prefix of segments, none a view selector, can all be consumed. */
  lemma PrefixConsumed(tree: Tree, root: Id, segs: seq<string>, vt: seq<string>)
    requires tree.Valid() && root in tree.nodes
    requires |vt| <= |segs| && segs[..|vt|] == vt
    requires forall j :: 0 <= j < |vt| ==> !IsViewSelector(vt[j])
    requires Follow(tree, root, vt).Some?
    ensures forall j :: 0 <= j < |vt| ==> Consumes(tree, root, segs, j)
  {
    forall j | 0 <= j < |vt|
      ensures Consumes(tree, root, segs, j)
    {
      assert segs[..j + 1] == vt[..j + 1];
      FollowPrefix(tree, root, vt, j + 1);
    }
  }

  /** Every walk stops somewhere: there is a stopping index for any segments. */
  lemma StopIndexExists(tree: Tree, root: Id, segs: seq<string>) returns (k: nat)
    requires tree.Valid() && root in tree.nodes
    ensures StopsAt(tree, root, segs, k)
  {
    k := StopFrom(tree, root, segs, 0);
  }

  /** A request for `/` (or an empty `path_info`) with no route and no virtual root yields the root. */
  lemma SlashResolvesToRoot(tree: Tree, root: Id, pathInfo: string)
    requires tree.Valid() && root in tree.nodes
    requires pathInfo == "/" || pathInfo == ""
    ensures Resolve(tree, root, Request(None, pathInfo, None)) == TraversalResult(root, "", [], [], root, [], root)
  {
  }

  /** Every prefix of a path that can be followed can be followed too. */
  lemma {:induction false} FollowPrefix(tree: Tree, start: Id, s: seq<string>, m: nat)
    requires tree.Valid() && start in tree.nodes && m <= |s|
    requires Follow(tree, start, s).Some?
    ensures Follow(tree, start, s[..m]).Some?
    decreases |s|
  {
    if m < |s| {
      FollowPrefix(tree, start, s[..|s| - 1], m);
      assert s[..|s| - 1][..m] == s[..m];
    } else {
      assert s[..m] == s;
    }
  }

  /** The path `/` has no segments. */
  lemma SlashHasNoSegments()
    ensures PathSegments("/") == []
  {
    assert "/"[1..] == "";
    assert StripLeading("/") == "";
  }

  /**
   * With `HTTP_X_VHM_ROOT` set to `v` and a request path `/q` without `..` pieces, the
   * segments walked are those of `v` followed by those of `q`, and `vroot_idx` is the
   * index of the last segment of `v`.
   */
  lemma HeaderPlan(request: Request, v: string, q: string)
    requires request.vhRoot == Some(v) && RequestPath(request) == "/" + q && ".." !in Split(q)
    ensures PlanOf(request).segments == PathSegments(v) + PathSegments(q)
    ensures PlanOf(request).vrootIdx == |PathSegments(v)| - 1
    ensures PlanOf(request).vrootTuple == PathSegments(v)
  {
    var vpath := v + RequestPath(request);
    assert vpath == v + "/" + q;
    var segs := if vpath == "/" then [] else PathSegments(vpath);
    assert PlanOf(request).segments == segs;
    PathSegmentsConcat(v, q);
    SlashHasNoSegments();
    assert segs == PathSegments(vpath);
  }

  /**
   * When the segments of the `HTTP_X_VHM_ROOT` value lead from the root to a resource,
   * none of them being a view selector, that resource is the virtual root (the root
   * itself when the value has no segments), and `virtual_root_path` is those segments.
   */
  lemma VirtualRootFromHeader(tree: Tree, root: Id, request: Request, v: string, q: string)
    requires tree.Valid() && root in tree.nodes
    requires request.vhRoot == Some(v) && RequestPath(request) == "/" + q && ".." !in Split(q)
    requires forall j :: 0 <= j < |PathSegments(v)| ==> !IsViewSelector(PathSegments(v)[j])
    requires Follow(tree, root, PathSegments(v)).Some?
    ensures Resolve(tree, root, request).virtualRoot == Follow(tree, root, PathSegments(v)).value
    ensures Resolve(tree, root, request).virtualRootPath == PathSegments(v)
  {
    var vt := PathSegments(v);
    HeaderPlan(request, v, q);
    var segs := PlanOf(request).segments;
    assert segs[..|vt|] == vt;
    PrefixConsumed(tree, root, segs, vt);
    var k := StopIndexExists(tree, root, segs);
    assert |vt| <= k;
    ResolveStopsAt(tree, root, request, k);
  }
  /** Without a route or a virtual root, a request for `/a/b/...` walks exactly `a`, `b`, .... */
  lemma PlanOfJoinedPath(names: seq<string>)
    requires forall j :: 0 <= j < |names| ==> IsCleanSegment(names[j]) && '/' !in names[j]
    ensures PlanOf(Request(None, "/" + JoinSlash(names), None)) == Plan(names, -1, [], [])
  {
    var path := "/" + JoinSlash(names);
    assert RequestPath(Request(None, path, None)) == path;
    PathSegmentsOfJoin(names);
    SlashHasNoSegments();
    assert (if path == "/" then [] else PathSegments(path)) == names;
  }

  /**
   * A request for `/a/b/...` whose clean segments the walk consumes one by one, none
   * of them being a view selector, resolves to the resource they lead to, with no
   * view name left over.
   */
  lemma ResolveJoinedPath(tree: Tree, root: Id, names: seq<string>)
    requires tree.Valid() && root in tree.nodes
    requires forall j :: 0 <= j < |names| ==> IsCleanSegment(names[j]) && '/' !in names[j] && !IsViewSelector(names[j])
    requires Follow(tree, root, names).Some?
    ensures var r := Resolve(tree, root, Request(None, "/" + JoinSlash(names), None));
            r.context == Follow(tree, root, names).value && r.viewName == "" && r.traversed == names
  {
    var request := Request(None, "/" + JoinSlash(names), None);
    PlanOfJoinedPath(names);
    TakeAll(names);
    PrefixConsumed(tree, root, names, names);
    ResolveStopsAt(tree, root, request, |names|);
  }

}
