/**
 * Virtual hosting: the physical and virtual paths `ResourceURL.__init__` computes for
 * a resource, and the suffix slicing by which `virtual_root` recovers the virtual
 * root's path from them and finds the virtual root.
 */
module VirtualHosting {
  import opened Wrappers
  import opened PathText
  import opened Resources
  import opened Quoting
  import opened Locate

  /** The four paths a `ResourceURL` holds. */
  datatype UrlPaths = UrlPaths(physicalPath: string, physicalPathTuple: seq<string>,
                               virtualPath: string, virtualPathTuple: seq<string>)

  /**
   * The paths `ResourceURL` derives from a resource path tuple `t` and the request's
   * `HTTP_X_VHM_ROOT` value `vhRoot`.
   */
  function PathsOfTuple(c: Codec, t: seq<string>, vhRoot: Option<string>): UrlPaths
  {
    var pt := if t == [""] then t else t + [""];
    var pp := if t == [""] then JoinPathTuple(c, t) else JoinPathTuple(c, t) + "/";
    if vhRoot.Some? && StripTrailing(vhRoot.value) != "" && StartsWith(pp, StripTrailing(vhRoot.value)) then
      var v := StripTrailing(vhRoot.value);
      UrlPaths(pp, pt, pp[|v|..], [""] + SliceFrom(pt, |Split(v)|))
    else
      UrlPaths(pp, pt, pp, pt)
  }

  /** `ResourceURL(resource, request)`'s paths. */
  function UrlPathsOf(tree: Tree, c: Codec, resource: Id, vhRoot: Option<string>): UrlPaths
    requires tree.Valid() && resource in tree.nodes
  {
    PathsOfTuple(c, ResourcePathTuple(tree, resource, []), vhRoot)
  }

  class ResourceURL {
    var virtualPath: string
    var physicalPath: string
    var virtualPathTuple: seq<string>
    var physicalPathTuple: seq<string>

    /** The four fields, as `ResourceURL.__init__` assigns them. */
    constructor (tree: Tree, c: Codec, resource: Id, vhRoot: Option<string>)
      requires tree.Valid() && resource in tree.nodes
      ensures UrlPaths(physicalPath, physicalPathTuple, virtualPath, virtualPathTuple)
              == UrlPathsOf(tree, c, resource, vhRoot)
    {
      var physicalTuple := ResourcePathTuple(tree, resource, []);
      var physical := JoinPathTuple(c, physicalTuple);
      if physicalTuple != [""] {
        physicalTuple := physicalTuple + [""];
        physical := physical + "/";
      }
      var virtual := physical;
      var virtualTuple := physicalTuple;
      if vhRoot.Some? {
        var vrootPath := StripTrailing(vhRoot.value);
        if vrootPath != "" && StartsWith(physical, vrootPath) {
          var vrootTuple := Split(vrootPath);
          var numels := |vrootTuple|;
          virtualTuple := [""] + SliceFrom(physicalTuple, numels);
          virtual := physical[|vrootPath|..];
        }
      }
      virtualPath := virtual;
      physicalPath := physical;
      virtualPathTuple := virtualTuple;
      physicalPathTuple := physicalTuple;
    }
  }

  /**
   * The physical path ends with '/'. For a tuple other than `('',)` it is the joined
   * path with '/' added, and its tuple is the path tuple with `''` added. Without an
   * `HTTP_X_VHM_ROOT` value the virtual paths are the physical ones.
   */
  lemma PhysicalPathsOfTuple(c: Codec, t: seq<string>, vhRoot: Option<string>)
    requires Lawful(c)
    ensures EndsWith(PathsOfTuple(c, t, vhRoot).physicalPath, "/")
    ensures t == [""] ==> PathsOfTuple(c, t, vhRoot).physicalPath == "/"
                          && PathsOfTuple(c, t, vhRoot).physicalPathTuple == [""]
    ensures t != [""] ==> PathsOfTuple(c, t, vhRoot).physicalPath == JoinPathTuple(c, t) + "/"
                          && PathsOfTuple(c, t, vhRoot).physicalPathTuple == t + [""]
    ensures vhRoot.None? ==> PathsOfTuple(c, t, vhRoot).virtualPath == PathsOfTuple(c, t, vhRoot).physicalPath
                             && PathsOfTuple(c, t, vhRoot).virtualPathTuple == PathsOfTuple(c, t, vhRoot).physicalPathTuple
  {
    JoinPathTupleOfRoot(c);
  }

  /** `PhysicalPathsOfTuple` for the path tuple of a resource. */
  lemma PhysicalPaths(tree: Tree, c: Codec, resource: Id, vhRoot: Option<string>)
    requires Lawful(c) && tree.Valid() && resource in tree.nodes
    ensures var u := UrlPathsOf(tree, c, resource, vhRoot);
            var t := ResourcePathTuple(tree, resource, []);
            && EndsWith(u.physicalPath, "/")
            && (t == [""] ==> u.physicalPath == "/" && u.physicalPathTuple == [""])
            && (t != [""] ==> u.physicalPath == ResourcePath(tree, c, resource, []) + "/"
                              && u.physicalPathTuple == t + [""])
            && (vhRoot.None? ==> u.virtualPath == u.physicalPath && u.virtualPathTuple == u.physicalPathTuple)
  {
    PhysicalPathsOfTuple(c, ResourcePathTuple(tree, resource, []), vhRoot);
  }

  /**
   * With an `HTTP_X_VHM_ROOT` value `v` whose trailing slashes are stripped: when the
   * rest is non-empty and a prefix of the physical path, the physical path is that
   * prefix followed by the virtual path, and the virtual tuple is `''` followed by the
   * physical tuple less as many elements as the prefix has '/'-separated pieces;
   * otherwise the virtual paths are the physical ones. Either way the virtual path,
   * like the physical one, ends with '/'.
   */
  lemma VirtualPathsOfTuple(c: Codec, t: seq<string>, v: string)
    requires Lawful(c)
    ensures var u := PathsOfTuple(c, t, Some(v));
            var w := StripTrailing(v);
            && (w != "" && StartsWith(u.physicalPath, w) ==>
                  u.physicalPath == w + u.virtualPath
                  && u.virtualPathTuple == [""] + SliceFrom(u.physicalPathTuple, |Split(w)|))
            && (!(w != "" && StartsWith(u.physicalPath, w)) ==>
                  u.virtualPath == u.physicalPath && u.virtualPathTuple == u.physicalPathTuple)
            && EndsWith(u.virtualPath, "/")
  {
    var pp := PathsOfTuple(c, t, Some(v)).physicalPath;
    var w := StripTrailing(v);
    PhysicalPathsOfTuple(c, t, Some(v));
    if w != "" && StartsWith(pp, w) {
      CutPrefix(pp, w);
    }
  }

  /** Cutting a prefix that does not end with '/' from a path that does leaves a path that does. */
  lemma CutPrefix(pp: string, w: string)
    requires w != "" && w[|w| - 1] != '/' && StartsWith(pp, w) && EndsWith(pp, "/")
    ensures pp == w + pp[|w|..] && EndsWith(pp[|w|..], "/")
  {
    assert pp[|pp| - 1] == '/';
    assert |w| < |pp|;
    assert pp[|w|..][|pp| - |w| - 1] == pp[|pp| - 1];
  }

  /** `VirtualPathsOfTuple` for the path tuple of a resource. */
  lemma VirtualPaths(tree: Tree, c: Codec, resource: Id, v: string)
    requires Lawful(c) && tree.Valid() && resource in tree.nodes
    ensures var u := UrlPathsOf(tree, c, resource, Some(v));
            var w := StripTrailing(v);
            && (w != "" && StartsWith(u.physicalPath, w) ==>
                  u.physicalPath == w + u.virtualPath
                  && u.virtualPathTuple == [""] + SliceFrom(u.physicalPathTuple, |Split(w)|))
            && (!(w != "" && StartsWith(u.physicalPath, w)) ==>
                  u.virtualPath == u.physicalPath && u.virtualPathTuple == u.physicalPathTuple)
            && EndsWith(u.virtualPath, "/")
  {
    VirtualPathsOfTuple(c, ResourcePathTuple(tree, resource, []), v);
  }

  /**
   * The slicing in `virtual_root`: when the physical path differs from the virtual path
   * and ends with it, the physical path less `len(virtual path)` trailing characters.
   */
  function VirtualRootPath(physicalPath: string, virtualPath: string): (r: Option<string>)
    ensures r.None? <==> physicalPath == virtualPath || !EndsWith(physicalPath, virtualPath)
    ensures r.Some? && virtualPath != "" ==> r.value != "" && r.value + virtualPath == physicalPath
  {
    if physicalPath != virtualPath && EndsWith(physicalPath, virtualPath) then
      Some(SliceTo(physicalPath, -|virtualPath|))
    else
      None
  }

  /**
   * `virtual_root(resource, request)` with the default `ResourceURL`: the resource the
   * recovered virtual-root path finds, or the root when no path is recovered.
   */
  function VirtualRoot(tree: Tree, c: Codec, resource: Id, vhRoot: Option<string>): (r: Located)
    requires tree.Valid() && resource in tree.nodes
    ensures r.Found? ==> r.id in tree.nodes
  {
    var u := UrlPathsOf(tree, c, resource, vhRoot);
    match VirtualRootPath(u.physicalPath, u.virtualPath)
    case Some(p) => FindResource(tree, c, resource, PathString(p))
    case None => Found(Root(tree, resource))
  }

  /** Without an `HTTP_X_VHM_ROOT` value the virtual root is the physical root. */
  lemma VirtualRootWithoutHeader(tree: Tree, c: Codec, resource: Id)
    requires Lawful(c) && tree.Valid() && resource in tree.nodes
    ensures VirtualRoot(tree, c, resource, None) == Found(Root(tree, resource))
  {
    PhysicalPaths(tree, c, resource, None);
  }

  /**
   * When `ResourceURL` strips a virtual-root prefix, the slicing in `virtual_root`
   * gives that prefix back.
   */
  lemma VirtualRootPathRecoversPrefix(tree: Tree, c: Codec, resource: Id, v: string)
    requires Lawful(c) && tree.Valid() && resource in tree.nodes
    requires var u := UrlPathsOf(tree, c, resource, Some(v));
             StripTrailing(v) != "" && StartsWith(u.physicalPath, StripTrailing(v))
    ensures var u := UrlPathsOf(tree, c, resource, Some(v));
            VirtualRootPath(u.physicalPath, u.virtualPath) == Some(StripTrailing(v))
  {
    var u := UrlPathsOf(tree, c, resource, Some(v));
    var w := StripTrailing(v);
    VirtualPaths(tree, c, resource, v);
    assert u.physicalPath == w + u.virtualPath;
    assert SliceTo(u.physicalPath, -|u.virtualPath|) == w;
  }

  /** The joined segments between two slashes; a single slash when there are none. */
  function Slashed(t: seq<string>): string
  {
    if t == [] then "/" else "/" + JoinSlash(t) + "/"
  }

  /** `''`, segments and `''` join to the joined segments between two slashes. */
  lemma JoinBetweenSlashes(t: seq<string>)
    ensures JoinSlash([""] + t + [""]) == Slashed(t)
  {
    if t == [] {
      assert [""] + t + [""] == ["", ""];
      JoinSlashCons("", [""]);
    } else {
      var j := JoinSlash(t);
      JoinSlashCons("", t);
      assert JoinSlash([""] + t) == "/" + j;
      JoinSlashAppend([""] + t, [""]);
      assert JoinSlash([""] + t + [""]) == "/" + j + "/" + "";
      assert "/" + j + "/" + "" == "/" + j + "/";
    }
  }

  /** `''`, segments and `''` quote to `''`, the quoted segments and `''`. */
  lemma QuoteBetweenEmpty(c: Codec, t: seq<string>)
    requires Quote(c, "") == ""
    ensures QuoteAll(c, [""] + t + [""]) == [""] + QuoteAll(c, t) + [""]
  {
    QuoteAllAppend(c, [""] + t, [""]);
    QuoteAllAppend(c, [""], t);
    assert QuoteAll(c, [""]) == [""];
  }

  /**
   * The joined quoted path of a tuple whose last segment is not empty: no trailing '/',
   * and splitting it gives back the quoted segments.
   */
  lemma PrefixPathEnds(c: Codec, pa: seq<string>)
    requires Lawful(c) && |pa| >= 1 && pa[|pa| - 1] != ""
    ensures JoinPathTuple(c, pa) == JoinSlash(QuoteAll(c, pa))
    ensures StripTrailing(JoinPathTuple(c, pa)) == JoinPathTuple(c, pa)
    ensures Split(JoinPathTuple(c, pa)) == QuoteAll(c, pa)
  {
    var qa := QuoteAll(c, pa);
    var last := Quote(c, pa[|pa| - 1]);
    assert last != "" && '/' !in last;
    JoinSlashLast(qa);
    var v := JoinSlash(qa);
    assert v[|v| - 1] == last[|last| - 1];
    SplitJoin(qa);
  }

  /** Appending segments to a tuple whose quoted join is not empty appends their quoted join. */
  lemma JoinPathTupleAppend(c: Codec, t: seq<string>, more: seq<string>)
    requires JoinSlash(QuoteAll(c, t)) != ""
    ensures more == [] ==> JoinPathTuple(c, t + more) == JoinSlash(QuoteAll(c, t))
    ensures more != [] ==> JoinPathTuple(c, t + more) == JoinSlash(QuoteAll(c, t)) + "/" + JoinSlash(QuoteAll(c, more))
  {
    QuoteAllAppend(c, t, more);
    assert |t| >= 1;
    if more != [] {
      JoinSlashAppend(QuoteAll(c, t), QuoteAll(c, more));
    } else {
      assert t + more == t;
    }
  }

  lemma SlashedAfter(joined: string, v: string, t: seq<string>)
    requires t == [] ==> joined == v
    requires t != [] ==> joined == v + "/" + JoinSlash(t)
    ensures joined + "/" == v + Slashed(t)
  {
  }

  /**
   * The physical paths of a tuple `pa + below` whose part `pa` ends with a non-empty
   * segment: the tuple gains a closing `''`, and the path is the joined path of `pa`
   * followed by the quoted segments of `below` between slashes.
   */
  lemma PhysicalOfAppend(c: Codec, pa: seq<string>, below: seq<string>)
    requires Lawful(c) && |pa| >= 1 && pa[|pa| - 1] != ""
    ensures PathsOfTuple(c, pa + below, None).physicalPathTuple == pa + below + [""]
    ensures PathsOfTuple(c, pa + below, None).physicalPath == JoinPathTuple(c, pa) + Slashed(QuoteAll(c, below))
  {
    PrefixPathEnds(c, pa);
    JoinPathTupleAppend(c, pa, below);
    assert (pa + below)[|pa| - 1] == pa[|pa| - 1];
    assert pa + below != [""];
    SlashedAfter(JoinPathTuple(c, pa + below), JoinPathTuple(c, pa), QuoteAll(c, below));
  }

  /**
   * A non-empty `HTTP_X_VHM_ROOT` value without trailing '/' that starts the physical
   * path is cut from it: the rest is the virtual path.
   */
  lemma StrippedPrefix(c: Codec, t: seq<string>, v: string, rest: string)
    requires v != "" && StripTrailing(v) == v
    requires PathsOfTuple(c, t, None).physicalPath == v + rest
    ensures StartsWith(PathsOfTuple(c, t, None).physicalPath, v)
    ensures PathsOfTuple(c, t, Some(v))
            == UrlPaths(v + rest, PathsOfTuple(c, t, None).physicalPathTuple, rest,
                        [""] + SliceFrom(PathsOfTuple(c, t, None).physicalPathTuple, |Split(v)|))
  {
    assert (v + rest)[..|v|] == v && (v + rest)[|v|..] == rest;
  }

  lemma SliceAfter(pt: seq<string>, pa: seq<string>, below: seq<string>, n: nat)
    requires pt == pa + below + [""] && n == |pa|
    ensures SliceFrom(pt, n) == below + [""]
  {
    assert pt == pa + (below + [""]);
  }

  /**
   * With the joined path of a leading part `pa` (ending with a non-empty segment) as
   * `HTTP_X_VHM_ROOT`, the prefix is stripped: the virtual tuple is `''`, the rest
   * `below` and a closing `''`, and the virtual path is the join of that tuple quoted.
   */
  lemma VirtualOfAppend(c: Codec, pa: seq<string>, below: seq<string>)
    requires Lawful(c) && |pa| >= 1 && pa[|pa| - 1] != ""
    ensures StripTrailing(JoinPathTuple(c, pa)) == JoinPathTuple(c, pa)
    ensures StartsWith(PathsOfTuple(c, pa + below, None).physicalPath, JoinPathTuple(c, pa))
    ensures PathsOfTuple(c, pa + below, Some(JoinPathTuple(c, pa))).virtualPathTuple == [""] + below + [""]
    ensures PathsOfTuple(c, pa + below, Some(JoinPathTuple(c, pa))).virtualPath
            == JoinSlash(QuoteAll(c, [""] + below + [""]))
  {
    var v := JoinPathTuple(c, pa);
    PrefixPathEnds(c, pa);
    PhysicalOfAppend(c, pa, below);
    StrippedPrefix(c, pa + below, v, Slashed(QuoteAll(c, below)));
    SliceAfter(PathsOfTuple(c, pa + below, None).physicalPathTuple, pa, below, |Split(v)|);
    QuoteBetweenEmpty(c, below);
    JoinBetweenSlashes(QuoteAll(c, below));
  }

  /** The resource at index `k` of the lineage: `k` steps up the `__parent__` chain. */
  function Ancestor(tree: Tree, resource: Id, k: nat): (a: Id)
    requires tree.Valid() && resource in tree.nodes && k < |Lineage(tree, resource)|
    ensures a in tree.nodes
  {
    Lineage(tree, resource)[k]
  }

  /** The names of the `k` resources from just below `Ancestor(k)` down to the resource. */
  function NamesBelow(tree: Tree, resource: Id, k: nat): seq<string>
    requires tree.Valid() && resource in tree.nodes && k < |Lineage(tree, resource)|
  {
    PathNames(tree, resource)[|Lineage(tree, resource)| - k..]
  }

  /** The path names of a resource are those of an ancestor followed by the names below it. */
  lemma PathNamesBelow(tree: Tree, resource: Id, k: nat)
    requires tree.Valid() && resource in tree.nodes && k < |Lineage(tree, resource)|
    ensures PathNames(tree, resource) == PathNames(tree, Ancestor(tree, resource, k)) + NamesBelow(tree, resource, k)
  {
    var p := PathNames(tree, resource);
    var n := |Lineage(tree, resource)| - k;
    AncestorPathNames(tree, resource, k);
    TakeDrop(p, n);
    assert PathNames(tree, Ancestor(tree, resource, k)) == p[..n];
    assert NamesBelow(tree, resource, k) == p[n..];
  }

  /**
   * When `HTTP_X_VHM_ROOT` holds the path of an ancestor (the resource itself included)
   * with a non-empty name, `ResourceURL` strips that prefix: the virtual tuple is `''`,
   * the names below the ancestor and a closing `''`, and the virtual path is the
   * '/'-join of the quoted virtual tuple, so the two virtual paths agree.
   */
  lemma VirtualPathsOfAncestor(tree: Tree, c: Codec, resource: Id, k: nat)
    requires Lawful(c) && tree.Valid() && resource in tree.nodes
    requires k < |Lineage(tree, resource)| && NameOf(tree, Ancestor(tree, resource, k)) != ""
    ensures StripTrailing(ResourcePath(tree, c, Ancestor(tree, resource, k), []))
            == ResourcePath(tree, c, Ancestor(tree, resource, k), [])
    ensures StartsWith(UrlPathsOf(tree, c, resource, None).physicalPath,
                       ResourcePath(tree, c, Ancestor(tree, resource, k), []))
    ensures UrlPathsOf(tree, c, resource, Some(ResourcePath(tree, c, Ancestor(tree, resource, k), []))).virtualPathTuple
            == [""] + NamesBelow(tree, resource, k) + [""]
    ensures UrlPathsOf(tree, c, resource, Some(ResourcePath(tree, c, Ancestor(tree, resource, k), []))).virtualPath
            == JoinSlash(QuoteAll(c, [""] + NamesBelow(tree, resource, k) + [""]))
  {
    var a := Ancestor(tree, resource, k);
    PathNamesBelow(tree, resource, k);
    assert ResourcePathTuple(tree, resource, []) == PathNames(tree, resource);
    assert ResourcePathTuple(tree, a, []) == PathNames(tree, a);
    VirtualOfAppend(c, PathNames(tree, a), NamesBelow(tree, resource, k));
  }

  /**
   * `virtual_root` inverts `ResourceURL`'s stripping: when `HTTP_X_VHM_ROOT` holds the
   * path of an addressable ancestor with a non-empty name, that ancestor is the
   * virtual root.
   */
  lemma VirtualRootOfAncestor(tree: Tree, c: Codec, resource: Id, k: nat)
    requires Lawful(c) && tree.Valid() && resource in tree.nodes
    requires k < |Lineage(tree, resource)| && NameOf(tree, Ancestor(tree, resource, k)) != ""
    requires Addressable(tree, Ancestor(tree, resource, k))
    ensures VirtualRoot(tree, c, resource, Some(ResourcePath(tree, c, Ancestor(tree, resource, k), [])))
            == Found(Ancestor(tree, resource, k))
  {
    var a := Ancestor(tree, resource, k);
    var v := ResourcePath(tree, c, a, []);
    VirtualPathsOfAncestor(tree, c, resource, k);
    VirtualRootPathRecoversPrefix(tree, c, resource, v);
    AncestorRoot(tree, resource, k);
    FindResourceOfResourcePath(tree, c, resource, a);
  }

}
