/**
 * Resolving a path to a resource and a resource to a path: `resource_path`,
 * `traverse` and `find_resource`, and the round trip between them.
 *
 * `traverse` builds a request for the path with `Request.blank` and runs the default
 * `ResourceTreeTraverser` over it; here the request's `path_info` is the codec's
 * decoding of the path, and a path that does not decode stands for the exception
 * raised on the way.
 */
module Locate {
  import opened Wrappers
  import opened PathText
  import opened Resources
  import opened Quoting
  import opened Traversal

  /** The `path` argument of `traverse` and `find_resource`: a string or a tuple of segments. */
  datatype PathArg = PathString(s: string) | PathTuple(t: seq<string>)

  /**
   * What `find_resource` does: return a resource, raise KeyError for a view name left
   * over by the traversal, or fail while the path is decoded.
   */
  datatype Located = Found(id: Id) | NoSubelement(context: Id, viewName: string) | Undecodable

  /** `resource_path(resource, *elements)`: the joined, quoted path tuple. */
  function ResourcePath(tree: Tree, c: Codec, resource: Id, elements: seq<string>): (r: string)
    requires tree.Valid() && resource in tree.nodes
    ensures r != ""
  {
    JoinPathTuple(c, ResourcePathTuple(tree, resource, elements))
  }

  /** The string `traverse` works on: a non-empty tuple is joined, an empty one is `''`. */
  function PathStringOf(c: Codec, path: PathArg): string
  {
    match path
    case PathString(s) => s
    case PathTuple(t) => if |t| == 0 then "" else JoinPathTuple(c, t)
  }

  /** `path.startswith('/')`: the traversal of such a path starts at the root. */
  predicate IsAbsolute(p: string)
  {
    |p| > 0 && p[0] == '/'
  }

  /**
   * `traverse(resource, path)`: an absolute path starts at the root of `resource`'s
   * tree, any other at `resource`; `None` when the path does not decode.
   */
  function Traverse(tree: Tree, c: Codec, resource: Id, path: PathArg): (r: Option<TraversalResult>)
    requires tree.Valid() && resource in tree.nodes
    ensures r.None? <==> c.decode(PathStringOf(c, path)).None?
    ensures r.Some? ==> r.value.root == (if IsAbsolute(PathStringOf(c, path)) then Root(tree, resource) else resource)
  {
    var p := PathStringOf(c, path);
    var start := if IsAbsolute(p) then Root(tree, resource) else resource;
    match c.decode(p)
    case None => None
    case Some(info) => Some(Resolve(tree, start, Request(None, info, None)))
  }

  /** `find_resource(resource, path)`: the context of the traversal, unless a view name is left over. */
  function FindResource(tree: Tree, c: Codec, resource: Id, path: PathArg): (r: Located)
    requires tree.Valid() && resource in tree.nodes
    ensures r.Undecodable? <==> Traverse(tree, c, resource, path).None?
    ensures r.Found? ==> r.id in tree.nodes && Traverse(tree, c, resource, path).value.viewName == ""
                         && r.id == Traverse(tree, c, resource, path).value.context
    ensures r.NoSubelement? ==> r.viewName != "" && r.viewName == Traverse(tree, c, resource, path).value.viewName
                                && r.context == Traverse(tree, c, resource, path).value.context
  {
    match Traverse(tree, c, resource, path)
    case None => Undecodable
    case Some(d) => if d.viewName != "" then NoSubelement(d.context, d.viewName) else Found(d.context)
  }

  /** A tuple whose first element is `''` joins to an absolute path. */
  lemma TupleWithLeadingEmptyIsAbsolute(c: Codec, t: seq<string>)
    requires Lawful(c)
    requires |t| >= 1 && t[0] == ""
    ensures IsAbsolute(JoinPathTuple(c, t))
    ensures IsAbsolute(PathStringOf(c, PathTuple(t)))
  {
    if |t| == 1 {
      JoinPathTupleOfRoot(c);
      assert t == [""];
    } else {
      JoinPathTupleAbsolute(c, t);
    }
  }

  /** The path of a resource whose root is named `None` or `''` starts with '/'. */
  lemma ResourcePathIsAbsolute(tree: Tree, c: Codec, resource: Id, elements: seq<string>)
    requires Lawful(c) && tree.Valid() && resource in tree.nodes
    requires NameOf(tree, Root(tree, resource)) == ""
    ensures IsAbsolute(ResourcePath(tree, c, resource, elements))
  {
    var t := ResourcePathTuple(tree, resource, elements);
    assert t[0] == "";
    TupleWithLeadingEmptyIsAbsolute(c, t);
  }

  /** The empty path, as a string or as a tuple, finds the resource itself. */
  lemma FindResourceOfEmptyPath(tree: Tree, c: Codec, resource: Id)
    requires Lawful(c) && tree.Valid() && resource in tree.nodes
    ensures FindResource(tree, c, resource, PathString("")) == Found(resource)
    ensures FindResource(tree, c, resource, PathTuple([])) == Found(resource)
  {
    LawfulDecodes(c, []);
    assert QuoteAll(c, []) == [];
    SlashResolvesToRoot(tree, resource, "");
  }

  /**
   * `find_resource` can reach `id` by name from the root: the root is named `None`
   * or `''`, and every other resource of the lineage has a clean name without '/'
   * that does not start with `@@`, under which its parent's `__getitem__` returns it.
   */
  predicate Addressable(tree: Tree, id: Id)
    requires tree.Valid() && id in tree.nodes
    decreases tree.rank[id]
  {
    match tree.nodes[id].parent
    case None => NameOf(tree, id) == ""
    case Some(p) =>
      var n := NameOf(tree, id);
      && IsCleanSegment(n) && '/' !in n && !IsViewSelector(n)
      && tree.nodes[p].children.Items? && n in tree.nodes[p].children.items
      && tree.nodes[p].children.items[n] == id
      && Addressable(tree, p)
  }

  /**
   * The path names of an addressable resource are `''` followed by segments that the
   * walk consumes one by one, from the root to the resource.
   */
  lemma {:induction false} FollowPathNames(tree: Tree, id: Id)
    requires tree.Valid() && id in tree.nodes && Addressable(tree, id)
    ensures PathNames(tree, id)[0] == ""
    ensures forall j :: 1 <= j < |PathNames(tree, id)| ==>
              IsCleanSegment(PathNames(tree, id)[j]) && '/' !in PathNames(tree, id)[j]
              && !IsViewSelector(PathNames(tree, id)[j])
    ensures Follow(tree, Root(tree, id), PathNames(tree, id)[1..]) == Some(id)
    decreases tree.rank[id]
  {
    match tree.nodes[id].parent
    case None =>
      assert PathNames(tree, id)[1..] == [];
    case Some(p) =>
      FollowPathNames(tree, p);
      var s := PathNames(tree, p)[1..];
      assert PathNames(tree, id)[1..] == s + [NameOf(tree, id)];
      assert (s + [NameOf(tree, id)])[..|s|] == s;
  }

  /** Traversing the joined path tuple of an addressable resource ends at that resource. */
  lemma TraverseToAddressable(tree: Tree, c: Codec, resource: Id, target: Id)
    requires Lawful(c) && tree.Valid() && resource in tree.nodes && target in tree.nodes
    requires Root(tree, target) == Root(tree, resource) && Addressable(tree, target)
    ensures var d := Traverse(tree, c, resource, PathString(JoinPathTuple(c, PathNames(tree, target))));
            d.Some? && d.value.context == target && d.value.viewName == ""
  {
    var t := PathNames(tree, target);
    var names := t[1..];
    FollowPathNames(tree, target);
    assert SlashFree(t);
    DecodeJoinedAbsolute(c, t);
    TupleWithLeadingEmptyIsAbsolute(c, t);
    ResolveJoinedPath(tree, Root(tree, target), names);
  }

  /**
   * `find_resource` inverts `resource_path`: from any resource of the same tree, the
   * path string of an addressable resource finds that resource.
   */
  lemma FindResourceOfResourcePath(tree: Tree, c: Codec, resource: Id, target: Id)
    requires Lawful(c) && tree.Valid() && resource in tree.nodes && target in tree.nodes
    requires Root(tree, target) == Root(tree, resource) && Addressable(tree, target)
    ensures FindResource(tree, c, resource, PathString(ResourcePath(tree, c, target, []))) == Found(target)
  {
    assert ResourcePathTuple(tree, target, []) == PathNames(tree, target);
    TraverseToAddressable(tree, c, resource, target);
  }

  /**
   * `find_resource` inverts `resource_path_tuple`: from any resource of the same tree,
   * the path tuple of an addressable resource finds that resource.
   */
  lemma FindResourceOfResourcePathTuple(tree: Tree, c: Codec, resource: Id, target: Id)
    requires Lawful(c) && tree.Valid() && resource in tree.nodes && target in tree.nodes
    requires Root(tree, target) == Root(tree, resource) && Addressable(tree, target)
    ensures FindResource(tree, c, resource, PathTuple(ResourcePathTuple(tree, target, []))) == Found(target)
  {
    assert ResourcePathTuple(tree, target, []) == PathNames(tree, target);
    TraverseToAddressable(tree, c, resource, target);
  }

}
