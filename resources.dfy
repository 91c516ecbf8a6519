/**
 * The resource tree as the traversal engine sees it, and the helpers that walk a
 * resource's `__parent__` chain: `lineage`, `find_root`, `find_interface` and
 * `_resource_path_list` / `resource_path_tuple`.
 *
 * Resources are caller-owned objects; here they are entries of a finite map from
 * identities to records holding the three attributes the engine reads.
 */
module Resources {
  import opened Wrappers

  type Id = int

  /**
   * What a resource offers as `__getitem__`: nothing at all (looking the attribute up
   * raises AttributeError), or a finite name-to-child map (a missing name raises KeyError).
   */
  datatype Children = NoGetItem | Items(items: map<string, Id>)

  /** A location-aware resource: its `__name__`, its `__parent__` and its `__getitem__`. */
  datatype Resource = Resource(name: Option<string>, parent: Option<Id>, children: Children)

  /**
   * A finite resource graph. `rank` strictly decreases from a resource to its parent,
   * so every parent chain ends, at a resource whose `__parent__` is `None`.
   */
  datatype Tree = Tree(nodes: map<Id, Resource>, rank: map<Id, nat>) {

    ghost predicate Valid() {
      && nodes.Keys == rank.Keys
      && (forall id {:trigger nodes[id]} :: id in nodes && nodes[id].parent.Some? ==>
            nodes[id].parent.value in nodes && rank[nodes[id].parent.value] < rank[id])
      && (forall id, nm :: id in nodes && nodes[id].children.Items? && nm in nodes[id].children.items ==>
            nodes[id].children.items[nm] in nodes)
    }
  }

  /** `resource.__name__ or ''`: an absent or empty name reads as the empty string. */
  function NameOf(tree: Tree, id: Id): string
    requires id in tree.nodes
  {
    match tree.nodes[id].name
    case None => ""
    case Some(s) => s
  }

  /**
   * `lineage(resource)`: the resource, its parent, its grandparent and so on, ending
   * with the first resource whose `__parent__` is `None`.
   */
  function Lineage(tree: Tree, id: Id): (r: seq<Id>)
    requires tree.Valid() && id in tree.nodes
    ensures |r| >= 1 && r[0] == id
    ensures forall k :: 0 <= k < |r| ==> r[k] in tree.nodes
    ensures tree.nodes[r[|r| - 1]].parent.None?
    decreases tree.rank[id]
  {
    match tree.nodes[id].parent
    case None => [id]
    case Some(p) => [id] + Lineage(tree, p)
  }

  /** The root of the tree `id` belongs to: the last resource of its lineage. */
  function Root(tree: Tree, id: Id): (r: Id)
    requires tree.Valid() && id in tree.nodes
    ensures r in tree.nodes && tree.nodes[r].parent.None?
  {
    Lineage(tree, id)[|Lineage(tree, id)| - 1]
  }

  /** A resource's lineage continues with the lineage of each of its ancestors. */
  lemma {:induction false} LineageSuffix(tree: Tree, id: Id, k: nat)
    requires tree.Valid() && id in tree.nodes && k < |Lineage(tree, id)|
    ensures Lineage(tree, Lineage(tree, id)[k]) == Lineage(tree, id)[k..]
    decreases k
  {
    if k > 0 {
      var p := tree.nodes[id].parent.value;
      LineageSuffix(tree, p, k - 1);
    }
  }

  /** Each resource of a lineage but the last has the next one as its `__parent__`. */
  lemma LineageLink(tree: Tree, id: Id, k: nat)
    requires tree.Valid() && id in tree.nodes && k < |Lineage(tree, id)| - 1
    ensures tree.nodes[Lineage(tree, id)[k]].parent == Some(Lineage(tree, id)[k + 1])
  {
    var all := Lineage(tree, id);
    LineageSuffix(tree, id, k);
    assert |Lineage(tree, all[k])| >= 2;
    var p := tree.nodes[all[k]].parent.value;
    assert Lineage(tree, all[k]) == [all[k]] + Lineage(tree, p);
    assert all[k + 1] == Lineage(tree, all[k])[1] == Lineage(tree, p)[0];
  }

  /** The root is the one resource of a lineage whose `__parent__` is `None`. */
  lemma RootIsOnlyParentless(tree: Tree, id: Id, k: nat)
    requires tree.Valid() && id in tree.nodes
    requires k < |Lineage(tree, id)| && tree.nodes[Lineage(tree, id)[k]].parent.None?
    ensures Lineage(tree, id)[k] == Root(tree, id)
  {
    var all := Lineage(tree, id);
    if k < |all| - 1 {
      LineageLink(tree, id, k);
    }
    assert k == |all| - 1;
  }

  /** All resources of one lineage share its root. */
  lemma {:induction false} AncestorRoot(tree: Tree, id: Id, k: nat)
    requires tree.Valid() && id in tree.nodes && k < |Lineage(tree, id)|
    ensures Root(tree, Lineage(tree, id)[k]) == Root(tree, id)
    decreases k
  {
    if k > 0 {
      var p := tree.nodes[id].parent.value;
      assert Lineage(tree, id) == [id] + Lineage(tree, p);
      AncestorRoot(tree, p, k - 1);
    }
  }

  /**
   * `find_root`: walks the lineage and stops at the first resource whose `__parent__`
   * is `None`.
   */
  method FindRoot(tree: Tree, resource: Id) returns (r: Id)
    requires tree.Valid() && resource in tree.nodes
    ensures r in Lineage(tree, resource) && tree.nodes[r].parent.None?
    ensures r == Root(tree, resource)
  {
    ghost var all := Lineage(tree, resource);
    r := resource;
    var location := resource;
    ghost var k := 0;
    while true
      invariant 0 <= k < |all| && location == all[k]
      decreases |all| - k
    {
      if tree.nodes[location].parent.None? {
        RootIsOnlyParentless(tree, resource, k);
        r := location;
        break;
      }
      assert k < |all| - 1;
      LineageLink(tree, resource, k);
      location := tree.nodes[location].parent.value;
      k := k + 1;
    }
  }

  /**
   * `find_interface`: the first resource of the lineage that passes `test` (the
   * `isinstance` or `providedBy` test), or `None` when no resource of the lineage does.
   */
  method FindInterface(tree: Tree, resource: Id, test: Id -> bool) returns (r: Option<Id>)
    requires tree.Valid() && resource in tree.nodes
    ensures r.None? <==> forall k :: 0 <= k < |Lineage(tree, resource)| ==> !test(Lineage(tree, resource)[k])
    ensures r.Some? ==> exists k :: 0 <= k < |Lineage(tree, resource)| && Lineage(tree, resource)[k] == r.value
                          && test(r.value)
                          && forall j :: 0 <= j < k ==> !test(Lineage(tree, resource)[j])
  {
    ghost var all := Lineage(tree, resource);
    var location: Option<Id> := Some(resource);
    ghost var k := 0;
    while location.Some?
      invariant 0 <= k <= |all|
      invariant location.Some? ==> k < |all| && location.value in tree.nodes && Lineage(tree, location.value) == all[k..]
      invariant location.None? ==> k == |all|
      invariant forall j :: 0 <= j < k ==> !test(all[j])
      decreases |all| - k
    {
      var here := location.value;
      if test(here) {
        return Some(here);
      }
      location := tree.nodes[here].parent;
      if location.Some? {
        LineageSuffix(tree, resource, k + 1);
      }
      k := k + 1;
    }
    return None;
  }

  /**
   * The names along the lineage in root-first order, an empty or absent name
   * becoming `''`: the leading part of `_resource_path_list`.
   */
  function PathNames(tree: Tree, id: Id): (r: seq<string>)
    requires tree.Valid() && id in tree.nodes
    ensures |r| == |Lineage(tree, id)|
    ensures r[0] == NameOf(tree, Root(tree, id))
    ensures r[|r| - 1] == NameOf(tree, id)
    decreases tree.rank[id]
  {
    match tree.nodes[id].parent
    case None => [NameOf(tree, id)]
    case Some(p) => PathNames(tree, p) + [NameOf(tree, id)]
  }

  /** `s` in reverse order. */
  function Reversed<T>(s: seq<T>): (r: seq<T>)
    ensures |r| == |s|
    ensures forall k :: 0 <= k < |s| ==> r[k] == s[|s| - 1 - k]
  {
    if |s| == 0 then [] else [s[|s| - 1]] + Reversed(s[..|s| - 1])
  }

  /**
   * `_resource_path_list`: collects the names along the lineage (leaf first), reverses
   * them to root-first order and appends `elements`.
   */
  method ResourcePathList(tree: Tree, resource: Id, elements: seq<string>) returns (path: seq<string>)
    requires tree.Valid() && resource in tree.nodes
    ensures path == PathNames(tree, resource) + elements
    ensures |path| == |Lineage(tree, resource)| + |elements|
    ensures path[0] == NameOf(tree, Root(tree, resource))
  {
    var names: seq<string> := [];
    var location: Option<Id> := Some(resource);
    while location.Some?
      invariant location.Some? ==> location.value in tree.nodes
                                   && PathNames(tree, resource) == PathNames(tree, location.value) + Reversed(names)
      invariant location.None? ==> PathNames(tree, resource) == Reversed(names)
      decreases if location.Some? then tree.rank[location.value] + 1 else 0
    {
      var here := location.value;
      ReversedSnoc(names, NameOf(tree, here));
      names := names + [NameOf(tree, here)];
      location := tree.nodes[here].parent;
    }
    path := Reversed(names) + elements;
  }

  /** Reversing a sequence with one more element at its end puts that element first. */
  lemma ReversedSnoc<T>(s: seq<T>, x: T)
    ensures Reversed(s + [x]) == [x] + Reversed(s)
  {
    assert (s + [x])[..|s|] == s;
  }

  /**
   * `resource_path_tuple`: the root-first names of the lineage followed by `elements`;
   * its first element is the root's name, so it is `''` for a root named `None` or `''`.
   */
  function ResourcePathTuple(tree: Tree, resource: Id, elements: seq<string>): (r: seq<string>)
    requires tree.Valid() && resource in tree.nodes
    ensures |r| == |Lineage(tree, resource)| + |elements|
    ensures r[0] == NameOf(tree, Root(tree, resource))
    ensures r[|Lineage(tree, resource)|..] == elements
  {
    PathNames(tree, resource) + elements
  }

  /** The path names of an ancestor are a prefix of the path names of its descendant. */
  lemma {:induction false} AncestorPathNames(tree: Tree, id: Id, k: nat)
    requires tree.Valid() && id in tree.nodes && k < |Lineage(tree, id)|
    ensures PathNames(tree, Lineage(tree, id)[k]) == PathNames(tree, id)[..|Lineage(tree, id)| - k]
    decreases k
  {
    var all := Lineage(tree, id);
    var names := PathNames(tree, id);
    if k == 0 {
      TakeAll(names);
    } else {
      var p := tree.nodes[id].parent.value;
      AncestorPathNames(tree, p, k - 1);
      var up := Lineage(tree, p);
      ConsIndex(id, up, k);
      TakeOfSnoc(PathNames(tree, p), NameOf(tree, id), |up| - (k - 1));
    }
  }

  lemma ConsIndex<T>(x: T, s: seq<T>, k: nat)
    requires 1 <= k <= |s|
    ensures ([x] + s)[k] == s[k - 1]
  {
  }

  lemma TakeAll<T>(s: seq<T>)
    ensures s[..|s|] == s
  {
  }

  lemma TakeDrop<T>(s: seq<T>, n: nat)
    requires n <= |s|
    ensures s == s[..n] + s[n..]
  {
  }

  lemma TakeOfSnoc<T>(s: seq<T>, x: T, n: nat)
    requires n <= |s|
    ensures (s + [x])[..n] == s[..n]
  {
  }

}
