# Pyramid resource-tree traversal, modelled in Dafny

This project models the traversal engine of Pyramid's `src/pyramid/traversal.py`
and proves what the engine promises about it. In scope:

- how a decoded path string becomes clean segments (`split_path_info`);
- how a resource's `__parent__` chain is walked (`find_root`, `find_interface`,
  `_resource_path_list`, `resource_path_tuple`);
- how a path tuple is joined into a quoted path string (`_join_path_tuple`, `resource_path`),
  with the `_segment_cache` of `quote_path_segment`;
- the state machine of `ResourceTreeTraverser.__call__`;
- resolving a path to a resource (`traverse`, `find_resource`);
- the physical and virtual paths of `ResourceURL.__init__`, and the suffix slicing by which
  `virtual_root` finds the virtual root.

The resource tree is a finite map from identities to records. Each record holds a
`__name__` (optional string), a `__parent__` (optional identity), and either no
`__getitem__` at all or a finite name-to-child map. A rank map that strictly decreases
from child to parent makes every lineage finite.

Percent-encoding (`url_quote` from `pyramid.encode`, applied after `native_`) and the
request's decoding of a path (`ascii_native_` from `pyramid.compat`, then WebOb's
`Request.blank(path).path_info`) are defined outside `traversal.py`. They are parameters
of the model: the two function values of a `Codec`. The documented inverse property of
`find_resource` rests on four assumptions about them, joined in the `Lawful` predicate
that the lemmas needing them require:

1. the empty segment quotes to the empty string;
2. a non-empty segment never quotes to the empty string;
3. no quoted segment holds a '/';
4. decoding the '/'-joined quoted segments of an absolute, slash-free tuple (the empty
   tuple, or one whose first element is `''`) gives back the '/'-joined segments.

Files, one module each:

| file | module | models |
|---|---|---|
| `wrappers.dfy` | `Wrappers` | `Option` |
| `path_text.dfy` | `PathText` | Python's `split`, `'/'.join`, `strip`, slicing; `split_path_info` |
| `resources.dfy` | `Resources` | the tree, `lineage`, `find_root`, `find_interface`, `_resource_path_list`, `resource_path_tuple` |
| `quoting.dfy` | `Quoting` | the codec, `_join_path_tuple`, `quote_path_segment` and its cache |
| `traversal.dfy` | `Traversal` | `ResourceTreeTraverser.__call__` |
| `locate.dfy` | `Locate` | `resource_path`, `traverse`, `find_resource` and their round trip |
| `virtual_hosting.dfy` | `VirtualHosting` | `ResourceURL.__init__` and `virtual_root` |

Imperative parts of the source are methods (with loop invariants where the source loops),
proved against a specification function:

- the loops of `split_path_info`, `find_root`, `find_interface`, `_resource_path_list` and
  `__call__` (its set-up before the loop has no loop and is the function `Traversal.PlanOf`);
- the cache update of `quote_path_segment`;
- the field assignments of `ResourceURL.__init__`.

Some behaviour of `traversal.py` the model keeps as written:

- After an early stop at index `i`, `traversed` is `vpath_tuple[:vroot_idx + i + 1]`. Under
  a virtual root with `m` segments that is the first `m + i` segments (fewer only at the end
  of the tuple), although the walk has looked up only `i` of them.
- The virtual root stays the root in three cases: when there is no `HTTP_X_VHM_ROOT`
  value, when the walk stops at or before index `vroot_idx`, and when the value has no
  segments.
- `ResourceURL` tests the virtual-root value as a textual prefix of the physical path,
  character by character, so `/fo` is a prefix of `/foo/`. It drops
  `len(vroot_path.split('/'))` elements of the physical tuple; that count includes the
  leading `''`.
- Whether the path is a string or a tuple, `traverse` decides whether it is absolute by
  its joined string.
- The round trip between `resource_path` and `find_resource` does not hold for a name that
  contains '/'. The path is decoded as a whole before it is split, so the quoted slash
  splits the name in two. The round-trip lemmas therefore require addressable resources
  (see `Locate.Addressable`).
- When nothing is recovered, `virtual_root` returns `request.root`, or `find_root(resource)`
  when the request has none. The model always uses `find_root` (see "Left out").

## Model

| member | source | states |
|---|---|---|
| PathText.Split | src/pyramid/traversal.py:537 | Python's `s.split('/')`: at least one piece, and no piece holds a '/' |
| PathText.SplitPathInfo | src/pyramid/traversal.py:531-545 | the loop returns `PathSegments(path)`: the pieces of the stripped path, empty and `.` pieces skipped, each `..` dropping the last kept segment (or nothing); every returned segment is non-empty, not `.` or `..`, and holds no '/' |
| PathText.CleanSnoc | src/pyramid/traversal.py:537-544 | one pass of the loop is one `Step` on the segments kept so far |
| PathText.PathSegmentsClean | src/pyramid/traversal.py:535-545 | no result of `split_path_info` contains `''`, `.`, `..` or a '/' |
| PathText.PathSegmentsIdempotent | src/pyramid/traversal.py:531-545 | joining the segments with '/' and splitting again gives the same segments |
| PathText.PathSegmentsOfJoin | src/pyramid/traversal.py:531-545 | '/'-joined clean, slash-free segments, with or without a leading '/', split back into exactly those segments |
| PathText.PathSegmentsConcat | src/pyramid/traversal.py:650-652 | the segments of `x + '/' + y`, when no piece of `y` is `..`, are the segments of `x` followed by those of `y` (the virtual-root value put before the path) |
| PathText.TrailingParentDropped | src/pyramid/traversal.py:540-542 | for clean slash-free `a`, `b`, `c`, the path `/a/b/c/..` gives `(a, b)` |
| PathText.EmptySegmentsDropped | src/pyramid/traversal.py:538-539 | for clean slash-free `a`, `b`, `c`, the path `/a//b//c/` gives `(a, b, c)` |
| PathText.SplitPathInfoExamples | src/pyramid/traversal.py:496-502 | `/foo//bar//baz/` gives `('foo', 'bar', 'baz')` and `/foo/bar/baz/..` gives `('foo', 'bar')` |
| PathText.StripTrailing | src/pyramid/traversal.py:752 | `rstrip('/')` leaves a prefix that does not end with '/', and every removed character is '/' |
| PathText.StripLeading | src/pyramid/traversal.py:535 | `lstrip('/')` leaves a suffix that does not start with '/', and every removed character is '/' |
| PathText.SliceTo | src/pyramid/traversal.py:680 | Python's `s[:k]`: a prefix of `s` of length `k` for `0 <= k <= len(s)`, of length `len(s) + k` for `-len(s) <= k < 0`, all of `s` for larger `k` and empty for smaller |
| PathText.SliceFrom | src/pyramid/traversal.py:756 | Python's `s[k:]`: the suffix from `k`, empty once `k` is past the end |
| Resources.Lineage | src/pyramid/traversal.py:37-40 | the lineage starts with the resource, stays in the tree and ends with a resource whose `__parent__` is `None` |
| Resources.FindRoot | src/pyramid/traversal.py:31-41 | the loop returns the resource of the lineage whose `__parent__` is `None`, which is the lineage's last resource |
| Resources.Root | src/pyramid/traversal.py:31-41 | the root of a resource's tree is a resource of the tree whose `__parent__` is `None` |
| Resources.RootIsOnlyParentless | src/pyramid/traversal.py:37-40 | no other resource of a lineage has `__parent__` `None`, so the first one found is the root |
| Resources.AncestorRoot | src/pyramid/traversal.py:31-41 | every resource of a lineage has the same root |
| Resources.FindInterface | src/pyramid/traversal.py:106-122 | `None` exactly when no resource of the lineage passes the test; otherwise the first resource of the lineage that passes it |
| Resources.PathNames | src/pyramid/traversal.py:380-381 | one name per lineage resource, root first: it starts with the root's name and ends with the resource's own, an absent or empty `__name__` read as `''` |
| Resources.ResourcePathList | src/pyramid/traversal.py:377-383 | the loop, `reverse()` and `extend()` produce the root-first names followed by `elements`, of length `len(lineage) + len(elements)`, starting with the root's name |
| Resources.ResourcePathTuple | src/pyramid/traversal.py:333-371 | the tuple has one element per lineage resource followed by `elements`; its first element is the root's name, so `''` for a root named `None` or `''` |
| Resources.AncestorPathNames | src/pyramid/traversal.py:377-383 | the names of an ancestor are a prefix of the names of its descendant |
| Quoting.QuoteAll | src/pyramid/traversal.py:769 | one quoted segment per segment, in order |
| Quoting.JoinPathTuple | src/pyramid/traversal.py:767-769 | the joined path is never empty |
| Quoting.JoinPathTupleOfRoot | src/pyramid/traversal.py:767-769 | `()` and `('',)` both join to `'/'` |
| Quoting.JoinPathTupleAbsolute | src/pyramid/traversal.py:767-769 | a tuple `('', a, ...)` joins to `'/'` followed by the joined quoted `a, ...`, so it starts with '/' |
| Quoting.DecodeJoinedAbsolute | src/pyramid/traversal.py:53-56 | decoding the joined path of a slash-free tuple `('', a, b, ...)` gives `/a/b/...` |
| Quoting.SegmentCache.constructor | src/pyramid/traversal.py:548 | the module-level cache starts empty, so every stored value is the quoting of its key |
| Quoting.SegmentCache.QuotePathSegment | src/pyramid/traversal.py:548-594 | the result is always the quoting of the segment, cached or not; the cache afterwards maps `(segment, safe)` to it and still maps every key to its quoting |
| Traversal.ResourceTreeTraverser.constructor | src/pyramid/traversal.py:610-611 | the traverser keeps the root it is given |
| Traversal.RequestPath | src/pyramid/traversal.py:617-641 | the path `__call__` traverses (the matchdict's truthy `traverse`, a star argument joined after '/', else `/`; without a matchdict `path_info`, or `/` when empty) is never empty |
| Traversal.PlanOf | src/pyramid/traversal.py:647-673 | the segments walked are those of the virtual-root value followed by the path (`()` for `/`); every one is non-empty, not `.` or `..` and holds no '/', and `vroot_idx` is at least -1 |
| Traversal.Lookup | src/pyramid/traversal.py:685-709 | a child `ob[segment]` finds is a resource of the tree, so the walk never leaves the tree |
| Traversal.Resolve | src/pyramid/traversal.py:613-723 | the record's context is a resource of the tree and its `root` is the traverser's root |
| Traversal.ResourceTreeTraverser.WalkSegments | src/pyramid/traversal.py:672-723 | the loop with its three early returns computes `Walk` from index 0 at the root |
| Traversal.ResourceTreeTraverser.Call | src/pyramid/traversal.py:613-723 | `__call__` (the set-up of `PlanOf`, then the loop) returns `Resolve(root, request)` |
| Traversal.Walk | src/pyramid/traversal.py:672-723 | the context is a resource of the tree and `root` is the traverser's root |
| Traversal.WalkFrom | src/pyramid/traversal.py:672-713 | from any index before the stopping index, the walk ends at the stopping index with the record `ResolveStopsAt` describes |
| Traversal.ResolveStopsAt | src/pyramid/traversal.py:672-723 | at the first segment that cannot be consumed, with no backtracking: the context is the resource the consumed segments lead to; `view_name` is the segment less `@@` for a view selector, else the segment; `subpath` is the segments after it; `traversed` is the first `vroot_idx + k + 1` segments. When all are consumed, `view_name` is `''`, `subpath` is the request's and `traversed` is all segments. `virtual_root` is the resource at index `vroot_idx` if the walk got past it, else the root; `virtual_root_path` is the value's segments |
| Traversal.StopIndexExists | src/pyramid/traversal.py:672-713 | every walk has a stopping index |
| Traversal.TraversedWithoutHeader | src/pyramid/traversal.py:680 | without an `HTTP_X_VHM_ROOT` value, `traversed` after an early stop is exactly the consumed segments |
| Traversal.SlashResolvesToRoot | src/pyramid/traversal.py:663-666 | a request for `/` or an empty `path_info`, without a route or a virtual root, gives the root with everything else empty |
| Traversal.HeaderPlan | src/pyramid/traversal.py:647-654 | with a value `v` and a path `/q` without `..` pieces, the segments are those of `v` then `q`, and `vroot_idx` is the index of `v`'s last segment |
| Traversal.VirtualRootFromHeader | src/pyramid/traversal.py:710-711 | when the value's segments lead from the root to a resource, none a view selector, that resource is the virtual root and the value's segments are `virtual_root_path` |
| Traversal.PlanOfJoinedPath | src/pyramid/traversal.py:636-638 | a request for `/a/b/...` without route or virtual root walks exactly `a`, `b`, ... |
| Traversal.ResolveJoinedPath | src/pyramid/traversal.py:672-723 | clean segments that can all be looked up lead to the context they reach, with `view_name` `''` and all segments traversed |
| Locate.ResourcePath | src/pyramid/traversal.py:125-168 | `resource_path` is never empty |
| Locate.ResourcePathIsAbsolute | src/pyramid/traversal.py:158-163 | the path of a resource whose root is named `None` or `''` starts with '/' |
| Locate.TupleWithLeadingEmptyIsAbsolute | src/pyramid/traversal.py:293-301 | a tuple path whose first element is `''` is joined into a string starting with '/', so it is absolute |
| Locate.Traverse | src/pyramid/traversal.py:293-330 | no record exactly when the path does not decode; the traversal starts at `find_root(resource)` exactly when the path starts with '/', otherwise at `resource` |
| Locate.FindResource | src/pyramid/traversal.py:93-100 | a decoding failure exactly when traversing fails; otherwise KeyError (`NoSubelement`, with the context and the view name) exactly when a non-empty `view_name` is left over, and the context (a resource of the tree) when none is |
| Locate.FindResourceOfEmptyPath | src/pyramid/traversal.py:298-301 | the empty string and the empty tuple both find the resource itself |
| Locate.FollowPathNames | src/pyramid/traversal.py:380-382 | the names of an addressable resource are `''` then clean, slash-free, non-`@@` names the walk consumes from the root down to the resource |
| Locate.TraverseToAddressable | src/pyramid/traversal.py:174-330 | traversing the joined path tuple of an addressable resource from any resource of its tree ends at that resource with no view name |
| Locate.FindResourceOfResourcePath | src/pyramid/traversal.py:53-56 | `find_resource(r, resource_path(t)) == t` for every addressable `t` in `r`'s tree |
| Locate.FindResourceOfResourcePathTuple | src/pyramid/traversal.py:346-348 | `find_resource(r, resource_path_tuple(t)) == t` for every addressable `t` in `r`'s tree |
| VirtualHosting.ResourceURL.constructor | src/pyramid/traversal.py:735-764 | the four fields are the paths `UrlPathsOf` gives |
| VirtualHosting.PhysicalPathsOfTuple | src/pyramid/traversal.py:736-744 | the physical path ends with '/'; for a tuple other than `('',)` it is the joined path with '/' added and its tuple gains `''`; without a value the virtual paths are the physical ones |
| VirtualHosting.PhysicalPaths | src/pyramid/traversal.py:736-744 | `PhysicalPathsOfTuple` for a resource's path tuple, the joined path being `resource_path(resource)` |
| VirtualHosting.VirtualPathsOfTuple | src/pyramid/traversal.py:751-757 | when the value with its trailing slashes stripped is non-empty and a prefix of the physical path, the physical path is that prefix followed by the virtual path, and the virtual tuple is `''` followed by the physical tuple less `len(value.split('/'))` elements; otherwise the virtual paths are the physical ones; the virtual path ends with '/' |
| VirtualHosting.VirtualPaths | src/pyramid/traversal.py:751-757 | `VirtualPathsOfTuple` for a resource's path tuple |
| VirtualHosting.VirtualRootPath | src/pyramid/traversal.py:423-425 | a path is recovered exactly when the physical path differs from the virtual path and ends with it; for a non-empty virtual path it is the non-empty physical path less the virtual path at its end |
| VirtualHosting.VirtualRoot | src/pyramid/traversal.py:389-431 | a found virtual root is a resource of the tree |
| VirtualHosting.VirtualRootWithoutHeader | src/pyramid/traversal.py:428-431 | without an `HTTP_X_VHM_ROOT` value the virtual root is the physical root |
| VirtualHosting.VirtualRootPathRecoversPrefix | src/pyramid/traversal.py:423-425 | when `ResourceURL` strips a prefix, the slicing in `virtual_root` gives that prefix back |
| VirtualHosting.PhysicalOfAppend | src/pyramid/traversal.py:736-741 | the physical path of `pa + below` is the joined `pa` followed by the quoted `below` between slashes |
| VirtualHosting.VirtualOfAppend | src/pyramid/traversal.py:751-757 | with the joined `pa` as value, the virtual tuple is `''`, `below` and `''`, and the virtual path is the '/'-join of that tuple quoted |
| VirtualHosting.PathNamesBelow | src/pyramid/traversal.py:380-382 | a resource's names are an ancestor's names followed by the names below that ancestor |
| VirtualHosting.VirtualPathsOfAncestor | src/pyramid/traversal.py:751-757 | with the path of an ancestor with a non-empty name as value, the prefix is stripped, leaving `''`, the names below the ancestor and `''` as virtual tuple, and their quoted join as virtual path |
| VirtualHosting.VirtualRootOfAncestor | src/pyramid/traversal.py:389-431 | with the path of an addressable ancestor with a non-empty name as value, `virtual_root` returns that ancestor |

Members without a contract of their own, each standing for the source lines given:
`PathText.JoinSlash` (`'/'.join`, 624 and 769), `PathText.StripSlashes` (`strip('/')`,
535), `PathText.StartsWith` (753), `PathText.EndsWith` (424), `PathText.Step` (one pass
of the loop, 538-544), `PathText.Clean` (the loop, 536-544), `PathText.PathSegments`
(`split_path_info`, 531-545), `Resources.NameOf` (`__name__ or ''`, 380), `Quoting.Quote`
(`quote_path_segment(x)` with the default safe characters, 769),
`Traversal.IsViewSelector` (675), `Traversal.EarlyExit` (the three early returns,
676-708), `Traversal.RequestSubpath` (626-635), `Locate.PathStringOf` (293-301),
`Locate.IsAbsolute` (313), `VirtualHosting.PathsOfTuple` (736-757) and
`VirtualHosting.UrlPathsOf` (`ResourceURL.__init__`, 735-764). Their properties are the
contracts of the rows above that name them.

## Left out

- Registry and adapter lookup (`get_current_registry`, `queryUtility(IRequestFactory)`,
  `queryAdapter(ITraverser)`, `queryMultiAdapter(IResourceURL)`). The model always uses the
  default `ResourceTreeTraverser` and `ResourceURL`.
- Request construction and the WSGI environment. A request is its matchdict, its decoded
  `path_info` and its decoded `HTTP_X_VHM_ROOT` value. A missing `PATH_INFO` behaves like an
  empty one, so it needs no separate case. `decode_path_info` of the virtual-root value is
  not modelled: the value arrives decoded.
- `UnicodeDecodeError` and the `URLDecodeError` built from it. A failed decoding is `None`
  from `Codec.decode`, and `find_resource` reports it as `Undecodable`.
- The bodies of `url_quote`, `native_`, `ascii_native_` and `decode_path_info`, which are
  defined outside `traversal.py`. Quoting and decoding are the `Codec`'s functions.
  `lineage` (from `pyramid.location`) is modelled as the finite `__parent__` chain,
  `Resources.Lineage`.
- `request.root` in `virtual_root`: the model takes the `find_root` branch.
- `lru_cache` on `split_path_info` and `_join_path_tuple`: it does not change results.
- `Quoting.SegmentCache.QuotePathSegment`: no thread-safety reasoning, and no `str()`
  coercion of non-string segments (every segment is a string here).
- zope interfaces (`IInterface.providedBy`, `@implementer`). `find_interface` takes its
  test as a function parameter.
- `DefaultRootFactory`, the `find_model`/`model_path`/`ModelGraphTraverser` aliases,
  `traversal_path` and `traversal_path_info`: they hold no traversal logic of their own.
- Names and `__getitem__` calls that are arbitrary Python objects and code. A name is a
  string or `None`, and `__getitem__` is a finite map. Exceptions other than KeyError from
  a lookup are not modelled.
- `Traversal.ResourceTreeTraverser.Call`: `__call__` is one method in the source. In the
  model its set-up is the function `PlanOf` and its loop the method `WalkSegments`, which
  keeps each proof small.
- `VirtualHosting.VirtualRoot`: its own contract states only that a found root is in the
  tree. What `virtual_root` returns is stated by `VirtualRootWithoutHeader` and
  `VirtualRootOfAncestor`.
