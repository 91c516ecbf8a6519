/**
 * Text-level path handling of the traversal engine: Python's `str.split('/')`,
 * `'/'.join(...)`, `str.strip('/')` and `str.rstrip('/')`, slicing with Python's
 * clamping rules, and `split_path_info`, which turns an already-decoded path into
 * a tuple of clean segments, dropping empty and `.` segments and letting `..`
 * remove the last segment kept so far.
 */
module PathText {

  /** The pieces of `s` between '/' characters, as Python's `s.split('/')` returns them. */
  function Split(s: string): (r: seq<string>)
    ensures |r| >= 1
    ensures forall k :: 0 <= k < |r| ==> '/' !in r[k]
  {
    if |s| == 0 then [""]
    else
      var rest := Split(s[1..]);
      if s[0] == '/' then [""] + rest
      else [[s[0]] + rest[0]] + rest[1..]
  }

  /** Python's `'/'.join(parts)`. */
  function JoinSlash(parts: seq<string>): string
  {
    if |parts| == 0 then ""
    else if |parts| == 1 then parts[0]
    else parts[0] + "/" + JoinSlash(parts[1..])
  }

  lemma JoinSlashCons(x: string, t: seq<string>)
    requires |t| >= 1
    ensures JoinSlash([x] + t) == x + "/" + JoinSlash(t)
  {
    assert ([x] + t)[1..] == t;
  }

  /** Joining the pieces of a split gives the string back: `Split` and `JoinSlash` are inverse. */
  lemma {:induction false} JoinSplit(s: string)
    ensures JoinSlash(Split(s)) == s
  {
    if |s| > 0 {
      JoinSplit(s[1..]);
      var rest := Split(s[1..]);
      if s[0] == '/' {
        JoinSlashCons("", rest);
        assert s == "/" + s[1..];
      } else {
        var x := rest[0];
        if |rest| == 1 {
          assert s == [s[0]] + s[1..];
        } else {
          JoinSlashCons([s[0]] + x, rest[1..]);
          JoinSlashCons(x, rest[1..]);
          assert rest == [x] + rest[1..];
          assert s == [s[0]] + s[1..];
        }
      }
    }
  }

  /** Joining two non-empty runs of pieces puts one '/' between their joins. */
  lemma {:induction false} JoinSlashAppend(x: seq<string>, y: seq<string>)
    requires |x| >= 1 && |y| >= 1
    ensures JoinSlash(x + y) == JoinSlash(x) + "/" + JoinSlash(y)
  {
    if |x| == 1 {
      JoinSlashCons(x[0], y);
      assert x == [x[0]];
    } else {
      JoinSlashAppend(x[1..], y);
      assert x + y == [x[0]] + (x[1..] + y);
      JoinSlashCons(x[0], x[1..] + y);
      JoinSlashCons(x[0], x[1..]);
      assert x == [x[0]] + x[1..];
    }
  }

  /** A join ends with its last piece. */
  lemma {:induction false} JoinSlashLast(parts: seq<string>)
    requires |parts| >= 1
    ensures EndsWith(JoinSlash(parts), parts[|parts| - 1])
  {
    if |parts| > 1 {
      JoinSlashLast(parts[1..]);
    }
  }

  /** A leading run of characters other than '/' glues onto the first piece. */
  lemma {:induction false} SplitGlue(a: string, t: string)
    requires '/' !in a
    ensures Split(a + t) == [a + Split(t)[0]] + Split(t)[1..]
  {
    var st := Split(t);
    if |a| == 0 {
      assert a + t == t;
      assert a + st[0] == st[0];
      assert [st[0]] + st[1..] == st;
    } else {
      var u := a + t;
      SplitGlue(a[1..], t);
      assert u[1..] == a[1..] + t;
      assert u[0] == a[0] && a[0] != '/';
      var rest := Split(u[1..]);
      assert Split(u) == [[a[0]] + rest[0]] + rest[1..];
      assert rest == [a[1..] + st[0]] + st[1..];
      assert [a[0]] + (a[1..] + st[0]) == a + st[0];
    }
  }

  lemma SplitSlashFirst(t: string)
    ensures Split("/" + t) == [""] + Split(t)
  {
    assert ("/" + t)[1..] == t;
  }

  /** Splitting a join of slash-free pieces gives the pieces back. */
  lemma {:induction false} SplitJoin(parts: seq<string>)
    requires |parts| >= 1
    requires forall k :: 0 <= k < |parts| ==> '/' !in parts[k]
    ensures Split(JoinSlash(parts)) == parts
  {
    var a := parts[0];
    if |parts| == 1 {
      SplitGlue(a, "");
      assert a + "" == a;
    } else {
      var tail := JoinSlash(parts[1..]);
      SplitJoin(parts[1..]);
      SplitSlashFirst(tail);
      SplitGlue(a, "/" + tail);
      assert JoinSlash(parts) == a + ("/" + tail);
      assert Split("/" + tail)[0] == "" && Split("/" + tail)[1..] == parts[1..];
      assert a + "" == a;
      assert parts == [a] + parts[1..];
    }
  }

  /** The first and last characters of a join come from its first and last pieces. */
  lemma {:induction false} JoinSlashEnds(parts: seq<string>)
    requires |parts| >= 1
    requires forall k :: 0 <= k < |parts| ==> parts[k] != ""
    ensures var j := JoinSlash(parts);
      |j| > 0 && j[0] == parts[0][0] && j[|j| - 1] == parts[|parts| - 1][|parts[|parts| - 1]| - 1]
  {
    if |parts| > 1 {
      var rest := parts[1..];
      JoinSlashEnds(rest);
      var j := JoinSlash(parts);
      var jr := JoinSlash(rest);
      assert j == parts[0] + "/" + jr;
      assert j[0] == parts[0][0];
      assert j[|j| - 1] == jr[|jr| - 1];
      assert rest[|rest| - 1] == parts[|parts| - 1];
    }
  }

  /** Python's `s.lstrip('/')`. */
  function StripLeading(s: string): (r: string)
    ensures |r| > 0 ==> r[0] != '/'
    ensures |r| <= |s| && r == s[|s| - |r|..]
    ensures forall k :: 0 <= k < |s| - |r| ==> s[k] == '/'
  {
    if |s| > 0 && s[0] == '/' then StripLeading(s[1..]) else s
  }

  /** Python's `s.rstrip('/')`. */
  function StripTrailing(s: string): (r: string)
    ensures |r| > 0 ==> r[|r| - 1] != '/'
    ensures |r| <= |s| && r == s[..|r|]
    ensures forall k :: |r| <= k < |s| ==> s[k] == '/'
  {
    if |s| > 0 && s[|s| - 1] == '/' then StripTrailing(s[..|s| - 1]) else s
  }

  /** Python's `s.strip('/')`. */
  function StripSlashes(s: string): string
  {
    StripTrailing(StripLeading(s))
  }

  /** Python's `s.startswith(prefix)`. */
  predicate StartsWith(s: string, prefix: string)
  {
    |prefix| <= |s| && s[..|prefix|] == prefix
  }

  /** Python's `s.endswith(suffix)`. */
  predicate EndsWith(s: string, suffix: string)
  {
    |suffix| <= |s| && s[|s| - |suffix|..] == suffix
  }

  /** Python's `s[:k]`, including the clamping and the counting from the end for negative `k`. */
  function SliceTo<T>(s: seq<T>, k: int): (r: seq<T>)
    ensures |r| <= |s| && r == s[..|r|]
    ensures 0 <= k <= |s| ==> |r| == k
    ensures -|s| <= k < 0 ==> |r| == |s| + k
    ensures k >= |s| ==> r == s
    ensures k < -|s| ==> r == []
  {
    if k >= 0 then (if k >= |s| then s else s[..k])
    else if -k >= |s| then []
    else s[..|s| + k]
  }

  /** Python's `s[k:]` for `k >= 0`: empty once `k` is past the end. */
  function SliceFrom<T>(s: seq<T>, k: nat): (r: seq<T>)
    ensures k <= |s| ==> r == s[k..]
    ensures k >= |s| ==> r == []
  {
    if k >= |s| then [] else s[k..]
  }

  /** A segment `split_path_info` keeps: it is neither empty, nor `.`, nor `..`. */
  predicate IsCleanSegment(segment: string)
  {
    segment != "" && segment != "." && segment != ".."
  }

  /** One pass of the loop in `split_path_info`: the segments kept after looking at `segment`. */
  function Step(clean: seq<string>, segment: string): seq<string>
  {
    if segment == "" || segment == "." then clean
    else if segment == ".." then (if |clean| > 0 then clean[..|clean| - 1] else clean)
    else clean + [segment]
  }

  /** The segments kept after the loop has seen all of `pieces`, left to right. */
  function Clean(pieces: seq<string>): seq<string>
  {
    if |pieces| == 0 then [] else Step(Clean(pieces[..|pieces| - 1]), pieces[|pieces| - 1])
  }

  /** What `split_path_info(path)` returns. */
  function PathSegments(path: string): seq<string>
  {
    Clean(Split(StripSlashes(path)))
  }

  /** Every kept segment is clean and is one of the pieces it came from. */
  lemma {:induction false} CleanKeepsCleanPieces(pieces: seq<string>)
    ensures forall k :: 0 <= k < |Clean(pieces)| ==> IsCleanSegment(Clean(pieces)[k]) && Clean(pieces)[k] in pieces
  {
    if |pieces| > 0 {
      var init := pieces[..|pieces| - 1];
      CleanKeepsCleanPieces(init);
      assert forall x :: x in init ==> x in pieces;
    }
  }

  /** The segments of a path are clean and hold no '/'. */
  lemma PathSegmentsClean(path: string)
    ensures forall k :: 0 <= k < |PathSegments(path)| ==>
      IsCleanSegment(PathSegments(path)[k]) && '/' !in PathSegments(path)[k]
  {
    var pieces := Split(StripSlashes(path));
    CleanKeepsCleanPieces(pieces);
    forall k | 0 <= k < |Clean(pieces)|
      ensures '/' !in Clean(pieces)[k]
    {
      var j :| 0 <= j < |pieces| && pieces[j] == Clean(pieces)[k];
    }
  }

  /** The loop of `split_path_info` takes one more piece: one more `Step`. */
  lemma CleanSnoc(pieces: seq<string>, i: nat)
    requires i < |pieces|
    ensures Clean(pieces[..i + 1]) == Step(Clean(pieces[..i]), pieces[i])
  {
    assert pieces[..i + 1][..i] == pieces[..i];
  }

  /** Clean segments pass through unchanged. */
  lemma {:induction false} CleanIdentity(t: seq<string>)
    requires forall k :: 0 <= k < |t| ==> IsCleanSegment(t[k])
    ensures Clean(t) == t
  {
    if |t| > 0 {
      CleanIdentity(t[..|t| - 1]);
      assert t[..|t| - 1] + [t[|t| - 1]] == t;
    }
  }

  /** Segments that are empty, `.` or `..` keep nothing when nothing was kept before them. */
  lemma {:induction false} CleanOfNoise(e: seq<string>)
    requires forall k :: 0 <= k < |e| ==> !IsCleanSegment(e[k])
    ensures Clean(e) == []
  {
    if |e| > 0 {
      CleanOfNoise(e[..|e| - 1]);
    }
  }

  /**
   * Leading empty, `.` and `..` segments change nothing: in particular a `..` that
   * would climb above the start is a no-op, not an error.
   */
  lemma {:induction false} CleanIgnoresLeadingNoise(e: seq<string>, s: seq<string>)
    requires forall k :: 0 <= k < |e| ==> !IsCleanSegment(e[k])
    ensures Clean(e + s) == Clean(s)
  {
    if |s| == 0 {
      CleanOfNoise(e);
      assert e + s == e;
    } else {
      CleanIgnoresLeadingNoise(e, s[..|s| - 1]);
      assert (e + s)[..|e + s| - 1] == e + s[..|s| - 1];
    }
  }

  /** Segments without `..` are cleaned on their own: nothing before them can be removed. */
  lemma {:induction false} CleanAppend(a: seq<string>, b: seq<string>)
    requires ".." !in b
    ensures Clean(a + b) == Clean(a) + Clean(b)
  {
    if |b| == 0 {
      assert a + b == a;
    } else {
      CleanAppend(a, b[..|b| - 1]);
      assert (a + b)[..|a + b| - 1] == a + b[..|b| - 1];
    }
  }

  /** A string without '/' is a single piece. */
  lemma SplitOfSlashFree(a: string)
    requires '/' !in a
    ensures Split(a) == [a]
  {
    SplitGlue(a, "");
    assert a + "" == a;
  }

  /** A run without '/' followed by '/' is the first piece. */
  lemma SplitAfterSlashFree(a: string, z: string)
    requires '/' !in a
    ensures Split(a + "/" + z) == [a] + Split(z)
  {
    SplitGlue(a, "/" + z);
    SplitSlashFirst(z);
    assert a + "/" + z == a + ("/" + z);
    assert a + "" == a;
  }

  /** The index of the first '/' of a string holding one. */
  function FirstSlash(s: string): (i: nat)
    requires '/' in s
    ensures i < |s| && s[i] == '/' && '/' !in s[..i]
  {
    if s[0] == '/' then 0
    else
      var j := FirstSlash(s[1..]);
      assert s[..j + 1] == [s[0]] + s[1..][..j];
      j + 1
  }

  /** A '/' between two strings separates their pieces. */
  lemma {:induction false} SplitConcatSlash(x: string, y: string)
    ensures Split(x + "/" + y) == Split(x) + Split(y)
    decreases |x|
  {
    if '/' !in x {
      SplitAfterSlashFree(x, y);
      SplitOfSlashFree(x);
    } else {
      var i := FirstSlash(x);
      var a := x[..i];
      var x2 := x[i + 1..];
      assert x == a + "/" + x2;
      SplitConcatSlash(x2, y);
      SplitConcatSlashStep(a, x2, y);
    }
  }

  lemma SplitConcatSlashStep(a: string, x2: string, y: string)
    requires '/' !in a
    requires Split(x2 + "/" + y) == Split(x2) + Split(y)
    ensures Split(a + "/" + x2 + "/" + y) == Split(a + "/" + x2) + Split(y)
  {
    var b := x2 + "/" + y;
    SlashRegroup(a, x2, y);
    SplitAfterSlashFree(a, x2);
    SplitAfterSlashFree(a, b);
    ConsAssoc(a, Split(x2), Split(y));
  }

  lemma ConsAssoc<T>(x: T, p: seq<T>, q: seq<T>)
    ensures [x] + (p + q) == [x] + p + q
  {
  }

  lemma SlashRegroup(a: string, x: string, y: string)
    ensures a + "/" + x + "/" + y == a + "/" + (x + "/" + y)
  {
  }

  /** Leading slashes only add empty pieces, which are dropped. */
  lemma {:induction false} CleanSplitStripLeading(s: string)
    ensures Clean(Split(StripLeading(s))) == Clean(Split(s))
    decreases |s|
  {
    if |s| > 0 && s[0] == '/' {
      CleanSplitStripLeading(s[1..]);
      assert StripLeading(s) == StripLeading(s[1..]);
      assert Split(s) == [""] + Split(s[1..]);
      CleanIgnoresLeadingNoise([""], Split(s[1..]));
    }
  }

  /** Trailing slashes only add empty pieces, which are dropped. */
  lemma {:induction false} CleanSplitStripTrailing(s: string)
    ensures Clean(Split(StripTrailing(s))) == Clean(Split(s))
    decreases |s|
  {
    if |s| > 0 && s[|s| - 1] == '/' {
      var init := s[..|s| - 1];
      CleanSplitStripTrailing(init);
      assert s == init + "/" + "";
      SplitConcatSlash(init, "");
      var x := Split(init);
      assert (x + [""])[..|x|] == x;
    }
  }

  /** Stripping the slashes at both ends does not change the segments. */
  lemma PathSegmentsUnstripped(path: string)
    ensures PathSegments(path) == Clean(Split(path))
  {
    CleanSplitStripLeading(path);
    CleanSplitStripTrailing(StripLeading(path));
  }

  /**
   * With a '/' in between and no `..` piece after it, the segments of a concatenation
   * are the segments of the first part followed by those of the second.
   */
  lemma PathSegmentsConcat(x: string, y: string)
    requires ".." !in Split(y)
    ensures PathSegments(x + "/" + y) == PathSegments(x) + PathSegments(y)
  {
    PathSegmentsUnstripped(x + "/" + y);
    PathSegmentsUnstripped(x);
    PathSegmentsUnstripped(y);
    SplitConcatSlash(x, y);
    CleanAppend(Split(x), Split(y));
  }

  /**
   * A path written as '/'-joined clean, slash-free segments, with or without a
   * leading '/', splits back into exactly those segments.
   */
  lemma PathSegmentsOfJoin(t: seq<string>)
    requires forall k :: 0 <= k < |t| ==> IsCleanSegment(t[k]) && '/' !in t[k]
    ensures PathSegments(JoinSlash(t)) == t
    ensures PathSegments("/" + JoinSlash(t)) == t
  {
    PathSegmentsOfBareJoin(t);
    StripSlashesLeadingSlash(JoinSlash(t));
  }

  lemma PathSegmentsOfBareJoin(t: seq<string>)
    requires forall k :: 0 <= k < |t| ==> IsCleanSegment(t[k]) && '/' !in t[k]
    ensures PathSegments(JoinSlash(t)) == t
  {
    StripJoin(t);
    if |t| > 0 {
      SplitJoin(t);
      CleanIdentity(t);
    }
  }

  /** One more leading '/' does not change the stripped path. */
  lemma StripSlashesLeadingSlash(j: string)
    ensures StripSlashes("/" + j) == StripSlashes(j)
  {
    assert ("/" + j)[1..] == j;
    assert StripLeading("/" + j) == StripLeading(j);
  }

  /** A join of clean, slash-free segments has no slash at either end. */
  lemma StripJoin(t: seq<string>)
    requires forall k :: 0 <= k < |t| ==> IsCleanSegment(t[k]) && '/' !in t[k]
    ensures StripLeading(JoinSlash(t)) == JoinSlash(t)
    ensures StripSlashes(JoinSlash(t)) == JoinSlash(t)
  {
    var j := JoinSlash(t);
    if |t| > 0 {
      JoinSlashEnds(t);
      assert t[0][0] in t[0];
      assert t[|t| - 1][|t[|t| - 1]| - 1] in t[|t| - 1];
    }
  }

  /** Splitting is idempotent: re-joining the segments and splitting again changes nothing. */
  lemma PathSegmentsIdempotent(path: string)
    ensures PathSegments(JoinSlash(PathSegments(path))) == PathSegments(path)
  {
    var pieces := Split(StripSlashes(path));
    CleanKeepsCleanPieces(pieces);
    PathSegmentsOfJoin(PathSegments(path));
  }

  /** A trailing `..` removes the segment before it: `/a/b/c/..` gives `(a, b)`. */
  lemma TrailingParentDropped(a: string, b: string, c: string)
    requires IsCleanSegment(a) && IsCleanSegment(b) && IsCleanSegment(c)
    requires '/' !in a && '/' !in b && '/' !in c
    ensures PathSegments("/" + a + "/" + b + "/" + c + "/..") == [a, b]
  {
    var p := "/" + a + "/" + b + "/" + c + "/..";
    TrailingParentSplit(a, b, c);
    PathSegmentsUnstripped(p);
    TrailingParentClean(a, b, c);
  }

  lemma TrailingParentSplit(a: string, b: string, c: string)
    requires '/' !in a && '/' !in b && '/' !in c
    ensures Split("/" + a + "/" + b + "/" + c + "/..") == ["", a, b, c, ".."]
  {
    var z3 := c + "/" + "..";
    var z2 := b + "/" + z3;
    var z1 := a + "/" + z2;
    assert "/" + a + "/" + b + "/" + c + "/.." == "" + "/" + z1;
    SplitAfterSlashFree("", z1);
    SplitAfterSlashFree(a, z2);
    SplitAfterSlashFree(b, z3);
    SplitAfterSlashFree(c, "..");
    SplitOfSlashFree("..");
  }

  lemma TrailingParentClean(a: string, b: string, c: string)
    requires IsCleanSegment(a) && IsCleanSegment(b) && IsCleanSegment(c)
    ensures Clean(["", a, b, c, ".."]) == [a, b]
  {
    var pieces := ["", a, b, c, ".."];
    CleanSnoc(pieces, 0);
    CleanSnoc(pieces, 1);
    CleanSnoc(pieces, 2);
    CleanSnoc(pieces, 3);
    CleanSnoc(pieces, 4);
    assert pieces[..5] == pieces;
  }

  /** Doubled and trailing slashes add nothing: `/a//b//c/` gives `(a, b, c)`. */
  lemma EmptySegmentsDropped(a: string, b: string, c: string)
    requires IsCleanSegment(a) && IsCleanSegment(b) && IsCleanSegment(c)
    requires '/' !in a && '/' !in b && '/' !in c
    ensures PathSegments("/" + a + "//" + b + "//" + c + "/") == [a, b, c]
  {
    var p := "/" + a + "//" + b + "//" + c + "/";
    EmptySegmentsSplit(a, b, c);
    PathSegmentsUnstripped(p);
    EmptySegmentsClean(a, b, c);
  }

  lemma EmptySegmentsSplit(a: string, b: string, c: string)
    requires '/' !in a && '/' !in b && '/' !in c
    ensures Split("/" + a + "//" + b + "//" + c + "/") == ["", a, "", b, "", c, ""]
  {
    var z5 := c + "/" + "";
    var z4 := "" + "/" + z5;
    var z3 := b + "/" + z4;
    var z2 := "" + "/" + z3;
    var z1 := a + "/" + z2;
    assert "/" + a + "//" + b + "//" + c + "/" == "" + "/" + z1;
    SplitAfterSlashFree("", z1);
    SplitAfterSlashFree(a, z2);
    SplitAfterSlashFree("", z3);
    SplitAfterSlashFree(b, z4);
    SplitAfterSlashFree("", z5);
    SplitAfterSlashFree(c, "");
  }

  lemma EmptySegmentsClean(a: string, b: string, c: string)
    requires IsCleanSegment(a) && IsCleanSegment(b) && IsCleanSegment(c)
    ensures Clean(["", a, "", b, "", c, ""]) == [a, b, c]
  {
    var pieces := ["", a, "", b, "", c, ""];
    CleanSnoc(pieces, 0);
    CleanSnoc(pieces, 1);
    CleanSnoc(pieces, 2);
    CleanSnoc(pieces, 3);
    CleanSnoc(pieces, 4);
    CleanSnoc(pieces, 5);
    CleanSnoc(pieces, 6);
    assert pieces[..7] == pieces;
  }

  /** Two of the examples documented with `traversal_path_info`. */
  lemma SplitPathInfoExamples()
    ensures PathSegments("/foo//bar//baz/") == ["foo", "bar", "baz"]
    ensures PathSegments("/foo/bar/baz/..") == ["foo", "bar"]
  {
    assert "/foo//bar//baz/" == "/" + "foo" + "//" + "bar" + "//" + "baz" + "/";
    assert "/foo/bar/baz/.." == "/" + "foo" + "/" + "bar" + "/" + "baz" + "/..";
    EmptySegmentsDropped("foo", "bar", "baz");
    TrailingParentDropped("foo", "bar", "baz");
  }

  /**
   * `split_path_info`: strips the slashes at both ends, splits on '/', and walks the
   * pieces keeping each clean one, skipping empty and `.` pieces, and dropping the
   * last kept segment at each `..` (nothing happens when none is kept).
   */
  method SplitPathInfo(path: string) returns (segments: seq<string>)
    ensures segments == PathSegments(path)
    ensures forall k :: 0 <= k < |segments| ==> IsCleanSegment(segments[k]) && '/' !in segments[k]
  {
    var stripped := StripSlashes(path);
    var pieces := Split(stripped);
    var clean: seq<string> := [];
    for i := 0 to |pieces|
      invariant clean == Clean(pieces[..i])
    {
      var segment := pieces[i];
      if segment == "" || segment == "." {
      } else if segment == ".." {
        if |clean| > 0 {
          clean := clean[..|clean| - 1];
        }
      } else {
        clean := clean + [segment];
      }
      CleanSnoc(pieces, i);
    }
    assert pieces[..|pieces|] == pieces;
    segments := clean;
    PathSegmentsClean(path);
  }

}
