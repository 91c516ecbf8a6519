/**
 * Quoting of path segments and joining of path tuples: `quote_path_segment` with its
 * module-level `_segment_cache`, and `_join_path_tuple`.
 *
 * Percent-encoding and the request's decoding of a path are outside this module's
 * code. They are given as the two functions of a `Codec`, and the one fact the
 * engine relies on about them, that decoding undoes quoting, is the `Lawful`
 * predicate that the lemmas needing it require.
 */
module Quoting {
  import opened Wrappers
  import opened PathText

  /** The characters `quote_path_segment` leaves unescaped by default. */
  const PATH_SEGMENT_SAFE: string := "~!$&'()*+,;=:@"

  /**
   * `quote(segment, safe)` is `url_quote(native_(segment, 'utf-8'), safe)`.
   * `decode(path)` is the `path_info` of a request made by `Request.blank(path)` after
   * `ascii_native_(path)`: the path percent-decoded and then decoded as UTF-8;
   * `None` when one of those steps raises.
   */
  datatype Codec = Codec(quote: (string, string) -> string, decode: string -> Option<string>)

  /** A segment quoted with the default safe characters. */
  function Quote(c: Codec, segment: string): string
  {
    c.quote(segment, PATH_SEGMENT_SAFE)
  }

  /** `[quote_path_segment(x) for x in t]`. */
  function QuoteAll(c: Codec, t: seq<string>): (r: seq<string>)
    ensures |r| == |t|
    ensures forall k :: 0 <= k < |t| ==> r[k] == Quote(c, t[k])
  {
    seq(|t|, k requires 0 <= k < |t| => Quote(c, t[k]))
  }

  lemma QuoteAllAppend(c: Codec, a: seq<string>, b: seq<string>)
    ensures QuoteAll(c, a + b) == QuoteAll(c, a) + QuoteAll(c, b)
  {
    assert forall k :: 0 <= k < |a + b| ==> QuoteAll(c, a + b)[k] == (QuoteAll(c, a) + QuoteAll(c, b))[k];
  }

  /** None of the segments holds a '/'. */
  ghost predicate SlashFree(t: seq<string>)
  {
    forall k :: 0 <= k < |t| ==> '/' !in t[k]
  }

  /**
   * What percent-encoding and decoding are taken to guarantee: the empty segment
   * quotes to the empty string and no other does, a quoted segment holds no '/', and
   * decoding the '/'-joined quoted segments of an absolute slash-free tuple, one
   * starting with `''` (or the empty tuple), gives back the '/'-joined segments.
   */
  ghost predicate Lawful(c: Codec)
  {
    && Quote(c, "") == ""
    && (forall s :: s != "" ==> Quote(c, s) != "")
    && (forall s :: '/' !in Quote(c, s))
    && (forall t: seq<string> :: SlashFree(t) && Rooted(t) ==> DecodesJoined(c, t))
  }

  /** The tuple is empty or starts with `''`, as an absolute path tuple does. */
  ghost predicate Rooted(t: seq<string>)
  {
    t == [] || t[0] == ""
  }

  /** Decoding the '/'-joined quoted segments of `t` gives the '/'-joined segments. */
  ghost predicate DecodesJoined(c: Codec, t: seq<string>)
  {
    c.decode(JoinSlash(QuoteAll(c, t))) == Some(JoinSlash(t))
  }

  /** The decoding guarantee of `Lawful` for one absolute slash-free tuple. */
  lemma LawfulDecodes(c: Codec, t: seq<string>)
    requires Lawful(c) && SlashFree(t) && (t == [] || t[0] == "")
    ensures DecodesJoined(c, t)
  {
    assert Rooted(t);
  }

  /** `_join_path_tuple`: `t and '/'.join(quoted segments) or '/'`. */
  function JoinPathTuple(c: Codec, t: seq<string>): (r: string)
    ensures r != ""
  {
    if |t| == 0 then "/"
    else
      var joined := JoinSlash(QuoteAll(c, t));
      if joined == "" then "/" else joined
  }

  /** The two tuples that stand for the root, `()` and `('',)`, both join to `'/'`. */
  lemma JoinPathTupleOfRoot(c: Codec)
    requires Lawful(c)
    ensures JoinPathTuple(c, []) == "/"
    ensures JoinPathTuple(c, [""]) == "/"
  {
    assert QuoteAll(c, [""]) == [""];
  }

  /** A tuple with a leading `''` and more joins to a string starting with '/'. */
  lemma JoinPathTupleAbsolute(c: Codec, t: seq<string>)
    requires Lawful(c)
    requires |t| >= 2 && t[0] == ""
    ensures JoinPathTuple(c, t) == "/" + JoinSlash(QuoteAll(c, t[1..]))
    ensures JoinPathTuple(c, t)[0] == '/'
  {
    var q := QuoteAll(c, t);
    assert q == [""] + QuoteAll(c, t[1..]);
    JoinSlashCons("", QuoteAll(c, t[1..]));
  }

  /**
   * Decoding the joined string of an absolute, slash-free tuple `('', a, b, ...)` gives
   * `/a/b/...`, and `/` for `('',)`.
   */
  lemma DecodeJoinedAbsolute(c: Codec, t: seq<string>)
    requires Lawful(c)
    requires |t| >= 1 && t[0] == "" && SlashFree(t)
    ensures c.decode(JoinPathTuple(c, t)) == Some("/" + JoinSlash(t[1..]))
  {
    if |t| == 1 {
      DecodeJoinedRoot(c);
      assert t == [""] && t[1..] == [];
      assert "/" + JoinSlash(t[1..]) == "/";
    } else {
      DecodeJoinedBelowRoot(c, t);
    }
  }

  /** Decoding the joined `('',)`, which is `'/'`, gives `'/'`. */
  lemma DecodeJoinedRoot(c: Codec)
    requires Lawful(c)
    ensures c.decode(JoinPathTuple(c, [""])) == Some("/")
  {
    JoinPathTupleOfRoot(c);
    var two := ["", ""];
    LawfulDecodes(c, two);
    assert QuoteAll(c, two) == two;
    assert JoinSlash(two) == "/";
  }

  lemma DecodeJoinedBelowRoot(c: Codec, t: seq<string>)
    requires Lawful(c)
    requires |t| >= 2 && t[0] == "" && SlashFree(t)
    ensures c.decode(JoinPathTuple(c, t)) == Some("/" + JoinSlash(t[1..]))
  {
    var q := QuoteAll(c, t[1..]);
    JoinPathTupleAbsolute(c, t);
    assert QuoteAll(c, t) == [""] + q;
    JoinSlashCons("", q);
    JoinSlashCons("", t[1..]);
    assert t == [""] + t[1..];
    assert JoinPathTuple(c, t) == JoinSlash(QuoteAll(c, t));
    LawfulDecodes(c, t);
    assert JoinSlash(t) == "/" + JoinSlash(t[1..]);
  }

  /**
   * The module-level `_segment_cache` of `quote_path_segment`: a dictionary from
   * `(segment, safe)` to the quoted segment, which only ever grows.
   */
  class SegmentCache {
    const codec: Codec
    var entries: map<(string, string), string>

    /** Every stored value is the quoting of its key. */
    ghost predicate Valid()
      reads this
    {
      forall key :: key in entries ==> entries[key] == codec.quote(key.0, key.1)
    }

    constructor (codec: Codec)
      ensures Valid()
      ensures this.codec == codec && entries == map[]
    {
      this.codec := codec;
      entries := map[];
    }

    /**
     * `quote_path_segment`: the cached value when there is one, otherwise the quoted
     * segment, which is stored before it is returned. Either way the result is the
     * quoting of `segment`, so the cache never changes a result.
     */
    method QuotePathSegment(segment: string, safe: string) returns (r: string)
      requires Valid()
      modifies this
      ensures Valid()
      ensures r == codec.quote(segment, safe)
      ensures entries == old(entries)[(segment, safe) := r]
    {
      if (segment, safe) in entries {
        r := entries[(segment, safe)];
      } else {
        r := codec.quote(segment, safe);
        entries := entries[(segment, safe) := r];
      }
    }
  }

}
