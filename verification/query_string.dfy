/**
  `HttpUtils.parseQueryStringToMap`: the parameters of a URL's query text as
  a map from key to value.

  The text after the first `?` is split on `&`; each segment is split on `=`
  and contributes `key -> value` only when that split has exactly two parts.
  Segments are put into the map in order, so a later segment overrides an
  earlier one with the same key. Nothing is percent-decoded.
*/
module QueryString {
  import opened JavaNull
  import opened JavaString

  const QueryMark := '?'
  const PairSeparator := '&'
  const KeyValueSeparator := '='

  /**
    `StringUtils.substringAfter(s, c)`: the text after the first `c`, or the
    empty string when `s` has no `c`.
  */
  function SubstringAfter(s: string, c: char): (r: string)
    ensures c !in s ==> r == []
    ensures c in s ==> |r| < |s| && s[|s| - |r| - 1] == c && c !in s[..|s| - |r| - 1]
    ensures r == s[|s| - |r|..]
  {
    if s == [] then []
    else if s[0] == c then s[1..]
    else
      var r := SubstringAfter(s[1..], c);
      if c in s[1..] then
        assert s[..|s| - |r| - 1] == [s[0]] + s[1..][..|s[1..]| - |r| - 1];
        r
      else
        r
  }

  /**
    One `&`-separated segment as a key/value pair: present exactly when
    `segment.split("=")` has two parts, the first being the key.
  */
  function SegmentPair(segment: string): (r: Option<(string, string)>)
    ensures r.Some? ==> KeyValueSeparator !in r.value.0 && KeyValueSeparator !in r.value.1
    ensures r.Some? ==> r.value.1 != []
    ensures r.Some? ==> r.value.0 + [KeyValueSeparator] + r.value.1 <= segment
  {
    var parts := JavaSplit(segment, KeyValueSeparator);
    if |parts| == 2 then
      JavaSplitRoundTrip(segment, KeyValueSeparator);
      JoinCons(parts[0], parts[1..], KeyValueSeparator);
      assert [parts[0]] + parts[1..] == parts;
      Some((parts[0], parts[1]))
    else
      None
  }

  /** `segment` puts an entry for `key` into the map. */
  ghost predicate Binds(segment: string, key: string)
  {
    SegmentPair(segment).Some? && SegmentPair(segment).value.0 == key
  }

  /**
    The map built by putting the pair of every well-formed segment, in
    order, into an initially empty map.
  */
  function Collect(segments: seq<string>): (m: map<string, string>)
    ensures |m| <= |segments|
    ensures forall k :: k in m ==> KeyValueSeparator !in k && KeyValueSeparator !in m[k] && m[k] != []
  {
    if segments == [] then map[]
    else
      var m := Collect(segments[..|segments| - 1]);
      match SegmentPair(segments[|segments| - 1])
      case Some((k, v)) =>
        assert m[k := v].Keys == m.Keys + {k};
        m[k := v]
      case None => m
  }

  /** The map of a query text (the part of the URL after the first `?`). */
  function ParseQuery(query: string): map<string, string>
  {
    Collect(JavaSplit(query, PairSeparator))
  }

  /**
    `parseQueryStringToMap(url)`, with `None` for a null URL. The map is empty
    unless the URL has a `?`; it never holds more entries than the query text
    has `&`-separated segments; no key or value holds `=`, and no value is empty.
  */
  function ParseQueryStringToMap(url: Option<string>): (m: map<string, string>)
    ensures url.None? || QueryMark !in url.value ==> m == map[]
    ensures url.Some? ==> |m| <= Count(SubstringAfter(url.value, QueryMark), PairSeparator) + 1
    ensures forall k :: k in m ==> KeyValueSeparator !in k && KeyValueSeparator !in m[k] && m[k] != []
  {
    match url
    case None => map[]
    case Some(u) =>
      if QueryMark !in u then map[]
      else ParseQuery(SubstringAfter(u, QueryMark))
  }

  /**
    The loop of `parseQueryStringToMap` as written: one `put` per segment whose
    split on `=` has two parts.
  */
  method ParseQueryStringToMapLoop(url: Option<string>) returns (m: map<string, string>)
    ensures m == ParseQueryStringToMap(url)
  {
    m := map[];
    if url.None? || QueryMark !in url.value {
      return;
    }
    var query := SubstringAfter(url.value, QueryMark);
    var params := JavaSplit(query, PairSeparator);
    var i := 0;
    while i < |params|
      invariant 0 <= i <= |params|
      invariant m == Collect(params[..i])
    {
      var pair := JavaSplit(params[i], KeyValueSeparator);
      if |pair| == 2 {
        m := m[pair[0] := pair[1]];
      }
      assert params[..i + 1][..i] == params[..i];
      i := i + 1;
    }
    assert params[..i] == params;
  }

  // ---------------------------------------------------------------------
  // Which segments are kept
  // ---------------------------------------------------------------------

  /**
    A kept segment is its key, `=`, its value and nothing after but more
    `=` characters: `a=b` and `a=b==` both give `a -> b`.
  */
  lemma SegmentPairShape(segment: string)
    requires SegmentPair(segment).Some?
    ensures var (k, v) := SegmentPair(segment).value;
      |k| + 1 + |v| <= |segment| &&
      segment == k + [KeyValueSeparator] + v + Repeat(KeyValueSeparator, |segment| - |k| - 1 - |v|)
  {
    JavaSplitTwoParts(segment, KeyValueSeparator);
  }

  /**
    Conversely every segment of that shape is kept, with exactly that key and
    value; so a segment with no `=`, an empty value, or a second `=` followed
    by more text is dropped.
  */
  lemma SegmentPairOfShape(k: string, v: string, n: nat)
    requires KeyValueSeparator !in k && KeyValueSeparator !in v && v != []
    ensures SegmentPair(k + [KeyValueSeparator] + v + Repeat(KeyValueSeparator, n)) == Some((k, v))
  {
    var ps := [k, v];
    JoinCons(k, [v], KeyValueSeparator);
    JavaSplitJoin(ps, n, KeyValueSeparator);
  }

  /** A segment without `=` (the empty segment among them) is dropped. */
  lemma SegmentWithoutSeparatorDropped(segment: string)
    requires KeyValueSeparator !in segment
    ensures SegmentPair(segment) == None
  {
  }

  /** A key followed only by `=` characters, as in `a=`, `a==` or `=`, is dropped: its value is empty. */
  lemma {:induction false} SegmentEmptyValueDropped(k: string, n: nat)
    requires KeyValueSeparator !in k
    requires n >= 1
    ensures SegmentPair(k + Repeat(KeyValueSeparator, n)) == None
  {
    var s := k + Repeat(KeyValueSeparator, n);
    var ps := [k] + Repeat<string>([], n);
    JoinTrailingEmpties([k], n, KeyValueSeparator);
    assert Join([k], KeyValueSeparator) == k;
    assert forall i :: 0 <= i < |ps| ==> KeyValueSeparator !in ps[i];
    PiecesJoin(ps, KeyValueSeparator);
    assert s[|k|] == KeyValueSeparator;
    if k == [] {
      assert ps == [] + Repeat<string>([], n + 1);
      DropTrailingEmptyExact([], n + 1);
    } else {
      DropTrailingEmptyExact([k], n);
    }
  }

  /**
    A segment with a third non-empty part, as in `a=1=2` or `a==b`, is dropped:
    the second `=` is followed by more text.
  */
  lemma SegmentExtraPartDropped(k: string, v: string, w: string, n: nat)
    requires KeyValueSeparator !in k && KeyValueSeparator !in v && KeyValueSeparator !in w
    requires w != []
    ensures SegmentPair(k + [KeyValueSeparator] + v + [KeyValueSeparator] + w + Repeat(KeyValueSeparator, n)) == None
  {
    JoinCons(v, [w], KeyValueSeparator);
    JoinCons(k, [v, w], KeyValueSeparator);
    assert [k] + [v, w] == [k, v, w];
    assert Join([k, v, w], KeyValueSeparator) == k + [KeyValueSeparator] + v + [KeyValueSeparator] + w;
    JavaSplitJoin([k, v, w], n, KeyValueSeparator);
    assert |JavaSplit(k + [KeyValueSeparator] + v + [KeyValueSeparator] + w + Repeat(KeyValueSeparator, n), KeyValueSeparator)| == 3;
  }

  // ---------------------------------------------------------------------
  // Which entries the map holds
  // ---------------------------------------------------------------------

  /** The last segment adds its key to those of the segments before it. */
  lemma CollectLastKey(segments: seq<string>, key: string)
    requires segments != []
    ensures key in Collect(segments) <==>
      key in Collect(segments[..|segments| - 1]) || Binds(segments[|segments| - 1], key)
  {
  }

  /** A key is in the map exactly when some segment binds it. */
  lemma {:induction false} CollectKeys(segments: seq<string>, key: string)
    ensures key in Collect(segments) <==> exists i :: 0 <= i < |segments| && Binds(segments[i], key)
  {
    if segments != [] {
      var n := |segments| - 1;
      var front := segments[..n];
      CollectKeys(front, key);
      CollectLastKey(segments, key);
      if key in Collect(segments) {
        if Binds(segments[n], key) {
        } else {
          var i :| 0 <= i < |front| && Binds(front[i], key);
          assert front[i] == segments[i];
        }
      } else {
        forall i | 0 <= i < |segments|
          ensures !Binds(segments[i], key)
        {
          if i < n {
            assert front[i] == segments[i];
          }
        }
      }
    }
  }

  /**
    Last wins: a key's value is the value of the last segment that binds it,
    whatever earlier segments said.
  */
  lemma {:induction false} CollectLastWins(segments: seq<string>, i: int, key: string, value: string)
    requires 0 <= i < |segments|
    requires SegmentPair(segments[i]) == Some((key, value))
    requires forall j :: i < j < |segments| ==> !Binds(segments[j], key)
    ensures key in Collect(segments) && Collect(segments)[key] == value
  {
    var n := |segments| - 1;
    var front := segments[..n];
    assert segments == front + [segments[n]];
    CollectSnoc(front, segments[n]);
    if i < n {
      assert !Binds(segments[n], key);
      forall j | i < j < |front|
        ensures !Binds(front[j], key)
      {
        assert front[j] == segments[j];
      }
      assert front[i] == segments[i];
      CollectLastWins(front, i, key, value);
    }
  }

  /** Every entry comes from a segment that binds exactly that key to that value. */
  lemma {:induction false} CollectEntry(segments: seq<string>, key: string) returns (i: int)
    requires key in Collect(segments)
    ensures 0 <= i < |segments| && SegmentPair(segments[i]) == Some((key, Collect(segments)[key]))
  {
    var n := |segments| - 1;
    var front := segments[..n];
    var p := SegmentPair(segments[n]);
    if p.Some? && p.value.0 == key {
      i := n;
    } else {
      i := CollectEntry(front, key);
      assert front[i] == segments[i];
    }
  }

  /** Adding a segment to the end overrides only the key it binds. */
  lemma CollectSnoc(segments: seq<string>, segment: string)
    ensures Collect(segments + [segment]) ==
      match SegmentPair(segment)
      case Some((k, v)) => Collect(segments)[k := v]
      case None => Collect(segments)
  {
  }

  // ---------------------------------------------------------------------
  // The whole URL
  // ---------------------------------------------------------------------

  /**
    Only the text after the first `?` is parsed; later `?` characters are
    ordinary characters of keys and values.
  */
  lemma AfterFirstQueryMark(prefix: string, query: string)
    requires QueryMark !in prefix
    ensures ParseQueryStringToMap(Some(prefix + [QueryMark] + query)) == ParseQuery(query)
  {
    var u := prefix + [QueryMark] + query;
    assert u[|prefix|] == QueryMark;
    assert SubstringAfter(u, QueryMark) == query;
  }

  /** The map of a URL is the map of the segments of its query text. */
  lemma ParseOfSegments(base: string, query: string, segments: seq<string>)
    requires QueryMark !in base
    requires JavaSplit(query, PairSeparator) == segments
    ensures ParseQueryStringToMap(Some(base + [QueryMark] + query)) == Collect(segments)
  {
    AfterFirstQueryMark(base, query);
  }

  /**
    Every entry is copied out of the query text as it stands: `key=value`
    occurs in it, and neither the key nor the value holds `&`.
  */
  lemma {:induction false} EntriesOccurInQuery(query: string, key: string)
    requires key in ParseQuery(query)
    ensures PairSeparator !in key && PairSeparator !in ParseQuery(query)[key]
    ensures Occurs(key + [KeyValueSeparator] + ParseQuery(query)[key], query)
  {
    var segments := JavaSplit(query, PairSeparator);
    var value := ParseQuery(query)[key];
    var i := CollectEntry(segments, key);
    var segment := segments[i];
    var entry := key + [KeyValueSeparator] + value;
    assert entry <= segment;
    assert PairSeparator !in segment;
    assert forall j :: 0 <= j < |key| ==> key[j] == segment[j];
    assert forall j :: 0 <= j < |value| ==> value[j] == segment[|key| + 1 + j];
    PrefixOccurs(entry, segment);
    JavaSplitOccurs(query, PairSeparator, i);
    OccursTransitive(entry, segment, query);
  }


  /** `key=value` with neither part holding `&` or `=`, and a non-empty value. */
  ghost predicate PlainPair(key: string, value: string)
  {
    && PairSeparator !in key && KeyValueSeparator !in key
    && PairSeparator !in value && KeyValueSeparator !in value
    && value != []
  }

  /** A plain `key=value` segment is kept as exactly that pair. */
  lemma PlainSegment(key: string, value: string)
    requires PlainPair(key, value)
    ensures SegmentPair(key + [KeyValueSeparator] + value) == Some((key, value))
  {
    SegmentPairOfShape(key, value, 0);
    assert key + [KeyValueSeparator] + value + Repeat(KeyValueSeparator, 0) == key + [KeyValueSeparator] + value;
  }

  /** The segments of `k1=v1&k2=v2&bare`. */
  lemma BareKeySegments(k1: string, v1: string, k2: string, v2: string, bare: string)
    requires PlainPair(k1, v1) && PlainPair(k2, v2)
    requires bare != [] && PairSeparator !in bare
    ensures var s1 := k1 + [KeyValueSeparator] + v1;
      var s2 := k2 + [KeyValueSeparator] + v2;
      JavaSplit(s1 + [PairSeparator] + s2 + [PairSeparator] + bare, PairSeparator) == [s1, s2, bare]
  {
    var s1 := k1 + [KeyValueSeparator] + v1;
    var s2 := k2 + [KeyValueSeparator] + v2;
    JoinCons(s2, [bare], PairSeparator);
    JoinCons(s1, [s2, bare], PairSeparator);
    assert [s1] + [s2, bare] == [s1, s2, bare];
    JavaSplitJoin([s1, s2, bare], 0, PairSeparator);
    assert s1 + [PairSeparator] + s2 + [PairSeparator] + bare
      == Join([s1, s2, bare], PairSeparator) + Repeat(PairSeparator, 0);
  }

  /** The map of the segments `k1=v1`, `k2=v2`, `bare`. */
  lemma BareKeyMap(k1: string, v1: string, k2: string, v2: string, bare: string)
    requires PlainPair(k1, v1) && PlainPair(k2, v2) && k1 != k2
    requires KeyValueSeparator !in bare
    ensures var s1 := k1 + [KeyValueSeparator] + v1;
      var s2 := k2 + [KeyValueSeparator] + v2;
      Collect([s1, s2, bare]) == map[k1 := v1, k2 := v2]
  {
    var s1 := k1 + [KeyValueSeparator] + v1;
    var s2 := k2 + [KeyValueSeparator] + v2;
    PlainSegment(k1, v1);
    PlainSegment(k2, v2);
    PiecesWithout(bare, KeyValueSeparator);
    CollectSnoc([], s1);
    assert [] + [s1] == [s1];
    CollectSnoc([s1], s2);
    assert [s1] + [s2] == [s1, s2];
    CollectSnoc([s1, s2], bare);
    assert [s1, s2] + [bare] == [s1, s2, bare];
  }

  /**
    A segment with no `=` between two well-formed pairs is dropped, as in
    `?a=1&b=2&bad`, which gives `{a: 1, b: 2}`.
  */
  lemma ParseDropsBareKey(base: string, k1: string, v1: string, k2: string, v2: string, bare: string)
    requires QueryMark !in base
    requires PlainPair(k1, v1) && PlainPair(k2, v2) && k1 != k2
    requires bare != [] && PairSeparator !in bare && KeyValueSeparator !in bare
    ensures var s1 := k1 + [KeyValueSeparator] + v1;
      var s2 := k2 + [KeyValueSeparator] + v2;
      ParseQueryStringToMap(Some(base + [QueryMark] + (s1 + [PairSeparator] + s2 + [PairSeparator] + bare)))
        == map[k1 := v1, k2 := v2]
  {
    var s1 := k1 + [KeyValueSeparator] + v1;
    var s2 := k2 + [KeyValueSeparator] + v2;
    BareKeySegments(k1, v1, k2, v2, bare);
    ParseOfSegments(base, s1 + [PairSeparator] + s2 + [PairSeparator] + bare, [s1, s2, bare]);
    BareKeyMap(k1, v1, k2, v2, bare);
  }

  /** The map of the segments `k=v1`, `k=v2`: the second value replaces the first. */
  lemma RepeatedKeyMap(k: string, v1: string, v2: string)
    requires PlainPair(k, v1) && PlainPair(k, v2)
    ensures var s1 := k + [KeyValueSeparator] + v1;
      var s2 := k + [KeyValueSeparator] + v2;
      Collect([s1, s2]) == map[k := v2]
  {
    var s1 := k + [KeyValueSeparator] + v1;
    var s2 := k + [KeyValueSeparator] + v2;
    PlainSegment(k, v1);
    PlainSegment(k, v2);
    CollectSnoc([], s1);
    assert [] + [s1] == [s1];
    CollectSnoc([s1], s2);
    assert [s1] + [s2] == [s1, s2];
  }

  /** A repeated key keeps its last value: `?k=v1&k=v2` gives `{k: v2}`. */
  lemma ParseRepeatedKey(base: string, k: string, v1: string, v2: string)
    requires QueryMark !in base
    requires PlainPair(k, v1) && PlainPair(k, v2)
    ensures var s1 := k + [KeyValueSeparator] + v1;
      var s2 := k + [KeyValueSeparator] + v2;
      ParseQueryStringToMap(Some(base + [QueryMark] + (s1 + [PairSeparator] + s2))) == map[k := v2]
  {
    var s1 := k + [KeyValueSeparator] + v1;
    var s2 := k + [KeyValueSeparator] + v2;
    JoinCons(s1, [s2], PairSeparator);
    JavaSplitJoin([s1, s2], 0, PairSeparator);
    assert s1 + [PairSeparator] + s2 == Join([s1, s2], PairSeparator) + Repeat(PairSeparator, 0);
    ParseOfSegments(base, s1 + [PairSeparator] + s2, [s1, s2]);
    RepeatedKeyMap(k, v1, v2);
  }

  /** A query text of one segment gives that segment's pair, or nothing. */
  lemma ParseSingleSegment(base: string, segment: string)
    requires QueryMark !in base
    requires PairSeparator !in segment
    ensures ParseQueryStringToMap(Some(base + [QueryMark] + segment)) ==
      match SegmentPair(segment)
      case Some((k, v)) => map[k := v]
      case None => map[]
  {
    ParseOfSegments(base, segment, [segment]);
    CollectSnoc([], segment);
    assert [] + [segment] == [segment];
  }

  /**
    A URL that ends in `?` gives the empty map: the query text is empty,
    `split` returns the single empty segment, and it has no `=`.
  */
  lemma ParseEmptyQuery(base: string)
    requires QueryMark !in base
    ensures ParseQueryStringToMap(Some(base + [QueryMark])) == map[]
  {
    assert base + [QueryMark] == base + [QueryMark] + "";
    SegmentWithoutSeparatorDropped("");
    ParseSingleSegment(base, "");
  }

  /** `?a=1=2` splits its one segment into three parts and gives the empty map. */
  lemma ParseDropsTwoSeparators(base: string)
    requires QueryMark !in base
    ensures ParseQueryStringToMap(Some(base + [QueryMark] + "a=1=2")) == map[]
  {
    SegmentExtraPartDropped("a", "1", "2", 0);
    assert "a=1=2" == "a" + [KeyValueSeparator] + "1" + [KeyValueSeparator] + "2" + Repeat(KeyValueSeparator, 0);
    ParseSingleSegment(base, "a=1=2");
  }

  /** A trailing `=` is dropped by `split`, so `?a=b=` still gives `{a: b}`. */
  lemma ParseTrailingSeparator(base: string)
    requires QueryMark !in base
    ensures ParseQueryStringToMap(Some(base + [QueryMark] + "a=b=")) == map["a" := "b"]
  {
    SegmentPairOfShape("a", "b", 1);
    assert "a=b=" == "a" + [KeyValueSeparator] + "b" + Repeat(KeyValueSeparator, 1);
    ParseSingleSegment(base, "a=b=");
  }

  /** An empty value drops the segment, so `?a=` gives the empty map. */
  lemma ParseEmptyValue(base: string)
    requires QueryMark !in base
    ensures ParseQueryStringToMap(Some(base + [QueryMark] + "a=")) == map[]
  {
    SegmentEmptyValueDropped("a", 1);
    assert "a=" == "a" + Repeat(KeyValueSeparator, 1);
    ParseSingleSegment(base, "a=");
  }

  /** A leading `=` gives the empty key: `?=b` gives `{"": b}`. */
  lemma ParseEmptyKey(base: string)
    requires QueryMark !in base
    ensures ParseQueryStringToMap(Some(base + [QueryMark] + "=b")) == map["" := "b"]
  {
    SegmentPairOfShape("", "b", 0);
    assert "=b" == "" + [KeyValueSeparator] + "b" + Repeat(KeyValueSeparator, 0);
    ParseSingleSegment(base, "=b");
  }

  /** A second `?` is part of the value: `?k=v?w` gives `{k: v?w}`. */
  lemma ParseSecondQueryMark(base: string, k: string, v: string, w: string)
    requires QueryMark !in base
    requires PlainPair(k, v + [QueryMark] + w)
    ensures ParseQueryStringToMap(Some(base + [QueryMark] + (k + [KeyValueSeparator] + v + [QueryMark] + w)))
      == map[k := v + [QueryMark] + w]
  {
    var value := v + [QueryMark] + w;
    PlainSegment(k, value);
    assert k + [KeyValueSeparator] + value == k + [KeyValueSeparator] + v + [QueryMark] + w;
    ParseSingleSegment(base, k + [KeyValueSeparator] + value);
  }
}
