/**
 * Two behaviours of `querySplit` and `queryBuilder` from src/utils.ts, for
 * any keys and values of the given shape: of two segments with the same key
 * the later one wins, and a key holding `=` does not survive the round trip.
 */
module QueryExamples {
  import opened Wrappers
  import opened Strings
  import opened Uri
  import opened JsObject
  import opened Query

  /** Defining a key on the empty object gives the one-entry object, wherever the key would sort. */
  lemma SetOnEmpty(k: string, v: string)
    ensures Set([], k, v) == [(k, v)]
  {
    var r := Set([], k, v);
    assert Get(r, k) == Some(v);
    assert r[0].0 == k;
  }

  /** Redefining the only key of a one-entry object replaces its value. */
  lemma SetOnSingleton(k: string, v1: string, v2: string)
    ensures Set([(k, v1)], k, v2) == [(k, v2)]
  {
    var o: Obj := [(k, v1)];
    assert Keys(o) == [k];
    var r := Set(o, k, v2);
    assert Keys(r) == [k];
    assert Get(r, k) == Some(v2);
  }

  lemma PairSegment(k: string, v: string)
    requires QuerySafeKey(k) && QuerySafeKey(v)
    ensures SegmentKey(k + "=" + v) == k && SegmentValue(k + "=" + v) == v
    ensures '&' !in k + "=" + v
  {
    SplitPair(k, v, '=');
  }

  lemma CollectTwo(s1: string, s2: string, k: string, d1: string, d2: string)
    requires SegmentKey(s1) == k && SegmentKey(s2) == k
    requires DecodeURIComponent(SegmentValue(s1)) == Some(d1)
    requires DecodeURIComponent(SegmentValue(s2)) == Some(d2)
    ensures Collect([s1, s2], []) == Some([(k, d2)])
  {
    SpreadIntoEmpty([]);
    SpreadIntoEmpty([(k, d1)]);
    SetOnEmpty(k, d1);
    SetOnSingleton(k, d1, d2);
    assert [s1, s2][1..] == [s2] && [s2][1..] == [];
    assert Collect([s2], [(k, d1)]) == Some([(k, d2)]);
  }

  lemma TwoSegments(k: string, v1: string, v2: string)
    ensures k + "=" + v1 + "&" + k + "=" + v2 == (k + "=" + v1) + ['&'] + (k + "=" + v2)
  {
  }

  /**
   * Of two segments with the same key, the later one is kept:
   * `querySplit("k=v1&k=v2")` is `{k: decodeURIComponent(v2)}`.
   */
  lemma LaterDuplicateWins(k: string, v1: string, v2: string, d1: string, d2: string)
    requires QuerySafeKey(k) && QuerySafeKey(v1) && QuerySafeKey(v2)
    requires DecodeURIComponent(v1) == Some(d1) && DecodeURIComponent(v2) == Some(d2)
    ensures QuerySplit(k + "=" + v1 + "&" + k + "=" + v2) == Some([(k, d2)])
  {
    var s1, s2 := k + "=" + v1, k + "=" + v2;
    TwoSegments(k, v1, v2);
    assert Split(s1 + ['&'] + s2, '&') == [s1, s2] by {
      PairSegment(k, v1);
      PairSegment(k, v2);
      SplitPair(s1, s2, '&');
    }
    assert SegmentKey(s1) == k && SegmentValue(s1) == v1 by {
      PairSegment(k, v1);
    }
    assert SegmentKey(s2) == k && SegmentValue(s2) == v2 by {
      PairSegment(k, v2);
    }
    CollectTwo(s1, s2, k, d1, d2);
  }

  lemma BuildOne(k: string, v: string)
    ensures QueryBuilder([(k, v)])[1..] == k + "=" + EncodeURIComponent(v)
  {
    assert QueryFields([(k, v)]) == [k + "=" + EncodeURIComponent(v)];
  }

  lemma CollectOne(seg: string, k: string, d: string)
    requires SegmentKey(seg) == k && DecodeURIComponent(SegmentValue(seg)) == Some(d)
    ensures Collect([seg], []) == Some([(k, d)])
  {
    SpreadIntoEmpty([]);
    SetOnEmpty(k, d);
    assert [seg][1..] == [];
  }

  lemma OneSegment(seg: string)
    requires '&' !in seg
    ensures Split(seg, '&') == [seg]
  {
    SplitJoin([seg], '&');
  }

  /**
   * A key holding `=` does not survive the trip: `queryBuilder({"a=b": v})`
   * writes `?a=b=...`, which `querySplit` reads as the key `a` with the value `b`.
   */
  lemma UnsafeKeyMisread(a: string, b: string, v: string, d: string)
    requires QuerySafeKey(a) && QuerySafeKey(b) && DecodeURIComponent(b) == Some(d)
    ensures QuerySplit(QueryBuilder([(a + "=" + b, v)])[1..]) == Some([(a, d)])
  {
    var enc := EncodeURIComponent(v);
    EscapedHasNoSeparators(enc);
    var seg := a + "=" + b + "=" + enc;
    BuildOne(a + "=" + b, v);
    OneSegment(seg);
    assert SegmentKey(seg) == a && SegmentValue(seg) == b by {
      SplitTriple(a, b, enc, '=');
    }
    CollectOne(seg, a, d);
  }
}
