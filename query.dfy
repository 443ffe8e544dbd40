/**
 * The query-string helpers of src/utils.ts: `querySplit` reads an
 * `application/x-www-form-urlencoded`-style string into an object, and
 * `queryBuilder` writes an object as `?key=value&...`.
 */
module Query {
  import opened Wrappers
  import opened Strings
  import opened Uri
  import opened JsObject

  // ---------------------------------------------------------------- querySplit

  /** `key` of `const [key, value] = segment.split('=')`: the text before the first `=`. */
  function SegmentKey(seg: string): string {
    Split(seg, '=')[0]
  }

  /**
   * `value` of the same destructuring: the text between the first and the
   * second `=`. With no `=` it is `undefined`, which `decodeURIComponent`
   * turns into the string "undefined", so this is that string.
   */
  function SegmentValue(seg: string): string {
    var parts := Split(seg, '=');
    if |parts| >= 2 then parts[1] else "undefined"
  }

  /**
   * The `reduce` of `querySplit`: each segment in turn defines its key with
   * its decoded value on a copy of the accumulator (`{...acc, [key]: value}`).
   * None when a value does not decode (the URIError it throws).
   */
  function Collect(segs: seq<string>, acc: Obj): (r: Option<Obj>)
    ensures r.Some? ==> forall k :: Has(acc, k) ==> Has(r.value, k)
    ensures r.Some? ==> |r.value| >= |acc|
    ensures r.Some? && |segs| > 0 ==> |r.value| > 0
  {
    if |segs| == 0 then Some(acc)
    else match DecodeURIComponent(SegmentValue(segs[0]))
      case None => None
      case Some(v) => Collect(segs[1..], CopyAndSet(acc, SegmentKey(segs[0]), v))
  }

  /** `{...acc, [k]: v}`: it keeps every key of `acc` and adds `k`. */
  function CopyAndSet(acc: Obj, k: string, v: string): (r: Obj)
    ensures Has(r, k) && forall k' :: Has(acc, k') ==> Has(r, k')
    ensures |r| >= |acc| && |r| > 0
  {
    SpreadIntoEmpty(acc);
    SetKeepsKeys(acc, k, v);
    Set(Spread([], acc), k, v)
  }

  /** `querySplit(query)`: never an empty object, since even "" is one segment. */
  function QuerySplit(query: string): (r: Option<Obj>)
    ensures r.Some? ==> |r.value| >= 1
  {
    Collect(Split(query, '&'), [])
  }

  /**
   * The key is the text before the first `=` and the value the text up to the
   * next `=`; with no `=` the whole segment is the key.
   */
  lemma SegmentParts(seg: string)
    ensures '=' !in SegmentKey(seg)
    ensures '=' in seg ==> '=' !in SegmentValue(seg)
    ensures '=' in seg ==>
      |seg| >= |SegmentKey(seg)| + 1 + |SegmentValue(seg)|
      && seg[..|SegmentKey(seg)| + 1 + |SegmentValue(seg)|] == SegmentKey(seg) + "=" + SegmentValue(seg)
    ensures '=' in seg ==>
      var n := |SegmentKey(seg)| + 1 + |SegmentValue(seg)|;
      n == |seg| || seg[n] == '='
    ensures '=' !in seg ==> SegmentKey(seg) == seg && SegmentValue(seg) == "undefined"
  {
    var parts := Split(seg, '=');
    JoinSplit(seg, '=');
    if '=' in seg {
      assert |parts| >= 2;
      if |parts| == 2 {
        assert parts[1..] == [parts[1]];
        assert seg == parts[0] + "=" + parts[1];
      } else {
        assert seg == parts[0] + "=" + (parts[1] + "=" + Join(parts[2..], '='));
        var head := parts[0] + "=" + parts[1];
        assert seg == head + ("=" + Join(parts[2..], '='));
        assert seg[|head|] == '=';
      }
    }
  }

  /** The query "" is one segment with key "" and no value. */
  lemma QuerySplitEmpty()
    ensures QuerySplit("") == Some([("", "undefined")])
  {
    assert Split("", '&') == [""];
    assert Split("", '=') == [""];
    assert DecodeURIComponent("undefined") == Some("undefined");
    SpreadIntoEmpty([]);
    assert Set([], "", "undefined") == [("", "undefined")] by {
      assert !IsArrayIndex("");
    }
  }

  /** Some segment has key `k`. */
  predicate KeyOccurs(segs: seq<string>, k: string) {
    exists i | 0 <= i < |segs| :: SegmentKey(segs[i]) == k
  }

  /** No later segment has the key of segment `i`. */
  predicate LastWithKey(segs: seq<string>, i: nat)
    requires i < |segs|
  {
    forall j | i < j < |segs| :: SegmentKey(segs[j]) != SegmentKey(segs[i])
  }

  /** One step of the `reduce`: the first segment decodes and is defined on the accumulator. */
  lemma CollectStep(segs: seq<string>, acc: Obj, o: Obj)
    requires |segs| > 0 && Collect(segs, acc) == Some(o)
    ensures DecodeURIComponent(SegmentValue(segs[0])).Some?
    ensures Collect(segs[1..], Set(acc, SegmentKey(segs[0]), DecodeURIComponent(SegmentValue(segs[0])).value)) == Some(o)
  {
    SpreadIntoEmpty(acc);
  }

  /** A key the accumulator has, or some segment has, is in the result. */
  lemma {:induction false} CollectKeeps(segs: seq<string>, acc: Obj, o: Obj, k: string)
    requires Collect(segs, acc) == Some(o)
    requires Has(acc, k) || KeyOccurs(segs, k)
    ensures Has(o, k)
  {
    if |segs| > 0 {
      var k0 := SegmentKey(segs[0]);
      CollectStep(segs, acc, o);
      var v0 := DecodeURIComponent(SegmentValue(segs[0])).value;
      var acc' := Set(acc, k0, v0);
      assert Get(acc', k0).Some?;
      if KeyOccurs(segs, k) && k != k0 {
        var i :| 0 <= i < |segs| && SegmentKey(segs[i]) == k;
        assert SegmentKey(segs[1..][i - 1]) == k;
      } else if Has(acc, k) {
        assert Get(acc, k).Some?;
        assert Get(acc', k).Some?;
      }
      CollectKeeps(segs[1..], acc', o, k);
    }
  }

  /** A key no segment has keeps the accumulator's value. */
  lemma {:induction false} CollectUntouched(segs: seq<string>, acc: Obj, o: Obj, k: string)
    requires Collect(segs, acc) == Some(o)
    requires !KeyOccurs(segs, k)
    ensures Get(o, k) == Get(acc, k)
  {
    if |segs| > 0 {
      var k0 := SegmentKey(segs[0]);
      var rest := segs[1..];
      assert k0 != k;
      forall j | 0 <= j < |rest| ensures SegmentKey(rest[j]) != k {
        assert rest[j] == segs[j + 1];
      }
      CollectStep(segs, acc, o);
      var v0 := DecodeURIComponent(SegmentValue(segs[0])).value;
      CollectUntouched(rest, Set(acc, k0, v0), o, k);
    }
  }

  /** The first segment decides its key's value when no later segment has that key. */
  lemma CollectFirstLast(segs: seq<string>, acc: Obj, o: Obj)
    requires Collect(segs, acc) == Some(o)
    requires |segs| > 0 && LastWithKey(segs, 0)
    ensures Get(o, SegmentKey(segs[0])) == DecodeURIComponent(SegmentValue(segs[0]))
  {
    var k0 := SegmentKey(segs[0]);
    var rest := segs[1..];
    forall j | 0 <= j < |rest| ensures SegmentKey(rest[j]) != k0 {
      assert rest[j] == segs[j + 1];
    }
    CollectStep(segs, acc, o);
    var d := DecodeURIComponent(SegmentValue(segs[0]));
    var acc' := Set(acc, k0, d.value);
    CollectUntouched(rest, acc', o, k0);
    assert Get(acc', k0) == Some(d.value);
  }

  /** The last segment with a key decides its value. */
  lemma {:induction false} CollectLast(segs: seq<string>, acc: Obj, o: Obj, i: nat)
    requires Collect(segs, acc) == Some(o)
    requires i < |segs| && LastWithKey(segs, i)
    ensures Get(o, SegmentKey(segs[i])) == DecodeURIComponent(SegmentValue(segs[i]))
    decreases |segs|, 1
  {
    if i == 0 {
      CollectFirstLast(segs, acc, o);
    } else {
      CollectLaterLast(segs, acc, o, i);
    }
  }

  lemma {:induction false} CollectLaterLast(segs: seq<string>, acc: Obj, o: Obj, i: nat)
    requires Collect(segs, acc) == Some(o)
    requires 0 < i < |segs| && LastWithKey(segs, i)
    ensures Get(o, SegmentKey(segs[i])) == DecodeURIComponent(SegmentValue(segs[i]))
    decreases |segs|, 0
  {
    LastWithKeyInRest(segs, i);
    CollectStep(segs, acc, o);
    CollectLast(segs[1..], Set(acc, SegmentKey(segs[0]), DecodeURIComponent(SegmentValue(segs[0])).value), o, i - 1);
  }

  lemma LastWithKeyInRest(segs: seq<string>, i: nat)
    requires 0 < i < |segs| && LastWithKey(segs, i)
    ensures segs[1..][i - 1] == segs[i] && LastWithKey(segs[1..], i - 1)
  {
    var rest := segs[1..];
    forall j | i - 1 < j < |rest| ensures SegmentKey(rest[j]) != SegmentKey(rest[i - 1]) {
      assert rest[j] == segs[j + 1];
    }
  }

  /**
   * Last write wins: the result has a key exactly when some segment has it,
   * and its value is the decoded value of the last segment with that key.
   */
  lemma QuerySplitLastWins(query: string, o: Obj)
    requires QuerySplit(query) == Some(o)
    ensures forall k :: Has(o, k) <==> KeyOccurs(Split(query, '&'), k)
    ensures var segs := Split(query, '&');
      forall i | 0 <= i < |segs| && LastWithKey(segs, i) ::
        Get(o, SegmentKey(segs[i])) == DecodeURIComponent(SegmentValue(segs[i]))
  {
    var segs := Split(query, '&');
    forall k ensures Has(o, k) <==> KeyOccurs(segs, k) {
      if KeyOccurs(segs, k) {
        CollectKeeps(segs, [], o, k);
      } else {
        CollectUntouched(segs, [], o, k);
      }
    }
    forall i | 0 <= i < |segs| && LastWithKey(segs, i)
      ensures Get(o, SegmentKey(segs[i])) == DecodeURIComponent(SegmentValue(segs[i]))
    {
      CollectLast(segs, [], o, i);
    }
  }

  /** Some segment's value is not valid percent-encoded UTF-8. */
  predicate SomeValueUndecodable(segs: seq<string>) {
    exists i | 0 <= i < |segs| :: DecodeURIComponent(SegmentValue(segs[i])).None?
  }

  lemma UndecodableFirstOrRest(segs: seq<string>)
    requires |segs| > 0
    ensures SomeValueUndecodable(segs) <==>
      DecodeURIComponent(SegmentValue(segs[0])).None? || SomeValueUndecodable(segs[1..])
  {
    if SomeValueUndecodable(segs) && DecodeURIComponent(SegmentValue(segs[0])).Some? {
      var i :| 0 <= i < |segs| && DecodeURIComponent(SegmentValue(segs[i])).None?;
      assert segs[1..][i - 1] == segs[i];
    }
    if SomeValueUndecodable(segs[1..]) {
      var i :| 0 <= i < |segs[1..]| && DecodeURIComponent(SegmentValue(segs[1..][i])).None?;
      assert segs[i + 1] == segs[1..][i];
    }
  }

  lemma {:induction false} CollectFails(segs: seq<string>, acc: Obj)
    ensures Collect(segs, acc).None? <==> SomeValueUndecodable(segs)
  {
    if |segs| > 0 {
      UndecodableFirstOrRest(segs);
      var d := DecodeURIComponent(SegmentValue(segs[0]));
      if d.Some? {
        CollectFails(segs[1..], Set(Spread([], acc), SegmentKey(segs[0]), d.value));
      }
    }
  }

  /** `querySplit` throws exactly when some segment's value fails to decode. */
  lemma QuerySplitFails(query: string)
    ensures QuerySplit(query).None? <==> SomeValueUndecodable(Split(query, '&'))
  {
    CollectFails(Split(query, '&'), []);
  }

  // ---------------------------------------------------------------- queryBuilder

  /** `${key}=${encodeURIComponent(value.toString())}`: the key is written as it is. */
  function QueryField(e: Entry): string {
    e.0 + "=" + EncodeURIComponent(e.1)
  }

  function QueryFields(queries: seq<Entry>): (fs: seq<string>)
    ensures |fs| == |queries|
    ensures forall i | 0 <= i < |queries| :: fs[i] == QueryField(queries[i])
  {
    seq(|queries|, i requires 0 <= i < |queries| => QueryField(queries[i]))
  }

  /** `queryBuilder(queries)`: "" for no keys, otherwise `?` and the fields joined by `&`. */
  function QueryBuilder(queries: Obj): (r: string)
    ensures r == "" <==> |queries| == 0
    ensures r != "" ==> r[0] == '?'
  {
    if |queries| == 0 then "" else "?" + Join(QueryFields(queries), '&')
  }

  /** A key that survives the trip: the source writes keys without escaping them. */
  predicate QuerySafeKey(k: string) {
    '&' !in k && '=' !in k
  }

  lemma FieldParts(e: Entry)
    requires QuerySafeKey(e.0)
    ensures '&' !in QueryField(e)
    ensures SegmentKey(QueryField(e)) == e.0
    ensures SegmentValue(QueryField(e)) == EncodeURIComponent(e.1)
    ensures DecodeURIComponent(SegmentValue(QueryField(e))) == Some(e.1)
  {
    var enc := EncodeURIComponent(e.1);
    EscapedHasNoSeparators(enc);
    assert Join([e.0, enc], '=') == QueryField(e) by {
      assert [e.0, enc][1..] == [enc];
    }
    SplitJoin([e.0, enc], '=');
    DecodeEncode(e.1);
  }

  /** With no `&` in any key, n entries are written with n - 1 separators. */
  lemma QueryBuilderSeparators(queries: Obj)
    requires |queries| >= 1
    requires forall i | 0 <= i < |queries| :: '&' !in queries[i].0
    ensures CountChar(QueryBuilder(queries), '&') == |queries| - 1
  {
    var fs := QueryFields(queries);
    forall i | 0 <= i < |fs| ensures '&' !in fs[i] {
      EscapedHasNoSeparators(EncodeURIComponent(queries[i].1));
    }
    JoinCount(fs, '&');
    CountCharConcat("?", Join(fs, '&'), '&');
  }

  /**
   * After the `?`, the segments of the output are the entries' fields, one
   * per entry in enumeration order.
   */
  lemma QueryBuilderSegments(queries: Obj)
    requires |queries| >= 1
    requires forall i | 0 <= i < |queries| :: QuerySafeKey(queries[i].0)
    ensures var segs := Split(QueryBuilder(queries)[1..], '&');
      && |segs| == |queries|
      && forall i | 0 <= i < |segs| ::
           SegmentKey(segs[i]) == queries[i].0 && SegmentValue(segs[i]) == EncodeURIComponent(queries[i].1)
  {
    var fs := QueryFields(queries);
    forall i | 0 <= i < |fs| ensures '&' !in fs[i] {
      FieldParts(queries[i]);
    }
    assert QueryBuilder(queries)[1..] == Join(fs, '&');
    SplitJoin(fs, '&');
    forall i | 0 <= i < |fs|
      ensures SegmentKey(fs[i]) == queries[i].0 && SegmentValue(fs[i]) == EncodeURIComponent(queries[i].1)
    {
      FieldParts(queries[i]);
    }
  }

  lemma {:induction false} CollectFields(queries: Obj, n: nat)
    requires n <= |queries|
    requires forall i | 0 <= i < |queries| :: QuerySafeKey(queries[i].0)
    ensures WellFormed(queries[..n])
    ensures Collect(QueryFields(queries)[n..], queries[..n]) == Some(queries)
    decreases |queries| - n
  {
    SuffixWellFormed(queries, n);
    var fs := QueryFields(queries);
    if n == |queries| {
      assert queries[..n] == queries;
    } else {
      var acc: Obj := queries[..n];
      FieldParts(queries[n]);
      assert fs[n..][0] == fs[n] && fs[n..][1..] == fs[n + 1..];
      SpreadIntoEmpty(acc);
      SetAfterIndexKeys(queries, n);
      CollectFields(queries, n + 1);
    }
  }

  /**
   * Round trip: reading back what `queryBuilder` wrote, after its `?`, gives
   * the same object, when no key holds `&` or `=`.
   */
  lemma QueryRoundTrip(queries: Obj)
    requires |queries| >= 1
    requires forall i | 0 <= i < |queries| :: QuerySafeKey(queries[i].0)
    ensures QuerySplit(QueryBuilder(queries)[1..]) == Some(queries)
  {
    var fs := QueryFields(queries);
    forall i | 0 <= i < |fs| ensures '&' !in fs[i] {
      FieldParts(queries[i]);
    }
    assert QueryBuilder(queries)[1..] == Join(fs, '&');
    SplitJoin(fs, '&');
    CollectFields(queries, 0);
    assert fs[0..] == fs && queries[..0] == [];
  }

  /** `s.slice(1)`: the text after the first character, and "" for "". */
  function SliceFrom1(s: string): string {
    if |s| == 0 then "" else s[1..]
  }

  /**
   * The same trip on an object with no keys does not give it back: the
   * builder writes "", its `slice(1)` is still "", and `querySplit("")` is
   * `{"": "undefined"}`.
   */
  lemma QueryRoundTripEmpty()
    ensures QueryBuilder([]) == ""
    ensures QuerySplit(SliceFrom1(QueryBuilder([]))) == Some([("", "undefined")])
  {
    QuerySplitEmpty();
  }
}
