/**
 * Plain JavaScript objects with string-valued properties, as the core builds
 * and reads them. An object is the list of its own properties in the order
 * ECMAScript enumerates them ([[OwnPropertyKeys]] of an ordinary object,
 * section 10.1.11.1 of ECMA-262): keys that are array indices first, in
 * ascending numeric order, then the other keys in the order they were
 * created. So `Object.entries(o)` and `Object.keys(o)` read the list as it is.
 */
module JsObject {
  import opened Wrappers

  type Entry = (string, string)

  predicate IsDigit(c: char) {
    '0' <= c <= '9'
  }

  /** The number a string of decimal digits denotes. */
  function DecimalValue(s: string): nat
    requires forall i | 0 <= i < |s| :: IsDigit(s[i])
  {
    if |s| == 0 then 0
    else
      var last := s[|s| - 1];
      assert IsDigit(last);
      DecimalValue(s[..|s| - 1]) * 10 + (last as int - '0' as int)
  }

  /** The largest array index, 2^32 - 2. */
  const MaxArrayIndex: nat := 0xFFFF_FFFE

  /** A key that is the canonical decimal form of an array index ("0", "7", "42", but not "07"). */
  predicate IsArrayIndex(k: string) {
    && |k| >= 1
    && (forall i | 0 <= i < |k| :: IsDigit(k[i]))
    && (k[0] != '0' || |k| == 1)
    && DecimalValue(k) <= MaxArrayIndex
  }

  /** Key `a` may be enumerated before key `b`. */
  predicate KeyOrdered(a: string, b: string) {
    IsArrayIndex(b) ==> IsArrayIndex(a) && DecimalValue(a) <= DecimalValue(b)
  }

  predicate KeysDistinct(es: seq<Entry>) {
    forall i, j | 0 <= i < j < |es| :: es[i].0 != es[j].0
  }

  predicate InKeyOrder(es: seq<Entry>) {
    forall i, j | 0 <= i < j < |es| :: KeyOrdered(es[i].0, es[j].0)
  }

  predicate WellFormed(es: seq<Entry>) {
    KeysDistinct(es) && InKeyOrder(es)
  }

  /** An object: its own properties, one per key, in enumeration order. */
  type Obj = es: seq<Entry> | WellFormed(es) witness []

  function Keys(o: seq<Entry>): (ks: seq<string>)
    ensures |ks| == |o| && forall i | 0 <= i < |o| :: ks[i] == o[i].0
  {
    seq(|o|, i requires 0 <= i < |o| => o[i].0)
  }

  /** The set of key/value pairs of an object, forgetting their order. */
  function Contents(o: seq<Entry>): set<Entry> {
    set e | e in o
  }

  /** `o[k]`, None for a missing property. */
  function Get(o: seq<Entry>, k: string): (r: Option<string>)
    ensures r.Some? <==> k in Keys(o)
    ensures KeysDistinct(o) ==> forall i | 0 <= i < |o| && o[i].0 == k :: r == Some(o[i].1)
  {
    if |o| == 0 then None
    else if o[0].0 == k then Some(o[0].1)
    else
      assert Keys(o) == [o[0].0] + Keys(o[1..]);
      Get(o[1..], k)
  }

  predicate Has(o: seq<Entry>, k: string) {
    k in Keys(o)
  }

  lemma SuffixWellFormed(o: Obj, n: nat)
    requires n <= |o|
    ensures WellFormed(o[n..]) && WellFormed(o[..n])
  {
  }

  /** Where a new array-index key with value `n` goes: after the index keys not above it. */
  function IndexSlot(o: seq<Entry>, n: nat): (p: nat)
    ensures p <= |o|
    ensures forall i | 0 <= i < p :: IsArrayIndex(o[i].0) && DecimalValue(o[i].0) <= n
    ensures p < |o| ==> !(IsArrayIndex(o[p].0) && DecimalValue(o[p].0) <= n)
  {
    if |o| == 0 then 0
    else if IsArrayIndex(o[0].0) && DecimalValue(o[0].0) <= n then 1 + IndexSlot(o[1..], n)
    else 0
  }

  /** The value of an existing property replaced in place. */
  function Update(o: Obj, k: string, v: string): (r: Obj)
    ensures Keys(r) == Keys(o)
    ensures forall i | 0 <= i < |o| :: r[i] == if o[i].0 == k then (k, v) else o[i]
  {
    var r := seq(|o|, i requires 0 <= i < |o| => if o[i].0 == k then (k, v) else o[i]);
    assert forall i | 0 <= i < |o| :: r[i].0 == o[i].0;
    r
  }

  /** A new array-index property, placed by its numeric value. */
  function InsertIndexKey(o: Obj, k: string, v: string): (r: Obj)
    requires IsArrayIndex(k) && !Has(o, k)
    ensures exists p | 0 <= p <= |o| :: r == o[..p] + [(k, v)] + o[p..]
  {
    var p := IndexSlot(o, DecimalValue(k));
    InsertedKeysDistinct(o, k, v, p);
    InsertedInKeyOrder(o, k, v, p);
    o[..p] + [(k, v)] + o[p..]
  }

  lemma InsertedKeysDistinct(o: Obj, k: string, v: string, p: nat)
    requires !Has(o, k) && p <= |o|
    ensures KeysDistinct(o[..p] + [(k, v)] + o[p..])
  {
    var r := o[..p] + [(k, v)] + o[p..];
    forall i, j | 0 <= i < j < |r| ensures r[i].0 != r[j].0 {
      InsertedAt(o, (k, v), p, i);
      InsertedAt(o, (k, v), p, j);
      if i == p { assert o[j - 1].0 in Keys(o); }
      if j == p { assert o[i].0 in Keys(o); }
    }
  }

  lemma InsertedInKeyOrder(o: Obj, k: string, v: string, p: nat)
    requires IsArrayIndex(k) && p == IndexSlot(o, DecimalValue(k))
    ensures InKeyOrder(o[..p] + [(k, v)] + o[p..])
  {
    var r := o[..p] + [(k, v)] + o[p..];
    forall i, j | 0 <= i < j < |r| ensures KeyOrdered(r[i].0, r[j].0) {
      InsertedAt(o, (k, v), p, i);
      InsertedAt(o, (k, v), p, j);
      if i == p {
        InsertedBeforeLater(o, k, p, j - 1);
      } else if j == p {
        assert IsArrayIndex(o[i].0) && DecimalValue(o[i].0) <= DecimalValue(k);
      } else {
        var i' := if i < p then i else i - 1;
        var j' := if j < p then j else j - 1;
        assert i' < j' && KeyOrdered(o[i'].0, o[j'].0);
      }
    }
  }

  lemma InsertedAt(o: seq<Entry>, e: Entry, p: nat, i: nat)
    requires p <= |o| && i <= |o|
    ensures (o[..p] + [e] + o[p..])[i] == if i < p then o[i] else if i == p then e else o[i - 1]
  {
  }

  lemma InsertedBeforeLater(o: Obj, k: string, p: nat, j: nat)
    requires IsArrayIndex(k) && p == IndexSlot(o, DecimalValue(k)) && p <= j < |o|
    ensures KeyOrdered(k, o[j].0)
  {
    if IsArrayIndex(o[j].0) {
      if p < j {
        assert KeyOrdered(o[p].0, o[j].0);
      }
    }
  }

  /**
   * Defining property `k` with value `v` (`o[k] = v`, or `[k]: v` in an object
   * literal): an existing key keeps its place and takes the new value; a new
   * key goes where enumeration order puts it, at the end unless it is an array index.
   */
  function Set(o: Obj, k: string, v: string): (r: Obj)
    ensures forall k' :: Get(r, k') == if k' == k then Some(v) else Get(o, k')
    ensures Has(o, k) ==> Keys(r) == Keys(o)
    ensures !Has(o, k) ==> |r| == |o| + 1
    ensures !Has(o, k) && !IsArrayIndex(k) ==> r == o + [(k, v)]
  {
    if Has(o, k) then
      var r := Update(o, k, v);
      UpdateGet(o, k, v);
      r
    else
      var r := if IsArrayIndex(k) then InsertIndexKey(o, k, v) else o + [(k, v)];
      assert exists p | 0 <= p <= |o| :: r == o[..p] + [(k, v)] + o[p..] by {
        if !IsArrayIndex(k) { assert r == o[..|o|] + [(k, v)] + o[|o|..]; }
      }
      var p :| 0 <= p <= |o| && r == o[..p] + [(k, v)] + o[p..];
      InsertGet(o, k, v, p);
      r
  }

  lemma UpdateGet(o: Obj, k: string, v: string)
    requires Has(o, k)
    ensures forall k' :: Get(Update(o, k, v), k') == if k' == k then Some(v) else Get(o, k')
  {
    var r := Update(o, k, v);
    forall k' ensures Get(r, k') == if k' == k then Some(v) else Get(o, k') {
      if k' in Keys(o) {
        var i :| 0 <= i < |o| && o[i].0 == k';
        assert r[i].0 == k';
      }
    }
  }

  lemma InsertGet(o: Obj, k: string, v: string, p: nat)
    requires !Has(o, k) && p <= |o|
    requires WellFormed(o[..p] + [(k, v)] + o[p..])
    ensures forall k' :: Get(o[..p] + [(k, v)] + o[p..], k') == if k' == k then Some(v) else Get(o, k')
  {
    forall k' ensures Get(o[..p] + [(k, v)] + o[p..], k') == if k' == k then Some(v) else Get(o, k') {
      InsertGetAt(o, k, v, p, k');
    }
  }

  lemma InsertGetAt(o: Obj, k: string, v: string, p: nat, k': string)
    requires !Has(o, k) && p <= |o|
    requires KeysDistinct(o[..p] + [(k, v)] + o[p..])
    ensures Get(o[..p] + [(k, v)] + o[p..], k') == if k' == k then Some(v) else Get(o, k')
  {
    if k' == k {
      InsertedAt(o, (k, v), p, p);
    } else if k' in Keys(o) {
      var i :| 0 <= i < |o| && o[i].0 == k';
      InsertGetPresent(o, k, v, p, i);
    } else {
      InsertGetAbsent(o, k, v, p, k');
    }
  }

  lemma InsertGetPresent(o: Obj, k: string, v: string, p: nat, i: nat)
    requires !Has(o, k) && p <= |o| && i < |o|
    requires KeysDistinct(o[..p] + [(k, v)] + o[p..])
    ensures Get(o[..p] + [(k, v)] + o[p..], o[i].0) == Get(o, o[i].0)
  {
    var r := o[..p] + [(k, v)] + o[p..];
    var j := if i < p then i else i + 1;
    InsertedAt(o, (k, v), p, j);
    assert r[j] == o[i];
    assert Get(r, o[i].0) == Some(o[i].1);
    assert Get(o, o[i].0) == Some(o[i].1);
  }

  lemma InsertGetAbsent(o: Obj, k: string, v: string, p: nat, k': string)
    requires !Has(o, k) && p <= |o| && k' != k && k' !in Keys(o)
    ensures k' !in Keys(o[..p] + [(k, v)] + o[p..])
  {
    var r := o[..p] + [(k, v)] + o[p..];
    forall j | 0 <= j < |r| ensures r[j].0 != k' {
      InsertedAt(o, (k, v), p, j);
      if j < p { assert o[j].0 in Keys(o); }
      if j > p { assert o[j - 1].0 in Keys(o); }
    }
  }


  /** Defining a property loses no key: the object keeps every key it had and gains `k`. */
  lemma SetKeepsKeys(o: Obj, k: string, v: string)
    ensures Has(Set(o, k, v), k) && forall k' :: Has(o, k') ==> Has(Set(o, k, v), k')
    ensures |Set(o, k, v)| >= |o|
  {
    var r := Set(o, k, v);
    assert Get(r, k).Some?;
    forall k' | Has(o, k') ensures Has(r, k') {
      assert Get(o, k').Some?;
      assert Get(r, k').Some?;
    }
    if Has(o, k) {
      assert |Keys(r)| == |Keys(o)|;
    }
  }

  /**
   * A new key is inserted into the list without moving the others: at the
   * end for an ordinary key, by numeric value for an array index.
   */
  lemma SetPlacesNewKey(o: Obj, k: string, v: string)
    requires !Has(o, k)
    ensures exists p | 0 <= p <= |o| :: Set(o, k, v) == o[..p] + [(k, v)] + o[p..]
  {
    if IsArrayIndex(k) {
      assert Set(o, k, v) == InsertIndexKey(o, k, v);
    } else {
      assert Set(o, k, v) == o[..|o|] + [(k, v)] + o[|o|..];
    }
  }

  /**
   * The object literal `{...a, ...b}`: the properties of `a`, then those of
   * `b` defined in turn, so a key of `b` that `a` already has keeps its place
   * and takes `b`'s value.
   */
  function Spread(a: Obj, b: Obj): (r: Obj)
    ensures forall k :: Get(r, k) == if Has(b, k) then Get(b, k) else Get(a, k)
    decreases |b|
  {
    if |b| == 0 then a
    else
      SuffixWellFormed(b, 1);
      var r := Spread(Set(a, b[0].0, b[0].1), b[1..]);
      assert Keys(b) == [b[0].0] + Keys(b[1..]);
      assert b[0].0 !in Keys(b[1..]);
      r
  }

  lemma {:induction false} SetAfterIndexKeys(o: Obj, n: nat)
    requires n < |o|
    ensures Set(o[..n], o[n].0, o[n].1) == o[..n + 1]
  {
    SuffixWellFormed(o, n);
    SuffixWellFormed(o, n + 1);
    var k := o[n].0;
    assert !Has(o[..n], k);
    if IsArrayIndex(k) {
      assert forall i | 0 <= i < n :: KeyOrdered(o[i].0, k);
      IndexSlotPastAll(o[..n], DecimalValue(k));
      assert o[..n][..n] + [o[n]] + o[..n][n..] == o[..n + 1];
    } else {
      assert o[..n] + [o[n]] == o[..n + 1];
    }
  }

  lemma {:induction false} IndexSlotPastAll(s: seq<Entry>, n: nat)
    requires forall i | 0 <= i < |s| :: IsArrayIndex(s[i].0) && DecimalValue(s[i].0) <= n
    ensures IndexSlot(s, n) == |s|
  {
    if |s| > 0 {
      IndexSlotPastAll(s[1..], n);
    }
  }

  lemma {:induction false} SpreadRebuilds(o: Obj, n: nat)
    requires n <= |o|
    ensures WellFormed(o[..n]) && WellFormed(o[n..])
    ensures Spread(o[..n], o[n..]) == o
    decreases |o| - n
  {
    SuffixWellFormed(o, n);
    if n == |o| {
      assert o[..n] == o;
    } else {
      SuffixWellFormed(o, n + 1);
      SetAfterIndexKeys(o, n);
      assert o[n..][0] == o[n];
      assert o[n..][1..] == o[n + 1..];
      SpreadRebuilds(o, n + 1);
    }
  }

  /** `{...o}` is a copy of `o`, in the same order. */
  lemma SpreadIntoEmpty(o: Obj)
    ensures Spread([], o) == o
  {
    SpreadRebuilds(o, 0);
    assert o[..0] == [];
    assert o[0..] == o;
  }

  /**
   * `{...a, ...b}` where `b` has no array-index key: the keys of `a` come
   * first, in their own order, and `b` only adds keys after them.
   */
  lemma {:induction false} SpreadKeepsPrefix(a: Obj, b: Obj)
    requires forall i | 0 <= i < |b| :: !IsArrayIndex(b[i].0)
    ensures |Spread(a, b)| >= |a| && Keys(Spread(a, b))[..|a|] == Keys(a)
    decreases |b|
  {
    if |b| > 0 {
      SuffixWellFormed(b, 1);
      var a' := Set(a, b[0].0, b[0].1);
      assert |a'| >= |a| && Keys(a')[..|a|] == Keys(a) by {
        if !Has(a, b[0].0) {
          assert a' == a + [b[0]];
        }
      }
      assert forall i | 0 <= i < |b| - 1 :: b[1..][i] == b[i + 1];
      SpreadKeepsPrefix(a', b[1..]);
      assert Spread(a, b) == Spread(a', b[1..]);
      var ks := Keys(Spread(a', b[1..]));
      assert ks[..|a|] == ks[..|a'|][..|a|];
    }
  }

  /** Two objects with the same keys and values have the same contents. */
  lemma SameGetSameContents(a: Obj, b: Obj)
    requires forall k :: Get(a, k) == Get(b, k)
    ensures Contents(a) == Contents(b)
  {
    forall e | e in Contents(a) ensures e in Contents(b) {
      var i :| 0 <= i < |a| && a[i] == e;
      assert Get(a, e.0) == Some(e.1);
      var j :| 0 <= j < |b| && b[j].0 == e.0;
    }
    forall e | e in Contents(b) ensures e in Contents(a) {
      var i :| 0 <= i < |b| && b[i] == e;
      assert Get(b, e.0) == Some(e.1);
      var j :| 0 <= j < |a| && a[j].0 == e.0;
    }
  }
}
