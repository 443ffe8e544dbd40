/**
 * The `.sort((a, b) => (a[0] > b[0] ? 1 : -1))` of src/server/auth.ts:20 on
 * the `[key, value]` pairs of the parameter string. Array.prototype.sort
 * leaves its algorithm to the engine; this is insertion sort with the
 * source's comparator. That comparator is not consistent in the sense of
 * ECMA-262 (it answers -1 when an element is compared with itself), so the
 * language does not fix the order an engine returns. The model takes the
 * ascending order; `SortedUnique` shows that with distinct keys there is
 * only one strictly ascending permutation.
 */
module KeySort {
  import opened Strings
  import JsObject

  type Pair = (string, string)

  /** The comparator of the source: 1 when `a`'s key is the greater, -1 otherwise. */
  function Compare(a: Pair, b: Pair): int {
    if Less(b.0, a.0) then 1 else -1
  }

  /** Puts `x` before the first element it does not compare greater than. */
  function Insert(x: Pair, s: seq<Pair>): (r: seq<Pair>)
    ensures multiset(r) == multiset(s) + multiset{x}
  {
    if |s| == 0 then [x]
    else if Compare(x, s[0]) > 0 then
      assert s == [s[0]] + s[1..];
      [s[0]] + Insert(x, s[1..])
    else [x] + s
  }

  function Sort(s: seq<Pair>): (r: seq<Pair>)
    ensures multiset(r) == multiset(s)
  {
    if |s| == 0 then []
    else
      assert s == [s[0]] + s[1..];
      Insert(s[0], Sort(s[1..]))
  }

  predicate StrictlyAscending(s: seq<Pair>) {
    forall i, j | 0 <= i < j < |s| :: Less(s[i].0, s[j].0)
  }

  lemma {:induction false} InsertAscending(x: Pair, s: seq<Pair>)
    requires StrictlyAscending(s)
    requires forall p | p in s :: p.0 != x.0
    ensures StrictlyAscending(Insert(x, s))
  {
    if |s| > 0 {
      if Compare(x, s[0]) > 0 {
        assert forall p | p in s[1..] :: p in s;
        InsertAscending(x, s[1..]);
        InsertAfterHead(x, s);
      } else {
        InsertAtHead(x, s);
      }
    }
  }

  /** `x` goes after the head: the head is below everything that follows it. */
  lemma InsertAfterHead(x: Pair, s: seq<Pair>)
    requires StrictlyAscending(s) && |s| > 0 && Compare(x, s[0]) > 0
    requires StrictlyAscending(Insert(x, s[1..]))
    ensures StrictlyAscending(Insert(x, s))
  {
    var r := Insert(x, s[1..]);
    forall j | 0 <= j < |r| ensures Less(s[0].0, r[j].0) {
      InsertElement(x, s[1..], r[j]);
      if r[j] != x {
        HeadBelowRest(s, r[j]);
      }
    }
  }

  lemma InsertElement(x: Pair, s: seq<Pair>, p: Pair)
    requires p in Insert(x, s)
    ensures p == x || p in s
  {
    assert p in multiset(Insert(x, s));
  }

  lemma HeadBelowRest(s: seq<Pair>, p: Pair)
    requires StrictlyAscending(s) && |s| > 0 && p in s[1..]
    ensures Less(s[0].0, p.0)
  {
    var k :| 0 <= k < |s[1..]| && s[1..][k] == p;
    assert s[k + 1] == p;
  }

  /** `x` goes first: it is below the head and so below everything. */
  lemma InsertAtHead(x: Pair, s: seq<Pair>)
    requires StrictlyAscending(s) && |s| > 0 && Compare(x, s[0]) <= 0 && x.0 != s[0].0
    ensures StrictlyAscending(Insert(x, s))
  {
    LessTotal(x.0, s[0].0);
    forall j | 0 <= j < |s| ensures Less(x.0, s[j].0) {
      if j > 0 { LessTransitive(x.0, s[0].0, s[j].0); }
    }
  }

  /** With distinct keys, the sort puts the pairs in strictly ascending order of key. */
  lemma {:induction false} SortAscending(s: seq<Pair>)
    requires JsObject.KeysDistinct(s)
    ensures StrictlyAscending(Sort(s))
  {
    if |s| > 0 {
      SortAscending(s[1..]);
      forall p | p in Sort(s[1..]) ensures p.0 != s[0].0 {
        assert p in multiset(Sort(s[1..]));
        var k :| 0 <= k < |s[1..]| && s[1..][k] == p;
        assert s[k + 1] == p;
      }
      InsertAscending(s[0], Sort(s[1..]));
    }
  }

  lemma SortSameElements(s: seq<Pair>)
    ensures forall p :: p in Sort(s) <==> p in s
  {
    forall p ensures p in Sort(s) <==> p in s {
      assert p in Sort(s) <==> p in multiset(Sort(s));
      assert p in s <==> p in multiset(s);
    }
  }

  lemma NoElementsEmpty(s: seq<Pair>)
    ensures s == [] <==> forall p :: p !in s
  {
    if s != [] {
      assert s[0] in s;
    }
  }

  /** Two strictly ascending lists with the same elements are the same list. */
  lemma {:induction false} SortedUnique(a: seq<Pair>, b: seq<Pair>)
    requires StrictlyAscending(a) && StrictlyAscending(b)
    requires forall p :: p in a <==> p in b
    ensures a == b
  {
    if |a| == 0 {
      NoElementsEmpty(b);
    } else {
      assert a[0] in b;
      SameHead(a, b);
      forall p ensures p in a[1..] <==> p in b[1..] {
        if p in a[1..] { MovesToTail(a, b, p); }
        if p in b[1..] { MovesToTail(b, a, p); }
      }
      SortedUnique(a[1..], b[1..]);
      assert a == [a[0]] + a[1..] && b == [b[0]] + b[1..];
    }
  }

  /** The least element leads both lists. */
  lemma SameHead(a: seq<Pair>, b: seq<Pair>)
    requires StrictlyAscending(a) && StrictlyAscending(b) && |a| > 0 && |b| > 0
    requires forall p :: p in a <==> p in b
    ensures a[0] == b[0]
  {
    assert a[0] in b;
    assert b[0] in a;
    var i :| 0 <= i < |a| && a[i] == b[0];
    var j :| 0 <= j < |b| && b[j] == a[0];
    if i > 0 && j > 0 {
      LessAsymmetric(a[0].0, a[i].0);
    }
  }

  /** An element after the head of one list comes after the head of the other. */
  lemma MovesToTail(a: seq<Pair>, b: seq<Pair>, p: Pair)
    requires StrictlyAscending(a) && |a| > 0 && |b| > 0 && a[0] == b[0]
    requires forall q :: q in a <==> q in b
    requires p in a[1..]
    ensures p in b[1..]
  {
    HeadBelowRest(a, p);
    LessIrreflexive(p.0);
    assert p in a;
    var m :| 0 <= m < |b| && b[m] == p;
    assert b[1..][m - 1] == p;
  }
}
