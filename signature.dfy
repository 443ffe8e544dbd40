/**
 * `createSignature` of src/server/auth.ts: the normalised parameter string,
 * the signature base string, the signing key and the HMAC-SHA1 signature
 * written in base64.
 */
module Signature {
  import opened Wrappers
  import opened Strings
  import opened Uri
  import opened JsObject
  import opened OAuthEncode
  import opened KeySort

  /** `[encode(key), encode(value)]` for one property. */
  function EncodePair(e: Entry): Pair {
    (Encode(e.0), Encode(e.1))
  }

  /** The encoded pairs of `Object.entries(opts)`, in enumeration order. */
  function EncodedPairs(opts: seq<Entry>): (ps: seq<Pair>)
    ensures |ps| == |opts|
    ensures forall i | 0 <= i < |opts| :: ps[i] == EncodePair(opts[i])
  {
    seq(|opts|, i requires 0 <= i < |opts| => EncodePair(opts[i]))
  }

  /** The encoded pairs after the sort by encoded key. */
  function SortedPairs(opts: Obj): seq<Pair> {
    Sort(EncodedPairs(opts))
  }

  /** `x.join('=')` on one pair. */
  function JoinPair(p: Pair): string {
    p.0 + "=" + p.1
  }

  function JoinPairs(ps: seq<Pair>): (segs: seq<string>)
    ensures |segs| == |ps|
    ensures forall i | 0 <= i < |ps| :: segs[i] == JoinPair(ps[i])
  {
    seq(|ps|, i requires 0 <= i < |ps| => JoinPair(ps[i]))
  }

  /** The normalised parameter string: `key=value` segments sorted by encoded key, joined by `&`. */
  function ParamString(opts: Obj): string {
    Join(JoinPairs(SortedPairs(opts)), '&')
  }

  /** Different properties never share an encoded key, so the comparator never sees a tie. */
  lemma EncodedKeysUnique(opts: Obj)
    ensures KeysDistinct(EncodedPairs(opts))
  {
    var ps := EncodedPairs(opts);
    forall i, j | 0 <= i < j < |ps| ensures ps[i].0 != ps[j].0 {
      if ps[i].0 == ps[j].0 {
        OAuthEncode.EncodeInjective(opts[i].0, opts[j].0);
      }
    }
  }

  lemma EncodedPairsElements(opts: seq<Entry>)
    ensures forall e :: EncodePair(e) in EncodedPairs(opts) <==> e in opts
  {
    var ps := EncodedPairs(opts);
    forall e ensures EncodePair(e) in ps <==> e in opts {
      if EncodePair(e) in ps {
        var i :| 0 <= i < |ps| && ps[i] == EncodePair(e);
        OAuthEncode.EncodeInjective(opts[i].0, e.0);
        OAuthEncode.EncodeInjective(opts[i].1, e.1);
      }
      if e in opts {
        var i :| 0 <= i < |opts| && opts[i] == e;
        assert ps[i] == EncodePair(e);
      }
    }
  }

  /**
   * The sorted pairs are the encodings of the properties, one each, in
   * strictly ascending order of encoded key.
   */
  lemma SortedPairsSpec(opts: Obj)
    ensures |SortedPairs(opts)| == |opts|
    ensures StrictlyAscending(SortedPairs(opts))
    ensures forall e :: EncodePair(e) in SortedPairs(opts) <==> e in opts
    ensures forall p :: p in SortedPairs(opts) <==> p in EncodedPairs(opts)
  {
    var ps := EncodedPairs(opts);
    assert |multiset(Sort(ps))| == |multiset(ps)|;
    EncodedKeysUnique(opts);
    SortAscending(ps);
    SortSameElements(ps);
    EncodedPairsElements(opts);
  }

  /** The property each of the pairs `ps` encodes. */
  lemma {:induction false} SourcesOf(opts: seq<Entry>, ps: seq<Pair>) returns (es: seq<Entry>)
    requires forall p | p in ps :: p in EncodedPairs(opts)
    ensures |es| == |ps|
    ensures forall i | 0 <= i < |ps| :: es[i] in opts && ps[i] == EncodePair(es[i])
  {
    if |ps| == 0 {
      es := [];
    } else {
      assert ps[0] in ps;
      var e := SourceOf(opts, ps[0]);
      var rest := SourcesOf(opts, ps[1..]);
      es := [e] + rest;
      forall i | 0 < i < |ps| ensures es[i] in opts && ps[i] == EncodePair(es[i]) {
        assert es[i] == rest[i - 1] && ps[i] == ps[1..][i - 1];
      }
    }
  }

  lemma SourceOf(opts: seq<Entry>, p: Pair) returns (e: Entry)
    requires p in EncodedPairs(opts)
    ensures e in opts && p == EncodePair(e)
  {
    var j :| 0 <= j < |opts| && EncodedPairs(opts)[j] == p;
    e := opts[j];
  }

  /**
   * The parameter string depends on the properties and not on their order:
   * two objects with the same keys and values sign the same string.
   */
  lemma ParamStringOrderIndependent(a: Obj, b: Obj)
    requires forall k :: Get(a, k) == Get(b, k)
    ensures ParamString(a) == ParamString(b)
  {
    SameGetSameContents(a, b);
    SortedPairsSpec(a);
    SortedPairsSpec(b);
    var sa, sb := SortedPairs(a), SortedPairs(b);
    forall p ensures p in sa <==> p in sb {
      if p in sa {
        var j :| 0 <= j < |a| && EncodedPairs(a)[j] == p;
        assert a[j] in Contents(a);
      }
      if p in sb {
        var j :| 0 <= j < |b| && EncodedPairs(b)[j] == p;
        assert b[j] in Contents(b);
      }
    }
    SortedUnique(sa, sb);
  }

  // ---------------------------------------------------------------- reading it back

  /** One `key=value` segment, both halves percent-decoded. */
  function ParseSegment(seg: string): Option<Entry> {
    var kv := Split(seg, '=');
    if |kv| != 2 then None
    else match (DecodeURIComponent(kv[0]), DecodeURIComponent(kv[1]))
      case (Some(k), Some(v)) => Some((k, v))
      case _ => None
  }

  function ParseSegments(segs: seq<string>): Option<seq<Entry>> {
    if |segs| == 0 then Some([])
    else match (ParseSegment(segs[0]), ParseSegments(segs[1..]))
      case (Some(e), Some(es)) => Some([e] + es)
      case _ => None
  }

  /** A reader of the parameter string this code writes: split on `&` and `=`, then decode. */
  function ParseParamString(s: string): Option<seq<Entry>> {
    if s == "" then Some([]) else ParseSegments(Split(s, '&'))
  }

  lemma SegmentOfPair(e: Entry)
    ensures Split(JoinPair(EncodePair(e)), '=') == [Encode(e.0), Encode(e.1)]
    ensures ParseSegment(JoinPair(EncodePair(e))) == Some(e)
    ensures '&' !in JoinPair(EncodePair(e)) && '=' in JoinPair(EncodePair(e))
  {
    var k, v := Encode(e.0), Encode(e.1);
    assert JoinPair(EncodePair(e)) == k + ['='] + v;
    assert (k + ['='] + v)[|k|] == '=';
    SplitPair(k, v, '=');
    EncodeRoundTrip(e.0);
    EncodeRoundTrip(e.1);
  }

  lemma ParseEncodedSegments(ps: seq<Pair>, es: seq<Entry>)
    requires |ps| == |es| && forall i | 0 <= i < |ps| :: ps[i] == EncodePair(es[i])
    ensures ParseSegments(JoinPairs(ps)) == Some(es)
  {
    var segs := JoinPairs(ps);
    forall i | 0 <= i < |segs| ensures ParseSegment(segs[i]) == Some(es[i]) {
      SegmentOfPair(es[i]);
    }
    ParseEachSegment(segs, es);
  }

  lemma {:induction false} ParseEachSegment(segs: seq<string>, es: seq<Entry>)
    requires |segs| == |es| && forall i | 0 <= i < |segs| :: ParseSegment(segs[i]) == Some(es[i])
    ensures ParseSegments(segs) == Some(es)
  {
    if |segs| > 0 {
      assert [es[0]] + es[1..] == es;
      assert forall i | 0 <= i < |segs| - 1 :: segs[1..][i] == segs[i + 1] && es[1..][i] == es[i + 1];
      ParseEachSegment(segs[1..], es[1..]);
    }
  }

  /**
   * Round trip: splitting the parameter string on `&` and `=` and decoding
   * gives back every property and nothing else, once each.
   */
  lemma ParamStringParses(opts: Obj)
    ensures ParseParamString(ParamString(opts)).Some?
    ensures |ParseParamString(ParamString(opts)).value| == |opts|
    ensures forall e :: e in ParseParamString(ParamString(opts)).value <==> e in opts
  {
    SortedPairsSpec(opts);
    var ps := SortedPairs(opts);
    var segs := JoinPairs(ps);
    var es := SourcesOf(opts, ps);
    ParseEncodedSegments(ps, es);
    forall i | 0 <= i < |segs| ensures '&' !in segs[i] {
      SegmentOfPair(es[i]);
    }
    if |opts| > 0 {
      SplitJoin(segs, '&');
      SegmentOfPair(es[0]);
      assert |Join(segs, '&')| >= |segs[0]| > 0;
    }
    forall e ensures e in es <==> e in opts {
      if e in es {
        var i :| 0 <= i < |es| && es[i] == e;
      }
      if e in opts {
        var i :| 0 <= i < |ps| && ps[i] == EncodePair(e);
        OAuthEncode.EncodeInjective(es[i].0, e.0);
        OAuthEncode.EncodeInjective(es[i].1, e.1);
      }
    }
  }

  /** n properties give n - 1 `&` separators. */
  lemma ParamStringSeparators(opts: Obj)
    requires |opts| >= 1
    ensures CountChar(ParamString(opts), '&') == |opts| - 1
  {
    SortedPairsSpec(opts);
    var ps := SortedPairs(opts);
    var es := SourcesOf(opts, ps);
    forall i | 0 <= i < |ps| ensures '&' !in JoinPairs(ps)[i] {
      SegmentOfPair(es[i]);
    }
    JoinCount(JoinPairs(ps), '&');
  }

  // ---------------------------------------------------------------- base string and key

  /** The signature base string `${method}&${encode(url)}&${encode(params)}`. */
  function BaseString(httpMethod: string, url: string, params: string): string {
    httpMethod + "&" + Encode(url) + "&" + Encode(params)
  }

  lemma RegroupFields(m: string, u: string, p: string)
    ensures m + "&" + u + "&" + p == (m + "&") + (u + "&" + p)
  {
  }

  /** After `m&`, two `&`-free fields joined by `&` split back into the two. */
  lemma FieldsAfter(m: string, u: string, p: string)
    requires '&' !in u && '&' !in p
    ensures |m + "&" + u + "&" + p| > |m|
    ensures (m + "&" + u + "&" + p)[..|m| + 1] == m + "&"
    ensures Split((m + "&" + u + "&" + p)[|m| + 1..], '&') == [u, p]
  {
    var head, tail := m + "&", u + "&" + p;
    RegroupFields(m, u, p);
    assert (head + tail)[..|m| + 1] == head && (head + tail)[|m| + 1..] == tail;
    SplitPair(u, p, '&');
  }

  /**
   * After the method and its `&`, the base string is two `&`-separated
   * fields that decode to the URL and to the parameter string.
   */
  lemma BaseStringFields(httpMethod: string, url: string, params: string)
    ensures |BaseString(httpMethod, url, params)| > |httpMethod|
    ensures BaseString(httpMethod, url, params)[..|httpMethod| + 1] == httpMethod + "&"
    ensures Split(BaseString(httpMethod, url, params)[|httpMethod| + 1..], '&') == [Encode(url), Encode(params)]
    ensures DecodeURIComponent(Encode(url)) == Some(url)
    ensures DecodeURIComponent(Encode(params)) == Some(params)
  {
    FieldsAfter(httpMethod, Encode(url), Encode(params));
    EncodeRoundTrip(url);
    EncodeRoundTrip(params);
  }

  /** With no `&` in the method, the base string splits into exactly its three fields. */
  lemma BaseStringSplits(httpMethod: string, url: string, params: string)
    requires '&' !in httpMethod
    ensures Split(BaseString(httpMethod, url, params), '&') == [httpMethod, Encode(url), Encode(params)]
  {
    var eu, ep := Encode(url), Encode(params);
    SplitTriple(httpMethod, eu, ep, '&');
  }

  /** The base string has exactly two `&` more than the method. */
  lemma BaseStringSeparators(httpMethod: string, url: string, params: string)
    ensures CountChar(BaseString(httpMethod, url, params), '&') == CountChar(httpMethod, '&') + 2
  {
    var eu, ep := Encode(url), Encode(params);
    assert BaseString(httpMethod, url, params) == httpMethod + ("&" + (eu + ("&" + ep)));
    CountCharConcat(httpMethod, "&" + (eu + ("&" + ep)), '&');
    CountCharConcat("&", eu + ("&" + ep), '&');
    CountCharConcat(eu, "&" + ep, '&');
    CountCharConcat("&", ep, '&');
  }

  /** The signing key `${encode(consumerSecret)}&${encode(oauthSecret)}`. */
  function SigningKey(consumerSecret: string, oauthSecret: string): (r: string)
    ensures CountChar(r, '&') == 1
  {
    var r := Encode(consumerSecret) + "&" + Encode(oauthSecret);
    CountCharConcat(Encode(consumerSecret) + "&", Encode(oauthSecret), '&');
    CountCharConcat(Encode(consumerSecret), "&", '&');
    r
  }

  /**
   * The key splits at its one `&` into the two encoded secrets; without a
   * token secret (a request-token call) it is the encoded consumer secret
   * followed by `&`.
   */
  lemma SigningKeyFields(consumerSecret: string, oauthSecret: string)
    ensures Split(SigningKey(consumerSecret, oauthSecret), '&') == [Encode(consumerSecret), Encode(oauthSecret)]
    ensures DecodeURIComponent(Encode(consumerSecret)) == Some(consumerSecret)
    ensures DecodeURIComponent(Encode(oauthSecret)) == Some(oauthSecret)
    ensures oauthSecret == "" ==> SigningKey(consumerSecret, oauthSecret) == Encode(consumerSecret) + "&"
  {
    var parts := [Encode(consumerSecret), Encode(oauthSecret)];
    assert Join(parts, '&') == SigningKey(consumerSecret, oauthSecret) by {
      assert parts[1..] == [Encode(oauthSecret)];
    }
    SplitJoin(parts, '&');
    EncodeRoundTrip(consumerSecret);
    EncodeRoundTrip(oauthSecret);
    if oauthSecret == "" {
      assert Encode("") == "";
    }
  }

  // ---------------------------------------------------------------- the signature

  /**
   * The two primitives of Node's `crypto` module the signature uses:
   * `hmacSha1(key, message)`, the HMAC-SHA1 digest of the message (second
   * argument) under the key (first argument), and the base64 text of a digest.
   */
  datatype Crypto = Crypto(hmacSha1: (seq<Byte>, seq<Byte>) -> seq<Byte>, base64: seq<Byte> -> string)

  /** What goes into the HMAC, in `hmacSha1`'s order: the UTF-8 bytes of the signing key, then of the base string. */
  function SignatureInputs(consumerSecret: string, oauthSecret: string, url: string, httpMethod: string, opts: Obj): (m: (seq<Byte>, seq<Byte>))
  {
    (Utf8String(SigningKey(consumerSecret, oauthSecret)), Utf8String(BaseString(httpMethod, url, ParamString(opts))))
  }

  /** `createSignature(consumerSecret, oauthSecret)(url, httpMethod, opts)`. */
  function CreateSignature(crypto: Crypto, consumerSecret: string, oauthSecret: string, url: string, httpMethod: string, opts: Obj): string {
    var m := SignatureInputs(consumerSecret, oauthSecret, url, httpMethod, opts);
    crypto.base64(crypto.hmacSha1(m.0, m.1))
  }

  /**
   * The signature depends on the keys and values of `opts` and not on the
   * order they were created in.
   */
  lemma SignatureOrderIndependent(crypto: Crypto, consumerSecret: string, oauthSecret: string, url: string, httpMethod: string, a: Obj, b: Obj)
    requires forall k :: Get(a, k) == Get(b, k)
    ensures CreateSignature(crypto, consumerSecret, oauthSecret, url, httpMethod, a)
         == CreateSignature(crypto, consumerSecret, oauthSecret, url, httpMethod, b)
  {
    ParamStringOrderIndependent(a, b);
  }
}
