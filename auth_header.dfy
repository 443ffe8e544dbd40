/**
 * The `Authorization` header of src/server/auth.ts: `createOAuth` writes the
 * OAuth parameters as `OAuth key="value",...`, and `createToken` signs the
 * request parameters together with the query and adds the signature as
 * `oauth_signature`. `ParseOAuthHeader` is a reader of what this code
 * writes: it splits on `,` and `=` and percent-decodes the quoted values.
 */
module AuthHeader {
  import opened Wrappers
  import opened Strings
  import opened Uri
  import opened JsObject
  import opened Signature

  /** `${key}="${encodeURIComponent(value.toString())}"` for one parameter. */
  function HeaderField(e: Entry): string {
    e.0 + "=\"" + EncodeURIComponent(e.1) + "\""
  }

  function HeaderFields(params: seq<Entry>): (fs: seq<string>)
    ensures |fs| == |params|
    ensures forall i | 0 <= i < |params| :: fs[i] == HeaderField(params[i])
  {
    seq(|params|, i requires 0 <= i < |params| => HeaderField(params[i]))
  }

  /** `createOAuth(params)`: the fields in enumeration order, joined by `,`, after `OAuth `. */
  function CreateOAuth(params: Obj): (r: string)
    ensures |r| >= 6 && r[..6] == "OAuth "
  {
    "OAuth " + Join(HeaderFields(params), ',')
  }

  /** One `key="value"` field: the key up to `=`, the value quoted and percent-decoded. */
  function ParseField(f: string): Option<Entry> {
    var kv := Split(f, '=');
    if |kv| != 2 then None
    else
      var q := kv[1];
      if |q| < 2 || q[0] != '"' || q[|q| - 1] != '"' then None
      else match DecodeURIComponent(q[1..|q| - 1])
        case Some(v) => Some((kv[0], v))
        case None => None
  }

  function ParseFields(fs: seq<string>): Option<seq<Entry>> {
    if |fs| == 0 then Some([])
    else match (ParseField(fs[0]), ParseFields(fs[1..]))
      case (Some(e), Some(es)) => Some([e] + es)
      case _ => None
  }

  /** Reads an `OAuth ...` header back into its parameters, in the order written. */
  function ParseOAuthHeader(h: string): Option<seq<Entry>> {
    if |h| < 6 || h[..6] != "OAuth " then None
    else if |h| == 6 then Some([])
    else ParseFields(Split(h[6..], ','))
  }

  /** A key the header can carry unambiguously: the source writes keys without escaping them. */
  predicate HeaderSafeKey(k: string) {
    ',' !in k && '=' !in k
  }

  lemma SplitField(k: string, enc: string)
    requires '=' !in k && '=' !in enc
    ensures Split(k + "=\"" + enc + "\"", '=') == [k, "\"" + enc + "\""]
  {
    var q := "\"" + enc + "\"";
    assert k + "=\"" + enc + "\"" == k + ['='] + q;
    SplitPair(k, q, '=');
  }

  lemma Unquote(enc: string)
    ensures var q := "\"" + enc + "\"";
      |q| >= 2 && q[0] == '"' && q[|q| - 1] == '"' && q[1..|q| - 1] == enc
  {
  }

  lemma FieldRoundTrip(e: Entry)
    requires HeaderSafeKey(e.0)
    ensures ParseField(HeaderField(e)) == Some(e)
    ensures ',' !in HeaderField(e) && |HeaderField(e)| > 0
  {
    FieldParses(e);
    EscapedHasNoSeparators(EncodeURIComponent(e.1));
  }

  lemma FieldParses(e: Entry)
    requires '=' !in e.0
    ensures ParseField(HeaderField(e)) == Some(e)
  {
    var enc := EncodeURIComponent(e.1);
    var q := "\"" + enc + "\"";
    assert Split(HeaderField(e), '=') == [e.0, q] by {
      EscapedHasNoSeparators(enc);
      SplitField(e.0, enc);
    }
    assert |q| >= 2 && q[0] == '"' && q[|q| - 1] == '"' && q[1..|q| - 1] == enc by {
      Unquote(enc);
    }
    assert DecodeURIComponent(enc) == Some(e.1) by {
      DecodeEncode(e.1);
    }
  }

  lemma ParseHeaderFields(params: seq<Entry>)
    requires forall i | 0 <= i < |params| :: HeaderSafeKey(params[i].0)
    ensures ParseFields(HeaderFields(params)) == Some(params)
  {
    var fs := HeaderFields(params);
    forall i | 0 <= i < |fs| ensures ParseField(fs[i]) == Some(params[i]) {
      FieldParses(params[i]);
    }
    ParseEachField(fs, params);
  }

  lemma {:induction false} ParseEachField(fs: seq<string>, es: seq<Entry>)
    requires |fs| == |es| && forall i | 0 <= i < |fs| :: ParseField(fs[i]) == Some(es[i])
    ensures ParseFields(fs) == Some(es)
  {
    if |fs| > 0 {
      assert [es[0]] + es[1..] == es;
      assert forall i | 0 <= i < |fs| - 1 :: fs[1..][i] == fs[i + 1] && es[1..][i] == es[i + 1];
      ParseEachField(fs[1..], es[1..]);
    }
  }

  /**
   * Round trip: when no key holds `,` or `=`, the header reads back as the
   * parameters it was written from, in the same order, with their values.
   */
  lemma CreateOAuthRoundTrip(params: Obj)
    requires forall i | 0 <= i < |params| :: HeaderSafeKey(params[i].0)
    ensures ParseOAuthHeader(CreateOAuth(params)) == Some(params)
  {
    var fs := HeaderFields(params);
    var h := CreateOAuth(params);
    assert h[6..] == Join(fs, ',');
    ParseHeaderFields(params);
    if |params| > 0 {
      forall i | 0 <= i < |fs| ensures ',' !in fs[i] {
        FieldRoundTrip(params[i]);
      }
      SplitJoin(fs, ',');
      assert |Join(fs, ',')| >= |fs[0]| > 0;
    }
  }

  /** Every key the reader accepts is safe: it comes from between separators. */
  lemma {:induction false} ParsedFieldKeysSafe(fs: seq<string>)
    requires forall i | 0 <= i < |fs| :: ',' !in fs[i]
    ensures ParseFields(fs).Some? ==>
      forall i | 0 <= i < |ParseFields(fs).value| :: HeaderSafeKey(ParseFields(fs).value[i].0)
  {
    if |fs| > 0 && ParseFields(fs).Some? {
      assert forall i | 0 <= i < |fs| - 1 :: fs[1..][i] == fs[i + 1];
      ParsedFieldKeysSafe(fs[1..]);
      SplitPiecesAvoid(fs[0], '=', ',');
      assert ParseField(fs[0]).value.0 == Split(fs[0], '=')[0];
    }
  }

  /** A header that reads back at all reads back with keys free of `,` and `=`. */
  lemma ParsedKeysSafe(h: string)
    ensures ParseOAuthHeader(h).Some? ==>
      forall i | 0 <= i < |ParseOAuthHeader(h).value| :: HeaderSafeKey(ParseOAuthHeader(h).value[i].0)
  {
    if |h| > 6 && h[..6] == "OAuth " {
      ParsedFieldKeysSafe(Split(h[6..], ','));
    }
  }

  /**
   * Both directions: the header reads back as its parameters exactly when no
   * key holds `,` or `=`. A `,` in a key cuts a field short and an `=` gives
   * it three pieces.
   */
  lemma CreateOAuthRoundTripIff(params: Obj)
    ensures ParseOAuthHeader(CreateOAuth(params)) == Some(params)
        <==> forall i | 0 <= i < |params| :: HeaderSafeKey(params[i].0)
  {
    ParsedKeysSafe(CreateOAuth(params));
    if forall i | 0 <= i < |params| :: HeaderSafeKey(params[i].0) {
      CreateOAuthRoundTrip(params);
    }
  }

  /** The key `createToken` adds. */
  const SignatureKey: string := "oauth_signature"

  /**
   * `createToken(consumerSecret, oauthSecret)(url, method, params, query)`:
   * the signature covers `{...params, ...query}`; the header carries
   * `{...params, oauth_signature}`. A call without a query passes `[]`.
   */
  function CreateToken(crypto: Crypto, consumerSecret: string, oauthSecret: string,
                       url: string, httpMethod: string, params: Obj, query: Obj): string
  {
    var signed := Spread(Spread([], params), query);
    var signature := CreateSignature(crypto, consumerSecret, oauthSecret, url, httpMethod, signed);
    CreateOAuth(Set(Spread([], params), SignatureKey, signature))
  }

  lemma SignatureKeySafe()
    ensures HeaderSafeKey(SignatureKey) && !IsArrayIndex(SignatureKey)
  {
    assert !IsDigit(SignatureKey[0]);
  }

  lemma SetKeepsKeysSafe(o: Obj, k: string, v: string)
    requires forall i | 0 <= i < |o| :: HeaderSafeKey(o[i].0)
    requires HeaderSafeKey(k)
    ensures forall i | 0 <= i < |Set(o, k, v)| :: HeaderSafeKey(Set(o, k, v)[i].0)
  {
    var r := Set(o, k, v);
    forall i | 0 <= i < |r| ensures HeaderSafeKey(r[i].0) {
      var key := r[i].0;
      assert key in Keys(r);
      assert Get(r, key).Some?;
      if key != k {
        assert key in Keys(o);
        var j :| 0 <= j < |o| && Keys(o)[j] == key;
        assert o[j].0 == key;
      }
    }
  }

  /**
   * The token header reads back as `params` with `oauth_signature` set to the
   * signature of the merged parameters: any object `merged` that has the
   * query's value for each query key and the params' value for every other
   * key signs the same. A query key is therefore signed, with the query's
   * value where both define it, and is not written into the header.
   */
  lemma TokenHeader(crypto: Crypto, consumerSecret: string, oauthSecret: string,
                    url: string, httpMethod: string, params: Obj, query: Obj, merged: Obj)
    requires forall i | 0 <= i < |params| :: HeaderSafeKey(params[i].0)
    requires forall k :: Get(merged, k) == if Has(query, k) then Get(query, k) else Get(params, k)
    ensures ParseOAuthHeader(CreateToken(crypto, consumerSecret, oauthSecret, url, httpMethod, params, query))
         == Some(Set(params, SignatureKey, CreateSignature(crypto, consumerSecret, oauthSecret, url, httpMethod, merged)))
  {
    SpreadIntoEmpty(params);
    var signed := Spread(params, query);
    assert forall k :: Get(signed, k) == Get(merged, k);
    SignatureOrderIndependent(crypto, consumerSecret, oauthSecret, url, httpMethod, signed, merged);
    var sig := CreateSignature(crypto, consumerSecret, oauthSecret, url, httpMethod, merged);
    assert CreateToken(crypto, consumerSecret, oauthSecret, url, httpMethod, params, query)
        == CreateOAuth(Set(params, SignatureKey, sig));
    SignatureKeySafe();
    SetKeepsKeysSafe(params, SignatureKey, sig);
    CreateOAuthRoundTrip(Set(params, SignatureKey, sig));
  }

  /**
   * The header holds exactly the keys of `params` and `oauth_signature`; when
   * `params` has no signature yet, the signature is appended last.
   */
  lemma TokenHeaderKeys(crypto: Crypto, consumerSecret: string, oauthSecret: string,
                        url: string, httpMethod: string, params: Obj, query: Obj)
    requires forall i | 0 <= i < |params| :: HeaderSafeKey(params[i].0)
    ensures var h := ParseOAuthHeader(CreateToken(crypto, consumerSecret, oauthSecret, url, httpMethod, params, query));
      h.Some? && forall k :: Has(h.value, k) <==> Has(params, k) || k == SignatureKey
    ensures !Has(params, SignatureKey) ==>
      var sig := CreateSignature(crypto, consumerSecret, oauthSecret, url, httpMethod, Spread(params, query));
      ParseOAuthHeader(CreateToken(crypto, consumerSecret, oauthSecret, url, httpMethod, params, query))
        == Some(params + [(SignatureKey, sig)])
  {
    var merged := Spread(params, query);
    TokenHeader(crypto, consumerSecret, oauthSecret, url, httpMethod, params, query, merged);
    var sig := CreateSignature(crypto, consumerSecret, oauthSecret, url, httpMethod, merged);
    var r := Set(params, SignatureKey, sig);
    forall k ensures Has(r, k) <==> Has(params, k) || k == SignatureKey {
      assert Get(r, k).Some? <==> Has(r, k);
    }
    SignatureKeySafe();
  }
}
