# OAuth 1.0a request signing and query strings, modelled in Dafny

This project models the two pure cores of a small Twitter client/server
(`hashtag-list`).

**OAuth signer (`src/server/auth.ts`)**
- `encode` is the OAuth percent-encoder: `encodeURIComponent`, then the first `!` becomes `%21`.
- `createSignature` builds the signature inputs and the signature:
  - the normalised parameter string: each key and value encoded, pairs sorted by encoded key, written `k=v` and joined by `&`;
  - the signature base string `method&encode(url)&encode(params)`;
  - the signing key `encode(consumerSecret)&encode(oauthSecret)`;
  - the HMAC-SHA1 of the base string under that key, written in base64.
- `createOAuth` writes the `Authorization: OAuth k="v",...` header.
- `createToken` signs `{...params, ...query}` and puts `{...params, oauth_signature}` in the header.

**Query-string codec (`src/utils.ts`)**
- `querySplit` parses `k=v&...` into an object. A later segment with the same key overrides an earlier one.
- `queryBuilder` writes an object as `?k=v&...`.
- Reading back what `queryBuilder` wrote, after `slice(1)`, gives the object back only when it has at least one key. `{}` is written as "", and "" reads as `{"": "undefined"}` (`Query.QueryRoundTripEmpty`).

The model is written in Dafny's functional style, because both source files are expression pipelines with no state.

| file | module | models |
|---|---|---|
| `wrappers.dfy` | `Wrappers` | `Option` (None stands for a thrown exception) |
| `strings.dfy` | `Strings` | `split`, `join`, `replace` with a one-character pattern, string `<` |
| `uri.dfy` | `Uri` | `encodeURIComponent` and `decodeURIComponent` (Encode and Decode of ECMA-262, section 19.2.6), with UTF-8 |
| `js_object.dfy` | `JsObject` | plain objects as an ordered list of properties, property definition and object spread |
| `oauth_encode.dfy` | `OAuthEncode` | `encode`, and how it compares with the encoding of section 3.6 of RFC 5849 |
| `key_sort.dfy` | `KeySort` | the `sort` with the comparator `a[0] > b[0] ? 1 : -1` |
| `signature.dfy` | `Signature` | `createSignature`: parameter string, base string, key, signature |
| `auth_header.dfy` | `AuthHeader` | `createOAuth` and `createToken`, and a reader of the header they write |
| `query.dfy` | `Query` | `querySplit` and `queryBuilder` |
| `query_examples.dfy` | `QueryExamples` | two behaviours of the codec: a repeated key, and a key holding `=` |

A JavaScript object is a list of `(key, value)` pairs with distinct keys, kept in the order ECMAScript enumerates them.
- Keys that are array indices come first, in ascending numeric order.
- The other keys follow in creation order.
- So `Object.entries(o)` is the list itself.

`Set(o, k, v)` is property definition: an existing key keeps its place and takes the new value; a new key goes where enumeration order puts it. `Spread(a, b)` is `{...a, ...b}`: `Set` applied to each property of `b` in turn.

Property values are modelled by the string that `toString()` gives for them.

HMAC-SHA1 and base64 come from Node's `crypto` module. The model receives them as a `Crypto` value holding two functions. Node turns the key and the base string into bytes with UTF-8, so the model passes `Utf8String` of each.

Where the code departs from RFC 5849, the model follows the code:
- `encode` leaves `*`, `'`, `(`, `)` and every `!` after the first one unescaped. `OAuthEncode.EncodeAgreesWithRfc5849Iff` states exactly which strings `encode` handles the same way as section 3.6 of RFC 5849.
- The sort compares encoded names only, where the RFC compares names and then values. The keys of an object are distinct, so two pairs never share a name and the difference never shows (`Signature.EncodedKeysUnique`).
- The header does not encode keys, and encodes values with plain `encodeURIComponent`. The header reads back exactly when no key holds `,` or `=` (`AuthHeader.CreateOAuthRoundTripIff`, both directions).

## Model

| member | source | states |
|---|---|---|
| `OAuthEncode.Encode` | src/server/auth.ts:11 | the output is escaped text: only `encodeURIComponent`'s unreserved characters and `%XY` escapes with two upper-case hex digits, so it never holds `&` or `=` |
| `OAuthEncode.EncodeIsCharByChar` | src/server/auth.ts:11 | `encodeURIComponent` followed by `replace('!', '%21')` equals a character-by-character encoder in which only the first `!` becomes `%21` |
| `OAuthEncode.EncodeAsciiChar` | src/server/auth.ts:11 | on ASCII: letters, digits and `- _ . ~ * ' ( )` stay as they are; the first `!` becomes `%21` and later ones stay; every other character becomes `%` and two upper-case hex digits |
| `OAuthEncode.EncodeFromAfterBang` | src/server/auth.ts:11 | after the first `!`, the output is exactly `encodeURIComponent`'s |
| `OAuthEncode.EncodeRoundTrip` | src/server/auth.ts:11 | `decodeURIComponent(encode(s))` gives back `s` for every string |
| `OAuthEncode.EncodeInjective` | src/server/auth.ts:11 | different strings have different encodings |
| `OAuthEncode.EncodeAgreesWithRfc5849Iff` | src/server/auth.ts:11 | `encode(s)` equals the RFC 5849 section 3.6 encoding of `s` if and only if `s` has no `*`, `'`, `(`, `)` and at most one `!` |
| `OAuthEncode.SecondBangKept` | src/server/auth.ts:11 | for RFC 5849-unreserved `a`, `b`: `encode` writes `a!b!` as `a%21b!`, where RFC 5849 writes `a%21b%21` |
| `OAuthEncode.ApostropheKept` | src/server/auth.ts:11 | for RFC 5849-unreserved `a`, `b`: `encode` keeps `a'b`, where RFC 5849 writes `a%27b` |
| `Uri.EncodeURIComponent` | src/server/auth.ts:32 | `encodeURIComponent` always produces escaped text |
| `Uri.EncodeCharAscii` | src/utils.ts:17 | `encodeURIComponent` keeps the ASCII unreserved characters `A-Z a-z 0-9 - _ . ! ~ * ' ( )` and writes every other ASCII character as `%` and two upper-case hex digits |
| `Uri.EscapedHasNoSeparators` | src/utils.ts:17 | escaped text holds none of `& = , " ?` |
| `Uri.Utf8RoundTrip` | src/server/auth.ts:11 | the UTF-8 octets `encodeURIComponent` writes for a non-ASCII character have the length their lead octet announces, and decode back to that character |
| `Uri.DecodeURIComponent` | src/utils.ts:6 | text without `%` decodes to itself; a successful decoding is never longer than its input |
| `Uri.DecodeEncode` | src/utils.ts:6 | `decodeURIComponent(encodeURIComponent(s))` gives back `s` |
| `Uri.DecodeNeedsWellFormedEscapes` | src/utils.ts:6 | `decodeURIComponent` succeeds only if every `%` is followed by two hex digits |
| `Uri.DecodeNeedsWellFormedEscapesContra` | src/utils.ts:6 | a `%` without two hex digits after it makes `decodeURIComponent` fail |
| `Uri.DecodeRejects` | src/utils.ts:6 | these inputs fail to decode: a truncated escape (`%`, `a%2`), non-hex digits (`%zz`), an invalid lead octet (`%FF`), an overlong form (`%C0%AF`), and a truncated multi-octet sequence (`%E3%81`) |
| `JsObject.Set` | src/utils.ts:6 | after defining `k`: reading `k` gives the new value and every other key reads as before; an existing key keeps its place; a new key adds one property, at the end when it is not an array index |
| `JsObject.SetPlacesNewKey` | src/utils.ts:6 | defining a new key inserts it at one position and leaves every other property where it was, in the same order |
| `JsObject.SetKeepsKeys` | src/utils.ts:6 | defining `k` keeps every key the object had and adds `k`, so the object never shrinks |
| `JsObject.Spread` | src/server/auth.ts:44-49 | in `{...a, ...b}` every key reads as `b`'s value when `b` has the key, and as `a`'s value otherwise |
| `JsObject.SpreadKeepsPrefix` | src/server/auth.ts:44-49 | in `{...a, ...b}` with no array-index key in `b`, the keys of `a` come first, in their own order |
| `JsObject.SpreadIntoEmpty` | src/server/auth.ts:45 | `{...o}` is `o`, with the same properties in the same order |
| `KeySort.Insert` | src/server/auth.ts:20 | inserting an element adds exactly that element to the multiset |
| `KeySort.Sort` | src/server/auth.ts:20 | the sort permutes its input |
| `KeySort.SortAscending` | src/server/auth.ts:20 | with distinct keys, the comparator `a[0] > b[0] ? 1 : -1` puts the pairs in strictly ascending key order |
| `KeySort.SortedUnique` | src/server/auth.ts:20 | two strictly ascending lists with the same elements are the same list, so the result does not depend on the engine's sort algorithm |
| `Signature.EncodedKeysUnique` | src/server/auth.ts:19-20 | the encoded keys of an object are pairwise distinct, so the comparator never sees a tie |
| `Signature.SortedPairsSpec` | src/server/auth.ts:18-20 | the sorted pairs are strictly ascending by encoded key, have one entry per property, and hold exactly the `[encode(key), encode(value)]` pairs of the properties |
| `Signature.ParamStringParses` | src/server/auth.ts:18-22 | the parameter string has one `k=v` segment per property: splitting on `&` and `=` and decoding gives back every property, and nothing else |
| `Signature.ParamStringSeparators` | src/server/auth.ts:18-22 | n properties give exactly n - 1 `&` in the parameter string |
| `Signature.ParamStringOrderIndependent` | src/server/auth.ts:18-22 | objects that read the same on every key give the same parameter string, whatever order their properties were created in |
| `Signature.BaseStringFields` | src/server/auth.ts:24 | the base string starts with the method and `&`; the rest splits on `&` into exactly `encode(url)` and `encode(params)`, which decode back to the URL and the parameter string |
| `Signature.BaseStringSplits` | src/server/auth.ts:24 | when the method has no `&`, the base string splits into exactly three fields: the method, `encode(url)` and `encode(params)` |
| `Signature.BaseStringSeparators` | src/server/auth.ts:24 | the base string has exactly two more `&` than the method |
| `Signature.SigningKey` | src/server/auth.ts:25 | the signing key has exactly one `&` |
| `Signature.SigningKeyFields` | src/server/auth.ts:25 | the key splits at its `&` into the two encoded secrets, which decode back; with an empty token secret, as in the request-token call, the key is `encode(consumerSecret)` followed by `&` |
| `Signature.SignatureOrderIndependent` | src/server/auth.ts:13-28 | the signature depends only on what each key reads as, not on the order the properties were created in |
| `AuthHeader.CreateOAuth` | src/server/auth.ts:30-33 | the header starts with `OAuth ` |
| `AuthHeader.FieldRoundTrip` | src/server/auth.ts:32 | a `key="encodeURIComponent(value)"` field has no `,`, and reads back as the key and value it was written from, when the key has no `,` or `=` |
| `AuthHeader.CreateOAuthRoundTrip` | src/server/auth.ts:30-33 | when no key holds `,` or `=`, the header reads back as the parameters, in enumeration order, with their values |
| `AuthHeader.ParsedKeysSafe` | src/server/auth.ts:30-33 | every key in a header that reads back holds neither `,` nor `=`, because the reader cuts keys at those characters |
| `AuthHeader.CreateOAuthRoundTripIff` | src/server/auth.ts:30-33 | the header reads back as its parameters if and only if no key holds `,` or `=` |
| `AuthHeader.TokenHeader` | src/server/auth.ts:38-51 | the token header reads back as `params` with `oauth_signature` set to the signature of the merged object, in which each key takes the query's value when the query has that key and the params' value otherwise |
| `AuthHeader.TokenHeaderKeys` | src/server/auth.ts:44-50 | the header holds exactly the keys of `params` and `oauth_signature`, so a query-only key never appears in it; when `params` has no `oauth_signature`, the header is `params` in order followed by the signature |
| `Query.Collect` | src/utils.ts:5-8 | every key of the accumulator is still in the result, the result is at least as large, and it is non-empty when there is at least one segment |
| `Query.QuerySplit` | src/utils.ts:1-8 | a successful parse never yields an empty object |
| `Query.SegmentParts` | src/utils.ts:4 | the key is the text before the first `=`; when there is an `=`, the segment starts with key, `=`, value, the value holds no `=`, and it ends at the end of the segment or at the second `=`; with no `=`, the key is the whole segment and the value is the string "undefined" |
| `Query.QuerySplitEmpty` | src/utils.ts:1-8 | `querySplit("")` is `{"": "undefined"}` |
| `Query.CollectLast` | src/utils.ts:5-7 | the last segment with a key decides that key's value |
| `Query.QuerySplitLastWins` | src/utils.ts:1-8 | the result has a key exactly when some segment has that key, and its value is the decoded value of the last such segment |
| `Query.QuerySplitFails` | src/utils.ts:6 | `querySplit` throws exactly when some segment's value fails to decode |
| `Query.QueryBuilder` | src/utils.ts:10-18 | the output is empty exactly when the object has no keys, and otherwise starts with `?` |
| `Query.FieldParts` | src/utils.ts:17 | a `key=encodeURIComponent(value)` field has no `&`, and its key and value read back when the key has no `&` or `=` |
| `Query.QueryBuilderSegments` | src/utils.ts:15-18 | after the `?`, the `&`-separated segments are one per property, in enumeration order, each the unencoded key followed by `=` and `encodeURIComponent(value)` |
| `Query.QueryBuilderSeparators` | src/utils.ts:16-18 | when no key holds `&`, n properties give exactly n - 1 `&` |
| `Query.QueryRoundTrip` | src/utils.ts:1-18 | for an object with at least one key, none of which holds `&` or `=`: `querySplit(queryBuilder(o).slice(1))` is `o` itself, in the same order |
| `Query.QueryRoundTripEmpty` | src/utils.ts:1-18 | for the object with no keys the trip fails: `queryBuilder({})` is "", and `querySplit("".slice(1))` is `{"": "undefined"}`, not `{}` |
| `QueryExamples.LaterDuplicateWins` | src/utils.ts:5-6 | for a key `k` and values `v1`, `v2` without `&` or `=` that decode: `querySplit("k=v1&k=v2")` is `{k: decode(v2)}` |
| `QueryExamples.UnsafeKeyMisread` | src/utils.ts:1-18 | for any value `v`, the key `a=b` (with `a`, `b` free of `&` and `=`) is written `?a=b=...` and read back as `{a: decode(b)}` |

## Left out

- `createNonce` and `randomAlpha`: they draw on `Math.random` and `Date.now` and have no output a contract can state.
- HMAC-SHA1 and base64: the model receives them as functions. It states what goes into them, not what they compute.
- `src/server/twitter.ts`, `src/server/main.ts` and `src/client/index.ts`:
  - these are HTTP requests, routing, environment configuration and DOM code;
  - they are not part of this model;
  - their calls only motivate the shapes used here, such as the empty token secret of the request-token call.
- Lone UTF-16 surrogates: model strings are sequences of Unicode scalar values, so lone surrogates cannot occur. `encodeURIComponent` would throw a URIError on them.
- String comparison: JavaScript compares UTF-16 code units, and the model compares characters. Encoded keys are ASCII, where the two orders agree.
- `toString()` on property values: each value is modelled as the string `toString()` returns.
- KeySort.Sort: assumes the engine returns the ascending permutation of the pairs. ECMA-262 (2024 edition, section 23.1.3.30, `Array.prototype.sort`) does not promise that for this comparator. A consistent comparator must give `a =CF a`, but `(a, b) => a[0] > b[0] ? 1 : -1` returns -1 when an element is compared with itself, which leaves the sort order implementation-defined. The model uses insertion sort. `KeySort.SortedUnique` shows that any algorithm returning an ascending order returns this same list.
- Property order in `querySplit`: `Query.QuerySplitLastWins` states which keys the result has and what each reads as. The order of keys in the result is stated only for the round trip, in `Query.QueryRoundTrip`.
- `Signature.CreateSignature`, `AuthHeader.CreateToken`, `Signature.ParamString` and `Signature.BaseString` carry no contract of their own. What they compute is stated by the lemmas about them in the table above.
