/**
 * The OAuth percent-encoder `encode` of src/server/auth.ts:
 * `encodeURIComponent` followed by `.replace('!', '%21')`, which replaces
 * only the first `!`. It is compared with the percent-encoding of
 * section 3.6 of RFC 5849, which it matches only on some inputs.
 */
module OAuthEncode {
  import opened Wrappers
  import opened Strings
  import opened Uri

  /** `encode(str)`: escaped text, so it holds no `&` and no `=`. */
  function Encode(s: string): (r: string)
    ensures Escaped(r)
    ensures '&' !in r && '=' !in r
  {
    EncodeIsCharByChar(s);
    EscapedHasNoSeparators(EncodeFrom(s, false));
    ReplaceFirst(EncodeURIComponent(s), '!', "%21")
  }

  /**
   * What `encode` does, character by character: unreserved characters other
   * than `!` stay, the first `!` becomes `%21` and later ones stay, and every
   * other character becomes the escapes of its UTF-8 octets.
   */
  function EncodeFrom(s: string, bangSeen: bool): (r: string)
    ensures Escaped(r)
  {
    if |s| == 0 then ""
    else
      var block := if s[0] == '!' && !bangSeen then "%21" else EncodeChar(s[0]);
      var rest := EncodeFrom(s[1..], bangSeen || s[0] == '!');
      BangEscaped();
      EscapedConcat(block, rest);
      block + rest
  }

  lemma BangEscaped()
    ensures Escaped("%21")
  {
  }

  lemma {:induction false} PercentOctetsChars(bs: seq<Byte>)
    ensures forall i | 0 <= i < |PercentOctets(bs)| :: PercentOctets(bs)[i] == '%' || IsUpperHex(PercentOctets(bs)[i])
  {
    if |bs| > 0 {
      PercentOctetsChars(bs[1..]);
    }
  }

  lemma NoBangInEncodeChar(c: char)
    requires c != '!'
    ensures '!' !in EncodeChar(c)
  {
    if !IsUnreserved(c) {
      PercentOctetsChars(Utf8(c));
    }
  }

  /** After the first `!`, `encode` writes what `encodeURIComponent` writes. */
  lemma {:induction false} EncodeFromAfterBang(s: string)
    ensures EncodeFrom(s, true) == EncodeURIComponent(s)
  {
    if |s| > 0 {
      EncodeFromAfterBang(s[1..]);
    }
  }

  /** `encode` is the character-by-character encoder above. */
  lemma {:induction false} EncodeIsCharByChar(s: string)
    ensures ReplaceFirst(EncodeURIComponent(s), '!', "%21") == EncodeFrom(s, false)
  {
    if |s| > 0 {
      var rest := EncodeURIComponent(s[1..]);
      if s[0] == '!' {
        assert EncodeURIComponent(s) == "!" + rest;
        EncodeFromAfterBang(s[1..]);
      } else {
        NoBangInEncodeChar(s[0]);
        ReplaceFirstAfter(EncodeChar(s[0]), rest, '!', "%21");
        EncodeIsCharByChar(s[1..]);
      }
    }
  }

  /** On ASCII: letters, digits and `- _ . ~ * ' ( )` stay, the first `!` is `%21`, the rest `%XY`. */
  lemma EncodeAsciiChar(c: char, bangSeen: bool)
    requires c as int < 0x80
    ensures EncodeFrom([c], bangSeen) ==
      if c == '!' then (if bangSeen then "!" else "%21")
      else if IsUnreserved(c) then [c]
      else ['%', HexDigit(c as int / 16), HexDigit(c as int % 16)]
  {
    EncodeCharAscii(c);
  }

  lemma {:induction false} DecodeEncodeFrom(s: string, bangSeen: bool)
    ensures DecodeURIComponent(EncodeFrom(s, bangSeen)) == Some(s)
  {
    if |s| > 0 {
      var c := s[0];
      var seen := bangSeen || c == '!';
      DecodeEncodeFrom(s[1..], seen);
      var rest := EncodeFrom(s[1..], seen);
      if c == '!' && !bangSeen {
        BangEscapes();
        DecodeOctetsThen(c, rest);
      } else if IsUnreserved(c) {
        DecodeLiteralThen(c, rest);
      } else {
        DecodeOctetsThen(c, rest);
      }
      assert [c] + s[1..] == s;
    }
  }

  /** Round trip: `decodeURIComponent(encode(s)) === s`. */
  lemma EncodeRoundTrip(s: string)
    ensures DecodeURIComponent(Encode(s)) == Some(s)
  {
    EncodeIsCharByChar(s);
    DecodeEncodeFrom(s, false);
  }

  /** Distinct strings have distinct OAuth encodings. */
  lemma EncodeInjective(a: string, b: string)
    requires Encode(a) == Encode(b)
    ensures a == b
  {
    EncodeRoundTrip(a);
    EncodeRoundTrip(b);
  }

  // ---------------------------------------------------------------- RFC 5849

  /** The unreserved characters of section 3.6 of RFC 5849: ALPHA, DIGIT, `-`, `.`, `_`, `~`. */
  predicate IsRfc5849Unreserved(c: char) {
    IsAlphaNum(c) || c == '-' || c == '.' || c == '_' || c == '~'
  }

  /** The percent-encoding of section 3.6 of RFC 5849. */
  function Rfc5849Encode(s: string): (r: string)
    ensures forall i | 0 <= i < |r| :: IsRfc5849Unreserved(r[i]) || r[i] == '%'
  {
    if |s| == 0 then ""
    else
      var block := if IsRfc5849Unreserved(s[0]) then [s[0]] else PercentOctets(Utf8(s[0]));
      PercentOctetsChars(Utf8(s[0]));
      block + Rfc5849Encode(s[1..])
  }

  /** The inputs on which `encode` departs from RFC 5849: a `*`, `'`, `(` or `)`, or a second `!`. */
  predicate DepartsFromRfc5849(s: string) {
    '*' in s || '\'' in s || '(' in s || ')' in s || CountChar(s, '!') >= 2
  }

  lemma {:induction false} AgreesFrom(s: string, bangSeen: bool)
    requires '*' !in s && '\'' !in s && '(' !in s && ')' !in s
    requires if bangSeen then '!' !in s else CountChar(s, '!') <= 1
    ensures EncodeFrom(s, bangSeen) == Rfc5849Encode(s)
  {
    if |s| > 0 {
      var c, t := s[0], s[1..];
      assert s == [c] + t;
      var seen := bangSeen || c == '!';
      assert '*' !in t && '\'' !in t && '(' !in t && ')' !in t;
      assert if seen then '!' !in t else CountChar(t, '!') <= 1;
      AgreesFrom(t, seen);
      EncodeFromCons(c, t, bangSeen);
      Rfc5849Cons(c, t);
      if c == '!' {
        BangEscapes();
      } else {
        BlockAgrees(c);
      }
    }
  }

  /** Away from `!`, `*`, `'`, `(` and `)`, a character is written the same by both encoders. */
  lemma BlockAgrees(c: char)
    requires c !in "!*'()"
    ensures EncodeChar(c) == if IsRfc5849Unreserved(c) then [c] else PercentOctets(Utf8(c))
  {
  }

  lemma {:induction false} KeepsSubDelim(s: string, bangSeen: bool, c: char)
    requires c == '*' || c == '\'' || c == '(' || c == ')'
    requires c in s
    ensures c in EncodeFrom(s, bangSeen)
  {
    var rest := EncodeFrom(s[1..], bangSeen || s[0] == '!');
    if s[0] == c {
      assert EncodeFrom(s, bangSeen)[0] == c;
    } else {
      assert c in s[1..];
      KeepsSubDelim(s[1..], bangSeen || s[0] == '!', c);
      assert EncodeFrom(s, bangSeen)[|EncodeFrom(s, bangSeen)| - |rest|..] == rest;
    }
  }

  lemma {:induction false} KeepsLaterBang(s: string, bangSeen: bool)
    requires if bangSeen then '!' in s else CountChar(s, '!') >= 2
    ensures '!' in EncodeFrom(s, bangSeen)
  {
    var rest := EncodeFrom(s[1..], bangSeen || s[0] == '!');
    if s[0] == '!' && bangSeen {
      assert EncodeFrom(s, bangSeen)[0] == '!';
    } else {
      if s[0] != '!' {
        assert CountChar(s, '!') == CountChar(s[1..], '!');
        assert '!' in s[1..] by {
          if !bangSeen {
            assert CountChar(s[1..], '!') > 0;
          } else {
            var i :| 0 <= i < |s| && s[i] == '!';
            assert s[1..][i - 1] == '!';
          }
        }
      }
      KeepsLaterBang(s[1..], bangSeen || s[0] == '!');
      assert EncodeFrom(s, bangSeen)[|EncodeFrom(s, bangSeen)| - |rest|..] == rest;
    }
  }

  lemma NotInRfc5849Encode(s: string, c: char)
    requires c == '!' || c == '*' || c == '\'' || c == '(' || c == ')'
    ensures c !in Rfc5849Encode(s)
  {
    var r := Rfc5849Encode(s);
    forall i | 0 <= i < |r| ensures r[i] != c {
      assert IsRfc5849Unreserved(r[i]) || r[i] == '%';
    }
  }

  /**
   * `encode` agrees with the RFC 5849 encoding exactly on the strings with no
   * `*`, `'`, `(` or `)` and at most one `!`.
   */
  lemma EncodeAgreesWithRfc5849Iff(s: string)
    ensures Encode(s) == Rfc5849Encode(s) <==> !DepartsFromRfc5849(s)
  {
    EncodeIsCharByChar(s);
    var e := EncodeFrom(s, false);
    if '*' in s {
      KeepsSubDelim(s, false, '*');
      NotInRfc5849Encode(s, '*');
    } else if '\'' in s {
      KeepsSubDelim(s, false, '\'');
      NotInRfc5849Encode(s, '\'');
    } else if '(' in s {
      KeepsSubDelim(s, false, '(');
      NotInRfc5849Encode(s, '(');
    } else if ')' in s {
      KeepsSubDelim(s, false, ')');
      NotInRfc5849Encode(s, ')');
    } else if CountChar(s, '!') >= 2 {
      KeepsLaterBang(s, false);
      NotInRfc5849Encode(s, '!');
    } else {
      AgreesFrom(s, false);
    }
  }

  lemma EncodeFromCons(c: char, s: string, bangSeen: bool)
    ensures EncodeFrom([c] + s, bangSeen) ==
      (if c == '!' && !bangSeen then "%21" else EncodeChar(c)) + EncodeFrom(s, bangSeen || c == '!')
  {
    assert ([c] + s)[0] == c && ([c] + s)[1..] == s;
  }

  lemma Rfc5849Cons(c: char, s: string)
    ensures Rfc5849Encode([c] + s) ==
      (if IsRfc5849Unreserved(c) then [c] else PercentOctets(Utf8(c))) + Rfc5849Encode(s)
  {
    assert ([c] + s)[0] == c && ([c] + s)[1..] == s;
  }

  lemma BangEscapes()
    ensures PercentOctets(Utf8('!')) == "%21" && !IsRfc5849Unreserved('!')
  {
  }

  lemma ApostropheEscapes()
    ensures PercentOctets(Utf8('\'')) == "%27" && !IsRfc5849Unreserved('\'')
  {
    assert HexDigit(2) == '2' && HexDigit(7) == '7';
  }

  lemma KeptChar(c: char)
    requires IsUnreserved(c)
    ensures EncodeChar(c) == [c]
  {
  }

  /**
   * A second `!` is left as it is, where RFC 5849 escapes it: with `a` and
   * `b` unreserved, `encode` writes `a!b!` as `a%21b!` and RFC 5849 as `a%21b%21`.
   */
  lemma SecondBangKept(a: char, b: char)
    requires IsRfc5849Unreserved(a) && IsRfc5849Unreserved(b)
    ensures Encode([a, '!', b, '!']) == [a] + "%21" + [b] + "!"
    ensures Rfc5849Encode([a, '!', b, '!']) == [a] + "%21" + [b] + "%21"
  {
    assert [a, '!', b, '!'] == [a] + (['!'] + ([b] + ['!']));
    assert [a] + "%21" + [b] + "!" == [a] + ("%21" + ([b] + "!"));
    assert [a] + "%21" + [b] + "%21" == [a] + ("%21" + ([b] + "%21"));
    EncodeIsCharByChar([a, '!', b, '!']);
    SecondBangEncode(a, b);
    SecondBangRfc5849(a, b);
  }

  lemma SecondBangEncode(a: char, b: char)
    requires IsRfc5849Unreserved(a) && IsRfc5849Unreserved(b)
    ensures EncodeFrom([a] + (['!'] + ([b] + ['!'])), false) == [a] + ("%21" + ([b] + "!"))
  {
    var t := [b] + ['!'];
    assert EncodeFrom(['!'], true) == "!" by {
      KeptChar('!');
      EncodeFromCons('!', [], true);
      assert ['!'] + [] == ['!'];
    }
    assert EncodeFrom(t, true) == [b] + "!" by {
      KeptChar(b);
      EncodeFromCons(b, ['!'], true);
    }
    assert EncodeFrom(['!'] + t, false) == "%21" + ([b] + "!") by {
      EncodeFromCons('!', t, false);
    }
    KeptChar(a);
    EncodeFromCons(a, ['!'] + t, false);
  }

  lemma SecondBangRfc5849(a: char, b: char)
    requires IsRfc5849Unreserved(a) && IsRfc5849Unreserved(b)
    ensures Rfc5849Encode([a] + (['!'] + ([b] + ['!']))) == [a] + ("%21" + ([b] + "%21"))
  {
    var t := [b] + ['!'];
    assert Rfc5849Encode(['!']) == "%21" by {
      BangEscapes();
      Rfc5849Cons('!', []);
      assert ['!'] + [] == ['!'];
    }
    assert Rfc5849Encode(t) == [b] + "%21" by {
      Rfc5849Cons(b, ['!']);
    }
    assert Rfc5849Encode(['!'] + t) == "%21" + ([b] + "%21") by {
      BangEscapes();
      Rfc5849Cons('!', t);
    }
    Rfc5849Cons(a, ['!'] + t);
  }

  /**
   * An apostrophe is left as it is, where RFC 5849 escapes it: with `a` and
   * `b` unreserved, `encode` keeps `a'b` and RFC 5849 writes `a%27b`.
   */
  lemma ApostropheKept(a: char, b: char)
    requires IsRfc5849Unreserved(a) && IsRfc5849Unreserved(b)
    ensures Encode([a, '\'', b]) == [a, '\'', b]
    ensures Rfc5849Encode([a, '\'', b]) == [a] + "%27" + [b]
  {
    assert [a, '\'', b] == [a] + (['\''] + [b]);
    assert [a] + "%27" + [b] == [a] + ("%27" + [b]);
    EncodeIsCharByChar([a, '\'', b]);
    ApostropheEncode(a, b);
    ApostropheRfc5849(a, b);
  }

  lemma ApostropheEncode(a: char, b: char)
    requires IsRfc5849Unreserved(a) && IsRfc5849Unreserved(b)
    ensures EncodeFrom([a] + (['\''] + [b]), false) == [a] + (['\''] + [b])
  {
    assert EncodeFrom([b], false) == [b] by {
      KeptChar(b);
      EncodeFromCons(b, [], false);
      assert [b] + [] == [b];
    }
    assert EncodeFrom(['\''] + [b], false) == ['\''] + [b] by {
      KeptChar('\'');
      EncodeFromCons('\'', [b], false);
    }
    KeptChar(a);
    EncodeFromCons(a, ['\''] + [b], false);
  }

  lemma ApostropheRfc5849(a: char, b: char)
    requires IsRfc5849Unreserved(a) && IsRfc5849Unreserved(b)
    ensures Rfc5849Encode([a] + (['\''] + [b])) == [a] + ("%27" + [b])
  {
    assert Rfc5849Encode([b]) == [b] by {
      Rfc5849Cons(b, []);
      assert [b] + [] == [b];
    }
    assert Rfc5849Encode(['\''] + [b]) == "%27" + [b] by {
      ApostropheEscapes();
      Rfc5849Cons('\'', [b]);
    }
    Rfc5849Cons(a, ['\''] + [b]);
  }
}
