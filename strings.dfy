/**
 * The JavaScript string operations the core uses, on Dafny strings:
 * `split` and `join` with a one-character separator, `replace` with a
 * string pattern (first occurrence only), and the `<` / `>` comparison of strings.
 */
module Strings {

  /** Number of occurrences of `c` in `s`. */
  function CountChar(s: string, c: char): (n: nat)
    ensures n == 0 <==> c !in s
    ensures n <= |s|
  {
    if |s| == 0 then 0 else (if s[0] == c then 1 else 0) + CountChar(s[1..], c)
  }

  lemma {:induction false} CountCharConcat(a: string, b: string, c: char)
    ensures CountChar(a + b, c) == CountChar(a, c) + CountChar(b, c)
  {
    if |a| > 0 {
      assert (a + b)[1..] == a[1..] + b;
      CountCharConcat(a[1..], b, c);
    } else {
      assert a + b == b;
    }
  }

  /** `s.split(sep)`: the pieces between separators, one more than there are separators. */
  function Split(s: string, sep: char): (parts: seq<string>)
    ensures |parts| == CountChar(s, sep) + 1
    ensures forall i | 0 <= i < |parts| :: sep !in parts[i]
    decreases |s|
  {
    if |s| == 0 then [""]
    else
      var rest := Split(s[1..], sep);
      if s[0] == sep then [""] + rest
      else [[s[0]] + rest[0]] + rest[1..]
  }

  /** `parts.join(sep)`. */
  function Join(parts: seq<string>, sep: char): string
  {
    if |parts| == 0 then ""
    else if |parts| == 1 then parts[0]
    else parts[0] + [sep] + Join(parts[1..], sep)
  }

  /** Splitting text that starts with a separator-free piece `a`. */
  lemma {:induction false} SplitAfterPiece(a: string, b: string, sep: char)
    requires sep !in a
    ensures Split(a + b, sep) == [a + Split(b, sep)[0]] + Split(b, sep)[1..]
  {
    var parts := Split(b, sep);
    if |a| == 0 {
      assert a + b == b;
      assert a + parts[0] == parts[0];
      assert [parts[0]] + parts[1..] == parts;
    } else {
      var t := a[1..];
      assert (a + b)[0] == a[0] && (a + b)[1..] == t + b;
      assert [a[0]] + (t + parts[0]) == a + parts[0];
      assert a[0] != sep && sep !in t;
      SplitAfterPiece(t, b, sep);
    }
  }

  /** `split` undoes `join` when no piece contains the separator. */
  lemma {:induction false} SplitJoin(parts: seq<string>, sep: char)
    requires |parts| >= 1
    requires forall i | 0 <= i < |parts| :: sep !in parts[i]
    ensures Split(Join(parts, sep), sep) == parts
  {
    if |parts| == 1 {
      SplitAfterPiece(parts[0], "", sep);
      assert parts[0] + "" == parts[0];
    } else {
      SplitJoin(parts[1..], sep);
      var rest := [sep] + Join(parts[1..], sep);
      assert Join(parts, sep) == parts[0] + rest;
      SplitAfterPiece(parts[0], rest, sep);
      assert rest[0] == sep && rest[1..] == Join(parts[1..], sep);
      assert Split(rest, sep) == [""] + parts[1..];
      assert parts[0] + "" == parts[0];
      assert [parts[0]] + parts[1..] == parts;
    }
  }

  /** Two separator-free pieces around one separator split back into the two pieces. */
  lemma SplitPair(a: string, b: string, sep: char)
    requires sep !in a && sep !in b
    ensures Split(a + [sep] + b, sep) == [a, b]
  {
    assert [a, b][1..] == [b];
    SplitJoin([a, b], sep);
  }

  /** A separator followed by two separator-free pieces around a separator. */
  lemma SplitSeparatorPair(b: string, c: string, sep: char)
    requires sep !in b && sep !in c
    ensures Split([sep] + (b + [sep] + c), sep) == ["", b, c]
  {
    var bc := b + [sep] + c;
    assert ([sep] + bc)[1..] == bc;
    SplitPair(b, c, sep);
  }

  lemma Regroup(a: string, b: string, c: string, sep: char)
    ensures a + [sep] + b + [sep] + c == a + ([sep] + (b + [sep] + c))
  {
  }

  /** Three separator-free pieces joined by two separators split back into the three. */
  lemma SplitTriple(a: string, b: string, c: string, sep: char)
    requires sep !in a && sep !in b && sep !in c
    ensures Split(a + [sep] + b + [sep] + c, sep) == [a, b, c]
  {
    var t := [sep] + (b + [sep] + c);
    Regroup(a, b, c, sep);
    SplitSeparatorPair(b, c, sep);
    SplitAfterPiece(a, t, sep);
    assert a + "" == a;
    assert ["", b, c][1..] == [b, c];
  }

  /** A character the text does not hold is in none of its pieces. */
  lemma {:induction false} SplitPiecesAvoid(s: string, sep: char, c: char)
    requires c !in s
    ensures forall i | 0 <= i < |Split(s, sep)| :: c !in Split(s, sep)[i]
    decreases |s|
  {
    if |s| > 0 {
      assert s[0] != c && c !in s[1..];
      SplitPiecesAvoid(s[1..], sep, c);
    }
  }

  /** `join` undoes `split`: the pieces with the separators put back are the text. */
  lemma {:induction false} JoinSplit(s: string, sep: char)
    ensures Join(Split(s, sep), sep) == s
    decreases |s|
  {
    if |s| > 0 {
      JoinSplit(s[1..], sep);
      if s[0] == sep {
        JoinSplitAtSeparator(s, sep);
      } else {
        JoinSplitInPiece(s, sep);
      }
    }
  }

  lemma JoinSplitAtSeparator(s: string, sep: char)
    requires |s| > 0 && s[0] == sep && Join(Split(s[1..], sep), sep) == s[1..]
    ensures Join(Split(s, sep), sep) == s
  {
    var rest := Split(s[1..], sep);
    assert ([""] + rest)[1..] == rest;
    assert s == [sep] + s[1..];
  }

  lemma JoinSplitInPiece(s: string, sep: char)
    requires |s| > 0 && s[0] != sep && Join(Split(s[1..], sep), sep) == s[1..]
    ensures Join(Split(s, sep), sep) == s
  {
    var rest := Split(s[1..], sep);
    assert s == [s[0]] + s[1..];
    if |rest| > 1 {
      var parts := [[s[0]] + rest[0]] + rest[1..];
      assert parts[1..] == rest[1..];
      assert Join(parts, sep) == [s[0]] + (rest[0] + [sep] + Join(rest[1..], sep));
    }
  }

  /** Joining n separator-free pieces writes exactly n - 1 separators. */
  lemma JoinCount(parts: seq<string>, sep: char)
    requires |parts| >= 1
    requires forall i | 0 <= i < |parts| :: sep !in parts[i]
    ensures CountChar(Join(parts, sep), sep) == |parts| - 1
  {
    SplitJoin(parts, sep);
  }

  /** `s.replace(c, r)` with a one-character string pattern: only the first `c` is replaced. */
  function ReplaceFirst(s: string, c: char, r: string): string
  {
    if |s| == 0 then s
    else if s[0] == c then r + s[1..]
    else [s[0]] + ReplaceFirst(s[1..], c, r)
  }

  lemma {:induction false} ReplaceFirstAfter(a: string, b: string, c: char, r: string)
    requires c !in a
    ensures ReplaceFirst(a + b, c, r) == a + ReplaceFirst(b, c, r)
  {
    if |a| == 0 {
      assert a + b == b;
    } else {
      var t := a[1..];
      assert a[0] != c && c !in t;
      assert (a + b)[0] == a[0];
      assert (a + b)[1..] == t + b;
      ReplaceFirstAfter(t, b, c, r);
      calc {
        ReplaceFirst(a + b, c, r);
        [a[0]] + ReplaceFirst(t + b, c, r);
        [a[0]] + (t + ReplaceFirst(b, c, r));
        { assert [a[0]] + t == a; }
        a + ReplaceFirst(b, c, r);
      }
    }
  }

  /**
   * `a < b` on JavaScript strings: lexicographic order of code units.
   * The model only compares ASCII strings, where code units and characters coincide.
   */
  predicate Less(a: string, b: string)
    decreases |a|
  {
    if |a| == 0 then |b| > 0
    else |b| > 0 && (a[0] < b[0] || (a[0] == b[0] && Less(a[1..], b[1..])))
  }

  lemma {:induction false} LessIrreflexive(a: string)
    ensures !Less(a, a)
  {
    if |a| > 0 { LessIrreflexive(a[1..]); }
  }

  lemma {:induction false} LessTransitive(a: string, b: string, c: string)
    requires Less(a, b) && Less(b, c)
    ensures Less(a, c)
    decreases |a|
  {
    if |a| > 0 && a[0] == b[0] && b[0] == c[0] {
      LessTransitive(a[1..], b[1..], c[1..]);
    }
  }

  /** Two different strings are always ordered one way or the other. */
  lemma {:induction false} LessTotal(a: string, b: string)
    requires a != b
    ensures Less(a, b) || Less(b, a)
    decreases |a|
  {
    if |a| > 0 && |b| > 0 && a[0] == b[0] {
      assert a == [a[0]] + a[1..] && b == [b[0]] + b[1..];
      LessTotal(a[1..], b[1..]);
    }
  }

  lemma LessAsymmetric(a: string, b: string)
    requires Less(a, b)
    ensures !Less(b, a)
  {
    if Less(b, a) {
      LessTransitive(a, b, a);
      LessIrreflexive(a);
    }
  }
}
