/**
 * The string operations the slug migration relies on: ASCII lower-casing
 * (Python's `str.lower` restricted to ASCII), and splitting on a separator
 * character with the semantics of Python's `str.split(sep)`.
 */
module Strings {

  predicate IsUpper(c: char) {
    'A' <= c <= 'Z'
  }

  /** One character lower-cased; only ASCII capitals change. */
  function LowerChar(c: char): (r: char)
    ensures IsUpper(c) ==> r as int == c as int + 32
    ensures !IsUpper(c) ==> r == c
    ensures !IsUpper(r)
  {
    if IsUpper(c) then (c as int + 32) as char else c
  }

  /** No ASCII capital letter occurs in `s`. */
  predicate IsLower(s: string) {
    forall i :: 0 <= i < |s| ==> !IsUpper(s[i])
  }

  /** `s.lower()`, character by character. */
  function Lower(s: string): (r: string)
    ensures |r| == |s|
    ensures forall i :: 0 <= i < |s| ==> r[i] == LowerChar(s[i])
    ensures IsLower(r)
  {
    if |s| == 0 then "" else [LowerChar(s[0])] + Lower(s[1..])
  }

  /** Lower-casing neither introduces nor removes a character that is not a letter. */
  lemma LowerKeepsSeparator(s: string, sep: char)
    requires !IsUpper(sep) && !('a' <= sep <= 'z')
    ensures sep in Lower(s) <==> sep in s
  {
    var r := Lower(s);
    if sep in s {
      var i :| 0 <= i < |s| && s[i] == sep;
      assert r[i] == sep;
    }
    if sep in r {
      var i :| 0 <= i < |r| && r[i] == sep;
      assert s[i] == sep;
    }
  }

  /**
   * `s.split(sep)`: the maximal runs of `s` between occurrences of `sep`.
   * There is always at least one piece (the empty string splits into [""]).
   */
  function Split(s: string, sep: char): (r: seq<string>)
    ensures |r| >= 1
    decreases |s|
  {
    if |s| == 0 then [""]
    else if s[0] == sep then [""] + Split(s[1..], sep)
    else
      var rest := Split(s[1..], sep);
      [[s[0]] + rest[0]] + rest[1..]
  }

  /** `sep.join(pieces)`. */
  function Join(pieces: seq<string>, sep: char): string
    requires |pieces| >= 1
    decreases |pieces|
  {
    if |pieces| == 1 then pieces[0]
    else pieces[0] + [sep] + Join(pieces[1..], sep)
  }

  /** Every piece of a split is free of the separator. */
  predicate NoneContains(pieces: seq<string>, sep: char) {
    forall k :: 0 <= k < |pieces| ==> sep !in pieces[k]
  }

  /** Split pieces never contain the separator. */
  lemma {:induction false} SplitPiecesFree(s: string, sep: char)
    ensures NoneContains(Split(s, sep), sep)
    decreases |s|
  {
    if |s| > 0 {
      SplitPiecesFree(s[1..], sep);
      var rest := Split(s[1..], sep);
      if s[0] != sep {
        assert sep !in rest[0];
        var r := Split(s, sep);
        forall k | 0 <= k < |r|
          ensures sep !in r[k]
        {
          if k > 0 {
            assert r[k] == rest[k];
          }
        }
      }
    }
  }

  /** Joining the pieces of a split gives back the original string. */
  lemma {:induction false} JoinSplit(s: string, sep: char)
    ensures Join(Split(s, sep), sep) == s
    decreases |s|
  {
    if |s| > 0 {
      JoinSplit(s[1..], sep);
      var rest := Split(s[1..], sep);
      if s[0] == sep {
        assert Split(s, sep)[1..] == rest;
      } else {
        JoinConsFirst(s[0], rest, sep);
      }
    }
  }

  /** Prepending a character to the first piece prepends it to the join. */
  lemma JoinConsFirst(c: char, pieces: seq<string>, sep: char)
    requires |pieces| >= 1
    ensures Join([[c] + pieces[0]] + pieces[1..], sep) == [c] + Join(pieces, sep)
  {
    var p := [[c] + pieces[0]] + pieces[1..];
    if |pieces| > 1 {
      assert p[1..] == pieces[1..];
    }
  }

  /** A string free of the separator splits into itself alone. */
  lemma {:induction false} SplitWithoutSeparator(s: string, sep: char)
    requires sep !in s
    ensures Split(s, sep) == [s]
    decreases |s|
  {
    if |s| > 0 {
      assert sep !in s[1..];
      SplitWithoutSeparator(s[1..], sep);
      assert [s[0]] + s[1..] == s;
    }
  }

  /** Splitting `a + sep + b` splits `a` and `b` independently. */
  lemma {:induction false} SplitAround(a: string, b: string, sep: char)
    ensures Split(a + [sep] + b, sep) == Split(a, sep) + Split(b, sep)
    decreases |a|
  {
    var s := a + [sep] + b;
    if |a| == 0 {
      assert s[1..] == b;
    } else {
      var t := a[1..] + [sep] + b;
      assert s[0] == a[0] && s[1..] == t;
      SplitAround(a[1..], b, sep);
      var head := Split(a[1..], sep);
      if a[0] != sep {
        assert Split(t, sep)[0] == head[0] && Split(t, sep)[1..] == head[1..] + Split(b, sep);
      }
    }
  }

  /** Two separator-free pieces in front of a rest split off as two pieces. */
  lemma SplitTwoPiecesThen(a: string, b: string, rest: string, sep: char)
    requires sep !in a && sep !in b
    ensures Split(a + [sep] + b + [sep] + rest, sep) == [a, b] + Split(rest, sep)
  {
    var tail := b + [sep] + rest;
    assert a + [sep] + b + [sep] + rest == a + [sep] + tail;
    SplitAround(a, tail, sep);
    SplitAround(b, rest, sep);
    SplitWithoutSeparator(a, sep);
    SplitWithoutSeparator(b, sep);
  }

  /** A split yields a single piece exactly when the separator is absent. */
  lemma {:induction false} SplitSingleIffAbsent(s: string, sep: char)
    ensures |Split(s, sep)| == 1 <==> sep !in s
    decreases |s|
  {
    if |s| > 0 {
      SplitSingleIffAbsent(s[1..], sep);
      assert s == [s[0]] + s[1..];
    }
  }

  /** Python's `s.split(sep)[-1]`: the text after the last `sep`. */
  function LastPiece(s: string, sep: char): (r: string)
    ensures sep !in r
  {
    SplitPiecesFree(s, sep);
    var pieces := Split(s, sep);
    pieces[|pieces| - 1]
  }

  /** The last piece of `s` is `s` itself if `s` is separator-free, else that of its tail. */
  lemma LastPieceStep(s: string, sep: char)
    requires |s| > 0
    ensures sep !in s ==> LastPiece(s, sep) == s
    ensures sep in s ==> LastPiece(s, sep) == LastPiece(s[1..], sep)
  {
    SplitSingleIffAbsent(s, sep);
    SplitSingleIffAbsent(s[1..], sep);
    if sep !in s {
      SplitWithoutSeparator(s, sep);
    } else if s[0] != sep {
      assert sep in s[1..] by {
        var i :| 0 <= i < |s| && s[i] == sep;
        assert s[1..][i - 1] == sep;
      }
    }
  }

  /**
   * The last piece is the longest separator-free suffix: it is a suffix of
   * `s`, it holds no separator, and it is either all of `s` or directly
   * preceded by a separator.
   */
  lemma {:induction false} LastPieceIsMaximalSuffix(s: string, sep: char)
    ensures var r := LastPiece(s, sep);
      && |r| <= |s|
      && r == s[|s| - |r|..]
      && sep !in r
      && (|r| == |s| || s[|s| - |r| - 1] == sep)
    decreases |s|
  {
    if |s| == 0 {
    } else if sep !in s {
      LastPieceStep(s, sep);
    } else {
      LastPieceStep(s, sep);
      var t := s[1..];
      LastPieceIsMaximalSuffix(t, sep);
      var r := LastPiece(t, sep);
      assert s[|s| - |r|..] == t[|t| - |r|..];
      if |r| < |t| {
        assert s[|s| - |r| - 1] == t[|t| - |r| - 1];
      } else {
        assert r == t && s == [s[0]] + t;
      }
    }
  }

  /** A string without the separator is its own last piece. */
  lemma LastPieceWithoutSeparator(s: string, sep: char)
    requires sep !in s
    ensures LastPiece(s, sep) == s
  {
    SplitWithoutSeparator(s, sep);
  }
}
