/**
 * The fragment of Python regular expressions that the course id patterns
 * use: character classes (plain or negated), alternation, concatenation and
 * one-or-more repetition, with full-match semantics.
 */
module Regex {

  datatype Re =
    | Chars(negated: bool, members: set<char>)  // `[...]` or `[^...]`
    | Alt(left: Re, right: Re)                 // `(a|b)`
    | Cat(first: Re, second: Re)               // `ab`
    | Plus(body: Re)                           // `a+`

  /** Whether the class `[members]` (or `[^members]`) admits `c`. */
  predicate InClass(negated: bool, members: set<char>, c: char) {
    (c in members) != negated
  }

  /**
   * `re.fullmatch(r, s)` succeeds. No pattern of this fragment matches the
   * empty string: every class consumes one character.
   */
  predicate FullMatch(r: Re, s: string)
    ensures FullMatch(r, s) ==> |s| > 0
    decreases r, |s|
  {
    match r
    case Chars(neg, cs) => |s| == 1 && InClass(neg, cs, s[0])
    case Alt(a, b) => FullMatch(a, s) || FullMatch(b, s)
    case Cat(a, b) => exists i :: 0 <= i <= |s| && FullMatch(a, s[..i]) && FullMatch(b, s[i..])
    case Plus(a) =>
      || FullMatch(a, s)
      || exists i :: 0 < i < |s| && FullMatch(a, s[..i]) && FullMatch(Plus(a), s[i..])
  }

  /** Every character of `s` belongs to the class. */
  predicate AllInClass(negated: bool, members: set<char>, s: string) {
    forall k :: 0 <= k < |s| ==> InClass(negated, members, s[k])
  }

  /** `[...]+` matches exactly the non-empty strings drawn from the class. */
  lemma {:induction false} PlusOfClass(neg: bool, cs: set<char>, s: string)
    ensures FullMatch(Plus(Chars(neg, cs)), s) <==> |s| > 0 && AllInClass(neg, cs, s)
    decreases |s|
  {
    var c := Chars(neg, cs);
    if |s| > 1 {
      PlusOfClass(neg, cs, s[1..]);
      if FullMatch(Plus(c), s) {
        assert !FullMatch(c, s);
        var i :| 0 < i < |s| && FullMatch(c, s[..i]) && FullMatch(Plus(c), s[i..]);
        assert i == 1;
        assert s == s[..1] + s[1..];
      }
      if AllInClass(neg, cs, s) {
        assert FullMatch(c, s[..1]);
        assert AllInClass(neg, cs, s[1..]);
      }
    }
  }

  /** A concatenation matches when some split point has both halves matching. */
  lemma CatAt(a: Re, b: Re, s: string, i: int)
    requires 0 <= i <= |s| && FullMatch(a, s[..i]) && FullMatch(b, s[i..])
    ensures FullMatch(Cat(a, b), s)
  {
  }
}
