/** Anchored, fixed-width character patterns.

    The two card formats are regular expressions of one shape only: a
    sequence of fields `class{count}` (a bracket class such as `[456]`, the
    digit class `\d`, or an escaped literal such as `\-`), anchored with `^`
    and `$`. Such a pattern has no alternation and no variable repetition, so
    matching it never backtracks: every field consumes exactly `count`
    characters. This module gives that matching a direct definition and
    proves that it is the same as checking each character position against
    the class the pattern places there.
 */
module Patterns {

  datatype Option<+T> = None | Some(value: T)

  /** The model's reading of `\d`: an ASCII decimal digit. */
  predicate IsDigit(c: char) {
    '0' <= c <= '9'
  }

  /** A character class of a pattern: `[...]`, `\d` or one literal character. */
  datatype CharClass = AnyOf(members: seq<char>) | Digit | Literal(ch: char)

  predicate InClass(c: char, k: CharClass) {
    match k
    case AnyOf(members) => c in members
    case Digit => IsDigit(c)
    case Literal(l) => c == l
  }

  /** One field `class{count}` of a pattern (`count` is 1 for a bare class). */
  datatype Piece = Piece(cls: CharClass, count: nat)

  type Pattern = seq<Piece>

  /** Matches `k{n}` at the start of `s` and returns the unmatched rest:
      it succeeds exactly when the first `n` characters all belong to `k`. */
  function MatchRepeat(k: CharClass, n: nat, s: string): (r: Option<string>)
    ensures r.Some? <==> n <= |s| && forall i :: 0 <= i < n ==> InClass(s[i], k)
    ensures r.Some? ==> r.value == s[n..]
    decreases n
  {
    if n == 0 then Some(s)
    else if |s| > 0 && InClass(s[0], k) then
      var r := MatchRepeat(k, n - 1, s[1..]);
      assert forall i :: 1 <= i <= n - 1 && i <= |s| - 1 ==> s[1..][i - 1] == s[i];
      r
    else None
  }

  /** `^p`: matches the fields of `p` one after another from the start of `s`
      and returns the unmatched rest. */
  function MatchPrefix(p: Pattern, s: string): Option<string>
  {
    if p == [] then Some(s)
    else
      match MatchRepeat(p[0].cls, p[0].count, s)
      case None => None
      case Some(rest) => MatchPrefix(p[1..], rest)
  }

  /** `^p$`: the pattern consumes the whole string. */
  predicate FullMatch(p: Pattern, s: string) {
    MatchPrefix(p, s) == Some([])
  }

  /** The class that the pattern places at each character position. */
  function Expand(p: Pattern): seq<CharClass>
  {
    if p == [] then [] else seq(p[0].count, _ => p[0].cls) + Expand(p[1..])
  }

  /** Matching a prefix is position-by-position membership in the expanded classes. */
  lemma {:induction false} MatchPrefixPositional(p: Pattern, s: string)
    ensures MatchPrefix(p, s).Some? <==>
              |Expand(p)| <= |s| && forall i :: 0 <= i < |Expand(p)| ==> InClass(s[i], Expand(p)[i])
    ensures MatchPrefix(p, s).Some? ==> MatchPrefix(p, s).value == s[|Expand(p)|..]
    decreases |p|
  {
    if p != [] {
      var k, n := p[0].cls, p[0].count;
      var head := seq(n, _ => k);
      assert Expand(p) == head + Expand(p[1..]);
      if n <= |s| && forall i :: 0 <= i < n ==> InClass(s[i], k) {
        var rest := s[n..];
        assert MatchRepeat(k, n, s) == Some(rest);
        MatchPrefixPositional(p[1..], rest);
        assert forall i :: 0 <= i < |rest| ==> rest[i] == s[n + i];
        forall i | n <= i < |Expand(p)| && i < |s|
          ensures Expand(p)[i] == Expand(p[1..])[i - n] && s[i] == rest[i - n]
        {
        }
      } else {
        assert MatchRepeat(k, n, s).None?;
        if |Expand(p)| <= |s| {
          var i :| 0 <= i < n && !InClass(s[i], k);
          assert Expand(p)[i] == k;
        }
      }
    }
  }

  /** `^p$` holds exactly when the string is as long as the pattern and every
      character belongs to the class the pattern places at its position. */
  lemma FullMatchPositional(p: Pattern, s: string)
    ensures FullMatch(p, s) <==>
              |s| == |Expand(p)| && forall i :: 0 <= i < |s| ==> InClass(s[i], Expand(p)[i])
  {
    MatchPrefixPositional(p, s);
  }
}
