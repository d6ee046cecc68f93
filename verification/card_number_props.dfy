/** What the validator guarantees: exact characterisations of the two
    formats and of the repeated-digit check, the behaviour of hyphen removal,
    and the consequences for the final verdict.
 */
module CardNumberProps {
  import opened Patterns
  import opened CardNumber

  /** The class sequence of the ungrouped format, position by position. */
  lemma ExpandUngrouped()
    ensures |Expand(UngroupedPattern)| == 16
    ensures Expand(UngroupedPattern)[0] == AnyOf(LeadDigits)
    ensures forall i :: 1 <= i < 16 ==> Expand(UngroupedPattern)[i] == Digit
  {
    var p := UngroupedPattern;
    assert Expand(p[1..][1..]) == [];
    assert Expand(p[1..]) == seq(15, _ => Digit);
    assert Expand(p) == [AnyOf(LeadDigits)] + seq(15, _ => Digit);
  }

  /** The class sequence of the grouped format, position by position. */
  lemma ExpandGrouped()
    ensures |Expand(GroupedPattern)| == 19
    ensures Expand(GroupedPattern)[0] == AnyOf(LeadDigits)
    ensures forall i | i in {4, 9, 14} :: Expand(GroupedPattern)[i] == Literal('-')
    ensures forall i :: 1 <= i < 19 && i != 4 && i != 9 && i != 14 ==> Expand(GroupedPattern)[i] == Digit
  {
    var p := GroupedPattern;
    var lead, d3, d4, h := [AnyOf(LeadDigits)], seq(3, _ => Digit), seq(4, _ => Digit), [Literal('-')];
    assert Expand(p[7..]) == d4 + Expand(p[8..]);
    assert Expand(p[6..]) == h + d4;
    assert Expand(p[5..]) == d4 + h + d4;
    assert Expand(p[4..]) == h + d4 + h + d4;
    assert Expand(p[3..]) == d4 + h + d4 + h + d4;
    assert Expand(p[2..]) == h + d4 + h + d4 + h + d4;
    assert Expand(p[1..]) == d3 + h + d4 + h + d4 + h + d4;
    assert Expand(p) == lead + d3 + h + d4 + h + d4 + h + d4;
  }

  /** Check A holds exactly for sixteen digits whose first is 4, 5 or 6. */
  lemma WithoutHyphenExactly(s: string)
    ensures WithoutHyphen(s) <==>
              |s| == 16 && s[0] in LeadDigits && forall i :: 0 <= i < 16 ==> IsDigit(s[i])
  {
    FullMatchPositional(UngroupedPattern, s);
    ExpandUngrouped();
  }

  /** Check B holds exactly for nineteen characters with hyphens at positions
      4, 9 and 14, digits everywhere else, and a first digit of 4, 5 or 6. */
  lemma WithHyphenExactly(s: string)
    ensures WithHyphen(s) <==>
              && |s| == 19 && s[0] in LeadDigits
              && s[4] == '-' && s[9] == '-' && s[14] == '-'
              && forall i :: 0 <= i < 19 && i != 4 && i != 9 && i != 14 ==> IsDigit(s[i])
  {
    FullMatchPositional(GroupedPattern, s);
    ExpandGrouped();
    if |s| == 19 && s[0] in LeadDigits && s[4] == '-' && s[9] == '-' && s[14] == '-' {
      assert InClass(s[4], Expand(GroupedPattern)[4]);
      assert InClass(s[9], Expand(GroupedPattern)[9]);
      assert InClass(s[14], Expand(GroupedPattern)[14]);
    }
  }

  /** No line passes both format checks. */
  lemma FormatsExclusive(s: string)
    ensures !(WithoutHyphen(s) && WithHyphen(s))
  {
    WithoutHyphenExactly(s);
    WithHyphenExactly(s);
  }

  /** Hyphen removal distributes over concatenation: it keeps the order of
      the characters it does not remove. */
  lemma {:induction false} StripHyphensAppend(a: string, b: string)
    ensures StripHyphens(a + b) == StripHyphens(a) + StripHyphens(b)
    decreases |a|
  {
    if a != [] {
      var head := if a[0] == '-' then [] else [a[0]];
      assert (a + b)[0] == a[0];
      assert (a + b)[1..] == a[1..] + b;
      StripHyphensAppend(a[1..], b);
      calc {
        StripHyphens(a + b);
        head + StripHyphens(a[1..] + b);
        head + (StripHyphens(a[1..]) + StripHyphens(b));
        (head + StripHyphens(a[1..])) + StripHyphens(b);
        StripHyphens(a) + StripHyphens(b);
      }
    } else {
      assert a + b == b;
    }
  }

  /** On one character, hyphen removal drops a hyphen and keeps anything else. */
  lemma StripHyphensSingle(c: char)
    ensures StripHyphens([c]) == if c == '-' then [] else [c]
  {
  }

  /** A string with no hyphen is left unchanged. */
  lemma {:induction false} StripHyphensNoHyphen(s: string)
    requires '-' !in s
    ensures StripHyphens(s) == s
    decreases |s|
  {
    if s != [] {
      StripHyphensNoHyphen(s[1..]);
    }
  }

  /** Removing hyphens twice is the same as removing them once. */
  lemma StripHyphensIdempotent(s: string)
    ensures StripHyphens(StripHyphens(s)) == StripHyphens(s)
  {
    StripHyphensNoHyphen(StripHyphens(s));
  }

  /** Every character other than a hyphen occurs as often after removal as before. */
  lemma {:induction false} StripHyphensKeepsOthers(s: string, c: char)
    requires c != '-'
    ensures multiset(StripHyphens(s))[c] == multiset(s)[c]
    decreases |s|
  {
    if s != [] {
      StripHyphensKeepsOthers(s[1..], c);
      assert s == [s[0]] + s[1..];
    }
  }

  /** Removing the hyphens around a hyphen joins what is left of both sides. */
  lemma StripAroundHyphen(a: string, b: string)
    ensures StripHyphens(a + "-" + b) == StripHyphens(a) + StripHyphens(b)
  {
    StripHyphensAppend(a + "-", b);
    StripHyphensAppend(a, "-");
  }

  /** Removing the hyphens of four parts joined by hyphens gives the same
      as removing them from the four parts run together. */
  lemma StripJoinedParts(a: string, b: string, c: string, e: string)
    ensures StripHyphens(a + "-" + b + "-" + c + "-" + e) == StripHyphens(a + b + c + e)
  {
    StripAroundHyphen(a + "-" + b + "-" + c, e);
    StripAroundHyphen(a + "-" + b, c);
    StripAroundHyphen(a, b);
    StripHyphensAppend(a + b + c, e);
    StripHyphensAppend(a + b, c);
    StripHyphensAppend(a, b);
  }

  /** Grouping adds only hyphens: removing them undoes the grouping. */
  lemma StripGroup(d: string)
    requires |d| == 16
    ensures StripHyphens(Group(d)) == StripHyphens(d)
  {
    var a, b, c, e := d[..4], d[4..8], d[8..12], d[12..];
    assert d == a + b + c + e;
    StripJoinedParts(a, b, c, e);
  }

  /** A grouped line is the grouping of its four digit groups run together. */
  lemma GroupedIsGroup(s: string)
    requires WithHyphen(s)
    ensures |s| == 19
    ensures s == Group(s[..4] + s[5..9] + s[10..14] + s[15..])
    ensures '-' !in s[..4] + s[5..9] + s[10..14] + s[15..]
  {
    WithHyphenExactly(s);
    var d := s[..4] + s[5..9] + s[10..14] + s[15..];
    assert d[..4] == s[..4] && d[4..8] == s[5..9] && d[8..12] == s[10..14] && d[12..] == s[15..];
    assert s == s[..4] + "-" + s[5..9] + "-" + s[10..14] + "-" + s[15..];
    forall k | 0 <= k < 16
      ensures d[k] == s[if k < 4 then k else if k < 8 then k + 1 else if k < 12 then k + 2 else k + 3]
    {
    }
  }

  /** A grouped number strips to its four groups run together, which is an
      ungrouped number: the two formats describe the same sixteen digits. */
  lemma GroupedStripsToUngrouped(s: string)
    requires WithHyphen(s)
    ensures |s| == 19
    ensures StripHyphens(s) == s[..4] + s[5..9] + s[10..14] + s[15..]
    ensures WithoutHyphen(StripHyphens(s))
  {
    GroupedIsGroup(s);
    var d := s[..4] + s[5..9] + s[10..14] + s[15..];
    StripGroup(d);
    StripHyphensNoHyphen(d);
    GroupFormat(d);
  }

  /** Grouping and hyphen removal are inverse: removing the hyphens of a
      grouped line gives back the digits, and grouping those digits gives
      back the line. */
  lemma GroupRoundTrip(s: string)
    requires WithHyphen(s)
    ensures |StripHyphens(s)| == 16 && Group(StripHyphens(s)) == s
  {
    GroupedIsGroup(s);
    GroupedStripsToUngrouped(s);
  }

  /** Grouping a sixteen-character string turns check A into check B, in
      both directions. */
  lemma GroupFormat(d: string)
    requires |d| == 16
    ensures WithoutHyphen(d) <==> WithHyphen(Group(d))
  {
    var g := Group(d);
    WithoutHyphenExactly(d);
    WithHyphenExactly(g);
    assert g[..4] == d[..4] && g[5..9] == d[4..8] && g[10..14] == d[8..12] && g[15..] == d[12..];
    forall k | 0 <= k < 16
      ensures d[k] == g[if k < 4 then k else if k < 8 then k + 1 else if k < 12 then k + 2 else k + 3]
    {
    }
    forall i | 0 <= i < 19 && i != 4 && i != 9 && i != 14
      ensures g[i] == d[if i < 4 then i else if i < 9 then i - 1 else if i < 14 then i - 2 else i - 3]
    {
    }
  }

  /** On a string without hyphens the `-?` of the pattern never applies: the
      group `(\d)(-?\1){3}` matches at `i` exactly when four equal digits start there. */
  lemma RunMatchAtHyphenFree(t: string, i: int)
    requires '-' !in t
    ensures RunMatchAt(t, i) <==> FourRunAt(t, i)
  {
  }

  /** The repeated-digit check on a hyphen-free string passes exactly when it
      holds no four equal digits in a row. */
  lemma RepeatCheckIsNoFourRun(t: string)
    requires '-' !in t
    ensures RepeatCheck(t) <==> NoFourRun(t)
  {
    forall i | 0 <= i < |t|
      ensures RunMatchAt(t, i) <==> FourRunAt(t, i)
    {
      RunMatchAtHyphenFree(t, i);
    }
  }

  /** A run of four equal digits fails the check, wherever it sits. */
  lemma FourRunFails(t: string, i: int)
    requires FourRunAt(t, i)
    ensures !RepeatCheck(t)
  {
    assert RepeatsFrom(t, i + 4, t[i], 0);
    assert RunMatchAt(t, i);
  }

  /** The verdict is Valid exactly when one format check passes and the
      hyphen-free digits hold no run of four equal digits. */
  lemma ClassifyExactly(s: string)
    ensures Classify(s) == Valid <==>
              (WithoutHyphen(s) || WithHyphen(s)) && NoFourRun(StripHyphens(s))
  {
    RepeatCheckIsNoFourRun(StripHyphens(s));
  }

  /** Every Valid line strips to sixteen digits that start with 4, 5 or 6
      and hold no run of four equal digits. */
  lemma ValidShape(s: string)
    requires Classify(s) == Valid
    ensures |StripHyphens(s)| == 16
    ensures StripHyphens(s)[0] in LeadDigits
    ensures forall i :: 0 <= i < 16 ==> IsDigit(StripHyphens(s)[i])
    ensures NoFourRun(StripHyphens(s))
  {
    ClassifyExactly(s);
    if WithHyphen(s) {
      GroupedStripsToUngrouped(s);
      WithoutHyphenExactly(StripHyphens(s));
    } else {
      WithoutHyphenExactly(s);
      StripHyphensNoHyphen(s);
    }
  }

  /** Writing a sixteen-character number with or without the hyphen grouping
      does not change its verdict. */
  lemma HyphenInsensitive(d: string)
    requires |d| == 16
    ensures Classify(d) == Classify(Group(d))
  {
    var g := Group(d);
    GroupFormat(d);
    StripGroup(d);
    WithHyphenExactly(d);
    WithoutHyphenExactly(g);
  }

  /** A line holding any character other than a digit or a hyphen is Invalid. */
  lemma ForeignCharacterInvalid(s: string, i: int)
    requires 0 <= i < |s| && !IsDigit(s[i]) && s[i] != '-'
    ensures Classify(s) == Invalid
  {
    WithoutHyphenExactly(s);
    WithHyphenExactly(s);
  }

  /** An ungrouped line of digits with no run of four is Valid. */
  lemma UngroupedVerdict(s: string)
    requires WithoutHyphen(s)
    ensures Classify(s) == Valid <==> NoFourRun(s)
  {
    WithoutHyphenExactly(s);
    StripHyphensNoHyphen(s);
    ClassifyExactly(s);
  }

  /** A well-formed ungrouped line in which no two neighbouring digits are
      equal is Valid. */
  lemma DistinctNeighboursValid(s: string)
    requires WithoutHyphen(s)
    requires forall i :: 0 <= i < |s| - 1 ==> s[i] != s[i + 1]
    ensures Classify(s) == Valid
  {
    forall i | 0 <= i < |s|
      ensures !FourRunAt(s, i)
    {
      if i + 3 < |s| {
        assert s[i + 1] != s[i];
      }
    }
    UngroupedVerdict(s);
  }

  /** Worked examples of the verdict. Each example is passed
      in as a parameter so that the verifier reasons through the lemmas above
      instead of unfolding every definition on the literal. */
  lemma ScenarioUngroupedValid(s: string)
    requires s == "4123456789123456" || s == "5123456789123456"
    ensures Classify(s) == Valid
  {
    WithoutHyphenExactly(s);
    DistinctNeighboursValid(s);
  }

  /** A pair of equal digits is allowed. */
  lemma ScenarioPairValid(s: string)
    requires s == "4123356789123456"
    ensures Classify(s) == Valid
  {
    assert WithoutHyphen(s) by {
      WithoutHyphenExactly(s);
    }
    assert NoFourRun(s) by {
      forall i | 0 <= i < |s|
        ensures !FourRunAt(s, i)
      {
        if i + 3 < |s| {
          assert s[i + 1] != s[i] || s[i + 2] != s[i];
        }
      }
    }
    UngroupedVerdict(s);
  }

  /** Three equal digits in a row are allowed. */
  lemma ScenarioTripleValid(s: string)
    requires s == "4442555366647770"
    ensures Classify(s) == Valid
  {
    assert WithoutHyphen(s) by {
      WithoutHyphenExactly(s);
    }
    assert NoFourRun(s) by {
      forall i | 0 <= i < |s|
        ensures !FourRunAt(s, i)
      {
        if i + 3 < |s| {
          assert s[i + 1] != s[i] || s[i + 2] != s[i] || s[i + 3] != s[i];
        }
      }
    }
    UngroupedVerdict(s);
  }

  /** A grouped number whose digits are Valid is Valid. */
  lemma ScenarioGroupedValid(s: string)
    requires s == "5123-4567-8912-3456"
    ensures Classify(s) == Valid
  {
    var d := "5123456789123456";
    assert Group(d) == s;
    ScenarioUngroupedValid(d);
    HyphenInsensitive(d);
  }

  /** Groups of the wrong width fail check B. */
  lemma ScenarioWrongGroupingInvalid(s: string)
    requires s == "61234-567-8912-3456"
    ensures Classify(s) == Invalid
  {
    WithoutHyphenExactly(s);
    WithHyphenExactly(s);
  }

  /** Fifteen digits fail both format checks. */
  lemma ScenarioShortInvalid(s: string)
    requires s == "123456789123456"
    ensures Classify(s) == Invalid
  {
    // Both format checks unfold directly on a string of this length.
  }

  /** Four or more equal digits in a row make a well-formed number Invalid. */
  lemma ScenarioRunInvalid(s: string)
    requires s == "5500005555555555" || s == "4111111111111111"
    ensures Classify(s) == Invalid
  {
    StripHyphensNoHyphen(s);
    FourRunFails(s, if s == "5500005555555555" then 6 else 1);
  }

  /** Hyphens between the groups do not break a run. */
  lemma ScenarioGroupedRunInvalid(s: string)
    requires s == "4111-1111-1111-1111"
    ensures Classify(s) == Invalid
  {
    var d := "4111111111111111";
    assert Group(d) == s;
    ScenarioRunInvalid(d);
    HyphenInsensitive(d);
  }
}
