/** A character-by-character implementation of the validator and of the
    per-record driver loop, proved to compute exactly the verdicts of the
    functional definitions in `CardNumber`.
 */
module ClassifyScan {
  import opened Patterns
  import opened CardNumber
  import opened CardNumberProps

  /** Anchored match of a fixed-width pattern by one pass over the line. */
  method MatchAnchored(p: Pattern, s: string) returns (ok: bool)
    ensures ok == FullMatch(p, s)
  {
    FullMatchPositional(p, s);
    var classes := Expand(p);
    if |s| != |classes| {
      return false;
    }
    ok := true;
    var i := 0;
    while i < |s| && ok
      invariant 0 <= i <= |s|
      invariant ok <==> forall j :: 0 <= j < i ==> InClass(s[j], classes[j])
    {
      ok := InClass(s[i], classes[i]);
      i := i + 1;
    }
  }

  /** Hyphen removal by one pass that copies every other character. */
  method RemoveHyphens(s: string) returns (out: string)
    ensures out == StripHyphens(s)
  {
    out := [];
    var i := 0;
    while i < |s|
      invariant 0 <= i <= |s|
      invariant out == StripHyphens(s[..i])
    {
      assert s[..i + 1] == s[..i] + [s[i]];
      StripHyphensAppend(s[..i], [s[i]]);
      if s[i] != '-' {
        out := out + [s[i]];
      }
      i := i + 1;
    }
    assert s[..i] == s;
  }

  /** Looks for four equal digits in a row by counting the length of the
      run of equal characters that ends at each position. */
  method FindFourRun(t: string) returns (found: bool)
    ensures found <==> !NoFourRun(t)
  {
    found := false;
    var run := 0;
    var i := 0;
    while i < |t| && !found
      invariant 0 <= i <= |t|
      invariant found <==> exists j :: 0 <= j && j + 4 <= i && FourRunAt(t, j)
      invariant i == 0 ==> run == 0
      invariant i > 0 ==> 1 <= run <= i
      invariant i > 0 ==> forall k :: i - run <= k < i ==> t[k] == t[i - 1]
      invariant i > 0 && run < i ==> t[i - 1 - run] != t[i - 1]
    {
      if i > 0 && t[i] == t[i - 1] {
        run := run + 1;
      } else {
        run := 1;
      }
      if run >= 4 && IsDigit(t[i]) {
        assert FourRunAt(t, i - 3);
        found := true;
      } else {
        assert !FourRunAt(t, i - 3) by {
          if run < 4 && i - 3 >= 0 {
            assert t[i - run] != t[i];
          }
        }
      }
      i := i + 1;
    }
  }

  /** The verdict for one line, computed by the four scans in the order of
      the per-record loop body. */
  method ClassifyLine(line: string) returns (v: Verdict)
    ensures v == Classify(line)
  {
    var withoutHyphen := MatchAnchored(UngroupedPattern, line);
    var withHyphen := MatchAnchored(GroupedPattern, line);
    var digits := RemoveHyphens(line);
    var repeated := FindFourRun(digits);
    RepeatCheckIsNoFourRun(digits);
    if (withoutHyphen || withHyphen) && !repeated {
      v := Valid;
    } else {
      v := Invalid;
    }
  }

  /** The text the driver prints for a verdict. */
  function Render(v: Verdict): string
  {
    match v
    case Valid => "Valid"
    case Invalid => "Invalid"
  }

  /** The driver loop over the records already read: one output line per
      record, in input order, each the rendered verdict of that record. */
  method ClassifyRecords(records: seq<string>) returns (output: seq<string>)
    ensures |output| == |records|
    ensures forall i :: 0 <= i < |records| ==>
              (output[i] == "Valid" <==> Classify(records[i]) == Valid)
    ensures forall i :: 0 <= i < |records| ==> output[i] in {"Valid", "Invalid"}
  {
    output := [];
    var i := 0;
    while i < |records|
      invariant 0 <= i <= |records|
      invariant |output| == i
      invariant forall k :: 0 <= k < i ==> output[k] == Render(Classify(records[k]))
    {
      var v := ClassifyLine(records[i]);
      output := output + [Render(v)];
      i := i + 1;
    }
  }
}
