/** The per-record validator of the credit-card checker: two anchored format
    checks, the removal of hyphens, the repeated-digit check, and the verdict
    that combines them. Every definition here is total over all strings.
 */
module CardNumber {
  import opened Patterns

  /** The leading digits a card number may start with: `[456]`. */
  const LeadDigits: seq<char> := "456"

  /** `^[456]\d{15}$`: sixteen digits, no separators. */
  const UngroupedPattern: Pattern := [Piece(AnyOf(LeadDigits), 1), Piece(Digit, 15)]

  /** `^[456]\d{3}\-\d{4}\-\d{4}\-\d{4}$`: four groups of four digits joined by hyphens. */
  const GroupedPattern: Pattern :=
    [ Piece(AnyOf(LeadDigits), 1), Piece(Digit, 3), Piece(Literal('-'), 1),
      Piece(Digit, 4), Piece(Literal('-'), 1),
      Piece(Digit, 4), Piece(Literal('-'), 1),
      Piece(Digit, 4) ]

  /** Format check A, on the raw line. */
  predicate WithoutHyphen(line: string) {
    FullMatch(UngroupedPattern, line)
  }

  /** Format check B, on the raw line. */
  predicate WithHyphen(line: string) {
    FullMatch(GroupedPattern, line)
  }

  /** `line.replace("-", "")`: every hyphen removed, everything else kept in order. */
  function StripHyphens(line: string): (r: string)
    ensures '-' !in r
    ensures |r| <= |line|
    ensures |r| == |line| <==> '-' !in line
  {
    if line == [] then []
    else (if line[0] == '-' then [] else [line[0]]) + StripHyphens(line[1..])
  }

  /** `(-?\1){k}` at position `j` of `t`, where `\1` has captured the digit `d`:
      `k` more copies of `d`, each optionally preceded by one hyphen. A regular
      expression matches when some choice of the optional hyphens succeeds. */
  predicate RepeatsFrom(t: string, j: nat, d: char, k: nat)
    decreases k
  {
    || k == 0
    || (j < |t| && t[j] == d && RepeatsFrom(t, j + 1, d, k - 1))
    || (j + 1 < |t| && t[j] == '-' && t[j + 1] == d && RepeatsFrom(t, j + 2, d, k - 1))
  }

  /** `(\d)(-?\1){3}` matches starting at position `i` of `t`. */
  predicate RunMatchAt(t: string, i: int) {
    0 <= i < |t| && IsDigit(t[i]) && RepeatsFrom(t, i + 1, t[i], 3)
  }

  /** `re.match(r"(?!.*(\d)(-?\1){3})", t)` succeeds: the lookahead is tried at
      position 0 only, and `.*` lets the inner group start at any position, so
      the check passes exactly when the group matches nowhere in `t`. */
  predicate RepeatCheck(t: string) {
    !exists i :: 0 <= i < |t| && RunMatchAt(t, i)
  }

  /** Four equal digits at positions `i` to `i + 3`. */
  predicate FourRunAt(t: string, i: int) {
    0 <= i && i + 3 < |t| && IsDigit(t[i]) && t[i + 1] == t[i] && t[i + 2] == t[i] && t[i + 3] == t[i]
  }

  /** The repeated-digit rule stated directly: no digit occurs four or more
      times in a row. */
  predicate NoFourRun(t: string) {
    forall i :: 0 <= i < |t| ==> !FourRunAt(t, i)
  }

  datatype Verdict = Valid | Invalid

  /** The verdict for one input line, as the per-record loop body computes it. */
  function Classify(line: string): Verdict
  {
    var withoutHyphen := WithoutHyphen(line);
    var withHyphen := WithHyphen(line);
    var digits := StripHyphens(line);
    var finalCheck := RepeatCheck(digits);
    if (withoutHyphen || withHyphen) && finalCheck then Valid else Invalid
  }

  /** `d` split into four groups of four joined by hyphens: the grouped
      spelling of a sixteen-character number. */
  function Group(d: string): (g: string)
    requires |d| == 16
    ensures |g| == 19 && g[4] == '-' && g[9] == '-' && g[14] == '-'
  {
    d[..4] + "-" + d[4..8] + "-" + d[8..12] + "-" + d[12..]
  }
}
