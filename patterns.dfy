/**
 * The three regular expressions that the decoding loops of
 * materials/find.py try in turn on a value text, with the semantics of
 * Python's `re.search` (the leftmost position at which the pattern matches;
 * `\d{1,4}` is greedy and backtracks):
 *
 *   "\d{1,4} - \d{1,4}"   a range written "126 - 178"
 *   "\d{1,4}-\d{1,4}"     a range written "126-178"
 *   "\d{1,4}"             a single number "126"
 *
 * The matched digits become numbers (`float` of at most four decimal
 * digits is a whole number, so it is modelled as a `nat`).
 */
module Patterns {
  import opened Wrappers

  /** `\d` on the ASCII digits. */
  predicate IsDigit(c: char) {
    '0' <= c <= '9'
  }

  predicate NoDigit(s: string) {
    forall k :: 0 <= k < |s| ==> !IsDigit(s[k])
  }

  /** The number of consecutive digits of `s` from position `p` on. */
  function DigitRun(s: string, p: nat): (n: nat)
    requires p <= |s|
    ensures p + n <= |s|
    ensures forall k :: p <= k < p + n ==> IsDigit(s[k])
    ensures p + n == |s| || !IsDigit(s[p + n])
    decreases |s| - p
  {
    if p < |s| && IsDigit(s[p]) then 1 + DigitRun(s, p + 1) else 0
  }

  /** `\d{1,4}` taken greedily: at most four digits of the run. */
  function Greedy(run: nat): nat {
    if run < 4 then run else 4
  }

  function Pow10(n: nat): nat {
    if n == 0 then 1 else 10 * Pow10(n - 1)
  }

  /** The decimal value of a text of digits. */
  function DigitsValue(d: string): (v: nat)
    requires forall k :: 0 <= k < |d| ==> IsDigit(d[k])
    ensures v < Pow10(|d|)
    decreases |d|
  {
    if d == [] then 0
    else
      var digit := d[|d| - 1] as int - '0' as int;
      assert IsDigit(d[|d| - 1]) && 0 <= digit <= 9;
      DigitsValue(d[..|d| - 1]) * 10 + digit
  }

  /** The value of the digits `\d{1,4}` matches at position `p`. */
  function NumberAt(s: string, p: nat): (v: nat)
    requires p <= |s|
    ensures v <= 9999
  {
    var n := Greedy(DigitRun(s, p));
    assert Pow10(n) <= 10000 by { assert Pow10(4) == 10000; }
    DigitsValue(s[p..p + n])
  }

  /** What a range pattern or the number pattern turns into. */
  datatype Number = Scalar(n: nat) | Pair(first: nat, second: nat)

  /** Every number decoded from `\d{1,4}` has at most four digits. */
  predicate Bounded(v: Number) {
    match v
    case Scalar(n) => n <= 9999
    case Pair(a, b) => a <= 9999 && b <= 9999
  }

  /**
   * `\d{1,4}<sep>\d{1,4}` matches at position `p`: the digit run from `p`
   * has one to four digits (a longer run leaves a digit where the separator
   * must be, whatever the backtracking) and is followed by the separator and
   * a digit.
   */
  predicate RangeAt(s: string, p: nat, sep: string)
    requires p <= |s|
  {
    var run := DigitRun(s, p);
    && 1 <= run <= 4
    && p + run + |sep| < |s|
    && s[p + run..p + run + |sep|] == sep
    && IsDigit(s[p + run + |sep|])
  }

  /** The two numbers of the range matched at `p`: the text split on the separator. */
  function RangeValueAt(s: string, p: nat, sep: string): (v: Number)
    requires p <= |s| && RangeAt(s, p, sep)
    ensures v.Pair? && Bounded(v)
  {
    var run := DigitRun(s, p);
    Pair(NumberAt(s, p), NumberAt(s, p + run + |sep|))
  }

  /** The leftmost position from `p` on where the range pattern matches. */
  function SearchRange(s: string, sep: string, p: nat): (r: Option<nat>)
    requires p <= |s|
    ensures r.Some? ==> p <= r.value <= |s| && RangeAt(s, r.value, sep)
    ensures r.Some? ==> forall j :: p <= j < r.value ==> !RangeAt(s, j, sep)
    ensures r.None? ==> forall j :: p <= j <= |s| ==> !RangeAt(s, j, sep)
    decreases |s| - p
  {
    if RangeAt(s, p, sep) then Some(p)
    else if p == |s| then None
    else SearchRange(s, sep, p + 1)
  }

  /** The leftmost position from `p` on where `\d{1,4}` matches: the first digit. */
  function SearchDigit(s: string, p: nat): (r: Option<nat>)
    requires p <= |s|
    ensures r.Some? ==> p <= r.value < |s| && IsDigit(s[r.value])
    ensures r.Some? ==> forall j :: p <= j < r.value ==> !IsDigit(s[j])
    ensures r.None? ==> forall j :: p <= j < |s| ==> !IsDigit(s[j])
    decreases |s| - p
  {
    if p == |s| then None
    else if IsDigit(s[p]) then Some(p)
    else SearchDigit(s, p + 1)
  }

  /**
   * The three searches in their order of precedence: "a - b", then "a-b",
   * then a single number; `None` when none of them matches.
   */
  function MatchValue(s: string): (r: Option<Number>)
    ensures r.None? <==> NoDigit(s)
    ensures r.Some? ==> Bounded(r.value)
  {
    match SearchRange(s, " - ", 0)
    case Some(p) => Some(RangeValueAt(s, p, " - "))
    case None =>
      match SearchRange(s, "-", 0)
      case Some(p) => Some(RangeValueAt(s, p, "-"))
      case None =>
        match SearchDigit(s, 0)
        case Some(p) => Some(Scalar(NumberAt(s, p)))
        case None => None
  }

  /**
   * The precedence of the three searches: the leftmost "a - b" if there is
   * one, else the leftmost "a-b", else the number at the leftmost digit.
   */
  lemma MatchValuePrecedence(s: string)
    ensures (exists p :: 0 <= p <= |s| && RangeAt(s, p, " - ")) ==>
      MatchValue(s) == Some(RangeValueAt(s, SearchRange(s, " - ", 0).value, " - "))
    ensures (forall p :: 0 <= p <= |s| ==> !RangeAt(s, p, " - ")) && (exists p :: 0 <= p <= |s| && RangeAt(s, p, "-")) ==>
      MatchValue(s) == Some(RangeValueAt(s, SearchRange(s, "-", 0).value, "-"))
    ensures (forall p :: 0 <= p <= |s| ==> !RangeAt(s, p, " - ") && !RangeAt(s, p, "-")) && !NoDigit(s) ==>
      SearchDigit(s, 0).Some? && MatchValue(s) == Some(Scalar(NumberAt(s, SearchDigit(s, 0).value)))
    ensures MatchValue(s).Some? && MatchValue(s).value.Scalar? ==>
      && (forall p :: 0 <= p <= |s| ==> !RangeAt(s, p, " - ") && !RangeAt(s, p, "-"))
      && MatchValue(s).value.n == NumberAt(s, SearchDigit(s, 0).value)
  {
    if SearchRange(s, " - ", 0).None? && SearchRange(s, "-", 0).None? {
      assert forall p :: 0 <= p <= |s| ==> !RangeAt(s, p, " - ") && !RangeAt(s, p, "-");
    }
  }

  /** The example of the first pattern: "126 - 178" gives [126, 178]. */
  lemma SpacedRangeExample()
    ensures MatchValue("126 - 178") == Some(Pair(126, 178))
  {
    var s := "126 - 178";
    SpacedRangeExampleFound(s);
    SpacedRangeExampleValue(s);
  }

  lemma SpacedRangeExampleFound(s: string)
    requires s == "126 - 178"
    ensures RangeAt(s, 0, " - ") && SearchRange(s, " - ", 0) == Some(0)
  {
    assert DigitRun(s, 3) == 0;
    assert DigitRun(s, 0) == 3;
    assert s[3..6] == " - ";
  }

  lemma SpacedRangeExampleValue(s: string)
    requires s == "126 - 178" && RangeAt(s, 0, " - ")
    ensures RangeValueAt(s, 0, " - ") == Pair(126, 178)
  {
    assert DigitRun(s, 3) == 0;
    assert DigitRun(s, 0) == 3;
    assert s[0..3] == "126";
    assert DigitsValue("126") == 126;
    assert DigitRun(s, 9) == 0;
    assert DigitRun(s, 6) == 3;
    assert s[6..9] == "178";
    assert DigitsValue("178") == 178;
  }

  /** A text that lacks one of the separator's characters matches no range with it. */
  lemma NoRangeWithout(s: string, sep: string, i: nat)
    requires i < |sep| && sep[i] !in s
    ensures forall p :: 0 <= p <= |s| ==> !RangeAt(s, p, sep)
  {
    forall p | 0 <= p <= |s| ensures !RangeAt(s, p, sep) {
      var q := p + DigitRun(s, p);
      if q + |sep| <= |s| {
        assert s[q..q + |sep|][i] == s[q + i];
      }
    }
  }
  /** The example of the second pattern: "126-178" gives [126, 178]. */
  lemma RangeExample()
    ensures MatchValue("126-178") == Some(Pair(126, 178))
  {
    var s := "126-178";
    assert ' ' !in s;
    NoRangeWithout(s, " - ", 0);
    RangeExampleFound(s);
    RangeExampleValue(s);
  }

  lemma RangeExampleFound(s: string)
    requires s == "126-178"
    ensures RangeAt(s, 0, "-") && SearchRange(s, "-", 0) == Some(0)
  {
    assert DigitRun(s, 3) == 0;
    assert DigitRun(s, 0) == 3;
    assert s[3..4] == "-";
  }

  lemma RangeExampleValue(s: string)
    requires s == "126-178" && RangeAt(s, 0, "-")
    ensures RangeValueAt(s, 0, "-") == Pair(126, 178)
  {
    assert DigitRun(s, 3) == 0;
    assert DigitRun(s, 0) == 3;
    assert s[0..3] == "126";
    assert DigitsValue("126") == 126;
    assert DigitRun(s, 7) == 0;
    assert DigitRun(s, 4) == 3;
    assert s[4..7] == "178";
    assert DigitsValue("178") == 178;
  }

  /** The example of the third pattern: "126" (here with blanks around it) gives 126. */
  lemma NumberExample()
    ensures MatchValue(" 126 ") == Some(Scalar(126))
  {
    var s := " 126 ";
    assert '-' !in s;
    NoRangeWithout(s, " - ", 1);
    NoRangeWithout(s, "-", 0);
    assert SearchDigit(s, 0) == Some(1);
    assert DigitRun(s, 4) == 0;
    assert DigitRun(s, 1) == 3;
    assert s[1..4] == "126";
    assert DigitsValue("126") == 126;
  }
}
