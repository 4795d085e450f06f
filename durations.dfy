/** The string work of scene 3 on a title's `duration`: the case-sensitive test
    `duration.includes('Season')` and `parseInt(duration.match(/\d+/)[0])`, the value of the
    first maximal run of ASCII digits. */
module Durations {

  const SeasonWord := "Season"

  /** `\d` of a JavaScript regular expression: an ASCII decimal digit. */
  predicate IsDigit(c: char) {
    '0' <= c <= '9'
  }

  ghost predicate OccursAt(s: string, pat: string, i: nat) {
    i + |pat| <= |s| && s[i..i + |pat|] == pat
  }

  /** `s.includes(pat)`: `pat` occurs in `s` at some position. */
  function Includes(s: string, pat: string): (b: bool)
    ensures b <==> exists i: nat :: OccursAt(s, pat, i)
  {
    if |s| < |pat| then
      assert forall i: nat :: !OccursAt(s, pat, i);
      false
    else if s[..|pat|] == pat then
      assert OccursAt(s, pat, 0);
      true
    else
      var rest := Includes(s[1..], pat);
      assert forall i: nat :: OccursAt(s[1..], pat, i) ==> OccursAt(s, pat, i + 1) by {
        forall i: nat | OccursAt(s[1..], pat, i) ensures OccursAt(s, pat, i + 1) {
          assert s[i + 1..i + 1 + |pat|] == s[1..][i..i + |pat|];
        }
      }
      assert forall i: nat :: OccursAt(s, pat, i) ==> i > 0 && OccursAt(s[1..], pat, i - 1) by {
        forall i: nat | OccursAt(s, pat, i) ensures i > 0 && OccursAt(s[1..], pat, i - 1) {
          assert s[1..][i - 1..i - 1 + |pat|] == s[i..i + |pat|];
        }
      }
      rest
  }

  /** `s` contains a digit. */
  function HasDigit(s: string): (b: bool)
    ensures b <==> exists i :: 0 <= i < |s| && IsDigit(s[i])
  {
    if |s| == 0 then false
    else if IsDigit(s[0]) then true
    else
      assert forall i :: 0 < i < |s| ==> s[i] == s[1..][i - 1];
      HasDigit(s[1..])
  }

  /** The position of the first digit of `s`. */
  function FirstDigit(s: string): (i: nat)
    requires HasDigit(s)
    ensures i < |s| && IsDigit(s[i])
    ensures forall j :: 0 <= j < i ==> !IsDigit(s[j])
  {
    if IsDigit(s[0]) then 0 else 1 + FirstDigit(s[1..])
  }

  /** The end of the run of digits that starts at position `i`. */
  function RunEnd(s: string, i: nat): (j: nat)
    requires i <= |s|
    ensures i <= j <= |s|
    ensures forall k :: i <= k < j ==> IsDigit(s[k])
    ensures j == |s| || !IsDigit(s[j])
    decreases |s| - i
  {
    if i < |s| && IsDigit(s[i]) then RunEnd(s, i + 1) else i
  }

  /** `run` stands in `s` at position `i`, no digit comes before it and none right after it. */
  ghost predicate FirstRunAt(s: string, run: string, i: nat) {
    && i + |run| <= |s|
    && s[i..i + |run|] == run
    && (forall j :: 0 <= j < i ==> !IsDigit(s[j]))
    && (i + |run| == |s| || !IsDigit(s[i + |run|]))
  }

  /** `s.match(/\d+/)[0]`: the leftmost, longest run of digits. */
  function FirstDigitRun(s: string): (run: string)
    requires HasDigit(s)
    ensures |run| > 0 && forall k :: 0 <= k < |run| ==> IsDigit(run[k])
    ensures exists i: nat :: FirstRunAt(s, run, i)
  {
    var i := FirstDigit(s);
    var run := s[i..RunEnd(s, i)];
    assert FirstRunAt(s, run, i);
    run
  }

  function DigitValue(c: char): nat
    requires IsDigit(c)
  {
    c as int - '0' as int
  }

  /** `parseInt` of a string of decimal digits. */
  function DecimalValue(ds: string): nat
    requires forall k :: 0 <= k < |ds| ==> IsDigit(ds[k])
  {
    if ds == [] then 0 else DecimalValue(ds[..|ds| - 1]) * 10 + DigitValue(ds[|ds| - 1])
  }

  /** The `season_count` scene 3 writes onto a title. */
  function SeasonCount(duration: string): nat
    requires HasDigit(duration)
  {
    DecimalValue(FirstDigitRun(duration))
  }

  /** The decimal spelling of `n`, as the data writes the number in "3 Seasons". */
  function Decimal(n: nat): (ds: string)
    ensures |ds| > 0 && forall k :: 0 <= k < |ds| ==> IsDigit(ds[k])
  {
    var d := ['0' + ((n % 10) as char)];
    if n < 10 then d else Decimal(n / 10) + d
  }

  lemma {:induction false} DecimalRoundTrip(n: nat)
    ensures DecimalValue(Decimal(n)) == n
  {
    var ds := Decimal(n);
    if n >= 10 {
      DecimalRoundTrip(n / 10);
      assert ds[..|ds| - 1] == Decimal(n / 10);
    }
  }

  /** A duration written "<n> Season..." (or any text after the number that does not start
      with a digit) holds a digit, and its season count is `n`. */
  lemma SeasonCountOfSpelled(n: nat, rest: string)
    requires rest == [] || !IsDigit(rest[0])
    ensures HasDigit(Decimal(n) + rest)
    ensures SeasonCount(Decimal(n) + rest) == n
  {
    var ds := Decimal(n);
    var s := ds + rest;
    assert IsDigit(s[0]);
    assert FirstDigit(s) == 0;
    var j := RunEnd(s, 0);
    assert j == |ds| by {
      assert forall k :: 0 <= k < |ds| ==> s[k] == ds[k];
      assert |ds| < |s| ==> s[|ds|] == rest[0];
    }
    assert FirstDigitRun(s) == ds;
    DecimalRoundTrip(n);
  }

  /** "<n> Seasons" and "<n> Season" contain the word scene 3 looks for. */
  lemma SpelledIncludesSeason(n: nat, plural: bool)
    ensures var s := Decimal(n) + " " + SeasonWord + (if plural then "s" else "");
      Includes(s, SeasonWord) && HasDigit(s) && SeasonCount(s) == n
  {
    var s := Decimal(n) + " " + SeasonWord + (if plural then "s" else "");
    var i := |Decimal(n)| + 1;
    assert s[i..i + |SeasonWord|] == SeasonWord;
    assert OccursAt(s, SeasonWord, i);
    assert s == Decimal(n) + (" " + SeasonWord + (if plural then "s" else ""));
    SeasonCountOfSpelled(n, " " + SeasonWord + (if plural then "s" else ""));
  }
}
