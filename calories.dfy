/**
 * `extract_calories`: the value of the leftmost match of the regular expression
 * `(\d+)\s*kcal`, searched case-insensitively, or 0 when the text has no match.
 */
module Calories {
  import opened Text

  predicate IsDigit(c: char) {
    '0' <= c <= '9'
  }

  ghost predicate AllDigits(d: string) {
    forall i :: 0 <= i < |d| ==> IsDigit(d[i])
  }

  function DigitValue(c: char): (v: nat)
    requires IsDigit(c)
    ensures v < 10
  {
    (c as int) - ('0' as int)
  }

  function DigitChar(v: nat): (c: char)
    requires v < 10
    ensures IsDigit(c) && DigitValue(c) == v
  {
    (('0' as int) + v) as char
  }

  /** The value `int(d)` gives for a run of decimal digits, with no bound on the number of
      digits: the interpreter's limit on digits per conversion is not modelled. */
  function DecimalValue(d: string): nat
    requires AllDigits(d)
  {
    if d == [] then 0 else 10 * DecimalValue(d[..|d| - 1]) + DigitValue(d[|d| - 1])
  }

  /** `str(n)`: the decimal numeral of n, without leading zeros. */
  function DecimalString(n: nat): (d: string)
    ensures |d| > 0 && AllDigits(d)
    ensures DecimalValue(d) == n
  {
    if n < 10 then [DigitChar(n)]
    else
      var p := DecimalString(n / 10);
      var d := p + [DigitChar(n % 10)];
      assert d[..|d| - 1] == p;
      d
  }

  /** A numeral denotes zero exactly when all its digits are `0`. */
  lemma {:induction false} DecimalValueZero(d: string)
    requires AllDigits(d)
    ensures DecimalValue(d) == 0 <==> forall i :: 0 <= i < |d| ==> d[i] == '0'
  {
    if d != [] {
      var p := d[..|d| - 1];
      DecimalValueZero(p);
      assert forall i :: 0 <= i < |p| ==> p[i] == d[i];
    }
  }

  /** The end of the run of digits that starts at i. */
  function DigitRunEnd(s: string, i: nat): (j: nat)
    requires i <= |s|
    ensures i <= j <= |s|
    ensures forall p :: i <= p < j ==> IsDigit(s[p])
    ensures j == |s| || !IsDigit(s[j])
    decreases |s| - i
  {
    if i < |s| && IsDigit(s[i]) then DigitRunEnd(s, i + 1) else i
  }

  /** s[k..k+4] is `kcal` in any mix of upper and lower case. */
  predicate KcalAt(s: string, k: nat) {
    && k + 4 <= |s|
    && LowerChar(s[k]) == 'k'
    && LowerChar(s[k + 1]) == 'c'
    && LowerChar(s[k + 2]) == 'a'
    && LowerChar(s[k + 3]) == 'l'
  }

  /** The regular expression `(\d+)\s*kcal` (case-insensitive) matches s from index i,
      its group `(\d+)` being s[i..j] and `kcal` starting at k. */
  ghost predicate RegexMatch(s: string, i: int, j: int, k: int) {
    && 0 <= i < j <= k <= |s|
    && (forall p :: i <= p < j ==> IsDigit(s[p]))
    && (forall p :: j <= p < k ==> IsSpace(s[p]))
    && KcalAt(s, k)
  }

  ghost predicate HasMatch(s: string) {
    exists i, j, k :: RegexMatch(s, i, j, k)
  }

  /** The match that `re.search` reports: it starts at i, no match starts earlier,
      and its group is s[i..j]. */
  ghost predicate LeftmostMatch(s: string, i: int, j: int) {
    && (exists k :: RegexMatch(s, i, j, k))
    && forall i', j', k' :: RegexMatch(s, i', j', k') ==> i <= i'
  }

  /** The scanner's test for a match starting at i: greedy digits, greedy blanks, `kcal`. */
  predicate MatchesAt(s: string, i: nat)
    requires i <= |s|
  {
    i < |s| && IsDigit(s[i]) && KcalAt(s, SkipSpaces(s, DigitRunEnd(s, i)))
  }

  lemma KcalStart(s: string, k: nat)
    requires KcalAt(s, k)
    ensures !IsDigit(s[k]) && !IsSpace(s[k])
  {
  }

  /** Backtracking cannot help: a match from i exists exactly when the greedy scan
      succeeds, and then its group is the whole digit run. */
  lemma MatchesAtIff(s: string, i: nat)
    requires i <= |s|
    ensures MatchesAt(s, i) <==> exists j, k :: RegexMatch(s, i, j, k)
    ensures forall j, k :: RegexMatch(s, i, j, k) ==> j == DigitRunEnd(s, i) && k == SkipSpaces(s, j)
  {
    forall j, k | RegexMatch(s, i, j, k) ensures j == DigitRunEnd(s, i) && k == SkipSpaces(s, j) {
      var e := DigitRunEnd(s, i);
      KcalStart(s, k);
      assert !IsDigit(s[j]) || j < e;
      var f := SkipSpaces(s, j);
    }
    if MatchesAt(s, i) {
      var j := DigitRunEnd(s, i);
      assert RegexMatch(s, i, j, SkipSpaces(s, j));
    }
  }

  /** `re.search` from position i on: the span of group 1 of the leftmost match. */
  function SearchFrom(s: string, i: nat): (r: Option<(nat, nat)>)
    requires i <= |s|
    ensures r.Some? ==> i <= r.value.0 < r.value.1 <= |s|
    ensures r.Some? ==> forall p :: r.value.0 <= p < r.value.1 ==> IsDigit(s[p])
    decreases |s| - i
  {
    if i == |s| then None
    else if MatchesAt(s, i) then Some((i, DigitRunEnd(s, i)))
    else SearchFrom(s, i + 1)
  }

  function Search(s: string): Option<(nat, nat)> {
    SearchFrom(s, 0)
  }

  /** `extract_calories(energy_str)`. */
  function ExtractCalories(energy: string): nat {
    match Search(energy)
    case None => 0
    case Some((i, j)) => DecimalValue(energy[i..j])
  }

  lemma {:induction false} SearchFromSpec(s: string, i: nat)
    requires i <= |s|
    requires forall i', j, k :: RegexMatch(s, i', j, k) ==> i <= i'
    ensures SearchFrom(s, i).None? <==> !HasMatch(s)
    ensures SearchFrom(s, i).Some? ==> LeftmostMatch(s, SearchFrom(s, i).value.0, SearchFrom(s, i).value.1)
    decreases |s| - i
  {
    if i == |s| {
      assert forall i', j, k :: !RegexMatch(s, i', j, k);
    } else {
      MatchesAtIff(s, i);
      if MatchesAt(s, i) {
        var j := DigitRunEnd(s, i);
        assert RegexMatch(s, i, j, SkipSpaces(s, j));
      } else {
        SearchFromSpec(s, i + 1);
      }
    }
  }

  /** What `re.search` returns: nothing exactly when there is no match, otherwise
      the group of the leftmost match, which is determined uniquely. */
  lemma SearchSpec(s: string)
    ensures Search(s).None? <==> !HasMatch(s)
    ensures Search(s).Some? ==> LeftmostMatch(s, Search(s).value.0, Search(s).value.1)
    ensures forall i, j, i', j' :: LeftmostMatch(s, i, j) && LeftmostMatch(s, i', j') ==> i == i' && j == j'
  {
    SearchFromSpec(s, 0);
    forall i, j, i', j' | LeftmostMatch(s, i, j) && LeftmostMatch(s, i', j') ensures i == i' && j == j' {
      var k :| RegexMatch(s, i, j, k);
      var k' :| RegexMatch(s, i', j', k');
      MatchesAtIff(s, i);
    }
  }

  /** `extract_calories` gives 0 when nothing matches, and otherwise the number
      written by the digits of the leftmost match. */
  lemma ExtractCaloriesSpec(s: string)
    ensures !HasMatch(s) ==> ExtractCalories(s) == 0
    ensures forall i, j :: LeftmostMatch(s, i, j) ==> AllDigits(s[i..j]) && ExtractCalories(s) == DecimalValue(s[i..j])
  {
    SearchSpec(s);
    forall i, j | LeftmostMatch(s, i, j) ensures AllDigits(s[i..j]) && ExtractCalories(s) == DecimalValue(s[i..j]) {
      var k :| RegexMatch(s, i, j, k);
      assert AllDigits(s[i..j]) by {
        forall p | 0 <= p < j - i ensures IsDigit(s[i..j][p]) {
          assert s[i..j][p] == s[i + p];
        }
      }
    }
  }

  /** The result is 0 exactly when there is no match or the matched digits are all `0`
      (so `0 kcal` also yields 0). */
  lemma ExtractCaloriesZero(s: string)
    ensures ExtractCalories(s) == 0 <==>
      !HasMatch(s) || exists i, j :: LeftmostMatch(s, i, j) && forall p :: i <= p < j ==> s[p] == '0'
  {
    SearchSpec(s);
    ExtractCaloriesSpec(s);
    if HasMatch(s) {
      var i := Search(s).value.0;
      var j := Search(s).value.1;
      DecimalValueZero(s[i..j]);
      assert (forall p :: 0 <= p < j - i ==> s[i..j][p] == '0') <==> (forall p :: i <= p < j ==> s[p] == '0') by {
        forall p | 0 <= p < j - i ensures s[i..j][p] == s[i + p] { }
      }
    }
  }

  /** A quantity written as a numeral, optional blanks, and `kcal` in any case is read back. */
  lemma ExtractCaloriesOfQuantity(n: nat, blanks: string, unit: string, rest: string)
    requires AllSpace(blanks)
    requires |unit| == 4 && KcalAt(unit, 0)
    ensures ExtractCalories(DecimalString(n) + blanks + unit + rest) == n
  {
    var d := DecimalString(n);
    var s := d + blanks + unit + rest;
    var j := |d|;
    var k := |d| + |blanks|;
    assert s[k..k + 4] == unit;
    assert KcalAt(s, k) by {
      assert s[k] == unit[0] && s[k + 1] == unit[1] && s[k + 2] == unit[2] && s[k + 3] == unit[3];
    }
    KcalStart(s, k);
    assert RegexMatch(s, 0, j, k) by {
      assert forall p :: 0 <= p < j ==> s[p] == d[p];
      assert forall p :: j <= p < k ==> s[p] == blanks[p - j];
    }
    MatchesAtIff(s, 0);
    assert s[0..j] == d;
  }

  lemma Example250()
    ensures ExtractCalories("250 kcal") == 250
  {
    var s := "250 kcal";
    assert DecimalValue(s[0..3]) == 250 by {
      assert s[0..3] == "250";
      assert "250"[..2] == "25" && "25"[..1] == "2";
    }
    assert RegexMatch(s, 0, 3, 4);
    ExtractCaloriesSpec(s);
    assert LeftmostMatch(s, 0, 3);
  }

  lemma Example300()
    ensures ExtractCalories("300 KCAL") == 300
  {
    var s := "300 KCAL";
    assert DecimalValue(s[0..3]) == 300 by {
      assert s[0..3] == "300";
      assert "300"[..2] == "30" && "30"[..1] == "3";
    }
    assert RegexMatch(s, 0, 3, 4);
    ExtractCaloriesSpec(s);
    assert LeftmostMatch(s, 0, 3);
  }

  lemma ExampleNoData()
    ensures ExtractCalories("no data") == 0
  {
    var none := "no data";
    forall i, j, k ensures !RegexMatch(none, i, j, k) {
      assert 0 <= i < |none| ==> !IsDigit(none[i]);
    }
    ExtractCaloriesSpec(none);
  }
}
