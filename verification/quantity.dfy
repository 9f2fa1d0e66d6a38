/**
 * The quantity parser of `check_stock`: the first match of the regular expression
 * `Stock:\s*(\d+)` in an item's stock text, read as an integer, or 0 without a match.
 */
module Quantity {
  import opened Wrappers
  import opened Text

  /** The literal that opens the pattern. */
  const Label: string := "Stock:"

  /** The label occurs in `s` at position `i`. */
  predicate LabelAt(s: string, i: int) {
    0 <= i && i + |Label| <= |s| && s[i..i + |Label|] == Label
  }

  /** The pattern matches `s` at `i` with whitespace run `s[i+6..k]` and captured
      digit group `s[k..e]`. */
  predicate MatchSpan(s: string, i: int, k: int, e: int) {
    && LabelAt(s, i)
    && i + |Label| <= k < e <= |s|
    && AllSpaces(s[i + |Label|..k])
    && AllDigits(s[k..e])
  }

  /** Some match of the pattern starts at `i` (`re.match` succeeds at `i`). */
  ghost predicate MatchesAt(s: string, i: int) {
    exists k, e :: MatchSpan(s, i, k, e)
  }

  /** The match `re.search` reports: it starts at the leftmost position where the
      pattern matches, and the greedy `\s*` and `\d+` take as much as they can. */
  ghost predicate SearchResult(s: string, i: int, k: int, e: int) {
    && MatchSpan(s, i, k, e)
    && (e == |s| || !IsDigit(s[e]))
    && (forall j :: 0 <= j < i ==> !MatchesAt(s, j))
  }

  /** A match found by the scanner: its start, the start of the digit group and
      the end of the digit group. */
  datatype Span = Span(start: nat, digits: nat, end: nat)

  /** The end of the whitespace run of `s` that starts at `k`. */
  function SpaceEnd(s: string, k: nat): (r: nat)
    requires k <= |s|
    ensures k <= r <= |s|
    ensures AllSpaces(s[k..r])
    ensures r == |s| || !IsSpace(s[r])
    decreases |s| - k
  {
    if k < |s| && IsSpace(s[k]) then
      var r := SpaceEnd(s, k + 1);
      assert s[k..r] == [s[k]] + s[k + 1..r];
      r
    else k
  }

  /** The end of the digit run of `s` that starts at `k`. */
  function DigitEnd(s: string, k: nat): (r: nat)
    requires k <= |s|
    ensures k <= r <= |s|
    ensures AllDigits(s[k..r])
    ensures r == |s| || !IsDigit(s[r])
    decreases |s| - k
  {
    if k < |s| && IsDigit(s[k]) then
      var r := DigitEnd(s, k + 1);
      assert s[k..r] == [s[k]] + s[k + 1..r];
      r
    else k
  }

  /** A space run cannot stop early before a digit: when `s[k0..k]` is whitespace
      and `s[k]` is a digit, the whitespace run from `k0` ends exactly at `k`. */
  lemma SpaceEndAtDigit(s: string, k0: nat, k: nat)
    requires k0 <= k < |s|
    requires AllSpaces(s[k0..k]) && IsDigit(s[k])
    ensures SpaceEnd(s, k0) == k
  {
    var r := SpaceEnd(s, k0);
    assert forall j :: k0 <= j < k ==> IsSpace(s[j]) by {
      forall j | k0 <= j < k ensures IsSpace(s[j]) { assert s[k0..k][j - k0] == s[j]; }
    }
    assert forall j :: k0 <= j < r ==> IsSpace(s[j]) by {
      forall j | k0 <= j < r ensures IsSpace(s[j]) { assert s[k0..r][j - k0] == s[j]; }
    }
  }

  /** Tries the pattern at position `i` alone (Python's `re.match` at `i`). */
  function MatchAt(s: string, i: nat): (r: Option<Span>)
    requires i <= |s|
    ensures r.Some? <==> MatchesAt(s, i)
    ensures r.Some? ==> r.value.start == i && MatchSpan(s, i, r.value.digits, r.value.end)
    ensures r.Some? ==> r.value.end == |s| || !IsDigit(s[r.value.end])
  {
    if LabelAt(s, i) then
      var k := SpaceEnd(s, i + |Label|);
      if k < |s| && IsDigit(s[k]) then
        var e := DigitEnd(s, k);
        assert MatchSpan(s, i, k, e);
        Some(Span(i, k, e))
      else
        assert forall k', e' :: MatchSpan(s, i, k', e') ==> false by {
          forall k', e' | MatchSpan(s, i, k', e') ensures false {
            assert s[k'..e'][0] == s[k'];
            SpaceEndAtDigit(s, i + |Label|, k');
          }
        }
        None
    else
      None
  }

  /** The leftmost match at or after `from` (the scan that `re.search` performs). */
  function SearchFrom(s: string, from: nat): (r: Option<Span>)
    requires from <= |s|
    ensures r.None? ==> forall j :: from <= j <= |s| ==> !MatchesAt(s, j)
    ensures r.Some? ==> from <= r.value.start && MatchSpan(s, r.value.start, r.value.digits, r.value.end)
    ensures r.Some? ==> r.value.end == |s| || !IsDigit(s[r.value.end])
    ensures r.Some? ==> forall j :: from <= j < r.value.start ==> !MatchesAt(s, j)
    decreases |s| - from
  {
    match MatchAt(s, from)
    case Some(m) => Some(m)
    case None =>
      if from == |s| then None else SearchFrom(s, from + 1)
  }

  /** `int(m.group(1))` for the first match `m` of `Stock:\s*(\d+)`, or 0 if none. */
  function ParseQuantity(s: string): (q: nat)
    ensures (forall j :: 0 <= j <= |s| ==> !MatchesAt(s, j)) ==> q == 0
    ensures forall i, k, e :: SearchResult(s, i, k, e) ==> q == DecimalValue(s[k..e])
  {
    match SearchFrom(s, 0)
    case None =>
      forall i, k, e | SearchResult(s, i, k, e) ensures false {
        assert MatchesAt(s, i);
      }
      0
    case Some(m) =>
      assert MatchesAt(s, m.start);
      SearchUnique(s, m.start, m.digits, m.end);
      DecimalValue(s[m.digits..m.end])
  }

  /** `re.search` has one answer: any two leftmost greedy matches coincide. */
  lemma SearchUnique(s: string, i: nat, k: nat, e: nat)
    requires MatchSpan(s, i, k, e) && (e == |s| || !IsDigit(s[e]))
    requires forall j :: 0 <= j < i ==> !MatchesAt(s, j)
    ensures forall i', k', e' :: SearchResult(s, i', k', e') ==> i' == i && k' == k && e' == e
  {
    forall i', k', e' | SearchResult(s, i', k', e')
      ensures i' == i && k' == k && e' == e
    {
      if i' < i { assert MatchesAt(s, i'); }
      if i < i' { assert MatchesAt(s, i); }
      assert s[k..e][0] == s[k];
      assert s[k'..e'][0] == s[k'];
      SpaceEndAtDigit(s, i + |Label|, k);
      SpaceEndAtDigit(s, i + |Label|, k');
      DigitRunUnique(s, k, e, e');
    }
  }

  /** Two maximal digit runs from the same start end at the same place. */
  lemma DigitRunUnique(s: string, k: nat, e: nat, e': nat)
    requires k <= e <= |s| && k <= e' <= |s|
    requires AllDigits(s[k..e]) && (e == |s| || !IsDigit(s[e]))
    requires AllDigits(s[k..e']) && (e' == |s| || !IsDigit(s[e']))
    ensures e == e'
  {
    assert forall j :: k <= j < e ==> IsDigit(s[j]) by {
      forall j | k <= j < e ensures IsDigit(s[j]) { assert s[k..e][j - k] == s[j]; }
    }
    assert forall j :: k <= j < e' ==> IsDigit(s[j]) by {
      forall j | k <= j < e' ensures IsDigit(s[j]) { assert s[k..e'][j - k] == s[j]; }
    }
  }

  /** The stock text a page shows for `n` units, with any whitespace after the label,
      parses back to `n`. */
  lemma QuantityOfStockText(w: string, n: nat)
    requires AllSpaces(w)
    ensures ParseQuantity(Label + w + NatToString(n)) == n
  {
    var d := NatToString(n);
    var s := Label + w + d;
    var k := |Label| + |w|;
    assert LabelAt(s, 0) by { assert s[..|Label|] == Label; }
    assert s[|Label|..k] == w;
    assert s[k..|s|] == d;
    assert MatchSpan(s, 0, k, |s|);
    assert SearchResult(s, 0, k, |s|);
    DecimalValueOfNatToString(n);
  }

  /** Text in which the label never occurs parses to 0. */
  lemma QuantityWithoutLabel(s: string)
    requires forall i :: !LabelAt(s, i)
    ensures ParseQuantity(s) == 0
  {
  }
}
