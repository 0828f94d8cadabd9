/** `extractJournalName` (scripts/content.js:48-61): the journal name is the
    trimmed text before the first volume or page number of a citation's
    metadata line, once a trailing ", <year>" has been removed.

    The two regular expressions are modelled by what they match, not by a
    regular-expression engine: `/,\s*\d{4}$/` by HasYearSuffix and
    `/^([^0-9]+?)\s*\d/` by a lazy group tried at lengths 1, 2, ... */
module JournalName {
  import opened Wrappers
  import opened Text

  predicate AllDigits(s: string) {
    forall i :: 0 <= i < |s| ==> IsDigit(s[i])
  }

  /** `/,\s*\d{4}$/` matches `s` from index `p`: a comma, whitespace, and
      exactly the four digits that end the string. */
  predicate HasYearSuffix(s: string, p: int) {
    0 <= p && p + 5 <= |s| && s[p] == ',' &&
    AllSpaces(s[p + 1..|s| - 4]) && AllDigits(s[|s| - 4..])
  }

  /** Start of the run of whitespace that ends just before index `j`. */
  function SpaceRunStart(s: string, j: nat): (i: nat)
    requires j <= |s|
    ensures i <= j && AllSpaces(s[i..j])
    ensures i == 0 || !IsSpace(s[i - 1])
    decreases j
  {
    if j > 0 && IsSpace(s[j - 1]) then
      var i := SpaceRunStart(s, j - 1);
      assert s[i..j] == s[i..j - 1] + [s[j - 1]];
      i
    else
      j
  }

  /** `citationText.replace(/,\s*\d{4}$/, '')` (line 50). */
  function StripYear(s: string): (r: string)
    ensures forall p :: HasYearSuffix(s, p) ==> r == s[..p]
    ensures r == s || exists p :: HasYearSuffix(s, p)
  {
    if |s| >= 5 && AllDigits(s[|s| - 4..]) then
      var i := SpaceRunStart(s, |s| - 4);
      if i > 0 && s[i - 1] == ',' then
        assert HasYearSuffix(s, i - 1);
        YearSuffixUnique(s, i - 1);
        s[..i - 1]
      else
        assert forall p :: !HasYearSuffix(s, p) by {
          forall p | HasYearSuffix(s, p) ensures false {
            SuffixComma(s, p, i);
          }
        }
        s
    else
      s
  }

  /** The comma of a year suffix sits just before the whitespace run. */
  lemma SuffixComma(s: string, p: int, i: nat)
    requires HasYearSuffix(s, p)
    requires i <= |s| - 4 && AllSpaces(s[i..|s| - 4]) && (i == 0 || !IsSpace(s[i - 1]))
    ensures i == p + 1
  {
  }

  /** The regular expression can match from one index only. */
  lemma YearSuffixUnique(s: string, q: int)
    requires HasYearSuffix(s, q)
    ensures forall p :: HasYearSuffix(s, p) ==> p == q
  {
    forall p | HasYearSuffix(s, p) ensures p == q {
      SuffixComma(s, p, q + 1);
    }
  }

  /** `\s*\d` matches at the start of `u`. */
  predicate SpacesThenDigit(u: string)
    decreases |u|
  {
    |u| > 0 && (IsDigit(u[0]) || (IsSpace(u[0]) && SpacesThenDigit(u[1..])))
  }

  /** The lazy group `([^0-9]+?)` tried at length `len`, then `len + 1`, ...:
      the first length after which `\s*\d` matches wins; the group can only
      grow over a non-digit. `t[..len]` holds no digit. */
  function LazyGroupEnd(t: string, len: nat): (r: Option<nat>)
    requires 1 <= len <= |t|
    ensures r.Some? ==> len <= r.value <= |t| && SpacesThenDigit(t[r.value..])
    decreases |t| - len
  {
    if SpacesThenDigit(t[len..]) then Some(len)
    else if len < |t| && !IsDigit(t[len]) then LazyGroupEnd(t, len + 1)
    else None
  }

  /** Capture group 1 of `citationText.match(/^([^0-9]+?)\s*\d/)` (line 54),
      or None when there is no match. */
  function MatchGroup(t: string): Option<string> {
    if |t| > 0 && !IsDigit(t[0]) then
      match LazyGroupEnd(t, 1)
      case Some(e) => Some(t[..e])
      case None => None
    else
      None
  }

  /** `extractJournalName(citationText)` (lines 48-61). The group is never
      empty, so `match && match[1]` holds exactly when the match succeeds. */
  function ExtractJournalName(citationText: string): string {
    var t := StripYear(citationText);
    match MatchGroup(t)
    case Some(group) => Trim(group)
    case None => ""
  }

  /** Index of the first digit of `t`, if any. */
  function FirstDigit(t: string): (r: Option<nat>)
    ensures r.None? ==> NoDigits(t)
    ensures r.Some? ==> r.value < |t| && IsDigit(t[r.value]) && NoDigits(t[..r.value])
    decreases |t|
  {
    if t == [] then None
    else if IsDigit(t[0]) then Some(0)
    else match FirstDigit(t[1..])
      case None => None
      case Some(k) =>
        assert t[..k + 1] == [t[0]] + t[1..][..k];
        Some(k + 1)
  }

  lemma {:induction false} NoDigitNoMatch(u: string)
    requires NoDigits(u)
    ensures !SpacesThenDigit(u)
    decreases |u|
  {
    if |u| > 0 {
      NoDigitNoMatch(u[1..]);
    }
  }

  /** Before the first digit, `\s*\d` matches exactly where only whitespace
      is left before that digit. */
  lemma {:induction false} SpacesThenDigitBefore(u: string, k: nat)
    requires k < |u| && IsDigit(u[k]) && NoDigits(u[..k])
    ensures SpacesThenDigit(u) <==> AllSpaces(u[..k])
    decreases k
  {
    if k > 0 {
      assert u[..k][0] == u[0];
      assert u[1..][..k - 1] == u[..k][1..];
      SpacesThenDigitBefore(u[1..], k - 1);
      assert AllSpaces(u[..k]) <==> IsSpace(u[0]) && AllSpaces(u[1..][..k - 1]);
    }
  }

  /** The lazy group ends at the first length from which only whitespace is
      left before the first digit `k`. */
  lemma {:induction false} LazyGroupFindsDigit(t: string, len: nat, k: nat)
    requires 1 <= len <= k < |t| && IsDigit(t[k]) && NoDigits(t[..k])
    ensures LazyGroupEnd(t, len).Some?
    ensures len <= LazyGroupEnd(t, len).value <= k
    ensures AllSpaces(t[LazyGroupEnd(t, len).value..k])
    decreases k - len
  {
    assert t[len..][..k - len] == t[len..k];
    assert forall i :: 0 <= i < k - len ==> t[len..k][i] == t[..k][len + i];
    SpacesThenDigitBefore(t[len..], k - len);
    if !SpacesThenDigit(t[len..]) {
      assert t[..k][len] == t[len];
      LazyGroupFindsDigit(t, len + 1, k);
    }
  }

  lemma {:induction false} LazyGroupNoDigit(t: string, len: nat)
    requires 1 <= len <= |t| && NoDigits(t)
    ensures LazyGroupEnd(t, len).None?
    decreases |t| - len
  {
    NoDigitNoMatch(t[len..]);
    if len < |t| {
      LazyGroupNoDigit(t, len + 1);
    }
  }

  /** The regular expression's group, trimmed, is the trimmed text before the
      first digit; there is no match when the text has no digit or starts
      with one. */
  lemma MatchGroupBeforeFirstDigit(t: string)
    ensures FirstDigit(t).None? ==> MatchGroup(t).None?
    ensures FirstDigit(t) == Some(0) ==> MatchGroup(t).None?
    ensures FirstDigit(t).Some? && FirstDigit(t).value > 0 ==>
              MatchGroup(t).Some? && Trim(MatchGroup(t).value) == Trim(t[..FirstDigit(t).value])
  {
    match FirstDigit(t)
    case None =>
      if |t| > 0 {
        LazyGroupNoDigit(t, 1);
      }
    case Some(k) =>
      if k > 0 {
        assert t[..k][0] == t[0];
        LazyGroupFindsDigit(t, 1, k);
        var e := LazyGroupEnd(t, 1).value;
        assert t[..k] == t[..e] + t[e..k];
        TrimAppendSpaces(t[..e], t[e..k]);
      }
  }

  /** The characterisation of `extractJournalName`: with `t` the text once the
      year suffix is stripped and `k` its first digit, the result is
      `trim(t[..k])`, and "" when there is no digit or `k` is 0. */
  lemma ExtractIsTrimmedPrefix(citationText: string)
    ensures var t := StripYear(citationText);
      ExtractJournalName(citationText) ==
        match FirstDigit(t)
        case None => ""
        case Some(k) => if k == 0 then "" else Trim(t[..k])
  {
    MatchGroupBeforeFirstDigit(StripYear(citationText));
  }

  /** The extracted name holds no digit and neither starts nor ends with
      whitespace. */
  lemma ExtractedNameShape(citationText: string)
    ensures var r := ExtractJournalName(citationText);
      NoDigits(r) && (r == [] || (!IsSpace(r[0]) && !IsSpace(r[|r| - 1])))
  {
    var t := StripYear(citationText);
    ExtractIsTrimmedPrefix(citationText);
    match FirstDigit(t)
    case None =>
    case Some(k) =>
      if k > 0 {
        var p := t[..k];
        TrimShape(p);
        forall i | 0 <= i < |Trim(p)| ensures !IsDigit(Trim(p)[i]) {
          var c := Trim(p)[i];
          assert c in p;
          var j :| 0 <= j < |p| && p[j] == c;
        }
      }
  }

  /** A citation with no digit left after the year suffix, or whose first
      character is a digit, yields "". */
  lemma ExtractEmptyWithoutLeadingName(citationText: string)
    requires var t := StripYear(citationText); NoDigits(t) || (|t| > 0 && IsDigit(t[0]))
    ensures ExtractJournalName(citationText) == ""
  {
    var t := StripYear(citationText);
    ExtractIsTrimmedPrefix(citationText);
  }

  /** A digit with no digit before it is the first digit. */
  lemma FirstDigitAt(t: string, k: nat)
    requires k < |t| && IsDigit(t[k]) && NoDigits(t[..k])
    ensures FirstDigit(t) == Some(k)
  {
    match FirstDigit(t)
    case None =>
    case Some(j) =>
  }

  /** The worked example of the source's comment on line 53. */
  lemma ExampleNature()
    ensures ExtractJournalName("Nature 489 (7414), 91-100, 2016") == "Nature"
  {
    var s := "Nature 489 (7414), 91-100, 2016";
    assert HasYearSuffix(s, 25);
    var t := StripYear(s);
    assert t == s[..25];
    assert t[..7] == s[..7];
    assert s[..7] == "Nature ";
    assert t[7] == '4';
    FirstDigitAt(t, 7);
    ExtractIsTrimmedPrefix(s);
    assert TrimStart("Nature ") == "Nature ";
    assert "Nature "[..6] == "Nature";
    assert TrimEnd("Nature ") == "Nature";
  }

  /** Only a year is left after the journal name: "" comes back. */
  lemma ExampleYearOnly()
    ensures ExtractJournalName("Nature, 2016") == ""
  {
    var s := "Nature, 2016";
    assert HasYearSuffix(s, 6);
    assert StripYear(s) == "Nature";
    assert NoDigits("Nature");
    ExtractEmptyWithoutLeadingName(s);
  }
}
