/** The search `re.search(r'(\{[\s\S]*\})', raw)` both language-model
    replies go through. `[\s\S]` matches every character, so a match is any
    slice that starts with '{', ends with a later '}', and may hold anything
    in between; `re.search` takes the leftmost start and the greedy `*`
    the longest match from there. */
module JsonSpan {
  import opened Results
  import opened Text

  /** `s[i..j]` matches the pattern. */
  ghost predicate IsMatch(s: string, i: int, j: int) {
    0 <= i && i + 2 <= j <= |s| && s[i] == '{' && s[j - 1] == '}'
  }

  /** `s[i..j]` is the match `re.search` reports: no match starts further
      left, and none that starts at `i` runs further right. */
  ghost predicate IsSearchResult(s: string, i: int, j: int) {
    && IsMatch(s, i, j)
    && (forall i', j' :: IsMatch(s, i', j') ==> i <= i')
    && (forall j' :: IsMatch(s, i, j') ==> j' <= j)
  }

  /** The bounds of the match: from the first '{' to the last '}', when
      that '}' comes after the '{'. */
  function FindSpan(s: string): (r: Option<(nat, nat)>)
    ensures r.Some? ==> IsSearchResult(s, r.value.0, r.value.1)
    ensures r.None? <==> forall i, j :: !IsMatch(s, i, j)
  {
    match IndexOf(s, '{')
    case None => None
    case Some(i) =>
      match LastIndexOf(s, '}')
      case None => None
      case Some(j) => if i < j then Some((i, j + 1)) else None
  }

  /** The text of the match, `m.group(1)`, or `None` when `re.search`
      returns no match. */
  function SearchJson(s: string): (r: Option<string>)
    ensures r.Some? <==> exists i, j :: IsMatch(s, i, j)
    ensures r.Some? ==> exists i, j :: IsSearchResult(s, i, j) && r.value == s[i..j]
    ensures r.Some? ==> |r.value| >= 2 && r.value[0] == '{' && r.value[|r.value| - 1] == '}'
  {
    match FindSpan(s)
    case None => None
    case Some((i, j)) => Some(s[i..j])
  }

  /** `re.search` reports one match at most. */
  lemma SearchResultUnique(s: string, i1: int, j1: int, i2: int, j2: int)
    requires IsSearchResult(s, i1, j1) && IsSearchResult(s, i2, j2)
    ensures i1 == i2 && j1 == j2
  {
  }

  /** A match inside a slice of `s` is a match in `s`, shifted. */
  lemma MatchOfSlice(s: string, a: int, b: int, i: int, j: int)
    requires 0 <= a <= b <= |s|
    ensures IsMatch(s[a..b], i, j) ==> IsMatch(s, a + i, a + j)
  {
    if IsMatch(s[a..b], i, j) {
      assert s[a + i] == s[a..b][i] && s[a + j - 1] == s[a..b][j - 1];
    }
  }

  /** With no brace outside `s[a..b]`, every match of `s` lies in that slice. */
  lemma MatchInSlice(s: string, a: int, b: int, i: int, j: int)
    requires 0 <= a <= b <= |s|
    requires forall k :: 0 <= k < a ==> s[k] != '{' && s[k] != '}'
    requires forall k :: b <= k < |s| ==> s[k] != '{' && s[k] != '}'
    ensures IsMatch(s, i, j) ==> IsMatch(s[a..b], i - a, j - a)
  {
    if IsMatch(s, i, j) {
      assert a <= i && j <= b;
      assert s[a..b][i - a] == s[i] && s[a..b][j - a - 1] == s[j - 1];
    }
  }

  /** With no brace outside the slice `t == s[a..b]`, `s` has no match when
      the slice has none. */
  lemma {:induction false} FindSpanPaddedNone(s: string, a: int, b: int, t: string)
    requires 0 <= a <= b <= |s| && t == s[a..b]
    requires forall k :: 0 <= k < a ==> s[k] != '{' && s[k] != '}'
    requires forall k :: b <= k < |s| ==> s[k] != '{' && s[k] != '}'
    requires FindSpan(t) == None
    ensures FindSpan(s) == None
  {
    forall i, j ensures !IsMatch(s, i, j) {
      MatchInSlice(s, a, b, i, j);
    }
  }

  /** With no brace outside the slice `t == s[a..b]`, the bounds found in
      `s` are those found in the slice, shifted by `a`. */
  lemma {:induction false} FindSpanPaddedSome(s: string, a: int, b: int, t: string, i: int, j: int)
    requires 0 <= a <= b <= |s| && t == s[a..b]
    requires forall k :: 0 <= k < a ==> s[k] != '{' && s[k] != '}'
    requires forall k :: b <= k < |s| ==> s[k] != '{' && s[k] != '}'
    requires FindSpan(t) == Some((i, j))
    ensures FindSpan(s) == Some((a + i, a + j))
  {
    MatchOfSlice(s, a, b, i, j);
    var st, en := a + i, a + j;
    forall i', j' ensures IsMatch(s, i', j') ==> st <= i' {
      MatchInSlice(s, a, b, i', j');
    }
    forall j' ensures IsMatch(s, st, j') ==> j' <= en {
      MatchInSlice(s, a, b, st, j');
    }
    assert IsSearchResult(s, st, en);
    var r := FindSpan(s);
    assert r.Some?;
    SearchResultUnique(s, st, en, r.value.0, r.value.1);
    assert r.value == (st, en);
  }

  lemma SliceOfSlice(s: string, a: int, b: int, i: int, j: int)
    requires 0 <= a <= b <= |s| && 0 <= i <= j <= b - a
    ensures s[a..b][i..j] == s[a + i..a + j]
  {
    assert forall k :: 0 <= k < j - i ==> s[a..b][i..j][k] == s[a + i + k];
  }

  /** The text `SearchJson` returns is the slice `FindSpan` bounds. */
  lemma SearchJsonOfSpan(s: string, i: int, j: int)
    requires 0 <= i <= j <= |s| && FindSpan(s) == Some((i, j))
    ensures SearchJson(s) == Some(s[i..j])
  {
  }

  /** Bounds that delimit the same text give the same search result. */
  lemma {:induction false} SameSpanText(s: string, t: string, i: int, j: int, a: int)
    requires 0 <= i <= j <= |t| && 0 <= a + i <= a + j <= |s|
    requires FindSpan(t) == Some((i, j)) && FindSpan(s) == Some((a + i, a + j))
    requires t[i..j] == s[a + i..a + j]
    ensures SearchJson(t) == SearchJson(s)
  {
    SearchJsonOfSpan(t, i, j);
    SearchJsonOfSpan(s, a + i, a + j);
  }

  /** Characters without braces around `s[a..b]` do not move the match:
      searching the slice finds the same text as searching all of `s`. */
  lemma {:induction false} SearchJsonIgnoresBracelessPadding(s: string, a: int, b: int, t: string)
    requires 0 <= a <= b <= |s| && t == s[a..b]
    requires forall k :: 0 <= k < a ==> s[k] != '{' && s[k] != '}'
    requires forall k :: b <= k < |s| ==> s[k] != '{' && s[k] != '}'
    ensures SearchJson(t) == SearchJson(s)
  {
    match FindSpan(t)
    case None =>
      FindSpanPaddedNone(s, a, b, t);
      assert SearchJson(t) == None;
    case Some((i, j)) =>
      FindSpanPaddedSome(s, a, b, t, i, j);
      SliceOfSlice(s, a, b, i, j);
      SameSpanText(s, t, i, j, a);
  }

  lemma SpaceIsNotBrace(c: char)
    ensures IsSpace(c) ==> c != '{' && c != '}'
  {
  }

  /** What `Strip` cuts off holds no brace. */
  lemma StrippedPartsHaveNoBrace(s: string)
    ensures forall k :: 0 <= k < LeadingSpace(s) ==> s[k] != '{' && s[k] != '}'
    ensures forall k :: LeadingSpace(s) + |Strip(s)| <= k < |s| ==> s[k] != '{' && s[k] != '}'
  {
    var a := LeadingSpace(s);
    var r := Strip(s);
    forall k | 0 <= k < a ensures s[k] != '{' && s[k] != '}' {
      assert s[k] == s[..a][k];
      SpaceIsNotBrace(s[k]);
    }
    forall k | a + |r| <= k < |s| ensures s[k] != '{' && s[k] != '}' {
      assert s[k] == s[a + |r|..][k - a - |r|];
      SpaceIsNotBrace(s[k]);
    }
  }

  /** The model's reply is stripped before the search; the stripped
      whitespace never holds a brace, so the match is the one the raw reply
      would give. */
  lemma {:induction false} SearchJsonAfterStrip(s: string)
    ensures SearchJson(Strip(s)) == SearchJson(s)
  {
    var a := LeadingSpace(s);
    var r := Strip(s);
    StrippedPartsHaveNoBrace(s);
    SearchJsonIgnoresBracelessPadding(s, a, a + |r|, r);
  }

  /** A reply that is one brace-delimited text is matched whole. */
  lemma SearchJsonWhole(m: string)
    requires |m| >= 2 && m[0] == '{' && m[|m| - 1] == '}'
    ensures SearchJson(m) == Some(m)
  {
    assert IsSearchResult(m, 0, |m|);
    var (i, j) := FindSpan(m).value;
    SearchResultUnique(m, 0, |m|, i, j);
    assert m[0..|m|] == m;
  }

  /** Prose without braces before and after the object is ignored. */
  lemma {:induction false} SearchJsonSkipsProse(before: string, m: string, after: string)
    requires |m| >= 2 && m[0] == '{' && m[|m| - 1] == '}'
    requires forall k :: 0 <= k < |before| ==> before[k] != '{' && before[k] != '}'
    requires forall k :: 0 <= k < |after| ==> after[k] != '{' && after[k] != '}'
    ensures SearchJson(before + m + after) == Some(m)
  {
    var s := before + m + after;
    assert s[|before|..|before| + |m|] == m;
    SearchJsonIgnoresBracelessPadding(s, |before|, |before| + |m|, m);
    SearchJsonWhole(m);
  }

  /** The match is not balanced-brace parsing: with two objects in a reply,
      the text from the first '{' to the last '}' is taken, prose included. */
  lemma SearchJsonSpansTwoObjects()
    ensures SearchJson("{\"a\": 1} and {\"b\": 2}") == Some("{\"a\": 1} and {\"b\": 2}")
  {
    SearchJsonWhole("{\"a\": 1} and {\"b\": 2}");
  }

  /** An illustration of `FindSpan`'s condition on one input: a '}' only
      before the '{' gives no match. */
  lemma SearchJsonNeedsCloseAfterOpen()
    ensures SearchJson("} {") == None
  {
    assert !IsMatch("} {", 2, 3);
  }
}
