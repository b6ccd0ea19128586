/**
 * The second half of `clean_agenda`: the agenda region is cut into items at
 * every boundary token `\b([1-9]|[1-9]\d|100)\.\s+`, scanned left to right
 * without overlap as Python's `re.split` and `re.findall` do. The text before
 * the first token is the preamble and is dropped.
 */
module Segmenter {
  import opened Wrappers
  import opened Text

  predicate IsNonzeroDigit(c: char) { '1' <= c <= '9' }

  /** `\b` in front of a digit: at the start of the text or after a non-word character. */
  predicate WordBoundaryBefore(s: string, k: nat)
    requires k <= |s|
  {
    k == 0 || !IsWordChar(s[k - 1])
  }

  /** An item numeral of `m` characters starts at `k` and is followed by `.`. */
  predicate NumeralThenDot(s: string, k: nat, m: nat) {
    k + m < |s| && IsItemNumeral(s[k..k + m]) && s[k + m] == '.'
  }

  /** How many characters the alternation `[1-9]|[1-9]\d|100` takes at `k`, tried in order, when
      the alternative is followed by `.` (0 when none is). At most one alternative can be followed
      by `.`, so backtracking into the next one never changes the outcome (the last ensures). */
  function NumeralLength(s: string, k: nat): (n: nat)
    requires k <= |s|
    ensures n <= 3
    ensures n > 0 ==> NumeralThenDot(s, k, n)
    ensures forall m :: 1 <= m <= 3 && NumeralThenDot(s, k, m) ==> m == n
  {
    NumeralThenDotCases(s, k);
    if k + 1 < |s| && IsNonzeroDigit(s[k]) && s[k + 1] == '.' then 1
    else if k + 2 < |s| && IsNonzeroDigit(s[k]) && IsDigit(s[k + 1]) && s[k + 2] == '.' then 2
    else if k + 3 < |s| && s[k] == '1' && s[k + 1] == '0' && s[k + 2] == '0' && s[k + 3] == '.' then 3
    else 0
  }

  /** Each alternative of the numeral, followed by `.`, written out character by character. */
  lemma NumeralThenDotCases(s: string, k: nat)
    ensures NumeralThenDot(s, k, 1) <==> k + 1 < |s| && IsNonzeroDigit(s[k]) && s[k + 1] == '.'
    ensures NumeralThenDot(s, k, 2) <==> k + 2 < |s| && IsNonzeroDigit(s[k]) && IsDigit(s[k + 1]) && s[k + 2] == '.'
    ensures NumeralThenDot(s, k, 3) <==>
              k + 3 < |s| && s[k] == '1' && s[k + 1] == '0' && s[k + 2] == '0' && s[k + 3] == '.'
  {
    if k + 3 < |s| {
      var t := s[k..k + 3];
      assert t[0] == s[k] && t[1] == s[k + 1] && t[2] == s[k + 2];
      assert t == "100" <==> s[k] == '1' && s[k + 1] == '0' && s[k + 2] == '0';
    }
  }

  /** A boundary token starts at `k`: word boundary, numeral, `.`, and at least one whitespace. */
  predicate IsToken(s: string, k: nat) {
    k < |s| && WordBoundaryBefore(s, k) && NumeralLength(s, k) > 0
    && k + NumeralLength(s, k) + 1 < |s| && IsSpace(s[k + NumeralLength(s, k) + 1])
  }

  /** `\b([1-9]|[1-9]\d|100)\.\s` matches at `k` exactly when a token starts there. */
  lemma TokenMeaning(s: string, k: nat)
    ensures IsToken(s, k) <==>
              && k < |s| && WordBoundaryBefore(s, k)
              && exists m :: 1 <= m <= 3 && NumeralThenDot(s, k, m) && k + m + 1 < |s| && IsSpace(s[k + m + 1])
  {
    if IsToken(s, k) {
      var m := NumeralLength(s, k);
      assert 1 <= m <= 3 && NumeralThenDot(s, k, m);
    }
  }

  /** `\s+` is greedy: the token ends after the whole whitespace run that follows the `.`. */
  function TokenEnd(s: string, k: nat): (e: nat)
    requires IsToken(s, k)
    ensures k + NumeralLength(s, k) + 2 <= e <= |s|
    ensures forall j :: k + NumeralLength(s, k) + 1 <= j < e ==> IsSpace(s[j])
    ensures e == |s| || !IsSpace(s[e])
  {
    var w := k + NumeralLength(s, k) + 1;
    w + RunLength(s, w, IsSpace)
  }

  predicate NoTokenIn(s: string, lo: nat, hi: nat) {
    forall k: nat :: lo <= k < hi ==> !IsToken(s, k)
  }

  /** The leftmost token starting at or after `pos`. */
  function NextToken(s: string, pos: nat): (r: Option<nat>)
    requires pos <= |s|
    decreases |s| - pos
    ensures r.Some? ==> pos <= r.value < |s| && IsToken(s, r.value) && NoTokenIn(s, pos, r.value)
    ensures r.None? ==> NoTokenIn(s, pos, |s|)
  {
    if pos == |s| then None
    else if IsToken(s, pos) then Some(pos)
    else NextToken(s, pos + 1)
  }

  /** `re.split(pattern, s[pos..])` (the pattern's group is non-capturing, so only the fragments). */
  function SplitFrom(s: string, pos: nat): (r: seq<string>)
    requires pos <= |s|
    decreases |s| - pos
  {
    match NextToken(s, pos)
    case None => [s[pos..]]
    case Some(k) => [s[pos..k]] + SplitFrom(s, TokenEnd(s, k))
  }

  /** `re.findall(pattern, s[pos..])` with the numeral captured. */
  function FindAllFrom(s: string, pos: nat): (r: seq<string>)
    requires pos <= |s|
    decreases |s| - pos
  {
    match NextToken(s, pos)
    case None => []
    case Some(k) => [s[k..k + NumeralLength(s, k)]] + FindAllFrom(s, TokenEnd(s, k))
  }

  /** The full text of each token matched (numeral, `.`, whitespace). */
  function TokenTextsFrom(s: string, pos: nat): (r: seq<string>)
    requires pos <= |s|
    decreases |s| - pos
  {
    match NextToken(s, pos)
    case None => []
    case Some(k) => [s[k..TokenEnd(s, k)]] + TokenTextsFrom(s, TokenEnd(s, k))
  }

  function Split(s: string): (r: seq<string>)
    ensures |r| == |FindAll(s)| + 1
  {
    SplitCounts(s, 0);
    SplitFrom(s, 0)
  }

  function FindAll(s: string): (r: seq<string>)
    ensures forall i :: 0 <= i < |r| ==> IsItemNumeral(r[i])
  {
    TokenShape(s, 0);
    FindAllFrom(s, 0)
  }

  function TokenTexts(s: string): seq<string> { TokenTextsFrom(s, 0) }

  /** `tokens[0] + fragments[0] + tokens[1] + fragments[1] + ...`. */
  function Interleave(tokens: seq<string>, fragments: seq<string>): string
    requires |tokens| == |fragments|
  {
    if tokens == [] then "" else tokens[0] + fragments[0] + Interleave(tokens[1..], fragments[1..])
  }

  /** The split gives one fragment more than there are numerals and tokens. */
  lemma {:induction false} SplitCounts(s: string, pos: nat)
    requires pos <= |s|
    decreases |s| - pos
    ensures |SplitFrom(s, pos)| == |FindAllFrom(s, pos)| + 1
    ensures |TokenTextsFrom(s, pos)| == |FindAllFrom(s, pos)|
  {
    match NextToken(s, pos)
    case None =>
    case Some(k) => SplitCounts(s, TokenEnd(s, k));
  }

  /** Preamble, then each token followed by its fragment, gives back the text. */
  lemma {:induction false} Reconstruction(s: string, pos: nat)
    requires pos <= |s|
    decreases |s| - pos
    ensures |TokenTextsFrom(s, pos)| + 1 == |SplitFrom(s, pos)|
    ensures s[pos..] == SplitFrom(s, pos)[0] + Interleave(TokenTextsFrom(s, pos), SplitFrom(s, pos)[1..])
  {
    SplitCounts(s, pos);
    match NextToken(s, pos)
    case None =>
    case Some(k) =>
      var e := TokenEnd(s, k);
      Reconstruction(s, e);
      var tokens, fragments := TokenTextsFrom(s, e), SplitFrom(s, e);
      calc {
        SplitFrom(s, pos)[0] + Interleave(TokenTextsFrom(s, pos), SplitFrom(s, pos)[1..]);
        { assert SplitFrom(s, pos)[1..] == fragments; }
        s[pos..k] + Interleave([s[k..e]] + tokens, fragments);
        { InterleaveCons(s[k..e], tokens, fragments); }
        s[pos..k] + (s[k..e] + (fragments[0] + Interleave(tokens, fragments[1..])));
        // the text from the end of the token on, by the induction hypothesis
        s[pos..k] + (s[k..e] + s[e..]);
        { SliceSplit(s, k, e); }
        s[pos..k] + s[k..];
        { SliceSplit(s, pos, k); }
        s[pos..];
      }
  }

  lemma InterleaveCons(t: string, tokens: seq<string>, fragments: seq<string>)
    requires |tokens| + 1 == |fragments|
    ensures Interleave([t] + tokens, fragments) == t + (fragments[0] + Interleave(tokens, fragments[1..]))
  {
    assert ([t] + tokens)[1..] == tokens;
    var rest := Interleave(tokens, fragments[1..]);
    assert t + fragments[0] + rest == t + (fragments[0] + rest);
  }

  lemma SliceSplit(s: string, lo: nat, mid: nat)
    requires lo <= mid <= |s|
    ensures s[lo..] == s[lo..mid] + s[mid..]
  {
  }

  /** A token inside the slice `s[lo..hi]` is a token of `s` when the slice starts at a word boundary. */
  lemma TokenInSlice(s: string, lo: nat, hi: nat, j: nat)
    requires lo <= hi <= |s| && WordBoundaryBefore(s, lo)
    requires IsToken(s[lo..hi], j)
    ensures IsToken(s, lo + j)
  {
    var t := s[lo..hi];
    assert forall i :: 0 <= i < |t| ==> t[i] == s[lo + i];
    assert NumeralLength(s, lo + j) == NumeralLength(t, j);
  }

  /** No boundary token starts anywhere in `f`. */
  predicate TokenFree(f: string) {
    forall j: nat :: j < |f| ==> !IsToken(f, j)
  }

  /** A slice that starts at a word boundary and holds no token of `s` holds no token of its own. */
  lemma SliceTokenFree(s: string, lo: nat, hi: nat)
    requires lo <= hi <= |s| && WordBoundaryBefore(s, lo) && NoTokenIn(s, lo, hi)
    ensures TokenFree(s[lo..hi])
  {
    forall j: nat | IsToken(s[lo..hi], j) ensures false {
      TokenInSlice(s, lo, hi, j);
    }
  }

  /** No fragment holds a boundary token of its own: every one was split off. */
  lemma {:induction false} FragmentsHaveNoToken(s: string, pos: nat)
    requires pos <= |s| && WordBoundaryBefore(s, pos)
    decreases |s| - pos
    ensures forall i :: 0 <= i < |SplitFrom(s, pos)| ==> TokenFree(SplitFrom(s, pos)[i])
  {
    var r := SplitFrom(s, pos);
    match NextToken(s, pos)
    case None =>
      SliceTokenFree(s, pos, |s|);
      assert s[pos..|s|] == s[pos..];
    case Some(k) =>
      var e := TokenEnd(s, k);
      SliceTokenFree(s, pos, k);
      assert IsSpace(s[e - 1]);
      FragmentsHaveNoToken(s, e);
      assert r == [s[pos..k]] + SplitFrom(s, e);
  }

  /** `[1-9]|[1-9]\d|100`. */
  predicate IsItemNumeral(n: string) {
    (|n| == 1 && IsNonzeroDigit(n[0]))
    || (|n| == 2 && IsNonzeroDigit(n[0]) && IsDigit(n[1]))
    || n == "100"
  }

  function DigitValue(c: char): nat requires IsDigit(c) { c as nat - '0' as nat }

  /** The value of a decimal numeral. */
  function DecimalValue(n: string): nat
    requires forall i :: 0 <= i < |n| ==> IsDigit(n[i])
  {
    if n == [] then 0 else 10 * DecimalValue(n[..|n| - 1]) + DigitValue(n[|n| - 1])
  }

  /** An item numeral is a decimal literal from 1 to 100 without a leading zero. */
  lemma ItemNumeralValue(n: string)
    requires IsItemNumeral(n)
    ensures forall i :: 0 <= i < |n| ==> IsDigit(n[i])
    ensures n[0] != '0'
    ensures 1 <= DecimalValue(n) <= 100
  {
    if |n| == 2 {
      assert n[..1] == [n[0]];
      assert DecimalValue(n[..1]) == DigitValue(n[0]);
    } else if n == "100" {
      assert n[..2] == "10" && "10"[..1] == "1";
    }
  }

  /** Every decimal literal from 1 to 100 without a leading zero is an item numeral. */
  lemma DecimalItemNumeral(n: string)
    requires n != [] && (forall i :: 0 <= i < |n| ==> IsDigit(n[i])) && n[0] != '0'
    requires 1 <= DecimalValue(n) <= 100
    ensures IsItemNumeral(n)
  {
    if |n| >= 3 {
      LeadingDigitBound(n);
      assert |n| == 3 by {
        if |n| > 3 {
          Pow10AtLeast(|n| - 1);
          assert false;
        }
      }
      {
        var p := n[..2];
        assert p[..1] == [n[0]];
        assert DecimalValue(n) == 10 * (10 * DigitValue(n[0]) + DigitValue(n[1])) + DigitValue(n[2]);
        assert n[0] == '1' && n[1] == '0' && n[2] == '0';
        assert n == "100";
      }
    }
  }

  function Pow10(e: nat): nat { if e == 0 then 1 else 10 * Pow10(e - 1) }

  lemma {:induction false} Pow10AtLeast(e: nat)
    requires e >= 3
    ensures Pow10(e) >= 1000
  {
    if e > 3 {
      Pow10AtLeast(e - 1);
    }
  }

  /** A literal with a non-zero first digit is worth at least 10 to the power of its length less one. */
  lemma {:induction false} LeadingDigitBound(n: string)
    requires n != [] && (forall i :: 0 <= i < |n| ==> IsDigit(n[i])) && n[0] != '0'
    decreases |n|
    ensures DecimalValue(n) >= Pow10(|n| - 1)
  {
    if |n| > 1 {
      var p := n[..|n| - 1];
      assert p[0] == n[0];
      LeadingDigitBound(p);
    } else {
      assert n[..0] == [];
    }
  }

  /** A token text `t` is the numeral `n`, then `.`, then a non-empty run of whitespace. */
  predicate TokenText(n: string, t: string) {
    |n| + 2 <= |t| && t[..|n|] == n && t[|n|] == '.' && forall j :: |n| < j < |t| ==> IsSpace(t[j])
  }

  /** The token at `k`: its numeral is an item numeral and its text has the shape above. */
  lemma TokenAt(s: string, k: nat)
    requires IsToken(s, k)
    ensures IsItemNumeral(s[k..k + NumeralLength(s, k)])
    ensures TokenText(s[k..k + NumeralLength(s, k)], s[k..TokenEnd(s, k)])
  {
    var n, t := s[k..k + NumeralLength(s, k)], s[k..TokenEnd(s, k)];
    assert t[..|n|] == n;
  }

  /** Every captured numeral is an item numeral, and its token is that numeral, `.`,
      and a non-empty whitespace run. */
  lemma {:induction false} TokenShape(s: string, pos: nat)
    requires pos <= |s|
    decreases |s| - pos
    ensures |FindAllFrom(s, pos)| == |TokenTextsFrom(s, pos)|
    ensures forall i :: 0 <= i < |FindAllFrom(s, pos)| ==>
              IsItemNumeral(FindAllFrom(s, pos)[i]) && TokenText(FindAllFrom(s, pos)[i], TokenTextsFrom(s, pos)[i])
  {
    SplitCounts(s, pos);
    match NextToken(s, pos)
    case None =>
    case Some(k) =>
      var e := TokenEnd(s, k);
      TokenShape(s, e);
      TokenAt(s, k);
      assert FindAllFrom(s, pos) == [s[k..k + NumeralLength(s, k)]] + FindAllFrom(s, e);
      assert TokenTextsFrom(s, pos) == [s[k..e]] + TokenTextsFrom(s, e);
  }

  /** A fragment that precedes a token ends at a word boundary: it is empty or its last character
      is not a word character. */
  predicate EndsAtBoundary(f: string) {
    f == [] || !IsWordChar(f[|f| - 1])
  }

  /** A fragment that follows a token does not start with whitespace, since `\s+` took all of it. */
  predicate StartsAfterSpace(f: string) {
    f == [] || !IsSpace(f[0])
  }

  /** Every fragment but the last ends at a word boundary; every fragment but the first does not
      start with whitespace. */
  lemma {:induction false} FragmentEdges(s: string, pos: nat)
    requires pos <= |s|
    decreases |s| - pos
    ensures forall i :: 0 <= i < |SplitFrom(s, pos)| - 1 ==> EndsAtBoundary(SplitFrom(s, pos)[i])
    ensures forall i :: 1 <= i < |SplitFrom(s, pos)| ==> StartsAfterSpace(SplitFrom(s, pos)[i])
  {
    match NextToken(s, pos)
    case None =>
    case Some(k) =>
      var e := TokenEnd(s, k);
      FragmentEdges(s, e);
      var rest := SplitFrom(s, e);
      var all := SplitFrom(s, pos);
      assert all == [s[pos..k]] + rest;
      assert StartsAfterSpace(rest[0]) by {
        match NextToken(s, e)
        case None =>
        case Some(k') =>
      }
      assert EndsAtBoundary(all[0]);
      forall i | 0 <= i < |all| - 1 ensures EndsAtBoundary(all[i]) {
        if i > 0 {
          assert all[i] == rest[i - 1];
        }
      }
      forall i | 1 <= i < |all| ensures StartsAfterSpace(all[i]) {
        assert all[i] == rest[i - 1];
      }
  }
}
