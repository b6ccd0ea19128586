/**
 * The pieces of Python's `str` and `re` behaviour that the pipeline relies on,
 * restricted to ASCII character classes: `\s` and `str.isspace`, `\w`, `\d`,
 * `[A-Z]`, `str.lower`, substring search (`in`, `re.search` of a literal),
 * `strip`, and the `split(...)[i]` idioms.
 */
module Text {
  import opened Wrappers

  /** `\s` / `str.isspace()` on the ASCII range (the four separators U+001C..U+001F included). */
  predicate IsSpace(c: char) {
    c == ' ' || c == '\t' || c == '\n' || c == '\r' || c == '\U{0B}' || c == '\U{0C}'
    || ('\U{1C}' <= c <= '\U{1F}')
  }

  predicate IsDigit(c: char) { '0' <= c <= '9' }

  predicate IsUpper(c: char) { 'A' <= c <= 'Z' }

  /** `\w` on the ASCII range. */
  predicate IsWordChar(c: char) { 'a' <= c <= 'z' || IsUpper(c) || IsDigit(c) || c == '_' }

  function ToLower(c: char): char {
    if IsUpper(c) then (c as int + 32) as char else c
  }

  /** `s.lower()` with ASCII case folding. */
  function Lower(s: string): string {
    seq(|s|, i requires 0 <= i < |s| => ToLower(s[i]))
  }

  /** What `lower()` does: the length is kept, no `A`-`Z` is left, every upper-case letter becomes
      the lower-case letter 32 code points above it, every other character is kept, and lowering
      twice changes nothing more. */
  lemma LowerMeaning(s: string)
    ensures |Lower(s)| == |s| && Lower(Lower(s)) == Lower(s)
    ensures forall i :: 0 <= i < |s| ==> !IsUpper(Lower(s)[i])
    ensures forall i :: 0 <= i < |s| && IsUpper(s[i]) ==> 'a' <= Lower(s)[i] <= 'z' && Lower(s)[i] as int == s[i] as int + 32
    ensures forall i :: 0 <= i < |s| && !IsUpper(s[i]) ==> Lower(s)[i] == s[i]
  {
  }

  /** `re.IGNORECASE` on a literal: at `k`, every character of `pat` equals the text's character
      once both are lower-cased. */
  predicate MatchesIgnoringCase(s: string, pat: string, k: int) {
    0 <= k && k + |pat| <= |s| && forall j :: 0 <= j < |pat| ==> ToLower(s[k + j]) == ToLower(pat[j])
  }

  /** A case-insensitive match of a literal is an exact match in the lower-cased texts. */
  lemma LowerMatchesIgnoringCase(s: string, pat: string, k: int)
    ensures MatchesAt(Lower(s), Lower(pat), k) <==> MatchesIgnoringCase(s, pat, k)
  {
    if 0 <= k && k + |pat| <= |s| {
      var t := Lower(s)[k..k + |pat|];
      assert forall j :: 0 <= j < |pat| ==> t[j] == ToLower(s[k + j]);
      if MatchesIgnoringCase(s, pat, k) {
        assert t == Lower(pat);
      }
      if t == Lower(pat) {
        forall j | 0 <= j < |pat| ensures ToLower(s[k + j]) == ToLower(pat[j]) {
          assert t[j] == Lower(pat)[j];
        }
      }
    }
  }

  /** `pat` occurs in `s` at offset `k`. A case-insensitive search (`re.IGNORECASE`) of a literal is
      the exact search of `Lower(pat)` in `Lower(s)`, since `Lower` maps character by character. */
  predicate MatchesAt(s: string, pat: string, k: int) {
    0 <= k && k + |pat| <= |s| && s[k..k + |pat|] == pat
  }

  /** Leftmost occurrence of `pat` in `s` at or after `from` (`str.find`, `re.search` of a literal). */
  function Find(s: string, pat: string, from: nat): (r: Option<nat>)
    decreases |s| - from
    ensures r.Some? ==> from <= r.value && r.value + |pat| <= |s| && MatchesAt(s, pat, r.value)
    ensures r.Some? ==> forall k :: from <= k < r.value ==> !MatchesAt(s, pat, k)
    ensures r.None? ==> forall k :: from <= k ==> !MatchesAt(s, pat, k)
  {
    if from + |pat| > |s| then None
    else if MatchesAt(s, pat, from) then Some(from)
    else Find(s, pat, from + 1)
  }

  /** Python's `pat in s`. */
  predicate Contains(s: string, pat: string) {
    Find(s, pat, 0).Some?
  }

  /** `pat in s` holds exactly when `pat` occurs somewhere in `s`. */
  lemma ContainsMeaning(s: string, pat: string)
    ensures Contains(s, pat) <==> exists k :: MatchesAt(s, pat, k)
  {
  }

  /** Searching a suffix `s[a..]` finds what searching `s` from `a` finds, shifted by `a`. */
  lemma {:induction false} FindInSuffix(s: string, pat: string, a: nat, j: nat)
    requires a <= |s|
    ensures Find(s[a..], pat, j).Some? == Find(s, pat, a + j).Some?
    ensures Find(s[a..], pat, j).Some? ==>
              a + Find(s[a..], pat, j).value == Find(s, pat, a + j).value
    decreases |s| - a - j
  {
    var t := s[a..];
    if j + |pat| <= |t| {
      assert t[j..j + |pat|] == s[a + j..a + j + |pat|];
      assert MatchesAt(t, pat, j) == MatchesAt(s, pat, a + j);
      if !MatchesAt(t, pat, j) {
        FindInSuffix(s, pat, a, j + 1);
      }
    }
  }

  /** `re.finditer` of a non-empty literal: the starts of its non-overlapping occurrences, left to right. */
  function FindIter(s: string, pat: string, from: nat): (r: seq<nat>)
    requires |pat| > 0
    decreases |s| - from
    ensures (r == []) == Find(s, pat, from).None?
    ensures r != [] ==> r[0] == Find(s, pat, from).value
    ensures forall i :: 0 <= i < |r| ==> MatchesAt(s, pat, r[i])
    ensures forall i :: 0 <= i < |r| - 1 ==> Spaced(r, |pat|, i)
    // nothing is skipped: each match is the leftmost one after the previous match ends,
    // and there is none after the last
    ensures forall i :: 0 <= i < |r| - 1 ==> FoundNext(s, pat, r, i)
    ensures r != [] ==> Find(s, pat, r[|r| - 1] + |pat|).None?
  {
    match Find(s, pat, from)
    case None => []
    case Some(k) =>
      var rest := FindIter(s, pat, k + |pat|);
      assert rest != [] ==> Find(s, pat, k + |pat|) == Some(rest[0]);
      ShiftFoundNext(s, pat, k, rest);
      ShiftSpaced(k, rest, |pat|);
      [k] + rest
  }

  /** Entry `i + 1` of `r` starts at least `gap` after entry `i`. */
  predicate Spaced(r: seq<nat>, gap: nat, i: nat) {
    i + 1 < |r| && r[i] + gap <= r[i + 1]
  }

  lemma ShiftSpaced(k: nat, rest: seq<nat>, gap: nat)
    requires rest != [] ==> k + gap <= rest[0]
    requires forall i :: 0 <= i < |rest| - 1 ==> Spaced(rest, gap, i)
    ensures forall i :: 0 <= i < |rest| ==> Spaced([k] + rest, gap, i)
  {
    forall i | 0 <= i < |rest|
      ensures Spaced([k] + rest, gap, i)
    {
      if i > 0 {
        assert Spaced(rest, gap, i - 1);
      }
    }
  }

  /** The search that starts where the match `r[i]` ends finds the match `r[i + 1]`. */
  predicate FoundNext(s: string, pat: string, r: seq<nat>, i: nat) {
    i + 1 < |r| && Find(s, pat, r[i] + |pat|) == Some(r[i + 1])
  }

  lemma ShiftFoundNext(s: string, pat: string, k: nat, rest: seq<nat>)
    requires rest != [] ==> Find(s, pat, k + |pat|) == Some(rest[0])
    requires forall i :: 0 <= i < |rest| - 1 ==> FoundNext(s, pat, rest, i)
    ensures forall i :: 0 <= i < |rest| ==> FoundNext(s, pat, [k] + rest, i)
  {
    forall i | 0 <= i < |rest|
      ensures FoundNext(s, pat, [k] + rest, i)
    {
      if i > 0 {
        assert FoundNext(s, pat, rest, i - 1);
      }
    }
  }

  /** Length of the longest run of characters satisfying `p` starting at `i`. */
  function RunLength(s: string, i: nat, p: char -> bool): (n: nat)
    requires i <= |s|
    decreases |s| - i
    ensures i + n <= |s|
    ensures forall j :: i <= j < i + n ==> p(s[j])
    ensures i + n == |s| || !p(s[i + n])
  {
    if i < |s| && p(s[i]) then 1 + RunLength(s, i + 1, p) else 0
  }

  /** Length of the longest run of characters satisfying `p` that ends just before `hi`. */
  function TrailingRun(s: string, hi: nat, p: char -> bool): (n: nat)
    requires hi <= |s|
    ensures n <= hi
    ensures forall j :: hi - n <= j < hi ==> p(s[j])
    ensures n == hi || !p(s[hi - n - 1])
  {
    if hi > 0 && p(s[hi - 1]) then 1 + TrailingRun(s, hi - 1, p) else 0
  }

  /** `s.lstrip(chars)`: drop every leading character satisfying `drop`. */
  function LStrip(s: string, drop: char -> bool): (r: string)
    ensures |r| <= |s| && r == s[|s| - |r|..]
    ensures forall i :: 0 <= i < |s| - |r| ==> drop(s[i])
    ensures r == [] || !drop(r[0])
  {
    s[RunLength(s, 0, drop)..]
  }

  lemma LStripNothing(s: string, drop: char -> bool)
    requires s == [] || !drop(s[0])
    ensures LStrip(s, drop) == s
  {
  }

  /** `s.rstrip(chars)`: drop every trailing character satisfying `drop`. */
  function RStrip(s: string, drop: char -> bool): (r: string)
    ensures |r| <= |s| && r == s[..|r|]
    ensures forall i :: |r| <= i < |s| ==> drop(s[i])
    ensures r == [] || !drop(r[|r| - 1])
  {
    s[..|s| - TrailingRun(s, |s|, drop)]
  }

  lemma RStripNothing(s: string, drop: char -> bool)
    requires s == [] || !drop(s[|s| - 1])
    ensures RStrip(s, drop) == s
  {
  }

  /** `s.strip(chars)`, which is also `s.lstrip().rstrip()`. */
  function Strip(s: string, drop: char -> bool): (r: string)
    ensures |r| <= |s|
    ensures r == [] || (!drop(r[0]) && !drop(r[|r| - 1]))
  {
    RStrip(LStrip(s, drop), drop)
  }

  /** What `strip` keeps is one contiguous slice of the input, and only characters it may drop
      lie before and after that slice. */
  lemma StripIsSlice(s: string, drop: char -> bool)
    ensures DroppedAround(s, Strip(s, drop), |s| - |LStrip(s, drop)|, drop)
  {
    var l := LStrip(s, drop);
    PrefixOfSuffix(s, l, RStrip(l, drop), |s| - |l|, drop);
  }

  /** `r` is the slice of `s` from `a` on, and only characters `drop` accepts lie around it. */
  predicate DroppedAround(s: string, r: string, a: int, drop: char -> bool) {
    && 0 <= a && a + |r| <= |s| && (forall i :: 0 <= i < |r| ==> r[i] == s[a + i])
    && (forall i :: 0 <= i < a ==> drop(s[i]))
    && (forall i :: a + |r| <= i < |s| ==> drop(s[i]))
  }

  /** A prefix `r` of the suffix `l == s[a..]` is the slice `s[a..a + |r|]`, and what follows it
      in `s` is what follows it in `l`. */
  lemma PrefixOfSuffix(s: string, l: string, r: string, a: nat, drop: char -> bool)
    requires a <= |s| && l == s[a..] && |r| <= |l| && r == l[..|r|]
    requires forall i :: |r| <= i < |l| ==> drop(l[i])
    ensures a + |r| <= |s| && forall i :: 0 <= i < |r| ==> r[i] == s[a + i]
    ensures forall i :: a + |r| <= i < |s| ==> drop(s[i])
  {
    forall i | a + |r| <= i < |s| ensures drop(s[i]) {
      assert s[i] == l[i - a];
    }
  }

  /** `s.split(c)[0]`: the text before the first `c`. */
  function BeforeFirst(s: string, c: char): (r: string)
    ensures c !in r
    ensures |r| <= |s| && r == s[..|r|]
    ensures |r| == |s| || s[|r|] == c
  {
    if s == [] || s[0] == c then [] else [s[0]] + BeforeFirst(s[1..], c)
  }

  /** `s.split(c)[-1]`: the text after the last `c`. */
  function AfterLast(s: string, c: char): (r: string)
    ensures c !in r
    ensures |r| <= |s| && r == s[|s| - |r|..]
    ensures |r| == |s| || s[|s| - |r| - 1] == c
  {
    if s == [] || s[|s| - 1] == c then [] else AfterLast(s[..|s| - 1], c) + [s[|s| - 1]]
  }

  /** After a `c` at `k - 1` with no `c` after it, `split(c)[-1]` is the text from `k` on. */
  lemma AfterLastFrom(s: string, c: char, k: nat)
    requires 0 < k <= |s| && s[k - 1] == c && c !in s[k..]
    ensures AfterLast(s, c) == s[k..]
  {
  }

  /** `s.split(sep)[1]` for a non-empty `sep` that occurs in `s`: the text after the first `sep`,
      up to the next `sep` or the end. */
  function SecondField(s: string, sep: string): (r: string)
    requires |sep| > 0 && Contains(s, sep)
    ensures var b := Find(s, sep, 0).value + |sep|;
            && b + |r| <= |s| && r == s[b..b + |r|]
            && (b + |r| == |s| || MatchesAt(s, sep, b + |r|))
            && forall j :: b <= j < b + |r| ==> !MatchesAt(s, sep, j)
    ensures !Contains(r, sep)
  {
    var b := Find(s, sep, 0).value + |sep|;
    s[b..FieldEnd(s, sep, b)]
  }

  /** Where the field that starts at `b` ends: at the next occurrence of `sep`, or at the end. */
  function FieldEnd(s: string, sep: string, b: nat): (e: nat)
    requires |sep| > 0 && b <= |s|
    ensures b <= e <= |s| && (e == |s| || MatchesAt(s, sep, e))
    ensures forall j :: b <= j < e ==> !MatchesAt(s, sep, j)
    ensures !Contains(s[b..e], sep)
  {
    var e := match Find(s, sep, b)
      case Some(e) => e
      case None => |s|;
    NoSeparatorInField(s, sep, b, e);
    e
  }

  /** Every occurrence in the slice `s[lo..hi]` is an occurrence in `s`, shifted by `lo`. */
  lemma SliceOccurrences(s: string, sep: string, lo: nat, hi: nat)
    requires lo <= hi <= |s|
    ensures forall k :: MatchesAt(s[lo..hi], sep, k) ==> MatchesAt(s, sep, lo + k)
  {
    var t := s[lo..hi];
    forall k | MatchesAt(t, sep, k) ensures MatchesAt(s, sep, lo + k) {
      var u, v := t[k..k + |sep|], s[lo + k..lo + k + |sep|];
      forall i | 0 <= i < |sep| ensures u[i] == v[i] {
        assert u[i] == t[k + i] == s[lo + k + i] == v[i];
      }
      assert u == v;
    }
  }

  /** A slice `s[lo..hi]` contains `sep` only if `s` has an occurrence that starts in `[lo, hi)`. */
  lemma NoSeparatorInField(s: string, sep: string, lo: nat, hi: nat)
    requires lo <= hi <= |s| && |sep| > 0
    requires Find(s, sep, lo).Some? ==> Find(s, sep, lo).value >= hi
    ensures !Contains(s[lo..hi], sep)
  {
    SliceOccurrences(s, sep, lo, hi);
  }
}
