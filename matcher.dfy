/**
 * `_match_attachments_to_docket_list`: each link's title is canonicalised by
 * `re.sub(r'^.*?([A-Z]+-\d+-\d+)', r'\1', title)` and stripped, and the link is
 * attached to the first docket item whose raw text contains the title or its
 * canonical form; links that match no item are collected as unmatched.
 */
module Matcher {
  import opened Wrappers
  import opened Text
  import opened Hyperlinks
  import opened Docket
  import opened Routing

  /* ---------- canonicalisation ---------- */

  /** Length of the maximal run of `[A-Z]` at `k`. */
  function UpperRun(s: string, k: nat): (n: nat)
    requires k <= |s|
    decreases |s| - k
    ensures k + n <= |s|
    ensures forall j :: k <= j < k + n ==> IsUpper(s[j])
    ensures k + n == |s| || !IsUpper(s[k + n])
  {
    if k < |s| && IsUpper(s[k]) then 1 + UpperRun(s, k + 1) else 0
  }

  /** Length of the maximal run of `\d` at `k`. */
  function DigitRun(s: string, k: nat): (n: nat)
    requires k <= |s|
    decreases |s| - k
    ensures k + n <= |s|
    ensures forall j :: k <= j < k + n ==> IsDigit(s[j])
    ensures k + n == |s| || !IsDigit(s[k + n])
  {
    if k < |s| && IsDigit(s[k]) then 1 + DigitRun(s, k + 1) else 0
  }

  /** `[A-Z]+-\d+-\d+` matches at `k`. Neither `[A-Z]` nor `\d` matches `-`, so each greedy run can
      only be followed by `-` at its full length: backtracking never finds another match
      (`IdentifierMeaning` proves this). */
  predicate IdentifierAt(s: string, k: nat) {
    k <= |s| && UpperRun(s, k) > 0
    && var a := k + UpperRun(s, k);
    a < |s| && s[a] == '-' && DigitRun(s, a + 1) > 0
    && var b := a + 1 + DigitRun(s, a + 1);
    b < |s| && s[b] == '-' && DigitRun(s, b + 1) > 0
  }

  /** Length of the identifier that matches at `k` (the last `\d+` is greedy too). */
  function IdentifierLength(s: string, k: nat): (n: nat)
    requires IdentifierAt(s, k)
    ensures k + n <= |s|
  {
    var a := k + UpperRun(s, k);
    var b := a + 1 + DigitRun(s, a + 1);
    b + 1 + DigitRun(s, b + 1) - k
  }

  /** `t` splits as `[A-Z]+`, `-` at `a`, `\d+`, `-` at `b`, `\d+`. */
  predicate IdentifierSplit(t: string, a: nat, b: nat) {
    && 0 < a && a + 1 < b && b + 1 < |t|
    && (forall i :: 0 <= i < a ==> IsUpper(t[i])) && t[a] == '-'
    && (forall i :: a < i < b ==> IsDigit(t[i])) && t[b] == '-'
    && (forall i :: b < i < |t| ==> IsDigit(t[i]))
  }

  /** The whole of `t` matches `[A-Z]+-\d+-\d+`. */
  predicate IsIdentifier(t: string) {
    exists a: nat, b: nat :: a < b < |t| && IdentifierSplit(t, a, b)
  }

  /** The `n` characters from `k` on are an identifier. */
  predicate IdentifierText(s: string, k: nat, n: nat) {
    k + n <= |s| && IsIdentifier(s[k..k + n])
  }

  /** An identifier matches at `k` exactly when some text starting at `k` is an identifier, and the
      match takes the longest such text. */
  lemma IdentifierMeaning(s: string, k: nat)
    ensures IdentifierAt(s, k) <==> exists n: nat :: IdentifierText(s, k, n)
    ensures IdentifierAt(s, k) ==>
              && IdentifierText(s, k, IdentifierLength(s, k))
              && forall n: nat :: IdentifierText(s, k, n) ==> n <= IdentifierLength(s, k)
  {
    forall n: nat | IdentifierText(s, k, n) ensures IdentifierAt(s, k) && n <= IdentifierLength(s, k) {
      IdentifierMatchesAt(s, k, n);
    }
    if IdentifierAt(s, k) {
      IdentifierAtMatches(s, k);
    }
  }

  lemma IdentifierAtMatches(s: string, k: nat)
    requires IdentifierAt(s, k)
    ensures IdentifierText(s, k, IdentifierLength(s, k))
  {
    var n := IdentifierLength(s, k);
    var t := s[k..k + n];
    var a := UpperRun(s, k);
    var b := a + 1 + DigitRun(s, k + a + 1);
    assert forall i :: 0 <= i < n ==> t[i] == s[k + i];
    assert IdentifierSplit(t, a, b);
  }

  /** Each greedy run must stop just where the split of an identifier puts its `-` (neither
      `[A-Z]` nor `\d` matches `-`), and the last run takes at least the identifier's last digits. */
  lemma IdentifierMatchesAt(s: string, k: nat, n: nat)
    requires IdentifierText(s, k, n)
    ensures IdentifierAt(s, k) && n <= IdentifierLength(s, k)
  {
    var t := s[k..k + n];
    var a: nat, b: nat :| a < b < |t| && IdentifierSplit(t, a, b);
    SplitInText(s, k, n, a, b);
    RunsOfSplit(s, k, n, a, b);
  }

  /** The split of `s[k..k + n]`, read off in `s`. */
  predicate SplitAt(s: string, k: nat, n: nat, a: nat, b: nat) {
    && 0 < a && a + 1 < b && b + 1 < n && k + n <= |s|
    && (forall j :: k <= j < k + a ==> IsUpper(s[j])) && s[k + a] == '-'
    && (forall j :: k + a + 1 <= j < k + b ==> IsDigit(s[j])) && s[k + b] == '-'
    && (forall j :: k + b + 1 <= j < k + n ==> IsDigit(s[j]))
  }

  lemma SplitInText(s: string, k: nat, n: nat, a: nat, b: nat)
    requires k + n <= |s| && IdentifierSplit(s[k..k + n], a, b)
    ensures SplitAt(s, k, n, a, b)
  {
    var t := s[k..k + n];
    forall j | k <= j < k + a ensures IsUpper(s[j]) { assert s[j] == t[j - k]; }
    forall j | k + a + 1 <= j < k + b ensures IsDigit(s[j]) { assert s[j] == t[j - k]; }
    forall j | k + b + 1 <= j < k + n ensures IsDigit(s[j]) { assert s[j] == t[j - k]; }
    assert s[k + a] == t[a] && s[k + b] == t[b];
  }

  lemma RunsOfSplit(s: string, k: nat, n: nat, a: nat, b: nat)
    requires SplitAt(s, k, n, a, b)
    ensures IdentifierAt(s, k) && n <= IdentifierLength(s, k)
  {
    UpperRunIs(s, k, a);
    var a' := k + UpperRun(s, k);
    DigitRunIs(s, a' + 1, b - a - 1);
    var b' := a' + 1 + DigitRun(s, a' + 1);
    assert b' == k + b;
    DigitRunAtLeast(s, b' + 1, n - b - 1);
  }

  lemma UpperRunIs(s: string, k: nat, a: nat)
    requires k + a < |s| && !IsUpper(s[k + a]) && forall j :: k <= j < k + a ==> IsUpper(s[j])
    ensures UpperRun(s, k) == a
  {
  }

  lemma DigitRunIs(s: string, k: nat, a: nat)
    requires k + a < |s| && !IsDigit(s[k + a]) && forall j :: k <= j < k + a ==> IsDigit(s[j])
    ensures DigitRun(s, k) == a
  {
  }

  lemma DigitRunAtLeast(s: string, k: nat, a: nat)
    requires k + a <= |s| && forall j :: k <= j < k + a ==> IsDigit(s[j])
    ensures DigitRun(s, k) >= a
  {
  }

  predicate NoNewlineBetween(s: string, lo: nat, hi: nat)
    requires lo <= hi <= |s|
  {
    forall j :: lo <= j < hi ==> s[j] != '\n'
  }

  /** Where the group of `^.*?([A-Z]+-\d+-\d+)` starts, searching from `q`: the lazy `.*?` tries
      the shortest prefix first and, like `.`, cannot step over a newline. */
  function IdentifierSearch(s: string, q: nat): (r: Option<nat>)
    requires q <= |s|
    decreases |s| - q
    ensures r.Some? ==> q <= r.value < |s| && IdentifierAt(s, r.value)
    ensures r.Some? ==> NoNewlineBetween(s, q, r.value) && forall k :: q <= k < r.value ==> !IdentifierAt(s, k)
    ensures r.None? ==> forall k :: q <= k < |s| && NoNewlineBetween(s, q, k) ==> !IdentifierAt(s, k)
  {
    if q == |s| then None
    else if IdentifierAt(s, q) then Some(q)
    else if s[q] == '\n' then None
    else IdentifierSearch(s, q + 1)
  }

  /** `re.sub(r'^.*?([A-Z]+-\d+-\d+)', r'\1', title).lstrip().rstrip()`: the match from the start of
      the title to the end of the identifier is replaced by the identifier, which drops the prefix. */
  function Canonical(title: string): (r: string)
    ensures |r| <= |title|
  {
    match IdentifierSearch(title, 0)
    case Some(p) => Strip(title[p..], IsSpace)
    case None => Strip(title, IsSpace)
  }

  /** With an identifier at `p` and no newline and no other identifier before it, the canonical form
      is what follows the prefix, stripped of surrounding whitespace, and it starts with that identifier. */
  lemma CanonicalDropsPrefix(title: string, p: nat)
    requires p < |title| && IdentifierAt(title, p)
    requires NoNewlineBetween(title, 0, p) && forall k :: 0 <= k < p ==> !IdentifierAt(title, k)
    ensures Canonical(title) == Strip(title[p..], IsSpace)
    ensures IdentifierLength(title, p) <= |Canonical(title)|
    ensures forall i :: 0 <= i < IdentifierLength(title, p) ==> Canonical(title)[i] == title[p + i]
  {
    SearchFinds(title, 0, p);
    CanonicalAtSearch(title, p);
  }

  lemma CanonicalAtSearch(title: string, p: nat)
    requires p < |title| && IdentifierSearch(title, 0) == Some(p)
    ensures Canonical(title) == Strip(title[p..], IsSpace)
    ensures IdentifierLength(title, p) <= |Canonical(title)|
    ensures forall i :: 0 <= i < IdentifierLength(title, p) ==> Canonical(title)[i] == title[p + i]
  {
    var n, t := IdentifierLength(title, p), title[p..];
    IdentifierEdges(title, p);
    StripKeepsPrefix(t, n, IsSpace);
  }

  /** An identifier starts with an upper-case letter and ends with a digit. */
  lemma IdentifierEdges(s: string, p: nat)
    requires IdentifierAt(s, p)
    ensures IdentifierLength(s, p) > 0 && IsUpper(s[p]) && IsDigit(s[p + IdentifierLength(s, p) - 1])
  {
    var a := p + UpperRun(s, p);
    var b := a + 1 + DigitRun(s, a + 1);
    assert b + 1 <= p + IdentifierLength(s, p) - 1 < b + 1 + DigitRun(s, b + 1);
  }

  /** `strip` keeps a prefix that starts and ends with characters it may not drop. */
  lemma StripKeepsPrefix(t: string, n: nat, drop: char -> bool)
    requires 0 < n <= |t| && !drop(t[0]) && !drop(t[n - 1])
    ensures n <= |Strip(t, drop)| && forall i :: 0 <= i < n ==> Strip(t, drop)[i] == t[i]
  {
    LStripNothing(t, drop);
    StripIsSlice(t, drop);
    var r := Strip(t, drop);
    assert n - 1 < |r|;
  }

  /** Without an identifier before the first newline, the canonical form is the stripped title. */
  lemma CanonicalWithoutIdentifier(title: string)
    requires forall k :: 0 <= k < |title| && NoNewlineBetween(title, 0, k) ==> !IdentifierAt(title, k)
    ensures Canonical(title) == Strip(title, IsSpace)
  {
  }

  /** The search finds `p` when an identifier starts there and nothing before it, from `q` on, is a
      newline or the start of an identifier. */
  lemma SearchFinds(s: string, q: nat, p: nat)
    requires q <= p < |s| && IdentifierAt(s, p)
    requires NoNewlineBetween(s, q, p) && forall k :: q <= k < p ==> !IdentifierAt(s, k)
    ensures IdentifierSearch(s, q) == Some(p)
  {
    var r := IdentifierSearch(s, q);
    assert r.Some? ==> !(r.value < p) && !(p < r.value);
  }

  /** The suffix after the identifier stays: when the title ends in ".pdf" (a title taken from a URL),
      the canonical form is everything from the identifier on, ".pdf" included. */
  lemma CanonicalKeepsExtension(title: string, p: nat)
    requires p < |title| && IdentifierAt(title, p)
    requires NoNewlineBetween(title, 0, p) && forall k :: 0 <= k < p ==> !IdentifierAt(title, k)
    requires |title| >= 4 && title[|title| - 4..] == PdfSuffix
    ensures Canonical(title) == title[p..]
    ensures |Canonical(title)| >= 4 && Canonical(title)[|Canonical(title)| - 4..] == PdfSuffix
  {
    SearchFinds(title, 0, p);
    CanonicalPdfAtSearch(title, p);
  }

  lemma CanonicalPdfAtSearch(title: string, p: nat)
    requires p < |title| && IdentifierSearch(title, 0) == Some(p)
    requires |title| >= 4 && title[|title| - 4..] == PdfSuffix
    ensures Canonical(title) == title[p..]
    ensures |Canonical(title)| >= 4 && Canonical(title)[|Canonical(title)| - 4..] == PdfSuffix
  {
    CanonicalAtSearch(title, p);
    var t := title[p..];
    IdentifierEdges(title, p);
    assert t[|t| - 1] == title[|title| - 1] == 'f';
    StripNothing(t);
    assert p + 4 <= |title| by {
      assert p + IdentifierLength(title, p) <= |title|;
    }
    TailOfSlice(title, p, 4);
    assert Canonical(title) == t && |t| - 4 == |title| - p - 4;
  }

  /** The last `n` characters of `s[p..]` are the last `n` of `s`. */
  lemma TailOfSlice(s: string, p: nat, n: nat)
    requires p + n <= |s|
    ensures s[p..][|s| - p - n..] == s[|s| - n..]
  {
  }

  lemma StripNothing(t: string)
    requires t != [] && !IsSpace(t[0]) && !IsSpace(t[|t| - 1])
    ensures Strip(t, IsSpace) == t
  {
    LStripNothing(t, IsSpace);
    RStripNothing(t, IsSpace);
  }

  /* ---------- matching, as functions of the docket and the links ---------- */

  /** The test of line 126: the raw text contains the title or its canonical form (the empty string
      is contained in every text). */
  predicate LinkMatches(title: string, canonical: string, rawText: string)
    ensures LinkMatches(title, canonical, rawText) ==> |title| <= |rawText| || |canonical| <= |rawText|
  {
    Contains(rawText, title) || Contains(rawText, canonical)
  }

  /** The first item at or after `from` that the title (with canonical form
      `canonical`, computed once per link as in line 121) matches. */
  function FirstMatch(docket: seq<AgendaItem>, title: string, canonical: string, from: nat): (r: Option<nat>)
    decreases |docket| - from
    ensures r.Some? ==> from <= r.value < |docket| && LinkMatches(title, canonical, docket[r.value].rawText)
    ensures r.Some? ==> forall i :: from <= i < r.value ==> !LinkMatches(title, canonical, docket[i].rawText)
    ensures r.None? ==> forall i :: from <= i < |docket| ==> !LinkMatches(title, canonical, docket[i].rawText)
  {
    if from >= |docket| then None
    else if LinkMatches(title, canonical, docket[from].rawText) then Some(from)
    else FirstMatch(docket, title, canonical, from + 1)
  }

  predicate AllTitled(links: seq<Link>) {
    forall k :: 0 <= k < |links| ==> links[k].title.Some?
  }

  /** Where each titled link goes: the index of the item it is attached to, or `None` for unmatched.
      The items' raw texts never change while links are matched, so every destination is decided
      against the docket as it was at the start. */
  function Destinations(docket: seq<AgendaItem>, links: seq<Link>): (d: seq<Option<nat>>)
    requires AllTitled(links)
    ensures |d| == |links|
    ensures forall k :: 0 <= k < |d| ==> d[k].Some? ==> d[k].value < |docket|
  {
    seq(|links|, k requires 0 <= k < |links| => FirstMatch(docket, links[k].title.value, Canonical(links[k].title.value), 0))
  }

  /** Appending links to an item: the `attachments` entry is created on the first one, and the
      item's number and text stay. */
  function Attach(item: AgendaItem, received: seq<Link>): (r: AgendaItem)
    ensures r.itemNumber == item.itemNumber && r.rawText == item.rawText
    ensures r.attachments.Some? <==> item.attachments.Some? || received != []
    ensures r.attachments.GetOr([]) == item.attachments.GetOr([]) + received
  {
    if received == [] then item
    else item.(attachments := Some(item.attachments.GetOr([]) + received))
  }

  /** The docket once the links have gone to their destinations; the items keep their numbers and texts. */
  function Routed(docket: seq<AgendaItem>, dest: seq<Option<nat>>, links: seq<Link>): (r: seq<AgendaItem>)
    requires |dest| == |links|
    ensures |r| == |docket|
    ensures forall i :: 0 <= i < |r| ==> r[i].itemNumber == docket[i].itemNumber && r[i].rawText == docket[i].rawText
  {
    seq(|docket|, i requires 0 <= i < |docket| => Attach(docket[i], Bucket(dest, links, i)))
  }

  /** What matching `links` against `docket` leaves in the docket and in the unmatched list. */
  function MatchedDocket(docket: seq<AgendaItem>, links: seq<Link>): (r: seq<AgendaItem>)
    requires AllTitled(links)
    ensures |r| == |docket|
  {
    Routed(docket, Destinations(docket, links), links)
  }

  function UnmatchedLinks(docket: seq<AgendaItem>, links: seq<Link>): (r: seq<Link>)
    requires AllTitled(links)
    ensures |r| <= |links|
  {
    Unmatched(Destinations(docket, links), links)
  }

  /** How many links come before the first one without a title (all of them when every one has one). */
  function TitledPrefix(links: seq<Link>): (n: nat)
    ensures n <= |links|
    ensures forall k :: 0 <= k < n ==> links[k].title.Some?
    ensures n < |links| ==> links[n].title.None?
  {
    if links == [] then 0
    else if links[0].title.None? then 0
    else
      var rest := links[1..];
      var n := 1 + TitledPrefix(rest);
      assert forall k :: 1 <= k < |links| ==> links[k] == rest[k - 1];
      n
  }

  /* ---------- the in-place matcher ---------- */

  lemma AttachOne(item: AgendaItem, received: seq<Link>, link: Link)
    ensures Attach(item, received + [link]) ==
              Attach(item, received).(attachments := Some(Attach(item, received).attachments.GetOr([]) + [link]))
  {
    if received == [] {
      assert received + [link] == [link];
    } else {
      assert item.attachments.GetOr([]) + (received + [link]) == item.attachments.GetOr([]) + received + [link];
    }
  }

  /** Sending one more link to item `j` appends it to that item's attachments and to no other place. */
  lemma RouteMatched(docket: seq<AgendaItem>, dest: seq<Option<nat>>, links: seq<Link>, link: Link, j: nat)
    requires |dest| == |links| && j < |docket|
    ensures var before := Routed(docket, dest, links);
            Routed(docket, dest + [Some(j)], links + [link]) ==
              before[j := before[j].(attachments := Some(before[j].attachments.GetOr([]) + [link]))]
    ensures Unmatched(dest + [Some(j)], links + [link]) == Unmatched(dest, links)
  {
    var before, after := Routed(docket, dest, links), Routed(docket, dest + [Some(j)], links + [link]);
    var expected := before[j := before[j].(attachments := Some(before[j].attachments.GetOr([]) + [link]))];
    BucketSnoc(dest, links, Some(j), link, 0);
    forall i | 0 <= i < |docket| ensures after[i] == expected[i] {
      BucketSnoc(dest, links, Some(j), link, i);
      var b := Bucket(dest, links, i);
      if i == j {
        AttachOne(docket[j], b, link);
      } else {
        assert b + [] == b;
      }
    }
    assert |after| == |expected|;
  }

  /** A link without a destination goes to the end of the unmatched list and changes no item. */
  lemma RouteUnmatched(docket: seq<AgendaItem>, dest: seq<Option<nat>>, links: seq<Link>, link: Link)
    requires |dest| == |links|
    ensures Routed(docket, dest + [None], links + [link]) == Routed(docket, dest, links)
    ensures Unmatched(dest + [None], links + [link]) == Unmatched(dest, links) + [link]
  {
    var before, after := Routed(docket, dest, links), Routed(docket, dest + [None], links + [link]);
    BucketSnoc(dest, links, None, link, 0);
    forall i | 0 <= i < |docket| ensures after[i] == before[i] {
      BucketSnoc(dest, links, None, link, i);
      var b := Bucket(dest, links, i);
      assert b + [] == b;
    }
    assert |after| == |before|;
  }

  lemma PrefixSnoc(links: seq<Link>, i: nat)
    requires i < |links|
    ensures links[..i + 1] == links[..i] + [links[i]]
  {
  }

  lemma MatchNothing(docket: seq<AgendaItem>, links: seq<Link>)
    requires links == []
    ensures AllTitled(links) && MatchedDocket(docket, links) == docket && UnmatchedLinks(docket, links) == []
  {
    var r := MatchedDocket(docket, links);
    forall i | 0 <= i < |docket| ensures r[i] == docket[i] {
      assert Bucket(Destinations(docket, links), links, i) == [];
    }
  }

  lemma DestinationsSnoc(docket: seq<AgendaItem>, links: seq<Link>, link: Link)
    requires AllTitled(links) && link.title.Some?
    ensures AllTitled(links + [link])
    ensures Destinations(docket, links + [link]) == Destinations(docket, links) + [FirstMatch(docket, link.title.value, Canonical(link.title.value), 0)]
  {
    var ext := links + [link];
    assert forall k :: 0 <= k < |links| ==> ext[k] == links[k];
    assert AllTitled(ext);
  }

  /** The outer loop over the links, with the inner first-match loop and its `break`. A link without a
      title makes the canonicalisation raise: the links before it have been attached, and the
      `unmatched_links` entry is not set. */
  method MatchAttachments(docketList: DocketList, allLinks: seq<Link>) returns (ok: bool)
    modifies docketList
    ensures ok == (TitledPrefix(allLinks) == |allLinks|)
    ensures docketList.docket == MatchedDocket(old(docketList.docket), allLinks[..TitledPrefix(allLinks)])
    ensures docketList.unmatchedLinks ==
              if ok then Some(UnmatchedLinks(old(docketList.docket), allLinks)) else old(docketList.unmatchedLinks)
  {
    ghost var initial := docketList.docket;
    ghost var done: seq<Link> := [];
    var unmatchedLinks := [];
    var i := 0;
    MatchNothing(initial, done);
    while i < |allLinks|
      invariant 0 <= i <= |allLinks| && done == allLinks[..i] && AllTitled(done)
      invariant docketList.docket == MatchedDocket(initial, done)
      invariant unmatchedLinks == UnmatchedLinks(initial, done)
      invariant docketList.unmatchedLinks == old(docketList.unmatchedLinks)
    {
      var link := allLinks[i];
      if link.title.None? {
        TitledPrefixStops(allLinks, i);
        return false;
      }
      PrefixSnoc(allLinks, i);
      MatchStep(initial, done, link);
      var title := link.title.value;
      var linkTitle := Canonical(title);
      var matchFound := AttachToFirstMatch(docketList, link, linkTitle, initial, done);
      if !matchFound {
        unmatchedLinks := unmatchedLinks + [link];
      }
      done := done + [link];
      i := i + 1;
    }
    assert done == allLinks;
    TitledPrefixStops(allLinks, i);
    docketList.unmatchedLinks := Some(unmatchedLinks);
    return true;
  }

  /** The first link without a title, or the end of the list, is where the titled prefix ends. */
  lemma TitledPrefixStops(links: seq<Link>, i: nat)
    requires i <= |links| && AllTitled(links[..i]) && (i < |links| ==> links[i].title.None?)
    ensures TitledPrefix(links) == i
  {
    assert forall k :: 0 <= k < i ==> links[k] == links[..i][k];
  }

  /** Matching one more titled link: unmatched, it is appended to the unmatched list and the docket
      stays; matched, the unmatched list stays. */
  lemma MatchStep(initial: seq<AgendaItem>, done: seq<Link>, link: Link)
    requires AllTitled(done) && link.title.Some?
    ensures AllTitled(done + [link])
    ensures var first := FirstMatch(initial, link.title.value, Canonical(link.title.value), 0);
      && (first.None? ==> MatchedDocket(initial, done + [link]) == MatchedDocket(initial, done))
      && (first.None? ==> UnmatchedLinks(initial, done + [link]) == UnmatchedLinks(initial, done) + [link])
      && (first.Some? ==> UnmatchedLinks(initial, done + [link]) == UnmatchedLinks(initial, done))
  {
    DestinationsSnoc(initial, done, link);
    var dest := Destinations(initial, done);
    var first := FirstMatch(initial, link.title.value, Canonical(link.title.value), 0);
    if first.None? {
      RouteUnmatched(initial, dest, done, link);
    } else {
      RouteMatched(initial, dest, done, link, first.value);
    }
  }

  /** The inner loop of lines 125-132: the link is appended to the first item it matches and the
      loop stops there; without a match nothing changes. */
  method AttachToFirstMatch(docketList: DocketList, link: Link, linkTitle: string,
                            ghost initial: seq<AgendaItem>, ghost done: seq<Link>) returns (matchFound: bool)
    requires AllTitled(done) && link.title.Some? && linkTitle == Canonical(link.title.value)
    requires docketList.docket == MatchedDocket(initial, done)
    modifies docketList
    ensures matchFound == FirstMatch(initial, link.title.value, linkTitle, 0).Some?
    ensures matchFound ==> docketList.docket == MatchedDocket(initial, done + [link])
    ensures !matchFound ==> docketList.docket == old(docketList.docket)
    ensures docketList.unmatchedLinks == old(docketList.unmatchedLinks)
  {
    ghost var dest := Destinations(initial, done);
    DestinationsSnoc(initial, done, link);
    var title := link.title.value;
    matchFound := false;
    var j := 0;
    while j < |docketList.docket|
      invariant 0 <= j <= |docketList.docket| == |initial|
      invariant docketList.docket == Routed(initial, dest, done) && !matchFound
      invariant FirstMatch(initial, title, linkTitle, 0) == FirstMatch(initial, title, linkTitle, j)
      invariant docketList.unmatchedLinks == old(docketList.unmatchedLinks)
    {
      var docket := docketList.docket[j];
      if Contains(docket.rawText, title) || Contains(docket.rawText, linkTitle) {
        assert LinkMatches(title, linkTitle, initial[j].rawText);
        assert FirstMatch(initial, title, linkTitle, 0) == Some(j);
        RouteMatched(initial, dest, done, link, j);
        var attachments := docket.attachments.GetOr([]);
        docketList.docket := docketList.docket[j := docket.(attachments := Some(attachments + [link]))];
        matchFound := true;
        return;
      }
      j := j + 1;
    }
  }

  /* ---------- properties of the matching ---------- */

  /** A titled link goes to the lowest-index item whose raw text contains its title or canonical form,
      and is unmatched exactly when no item's raw text does. */
  lemma DestinationIsFirstMatch(docket: seq<AgendaItem>, title: string, i: nat)
    ensures FirstMatch(docket, title, Canonical(title), 0) == Some(i) <==>
              && i < |docket| && LinkMatches(title, Canonical(title), docket[i].rawText)
              && forall m :: 0 <= m < i ==> !LinkMatches(title, Canonical(title), docket[m].rawText)
    ensures FirstMatch(docket, title, Canonical(title), 0).None? <==>
              forall m :: 0 <= m < |docket| ==> !LinkMatches(title, Canonical(title), docket[m].rawText)
  {
    var r := FirstMatch(docket, title, Canonical(title), 0);
    if r.Some? && r.value != i {
      assert r.value < i ==> LinkMatches(title, Canonical(title), docket[r.value].rawText);
    }
  }

  /** The matcher's partition: attachments over the whole docket plus the unmatched links are the input links. */
  lemma MatchPartition(docket: seq<AgendaItem>, links: seq<Link>)
    requires AllTitled(links)
    ensures forall x :: Gathered(Destinations(docket, links), links, |docket|, x) + Count(UnmatchedLinks(docket, links), x) == Count(links, x)
  {
    forall x ensures Gathered(Destinations(docket, links), links, |docket|, x) + Count(UnmatchedLinks(docket, links), x) == Count(links, x) {
      Partition(Destinations(docket, links), links, |docket|, x);
    }
  }

  /** An item has an attachments entry after matching exactly when it had one before or received a
      link; the received links follow the ones it already had. */
  lemma AttachmentsOnlyWhenReceived(docket: seq<AgendaItem>, links: seq<Link>, i: nat)
    requires AllTitled(links) && i < |docket|
    ensures var item, received := MatchedDocket(docket, links)[i], Bucket(Destinations(docket, links), links, i);
      && (item.attachments.Some? <==> docket[i].attachments.Some? || received != [])
      && (received != [] ==> item.attachments == Some(docket[i].attachments.GetOr([]) + received))
  {
  }

  /** A title whose canonical form is empty (the empty title, for one) is contained in every raw text,
      so it always goes to item 0 of a non-empty docket. */
  lemma EmptyCanonicalGoesFirst(docket: seq<AgendaItem>, title: string)
    requires |docket| > 0 && (title == "" || Canonical(title) == "")
    ensures FirstMatch(docket, title, Canonical(title), 0) == Some(0)
  {
    var c := Canonical(title);
    if title == "" {
      assert IdentifierSearch(title, 0).None?;
      assert |Strip(title, IsSpace)| <= 0;
    }
    assert c == "";
    assert MatchesAt(docket[0].rawText, c, 0);
    assert Find(docket[0].rawText, c, 0) == Some(0);
    assert LinkMatches(title, c, docket[0].rawText);
  }
}
