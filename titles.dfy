/**
 * `_get_pdf_title` and `_get_pdf_title_from_source`: each link's title is
 * derived from the reply to a HEAD request for its URL (the `Content-Disposition`
 * filename, else the URL's last path segment), and the titles are written back
 * into the link list in batches of five.
 */
module Titles {
  import opened Wrappers
  import opened Text
  import opened Hyperlinks

  const FilenameKey := "filename="
  const BatchSize := 5

  /** What the HEAD request of one URL ends in: an exception (timeout, connection failure, ...),
      or a reply with its status and its `Content-Disposition` header if it has one. */
  datatype FetchOutcome = Failed | Reply(status: int, contentDisposition: Option<string>)

  predicate IsQuote(c: char) { c == '"' }

  /** `content_disposition.split('filename=')[1].strip('"').split('.')[0]`. */
  function HeaderFilename(contentDisposition: string): (r: string)
    requires Contains(contentDisposition, FilenameKey)
    ensures '.' !in r && |r| < |contentDisposition|
  {
    BeforeFirst(Strip(SecondField(contentDisposition, FilenameKey), IsQuote), '.')
  }

  /** `url.split('/')[-1]`. */
  function UrlFilename(url: string): (r: string)
    ensures '/' !in r && |r| <= |url| && r == url[|url| - |r|..]
  {
    AfterLast(url, '/')
  }

  /** The title `_get_pdf_title(url)` returns, given how the request for `url` ended. */
  function PdfTitle(url: string, outcome: FetchOutcome): (r: Option<string>)
    ensures r.Some? ==> outcome.Reply? && outcome.status == 200
  {
    match outcome
    case Failed => None
    case Reply(status, header) =>
      if status != 200 then None
      else
        var contentDisposition := header.GetOr("");
        if Contains(contentDisposition, FilenameKey) then Some(HeaderFilename(contentDisposition))
        else if Contains(Lower(url), PdfSuffix) then Some(UrlFilename(url))
        else None
  }

  /** When a title exists, and which rule gives it. */
  lemma PdfTitleCases(url: string, outcome: FetchOutcome)
    ensures PdfTitle(url, outcome).Some? <==>
              && outcome.Reply? && outcome.status == 200
              && (Contains(outcome.contentDisposition.GetOr(""), FilenameKey) || Contains(Lower(url), PdfSuffix))
    ensures (outcome.Reply? && outcome.status == 200 && Contains(outcome.contentDisposition.GetOr(""), FilenameKey))
              ==> PdfTitle(url, outcome) == Some(HeaderFilename(outcome.contentDisposition.value))
    ensures (outcome.Reply? && outcome.status == 200 && !Contains(outcome.contentDisposition.GetOr(""), FilenameKey)
             && Contains(Lower(url), PdfSuffix))
              ==> PdfTitle(url, outcome) == Some(UrlFilename(url))
  {
    if outcome.Reply? && outcome.contentDisposition.None? {
      assert !Contains("", FilenameKey);
    }
  }

  /** The header title is taken from the text after the first `filename=` (up to any second one),
      with the quotes around it stripped and only those. */
  lemma HeaderFilenameShape(contentDisposition: string)
    requires Contains(contentDisposition, FilenameKey)
    ensures var field := SecondField(contentDisposition, FilenameKey);
            var unquoted := Strip(field, IsQuote);
            && !Contains(field, FilenameKey)
            && DroppedAround(field, unquoted, |field| - |LStrip(field, IsQuote)|, IsQuote)
            && (unquoted == [] || (unquoted[0] != '"' && unquoted[|unquoted| - 1] != '"'))
  {
    StripIsSlice(SecondField(contentDisposition, FilenameKey), IsQuote);
  }

  /** ... and the title is that unquoted text cut at its first `.`: it holds no `.` and does not
      start with a quote. */
  lemma HeaderTitleShape(contentDisposition: string)
    requires Contains(contentDisposition, FilenameKey)
    ensures var unquoted := Strip(SecondField(contentDisposition, FilenameKey), IsQuote);
            var title := HeaderFilename(contentDisposition);
            && '.' !in title
            && title == unquoted[..|title|]
            && (title == unquoted || unquoted[|title|] == '.')
            && (title == [] || title[0] != '"')
  {
  }

  /** A URL-derived title is the URL's last path segment, extension included. */
  lemma UrlFilenameShape(url: string)
    ensures var title := UrlFilename(url);
            && '/' !in title
            && title == url[|url| - |title|..]
            && (|title| == |url| || url[|url| - |title| - 1] == '/')
  {
  }

  /** The extension stays: a URL ending in ".pdf" gives a title ending in ".pdf". */
  lemma UrlTitleKeepsExtension(url: string)
    requires |url| >= 4 && url[|url| - 4..] == PdfSuffix
    ensures var title := UrlFilename(url); |title| >= 4 && title[|title| - 4..] == PdfSuffix
  {
    var title := UrlFilename(url);
    assert '/' !in url[|url| - 4..];
    assert title[|title| - 4..] == url[|url| - 4..];
  }

  /** The fallback looks for ".pdf" anywhere in the lower-cased URL, not only at its end: every such
      URL without a header `filename=` gets its last path segment, whatever that segment ends in. */
  lemma UrlFallbackNeedsOnlyContainment(url: string, contentDisposition: Option<string>)
    requires Contains(Lower(url), PdfSuffix) && !Contains(contentDisposition.GetOr(""), FilenameKey)
    ensures PdfTitle(url, Reply(200, contentDisposition)) == Some(UrlFilename(url))
  {
    PdfTitleCases(url, Reply(200, contentDisposition));
  }

  /** One URL that does not end in ".pdf" and still gets a URL-derived title. */
  lemma UrlFallbackExample()
    ensures PdfTitle("http://h/a.pdf?x=1", Reply(200, None)) == Some("a.pdf?x=1")
  {
    var url := "http://h/a.pdf?x=1";
    assert MatchesAt(Lower(url), PdfSuffix, 10);
    assert !Contains("", FilenameKey);
    UrlFallbackNeedsOnlyContainment(url, None);
    assert url[9..] == "a.pdf?x=1";
    AfterLastFrom(url, '/', 9);
  }

  function Min(a: int, b: int): int { if a <= b then a else b }

  /** The link with its title set to what `_get_pdf_title` gives for its URL. */
  function Resolved(l: Link, fetch: string -> FetchOutcome): (r: Link)
    ensures r.page == l.page && r.link == l.link
    ensures r.title.Some? ==> fetch(l.link).Reply? && fetch(l.link).status == 200
  {
    l.(title := PdfTitle(l.link, fetch(l.link)))
  }

  /** `_get_pdf_title_from_source`: the links are taken five at a time; each batch's titles are
      obtained (concurrently, in the source) and then written into that batch's places of the list.
      `fetch` stands for the HEAD request. The ghost result lists the indices of each batch. */
  method ResolveTitles(allLinks: array<Link>, fetch: string -> FetchOutcome) returns (ghost batches: seq<seq<nat>>)
    modifies allLinks
    ensures forall k :: 0 <= k < allLinks.Length ==> allLinks[k] == Resolved(old(allLinks[k]), fetch)
    ensures Flatten(batches) == Indices(allLinks.Length)
    ensures |batches| == (allLinks.Length + BatchSize - 1) / BatchSize
    ensures forall b :: 0 <= b < |batches| ==>
              batches[b] == Range(BatchSize * b, Min(BatchSize * b + BatchSize, allLinks.Length))
    ensures forall b :: 0 <= b < |batches| ==> 1 <= |batches[b]| <= BatchSize
  {
    batches := [];
    var i := 0;
    while i < allLinks.Length
      invariant i == BatchSize * |batches| <= allLinks.Length + BatchSize - 1
      invariant forall k :: 0 <= k < Min(i, allLinks.Length) ==> allLinks[k] == Resolved(old(allLinks[k]), fetch)
      invariant forall k :: Min(i, allLinks.Length) <= k < allLinks.Length ==> allLinks[k] == old(allLinks[k])
      invariant Flatten(batches) == Indices(Min(i, allLinks.Length))
      invariant forall b :: 0 <= b < |batches| ==>
                  batches[b] == Range(BatchSize * b, Min(BatchSize * b + BatchSize, allLinks.Length))
    {
      var hi := Min(i + BatchSize, allLinks.Length);
      ResolveBatch(allLinks, i, hi, fetch);
      ghost var indices := Range(i, hi);
      FlattenAppend(batches, indices);
      assert Indices(i) + indices == Indices(hi);
      AppendBatch(batches, allLinks.Length);
      batches := batches + [indices];
      i := i + BatchSize;
    }
    BatchCount(allLinks.Length, |batches|);
  }

  /** The next batch, from where the previous ones stop, keeps every batch in its place. */
  lemma AppendBatch(batches: seq<seq<nat>>, n: nat)
    requires BatchSize * |batches| < n
    requires forall b :: 0 <= b < |batches| ==> batches[b] == Range(BatchSize * b, Min(BatchSize * b + BatchSize, n))
    ensures var next := batches + [Range(BatchSize * |batches|, Min(BatchSize * |batches| + BatchSize, n))];
      forall b :: 0 <= b < |next| ==> next[b] == Range(BatchSize * b, Min(BatchSize * b + BatchSize, n))
  {
  }

  /** `n` items taken `BatchSize` at a time make `ceil(n / BatchSize)` batches. */
  lemma BatchCount(n: nat, count: nat)
    requires BatchSize * count - BatchSize < n <= BatchSize * count
    ensures count == (n + BatchSize - 1) / BatchSize
  {
    var q := (n + BatchSize - 1) / BatchSize;
    assert BatchSize * q <= n + BatchSize - 1 < BatchSize * q + BatchSize;
  }

  /** One batch `allLinks[lo:hi]`: all its titles are computed first, then written back in order. */
  method ResolveBatch(allLinks: array<Link>, lo: nat, hi: nat, fetch: string -> FetchOutcome)
    requires lo <= hi <= allLinks.Length
    modifies allLinks
    ensures forall k :: lo <= k < hi ==> allLinks[k] == Resolved(old(allLinks[k]), fetch)
    ensures forall k :: 0 <= k < allLinks.Length && !(lo <= k < hi) ==> allLinks[k] == old(allLinks[k])
  {
    var batch := allLinks[lo..hi];
    var batchTitles := seq(|batch|, j requires 0 <= j < |batch| => PdfTitle(batch[j].link, fetch(batch[j].link)));
    var j := 0;
    while j < |batch|
      invariant 0 <= j <= |batch|
      invariant forall k :: lo <= k < lo + j ==> allLinks[k] == Resolved(old(allLinks[k]), fetch)
      invariant forall k :: 0 <= k < allLinks.Length && !(lo <= k < lo + j) ==> allLinks[k] == old(allLinks[k])
    {
      assert allLinks[lo + j] == batch[j];
      allLinks[lo + j] := allLinks[lo + j].(title := batchTitles[j]);
      j := j + 1;
    }
  }

  /** `lo, lo + 1, ..., hi - 1`: the indices of `range(lo, hi)`. */
  function Range(lo: nat, hi: nat): (r: seq<nat>)
    requires lo <= hi
    ensures |r| == hi - lo && forall j :: 0 <= j < |r| ==> r[j] == lo + j
  {
    seq(hi - lo, j requires 0 <= j < hi - lo => lo + j)
  }

  /** `0, 1, ..., n - 1`. */
  function Indices(n: nat): seq<nat> {
    seq(n, k requires 0 <= k < n => k)
  }

  function Flatten(xss: seq<seq<nat>>): seq<nat> {
    if xss == [] then [] else Flatten(xss[..|xss| - 1]) + xss[|xss| - 1]
  }

  lemma FlattenAppend(xss: seq<seq<nat>>, xs: seq<nat>)
    ensures Flatten(xss + [xs]) == Flatten(xss) + xs
  {
    assert (xss + [xs])[..|xss|] == xss;
  }
}
