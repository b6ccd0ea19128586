/**
 * `_get_hyperlinks_from_pdf`: every link annotation whose URI mentions ".pdf",
 * tagged with the 1-based number of the page it sits on, in page order and
 * then annotation order. A page is what the PDF library exposes of it: an
 * optional `/Annots` array whose entries may carry an `/A` action with a `/URI`.
 */
module Hyperlinks {
  import opened Wrappers
  import opened Text

  const PdfSuffix := ".pdf"

  /** A link record: `{"page": ..., "link": ..., "title": ...}`. */
  datatype Link = Link(page: nat, link: string, title: Option<string>)

  /** The action dictionary `/A`, with its `/URI` entry if it has one. */
  datatype Action = Action(uri: Option<string>)

  /** An annotation object, with its `/A` entry if it has one. */
  datatype Annotation = Annotation(action: Option<Action>)

  /** A page, with its `/Annots` array if it has one. */
  datatype Page = Page(annots: Option<seq<Annotation>>)

  /** `obj["/A"]["/URI"]` when `"/A" in obj and "/URI" in obj["/A"]`. */
  function AnnotationUri(a: Annotation): Option<string> {
    if a.action.Some? then a.action.value.uri else None
  }

  /** The annotation yields a link: it has a URI and the URI contains ".pdf". */
  predicate IsPdfLink(a: Annotation) {
    AnnotationUri(a).Some? && Contains(AnnotationUri(a).value, PdfSuffix)
  }

  /** The link an annotation yields on page `page`, if any. */
  function AnnotationLink(a: Annotation, page: nat): seq<Link> {
    if IsPdfLink(a) then [Link(page, AnnotationUri(a).value, None)] else []
  }

  /** An annotation yields at most one link, and one exactly when it has an action with a URI that
      contains ".pdf"; that link carries the page number, the URI and no title. */
  lemma AnnotationLinkMeaning(a: Annotation, page: nat)
    ensures var r := AnnotationLink(a, page);
      && |r| <= 1
      && (r != [] <==> a.action.Some? && a.action.value.uri.Some? && Contains(a.action.value.uri.value, PdfSuffix))
      && (r != [] ==> r[0].page == page && Some(r[0].link) == a.action.value.uri && r[0].title.None?)
  {
  }

  /** Links from a run of annotations on page `page`, in annotation order. */
  function AnnotationLinks(annots: seq<Annotation>, page: nat): (r: seq<Link>)
    ensures |r| <= |annots|
  {
    if annots == [] then []
    else AnnotationLinks(annots[..|annots| - 1], page) + AnnotationLink(annots[|annots| - 1], page)
  }

  /** Links of page number `page`; a page without `/Annots` gives none. */
  function PageLinks(p: Page, page: nat): (r: seq<Link>)
    ensures p.annots.None? ==> r == []
    ensures p.annots.Some? ==> |r| <= |p.annots.value|
  {
    match p.annots
    case None => []
    case Some(annots) => AnnotationLinks(annots, page)
  }

  /** Links of the first `n` pages, where `pages[i]` is page number `i + 1`. */
  function LinksUpTo(pages: seq<Page>, n: nat): seq<Link>
    requires n <= |pages|
  {
    if n == 0 then [] else LinksUpTo(pages, n - 1) + PageLinks(pages[n - 1], n)
  }

  /** Links of pages number `m + 1` to `n`, in page order. */
  function LinksBetween(pages: seq<Page>, m: nat, n: nat): seq<Link>
    requires m <= n <= |pages|
    decreases n
  {
    if n == m then [] else LinksBetween(pages, m, n - 1) + PageLinks(pages[n - 1], n)
  }

  /** The outer page loop only appends: the links of the first `n` pages are those of the first `m`
      followed by those of the pages after them. */
  lemma {:induction false} LinksUpToPrefix(pages: seq<Page>, m: nat, n: nat)
    requires m <= n <= |pages|
    decreases n
    ensures LinksUpTo(pages, n) == LinksUpTo(pages, m) + LinksBetween(pages, m, n)
  {
    if m < n {
      LinksUpToPrefix(pages, m, n - 1);
      AppendAssoc(LinksUpTo(pages, m), LinksBetween(pages, m, n - 1), PageLinks(pages[n - 1], n));
    } else {
      assert LinksUpTo(pages, m) + [] == LinksUpTo(pages, m);
    }
  }

  lemma AppendAssoc(a: seq<Link>, b: seq<Link>, c: seq<Link>)
    ensures (a + b) + c == a + (b + c)
  {
  }

  /** What `_get_hyperlinks_from_pdf` returns: the links of all the pages read. */
  function Hyperlinks(pages: seq<Page>): seq<Link> {
    LinksUpTo(pages, |pages|)
  }

  /** Every returned link holds ".pdf", has no title and has a page number from 1 to the number of
      pages, and page numbers never go down along the list. */
  lemma HyperlinksShape(pages: seq<Page>)
    ensures UntitledPdfLinks(Hyperlinks(pages), |pages|)
    ensures InPageOrder(Hyperlinks(pages))
  {
    CollectedLinksAreUntitledPdfLinks(pages, |pages|);
    LinksInPageOrder(pages, |pages|);
    var r := Hyperlinks(pages);
    assert forall i :: 0 <= i < |r| ==> r[i] in r;
  }

  /** The nested loops of `_get_hyperlinks_from_pdf`; the inner loop is `CollectPageLinks`. */
  method GetHyperlinks(pages: seq<Page>) returns (allLinks: seq<Link>)
    ensures allLinks == Hyperlinks(pages)
  {
    allLinks := [];
    var i := 0;
    while i < |pages|
      invariant 0 <= i <= |pages|
      invariant allLinks == LinksUpTo(pages, i)
    {
      var pageNum := i + 1;
      var page := pages[i];
      ghost var before := allLinks;
      if page.annots.Some? {
        allLinks := CollectPageLinks(allLinks, page.annots.value, pageNum);
      }
      PageStep(pages, i, before, allLinks);
      i := i + 1;
    }
  }

  /** One more page of the outer loop appends that page's annotation links, if it has `/Annots`. */
  lemma PageStep(pages: seq<Page>, i: nat, before: seq<Link>, after: seq<Link>)
    requires i < |pages| && before == LinksUpTo(pages, i)
    requires after == before + PageLinks(pages[i], i + 1)
    ensures after == LinksUpTo(pages, i + 1)
  { }

  /** The loop over one page's `/Annots`: each annotation with a ".pdf" URI appends its link. */
  method CollectPageLinks(before: seq<Link>, annots: seq<Annotation>, pageNum: nat) returns (allLinks: seq<Link>)
    ensures allLinks == before + AnnotationLinks(annots, pageNum)
  {
    allLinks := before;
    var j := 0;
    while j < |annots|
      invariant 0 <= j <= |annots|
      invariant allLinks == before + AnnotationLinks(annots[..j], pageNum)
    {
      var obj := annots[j];
      CollectStep(before, annots, j, pageNum);
      if obj.action.Some? && obj.action.value.uri.Some? {
        var uri := obj.action.value.uri.value;
        if Contains(uri, PdfSuffix) {
          allLinks := allLinks + [Link(pageNum, uri, None)];
        } else {
          assert allLinks + [] == allLinks;
        }
      } else {
        assert allLinks + [] == allLinks;
      }
      j := j + 1;
    }
    assert annots[..j] == annots;
  }

  /** One more annotation of the page extends the collected links by the link it yields, if any. */
  lemma CollectStep(before: seq<Link>, annots: seq<Annotation>, j: nat, page: nat)
    requires j < |annots|
    ensures before + AnnotationLinks(annots[..j + 1], page) == (before + AnnotationLinks(annots[..j], page)) + AnnotationLink(annots[j], page)
  {
    assert annots[..j + 1][..j] == annots[..j];
  }

  /** Every link an annotation run yields is tagged with the page, untitled, and points at a ".pdf" URI
      that some annotation of the run carries; every annotation with such a URI yields its link. */
  lemma {:induction false} AnnotationLinksShape(annots: seq<Annotation>, page: nat)
    ensures forall l :: l in AnnotationLinks(annots, page) ==>
              l.page == page && l.title.None? && Contains(l.link, PdfSuffix)
              && exists a :: a in annots && AnnotationUri(a) == Some(l.link)
    ensures forall a :: a in annots && IsPdfLink(a) ==>
              Link(page, AnnotationUri(a).value, None) in AnnotationLinks(annots, page)
    ensures |AnnotationLinks(annots, page)| <= |annots|
  {
    if annots != [] {
      var init, last := annots[..|annots| - 1], annots[|annots| - 1];
      assert annots == init + [last];
      AnnotationLinksShape(init, page);
      forall a | a in annots && IsPdfLink(a)
        ensures Link(page, AnnotationUri(a).value, None) in AnnotationLinks(annots, page)
      {
        if a != last { assert a in init; }
      }
      forall l | l in AnnotationLinks(annots, page)
        ensures exists a :: a in annots && AnnotationUri(a) == Some(l.link)
      {
        if l !in AnnotationLinks(init, page) {
          assert AnnotationUri(last) == Some(l.link);
        } else {
          var a :| a in init && AnnotationUri(a) == Some(l.link);
          assert a in annots;
        }
      }
    }
  }

  /** Every collected link points at a ".pdf" URI, has no title yet and a page number in range. */
  lemma {:induction false} CollectedLinksAreUntitledPdfLinks(pages: seq<Page>, n: nat)
    requires n <= |pages|
    ensures forall l :: l in LinksUpTo(pages, n) ==>
              Contains(l.link, PdfSuffix) && l.title.None? && 1 <= l.page <= n
  {
    if n > 0 {
      CollectedLinksAreUntitledPdfLinks(pages, n - 1);
      if pages[n - 1].annots.Some? {
        AnnotationLinksShape(pages[n - 1].annots.value, n);
      }
    }
  }

  /** Every link holds ".pdf", has no title, and has a page number from 1 to `n`. */
  predicate UntitledPdfLinks(ls: seq<Link>, n: nat) {
    forall i :: 0 <= i < |ls| ==> Contains(ls[i].link, PdfSuffix) && ls[i].title.None? && 1 <= ls[i].page <= n
  }

  /** No link carries a page number above `n`. */
  predicate PagesAtMost(ls: seq<Link>, n: nat) {
    forall i :: 0 <= i < |ls| ==> ls[i].page <= n
  }

  /** Page numbers never go down along `ls`. */
  predicate InPageOrder(ls: seq<Link>) {
    forall a, b :: 0 <= a < b < |ls| ==> ls[a].page <= ls[b].page
  }

  /** Page order, then annotation order: page numbers never go down along the output, and none
      exceeds the number of pages read. */
  lemma {:induction false} LinksInPageOrder(pages: seq<Page>, n: nat)
    requires n <= |pages|
    ensures InPageOrder(LinksUpTo(pages, n)) && PagesAtMost(LinksUpTo(pages, n), n)
  {
    if n > 0 {
      LinksInPageOrder(pages, n - 1);
      PageLinksTagged(pages[n - 1], n);
      OrderedConcat(LinksUpTo(pages, n - 1), PageLinks(pages[n - 1], n), n - 1, n);
    }
  }

  /** Links all on page `n` may follow links in page order on pages up to `m <= n`. */
  lemma OrderedConcat(x: seq<Link>, y: seq<Link>, m: nat, n: nat)
    requires InPageOrder(x) && PagesAtMost(x, m) && m <= n
    requires forall i :: 0 <= i < |y| ==> y[i].page == n
    ensures InPageOrder(x + y) && PagesAtMost(x + y, n)
  {
    var all := x + y;
    forall a, b | 0 <= a < b < |all| ensures all[a].page <= all[b].page {
      if b < |x| {
        assert all[a] == x[a] && all[b] == x[b];
      } else if a < |x| {
        assert all[a] == x[a] && all[b] == y[b - |x|];
      } else {
        assert all[a] == y[a - |x|] && all[b] == y[b - |x|];
      }
    }
  }

  /** The links carrying page number `page`, in order. */
  function OnPage(ls: seq<Link>, page: nat): seq<Link> {
    if ls == [] then [] else OnPage(ls[..|ls| - 1], page) + (if ls[|ls| - 1].page == page then [ls[|ls| - 1]] else [])
  }

  lemma {:induction false} OnPageConcat(a: seq<Link>, b: seq<Link>, page: nat)
    ensures OnPage(a + b, page) == OnPage(a, page) + OnPage(b, page)
    decreases |b|
  {
    if b == [] {
      assert a + b == a;
    } else {
      var ab := a + b;
      assert ab[..|ab| - 1] == a + b[..|b| - 1];
      OnPageConcat(a, b[..|b| - 1], page);
    }
  }

  lemma {:induction false} OnPageAll(ls: seq<Link>, page: nat)
    requires forall i :: 0 <= i < |ls| ==> ls[i].page == page
    ensures OnPage(ls, page) == ls
  {
    if ls != [] {
      OnPageAll(ls[..|ls| - 1], page);
    }
  }

  lemma {:induction false} OnPageNone(ls: seq<Link>, page: nat)
    requires forall i :: 0 <= i < |ls| ==> ls[i].page != page
    ensures OnPage(ls, page) == []
  {
    if ls != [] {
      OnPageNone(ls[..|ls| - 1], page);
    }
  }

  /** A page's own links all carry its page number. */
  lemma PageLinksOnOwnPage(p: Page, page: nat)
    ensures OnPage(PageLinks(p, page), page) == PageLinks(p, page)
  {
    PageLinksTagged(p, page);
    OnPageAll(PageLinks(p, page), page);
  }

  /** ... and so none of them carries another page number. */
  lemma PageLinksElsewhere(p: Page, page: nat, q: nat)
    requires q != page
    ensures OnPage(PageLinks(p, page), q) == []
  {
    PageLinksTagged(p, page);
    OnPageNone(PageLinks(p, page), q);
  }

  lemma PageLinksTagged(p: Page, page: nat)
    ensures forall i :: 0 <= i < |PageLinks(p, page)| ==> PageLinks(p, page)[i].page == page
  {
    if p.annots.Some? {
      AnnotationLinksShape(p.annots.value, page);
      assert forall i :: 0 <= i < |PageLinks(p, page)| ==> PageLinks(p, page)[i] in PageLinks(p, page);
    }
  }

  /** Filtering the output by page number `k + 1` gives exactly page `k`'s own links, in annotation
      order; so a page without `/Annots`, or with no ".pdf" URI, contributes nothing. */
  lemma {:induction false} LinksOfOnePage(pages: seq<Page>, n: nat, k: nat)
    requires k < n <= |pages|
    ensures OnPage(LinksUpTo(pages, n), k + 1) == PageLinks(pages[k], k + 1)
  {
    if k == n - 1 {
      LastStep(pages, n, k);
    } else {
      LinksOfOnePage(pages, n - 1, k);
      EarlierStep(pages, n, k);
    }
  }

  /** The case `k == n - 1` of `LinksOfOnePage`. */
  lemma LastStep(pages: seq<Page>, n: nat, k: nat)
    requires k + 1 == n <= |pages|
    ensures OnPage(LinksUpTo(pages, n), k + 1) == PageLinks(pages[k], k + 1)
  {
    LinksOfLastPage(pages, k);
  }

  /** Of the first `k + 1` pages, only the last has links with page number `k + 1`. */
  lemma LinksOfLastPage(pages: seq<Page>, k: nat)
    requires k < |pages|
    ensures OnPage(LinksUpTo(pages, k + 1), k + 1) == PageLinks(pages[k], k + 1)
  {
    var before, here := LinksUpTo(pages, k), PageLinks(pages[k], k + 1);
    OnPageConcat(before, here, k + 1);
    NoLinksBeyond(pages, k, k + 1);
    PageLinksOnOwnPage(pages[k], k + 1);
    assert [] + here == here;
  }

  /** The first `m` pages have no link with a page number above `m`. */
  lemma {:induction false} NoLinksBeyond(pages: seq<Page>, m: nat, p: nat)
    requires m <= |pages| && m < p
    ensures OnPage(LinksUpTo(pages, m), p) == []
  {
    if m > 0 {
      var before, here := LinksUpTo(pages, m - 1), PageLinks(pages[m - 1], m);
      NoLinksBeyond(pages, m - 1, p);
      PageLinksElsewhere(pages[m - 1], m, p);
      OnPageConcat(before, here, p);
      assert LinksUpTo(pages, m) == before + here;
      BothEmpty(OnPage(before, p), OnPage(here, p), OnPage(before + here, p));
    }
  }

  /** Two empty parts concatenate to an empty whole. */
  lemma BothEmpty(x: seq<Link>, y: seq<Link>, z: seq<Link>)
    requires z == x + y && x == [] && y == []
    ensures z == []
  {
  }

  /** The case `k < n - 1` of `LinksOfOnePage`, given the property for the first `n - 1` pages. */
  lemma EarlierStep(pages: seq<Page>, n: nat, k: nat)
    requires k + 1 < n <= |pages|
    requires OnPage(LinksUpTo(pages, n - 1), k + 1) == PageLinks(pages[k], k + 1)
    ensures OnPage(LinksUpTo(pages, n), k + 1) == PageLinks(pages[k], k + 1)
  {
    LinksOfEarlierPage(pages, n, k);
  }

  /** Page `n` adds no link with an earlier page number. */
  lemma LinksOfEarlierPage(pages: seq<Page>, n: nat, k: nat)
    requires k + 1 < n <= |pages|
    ensures OnPage(LinksUpTo(pages, n), k + 1) == OnPage(LinksUpTo(pages, n - 1), k + 1)
  {
    var before, here := LinksUpTo(pages, n - 1), PageLinks(pages[n - 1], n);
    OnPageConcat(before, here, k + 1);
    PageLinksElsewhere(pages[n - 1], n, k + 1);
    assert OnPage(before, k + 1) + [] == OnPage(before, k + 1);
  }
}
