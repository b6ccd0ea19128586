# Agenda attachment extraction, modelled in Dafny

`extract_links.py` turns a council-meeting agenda PDF into a docket. Each numbered agenda item has
its number and raw text. Each PDF attachment linked from the agenda is attached to the item whose
text mentions it. This project models that pipeline with the PDF library, the HTTP requests and
the file output taken away. Page texts, page annotations and HEAD replies become plain input values.

The modules follow the stages of the program:

- `Wrappers`: the `Option` type.
- `Text`: the pieces of Python's `str` and `re` behaviour the program relies on. These are
  substring search, `re.finditer` of a literal, `strip`/`lstrip`/`rstrip`, the `split(...)[i]`
  idioms, ASCII `lower()`, and the ASCII classes `\s`, `\d`, `\w` and `[A-Z]`.
- `Region`: the first half of `clean_agenda`. The page texts are joined with spaces and newlines
  become spaces. The agenda region runs from just after the first "CALL TO ORDER" to just after the
  first "ADJOURNMENT" that follows it. Both markers are matched case-insensitively.
- `Segmenter`: the boundary token `\b([1-9]|[1-9]\d|100)\.\s+`, scanned left to right without
  overlap. One scanner gives the fragments of `re.split`, the numerals of `re.findall` and the full
  token texts.
- `Docket`: the agenda items, the `docket_list` object (a class, since the matcher updates it in
  place), the append loop that builds the docket, and `clean_agenda` as a whole.
- `Hyperlinks`: `_get_hyperlinks_from_pdf`. Every annotation URI containing ".pdf" becomes a link,
  tagged with its 1-based page number, in page order and then annotation order.
- `Titles`: the title rule of `_get_pdf_title`, and the write-back loop of
  `_get_pdf_title_from_source`. That loop takes batches of five over an `array` of links and
  updates them in place.
- `Routing`: where links end up, given each link's destination (an item index or none). It covers
  the per-item attachment lists, the unmatched list, their order, and the partition as occurrence
  counts.
- `Matcher`: `_match_attachments_to_docket_list`. The title is canonicalised with
  `re.sub(r'^.*?([A-Z]+-\d+-\d+)', r'\1', ...)` and stripped. The link goes to the first item whose
  raw text contains the title or its canonical form, and otherwise to the unmatched list.

Three places where the code does less, or other, than a reader might expect. The model follows
the code:

- The URL fallback of `_get_pdf_title` tests whether ".pdf" occurs anywhere in the lower-cased URL
  (`extract_links.py:75`), not whether the URL ends in it. `http://h/a.pdf?x=1` gets the title
  `a.pdf?x=1`.
- A title taken from the URL keeps its extension (`extract_links.py:76`). A link ending in
  `/AB-100-2024.pdf` gets the title `AB-100-2024.pdf`, and its canonical form is that same text.
  Neither is contained in the item text `Budget review AB-100-2024. ADJOURNMENT`, so such a link
  only matches an item whose text spells out the ".pdf" as well.
- The comment at `extract_links.py:25` speaks of the second "ADJOURNMENT". The loop stops at the
  first one (`extract_links.py:33-35`), and that is what the model does.

## Model

| member | source | states |
|---|---|---|
| Text.Find | extract_links.py:126 | the result is the leftmost occurrence of the pattern at or after the start position; none means no occurrence there |
| Text.ContainsMeaning | extract_links.py:126 | `Contains`, Python's `in` on strings, holds exactly when the pattern occurs at some position of the text |
| Text.LowerMeaning | extract_links.py:75 | `Lower`, ASCII `lower()`: the length is kept, lower-casing again changes nothing, no `A`-`Z` is left, each upper-case letter becomes the lower-case letter 32 code points above it, and every other character is kept |
| Text.LowerMatchesIgnoringCase | extract_links.py:21 | the lower-cased pattern occurs at `k` in the lower-cased text exactly when the pattern matches the text there ignoring case, character by character |
| Text.FindInSuffix | extract_links.py:30-31 | searching the slice after the start finds the same occurrence as searching the whole text from the start, shifted by the start |
| Text.FindIter | extract_links.py:31 | `re.finditer` of a literal: it begins at the first occurrence, every entry is an occurrence, successive entries do not overlap, each entry is the leftmost occurrence after the previous one ends, and there is none after the last |
| Text.LStrip | extract_links.py:121 | the result is a suffix of the input; every dropped character is whitespace; the result does not start with whitespace |
| Text.RStrip | extract_links.py:121 | the result is a prefix of the input; every dropped character is whitespace; the result does not end with whitespace |
| Text.TrailingRun | extract_links.py:121 | the run of characters `rstrip` removes: all of them are dropped characters, and the character before the run is not |
| Text.Strip | extract_links.py:72 | the result is no longer than the input, and it starts and ends with characters that are not dropped |
| Text.StripIsSlice | extract_links.py:72 | the stripped text is the contiguous slice of the input after the leading run of dropped characters, and only dropped characters lie before and after it |
| Text.BeforeFirst | extract_links.py:72 | `split('.')[0]`: a prefix without the separator, ending at the first separator or at the end |
| Text.AfterLast | extract_links.py:76 | `split('/')[-1]`: a suffix without the separator, starting after the last separator or at the start |
| Text.SecondField | extract_links.py:72 | `split('filename=')[1]`: the text from the end of the first separator up to the next occurrence or the end, and no separator inside it |
| Region.PageTexts | extract_links.py:11-13 | every page contributes its text; a page without text contributes "" |
| Region.JoinWithSpaces | extract_links.py:16 | no texts join to ""; one text joins to itself; the joined length is the sum of the lengths plus one space between neighbouring pages |
| Region.JoinSnoc | extract_links.py:16 | joining one more page text appends exactly one space and that text |
| Region.FlattenNewlines | extract_links.py:17 | the length is kept, every newline becomes a space, and every other character is kept |
| Region.CombinedText | extract_links.py:10-17 | the combined text holds no newline |
| Region.FindMarker | extract_links.py:21 | case-insensitive `re.search`: the leftmost occurrence of the marker in the lower-cased text at or after the start, none meaning there is none |
| Region.RegionStart | extract_links.py:20-23 | the start lies within the combined text |
| Region.RegionStop | extract_links.py:26-35 | the stop lies between the start and the end of the text, so the region is a contiguous substring |
| Region.AgendaRegion | extract_links.py:38 | `combined_text[start_position:stop_position]`: the text before the start, the region and the text after the stop give back the combined text |
| Region.RegionStartMeaning | extract_links.py:20-23 | the start is 0 exactly when the case-folded text has no "call to order"; otherwise it is just after the leftmost one |
| Region.RegionStopMeaning | extract_links.py:26-35 | without "adjournment" at or after the start, the stop is the end of the text; otherwise it is just after the leftmost such one |
| Region.RegionBounds | extract_links.py:19-35 | the search and the counted `finditer` loop that stops at the first match yield exactly the start and stop above |
| Segmenter.NumeralLength | extract_links.py:45-46 | a positive length is an item numeral followed by `.`, and it is the only length from 1 to 3 that is; 0 means none is |
| Segmenter.NumeralThenDotCases | extract_links.py:45-46 | each alternative of `[1-9]\|[1-9]\d\|100` followed by `.`, character by character |
| Segmenter.TokenMeaning | extract_links.py:45-46 | `IsToken`: a token starts at `k` exactly when there is a word boundary, an item numeral of one to three characters, `.`, and whitespace after it |
| Segmenter.TokenEnd | extract_links.py:45-46 | greedy `\s+`: the token takes the whole whitespace run after the `.`, and that run is not empty |
| Segmenter.NextToken | extract_links.py:45-46 | the leftmost token at or after the position; none means no token there |
| Segmenter.Split | extract_links.py:45 | `re.split` gives one fragment more than `re.findall` gives numerals |
| Segmenter.FindAll | extract_links.py:46 | every numeral `re.findall` captures is an item numeral |
| Segmenter.SplitCounts | extract_links.py:45-46 | scanning from any position (`SplitFrom`, `FindAllFrom`, `TokenTextsFrom`), the split gives one fragment more than there are captured numerals, and there are as many token texts as numerals |
| Segmenter.Reconstruction | extract_links.py:45 | from any scan position, the preamble (`SplitFrom`'s first fragment) followed by each token text (`TokenTextsFrom`) and its fragment gives back the rest of the text |
| Segmenter.FragmentsHaveNoToken | extract_links.py:45 | no fragment holds a boundary token of its own |
| Segmenter.FragmentEdges | extract_links.py:45 | a fragment before a token ends at a word boundary; a fragment after one does not start with whitespace |
| Segmenter.TokenAt | extract_links.py:46 | a token's numeral is an item numeral; its text is the numeral, `.`, and a non-empty whitespace run |
| Segmenter.TokenShape | extract_links.py:46 | from any scan position (`FindAllFrom`, `TokenTextsFrom`), every captured numeral is an item numeral, and its token is the numeral, `.`, and a non-empty whitespace run |
| Segmenter.ItemNumeralValue | extract_links.py:46 | an item numeral is a decimal literal without a leading zero, with a value from 1 to 100 |
| Segmenter.DecimalItemNumeral | extract_links.py:45-46 | the converse: every non-empty decimal literal without a leading zero whose value is from 1 to 100 is an item numeral |
| Docket.DocketList.constructor | extract_links.py:49-51 | the docket list holds the given docket and no unmatched-links entry yet |
| Docket.BuildDocket | extract_links.py:52-59 | the append loop pairs numeral `i` with fragment `i + 1` of the split |
| Docket.AgendaDocket | extract_links.py:44-59 | one item per fragment after the preamble, each numbered by an item numeral and without attachments |
| Docket.CleanAgenda | extract_links.py:8-61 | the docket list of the page texts is the docket of the agenda region of the combined text |
| Docket.DocketShape | extract_links.py:44-59 | there is one item per token; item `i` is numbered by the numeral of token `i`, which is an item numeral; no item has attachments yet; no raw text holds a token; the preamble, tokens and raw texts give back the region |
| Hyperlinks.GetHyperlinks | extract_links.py:88-102 | the nested loops return exactly `Hyperlinks`, the links of every page in page order |
| Hyperlinks.PageStep | extract_links.py:89-92 | one step of the page loop: appending a page's links (none without `/Annots`) to the links of the pages before it gives the links of one page more |
| Hyperlinks.LinksUpToPrefix | extract_links.py:89-101 | `LinksUpTo`: the links of the first `n` pages are those of the first `m` followed by those of pages `m + 1` to `n` (`LinksBetween`), so the page loop only appends |
| Hyperlinks.HyperlinksShape | extract_links.py:88-102 | `Hyperlinks`, the returned list: every returned link holds ".pdf", has no title, and has a page number from 1 to the number of pages; page numbers never go down |
| Hyperlinks.PageLinks | extract_links.py:90-91 | a page without `/Annots` contributes no link, and a page contributes at most one link per annotation |
| Hyperlinks.AnnotationLinks | extract_links.py:92-101 | a run of annotations yields at most one link per annotation |
| Hyperlinks.AnnotationLinkMeaning | extract_links.py:94-100 | `AnnotationLink`, `AnnotationUri`, `IsPdfLink`: an annotation yields at most one link; it yields one exactly when it has an action with a URI containing ".pdf"; that link carries the page number, that URI and no title |
| Hyperlinks.CollectPageLinks | extract_links.py:92-101 | the loop over one page's annotations appends exactly that page's links to what came before |
| Hyperlinks.CollectStep | extract_links.py:92-101 | one more annotation appends the link it yields, if any |
| Hyperlinks.AnnotationLinksShape | extract_links.py:92-101 | every link comes from an annotation of the run, carries the page number and no title, and holds ".pdf"; every annotation with such a URI yields its link |
| Hyperlinks.CollectedLinksAreUntitledPdfLinks | extract_links.py:89-101 | every collected link holds ".pdf", has no title, and has a page number from 1 to the number of pages |
| Hyperlinks.LinksInPageOrder | extract_links.py:89-101 | page numbers never go down along the output, and none is above the number of pages read |
| Hyperlinks.OrderedConcat | extract_links.py:89-101 | links of page `n` may follow links in page order whose pages are at most `n` |
| Hyperlinks.OnPageConcat | extract_links.py:89-101 | filtering by page number distributes over concatenation |
| Hyperlinks.PageLinksOnOwnPage | extract_links.py:97-101 | a page's links all carry its page number |
| Hyperlinks.PageLinksElsewhere | extract_links.py:97-101 | none of a page's links carries another page number |
| Hyperlinks.PageLinksTagged | extract_links.py:97-101 | every link of a page carries that page's number |
| Hyperlinks.LinksOfOnePage | extract_links.py:89-101 | the output's links with page number `k + 1` are exactly page `k`'s own links in annotation order, so a page without `/Annots` or without a ".pdf" URI contributes nothing |
| Hyperlinks.NoLinksBeyond | extract_links.py:89-101 | the first `m` pages have no link with a page number above `m` |
| Hyperlinks.LinksOfEarlierPage | extract_links.py:89-101 | a later page adds no link with an earlier page number |
| Titles.PdfTitleCases | extract_links.py:65-80 | a title exists exactly for a 200 reply with `filename=` in the header or ".pdf" in the lower-cased URL; the header rule comes first, then the URL rule; failures give none |
| Titles.PdfTitle | extract_links.py:63-80 | a title exists only for a successful (200) reply |
| Titles.HeaderFilename | extract_links.py:72 | the header title holds no `.` and is shorter than the header |
| Titles.UrlFilename | extract_links.py:76 | the URL title is a suffix of the URL without `/` |
| Titles.HeaderFilenameShape | extract_links.py:71-72 | the field after the first `filename=` holds no other `filename=`; stripping it removes only the quotes around a contiguous slice, and what is left neither starts nor ends with a quote |
| Titles.HeaderTitleShape | extract_links.py:72-73 | the header title is the unquoted field up to its first `.`: it holds no `.` and does not start with a quote |
| Titles.UrlFilenameShape | extract_links.py:76 | the URL title is the URL's last path segment and holds no `/` |
| Titles.UrlTitleKeepsExtension | extract_links.py:75-77 | a URL ending in ".pdf" gives a title ending in ".pdf" |
| Titles.UrlFallbackNeedsOnlyContainment | extract_links.py:71-77 | for every URL whose lower-cased text contains ".pdf" anywhere, a 200 reply without `filename=` in its header gives the URL's last `/` segment as the title; the URL need not end in ".pdf" |
| Titles.UrlFallbackExample | extract_links.py:75-77 | `http://h/a.pdf?x=1` with a 200 reply and no header gets the title `a.pdf?x=1` |
| Titles.ResolveTitles | extract_links.py:104-116 | every link's title becomes the title derived for its own URL while its page and URL stay; there are `ceil(n / 5)` batches, batch `b` is exactly the indices `5b` up to `min(5b + 5, n)`, and together they cover every index once, in order |
| Titles.ResolveBatch | extract_links.py:109-113 | the batch's links get the titles computed for them, and every other link is unchanged |
| Titles.Resolved | extract_links.py:111-113 | the write-back keeps a link's page and URL, and a title is set only when the URL's HEAD reply has status 200 |
| Titles.BatchCount | extract_links.py:108 | `range(0, n, 5)` has `ceil(n / 5)` steps |
| Routing.BucketSnoc | extract_links.py:125-135 | routing one more link appends it to its own destination's list and to no other list |
| Routing.Unmatched | extract_links.py:134-135 | the unmatched list is no longer than the links |
| Routing.CountSnoc | extract_links.py:130-135 | appending a link adds one occurrence of it |
| Routing.CountIsMultiplicity | extract_links.py:119-138 | the occurrence count is the multiplicity in the multiset of the sequence |
| Routing.DestinedStep | extract_links.py:125-132 | taking in item `n` adds exactly the links sent to item `n` |
| Routing.GatheredIsDestined | extract_links.py:125-132 | the attachments of the first `n` items together are the links destined for them |
| Routing.DestinedPartition | extract_links.py:119-138 | each link is destined for an item or unmatched, never both |
| Routing.Partition | extract_links.py:119-138 | summed over all items, the attachments plus the unmatched links are exactly the input links, counted with multiplicity |
| Routing.RoutingKeepsOrder | extract_links.py:120-135 | links handled first come first in every attachment list and in the unmatched list |
| Routing.BucketMembers | extract_links.py:125-132 | an item's attachments are exactly the links sent to it |
| Matcher.UpperRun | extract_links.py:121 | the maximal run of `[A-Z]` |
| Matcher.DigitRun | extract_links.py:121 | the maximal run of `\d` |
| Matcher.IdentifierMeaning | extract_links.py:121 | `IdentifierAt`: `[A-Z]+-\d+-\d+` matches at `k` exactly when some slice from `k` is an identifier (upper-case run, `-`, digits, `-`, digits); the identifier length is the longest such slice |
| Matcher.IdentifierLength | extract_links.py:121 | the identifier matched at `k` ends within the text |
| Matcher.IdentifierAtMatches | extract_links.py:121 | the slice of identifier length from an identifier position is an identifier |
| Matcher.IdentifierMatchesAt | extract_links.py:121 | any identifier slice from `k` means an identifier position no shorter than it |
| Matcher.RunsOfSplit | extract_links.py:121 | a split into upper-case run, `-`, digits, `-`, digits read off in the text is an identifier position there, no shorter than the split slice |
| Matcher.IdentifierSearch | extract_links.py:121 | the lazy `.*?` finds the leftmost identifier before the first newline; none means there is none there |
| Matcher.SearchFinds | extract_links.py:121 | the search returns any identifier position with no newline and no identifier before it |
| Matcher.Canonical | extract_links.py:121 | the canonical form is no longer than the title |
| Matcher.IdentifierEdges | extract_links.py:121 | an identifier starts with an upper-case letter and ends with a digit |
| Matcher.StripKeepsPrefix | extract_links.py:121 | stripping keeps a prefix whose first and last characters are not whitespace |
| Matcher.CanonicalDropsPrefix | extract_links.py:121 | with the leftmost identifier at `p`, the canonical form is the title from `p` on, stripped, and it starts with the identifier |
| Matcher.CanonicalWithoutIdentifier | extract_links.py:121 | without an identifier, the canonical form is the stripped title |
| Matcher.CanonicalKeepsExtension | extract_links.py:121 | the suffix stays: a title ending in ".pdf" keeps the ".pdf" in its canonical form |
| Matcher.LinkMatches | extract_links.py:126 | a title or canonical form that matches is no longer than the raw text |
| Matcher.FirstMatch | extract_links.py:125-132 | the lowest-index item at or after the start whose raw text contains the title or its canonical form; none means no such item |
| Matcher.Destinations | extract_links.py:120-135 | one destination per link, always a valid item index |
| Matcher.Routed | extract_links.py:125-132 | routing never changes an item's number or raw text |
| Matcher.MatchedDocket | extract_links.py:118-138 | matching keeps the number of items |
| Matcher.UnmatchedLinks | extract_links.py:134-138 | there are no more unmatched links than links |
| Matcher.TitledPrefix | extract_links.py:120-121 | the links up to the first link without a title |
| Matcher.RouteMatched | extract_links.py:126-132 | a matched link is appended to its item's attachments, creating the entry if it is missing, and changes nothing else |
| Matcher.RouteUnmatched | extract_links.py:134-135 | an unmatched link goes to the end of the unmatched list and changes no item |
| Matcher.Attach | extract_links.py:128-130 | attaching keeps the item's number and raw text; the item has an attachments entry exactly when it had one or receives links, and the received links follow the earlier ones |
| Matcher.DestinationsSnoc | extract_links.py:120-126 | one more link adds its first match to the destinations |
| Matcher.MatchNothing | extract_links.py:119 | with no links, the docket is unchanged and the unmatched list is empty |
| Matcher.TitledPrefixStops | extract_links.py:120-121 | a titled run of links ended by an untitled link, or by the end of the list, is the titled prefix |
| Matcher.MatchStep | extract_links.py:124-135 | one more titled link: without a match, the docket stays and the link is appended to the unmatched list; with one, the unmatched list stays |
| Matcher.AttachToFirstMatch | extract_links.py:124-132 | the inner loop reports a match exactly when the link has a first matching item, then leaves the docket as matching one more link says; without a match it changes nothing |
| Matcher.MatchAttachments | extract_links.py:118-138 | the loops leave the docket and the unmatched list as the destinations say; a link without a title stops the run with the earlier links attached and no unmatched-links entry set |
| Matcher.DestinationIsFirstMatch | extract_links.py:125-132 | a link goes to item `i` exactly when `i` is the first item whose raw text contains its title or canonical form; it is unmatched exactly when no item's raw text does |
| Matcher.MatchPartition | extract_links.py:119-138 | summed over all items, the attachments plus the unmatched links are exactly the input links |
| Matcher.AttachmentsOnlyWhenReceived | extract_links.py:128-130 | an item has an attachments entry exactly when it had one or received a link; received links follow the earlier ones |
| Matcher.EmptyCanonicalGoesFirst | extract_links.py:121-130 | a title whose canonical form is empty always goes to item 0 of a non-empty docket |

## Left out

- PyPDF2 (`PdfReader`, `extract_text`, `/Annots`, `get_object`). The model takes its results as
  input: one optional text per page, and per page an optional list of annotations, each with an
  optional action carrying an optional URI.
- The HEAD request of `_get_pdf_title` (aiohttp, redirects, the 10-second timeout). Its result is an
  input record (a failure, or a status with an optional `Content-Disposition`), and the request is a
  function from URL to that record. So two links with the same URL get the same title.
- `asyncio.gather`: within a batch, the titles are computed one after another. The order does not
  matter because every title is written to its own index.
- File output (`combined_text.txt`, `all_links.json`, `final_docket_list.json`), `json.dump`, the
  `__main__` block, and main.py (the web service around the pipeline). These are I/O and service
  plumbing.
- Unicode: `\s`, `\d`, `\w`, `[A-Z]`, `lower()` and `re.IGNORECASE` are modelled on ASCII only.
  `\s` includes the separators U+001C to U+001F, as Python's does.
- A URI that is not a string, and an annotation whose `get_object` fails. Only string URIs are
  modelled.
- Aliasing of link dictionaries. Links are values, so an attachment is a copy of the link. Nothing
  changes a link after matching, so that copy cannot be told apart from the shared dictionary.
- `Region.RegionStartMeaning`, `Region.RegionStopMeaning`: case-insensitive matching is stated as
  exact matching in the lower-cased text. `Text.LowerMatchesIgnoringCase` shows that the two agree.
- `Routing.Partition`, `Matcher.MatchPartition`: the partition is stated as equal occurrence counts
  and not as multiset equality. `Routing.CountIsMultiplicity` links the two.
- `Matcher.MatchAttachments`: the exception at line 121 is modelled by returning `false`. The
  exception object itself is not modelled. The method does not return the docket list; the caller
  already holds it.
- Matcher.Canonical: its contract states only that the canonical form is no longer than the title.
  `CanonicalDropsPrefix` and the lemmas beside it state what it is.
- Matcher.LinkMatches: its contract states only a length bound; `DestinationIsFirstMatch` states
  what a match decides.
- Matcher.MatchedDocket: its contract states only that the number of items is kept; `RouteMatched`,
  `MatchPartition` and `AttachmentsOnlyWhenReceived` state the contents.
- Matcher.UnmatchedLinks: its contract states only a length bound; `RouteUnmatched` and
  `MatchPartition` state the contents.
- Titles.PdfTitle: its contract states only that a title needs a 200 reply; `PdfTitleCases` states
  the whole rule.
- Hyperlinks.PageLinks: its contract states the missing-`/Annots` case and a length bound;
  `LinksOfOnePage` states the contents.
- Hyperlinks.AnnotationLinks: its contract states only a length bound; `AnnotationLinksShape`
  states the contents.
- Routing.Unmatched: its contract states only a length bound; `Partition` and `RoutingKeepsOrder`
  state the contents.
- The eight functions above keep small contracts because a quantified contract on a function is
  brought into every proof that mentions the function, and those proofs then fail to finish.
