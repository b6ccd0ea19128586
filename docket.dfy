/**
 * `clean_agenda` as a whole: the region is cut out of the combined page text,
 * split into items, and each captured numeral is paired with the fragment that
 * follows its token. The result is the docket list object that the matcher
 * later fills in place.
 */
module Docket {
  import opened Wrappers
  import opened Text
  import opened Region
  import opened Segmenter
  import opened Hyperlinks

  /** One entry of `docket_list["docket"]`; `attachments` is absent until a link is matched to it. */
  datatype AgendaItem = AgendaItem(itemNumber: string, rawText: string, attachments: Option<seq<Link>>)

  /** The `docket_list` dictionary: its `"docket"` entry, and its `"unmatched_links"` entry once set. */
  class DocketList {
    var docket: seq<AgendaItem>
    var unmatchedLinks: Option<seq<Link>>

    constructor (docket: seq<AgendaItem>)
      ensures this.docket == docket && unmatchedLinks.None?
    {
      this.docket := docket;
      unmatchedLinks := None;
    }
  }

  /** The docket of a region: numeral `i` with fragment `i + 1` of the split (fragment 0 is the preamble). */
  function AgendaDocket(region: string): (r: seq<AgendaItem>)
    ensures |r| == |Split(region)| - 1
    ensures forall i :: 0 <= i < |r| ==> IsItemNumeral(r[i].itemNumber) && r[i].attachments.None?
  {
    SplitCounts(region, 0);
    seq(|FindAll(region)|, i requires 0 <= i < |FindAll(region)| =>
      AgendaItem(FindAll(region)[i], Split(region)[i + 1], None))
  }

  function RawTexts(docket: seq<AgendaItem>): seq<string> {
    seq(|docket|, i requires 0 <= i < |docket| => docket[i].rawText)
  }

  /** The loop that appends one item per captured numeral. */
  method BuildDocket(region: string) returns (docket: seq<AgendaItem>)
    ensures docket == AgendaDocket(region)
  {
    var agendaItems := Split(region)[1..];
    var agendaItemNumbers := FindAll(region);
    SplitCounts(region, 0);
    docket := [];
    for i := 0 to |agendaItemNumbers|
      invariant |docket| == i
      invariant forall k :: 0 <= k < i ==> docket[k] == AgendaDocket(region)[k]
    {
      docket := docket + [AgendaItem(agendaItemNumbers[i], agendaItems[i], None)];
    }
  }

  /** `clean_agenda`: the page texts (a page without text is `None`) give the docket list. */
  method CleanAgenda(extracted: seq<Option<string>>) returns (docketList: DocketList)
    ensures fresh(docketList)
    ensures docketList.docket == AgendaDocket(AgendaRegion(CombinedText(extracted)))
    ensures docketList.unmatchedLinks.None?
  {
    var combinedText := CombinedText(extracted);
    var start, stop := RegionBounds(combinedText);
    var region := combinedText[start..stop];
    var docket := BuildDocket(region);
    docketList := new DocketList(docket);
  }

  /** One item per boundary token; item `i` is numbered by the numeral of token `i`, which is an
      item numeral; no item carries attachments yet; no raw text holds a boundary token; and the
      preamble followed by each token and its item's raw text gives back the region. */
  lemma DocketShape(region: string)
    ensures var docket := AgendaDocket(region);
      && |docket| == |FindAll(region)| == |TokenTexts(region)|
      && (forall i :: 0 <= i < |docket| ==> IsItemNumeral(docket[i].itemNumber) && docket[i].attachments.None?)
      && (forall i :: 0 <= i < |docket| ==> TokenText(docket[i].itemNumber, TokenTexts(region)[i]))
      && (forall i :: 0 <= i < |docket| ==> TokenFree(docket[i].rawText))
      && region == Split(region)[0] + Interleave(TokenTexts(region), RawTexts(docket))
  {
    var docket := AgendaDocket(region);
    SplitCounts(region, 0);
    TokenShape(region, 0);
    FragmentsHaveNoToken(region, 0);
    Reconstruction(region, 0);
    assert RawTexts(docket) == Split(region)[1..];
    forall i | 0 <= i < |docket| ensures TokenText(docket[i].itemNumber, TokenTexts(region)[i]) {
      assert docket[i].itemNumber == FindAll(region)[i];
    }
    forall i | 0 <= i < |docket| ensures TokenFree(docket[i].rawText) {
      assert docket[i].rawText == Split(region)[i + 1];
    }
  }
}
