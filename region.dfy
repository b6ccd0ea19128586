/**
 * The first half of `clean_agenda`: the page texts are joined into one line of
 * text, and the agenda region is cut out of it, from just after the first
 * "CALL TO ORDER" to just after the first "ADJOURNMENT" that follows.
 * Both markers are matched case-insensitively.
 */
module Region {
  import opened Wrappers
  import opened Text

  const CallToOrder := "CALL TO ORDER"
  const Adjournment := "ADJOURNMENT"

  /** `page.extract_text() or ""` for every page: a page without text counts as "". */
  function PageTexts(extracted: seq<Option<string>>): (r: seq<string>)
    ensures |r| == |extracted|
    ensures forall i :: 0 <= i < |r| ==> (extracted[i].Some? ==> r[i] == extracted[i].value)
    ensures forall i :: 0 <= i < |r| ==> (extracted[i].None? ==> r[i] == "")
  {
    seq(|extracted|, i requires 0 <= i < |extracted| => extracted[i].GetOr(""))
  }

  /** `" ".join(texts)`. */
  function JoinWithSpaces(texts: seq<string>): (r: string)
    ensures texts == [] ==> r == ""
    ensures |texts| == 1 ==> r == texts[0]
    ensures |texts| > 0 ==> |r| == |texts[0]| + |JoinWithSpaces(texts[1..])| + (if |texts| > 1 then 1 else 0)
  {
    if |texts| == 0 then ""
    else if |texts| == 1 then texts[0]
    else texts[0] + " " + JoinWithSpaces(texts[1..])
  }

  /** Appending one more text appends a single space and that text. */
  lemma {:induction false} JoinSnoc(texts: seq<string>, t: string)
    requires |texts| > 0
    ensures JoinWithSpaces(texts + [t]) == JoinWithSpaces(texts) + " " + t
    decreases |texts|
  {
    if |texts| > 1 {
      assert (texts + [t])[1..] == texts[1..] + [t];
      JoinSnoc(texts[1..], t);
    }
  }

  /** `text.replace("\n", " ")`. */
  function FlattenNewlines(text: string): (r: string)
    ensures |r| == |text|
    ensures '\n' !in r
    ensures forall i :: 0 <= i < |text| && text[i] != '\n' ==> r[i] == text[i]
    ensures forall i :: 0 <= i < |text| && text[i] == '\n' ==> r[i] == ' '
  {
    seq(|text|, i requires 0 <= i < |text| => if text[i] == '\n' then ' ' else text[i])
  }

  /** `combined_text` before it is cut down to the region. */
  function CombinedText(extracted: seq<Option<string>>): (r: string)
    ensures '\n' !in r
  {
    FlattenNewlines(JoinWithSpaces(PageTexts(extracted)))
  }

  /** Leftmost case-insensitive occurrence of `marker` in `text` at or after `from`. */
  function FindMarker(text: string, marker: string, from: nat): (r: Option<nat>)
    ensures r.Some? ==> from <= r.value && MatchesAt(Lower(text), Lower(marker), r.value)
    ensures r.Some? ==> forall k :: from <= k < r.value ==> !MatchesAt(Lower(text), Lower(marker), k)
    ensures r.None? ==> forall k :: from <= k ==> !MatchesAt(Lower(text), Lower(marker), k)
  {
    Find(Lower(text), Lower(marker), from)
  }

  /** Start of the region: just after the first "CALL TO ORDER", or 0 without one. */
  function RegionStart(combined: string): (start: nat)
    ensures start <= |combined|
  {
    match FindMarker(combined, CallToOrder, 0)
    case Some(k) => k + |CallToOrder|
    case None => 0
  }

  /** End of the region: just after the first "ADJOURNMENT" at or after the start, or the end of the text. */
  function RegionStop(combined: string): (stop: nat)
    ensures RegionStart(combined) <= stop <= |combined|
  {
    match FindMarker(combined, Adjournment, RegionStart(combined))
    case Some(k) => k + |Adjournment|
    case None => |combined|
  }

  /** `combined_text[start_position:stop_position]`. */
  function AgendaRegion(combined: string): (r: string)
    ensures var start, stop := RegionStart(combined), RegionStop(combined);
      |r| <= |combined| && combined[..start] + r + combined[stop..] == combined
  {
    var start, stop := RegionStart(combined), RegionStop(combined);
    Around(combined, start, stop);
    combined[start..stop]
  }

  lemma Around(s: string, lo: nat, hi: nat)
    requires lo <= hi <= |s|
    ensures s[..lo] + s[lo..hi] + s[hi..] == s
  {
  }

  /** The region's start stated through the occurrences of "CALL TO ORDER" (in the case-folded text):
      0 exactly when there is none, otherwise just after the leftmost one. */
  lemma RegionStartMeaning(combined: string)
    ensures var start, text := RegionStart(combined), Lower(combined);
      && (start == 0 <==> forall k :: !MatchesAt(text, Lower(CallToOrder), k))
      && (start > 0 ==> MatchesAt(text, Lower(CallToOrder), start - |CallToOrder|))
      && (start > 0 ==> forall k :: 0 <= k < start - |CallToOrder| ==> !MatchesAt(text, Lower(CallToOrder), k))
  {
    match FindMarker(combined, CallToOrder, 0)
    case Some(k) =>
    case None =>
  }

  /** The region's end stated through the occurrences of "ADJOURNMENT" at or after the start (in the
      case-folded text): the end of the text when there is none, otherwise just after the leftmost one. */
  lemma RegionStopMeaning(combined: string)
    ensures var start, stop, text := RegionStart(combined), RegionStop(combined), Lower(combined);
      && ((forall k :: start <= k ==> !MatchesAt(text, Lower(Adjournment), k)) ==> stop == |combined|)
      && (!(forall k :: start <= k ==> !MatchesAt(text, Lower(Adjournment), k)) ==>
           && start <= stop - |Adjournment|
           && MatchesAt(text, Lower(Adjournment), stop - |Adjournment|)
           && forall k :: start <= k < stop - |Adjournment| ==> !MatchesAt(text, Lower(Adjournment), k))
  {
    match FindMarker(combined, Adjournment, RegionStart(combined))
    case Some(k) =>
    case None =>
  }

  /** The search for "CALL TO ORDER" and the loop over the "ADJOURNMENT" matches in the text after it
      (the loop stops at the first match, so only the first one counts). */
  method RegionBounds(combined: string) returns (start: nat, stop: nat)
    ensures start == RegionStart(combined) && stop == RegionStop(combined)
  {
    start := 0;
    var callToOrder := FindMarker(combined, CallToOrder, 0);
    if callToOrder.Some? {
      start := callToOrder.value + |CallToOrder|;
    }
    var adjournmentCount := 0;
    stop := |combined|;
    var textAfterCall := combined[start..];
    var matches := FindIter(Lower(textAfterCall), Lower(Adjournment), 0);
    var i := 0;
    // the source's `break` after the first counted match is the `adjournmentCount != 1` guard
    while i < |matches| && adjournmentCount != 1
      invariant 0 <= i <= |matches| && adjournmentCount == i <= 1
      invariant i == 0 ==> stop == |combined|
      invariant i == 1 ==> stop == start + matches[0] + |Adjournment|
    {
      adjournmentCount := adjournmentCount + 1;
      if adjournmentCount == 1 {
        stop := start + matches[i] + |Adjournment|;
      }
      i := i + 1;
    }
    assert Lower(textAfterCall) == Lower(combined)[start..];
    FindInSuffix(Lower(combined), Lower(Adjournment), start, 0);
  }
}
