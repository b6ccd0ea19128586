/**
 * Where the matched links end up, given each link's destination (an item
 * index, or none for an unmatched link): item `i` receives, in order, the
 * links destined for it, and the rest form the unmatched list.
 */
module Routing {
  import opened Wrappers
  import opened Hyperlinks

  /** The links, in order, whose destination is item `i`. */
  function Bucket(dest: seq<Option<nat>>, links: seq<Link>, i: nat): seq<Link>
    requires |dest| == |links|
  {
    if links == [] then []
    else Bucket(dest[..|dest| - 1], links[..|links| - 1], i) + (if dest[|dest| - 1] == Some(i) then [links[|links| - 1]] else [])
  }

  /** The links, in order, that have no destination. */
  function Unmatched(dest: seq<Option<nat>>, links: seq<Link>): (r: seq<Link>)
    requires |dest| == |links|
    ensures |r| <= |links|
  {
    if links == [] then []
    else Unmatched(dest[..|dest| - 1], links[..|links| - 1]) + (if dest[|dest| - 1].None? then [links[|links| - 1]] else [])
  }

  /** Routing one more link appends it to its own destination and to no other. */
  lemma BucketSnoc(dest: seq<Option<nat>>, links: seq<Link>, d: Option<nat>, link: Link, i: nat)
    requires |dest| == |links|
    ensures Bucket(dest + [d], links + [link], i) == Bucket(dest, links, i) + (if d == Some(i) then [link] else [])
    ensures Unmatched(dest + [d], links + [link]) == Unmatched(dest, links) + (if d.None? then [link] else [])
  {
    assert (dest + [d])[..|dest|] == dest;
    assert (links + [link])[..|links|] == links;
  }

  /** How many times `x` occurs in `s`. */
  function Count(s: seq<Link>, x: Link): nat {
    if s == [] then 0 else Count(s[..|s| - 1], x) + (if s[|s| - 1] == x then 1 else 0)
  }

  lemma CountSnoc(s: seq<Link>, l: Link, x: Link)
    ensures Count(s + [l], x) == Count(s, x) + (if l == x then 1 else 0)
  {
    assert (s + [l])[..|s|] == s;
  }

  /** `Count` is the multiplicity of `x` in the multiset of `s`. */
  lemma {:induction false} CountIsMultiplicity(s: seq<Link>, x: Link)
    ensures Count(s, x) == multiset(s)[x]
  {
    if s != [] {
      CountIsMultiplicity(s[..|s| - 1], x);
      assert s == s[..|s| - 1] + [s[|s| - 1]];
    }
  }

  /** How many times `x` occurs in the attachments of items `0 .. n - 1` together. */
  function Gathered(dest: seq<Option<nat>>, links: seq<Link>, n: nat, x: Link): nat
    requires |dest| == |links|
  {
    if n == 0 then 0 else Gathered(dest, links, n - 1, x) + Count(Bucket(dest, links, n - 1), x)
  }

  /** How many of the links equal to `x` have one of items `0 .. n - 1` as destination. */
  function Destined(dest: seq<Option<nat>>, links: seq<Link>, n: nat, x: Link): nat
    requires |dest| == |links|
  {
    if links == [] then 0
    else
      var d := dest[|dest| - 1];
      Destined(dest[..|dest| - 1], links[..|links| - 1], n, x)
        + (if d.Some? && d.value < n && links[|links| - 1] == x then 1 else 0)
  }

  lemma {:induction false} DestinedNone(dest: seq<Option<nat>>, links: seq<Link>, x: Link)
    requires |dest| == |links|
    ensures Destined(dest, links, 0, x) == 0
  {
    if links != [] {
      DestinedNone(dest[..|dest| - 1], links[..|links| - 1], x);
    }
  }

  /** Widening the range by item `n` adds exactly item `n`'s attachments. */
  lemma {:induction false} DestinedStep(dest: seq<Option<nat>>, links: seq<Link>, n: nat, x: Link)
    requires |dest| == |links|
    ensures Destined(dest, links, n + 1, x) == Destined(dest, links, n, x) + Count(Bucket(dest, links, n), x)
  {
    if links != [] {
      var dd, ll := dest[..|dest| - 1], links[..|links| - 1];
      var d, l := dest[|dest| - 1], links[|links| - 1];
      DestinedStep(dd, ll, n, x);
      if d == Some(n) {
        CountSnoc(Bucket(dd, ll, n), l, x);
      } else {
        assert Bucket(dest, links, n) == Bucket(dd, ll, n) by {
          assert Bucket(dd, ll, n) + [] == Bucket(dd, ll, n);
        }
      }
    }
  }

  /** The attachments of items `0 .. n - 1` together are the links destined for them. */
  lemma {:induction false} GatheredIsDestined(dest: seq<Option<nat>>, links: seq<Link>, n: nat, x: Link)
    requires |dest| == |links|
    ensures Gathered(dest, links, n, x) == Destined(dest, links, n, x)
  {
    if n == 0 {
      DestinedNone(dest, links, x);
    } else {
      GatheredIsDestined(dest, links, n - 1, x);
      DestinedStep(dest, links, n - 1, x);
    }
  }

  /** With every destination below `n`, each link is destined for an item or unmatched, never both. */
  lemma {:induction false} DestinedPartition(dest: seq<Option<nat>>, links: seq<Link>, n: nat, x: Link)
    requires |dest| == |links|
    requires forall k :: 0 <= k < |dest| ==> dest[k].Some? ==> dest[k].value < n
    ensures Destined(dest, links, n, x) + Count(Unmatched(dest, links), x) == Count(links, x)
  {
    if links != [] {
      var dd, ll := dest[..|dest| - 1], links[..|links| - 1];
      var d, l := dest[|dest| - 1], links[|links| - 1];
      DestinedPartition(dd, ll, n, x);
      if d.None? {
        CountSnoc(Unmatched(dd, ll), l, x);
      } else {
        assert Unmatched(dest, links) == Unmatched(dd, ll) by {
          assert Unmatched(dd, ll) + [] == Unmatched(dd, ll);
        }
      }
    }
  }

  /** Every link lands in exactly one place: the attachments of items `0 .. n - 1` and the unmatched
      list together hold each link as many times as the input does. */
  lemma Partition(dest: seq<Option<nat>>, links: seq<Link>, n: nat, x: Link)
    requires |dest| == |links|
    requires forall k :: 0 <= k < |dest| ==> dest[k].Some? ==> dest[k].value < n
    ensures Gathered(dest, links, n, x) + Count(Unmatched(dest, links), x) == Count(links, x)
  {
    GatheredIsDestined(dest, links, n, x);
    DestinedPartition(dest, links, n, x);
  }
  /** Order is kept: the links handled first come first in every attachment list and in the unmatched list. */
  lemma {:induction false} RoutingKeepsOrder(dest1: seq<Option<nat>>, links1: seq<Link>, dest2: seq<Option<nat>>, links2: seq<Link>, i: nat)
    requires |dest1| == |links1| && |dest2| == |links2|
    decreases |links2|
    ensures Bucket(dest1 + dest2, links1 + links2, i) == Bucket(dest1, links1, i) + Bucket(dest2, links2, i)
    ensures Unmatched(dest1 + dest2, links1 + links2) == Unmatched(dest1, links1) + Unmatched(dest2, links2)
  {
    if links2 == [] {
      assert dest1 + dest2 == dest1 && links1 + links2 == links1;
    } else {
      var dd, ll := dest2[..|dest2| - 1], links2[..|links2| - 1];
      var d, l := dest2[|dest2| - 1], links2[|links2| - 1];
      assert dest2 == dd + [d] && links2 == ll + [l];
      assert dest1 + dest2 == (dest1 + dd) + [d] && links1 + links2 == (links1 + ll) + [l];
      RoutingKeepsOrder(dest1, links1, dd, ll, i);
      BucketSnoc(dest1 + dd, links1 + ll, d, l, i);
      BucketSnoc(dd, ll, d, l, i);
    }
  }

  /** Item `i`'s attachments are exactly the links whose destination is `i`. */
  lemma {:induction false} BucketMembers(dest: seq<Option<nat>>, links: seq<Link>, i: nat)
    requires |dest| == |links|
    ensures forall k :: 0 <= k < |links| && dest[k] == Some(i) ==> links[k] in Bucket(dest, links, i)
    ensures forall l :: l in Bucket(dest, links, i) ==> exists k :: 0 <= k < |links| && dest[k] == Some(i) && links[k] == l
  {
    if links != [] {
      var dd, ll := dest[..|dest| - 1], links[..|links| - 1];
      var d, l := dest[|dest| - 1], links[|links| - 1];
      assert dest == dd + [d] && links == ll + [l];
      BucketMembers(dd, ll, i);
      BucketSnoc(dd, ll, d, l, i);
      forall x | x in Bucket(dest, links, i)
        ensures exists k :: 0 <= k < |links| && dest[k] == Some(i) && links[k] == x
      {
        if x in Bucket(dd, ll, i) {
          var k :| 0 <= k < |ll| && dd[k] == Some(i) && ll[k] == x;
          assert dest[k] == dd[k] && links[k] == ll[k];
        } else {
          assert dest[|links| - 1] == Some(i) && links[|links| - 1] == x;
        }
      }
      forall k | 0 <= k < |links| && dest[k] == Some(i) ensures links[k] in Bucket(dest, links, i) {
        if k < |ll| {
          assert dest[k] == dd[k] && links[k] == ll[k];
        }
      }
    }
  }
}
