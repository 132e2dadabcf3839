/**
 * The active-section state and the intersection observer's callback, which
 * updates it once per notification batch.
 */
module Tracker {
  import opened Wrappers
  import opened Sections
  import opened Nearest

  /** One intersection entry: the observed section element it reports on, and whether it intersects. */
  datatype Entry = Entry(target: SectionId, isIntersecting: bool)

  /** The target of the last intersecting entry of a batch, if any entry intersects. */
  function LastIntersecting(entries: seq<Entry>): (r: Option<SectionId>)
    ensures r.None? <==> forall k :: 0 <= k < |entries| ==> !entries[k].isIntersecting
    ensures r.Some? ==> exists k :: 0 <= k < |entries| && entries[k].isIntersecting && entries[k].target == r.value &&
                                    forall j :: k < j < |entries| ==> !entries[j].isIntersecting
  {
    if entries == [] then None
    else
      var init, last := entries[..|entries| - 1], entries[|entries| - 1];
      if last.isIntersecting then Some(last.target)
      else
        var r := LastIntersecting(init);
        assert r.Some? ==> exists k :: 0 <= k < |entries| && entries[k].isIntersecting && entries[k].target == r.value &&
                                       forall j :: k < j < |entries| ==> !entries[j].isIntersecting by {
          if r.Some? {
            var k :| 0 <= k < |init| && init[k].isIntersecting && init[k].target == r.value &&
                     forall j :: k < j < |init| ==> !init[j].isIntersecting;
            assert entries[k] == init[k];
            assert forall j :: k < j < |entries| ==> !entries[j].isIntersecting by {
              forall j | k < j < |entries| ensures !entries[j].isIntersecting {
                if j < |init| { assert entries[j] == init[j]; }
              }
            }
          }
        }
        assert (forall k :: 0 <= k < |init| ==> !init[k].isIntersecting) ==> forall k :: 0 <= k < |entries| ==> !entries[k].isIntersecting by {
          assert forall k :: 0 <= k < |init| ==> init[k] == entries[k];
        }
        r
  }

  /**
   * The fallback write: `topId` replaces the value the batch wrote only when
   * it differs from `captured`, the `active` value the callback compares with.
   */
  function Settle(written: SectionId, topId: Option<SectionId>, captured: SectionId): (r: SectionId)
    ensures topId.Some? && topId.value != captured ==> r == topId.value
    ensures topId.None? || topId.value == captured ==> r == written
  {
    match topId
    case Some(w) => if w != captured then w else written
    case None => written
  }

  /**
   * The active section after one batch, as the callback computes it: the
   * intersecting entries write in batch order, then the fallback may
   * override. `captured` is the `active` value the callback closed over.
   */
  function AfterBatch(prior: SectionId, entries: seq<Entry>, layout: Layout, headerHeight: int, captured: SectionId): (r: SectionId)
    ensures || r == prior
            || r == FallbackCandidate(layout, headerHeight).value
            || exists k :: 0 <= k < |entries| && entries[k].isIntersecting && entries[k].target == r
  {
    Settle(LastIntersecting(entries).GetOr(prior), FallbackCandidate(layout, headerHeight), captured)
  }

  /**
   * With the captured value "home", the batch leaves the nearest section when
   * it is not `Home`; otherwise the last intersecting entry's target; otherwise
   * the prior value.
   */
  lemma AfterBatchWithInitialCapture(prior: SectionId, entries: seq<Entry>, layout: Layout, headerHeight: int, w: SectionId)
    requires IsNearest(layout, headerHeight, w)
    ensures AfterBatch(prior, entries, layout, headerHeight, Home) ==
      if w != Home then w
      else if exists k :: 0 <= k < |entries| && entries[k].isIntersecting then LastIntersecting(entries).value
      else prior
  {
    FallbackIsNearest(layout, headerHeight, w);
  }

  /**
   * The batch never moves `active` off the page: if it was `Home` or a
   * section whose element exists, and every entry reports on an observed
   * section, so is the result.
   */
  lemma AfterBatchStaysOnPage(prior: SectionId, entries: seq<Entry>, observed: set<SectionId>, rectTop: SectionId -> int, headerHeight: int)
    requires prior == Home || prior in observed
    requires forall k :: 0 <= k < |entries| ==> entries[k].target in observed
    ensures var r := AfterBatch(prior, entries, AnchorTops(observed, rectTop), headerHeight, Home);
      r == Home || r in observed
  {
    var layout := AnchorTops(observed, rectTop);
    var w := FallbackCandidate(layout, headerHeight).value;
    if w != Home {
      if observed == {} {
        FallbackWithoutAnchors(layout, headerHeight);
      } else {
        var some :| some in observed;
        FallbackIsResolved(layout, headerHeight, some);
      }
    }
  }

  /** With no section element on the page the observer reports nothing, and `active` keeps its value. */
  lemma NoAnchorsKeepsActive(prior: SectionId, entries: seq<Entry>, observed: set<SectionId>, rectTop: SectionId -> int, headerHeight: int)
    requires observed == {}
    requires forall k :: 0 <= k < |entries| ==> entries[k].target in observed
    ensures AfterBatch(prior, entries, AnchorTops(observed, rectTop), headerHeight, Home) == prior
  {
    FallbackWithoutAnchors(AnchorTops(observed, rectTop), headerHeight);
  }

  /**
   * The callback compares with the captured "home", not with the current
   * value: with the page at its top (`Home` nearest) and `About` reported as
   * intersecting, `About` stays active although `Home` is nearest.
   */
  lemma StaleCaptureKeepsIntersecting()
    ensures var layout := AnchorTops({Home, About}, id => if id == Home then 24 else 400);
      && FallbackCandidate(layout, 0) == Some(Home)
      && AfterBatch(Home, [Entry(About, true)], layout, 0, Home) == About
  {
    var layout := AnchorTops({Home, About}, id => if id == Home then 24 else 400);
    FallbackIsNearest(layout, 0, Home);
    assert LastIntersecting([Entry(About, true)]) == Some(About);
  }

  /**
   * The page's `active` state together with the observer callback set up
   * once after mount. `headerHeight` and `observed` are fixed when the
   * observer is created; `captured` is the `active` value of the render that
   * created it.
   */
  class SectionTracker {
    var active: SectionId
    const headerHeight: int
    const observed: set<SectionId>
    const captured: SectionId

    /** The callback closed over the first render's `active`, and `active` is `Home` or a section on the page. */
    ghost predicate Valid()
      reads this
    {
      captured == Home && (active == Home || active in observed)
    }

    /**
     * `useState("home")` and the observer effect, run after the mount effect
     * has filled `refs`: the header height is read once from the header ref
     * (`offsetHeight` is the header element's height when the ref holds one),
     * and exactly the sections whose refs hold an element are observed.
     */
    constructor (refs: Refs, offsetHeight: int)
      ensures Valid()
      ensures active == Home && captured == Home
      ensures headerHeight == (if refs.header then offsetHeight else 0)
      ensures observed == refs.sections
    {
      active := Home;
      headerHeight := HeaderHeight(if refs.header then Some(offsetHeight) else None);
      observed := refs.sections;
      captured := Home;
    }

    /**
     * One notification batch. `rectTop` gives each observed element's top
     * edge at this moment; entries report only on observed elements.
     */
    method ApplyBatch(entries: seq<Entry>, rectTop: SectionId -> int)
      requires Valid()
      requires forall k :: 0 <= k < |entries| ==> entries[k].target in observed
      modifies this
      ensures Valid()
      ensures active == AfterBatch(old(active), entries, AnchorTops(observed, rectTop), headerHeight, captured)
      ensures var w := FallbackCandidate(AnchorTops(observed, rectTop), headerHeight).value;
        active == if w != Home then w else LastIntersecting(entries).GetOr(old(active))
    {
      for k := 0 to |entries|
        invariant active == LastIntersecting(entries[..k]).GetOr(old(active))
      {
        assert entries[..k + 1][..k] == entries[..k];
        if entries[k].isIntersecting {
          active := entries[k].target;
        }
      }
      assert entries[..|entries|] == entries;
      var candidate := FallbackCandidate(AnchorTops(observed, rectTop), headerHeight);
      if candidate.Some? {
        var topId := candidate.value;
        if topId != captured {
          active := topId;
        }
      }
      AfterBatchStaysOnPage(old(active), entries, observed, rectTop, headerHeight);
    }
  }
}
