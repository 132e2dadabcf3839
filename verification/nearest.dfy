/**
 * The nearest-section rule of the intersection callback: every section gets
 * its distance from the ideal reading position, the list is sorted by
 * distance, and the first entry is the candidate.
 */
module Nearest {
  import opened Wrappers
  import opened Sections

  /** The fixed offset below the header at which a section is read. */
  const READING_OFFSET: int := 24

  /** A distance in pixels, or `Number.POSITIVE_INFINITY` for an anchor that is not resolved. */
  datatype Distance = Finite(px: nat) | Infinite

  /** The `{ id, d }` record the distance map produces. */
  datatype Ranked = Ranked(id: SectionId, d: Distance)

  /**
   * Where each section's top edge is, relative to the viewport, or `None`
   * when the section's ref holds no element.
   */
  type Layout = SectionId -> Option<int>

  function Abs(x: int): nat {
    if x < 0 then -x else x
  }

  /** The distance of a section's top edge from `headerHeight + 24`. */
  function DistanceOf(top: Option<int>, headerHeight: int): (d: Distance)
    ensures top.None? <==> d.Infinite?
    ensures top.Some? ==> d.px == Abs(top.value - (headerHeight + READING_OFFSET))
  {
    match top
    case None => Infinite
    case Some(t) => Finite(Abs(t - (headerHeight + READING_OFFSET)))
  }

  /**
   * The sign of the comparator `a.d - b.d`. Infinity minus infinity is NaN,
   * which the sort reads as 0, so two unresolved anchors compare equal.
   */
  function Compare(a: Distance, b: Distance): (c: int)
    ensures -1 <= c <= 1
    ensures a.Finite? && b.Finite? ==> (c < 0 <==> a.px < b.px) && (c == 0 <==> a.px == b.px)
    ensures a.Finite? && b.Infinite? ==> c == -1
    ensures a.Infinite? && b.Finite? ==> c == 1
    ensures a.Infinite? && b.Infinite? ==> c == 0
  {
    match (a, b)
    case (Finite(x), Finite(y)) => if x < y then -1 else if x == y then 0 else 1
    case (Finite(_), Infinite) => -1
    case (Infinite, Finite(_)) => 1
    case (Infinite, Infinite) => 0
  }

  /** `a` may stay before `b` in a stable sort: the comparator is not positive. */
  predicate AtMost(a: Distance, b: Distance) {
    Compare(a, b) <= 0
  }

  /** `AtMost` is a total preorder: total and transitive. */
  lemma AtMostTotalPreorder(a: Distance, b: Distance, c: Distance)
    ensures AtMost(a, b) || AtMost(b, a)
    ensures AtMost(a, b) && AtMost(b, c) ==> AtMost(a, c)
  {
  }

  /** The distance map over `ids`, in their order. */
  function Distances(ids: seq<SectionId>, layout: Layout, headerHeight: int): (rs: seq<Ranked>)
    ensures |rs| == |ids|
    ensures forall i :: 0 <= i < |ids| ==> rs[i] == Ranked(ids[i], DistanceOf(layout(ids[i]), headerHeight))
  {
    seq(|ids|, i requires 0 <= i < |ids| => Ranked(ids[i], DistanceOf(layout(ids[i]), headerHeight)))
  }

  predicate Sorted(s: seq<Ranked>) {
    forall i, j :: 0 <= i < j < |s| ==> AtMost(s[i].d, s[j].d)
  }

  /** Places `x` before the first element it compares at most equal to. */
  function Insert(x: Ranked, s: seq<Ranked>): (r: seq<Ranked>)
    ensures |r| == |s| + 1
    ensures multiset(r) == multiset(s) + multiset{x}
  {
    if s == [] || AtMost(x.d, s[0].d) then [x] + s
    else
      assert s == [s[0]] + s[1..];
      [s[0]] + Insert(x, s[1..])
  }

  /**
   * `distances.sort((a, b) => a.d - b.d)`. The sort is stable, and every
   * stable sort by a consistent comparator has one result, so a stable
   * insertion sort stands for it.
   */
  function SortByDistance(s: seq<Ranked>): (r: seq<Ranked>)
    ensures |r| == |s|
    ensures multiset(r) == multiset(s)
  {
    if s == [] then []
    else
      assert s == [s[0]] + s[1..];
      Insert(s[0], SortByDistance(s[1..]))
  }

  lemma {:induction false} InsertSorted(x: Ranked, s: seq<Ranked>)
    requires Sorted(s)
    ensures Sorted(Insert(x, s))
  {
    if s == [] || AtMost(x.d, s[0].d) {
      forall j | 0 < j < |s| + 1
        ensures AtMost(x.d, ([x] + s)[j].d)
      {
        AtMostTotalPreorder(x.d, s[0].d, s[j - 1].d);
      }
    } else {
      InsertSorted(x, s[1..]);
      var t := Insert(x, s[1..]);
      assert multiset(t) == multiset(s[1..]) + multiset{x};
      forall j | 0 <= j < |t|
        ensures AtMost(s[0].d, t[j].d)
      {
        assert t[j] in multiset(t);
        assert t[j] == x || t[j] in multiset(s[1..]);
        if t[j] != x {
          assert t[j] in s[1..];
          var k :| 0 <= k < |s[1..]| && s[1..][k] == t[j];
          assert s[k + 1] == t[j];
        } else {
          AtMostTotalPreorder(x.d, s[0].d, s[0].d);
        }
      }
    }
  }

  /** The sort's result is ordered by distance. */
  lemma {:induction false} SortByDistanceSorted(s: seq<Ranked>)
    ensures Sorted(SortByDistance(s))
  {
    if s != [] {
      SortByDistanceSorted(s[1..]);
      InsertSorted(s[0], SortByDistance(s[1..]));
    }
  }

  /**
   * A reference argmin: the position of the first entry whose distance is
   * minimal. Every entry is at least as far, and every earlier entry is
   * strictly farther.
   */
  function FirstMinimum(s: seq<Ranked>): (k: nat)
    requires |s| > 0
    ensures k < |s|
    ensures forall j :: 0 <= j < |s| ==> AtMost(s[k].d, s[j].d)
    ensures forall j :: 0 <= j < k ==> !AtMost(s[j].d, s[k].d)
  {
    if |s| == 1 then 0
    else
      var k := FirstMinimum(s[1..]) + 1;
      assert forall j :: 1 <= j < |s| ==> s[j] == s[1..][j - 1];
      if AtMost(s[0].d, s[k].d) then
        assert forall j :: 0 <= j < |s| ==> AtMost(s[0].d, s[j].d) by {
          forall j | 0 <= j < |s| ensures AtMost(s[0].d, s[j].d) {
            AtMostTotalPreorder(s[0].d, s[k].d, s[j].d);
          }
        }
        0
      else
        k
  }

  /** The first entry after sorting is the first entry of minimal distance. */
  lemma {:induction false} SortHeadIsFirstMinimum(s: seq<Ranked>)
    requires |s| > 0
    ensures SortByDistance(s)[0] == s[FirstMinimum(s)]
  {
    if |s| > 1 {
      SortHeadIsFirstMinimum(s[1..]);
    }
  }

  /** The section layout as the distance map sees it: a resolved ref gives its element's top edge. */
  function AnchorTops(resolved: set<SectionId>, rectTop: SectionId -> int): (layout: Layout)
    ensures forall id :: layout(id) == if id in resolved then Some(rectTop(id)) else None
  {
    id => if id in resolved then Some(rectTop(id)) else None
  }

  /**
   * The fallback candidate `distances[0].id` (`None` only if `distances[0]`
   * were missing, which cannot happen with five sections).
   */
  function FallbackCandidate(layout: Layout, headerHeight: int): (r: Option<SectionId>)
    ensures r.Some?
  {
    var sorted := SortByDistance(Distances(SECTIONS, layout, headerHeight));
    if |sorted| > 0 then Some(sorted[0].id) else None
  }

  /**
   * `w` is nearest: no section is closer to the reading position, and every
   * section listed before `w` is strictly farther.
   */
  ghost predicate IsNearest(layout: Layout, headerHeight: int, w: SectionId) {
    && (forall id :: AtMost(DistanceOf(layout(w), headerHeight), DistanceOf(layout(id), headerHeight)))
    && (forall id :: Index(id) < Index(w) ==> !AtMost(DistanceOf(layout(id), headerHeight), DistanceOf(layout(w), headerHeight)))
  }

  /** The candidate is exactly the nearest section, earliest in `SECTIONS` on ties. */
  lemma FallbackIsNearest(layout: Layout, headerHeight: int, w: SectionId)
    ensures FallbackCandidate(layout, headerHeight) == Some(w) <==> IsNearest(layout, headerHeight, w)
  {
    var ds := Distances(SECTIONS, layout, headerHeight);
    SortHeadIsFirstMinimum(ds);
    var k := FirstMinimum(ds);
    var top := SECTIONS[k];
    assert FallbackCandidate(layout, headerHeight) == Some(top);
    IndexOfPosition(k);
    assert IsNearest(layout, headerHeight, top) by {
      forall id
        ensures AtMost(DistanceOf(layout(top), headerHeight), DistanceOf(layout(id), headerHeight))
      {
        assert ds[Index(id)].d == DistanceOf(layout(id), headerHeight);
      }
      forall id | Index(id) < Index(top)
        ensures !AtMost(DistanceOf(layout(id), headerHeight), DistanceOf(layout(top), headerHeight))
      {
        assert ds[Index(id)].d == DistanceOf(layout(id), headerHeight);
      }
    }
    if IsNearest(layout, headerHeight, w) {
      var dw := DistanceOf(layout(w), headerHeight);
      var dt := DistanceOf(layout(top), headerHeight);
      assert AtMost(dw, dt) && AtMost(dt, dw);
      assert Index(w) == Index(top);
    }
  }

  /** The candidate's distance is minimal over all five sections. */
  lemma FallbackIsMinimal(layout: Layout, headerHeight: int, id: SectionId)
    ensures AtMost(DistanceOf(layout(FallbackCandidate(layout, headerHeight).value), headerHeight),
                   DistanceOf(layout(id), headerHeight))
  {
    FallbackIsNearest(layout, headerHeight, FallbackCandidate(layout, headerHeight).value);
  }

  /** On equal distances the section earlier in `SECTIONS` wins. */
  lemma FallbackTieGoesToEarlier(layout: Layout, headerHeight: int, a: SectionId, b: SectionId)
    requires Index(a) < Index(b)
    requires DistanceOf(layout(a), headerHeight) == DistanceOf(layout(b), headerHeight)
    ensures FallbackCandidate(layout, headerHeight) != Some(b)
  {
    FallbackIsNearest(layout, headerHeight, b);
  }

  /** An unresolved anchor is never the candidate while some anchor is resolved. */
  lemma FallbackIsResolved(layout: Layout, headerHeight: int, resolved: SectionId)
    requires layout(resolved).Some?
    ensures layout(FallbackCandidate(layout, headerHeight).value).Some?
  {
    FallbackIsMinimal(layout, headerHeight, resolved);
  }

  /** With no anchor resolved, every distance is infinite and `Home`, listed first, is the candidate. */
  lemma FallbackWithoutAnchors(layout: Layout, headerHeight: int)
    requires forall id :: layout(id).None?
    ensures FallbackCandidate(layout, headerHeight) == Some(Home)
  {
    FallbackIsNearest(layout, headerHeight, Home);
  }
}
