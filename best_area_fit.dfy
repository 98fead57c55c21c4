/** The best-area-fit packing strategy (BestAreaFitPackStrategy.cs).  The strategy
    interface has this one implementation, so the atlas calls it directly. */
module PackStrategy {
  import opened Geometry
  import opened AtlasPage

  datatype Option<T> = None | Some(value: T)

  /** `region` is at least as wide and as tall as `target`. */
  predicate Fits(region: IntegerRect, target: IntegerRect)
  {
    region.height >= target.height && region.width >= target.width
  }

  /** Some region of the list fits `target`. */
  ghost predicate HasFit(regions: seq<IntegerRect>, target: IntegerRect)
  {
    exists k :: 0 <= k < |regions| && Fits(regions[k], target)
  }

  /** The rectangle the scan starts from, one larger than the page either way; its
      area is the bound every chosen region must stay strictly below. */
  function Sentinel(pageWidth: int, pageHeight: int): IntegerRect
  {
    IntegerRect(pageWidth + 1, pageHeight + 1, pageWidth + 1, pageHeight + 1)
  }

  /** The index held as best after the scan has looked at the first `n` regions:
      a fitting region replaces the current best only when its area is strictly smaller. */
  function BestIndex(regions: seq<IntegerRect>, target: IntegerRect, start: IntegerRect, n: int): (r: Option<int>)
    requires 0 <= n <= |regions|
    ensures r.Some? ==> 0 <= r.value < n
    decreases n
  {
    if n == 0 then None
    else
      var prev := BestIndex(regions, target, start, n - 1);
      var best := if prev.Some? then regions[prev.value] else start;
      if Fits(regions[n - 1], target) && regions[n - 1].Area() < best.Area() then Some(n - 1) else prev
  }

  /** The scan finds a region exactly when some region fits with area below the start's. */
  lemma {:induction false} BestIndexFound(regions: seq<IntegerRect>, target: IntegerRect, start: IntegerRect, n: int)
    requires 0 <= n <= |regions|
    ensures BestIndex(regions, target, start, n).Some? <==>
            exists k :: 0 <= k < n && Fits(regions[k], target) && regions[k].Area() < start.Area()
    decreases n
  {
    if n > 0 {
      BestIndexFound(regions, target, start, n - 1);
      BestIndexChoice(regions, target, start, n - 1);
    }
  }

  /** The region the scan picks fits, is below the start's area, has the least area of
      all fitting regions seen, and every fitting region before it is strictly larger. */
  lemma {:induction false} BestIndexChoice(regions: seq<IntegerRect>, target: IntegerRect, start: IntegerRect, n: int)
    requires 0 <= n <= |regions|
    ensures var b := BestIndex(regions, target, start, n);
            b.Some? ==>
              Fits(regions[b.value], target) && regions[b.value].Area() < start.Area() &&
              (forall k :: 0 <= k < n && Fits(regions[k], target) ==> regions[b.value].Area() <= regions[k].Area()) &&
              (forall k :: 0 <= k < b.value && Fits(regions[k], target) ==> regions[b.value].Area() < regions[k].Area())
    decreases n
  {
    if n > 0 {
      BestIndexChoice(regions, target, start, n - 1);
      BestIndexFound(regions, target, start, n - 1);
    }
  }

  /** The sentinel's area exceeds the page's. */
  lemma SentinelAreaAbovePage(pageWidth: int, pageHeight: int)
    requires 0 <= pageWidth && 0 <= pageHeight
    ensures pageWidth * pageHeight < Sentinel(pageWidth, pageHeight).Area()
  {
    var a := pageHeight + 1;
    calc {
      Sentinel(pageWidth, pageHeight).Area();
      a * (pageWidth + 1);
      a * pageWidth + a;
      pageHeight * pageWidth + pageWidth + a;
    }
  }

  /** When every region lies inside the page, the sentinel never excludes a fitting
      region: the scan succeeds exactly when some region fits. */
  lemma SentinelNeverBinds(regions: seq<IntegerRect>, target: IntegerRect, pageWidth: int, pageHeight: int)
    requires 0 <= pageWidth && 0 <= pageHeight
    requires forall k :: 0 <= k < |regions| ==> InsidePage(regions[k], pageWidth, pageHeight)
    ensures BestIndex(regions, target, Sentinel(pageWidth, pageHeight), |regions|).Some? <==> HasFit(regions, target)
  {
    var start := Sentinel(pageWidth, pageHeight);
    BestIndexFound(regions, target, start, |regions|);
    if HasFit(regions, target) {
      var k :| 0 <= k < |regions| && Fits(regions[k], target);
      InsidePageArea(regions[k], pageWidth, pageHeight);
      SentinelAreaAbovePage(pageWidth, pageHeight);
    }
  }

  /** Picks, among the page's free regions that are large enough for `target`, the one
      of smallest area; ties go to the lowest index.  Reads the page and changes nothing. */
  method GetFreeRegion(target: IntegerRect, page: RuntimeAtlasPage) returns (found: bool, freeRegion: Option<IntegerRect>)
    ensures var b := BestIndex(page.freeRegions, target, Sentinel(page.width, page.height), |page.freeRegions|);
            freeRegion == if b.Some? then Some(page.freeRegions[b.value]) else None
    ensures found <==> freeRegion.Some?
    ensures found <==> exists k :: 0 <= k < |page.freeRegions| && Fits(page.freeRegions[k], target) &&
                                   page.freeRegions[k].Area() < Sentinel(page.width, page.height).Area()
    ensures found ==> freeRegion.value in page.freeRegions && Fits(freeRegion.value, target)
  {
    var start := Sentinel(page.width, page.height);
    var best := start;
    var rFlag := false;
    for i := 0 to |page.freeRegions|
      invariant var b := BestIndex(page.freeRegions, target, start, i);
                rFlag == b.Some? && best == if b.Some? then page.freeRegions[b.value] else start
    {
      var region := page.freeRegions[i];
      if region.height >= target.height && region.width >= target.width {
        if region.height * region.width < best.height * best.width {
          best := region;
          rFlag := true;
        }
      }
    }
    freeRegion := if rFlag then Some(best) else None;
    found := rFlag;
    BestIndexFound(page.freeRegions, target, start, |page.freeRegions|);
    BestIndexChoice(page.freeRegions, target, start, |page.freeRegions|);
  }
}
