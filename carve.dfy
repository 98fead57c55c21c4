/** Carving a placed rectangle out of a page's free list: CheckRegionCrossing,
    DivideRegion and GenerateNewFreeRegions of RuntimeAtlas.cs. */
module Carve {
  import opened Geometry
  import opened AtlasPage

  /** The strict intersection test: the two rectangles share at least one pixel cell
      (when both have positive extent). */
  predicate CheckRegionCrossing(regionA: IntegerRect, regionB: IntegerRect)
  {
    regionA.x < regionB.Right() && regionA.y < regionB.Top() &&
    regionA.Right() > regionB.x && regionA.Top() > regionB.y
  }

  /** Two rectangles with a common pixel cell cross. */
  lemma SharedCellCrosses(a: IntegerRect, b: IntegerRect, px: int, py: int)
    requires Covers(a, px, py) && Covers(b, px, py)
    ensures CheckRegionCrossing(a, b) && CheckRegionCrossing(b, a)
  {
  }

  /** Conversely, two crossing rectangles of positive extent share a pixel cell: the
      one at the larger of their left edges and the larger of their bottom edges. */
  lemma CrossingSharesCell(a: IntegerRect, b: IntegerRect)
    requires 0 < a.width && 0 < a.height && 0 < b.width && 0 < b.height
    requires CheckRegionCrossing(a, b)
    ensures var px := if a.x < b.x then b.x else a.x;
            var py := if a.y < b.y then b.y else a.y;
            Covers(a, px, py) && Covers(b, px, py)
  {
  }

  /** For rectangles of positive extent the crossing test means exactly that they
      share a pixel cell. */
  lemma CrossingIffSharedCell(a: IntegerRect, b: IntegerRect)
    requires 0 < a.width && 0 < a.height && 0 < b.width && 0 < b.height
    ensures CheckRegionCrossing(a, b) <==> exists px, py :: Covers(a, px, py) && Covers(b, px, py)
  {
    if CheckRegionCrossing(a, b) {
      CrossingSharesCell(a, b);
    }
    if exists px, py :: Covers(a, px, py) && Covers(b, px, py) {
      var px, py :| Covers(a, px, py) && Covers(b, px, py);
      SharedCellCrosses(a, b, px, py);
    }
  }

  /** A rectangle lying within one that does not cross `c` does not cross `c` either. */
  lemma WithinNoCross(a: IntegerRect, b: IntegerRect, c: IntegerRect)
    requires Within(a, b) && !CheckRegionCrossing(c, b)
    ensures !CheckRegionCrossing(c, a) && !CheckRegionCrossing(a, c)
  {
  }

  /** The residuals of `area` around `divider`: the strips right of, left of, above and
      below the divider's edges, each kept only when its extent is strictly positive. */
  function DivideRegion(divider: IntegerRect, area: IntegerRect): (rs: seq<IntegerRect>)
    ensures |rs| <= 4
    ensures forall r :: r in rs ==> !CheckRegionCrossing(divider, r)
    ensures forall r :: r in rs ==>
              (r.width > 0 && r.height == area.height) || (r.height > 0 && r.width == area.width)
    ensures CheckRegionCrossing(divider, area) ==> forall r :: r in rs ==> Within(r, area)
  {
    var rightDelta := area.Right() - divider.Right();
    var right := if rightDelta > 0 then [IntegerRect(divider.Right(), area.y, rightDelta, area.height)] else [];
    var leftDelta := divider.x - area.x;
    var left := if leftDelta > 0 then [IntegerRect(area.x, area.y, leftDelta, area.height)] else [];
    var topDelta := area.Top() - divider.Top();
    var top := if topDelta > 0 then [IntegerRect(area.x, divider.Top(), area.width, topDelta)] else [];
    var bottomDelta := divider.y - area.y;
    var bottom := if bottomDelta > 0 then [IntegerRect(area.x, area.y, area.width, bottomDelta)] else [];
    right + left + top + bottom
  }

  /** Dividing loses no free space: every cell of `area` outside `divider` lies in a residual. */
  lemma DivideRegionCovers(divider: IntegerRect, area: IntegerRect, px: int, py: int)
    requires Covers(area, px, py) && !Covers(divider, px, py)
    ensures FreeAt(DivideRegion(divider, area), px, py)
  {
    var rs := DivideRegion(divider, area);
    if px >= divider.Right() {
      assert Covers(IntegerRect(divider.Right(), area.y, area.Right() - divider.Right(), area.height), px, py);
      assert rs[0] == IntegerRect(divider.Right(), area.y, area.Right() - divider.Right(), area.height);
    } else if px < divider.x {
      var r := IntegerRect(area.x, area.y, divider.x - area.x, area.height);
      assert Covers(r, px, py);
      assert r in rs;
    } else if py >= divider.Top() {
      var r := IntegerRect(area.x, divider.Top(), area.width, area.Top() - divider.Top());
      assert Covers(r, px, py);
      assert r in rs;
    } else {
      var r := IntegerRect(area.x, area.y, area.width, divider.y - area.y);
      assert Covers(r, px, py);
      assert r in rs;
    }
  }

  /** The residuals GenerateNewFreeRegions collects, in the order it collects them:
      the list is scanned from the last index down. */
  function Residuals(target: IntegerRect, s: seq<IntegerRect>): seq<IntegerRect>
    decreases |s|
  {
    if s == [] then []
    else Residuals(target, s[1..]) + (if CheckRegionCrossing(target, s[0]) then DivideRegion(target, s[0]) else [])
  }

  /** What the downward scan does to the list for the indices below `i`: a region that
      crosses the target is swap-removed. */
  function RemovePass(target: IntegerRect, s: seq<IntegerRect>, i: int): seq<IntegerRect>
    requires 0 <= i <= |s|
    decreases i
  {
    if i == 0 then s
    else RemovePass(target, if CheckRegionCrossing(target, s[i - 1]) then SwapRemove(s, i - 1) else s, i - 1)
  }

  /** The free list after GenerateNewFreeRegions: the regions not crossing the target,
      in their swapped order, followed by the residuals. */
  function NewFreeRegions(target: IntegerRect, s: seq<IntegerRect>): seq<IntegerRect>
  {
    RemovePass(target, s, |s|) + Residuals(target, s)
  }

  /** The removal pass drops every copy of each crossing region from the examined part
      and keeps every copy of each other region. */
  lemma {:induction false} RemovePassCount(target: IntegerRect, s: seq<IntegerRect>, i: int)
    requires 0 <= i <= |s|
    ensures forall r :: multiset(RemovePass(target, s, i))[r] ==
                        if CheckRegionCrossing(target, r) then multiset(s[i..])[r] else multiset(s)[r]
    decreases i
  {
    if i == 0 {
      assert s[0..] == s;
    } else {
      var k := i - 1;
      assert s[k..] == [s[k]] + s[i..];
      if CheckRegionCrossing(target, s[k]) {
        var t := SwapRemove(s, k);
        assert RemovePass(target, s, i) == RemovePass(target, t, k);
        RemovePassCount(target, t, k);
        SwapRemoveSuffixCount(s, k);
        forall r
          ensures multiset(RemovePass(target, s, i))[r] ==
                  if CheckRegionCrossing(target, r) then multiset(s[i..])[r] else multiset(s)[r]
        {
          if !CheckRegionCrossing(target, r) {
            assert r != s[k];
            assert multiset(t)[r] == multiset(s)[r];
          }
        }
      } else {
        assert RemovePass(target, s, i) == RemovePass(target, s, k);
        RemovePassCount(target, s, k);
        forall r
          ensures multiset(RemovePass(target, s, i))[r] ==
                  if CheckRegionCrossing(target, r) then multiset(s[i..])[r] else multiset(s)[r]
        {
          if CheckRegionCrossing(target, r) {
            assert r != s[k];
            assert multiset(s[k..]) == multiset{s[k]} + multiset(s[i..]);
          }
        }
      }
    }
  }

  /** After swap-removing index `k`, the part from `k` on holds what followed `k` before. */
  lemma SwapRemoveSuffixCount(s: seq<IntegerRect>, k: int)
    requires 0 <= k < |s|
    ensures multiset(SwapRemove(s, k)[k..]) == multiset(s[k + 1..])
  {
    var t := SwapRemove(s, k);
    var n := |s| - 1;
    if k < n {
      assert t[k..] == [s[n]] + s[k + 1..n];
      assert s[k + 1..] == s[k + 1..n] + [s[n]];
    } else {
      assert t[k..] == [] && s[k + 1..] == [];
    }
  }

  /** Every residual avoids the target and lies within a region of the list that crossed it. */
  lemma {:induction false} ResidualsPlaced(target: IntegerRect, s: seq<IntegerRect>)
    ensures forall r :: r in Residuals(target, s) ==>
              !CheckRegionCrossing(target, r) &&
              exists k :: 0 <= k < |s| && CheckRegionCrossing(target, s[k]) && Within(r, s[k])
    decreases |s|
  {
    if s != [] {
      ResidualsPlaced(target, s[1..]);
      forall r | r in Residuals(target, s)
        ensures !CheckRegionCrossing(target, r)
        ensures exists k :: 0 <= k < |s| && CheckRegionCrossing(target, s[k]) && Within(r, s[k])
      {
        if r in Residuals(target, s[1..]) {
          var k :| 0 <= k < |s[1..]| && CheckRegionCrossing(target, s[1..][k]) && Within(r, s[1..][k]);
          assert s[1..][k] == s[k + 1];
        } else {
          assert r in DivideRegion(target, s[0]);
        }
      }
    }
  }

  /** Every cell of a crossing region outside the target survives in some residual. */
  lemma {:induction false} ResidualsCover(target: IntegerRect, s: seq<IntegerRect>, k: int, px: int, py: int)
    requires 0 <= k < |s| && CheckRegionCrossing(target, s[k])
    requires Covers(s[k], px, py) && !Covers(target, px, py)
    ensures FreeAt(Residuals(target, s), px, py)
    decreases |s|
  {
    if k == 0 {
      DivideRegionCovers(target, s[0], px, py);
      var r :| r in DivideRegion(target, s[0]) && Covers(r, px, py);
      assert r in Residuals(target, s);
    } else {
      assert s[1..][k - 1] == s[k];
      ResidualsCover(target, s[1..], k - 1, px, py);
      var r :| r in Residuals(target, s[1..]) && Covers(r, px, py);
      assert r in Residuals(target, s);
    }
  }

  /** After GenerateNewFreeRegions: no region crosses the target (so every region that
      crossed it is gone), every region that did not cross it is still present, and
      every region lies within one of the old ones. */
  lemma NewFreeRegionsProperties(target: IntegerRect, s: seq<IntegerRect>)
    ensures forall r :: r in NewFreeRegions(target, s) ==> !CheckRegionCrossing(target, r)
    ensures forall r :: r in s && !CheckRegionCrossing(target, r) ==> r in NewFreeRegions(target, s)
    ensures CoveredBy(NewFreeRegions(target, s), s)
  {
    var kept := RemovePass(target, s, |s|);
    RemovePassCount(target, s, |s|);
    assert s[|s|..] == [];
    ResidualsPlaced(target, s);
    forall r | r in NewFreeRegions(target, s)
      ensures !CheckRegionCrossing(target, r)
      ensures exists u :: u in s && Within(r, u)
    {
      if r in kept {
        assert multiset(kept)[r] > 0;
        assert r in s;
      } else {
        var k :| 0 <= k < |s| && CheckRegionCrossing(target, s[k]) && Within(r, s[k]);
      }
    }
    forall r | r in s && !CheckRegionCrossing(target, r)
      ensures r in NewFreeRegions(target, s)
    {
      assert multiset(kept)[r] > 0;
    }
  }

  /** The regions after GenerateNewFreeRegions stay inside the page when the old ones were. */
  lemma NewFreeRegionsInside(target: IntegerRect, s: seq<IntegerRect>, pageWidth: int, pageHeight: int)
    requires forall k :: 0 <= k < |s| ==> InsidePage(s[k], pageWidth, pageHeight)
    ensures forall r :: r in NewFreeRegions(target, s) ==> InsidePage(r, pageWidth, pageHeight)
  {
    var kept := RemovePass(target, s, |s|);
    RemovePassCount(target, s, |s|);
    forall r | r in NewFreeRegions(target, s)
      ensures InsidePage(r, pageWidth, pageHeight)
    {
      if r in kept {
        assert multiset(kept)[r] > 0;
        assert r in s;
      } else {
        ResidualsFrom(target, s, r);
        var k :| 0 <= k < |s| && CheckRegionCrossing(target, s[k]) && r in DivideRegion(target, s[k]) &&
                 ((r.width > 0 && r.height == s[k].height) || (r.height > 0 && r.width == s[k].width));
        assert Within(r, s[k]);
      }
    }
  }

  /** A residual comes from dividing some crossing region of the list. */
  lemma {:induction false} ResidualsFrom(target: IntegerRect, s: seq<IntegerRect>, r: IntegerRect)
    requires r in Residuals(target, s)
    ensures exists k :: 0 <= k < |s| && CheckRegionCrossing(target, s[k]) && r in DivideRegion(target, s[k]) &&
                        ((r.width > 0 && r.height == s[k].height) || (r.height > 0 && r.width == s[k].width))
    decreases |s|
  {
    if r in Residuals(target, s[1..]) {
      ResidualsFrom(target, s[1..], r);
      var k :| 0 <= k < |s[1..]| && CheckRegionCrossing(target, s[1..][k]) && r in DivideRegion(target, s[1..][k]) &&
               ((r.width > 0 && r.height == s[1..][k].height) || (r.height > 0 && r.width == s[1..][k].width));
      assert s[1..][k] == s[k + 1];
    } else {
      assert r in DivideRegion(target, s[0]);
    }
  }

  /** Carving removes exactly the target's cells from the free space: a cell is free
      afterwards exactly when it was free before and the target does not cover it. */
  lemma NewFreeRegionsFreeAt(target: IntegerRect, s: seq<IntegerRect>, px: int, py: int)
    ensures FreeAt(NewFreeRegions(target, s), px, py) <==> FreeAt(s, px, py) && !Covers(target, px, py)
  {
    var n := NewFreeRegions(target, s);
    NewFreeRegionsProperties(target, s);
    if FreeAt(n, px, py) {
      var r :| r in n && Covers(r, px, py);
      CoveredFreeAt(n, s, px, py);
      if Covers(target, px, py) {
        SharedCellCrosses(target, r, px, py);
        assert false;
      }
    }
    if FreeAt(s, px, py) && !Covers(target, px, py) {
      var r :| r in s && Covers(r, px, py);
      if CheckRegionCrossing(target, r) {
        var k :| 0 <= k < |s| && s[k] == r;
        ResidualsCover(target, s, k, px, py);
        var u :| u in Residuals(target, s) && Covers(u, px, py);
        assert u in n;
      } else {
        assert r in n;
      }
    }
  }

  /** One step of GenerateNewFreeRegions's downward scan, at index `i`: the region
      there is still the original one, and the scan's state after the step is that of
      the specification functions one index further down. */
  lemma ScanStep(target: IntegerRect, orig: seq<IntegerRect>, before: seq<IntegerRect>, i: int)
    requires 0 <= i < |before| <= |orig| && before[..i + 1] == orig[..i + 1]
    ensures before[i] == orig[i]
    ensures Residuals(target, orig[i..]) ==
            Residuals(target, orig[i + 1..]) +
            (if CheckRegionCrossing(target, orig[i]) then DivideRegion(target, orig[i]) else [])
    ensures !CheckRegionCrossing(target, orig[i]) ==>
              RemovePass(target, before, i + 1) == RemovePass(target, before, i) && before[..i] == orig[..i]
    ensures CheckRegionCrossing(target, orig[i]) ==>
              RemovePass(target, before, i + 1) == RemovePass(target, SwapRemove(before, i), i) &&
              SwapRemove(before, i)[..i] == orig[..i]
  {
    assert before[..i + 1][i] == orig[..i + 1][i];
    assert orig[i..][1..] == orig[i + 1..];
    assert before[..i] == before[..i + 1][..i];
    assert orig[..i] == orig[..i + 1][..i];
  }

  lemma AppendStep(kept: seq<IntegerRect>, extra: seq<IntegerRect>, k: int)
    requires 0 <= k < |extra|
    ensures kept + extra[..k] + [extra[k]] == kept + extra[..k + 1]
  {
    assert extra[..k + 1] == extra[..k] + [extra[k]];
  }

  /** One step of the downward scan keeps the scan's invariant, whether or not the
      region at `i` was swap-removed and its residuals collected. */
  lemma ScanKeeps(target: IntegerRect, orig: seq<IntegerRect>, before: seq<IntegerRect>,
                  after: seq<IntegerRect>, collected: seq<IntegerRect>, grown: seq<IntegerRect>, i: int)
    requires 0 <= i < |before| <= |orig| && before[..i + 1] == orig[..i + 1]
    requires RemovePass(target, before, i + 1) == RemovePass(target, orig, |orig|)
    requires collected == Residuals(target, orig[i + 1..])
    requires after == if CheckRegionCrossing(target, before[i]) then SwapRemove(before, i) else before
    requires grown == if CheckRegionCrossing(target, before[i])
                      then collected + DivideRegion(target, before[i]) else collected
    ensures i <= |after| <= |orig| && after[..i] == orig[..i]
    ensures RemovePass(target, after, i) == RemovePass(target, orig, |orig|)
    ensures grown == Residuals(target, orig[i..])
  {
    ScanStep(target, orig, before, i);
  }

  /** Splits every free region that crosses `targetRegion` into its residuals: scanning
      from the last index down, a crossing region is swap-removed and its residuals
      collected; the collected residuals are then appended. */
  method GenerateNewFreeRegions(targetRegion: IntegerRect, page: RuntimeAtlasPage)
    modifies page
    ensures page.freeRegions == NewFreeRegions(targetRegion, old(page.freeRegions))
  {
    ghost var orig := page.freeRegions;
    var freeRegions := page.freeRegions;
    var newRegions: seq<IntegerRect> := [];
    for i := |freeRegions| downto 0
      invariant i <= |freeRegions| <= |orig|
      invariant freeRegions[..i] == orig[..i]
      invariant RemovePass(targetRegion, freeRegions, i) == RemovePass(targetRegion, orig, |orig|)
      invariant newRegions == Residuals(targetRegion, orig[i..])
    {
      ghost var before, collected := freeRegions, newRegions;
      if !CheckRegionCrossing(targetRegion, freeRegions[i]) {
        ScanKeeps(targetRegion, orig, before, freeRegions, collected, newRegions, i);
        continue;
      }
      newRegions := newRegions + DivideRegion(targetRegion, freeRegions[i]);
      var lastRegion := freeRegions[|freeRegions| - 1];
      freeRegions := freeRegions[..|freeRegions| - 1];
      SwapRemoveSteps(before, i);
      if i < |freeRegions| {
        freeRegions := freeRegions[i := lastRegion];
      }
      ScanKeeps(targetRegion, orig, before, freeRegions, collected, newRegions, i);
    }
    assert orig[0..] == orig;
    assert newRegions[..|newRegions|] == newRegions;
    ghost var kept := freeRegions;
    for k := 0 to |newRegions|
      invariant freeRegions == kept + newRegions[..k]
    {
      AppendStep(kept, newRegions, k);
      freeRegions := freeRegions + [newRegions[k]];
    }
    page.freeRegions := freeRegions;
  }
}
