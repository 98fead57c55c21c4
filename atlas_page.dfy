/** One atlas page and its free-region bookkeeping (RuntimeAtlasPage in RuntimeAtlas.cs). */
module AtlasPage {
  import opened Geometry

  /** FilterSubAreas's containment test: `a` lies within `b`, edge by edge. */
  predicate Within(a: IntegerRect, b: IntegerRect)
  {
    b.x <= a.x && a.Right() <= b.Right() && b.y <= a.y && a.Top() <= b.Top()
  }

  lemma WithinTransitive(a: IntegerRect, b: IntegerRect, c: IntegerRect)
    requires Within(a, b) && Within(b, c)
    ensures Within(a, c)
  {
  }

  /** A pixel cell of a rectangle is a pixel cell of every rectangle it lies within. */
  lemma WithinCovers(a: IntegerRect, b: IntegerRect, px: int, py: int)
    requires Within(a, b) && Covers(a, px, py)
    ensures Covers(b, px, py)
  {
  }

  /** Every region of `a` lies within some region of `b`. */
  ghost predicate CoveredBy(a: seq<IntegerRect>, b: seq<IntegerRect>)
  {
    forall r :: r in a ==> exists s :: s in b && Within(r, s)
  }

  /** Some region of the list has pixel cell (px, py): the list's free space. */
  ghost predicate FreeAt(regions: seq<IntegerRect>, px: int, py: int)
  {
    exists r :: r in regions && Covers(r, px, py)
  }

  /** A list covered by another has no free space the other lacks. */
  lemma CoveredFreeAt(a: seq<IntegerRect>, b: seq<IntegerRect>, px: int, py: int)
    requires CoveredBy(a, b) && FreeAt(a, px, py)
    ensures FreeAt(b, px, py)
  {
    var r :| r in a && Covers(r, px, py);
    var s :| s in b && Within(r, s);
    WithinCovers(r, s, px, py);
  }

  lemma CoveredTransitive(a: seq<IntegerRect>, b: seq<IntegerRect>, c: seq<IntegerRect>)
    requires CoveredBy(a, b) && CoveredBy(b, c)
    ensures CoveredBy(a, c)
  {
    forall r | r in a
      ensures exists u :: u in c && Within(r, u)
    {
      var s :| s in b && Within(r, s);
      var u :| u in c && Within(s, u);
      WithinTransitive(r, s, u);
    }
  }

  /** The regions from index `i` on lie within no region at another index. */
  ghost predicate MaximalFrom(s: seq<IntegerRect>, i: int)
  {
    forall k, m :: 0 <= k < |s| && i <= k && 0 <= m < |s| && k != m ==> !Within(s[k], s[m])
  }

  /** No region lies within a region at another index (so there are no duplicates either). */
  ghost predicate NoSubsumption(s: seq<IntegerRect>)
  {
    MaximalFrom(s, 0)
  }

  /** The list after the source's swap-remove of index `i`: the last region is moved
      into slot `i` and the list shrinks by one. */
  function SwapRemove(s: seq<IntegerRect>, i: int): (r: seq<IntegerRect>)
    requires 0 <= i < |s|
    ensures |r| == |s| - 1
    ensures forall k :: 0 <= k < |r| ==> r[k] == if k == i then s[|s| - 1] else s[k]
    ensures multiset(r) == multiset(s) - multiset{s[i]}
    ensures r[..i] == s[..i]
  {
    var n := |s| - 1;
    if i < n then
      var r := s[..i] + [s[n]] + s[i + 1..n];
      assert r[..i] == s[..i];
      assert s == s[..i] + [s[i]] + s[i + 1..n] + [s[n]];
      assert multiset(s) == multiset(s[..i]) + multiset{s[i]} + multiset(s[i + 1..n]) + multiset{s[n]};
      r
    else
      assert s == s[..n] + [s[n]];
      s[..n]
  }

  /** The source's removal steps (take the last region, drop it, write it into slot
      `i` when that slot still exists) compute SwapRemove. */
  lemma SwapRemoveSteps(s: seq<IntegerRect>, i: int)
    requires 0 <= i < |s|
    ensures var t := s[..|s| - 1];
            (if i < |t| then t[i := s[|s| - 1]] else t) == SwapRemove(s, i)
  {
  }

  /** Region `k` lies within some region at another index. */
  predicate Subsumed(s: seq<IntegerRect>, k: int)
    requires 0 <= k < |s|
  {
    exists m :: 0 <= m < |s| && m != k && Within(s[k], s[m])
  }

  /** What FilterSubAreas's outer loop does to the list for the indices below `i`,
      taken from the top down: a subsumed region is swap-removed. */
  function FilterPass(s: seq<IntegerRect>, i: int): seq<IntegerRect>
    requires 0 <= i <= |s|
    decreases i
  {
    if i == 0 then s
    else if Subsumed(s, i - 1) then FilterPass(SwapRemove(s, i - 1), i - 1)
    else FilterPass(s, i - 1)
  }

  /** One step of FilterSubAreas's outer loop keeps its invariant. */
  lemma FilterKeeps(before: seq<IntegerRect>, after: seq<IntegerRect>, i: int)
    requires 0 <= i < |before|
    requires after == if Subsumed(before, i) then SwapRemove(before, i) else before
    ensures i <= |after| && FilterPass(after, i) == FilterPass(before, i + 1)
  {
  }

  /** The free list after FilterSubAreas. */
  function Filtered(s: seq<IntegerRect>): seq<IntegerRect>
  {
    FilterPass(s, |s|)
  }

  /** Filtering only removes regions. */
  lemma {:induction false} FilterPassSubset(s: seq<IntegerRect>, i: int)
    requires 0 <= i <= |s|
    ensures multiset(FilterPass(s, i)) <= multiset(s)
    decreases i
  {
    if i > 0 {
      if Subsumed(s, i - 1) {
        FilterPassSubset(SwapRemove(s, i - 1), i - 1);
      } else {
        FilterPassSubset(s, i - 1);
      }
    }
  }

  /** Swap-removing a subsumed region keeps every region covered. */
  lemma SwapRemoveSubsumedCovered(s: seq<IntegerRect>, i: int)
    requires 0 <= i < |s| && Subsumed(s, i)
    ensures CoveredBy(s, SwapRemove(s, i))
  {
    var t := SwapRemove(s, i);
    var m :| 0 <= m < |s| && m != i && Within(s[i], s[m]);
    forall r | r in s
      ensures exists u :: u in t && Within(r, u)
    {
      var k :| 0 <= k < |s| && s[k] == r;
      var k' := if k == i then m else k;
      assert s[k'] in t by {
        if k' == |s| - 1 {
          assert t[i] == s[k'];
        } else {
          assert t[k'] == s[k'];
        }
      }
      assert Within(r, s[k']);
    }
  }

  /** Every region removed by filtering lies within a surviving one, so the union of
      free space is unchanged. */
  lemma {:induction false} FilterPassCovered(s: seq<IntegerRect>, i: int)
    requires 0 <= i <= |s|
    ensures CoveredBy(s, FilterPass(s, i))
    decreases i
  {
    if i == 0 {
      assert forall r :: r in s ==> Within(r, r);
    } else if Subsumed(s, i - 1) {
      SwapRemoveSubsumedCovered(s, i - 1);
      FilterPassCovered(SwapRemove(s, i - 1), i - 1);
      CoveredTransitive(s, SwapRemove(s, i - 1), FilterPass(s, i));
    } else {
      FilterPassCovered(s, i - 1);
    }
  }

  /** Swap-removing index `i - 1` keeps the already-examined upper part maximal. */
  lemma SwapRemoveKeepsMaximal(s: seq<IntegerRect>, i: int)
    requires 0 < i <= |s| && MaximalFrom(s, i)
    ensures MaximalFrom(SwapRemove(s, i - 1), i - 1)
  {
    var t := SwapRemove(s, i - 1);
    var last := |s| - 1;
    forall k, m | i - 1 <= k < |t| && 0 <= m < |t| && k != m
      ensures !Within(t[k], t[m])
    {
      var k' := if k == i - 1 then last else k;
      var m' := if m == i - 1 then last else m;
      assert t[k] == s[k'] && t[m] == s[m'];
    }
  }

  /** After the filter pass no region lies within a region at another index. */
  lemma {:induction false} FilterPassMaximal(s: seq<IntegerRect>, i: int)
    requires 0 <= i <= |s| && MaximalFrom(s, i)
    ensures NoSubsumption(FilterPass(s, i))
    decreases i
  {
    if i > 0 {
      if Subsumed(s, i - 1) {
        SwapRemoveKeepsMaximal(s, i);
        FilterPassMaximal(SwapRemove(s, i - 1), i - 1);
      } else {
        FilterPassMaximal(s, i - 1);
      }
    }
  }

  /** What FilterSubAreas guarantees: a sub-multiset of the old list, no region within
      another at a different index, every old region within a survivor. */
  lemma FilteredProperties(s: seq<IntegerRect>)
    ensures multiset(Filtered(s)) <= multiset(s)
    ensures NoSubsumption(Filtered(s))
    ensures CoveredBy(s, Filtered(s))
  {
    FilterPassSubset(s, |s|);
    FilterPassMaximal(s, |s|);
    FilterPassCovered(s, |s|);
  }

  /** Identical duplicates collapse: the filtered list holds every value at most once. */
  lemma FilteredDistinct(s: seq<IntegerRect>)
    ensures forall i, j :: 0 <= i < j < |Filtered(s)| ==> Filtered(s)[i] != Filtered(s)[j]
  {
    var f := Filtered(s);
    FilteredProperties(s);
    forall i, j | 0 <= i < j < |f|
      ensures f[i] != f[j]
    {
      if f[i] == f[j] {
        assert Within(f[i], f[j]);
        assert false;
      }
    }
  }

  /** Filtering keeps the free space: a cell is free afterwards exactly when it was free before. */
  lemma FilteredFreeAt(s: seq<IntegerRect>, px: int, py: int)
    ensures FreeAt(Filtered(s), px, py) <==> FreeAt(s, px, py)
  {
    FilteredProperties(s);
    if FreeAt(s, px, py) {
      CoveredFreeAt(s, Filtered(s), px, py);
    }
    if FreeAt(Filtered(s), px, py) {
      var r :| r in Filtered(s) && Covers(r, px, py);
      assert r in multiset(Filtered(s));
      assert r in s;
    }
  }

  /** One fixed-size page of the atlas.  Only its free list is modelled; the page
      texture and the pixel work on it are not. */
  class RuntimeAtlasPage {
    const width: int
    const height: int
    var freeRegions: seq<IntegerRect>

    /** A new page starts with a single free region spanning the whole page. */
    constructor (width: int, height: int)
      ensures this.width == width && this.height == height
      ensures freeRegions == [IntegerRect(0, 0, width, height)]
    {
      this.width := width;
      this.height := height;
      freeRegions := [IntegerRect(0, 0, width, height)];
    }

    /** Gives a released allocation's stored rectangle back to the free list, unfiltered. */
    method RemoveRegion(region: AtlasRegion)
      modifies this
      ensures freeRegions == old(freeRegions) + [region.region]
    {
      freeRegions := freeRegions + [region.region];
    }

    /** Removes, scanning from the top down, every free region that lies within
        another one; the removal swaps the last region into the freed slot. */
    method FilterSubAreas()
      modifies this
      ensures freeRegions == Filtered(old(freeRegions))
    {
      ghost var goal := Filtered(freeRegions);
      for i := |freeRegions| downto 0
        invariant i <= |freeRegions|
        invariant FilterPass(freeRegions, i) == goal
      {
        ghost var before := freeRegions;
        ghost var removed := false;
        for j := |freeRegions| downto 0
          invariant freeRegions == before && !removed
          invariant forall m :: j <= m < |freeRegions| && m != i ==> !Within(freeRegions[i], freeRegions[m])
        {
          if i == j {
            continue;
          }
          if freeRegions[i].x < freeRegions[j].x || freeRegions[i].Right() > freeRegions[j].Right() ||
             freeRegions[i].y < freeRegions[j].y || freeRegions[i].Top() > freeRegions[j].Top()
          {
            continue;
          }
          assert Within(before[i], before[j]);
          SwapRemoveSteps(before, i);
          var lastRegion := freeRegions[|freeRegions| - 1];
          freeRegions := freeRegions[..|freeRegions| - 1];
          if i < |freeRegions| {
            freeRegions := freeRegions[i := lastRegion];
          }
          removed := true;
          FilterKeeps(before, freeRegions, i);
          break;
        }
        if !removed {
          assert !Subsumed(before, i);
          FilterKeeps(before, freeRegions, i);
        }
      }
    }
  }
}
