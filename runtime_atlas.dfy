/** The atlas: its pages, the name → allocation-record dictionary with reference
    counts, and growth by whole pages (class RuntimeAtlas in RuntimeAtlas.cs). */
module Atlas {
  import opened Geometry
  import opened AtlasPage
  import opened PackStrategy
  import opened Carve

  /** The texture an insertion or a lookup hands back: none (a failed lookup), the
      item's own texture (a refused insertion) or the texture of a page. */
  datatype TexRef = NoTexture | ItemTexture | PageTexture(pageIndex: int)

  /** The rectangle an allocation took out of its page's free list: the stored
      rectangle grown by the padding on the right and on the top. */
  function Footprint(rec: AtlasRegion, padding: int): IntegerRect
  {
    IntegerRect(rec.region.x, rec.region.y, rec.region.width + padding, rec.region.height + padding)
  }

  /** The free lists of the pages, page by page. */
  ghost function FreeLists(ps: seq<RuntimeAtlasPage>): (r: seq<seq<IntegerRect>>)
    reads ps
    ensures |r| == |ps| && forall i :: 0 <= i < |ps| ==> r[i] == ps[i].freeRegions
  {
    seq(|ps|, i requires 0 <= i < |ps| reads ps => ps[i].freeRegions)
  }

  lemma FreeListsEqual(ps: seq<RuntimeAtlasPage>, free: seq<seq<IntegerRect>>)
    requires |ps| == |free| && forall i :: 0 <= i < |ps| ==> ps[i].freeRegions == free[i]
    ensures FreeLists(ps) == free
  {
  }

  /** Page `i`.  Distinctness of pages is stated through this name so that it is used
      only where a proof mentions it. */
  ghost function PageAt(ps: seq<RuntimeAtlasPage>, i: int): RuntimeAtlasPage
    requires 0 <= i < |ps|
  {
    ps[i]
  }

  /** The pages are distinct objects of the given size. */
  ghost predicate PagesOk(ps: seq<RuntimeAtlasPage>, pageWidth: int, pageHeight: int)
  {
    (forall i, j :: 0 <= i < j < |ps| ==> PageAt(ps, i) != PageAt(ps, j)) &&
    (forall i :: 0 <= i < |ps| ==> ps[i].width == pageWidth && ps[i].height == pageHeight)
  }

  /** Appending a page object not yet in the list, of the same size, keeps the pages distinct. */
  lemma AppendPageOk(ps: seq<RuntimeAtlasPage>, page: RuntimeAtlasPage, pageWidth: int, pageHeight: int)
    requires PagesOk(ps, pageWidth, pageHeight) && page !in ps
    requires page.width == pageWidth && page.height == pageHeight
    ensures PagesOk(ps + [page], pageWidth, pageHeight)
  {
    var ps' := ps + [page];
    forall i, j | 0 <= i < j < |ps'|
      ensures PageAt(ps', i) != PageAt(ps', j)
    {
      if j < |ps| {
        assert PageAt(ps, i) != PageAt(ps, j);
      } else {
        assert ps'[i] in ps;
      }
    }
  }

  /** Every free region lies inside its page. */
  ghost predicate FreeInside(free: seq<seq<IntegerRect>>, pageWidth: int, pageHeight: int)
  {
    forall p, k :: 0 <= p < |free| && 0 <= k < |free[p]| ==> InsidePage(free[p][k], pageWidth, pageHeight)
  }

  /** Every record names an existing page, holds at least one reference and lies inside its page. */
  ghost predicate RecordsOk(records: map<string, AtlasRegion>, pageCount: int, pageWidth: int, pageHeight: int)
  {
    forall name :: name in records ==>
      0 <= records[name].pageIndex < pageCount && records[name].refCount >= 1 &&
      InsidePage(records[name].region, pageWidth, pageHeight)
  }

  /** No free region of a page crosses the footprint of a live allocation on that page. */
  ghost predicate FreeAvoidsRecords(free: seq<seq<IntegerRect>>, records: map<string, AtlasRegion>, padding: int)
  {
    forall name, k :: name in records && 0 <= records[name].pageIndex < |free| &&
                      0 <= k < |free[records[name].pageIndex]| ==>
      !CheckRegionCrossing(Footprint(records[name], padding), free[records[name].pageIndex][k])
  }

  /** The footprints of two live allocations on the same page do not cross. */
  ghost predicate RecordsDisjoint(records: map<string, AtlasRegion>, padding: int)
  {
    forall n, m :: n in records && m in records && n != m && records[n].pageIndex == records[m].pageIndex ==>
      !CheckRegionCrossing(Footprint(records[n], padding), Footprint(records[m], padding))
  }

  /** The atlas invariant, over the pages' free lists and the records. */
  ghost predicate AtlasInv(pageWidth: int, pageHeight: int, padding: int,
                           free: seq<seq<IntegerRect>>, records: map<string, AtlasRegion>)
  {
    0 < pageWidth && 0 < pageHeight && 0 <= padding &&
    FreeInside(free, pageWidth, pageHeight) &&
    RecordsOk(records, |free|, pageWidth, pageHeight) &&
    FreeAvoidsRecords(free, records, padding) &&
    RecordsDisjoint(records, padding)
  }

  /** The lowest page index from `p` on on which the strategy finds a region. */
  function FirstFitPage(free: seq<seq<IntegerRect>>, target: IntegerRect, pageWidth: int, pageHeight: int, p: int): (r: Option<int>)
    requires 0 <= p <= |free|
    ensures r.Some? ==> p <= r.value < |free| &&
                        BestIndex(free[r.value], target, Sentinel(pageWidth, pageHeight), |free[r.value]|).Some?
    decreases |free| - p
  {
    if p == |free| then None
    else if BestIndex(free[p], target, Sentinel(pageWidth, pageHeight), |free[p]|).Some? then Some(p)
    else FirstFitPage(free, target, pageWidth, pageHeight, p + 1)
  }

  /** Where GetFreePageAndRegion places `target`: the strategy's region on the first page
      where it succeeds, or else the full region of a page appended at the end. */
  function Placement(free: seq<seq<IntegerRect>>, target: IntegerRect, pageWidth: int, pageHeight: int): (r: (int, IntegerRect))
    ensures 0 <= r.0 <= |free|
  {
    var f := FirstFitPage(free, target, pageWidth, pageHeight, 0);
    if f.Some? then
      (f.value, free[f.value][BestIndex(free[f.value], target, Sentinel(pageWidth, pageHeight), |free[f.value]|).value])
    else
      (|free|, IntegerRect(0, 0, pageWidth, pageHeight))
  }

  /** The strategy fails on every page the scan passes over. */
  lemma {:induction false} FirstFitPageLowest(free: seq<seq<IntegerRect>>, target: IntegerRect, pageWidth: int, pageHeight: int, p: int)
    requires 0 <= p <= |free|
    ensures var r := FirstFitPage(free, target, pageWidth, pageHeight, p);
            forall q :: p <= q < (if r.Some? then r.value else |free|) ==>
              BestIndex(free[q], target, Sentinel(pageWidth, pageHeight), |free[q]|).None?
    decreases |free| - p
  {
    if p < |free| && BestIndex(free[p], target, Sentinel(pageWidth, pageHeight), |free[p]|).None? {
      FirstFitPageLowest(free, target, pageWidth, pageHeight, p + 1);
    }
  }

  /** The placement is on the lowest page that has a fitting free region, in a fitting
      region of least area on that page; only when no page has one is a new page used,
      through its full-page region. */
  lemma PlacementChoice(free: seq<seq<IntegerRect>>, target: IntegerRect, pageWidth: int, pageHeight: int)
    requires 0 <= pageWidth && 0 <= pageHeight && FreeInside(free, pageWidth, pageHeight)
    ensures var (p, fr) := Placement(free, target, pageWidth, pageHeight);
            0 <= p <= |free| &&
            (forall q :: 0 <= q < p && q < |free| ==> !HasFit(free[q], target)) &&
            (p < |free| ==> fr in free[p] && Fits(fr, target) &&
                            forall r :: r in free[p] && Fits(r, target) ==> fr.Area() <= r.Area()) &&
            (p == |free| ==> fr == IntegerRect(0, 0, pageWidth, pageHeight))
  {
    var start := Sentinel(pageWidth, pageHeight);
    var f := FirstFitPage(free, target, pageWidth, pageHeight, 0);
    FirstFitPageLowest(free, target, pageWidth, pageHeight, 0);
    var p := if f.Some? then f.value else |free|;
    forall q | 0 <= q < p
      ensures !HasFit(free[q], target)
    {
      SentinelNeverBinds(free[q], target, pageWidth, pageHeight);
    }
    if f.Some? {
      var b := BestIndex(free[p], target, start, |free[p]|);
      BestIndexChoice(free[p], target, start, |free[p]|);
      forall r | r in free[p] && Fits(r, target)
        ensures free[p][b.value].Area() <= r.Area()
      {
        var k :| 0 <= k < |free[p]| && free[p][k] == r;
      }
    }
  }

  /** Appending a fresh page keeps the invariant: no record lives on it. */
  lemma AppendPageKeepsInv(pageWidth: int, pageHeight: int, padding: int,
                           free: seq<seq<IntegerRect>>, records: map<string, AtlasRegion>)
    requires AtlasInv(pageWidth, pageHeight, padding, free, records)
    ensures AtlasInv(pageWidth, pageHeight, padding, free + [[IntegerRect(0, 0, pageWidth, pageHeight)]], records)
  {
    var free' := free + [[IntegerRect(0, 0, pageWidth, pageHeight)]];
    assert forall p :: 0 <= p < |free| ==> free'[p] == free[p];
  }

  /** A region that survives filtering was in the list before. */
  lemma FilteredFrom(s: seq<IntegerRect>, r: IntegerRect)
    requires r in Filtered(s)
    ensures r in s
  {
    FilteredProperties(s);
    assert r in multiset(Filtered(s));
  }

  /** Carving and filtering a page's free list keeps every free region inside its page. */
  lemma InsertFreeInside(pageWidth: int, pageHeight: int, free: seq<seq<IntegerRect>>, pi: int, placed: IntegerRect)
    requires FreeInside(free, pageWidth, pageHeight) && 0 <= pi < |free|
    ensures FreeInside(free[pi := Filtered(NewFreeRegions(placed, free[pi]))], pageWidth, pageHeight)
  {
    var carved := NewFreeRegions(placed, free[pi]);
    var free' := free[pi := Filtered(carved)];
    NewFreeRegionsInside(placed, free[pi], pageWidth, pageHeight);
    forall p, k | 0 <= p < |free'| && 0 <= k < |free'[p]|
      ensures InsidePage(free'[p][k], pageWidth, pageHeight)
    {
      if p == pi {
        FilteredFrom(carved, free'[p][k]);
      }
    }
  }

  /** After the insertion no free region crosses a footprint, old or new. */
  lemma InsertFreeAvoids(free: seq<seq<IntegerRect>>, records: map<string, AtlasRegion>, padding: int,
                         name: string, rec: AtlasRegion, placed: IntegerRect)
    requires FreeAvoidsRecords(free, records, padding)
    requires 0 <= rec.pageIndex < |free| && Footprint(rec, padding) == placed
    ensures FreeAvoidsRecords(free[rec.pageIndex := Filtered(NewFreeRegions(placed, free[rec.pageIndex]))],
                              records[name := rec], padding)
  {
    var pi := rec.pageIndex;
    var list := free[pi];
    var carved := NewFreeRegions(placed, list);
    var free' := free[pi := Filtered(carved)];
    var records' := records[name := rec];
    NewFreeRegionsProperties(placed, list);
    forall n, k | n in records' && 0 <= records'[n].pageIndex < |free'| && 0 <= k < |free'[records'[n].pageIndex]|
      ensures !CheckRegionCrossing(Footprint(records'[n], padding), free'[records'[n].pageIndex][k])
    {
      var q := records'[n].pageIndex;
      if q == pi {
        var r := free'[q][k];
        FilteredFrom(carved, r);
        if n == name {
          assert !CheckRegionCrossing(placed, r);
        } else {
          assert records'[n] == records[n];
          var s :| s in list && Within(r, s);
          var j :| 0 <= j < |list| && list[j] == s;
          assert !CheckRegionCrossing(Footprint(records[n], padding), list[j]);
          WithinNoCross(r, s, Footprint(records[n], padding));
        }
      } else {
        assert n != name && records'[n] == records[n] && free'[q] == free[q];
        assert !CheckRegionCrossing(Footprint(records[n], padding), free[q][k]);
      }
    }
  }

  /** The new footprint crosses no old footprint on its page: it lies within a free
      region, which crosses none. */
  lemma InsertDisjoint(free: seq<seq<IntegerRect>>, records: map<string, AtlasRegion>, padding: int,
                       name: string, rec: AtlasRegion, fr: IntegerRect)
    requires FreeAvoidsRecords(free, records, padding) && RecordsDisjoint(records, padding)
    requires name !in records && 0 <= rec.pageIndex < |free| && fr in free[rec.pageIndex]
    requires Within(Footprint(rec, padding), fr) || forall n :: n in records ==> records[n].pageIndex != rec.pageIndex
    ensures RecordsDisjoint(records[name := rec], padding)
  {
    var records' := records[name := rec];
    var list := free[rec.pageIndex];
    forall n, m | n in records' && m in records' && n != m && records'[n].pageIndex == records'[m].pageIndex
      ensures !CheckRegionCrossing(Footprint(records'[n], padding), Footprint(records'[m], padding))
    {
      if n == name || m == name {
        var o := if n == name then m else n;
        assert o in records && records[o].pageIndex == rec.pageIndex;
        var j :| 0 <= j < |list| && list[j] == fr;
        WithinNoCross(Footprint(rec, padding), fr, Footprint(records[o], padding));
      }
    }
  }

  /** A fresh insertion keeps the invariant: the free list of the chosen page is carved
      around the padded rectangle and filtered, and the new record is added. */
  lemma InsertKeepsInv(pageWidth: int, pageHeight: int, padding: int,
                       free: seq<seq<IntegerRect>>, records: map<string, AtlasRegion>,
                       name: string, w: nat, h: nat, pi: int, fr: IntegerRect)
    requires AtlasInv(pageWidth, pageHeight, padding, free, records)
    requires name !in records && 0 <= pi < |free| && fr in free[pi]
    requires InsidePage(IntegerRect(fr.x, fr.y, w, h), pageWidth, pageHeight)
    requires Fits(fr, IntegerRect(0, 0, w + padding, h + padding)) ||
             forall n :: n in records ==> records[n].pageIndex != pi
    ensures var placed := IntegerRect(fr.x, fr.y, w + padding, h + padding);
            AtlasInv(pageWidth, pageHeight, padding,
                     free[pi := Filtered(NewFreeRegions(placed, free[pi]))],
                     records[name := AtlasRegion(pi, 1, IntegerRect(fr.x, fr.y, w, h))])
  {
    var placed := IntegerRect(fr.x, fr.y, w + padding, h + padding);
    var rec := AtlasRegion(pi, 1, IntegerRect(fr.x, fr.y, w, h));
    assert Footprint(rec, padding) == placed;
    InsertFreeInside(pageWidth, pageHeight, free, pi, placed);
    InsertFreeAvoids(free, records, padding, name, rec, placed);
    InsertDisjoint(free, records, padding, name, rec, fr);
  }

  /** The free lists once the page a placement names exists: a placement past the last
      page appends a page whose free list is the full page. */
  function Grown(free: seq<seq<IntegerRect>>, pageIndex: int, pageWidth: int, pageHeight: int): (g: seq<seq<IntegerRect>>)
    ensures |free| <= |g| <= |free| + 1 && g[..|free|] == free
    ensures 0 <= pageIndex <= |free| ==> pageIndex < |g|
  {
    if pageIndex < |free| then free else free + [[IntegerRect(0, 0, pageWidth, pageHeight)]]
  }

  /** The outcome of inserting a new item: the page and free region chosen, the free
      lists afterwards and the record stored. */
  datatype Insertion = Insertion(pageIndex: int, free: seq<seq<IntegerRect>>, record: AtlasRegion)

  /** The effect of placing a w × h item, padded, at free region `fr` of page `pi`
      (a new page when `pi` is the page count): carve the padded rectangle at the
      region's origin out of that page's free list, filter the list, and record the
      unpadded rectangle with one reference. */
  function PlaceAt(free: seq<seq<IntegerRect>>, pi: int, fr: IntegerRect, w: int, h: int, padding: int,
                   pageWidth: int, pageHeight: int): (ins: Insertion)
    requires 0 <= pi <= |free|
    ensures ins.pageIndex == pi
    ensures |ins.free| == |Grown(free, pi, pageWidth, pageHeight)|
    ensures ins.record.pageIndex == pi && ins.record.refCount == 1
    ensures forall p :: 0 <= p < |free| && p != pi ==> ins.free[p] == free[p]
  {
    var grown := Grown(free, pi, pageWidth, pageHeight);
    var placed := IntegerRect(fr.x, fr.y, w + padding, h + padding);
    Insertion(pi, grown[pi := Filtered(NewFreeRegions(placed, grown[pi]))],
              AtlasRegion(pi, 1, IntegerRect(fr.x, fr.y, w, h)))
  }

  /** InsertTexture's effect for a name not yet recorded: the padded size is placed as
      Placement decides and applied there. */
  function Insert(free: seq<seq<IntegerRect>>, w: int, h: int, padding: int, pageWidth: int, pageHeight: int): (ins: Insertion)
    ensures 0 <= ins.pageIndex <= |free| && |ins.free| == |Grown(free, ins.pageIndex, pageWidth, pageHeight)|
    ensures ins.record.pageIndex == ins.pageIndex && ins.record.refCount == 1
    ensures forall p :: 0 <= p < |free| && p != ins.pageIndex ==> ins.free[p] == free[p]
  {
    var pl := Placement(free, IntegerRect(0, 0, w + padding, h + padding), pageWidth, pageHeight);
    PlaceAt(free, pl.0, pl.1, w, h, padding, pageWidth, pageHeight)
  }

  /** Insert spelled out for a given placement: the grown free lists with the chosen
      page's list carved and filtered, and the unpadded record. */
  lemma InsertAt(free: seq<seq<IntegerRect>>, w: int, h: int, padding: int, pageWidth: int, pageHeight: int,
                 pi: int, fr: IntegerRect, grown: seq<seq<IntegerRect>>, placed: IntegerRect)
    requires (pi, fr) == Placement(free, IntegerRect(0, 0, w + padding, h + padding), pageWidth, pageHeight)
    requires grown == Grown(free, pi, pageWidth, pageHeight)
    requires placed == IntegerRect(fr.x, fr.y, w + padding, h + padding)
    ensures var ins := Insert(free, w, h, padding, pageWidth, pageHeight);
            ins.pageIndex == pi && 0 <= pi < |grown| &&
            ins.free == grown[pi := Filtered(NewFreeRegions(placed, grown[pi]))] &&
            ins.record == AtlasRegion(pi, 1, IntegerRect(fr.x, fr.y, w, h))
  {
    var pl := Placement(free, IntegerRect(0, 0, w + padding, h + padding), pageWidth, pageHeight);
    assert pl.0 == pi && pl.1 == fr;
  }

  /** Inserting an item no larger than a page under a new name keeps the invariant. */
  lemma InsertionKeepsInv(pageWidth: int, pageHeight: int, padding: int,
                          free: seq<seq<IntegerRect>>, records: map<string, AtlasRegion>,
                          name: string, w: nat, h: nat)
    requires AtlasInv(pageWidth, pageHeight, padding, free, records)
    requires name !in records && w <= pageWidth && h <= pageHeight
    ensures var ins := Insert(free, w, h, padding, pageWidth, pageHeight);
            AtlasInv(pageWidth, pageHeight, padding, ins.free, records[name := ins.record])
  {
    var target := IntegerRect(0, 0, w + padding, h + padding);
    var (pi, fr) := Placement(free, target, pageWidth, pageHeight);
    PlacementChoice(free, target, pageWidth, pageHeight);
    var grown := Grown(free, pi, pageWidth, pageHeight);
    if pi < |free| {
      var k :| 0 <= k < |free[pi]| && free[pi][k] == fr;
      assert InsidePage(fr, pageWidth, pageHeight);
      InsertKeepsInv(pageWidth, pageHeight, padding, grown, records, name, w, h, pi, fr);
    } else {
      AppendPageKeepsInv(pageWidth, pageHeight, padding, free, records);
      assert grown[pi] == [fr];
      InsertKeepsInv(pageWidth, pageHeight, padding, grown, records, name, w, h, pi, fr);
    }
  }

  /** A region inside the page that does not cross a rectangle placed at the page's
      origin and more than half the page wide and tall cannot hold that rectangle. */
  lemma NoRoomBeside(pageWidth: int, pageHeight: int, placed: IntegerRect, r: IntegerRect)
    requires placed.x == 0 && placed.y == 0
    requires 0 < pageWidth < 2 * placed.width && 0 < pageHeight < 2 * placed.height
    requires InsidePage(r, pageWidth, pageHeight) && !CheckRegionCrossing(placed, r)
    ensures !Fits(r, placed)
  {
  }

  /** Growth by pages: starting from one empty page, an item whose padded size is more
      than half the page in both directions takes the first page at its origin, and a
      second such item finds no room left there and grows a second page. */
  lemma {:induction false} LargeItemsGrowPages(pageWidth: int, pageHeight: int, padding: int, w: nat, h: nat)
    requires 0 <= padding && w + padding <= pageWidth && h + padding <= pageHeight
    requires pageWidth < 2 * (w + padding) && pageHeight < 2 * (h + padding)
    ensures var first := Insert([[IntegerRect(0, 0, pageWidth, pageHeight)]], w, h, padding, pageWidth, pageHeight);
            var second := Insert(first.free, w, h, padding, pageWidth, pageHeight);
            first.pageIndex == 0 && first.record.region == IntegerRect(0, 0, w, h) &&
            second.pageIndex == 1 && second.record.region == IntegerRect(0, 0, w, h) &&
            |second.free| == 2
  {
    var full := IntegerRect(0, 0, pageWidth, pageHeight);
    var target := IntegerRect(0, 0, w + padding, h + padding);
    SentinelAreaAbovePage(pageWidth, pageHeight);
    assert BestIndex([full], target, Sentinel(pageWidth, pageHeight), 0) == None;
    assert BestIndex([full], target, Sentinel(pageWidth, pageHeight), 1) == Some(0);
    assert FirstFitPage([[full]], target, pageWidth, pageHeight, 0) == Some(0);
    assert Placement([[full]], target, pageWidth, pageHeight) == (0, full);
    InsertAt([[full]], w, h, padding, pageWidth, pageHeight, 0, full, [[full]], target);
    var carved := Filtered(NewFreeRegions(target, [full]));
    assert Insert([[full]], w, h, padding, pageWidth, pageHeight).free == [carved];
    NewFreeRegionsProperties(target, [full]);
    NewFreeRegionsInside(target, [full], pageWidth, pageHeight);
    forall k | 0 <= k < |carved|
      ensures !Fits(carved[k], target)
    {
      FilteredFrom(NewFreeRegions(target, [full]), carved[k]);
      NoRoomBeside(pageWidth, pageHeight, target, carved[k]);
    }
    BestIndexFound(carved, target, Sentinel(pageWidth, pageHeight), |carved|);
    assert FirstFitPage([carved], target, pageWidth, pageHeight, 1) == None;
    assert FirstFitPage([carved], target, pageWidth, pageHeight, 0) == None;
    assert Placement([carved], target, pageWidth, pageHeight) == (1, full);
    InsertAt([carved], w, h, padding, pageWidth, pageHeight, 1, full, [carved, [full]], target);
  }

  /** The instance with 100 × 100 pages and no padding: two 80 × 80 items need two pages. */
  lemma TwoLargeItemsGrowAPage()
    ensures var first := Insert([[IntegerRect(0, 0, 100, 100)]], 80, 80, 0, 100, 100);
            var second := Insert(first.free, 80, 80, 0, 100, 100);
            first.pageIndex == 0 && second.pageIndex == 1
  {
    LargeItemsGrowPages(100, 100, 0, 80, 80);
  }

  /** A lookup hit keeps the invariant: only a reference count grows. */
  lemma LookupKeepsInv(pageWidth: int, pageHeight: int, padding: int,
                       free: seq<seq<IntegerRect>>, records: map<string, AtlasRegion>, name: string)
    requires AtlasInv(pageWidth, pageHeight, padding, free, records) && name in records
    ensures AtlasInv(pageWidth, pageHeight, padding, free,
                     records[name := records[name].(refCount := records[name].refCount + 1)])
  {
  }

  /** A release keeps the invariant: either the count drops and stays at least one, or
      the record goes and its stored rectangle rejoins the page's free list. */
  lemma ReleaseKeepsInv(pageWidth: int, pageHeight: int, padding: int,
                        free: seq<seq<IntegerRect>>, records: map<string, AtlasRegion>, name: string)
    requires AtlasInv(pageWidth, pageHeight, padding, free, records) && name in records
    ensures var rec := records[name];
            rec.refCount - 1 <= 0 ==>
              AtlasInv(pageWidth, pageHeight, padding,
                       free[rec.pageIndex := free[rec.pageIndex] + [rec.region]], records - {name})
    ensures var rec := records[name];
            rec.refCount - 1 > 0 ==>
              AtlasInv(pageWidth, pageHeight, padding, free, records[name := rec.(refCount := rec.refCount - 1)])
  {
    var rec := records[name];
    var pi := rec.pageIndex;
    if rec.refCount - 1 <= 0 {
      var free' := free[pi := free[pi] + [rec.region]];
      var records' := records - {name};
      assert Within(rec.region, Footprint(rec, padding));
      forall n, k | n in records' && 0 <= records'[n].pageIndex < |free'| && 0 <= k < |free'[records'[n].pageIndex]|
        ensures !CheckRegionCrossing(Footprint(records'[n], padding), free'[records'[n].pageIndex][k])
      {
        var q := records'[n].pageIndex;
        if q == pi && k == |free[pi]| {
          WithinNoCross(rec.region, Footprint(rec, padding), Footprint(records[n], padding));
        }
      }
    }
  }

  /** Live allocations never overlap, and no free region crosses one: the stored
      rectangles of two records on the same page do not cross, nor does a free region
      of that page cross a stored rectangle. */
  lemma LiveAllocationsDisjoint(pageWidth: int, pageHeight: int, padding: int,
                                free: seq<seq<IntegerRect>>, records: map<string, AtlasRegion>, n: string, m: string)
    requires AtlasInv(pageWidth, pageHeight, padding, free, records)
    requires n in records && m in records
    ensures n != m && records[n].pageIndex == records[m].pageIndex ==>
              !CheckRegionCrossing(records[n].region, records[m].region)
    ensures forall r :: r in free[records[n].pageIndex] ==> !CheckRegionCrossing(records[n].region, r)
  {
    var a, b := records[n], records[m];
    assert Within(a.region, Footprint(a, padding)) && Within(b.region, Footprint(b, padding));
    if n != m && a.pageIndex == b.pageIndex {
      WithinNoCross(a.region, Footprint(a, padding), Footprint(b, padding));
      WithinNoCross(b.region, Footprint(b, padding), a.region);
    }
    forall r | r in free[a.pageIndex]
      ensures !CheckRegionCrossing(a.region, r)
    {
      var k :| 0 <= k < |free[a.pageIndex]| && free[a.pageIndex][k] == r;
      WithinNoCross(a.region, Footprint(a, padding), r);
    }
  }

  /** An insertion removes exactly the padded rectangle's cells from its page's free
      space: a cell is free after carving and filtering exactly when it was free before
      and the padded rectangle does not cover it. */
  lemma InsertFreeSpace(placed: IntegerRect, list: seq<IntegerRect>, px: int, py: int)
    ensures FreeAt(Filtered(NewFreeRegions(placed, list)), px, py) <==>
            FreeAt(list, px, py) && !Covers(placed, px, py)
  {
    FilteredFreeAt(NewFreeRegions(placed, list), px, py);
    NewFreeRegionsFreeAt(placed, list, px, py);
  }

  /** The runtime atlas.  The packing strategy is fixed to best-area-fit; the page
      textures and all pixel work are not modelled. */
  class RuntimeAtlas {
    const width: int
    const height: int
    const padding: int
    var packRegions: map<string, AtlasRegion>
    var pages: seq<RuntimeAtlasPage>

    ghost predicate Valid()
      reads this, pages
    {
      PagesOk(pages, width, height) && AtlasInv(width, height, padding, FreeLists(pages), packRegions)
    }

    /** The atlas is valid once its free lists and records are known to satisfy the invariant. */
    lemma ValidFrom(free: seq<seq<IntegerRect>>, records: map<string, AtlasRegion>)
      requires PagesOk(pages, width, height) && FreeLists(pages) == free && packRegions == records
      requires AtlasInv(width, height, padding, free, records)
      ensures Valid()
    {
    }

    /** The atlas is valid after a fresh insertion has been applied to a valid state. */
    lemma ValidAfterInsert(before: seq<seq<IntegerRect>>, records: map<string, AtlasRegion>, name: string, w: nat, h: nat)
      requires AtlasInv(width, height, padding, before, records)
      requires name !in records && w <= width && h <= height
      requires PagesOk(pages, width, height)
      requires FreeLists(pages) == Insert(before, w, h, padding, width, height).free
      requires packRegions == records[name := Insert(before, w, h, padding, width, height).record]
      ensures Valid()
    {
      InsertionKeepsInv(width, height, padding, before, records, name, w, h);
    }

    /** An atlas starts with one empty page and no records. */
    constructor (width: int, height: int, padding: int)
      requires 0 < width && 0 < height && 0 <= padding
      ensures Valid()
      ensures this.width == width && this.height == height && this.padding == padding
      ensures packRegions == map[] && |pages| == 1 && fresh(pages[0])
      ensures FreeLists(pages) == [[IntegerRect(0, 0, width, height)]]
    {
      this.width := width;
      this.height := height;
      this.padding := padding;
      packRegions := map[];
      var page := new RuntimeAtlasPage(width, height);
      pages := [page];
    }

    /** Looks a name up; on a hit the record's reference count grows by one. */
    method GetTexture(name: string) returns (found: bool, tex: TexRef, region: IntegerRect)
      requires Valid()
      modifies this
      ensures Valid() && pages == old(pages) && FreeLists(pages) == old(FreeLists(pages))
      ensures found <==> name in old(packRegions)
      ensures found ==> var rec := old(packRegions)[name];
                        tex == PageTexture(rec.pageIndex) && region == rec.region &&
                        packRegions == old(packRegions)[name := rec.(refCount := rec.refCount + 1)]
      ensures !found ==> tex == NoTexture && region == ZeroRect && packRegions == old(packRegions)
    {
      tex, region := NoTexture, ZeroRect;
      if name in packRegions {
        var rec := packRegions[name];
        region := rec.region;
        tex := PageTexture(rec.pageIndex);
        ghost var free := FreeLists(pages);
        LookupKeepsInv(width, height, padding, free, packRegions, name);
        packRegions := packRegions[name := rec.(refCount := rec.refCount + 1)];
        ValidFrom(free, packRegions);
        found := true;
      } else {
        found := false;
      }
    }

    /** Asks the strategy page by page, lowest index first; when no page has room, one
        page is appended and its single full-page region is used. */
    method GetFreePageAndRegion(targetWithPadding: IntegerRect) returns (pageIndex: int, freeRegion: IntegerRect)
      requires PagesOk(pages, width, height) && FreeInside(FreeLists(pages), width, height) && 0 < width && 0 < height
      modifies this
      ensures PagesOk(pages, width, height) && packRegions == old(packRegions)
      ensures (pageIndex, freeRegion) == Placement(old(FreeLists(pages)), targetWithPadding, width, height)
      ensures FreeLists(pages) == Grown(old(FreeLists(pages)), pageIndex, width, height)
      ensures pages[..old(|pages|)] == old(pages) && (pageIndex == old(|pages|) ==> fresh(pages[pageIndex]))
    {
      ghost var free := FreeLists(pages);
      var freePageIndex := -1;
      var region: Option<IntegerRect> := None;
      for i := 0 to |pages|
        invariant unchanged(this) && freePageIndex == -1
        invariant FirstFitPage(free, targetWithPadding, width, height, 0) ==
                  FirstFitPage(free, targetWithPadding, width, height, i)
      {
        var found;
        found, region := GetFreeRegion(targetWithPadding, pages[i]);
        if found {
          freePageIndex := i;
          assert FirstFitPage(free, targetWithPadding, width, height, 0) == Some(i);
          break;
        }
      }
      if freePageIndex == -1 {
        var page := new RuntimeAtlasPage(width, height);
        AppendPageOk(pages, page, width, height);
        pages := pages + [page];
        assert FreeLists(pages) == free + [[IntegerRect(0, 0, width, height)]];
        freePageIndex := |pages| - 1;
        region := Some(pages[freePageIndex].freeRegions[0]);
      } else {
        PlacementChoice(free, targetWithPadding, width, height);
      }
      pageIndex := freePageIndex;
      freeRegion := region.value;
    }

    /** Inserts an item of the given size under `name`.  An item wider or taller than a
        page (padding not counted) is refused; a recorded name is a lookup; otherwise the
        padded size is placed, carved out of its page's free list, and recorded unpadded
        at the chosen region's origin with one reference. */
    method InsertTexture(name: string, texWidth: nat, texHeight: nat) returns (tex: TexRef, region: IntegerRect, succeed: bool)
      requires Valid()
      modifies this, pages
      ensures Valid()
      ensures texWidth > width || texHeight > height ==>
                tex == ItemTexture && region == ZeroRect && !succeed &&
                pages == old(pages) && packRegions == old(packRegions) && FreeLists(pages) == old(FreeLists(pages))
      ensures texWidth <= width && texHeight <= height && name in old(packRegions) ==>
                var rec := old(packRegions)[name];
                succeed && tex == PageTexture(rec.pageIndex) && region == rec.region &&
                packRegions == old(packRegions)[name := rec.(refCount := rec.refCount + 1)] &&
                pages == old(pages) && FreeLists(pages) == old(FreeLists(pages))
      ensures texWidth <= width && texHeight <= height && name !in old(packRegions) ==>
                var ins := Insert(old(FreeLists(pages)), texWidth, texHeight, padding, width, height);
                succeed && tex == PageTexture(ins.pageIndex) && region == ins.record.region &&
                packRegions == old(packRegions)[name := ins.record] &&
                FreeLists(pages) == ins.free && pages[..old(|pages|)] == old(pages)
    {
      if texWidth > width || texHeight > height {
        tex, region, succeed := ItemTexture, ZeroRect, false;
        return;
      }
      var hit, hitTex, hitRegion := GetTexture(name);
      if hit {
        tex, region, succeed := hitTex, hitRegion, true;
        return;
      }
      ghost var before, records := FreeLists(pages), packRegions;
      var pageIndex;
      pageIndex, region := PlaceTexture(name, texWidth, texHeight);
      ValidAfterInsert(before, records, name, texWidth, texHeight);
      tex, succeed := PageTexture(pageIndex), true;
    }

    /** Carves `target` out of page `pageIndex`'s free list and filters that list; no
        other page's free list changes. */
    method CarvePage(pageIndex: int, target: IntegerRect)
      requires PagesOk(pages, width, height) && 0 <= pageIndex < |pages|
      modifies pages[pageIndex]
      ensures FreeLists(pages) ==
              old(FreeLists(pages))[pageIndex := Filtered(NewFreeRegions(target, old(FreeLists(pages))[pageIndex]))]
    {
      ghost var before := FreeLists(pages);
      ghost var carved := before[pageIndex := Filtered(NewFreeRegions(target, before[pageIndex]))];
      var page := pages[pageIndex];
      GenerateNewFreeRegions(target, page);
      page.FilterSubAreas();
      forall q | 0 <= q < |pages|
        ensures pages[q].freeRegions == carved[q]
      {
        if q != pageIndex {
          assert PageAt(pages, q) != PageAt(pages, pageIndex);
        }
      }
      FreeListsEqual(pages, carved);
    }

    /** The rest of InsertTexture for a name not yet recorded: find a page and region
        for the padded size, carve the padded rectangle at the region's origin out of
        that page's free list, filter it, and record the item. */
    method PlaceTexture(name: string, texWidth: nat, texHeight: nat) returns (pageIndex: int, region: IntegerRect)
      requires PagesOk(pages, width, height) && FreeInside(FreeLists(pages), width, height)
      requires 0 < width && 0 < height
      modifies this, pages
      ensures PagesOk(pages, width, height)
      ensures var ins := Insert(old(FreeLists(pages)), texWidth, texHeight, padding, width, height);
              pageIndex == ins.pageIndex && region == ins.record.region &&
              packRegions == old(packRegions)[name := ins.record] &&
              FreeLists(pages) == ins.free && pages[..old(|pages|)] == old(pages)
    {
      ghost var before := FreeLists(pages);
      var targetWithPadding := IntegerRect(0, 0, texWidth + padding, texHeight + padding);
      var freeRegion;
      pageIndex, freeRegion := GetFreePageAndRegion(targetWithPadding);
      assert (pageIndex, freeRegion) ==
             Placement(before, IntegerRect(0, 0, texWidth + padding, texHeight + padding), width, height);
      ghost var grown := FreeLists(pages);
      targetWithPadding := targetWithPadding.(x := freeRegion.x, y := freeRegion.y);
      InsertAt(before, texWidth, texHeight, padding, width, height, pageIndex, freeRegion, grown, targetWithPadding);
      CarvePage(pageIndex, targetWithPadding);
      var resRegion := AtlasRegion(pageIndex, 1, IntegerRect(freeRegion.x, freeRegion.y, texWidth, texHeight));
      packRegions := packRegions[name := resRegion];
      region := resRegion.region;
    }

    /** Drops one reference to `name`; when none is left the stored (unpadded) rectangle
        is handed back to its page's free list, unfiltered, and the record removed.
        An unknown name changes nothing. */
    method ReleaseTexture(name: string)
      requires Valid()
      modifies this, pages
      ensures Valid() && pages == old(pages)
      ensures name !in old(packRegions) ==>
                packRegions == old(packRegions) && FreeLists(pages) == old(FreeLists(pages))
      ensures name in old(packRegions) ==>
                var rec := old(packRegions)[name];
                if rec.refCount - 1 <= 0 then
                  packRegions == old(packRegions) - {name} &&
                  FreeLists(pages) == old(FreeLists(pages))[rec.pageIndex := old(FreeLists(pages))[rec.pageIndex] + [rec.region]]
                else
                  packRegions == old(packRegions)[name := rec.(refCount := rec.refCount - 1)] &&
                  FreeLists(pages) == old(FreeLists(pages))
    {
      if name in packRegions {
        ghost var free := FreeLists(pages);
        ghost var records := packRegions;
        ReleaseKeepsInv(width, height, padding, free, records, name);
        var region := packRegions[name];
        region := region.(refCount := region.refCount - 1);
        packRegions := packRegions[name := region];
        if region.refCount <= 0 {
          ghost var free' := free[region.pageIndex := free[region.pageIndex] + [region.region]];
          ghost var records' := records - {name};
          assert AtlasInv(width, height, padding, free', records');
          pages[region.pageIndex].RemoveRegion(region);
          packRegions := packRegions - {name};
          assert packRegions == records';
          forall q | 0 <= q < |pages| && q != region.pageIndex
            ensures pages[q].freeRegions == free'[q]
          {
            assert PageAt(pages, q) != PageAt(pages, region.pageIndex);
          }
          FreeListsEqual(pages, free');
        } else {
          assert packRegions == records[name := records[name].(refCount := records[name].refCount - 1)];
          assert FreeLists(pages) == free;
        }
      }
    }
  }
}
