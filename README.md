# Runtime texture atlas: the allocation engine, in Dafny

This project models the allocation engine of the RuntimeAtlas Unity package and proves properties of it. The engine is a MaxRects-style free-rectangle packer that uses the best-area-fit heuristic. The atlas is made of fixed-size pages. Each page keeps a list of free rectangles. Inserting an item asks the strategy for a free region on the lowest page that has one; if no page has room, one new page is appended. The item's size, padded on the right and on the top, is then carved out of that page's free list: every free region it crosses is replaced by up to four strips around it. After that the list is filtered, so that no region lies within another. The atlas keeps a dictionary from item names to allocation records, each with a reference count. A lookup adds one reference. A release drops one, and when the count reaches zero it gives the item's unpadded rectangle back to the page's free list.

Modules, one per part of the program:

- `Geometry` (`geometry.dfy`): `IntegerRect`, with its `Top` and `Right` edges, and the allocation record `AtlasRegion`. Both are immutable datatypes. The datatype constructor stores its four arguments unchanged. A record carries only a page index, a reference count and a region; the item's name exists only as the dictionary key.
- `AtlasPage` (`atlas_page.dfy`): the class `RuntimeAtlasPage` with its `freeRegions` sequence: the initial full-page region, the free-list append of `RemoveRegion`, and `FilterSubAreas`. `FilterSubAreas` keeps the source's nested downward loops and its swap-remove. `Filtered` is the function that specifies it, and the lemmas state what filtering guarantees.
- `PackStrategy` (`best_area_fit.dfy`): `GetFreeRegion`, a loop proved against `BestIndex`, which specifies the scan index by index.
- `Carve` (`carve.dfy`): `CheckRegionCrossing` and `DivideRegion` as functions. `GenerateNewFreeRegions` is a method with the source's downward swap-remove loop and its append loop, proved against `NewFreeRegions`.
- `Atlas` (`runtime_atlas.dfy`): the class `RuntimeAtlas`, with a sequence of page objects and a map of records. The map is reassigned wherever the source updates a record in place. Beside the class are:
  - the specification functions `Placement` and `Insert`;
  - the atlas invariant `AtlasInv`: free regions lie inside their page, every record has at least one reference, no free region crosses a live allocation's padded footprint, and no two footprints on a page cross;
  - the lemmas showing that every operation preserves that invariant.

## Model

| member | source | states |
|---|---|---|
| Geometry.IntegerRect.Top | Assets/Scripts/RuntimeAtlas/IntegerRect.cs:20 | the top edge lies exactly `height` above `y`; with non-negative height, `y <= Top` |
| Geometry.IntegerRect.Right | Assets/Scripts/RuntimeAtlas/IntegerRect.cs:21 | the right edge lies exactly `width` right of `x`; with non-negative width, `x <= Right` |
| AtlasPage.SwapRemove | Assets/Scripts/RuntimeAtlas/RuntimeAtlas.cs:316-321 | removing index i moves the last region into slot i: one shorter, every other position unchanged, the multiset loses exactly the removed region |
| AtlasPage.SwapRemoveSteps | Assets/Scripts/RuntimeAtlas/RuntimeAtlas.cs:149-156 | take the last region, drop it, write it back into slot i when that slot still exists: this is the swap-remove |
| AtlasPage.FilterPassSubset | Assets/Scripts/RuntimeAtlas/RuntimeAtlas.cs:298-326 | the filter loop only removes regions: the result is a sub-multiset |
| AtlasPage.SwapRemoveSubsumedCovered | Assets/Scripts/RuntimeAtlas/RuntimeAtlas.cs:309-321 | removing a region that lies within another leaves every region within some survivor |
| AtlasPage.FilterPassCovered | Assets/Scripts/RuntimeAtlas/RuntimeAtlas.cs:298-326 | every region removed by filtering lies within a region that survives |
| AtlasPage.SwapRemoveKeepsMaximal | Assets/Scripts/RuntimeAtlas/RuntimeAtlas.cs:316-321 | a swap-remove below the examined part keeps that part free of contained regions |
| AtlasPage.FilterPassMaximal | Assets/Scripts/RuntimeAtlas/RuntimeAtlas.cs:298-326 | after the downward pass no region lies within a region at another index |
| AtlasPage.FilteredProperties | Assets/Scripts/RuntimeAtlas/RuntimeAtlas.cs:296-327 | the filtered list is a sub-multiset of the old one, has no region within another, and every old region lies within a survivor |
| AtlasPage.FilteredDistinct | Assets/Scripts/RuntimeAtlas/RuntimeAtlas.cs:296-327 | identical duplicates collapse: every value occurs at most once after filtering |
| AtlasPage.FilteredFreeAt | Assets/Scripts/RuntimeAtlas/RuntimeAtlas.cs:296-327 | a pixel cell is free after filtering if and only if it was free before |
| AtlasPage.RuntimeAtlasPage.constructor | Assets/Scripts/RuntimeAtlas/RuntimeAtlas.cs:251-255 | a new page has its size and one free region covering the whole page |
| AtlasPage.RuntimeAtlasPage.RemoveRegion | Assets/Scripts/RuntimeAtlas/RuntimeAtlas.cs:271-277 | the released rectangle is appended to the free list, which is otherwise unchanged and not filtered |
| AtlasPage.RuntimeAtlasPage.FilterSubAreas | Assets/Scripts/RuntimeAtlas/RuntimeAtlas.cs:296-327 | the nested loops leave exactly `Filtered` of the old list, whose properties are the lemmas above |
| PackStrategy.BestIndex | Assets/Scripts/RuntimeAtlas/PackagingStrategy/BestAreaFitPackStrategy.cs:14-26 | the index held as best after n regions, if any, is one of those n regions |
| PackStrategy.BestIndexFound | Assets/Scripts/RuntimeAtlas/PackagingStrategy/BestAreaFitPackStrategy.cs:14-37 | the scan finds a region if and only if some region is at least as wide and as tall as the target and has an area below the sentinel's |
| PackStrategy.BestIndexChoice | Assets/Scripts/RuntimeAtlas/PackagingStrategy/BestAreaFitPackStrategy.cs:14-26 | the chosen region fits, no fitting region has a smaller area, and every fitting region at a lower index has a strictly larger area, so ties go to the lowest index |
| PackStrategy.SentinelAreaAbovePage | Assets/Scripts/RuntimeAtlas/PackagingStrategy/BestAreaFitPackStrategy.cs:10 | the sentinel `(W+1)×(H+1)` has a larger area than the page |
| PackStrategy.SentinelNeverBinds | Assets/Scripts/RuntimeAtlas/PackagingStrategy/BestAreaFitPackStrategy.cs:10-26 | when every free region lies inside the page, the scan succeeds if and only if some region fits |
| PackStrategy.GetFreeRegion | Assets/Scripts/RuntimeAtlas/PackagingStrategy/BestAreaFitPackStrategy.cs:7-39 | the loop returns the scan's choice; it reports success exactly when a fitting region below the sentinel exists; on success the region is in the free list and fits; on failure it returns no region; the page is not modified |
| Carve.CheckRegionCrossing | Assets/Scripts/RuntimeAtlas/RuntimeAtlas.cs:212-216 | the strict test of lines 214-215, target as first operand; for positive extents it holds exactly when the two rectangles share a pixel cell (CrossingIffSharedCell) |
| Carve.SharedCellCrosses | Assets/Scripts/RuntimeAtlas/RuntimeAtlas.cs:212-216 | two rectangles that share a pixel cell cross, in either order |
| Carve.CrossingSharesCell | Assets/Scripts/RuntimeAtlas/RuntimeAtlas.cs:212-216 | with positive extents, two crossing rectangles share the pixel cell at (max of the x's, max of the y's): together with `SharedCellCrosses`, crossing is exactly sharing a cell |
| Carve.CrossingIffSharedCell | Assets/Scripts/RuntimeAtlas/RuntimeAtlas.cs:212-216 | for rectangles of positive extent, the crossing test holds if and only if they share a pixel cell |
| Carve.WithinNoCross | Assets/Scripts/RuntimeAtlas/RuntimeAtlas.cs:212-216 | a rectangle lying within one that does not cross c does not cross c either |
| Carve.DivideRegion | Assets/Scripts/RuntimeAtlas/RuntimeAtlas.cs:172-204 | at most four residuals; none crosses the divider; each has a positive extent in one direction and the area's full extent in the other; when the divider crosses the area, each lies within the area |
| Carve.DivideRegionCovers | Assets/Scripts/RuntimeAtlas/RuntimeAtlas.cs:172-204 | every cell of the area outside the divider lies in some residual |
| Carve.RemovePassCount | Assets/Scripts/RuntimeAtlas/RuntimeAtlas.cs:142-158 | the downward swap-remove scan drops every copy of each crossing region and keeps every copy of each other region |
| Carve.ResidualsPlaced | Assets/Scripts/RuntimeAtlas/RuntimeAtlas.cs:142-147 | every collected residual avoids the target and lies within a region that crossed it |
| Carve.ResidualsCover | Assets/Scripts/RuntimeAtlas/RuntimeAtlas.cs:142-147 | every cell of a crossing region outside the target survives in some residual |
| Carve.ResidualsFrom | Assets/Scripts/RuntimeAtlas/RuntimeAtlas.cs:142-147 | every residual comes from dividing some crossing region, with its shape |
| Carve.NewFreeRegionsProperties | Assets/Scripts/RuntimeAtlas/RuntimeAtlas.cs:139-164 | after carving, no region crosses the target, every region that did not cross it is still present, and every region lies within an old one |
| Carve.NewFreeRegionsInside | Assets/Scripts/RuntimeAtlas/RuntimeAtlas.cs:139-164 | carving keeps every free region inside the page |
| Carve.NewFreeRegionsFreeAt | Assets/Scripts/RuntimeAtlas/RuntimeAtlas.cs:139-164 | a cell is free after carving if and only if it was free before and the target does not cover it |
| Carve.GenerateNewFreeRegions | Assets/Scripts/RuntimeAtlas/RuntimeAtlas.cs:139-164 | the scan and append loops leave exactly `NewFreeRegions` of the old list: the survivors in their swapped order, then the residuals in collection order |
| Atlas.FirstFitPage | Assets/Scripts/RuntimeAtlas/RuntimeAtlas.cs:224-231 | a page index it returns is in range and the strategy succeeds on that page |
| Atlas.FirstFitPageLowest | Assets/Scripts/RuntimeAtlas/RuntimeAtlas.cs:224-231 | the strategy fails on every page the loop passes over |
| Atlas.Placement | Assets/Scripts/RuntimeAtlas/RuntimeAtlas.cs:219-241 | the chosen page index is at most the page count, so the page count grows by at most one |
| Atlas.PlacementChoice | Assets/Scripts/RuntimeAtlas/RuntimeAtlas.cs:219-241 | no lower page has a fitting region; on an existing page the region is in its list, fits, and has the least area among fitting ones; otherwise the new page's full region is used |
| Atlas.AppendPageOk | Assets/Scripts/RuntimeAtlas/RuntimeAtlas.cs:235 | appending a new page object of the atlas size keeps the pages distinct and of that size |
| Atlas.AppendPageKeepsInv | Assets/Scripts/RuntimeAtlas/RuntimeAtlas.cs:233-237 | appending a full-page free list keeps the atlas invariant |
| Atlas.FilteredFrom | Assets/Scripts/RuntimeAtlas/RuntimeAtlas.cs:296-327 | a region that survives filtering was in the list before |
| Atlas.InsertFreeInside | Assets/Scripts/RuntimeAtlas/RuntimeAtlas.cs:60-61 | carving and filtering keeps all free regions inside their page |
| Atlas.InsertFreeAvoids | Assets/Scripts/RuntimeAtlas/RuntimeAtlas.cs:53-69 | after an insertion no free region crosses any footprint, old or new |
| Atlas.InsertDisjoint | Assets/Scripts/RuntimeAtlas/RuntimeAtlas.cs:53-69 | the new footprint crosses no older footprint on its page |
| Atlas.InsertKeepsInv | Assets/Scripts/RuntimeAtlas/RuntimeAtlas.cs:53-81 | placing at a chosen free region, carving, filtering and recording keeps the atlas invariant |
| Atlas.Grown | Assets/Scripts/RuntimeAtlas/RuntimeAtlas.cs:233-237 | the free lists gain at most one page, the old ones are unchanged, and the chosen index names a page |
| Atlas.PlaceAt | Assets/Scripts/RuntimeAtlas/RuntimeAtlas.cs:57-69 | the record is on the chosen page with one reference, and no other page's free list changes |
| Atlas.Insert | Assets/Scripts/RuntimeAtlas/RuntimeAtlas.cs:53-69 | a fresh insertion grows the page count by at most one, records one reference on the chosen page, and leaves every other page's free list unchanged |
| Atlas.InsertAt | Assets/Scripts/RuntimeAtlas/RuntimeAtlas.cs:53-69 | for the placement decided, only the chosen page's list is carved and filtered, and the record is the unpadded size at the region's origin |
| Atlas.InsertionKeepsInv | Assets/Scripts/RuntimeAtlas/RuntimeAtlas.cs:39-83 | inserting an item no larger than a page under a new name keeps the atlas invariant |
| Atlas.NoRoomBeside | Assets/Scripts/RuntimeAtlas/PackagingStrategy/BestAreaFitPackStrategy.cs:18 | a region inside the page that does not cross a rectangle placed at the origin, more than half the page in both directions, cannot hold that rectangle |
| Atlas.LargeItemsGrowPages | Assets/Scripts/RuntimeAtlas/RuntimeAtlas.cs:219-241 | from one empty page, an item more than half the page either way goes to page 0 at the origin, and a second such item grows page 1 |
| Atlas.TwoLargeItemsGrowAPage | Assets/Scripts/RuntimeAtlas/RuntimeAtlas.cs:219-241 | on 100 × 100 pages two 80 × 80 items take pages 0 and 1 |
| Atlas.LookupKeepsInv | Assets/Scripts/RuntimeAtlas/RuntimeAtlas.cs:91-108 | adding a reference keeps the atlas invariant |
| Atlas.ReleaseKeepsInv | Assets/Scripts/RuntimeAtlas/RuntimeAtlas.cs:114-125 | a release keeps the invariant in both branches: the count drops and stays at least one, or the record goes and its rectangle is appended to its page's list |
| Atlas.LiveAllocationsDisjoint | Assets/Scripts/RuntimeAtlas/RuntimeAtlas.cs:39-83 | two live allocations on the same page never cross, and no free region of that page crosses one |
| Atlas.InsertFreeSpace | Assets/Scripts/RuntimeAtlas/RuntimeAtlas.cs:60-61 | a cell is free after carving and filtering if and only if it was free before and the padded rectangle does not cover it |
| Atlas.RuntimeAtlas.constructor | Assets/Scripts/RuntimeAtlas/RuntimeAtlas.cs:23-31 | a new atlas has one fresh full-page page, no records, and satisfies the invariant |
| Atlas.RuntimeAtlas.GetTexture | Assets/Scripts/RuntimeAtlas/RuntimeAtlas.cs:91-108 | a hit returns the page and stored region and adds exactly one reference; a miss returns no texture and a zero rectangle and changes nothing; no page changes |
| Atlas.RuntimeAtlas.GetFreePageAndRegion | Assets/Scripts/RuntimeAtlas/RuntimeAtlas.cs:219-241 | the loop returns `Placement`; the free lists become `Grown`, so at most one fresh page is appended and existing pages are kept |
| Atlas.RuntimeAtlas.InsertTexture | Assets/Scripts/RuntimeAtlas/RuntimeAtlas.cs:39-83 | oversize (padding not counted) is refused with nothing changed; a recorded name is a lookup that adds a reference and touches no page; otherwise the result, free lists and records are those of `Insert`; the invariant holds afterwards |
| Atlas.RuntimeAtlas.CarvePage | Assets/Scripts/RuntimeAtlas/RuntimeAtlas.cs:60-61 | only the chosen page's free list changes, and it becomes the filtered carve of the old one |
| Atlas.RuntimeAtlas.PlaceTexture | Assets/Scripts/RuntimeAtlas/RuntimeAtlas.cs:53-81 | a fresh insertion's page, region, records and free lists are exactly those of `Insert` |
| Atlas.RuntimeAtlas.ReleaseTexture | Assets/Scripts/RuntimeAtlas/RuntimeAtlas.cs:114-125 | an unknown name changes nothing; otherwise the count drops by one; at zero or below, the record is removed and its unpadded rectangle is appended, unfiltered, to its page's list; the invariant holds afterwards |

## Left out

- Pixel work is not modelled: `Texture2D` creation and clearing, `AddTexture`/`Graphics.CopyTexture`, and the pixel clearing in `RemoveRegion`. A returned texture is a `TexRef` naming the page, or the item itself for a refused insertion.
- The `Debug` logging and the try/catch rethrow around `AddTexture` are not modelled; `AddTexture` is treated as a step that cannot fail.
- Items are given by name, width and height rather than by a `Texture2D`.
- `Clear` and the parameterless constructor are not modelled. `Clear` empties the pages and records and drops the strategy: the next insertion appends a fresh page without consulting the strategy, and a later one that scans an existing page dereferences the missing strategy. The parameterless constructor leaves the page size at zero, so every insertion of positive size is refused by the size check.
- Atlas.RuntimeAtlas.constructor: non-positive page sizes and a negative padding are not modelled; the constructor requires positive sizes and a non-negative padding, which every call site in the package meets.
- The `IPackStrategy` interface is not modelled: best-area-fit is its only implementation, and the atlas calls it directly.
- `NImagePacker.cs` and `NImage.cs` are not part of this model. They are Unity integration glue with no packing logic.
- Unity's float `Rect` in `AtlasRegion` is modelled as an integer rectangle. It is built from integers and cast back exactly.
- PackStrategy.BestIndex: 32-bit `int` overflow of the area products `height * width` is not modelled; areas are unbounded integers. Overflow needs pages larger than about 46340 × 46340.
- Geometry.AtlasRegion: the 32-bit wrap of `RefCount++` after 2^31 − 1 references is not modelled; counts are unbounded integers. The invariant's "at least one reference" and the lookup and release contracts hold for the source only up to that many references.
- Atlas.RuntimeAtlas.GetFreePageAndRegion: the facts that the chosen region fits and has least area are stated on `Placement` by `Atlas.PlacementChoice` rather than repeated in the method's contract.
- Atlas.RuntimeAtlas.PlaceTexture and Atlas.RuntimeAtlas.CarvePage are helper methods that hold the tail of `InsertTexture` (the placement, carve and record steps). The source writes those steps inline.
- Carve.GenerateNewFreeRegions works on a local copy of the page's list and writes it back at the end. The source mutates the list in place, and nothing else can see it meanwhile.
- The duplicate-key exception of `_packRegions.Add` is not modelled. That branch is unreachable, because a recorded name is answered by the lookup first.
- `ReleaseTexture` never calls `FilterSubAreas` (RuntimeAtlas.cs:118-123) and gives back only the unpadded rectangle, so the model states neither area conservation nor that a release restores the free list an insertion found. With a positive padding, the padding strips of a released item stay allocated.
- The size check ignores padding, which also follows the code. An item as wide as the page with a positive padding is accepted, and its padded footprint extends past the page. The invariant bounds only the stored, unpadded rectangle by the page.
