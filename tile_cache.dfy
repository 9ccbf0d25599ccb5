/** The tile cache of the non-optimised GL image actor: the tiles it keeps
    on the graphics device, the rule that keeps that list free of
    duplicates, the clean-up that drops tiles the view no longer needs, the
    tile grid cut from the image, and the choice of resolution. Texture
    names are opaque numbers handed out by the actor, image regions are
    integer rectangles, and the viewport arithmetic that turns view
    settings into a requested region or a target resolution is a parameter. */
module TileCache {

  datatype Option<T> = None | Some(value: T)

  // ---------------------------------------------------------------------------
  // Regions
  // ---------------------------------------------------------------------------

  /** A two-dimensional image region: start index and size on each axis. */
  datatype Region = Region(x: int, y: int, w: nat, h: nat)

  /** `r` lies inside `outer` on both axes. */
  predicate Inside(r: Region, outer: Region)
  {
    outer.x <= r.x && r.x + r.w <= outer.x + outer.w &&
    outer.y <= r.y && r.y + r.h <= outer.y + outer.h
  }

  /** The test of ImageRegion::Crop: on each axis, neither region starts at
      or beyond the other's end. (An empty region strictly inside the other
      passes.) */
  predicate Overlaps(a: Region, b: Region)
  {
    a.x < b.x + b.w && b.x < a.x + a.w &&
    a.y < b.y + b.h && b.y < a.y + a.h
  }

  function Max(a: int, b: int): int { if a < b then b else a }
  function Min(a: int, b: int): int { if a < b then a else b }

  /** ImageRegion::Crop: fails when the regions do not overlap, otherwise
      shrinks `r` to its intersection with `bounds`. */
  function Crop(r: Region, bounds: Region): (c: Option<Region>)
    ensures c.None? <==> !Overlaps(r, bounds)
    ensures c.Some? ==> Inside(c.value, r) && Inside(c.value, bounds)
    ensures c.Some? && Inside(r, bounds) ==> c.value == r
  {
    if !Overlaps(r, bounds) then None
    else
      var x := Max(r.x, bounds.x);
      var y := Max(r.y, bounds.y);
      Some(Region(x, y, Min(r.x + r.w, bounds.x + bounds.w) - x,
                  Min(r.y + r.h, bounds.y + bounds.h) - y))
  }

  // ---------------------------------------------------------------------------
  // Tiles
  // ---------------------------------------------------------------------------

  datatype Point = Point(x: real, y: real)

  /** The channel selection, stretch bounds and shader switch of the actor;
      a tile keeps a copy of the values it was loaded with. */
  datatype Rendering = Rendering(
    redIdx: nat, greenIdx: nat, blueIdx: nat,
    useShader: bool,
    minRed: real, maxRed: real,
    minGreen: real, maxGreen: real,
    minBlue: real, maxBlue: real)

  /** The actor's internal Tile record. */
  datatype Tile = Tile(
    loaded: bool,
    textureId: nat,
    imageRegion: Region,
    ul: Point, ur: Point, ll: Point, lr: Point,
    resolution: nat,
    rendering: Rendering)

  /** A tile holds a texture exactly when it is loaded (texture name 0 is
      never handed out). */
  predicate HandleInvariant(t: Tile)
  {
    t.loaded <==> t.textureId != 0
  }

  /** The default Tile constructor. */
  function NewTile(): (t: Tile)
    ensures !t.loaded && t.textureId == 0 && t.resolution == 1
    ensures t.imageRegion == Region(0, 0, 0, 0)
    ensures t.rendering.redIdx == 1 && t.rendering.greenIdx == 2 && t.rendering.blueIdx == 3
    ensures !t.rendering.useShader
    ensures t.rendering.minRed == t.rendering.maxRed == t.rendering.minGreen == 0.0
    ensures t.rendering.maxGreen == t.rendering.minBlue == t.rendering.maxBlue == 0.0
    ensures t.ul == t.ur == t.ll == t.lr == Point(0.0, 0.0)
    ensures HandleInvariant(t)
  {
    var origin := Point(0.0, 0.0);
    Tile(false, 0, Region(0, 0, 0, 0), origin, origin, origin, origin, 1,
         Rendering(1, 2, 3, false, 0.0, 0.0, 0.0, 0.0, 0.0, 0.0))
  }

  /** Two tiles stand for the same data: same image region, same resolution. */
  predicate SameKey(a: Tile, b: Tile)
  {
    a.imageRegion == b.imageRegion && a.resolution == b.resolution
  }

  /** `tiles` already holds a tile with the key of `t`. */
  predicate HoldsKey(tiles: seq<Tile>, t: Tile)
  {
    exists i :: 0 <= i < |tiles| && SameKey(tiles[i], t)
  }

  /** Two held tiles never share a key nor a texture. */
  predicate Apart(a: Tile, b: Tile)
  {
    !SameKey(a, b) && a.textureId != b.textureId
  }

  predicate PairwiseApart(tiles: seq<Tile>)
  {
    forall i, j :: 0 <= i < j < |tiles| ==> Apart(tiles[i], tiles[j])
  }

  /** The textures of a list of tiles, in order. */
  function TextureIds(tiles: seq<Tile>): (ids: seq<nat>)
    ensures |ids| == |tiles|
    ensures forall i :: 0 <= i < |tiles| ==> ids[i] == tiles[i].textureId
  {
    if tiles == [] then [] else TextureIds(tiles[..|tiles| - 1]) + [tiles[|tiles| - 1].textureId]
  }

  /** A held tile is still wanted when it overlaps the requested region and
      belongs to the current resolution. */
  predicate StillNeeded(t: Tile, requested: Region, resolution: nat)
  {
    Crop(t.imageRegion, requested).Some? && t.resolution == resolution
  }

  /** The tiles CleanLoadedTiles keeps, in their order. */
  function Kept(tiles: seq<Tile>, requested: Region, resolution: nat): seq<Tile>
  {
    if tiles == [] then []
    else
      Kept(tiles[..|tiles| - 1], requested, resolution) +
      (if StillNeeded(tiles[|tiles| - 1], requested, resolution) then [tiles[|tiles| - 1]] else [])
  }

  /** The tiles CleanLoadedTiles unloads, in their order. */
  function Dropped(tiles: seq<Tile>, requested: Region, resolution: nat): seq<Tile>
  {
    if tiles == [] then []
    else
      Dropped(tiles[..|tiles| - 1], requested, resolution) +
      (if StillNeeded(tiles[|tiles| - 1], requested, resolution) then [] else [tiles[|tiles| - 1]])
  }

  /** Every kept tile is an input tile still needed, every input tile still
      needed is kept, and the kept tiles keep the input's pairwise
      separation. (Their order is the input's by the definition of Kept.) */
  lemma {:induction false} KeptFacts(tiles: seq<Tile>, requested: Region, resolution: nat)
    ensures var r := Kept(tiles, requested, resolution);
            && (forall k :: 0 <= k < |r| ==> r[k] in tiles && StillNeeded(r[k], requested, resolution))
            && (forall i :: 0 <= i < |tiles| && StillNeeded(tiles[i], requested, resolution) ==> tiles[i] in r)
            && (PairwiseApart(tiles) ==> PairwiseApart(r))
  {
    if tiles != [] {
      var front := tiles[..|tiles| - 1];
      var last := tiles[|tiles| - 1];
      assert tiles == front + [last];
      KeptFacts(front, requested, resolution);
      var r := Kept(front, requested, resolution);
      assert forall k :: 0 <= k < |r| ==> r[k] in tiles;
      if StillNeeded(last, requested, resolution) {
        if PairwiseApart(tiles) {
          forall k | 0 <= k < |r|
            ensures Apart(r[k], last)
          {
            var j :| 0 <= j < |front| && front[j] == r[k];
            assert Apart(tiles[j], tiles[|tiles| - 1]);
          }
        }
      }
    }
  }

  /** The dropped tiles are the rest of the input: those no longer needed. */
  lemma {:induction false} DroppedFacts(tiles: seq<Tile>, requested: Region, resolution: nat)
    ensures var r := Dropped(tiles, requested, resolution);
            && |r| + |Kept(tiles, requested, resolution)| == |tiles|
            && (forall k :: 0 <= k < |r| ==> r[k] in tiles && !StillNeeded(r[k], requested, resolution))
            && (forall i :: 0 <= i < |tiles| && !StillNeeded(tiles[i], requested, resolution) ==> tiles[i] in r)
  {
    if tiles != [] {
      var front := tiles[..|tiles| - 1];
      assert tiles == front + [tiles[|tiles| - 1]];
      DroppedFacts(front, requested, resolution);
      var r := Dropped(front, requested, resolution);
      assert forall k :: 0 <= k < |r| ==> r[k] in tiles;
    }
  }

  // ---------------------------------------------------------------------------
  // Tile grid and resolution choice
  // ---------------------------------------------------------------------------

  /** Grid cell (col, row) of edge `tileSize`, cut to the largest region;
      None when the cell lies outside it. */
  function CutTile(largest: Region, tileSize: nat, col: int, row: int): (c: Option<Region>)
    requires tileSize > 0
    ensures c.Some? ==> Inside(c.value, largest)
    ensures c.Some? ==> c.value.w <= tileSize && c.value.h <= tileSize
    ensures c.Some? ==> Inside(c.value, Region(col * tileSize, row * tileSize, tileSize, tileSize))
    ensures c.None? <==> !Overlaps(Region(col * tileSize, row * tileSize, tileSize, tileSize), largest)
  {
    Crop(Region(col * tileSize, row * tileSize, tileSize, tileSize), largest)
  }

  /** How far a resolution factor is from the wanted one. */
  function Distance(resolution: nat, target: real): real
  {
    if resolution as real < target then target - resolution as real else resolution as real - target
  }

  /** Position `i` holds the available factor nearest the target, and no
      earlier position is as near. */
  predicate FirstClosest(available: seq<nat>, target: real, i: int)
  {
    && 0 <= i < |available|
    && (forall j :: 0 <= j < |available| ==> Distance(available[i], target) <= Distance(available[j], target))
    && (forall j :: 0 <= j < i ==> Distance(available[i], target) < Distance(available[j], target))
  }

  /** There is one such position: the choice of resolution is a function of
      the list and the target. */
  lemma FirstClosestUnique(available: seq<nat>, target: real, i: int, k: int)
    requires FirstClosest(available, target, i) && FirstClosest(available, target, k)
    ensures i == k
  {
    assert Distance(available[i], target) <= Distance(available[k], target);
    assert Distance(available[k], target) <= Distance(available[i], target);
    assert !(i < k);
    assert !(k < i);
  }

  /** A larger wanted factor never picks a smaller available factor: the
      nearest level moves with the target, in the same direction. */
  lemma ClosestMonotone(available: seq<nat>, t1: real, t2: real, i: int, k: int)
    requires t1 <= t2 && FirstClosest(available, t1, i) && FirstClosest(available, t2, k)
    ensures available[i] <= available[k]
  {
  }

  /** The position of the available resolution nearest the target, the
      first one on a tie. The list must not be empty: the result indexes it. */
  method ClosestResolution(available: seq<nat>, target: real) returns (closest: nat)
    requires |available| > 0
    ensures FirstClosest(available, target, closest)
  {
    closest := 0;
    var minDist := Distance(available[0], target);
    var counter := 1;
    while counter < |available|
      invariant 1 <= counter <= |available|
      invariant closest < counter
      invariant minDist == Distance(available[closest], target)
      invariant forall j :: 0 <= j < counter ==> minDist <= Distance(available[j], target)
      invariant forall j :: 0 <= j < closest ==> minDist < Distance(available[j], target)
    {
      var dist := Distance(available[counter], target);
      if dist < minDist {
        minDist := dist;
        closest := counter;
      }
      counter := counter + 1;
    }
  }

  /** Two distinct members of a list of pairwise apart tiles are apart. */
  lemma ApartMembers(tiles: seq<Tile>, a: Tile, b: Tile)
    requires PairwiseApart(tiles) && a in tiles && b in tiles && a != b
    ensures Apart(a, b)
  {
    var i :| 0 <= i < |tiles| && tiles[i] == a;
    var j :| 0 <= j < |tiles| && tiles[j] == b;
    if i > j {
      assert Apart(tiles[j], tiles[i]);
    }
  }

  /** Kept, Dropped and TextureIds of a list grown by one tile. */
  lemma SplitLast(prefix: seq<Tile>, t: Tile, requested: Region, resolution: nat)
    ensures StillNeeded(t, requested, resolution) ==>
              Kept(prefix + [t], requested, resolution) == Kept(prefix, requested, resolution) + [t] &&
              Dropped(prefix + [t], requested, resolution) == Dropped(prefix, requested, resolution)
    ensures !StillNeeded(t, requested, resolution) ==>
              Kept(prefix + [t], requested, resolution) == Kept(prefix, requested, resolution) &&
              Dropped(prefix + [t], requested, resolution) == Dropped(prefix, requested, resolution) + [t]
  {
    assert (prefix + [t])[..|prefix|] == prefix;
  }

  lemma TextureIdsLast(prefix: seq<Tile>, t: Tile)
    ensures TextureIds(prefix + [t]) == TextureIds(prefix) + [t.textureId]
  {
    assert (prefix + [t])[..|prefix|] == prefix;
  }

  /** A tile on the device: loaded, with a texture name below `next`, over a
      cut of `largest` no larger than a grid cell. */
  predicate OnDevice(t: Tile, next: nat, largest: Region, tileSize: nat)
  {
    t.loaded && HandleInvariant(t) && t.textureId < next &&
    Inside(t.imageRegion, largest) && t.imageRegion.w <= tileSize && t.imageRegion.h <= tileSize
  }

  /** The bookkeeping of the tile list: every tile on the device, no two
      tiles sharing a key or a texture, and no held tile owning a texture
      that has been given back. */
  predicate WellKept(tiles: seq<Tile>, released: seq<nat>, next: nat, largest: Region, tileSize: nat)
  {
    && (forall i :: 0 <= i < |tiles| ==> OnDevice(tiles[i], next, largest, tileSize))
    && PairwiseApart(tiles)
    && (forall k :: 0 <= k < |released| ==> 0 < released[k] < next)
    && (forall i, k :: 0 <= i < |tiles| && 0 <= k < |released| ==> tiles[i].textureId != released[k])
  }

  /** ClearLoadedTiles keeps the bookkeeping sound. */
  lemma ClearStaysWellKept(tiles: seq<Tile>, released: seq<nat>, next: nat, largest: Region, tileSize: nat)
    requires WellKept(tiles, released, next, largest, tileSize)
    ensures WellKept([], released + TextureIds(tiles), next, largest, tileSize)
  {
    var now := released + TextureIds(tiles);
    forall k | 0 <= k < |now|
      ensures 0 < now[k] < next
    {
      if k >= |released| {
        assert now[k] == tiles[k - |released|].textureId;
        assert OnDevice(tiles[k - |released|], next, largest, tileSize);
      }
    }
  }

  /** CleanLoadedTiles keeps the bookkeeping sound. */
  lemma CleanStaysWellKept(tiles: seq<Tile>, released: seq<nat>, next: nat, largest: Region, tileSize: nat,
                           requested: Region, resolution: nat)
    requires WellKept(tiles, released, next, largest, tileSize)
    ensures WellKept(Kept(tiles, requested, resolution),
                     released + TextureIds(Dropped(tiles, requested, resolution)), next, largest, tileSize)
  {
    var kept := Kept(tiles, requested, resolution);
    var dropped := Dropped(tiles, requested, resolution);
    var now := released + TextureIds(dropped);
    KeptFacts(tiles, requested, resolution);
    DroppedFacts(tiles, requested, resolution);
    forall i | 0 <= i < |kept|
      ensures OnDevice(kept[i], next, largest, tileSize)
    {
      var j :| 0 <= j < |tiles| && tiles[j] == kept[i];
    }
    forall k | 0 <= k < |now|
      ensures 0 < now[k] < next
    {
      if k >= |released| {
        var j :| 0 <= j < |tiles| && tiles[j] == dropped[k - |released|];
      }
    }
    forall i, k | 0 <= i < |kept| && 0 <= k < |now|
      ensures kept[i].textureId != now[k]
    {
      var j :| 0 <= j < |tiles| && tiles[j] == kept[i];
      if k >= |released| {
        ApartMembers(tiles, kept[i], dropped[k - |released|]);
      }
    }
  }

  /** A new tile, loaded under the next texture name and with a key not
      held yet, joins the list without breaking its bookkeeping. */
  lemma AppendStaysWellKept(tiles: seq<Tile>, released: seq<nat>, next: nat, largest: Region, tileSize: nat, t: Tile)
    requires WellKept(tiles, released, next, largest, tileSize)
    requires OnDevice(t, next + 1, largest, tileSize) && t.textureId == next
    requires !HoldsKey(tiles, t)
    ensures WellKept(tiles + [t], released, next + 1, largest, tileSize)
  {
    var grown := tiles + [t];
    forall i, j | 0 <= i < j < |grown|
      ensures Apart(grown[i], grown[j])
    {
      if j == |tiles| {
        assert !SameKey(tiles[i], t);
      }
    }
  }

  /** A pixel (px, py). */
  predicate Contains(r: Region, px: int, py: int)
  {
    r.x <= px < r.x + r.w && r.y <= py < r.y + r.h
  }

  /** The grid cells UpdateData walks for a requested region: from the cell
      of its first pixel to the cell of its last pixel, both included, on
      each axis; none for an empty region. */
  predicate InGrid(requested: Region, tileSize: nat, col: int, row: int)
    requires tileSize > 0
  {
    requested.w > 0 && requested.h > 0 &&
    requested.x / tileSize <= col <= (requested.x + requested.w - 1) / tileSize &&
    requested.y / tileSize <= row <= (requested.y + requested.h - 1) / tileSize
  }

  /** Every pixel of the image that the view requests falls in a grid cell
      that UpdateData walks, and the cut of that cell contains it. */
  lemma PixelInWalkedCell(largest: Region, tileSize: nat, requested: Region, px: int, py: int)
    requires tileSize > 0
    requires Contains(requested, px, py) && Contains(largest, px, py)
    ensures InGrid(requested, tileSize, px / tileSize, py / tileSize)
    ensures CutTile(largest, tileSize, px / tileSize, py / tileSize).Some?
    ensures Contains(CutTile(largest, tileSize, px / tileSize, py / tileSize).value, px, py)
  {
    var col, row := px / tileSize, py / tileSize;
    assert col * tileSize <= px < col * tileSize + tileSize;
    assert row * tileSize <= py < row * tileSize + tileSize;
    DivMonotone(requested.x, px, tileSize);
    DivMonotone(px, requested.x + requested.w - 1, tileSize);
    DivMonotone(requested.y, py, tileSize);
    DivMonotone(py, requested.y + requested.h - 1, tileSize);
  }

  lemma DivMonotone(a: int, b: int, d: nat)
    requires d > 0 && a <= b
    ensures a / d <= b / d
  {
    var qa, qb := a / d, b / d;
    assert qa * d <= a && b < qb * d + d;
    MulMonotone(qb + 1, qa, d);
  }

  lemma MulMonotone(x: int, y: int, d: nat)
    ensures x <= y ==> x * d <= y * d
  {
  }

  /** The tile that the grid step asks for: a default tile over `region` at
      `resolution`. */
  function Wanted(region: Region, resolution: nat): (t: Tile)
    ensures !t.loaded && t.imageRegion == region && t.resolution == resolution
  {
    NewTile().(imageRegion := region, resolution := resolution)
  }

  /** Grid cell (col, row) is either outside the image or held at
      `resolution` in `tiles`. */
  predicate CellCovered(tiles: seq<Tile>, largest: Region, tileSize: nat, resolution: nat, col: int, row: int)
    requires tileSize > 0
  {
    var cut := CutTile(largest, tileSize, col, row);
    cut.Some? ==> HoldsKey(tiles, Wanted(cut.value, resolution))
  }

  /** Appending tiles never uncovers a cell. */
  lemma CoveredGrows(a: seq<Tile>, b: seq<Tile>, largest: Region, tileSize: nat, resolution: nat, col: int, row: int)
    requires tileSize > 0 && a <= b
    requires CellCovered(a, largest, tileSize, resolution, col, row)
    ensures CellCovered(b, largest, tileSize, resolution, col, row)
  {
    var cut := CutTile(largest, tileSize, col, row);
    if cut.Some? {
      var i :| 0 <= i < |a| && SameKey(a[i], Wanted(cut.value, resolution));
      assert b[i] == a[i];
    }
  }

  /** A tile the walk over `view` can have loaded: it carries `settings`,
      is at `resolution`, overlaps the view, and its region is the cut of a
      walked grid cell. */
  ghost predicate WalkedTile(t: Tile, largest: Region, tileSize: nat, resolution: nat, settings: Rendering,
                             view: Region)
    requires tileSize > 0
  {
    && StillNeeded(t, view, resolution)
    && t.rendering == settings
    && exists col, row :: InGrid(view, tileSize, col, row) && CutTile(largest, tileSize, col, row) == Some(t.imageRegion)
  }

  /** The same, for a walked cell of row `row`. */
  ghost predicate RowTile(t: Tile, largest: Region, tileSize: nat, resolution: nat, settings: Rendering,
                          view: Region, row: int)
    requires tileSize > 0
  {
    && StillNeeded(t, view, resolution)
    && t.rendering == settings
    && exists col :: InGrid(view, tileSize, col, row) && CutTile(largest, tileSize, col, row) == Some(t.imageRegion)
  }

  /** One cell of LoadGridRow: the cells before it stay covered as the
      list grows, and a tile appended for it is the cut of that cell. */
  lemma ColStep(start: seq<Tile>, before: seq<Tile>, after: seq<Tile>, largest: Region, tileSize: nat,
                resolution: nat, settings: Rendering, view: Region, col: int, row: int)
    requires tileSize > 0 && start <= before <= after
    requires InGrid(view, tileSize, col, row) && CutTile(largest, tileSize, col, row).Some?
    requires Overlaps(CutTile(largest, tileSize, col, row).value, view)
    requires forall i :: |start| <= i < |before| ==> RowTile(before[i], largest, tileSize, resolution, settings, view, row)
    requires forall i :: |before| <= i < |after| ==>
               after[i].imageRegion == CutTile(largest, tileSize, col, row).value &&
               after[i].resolution == resolution && after[i].rendering == settings
    requires forall c :: view.x / tileSize <= c < col ==> CellCovered(before, largest, tileSize, resolution, c, row)
    requires CellCovered(after, largest, tileSize, resolution, col, row)
    ensures forall i :: |start| <= i < |after| ==> RowTile(after[i], largest, tileSize, resolution, settings, view, row)
    ensures forall c :: view.x / tileSize <= c < col + 1 ==> CellCovered(after, largest, tileSize, resolution, c, row)
  {
    forall i | |start| <= i < |after|
      ensures RowTile(after[i], largest, tileSize, resolution, settings, view, row)
    {
      if i < |before| {
        assert after[i] == before[i];
      } else {
        assert CutTile(largest, tileSize, col, row) == Some(after[i].imageRegion);
      }
    }
    forall c | view.x / tileSize <= c < col
      ensures CellCovered(after, largest, tileSize, resolution, c, row)
    {
      CoveredGrows(before, after, largest, tileSize, resolution, c, row);
    }
  }

  /** One row of LoadGrid: the rows before it stay covered as the list
      grows, and the tiles appended for the row are walked tiles of the
      view. */
  lemma RowStep(start: seq<Tile>, before: seq<Tile>, after: seq<Tile>, largest: Region, tileSize: nat,
                resolution: nat, settings: Rendering, view: Region, row: int)
    requires tileSize > 0 && start <= before <= after
    requires forall i :: |start| <= i < |before| ==> WalkedTile(before[i], largest, tileSize, resolution, settings, view)
    requires forall i :: |before| <= i < |after| ==> RowTile(after[i], largest, tileSize, resolution, settings, view, row)
    requires forall c, r :: InGrid(view, tileSize, c, r) && r < row ==>
               CellCovered(before, largest, tileSize, resolution, c, r)
    requires forall c :: InGrid(view, tileSize, c, row) ==> CellCovered(after, largest, tileSize, resolution, c, row)
    ensures forall i :: |start| <= i < |after| ==> WalkedTile(after[i], largest, tileSize, resolution, settings, view)
    ensures forall c, r :: InGrid(view, tileSize, c, r) && r < row + 1 ==>
              CellCovered(after, largest, tileSize, resolution, c, r)
  {
    forall i | |start| <= i < |after|
      ensures WalkedTile(after[i], largest, tileSize, resolution, settings, view)
    {
      if i < |before| {
        assert after[i] == before[i];
      } else {
        assert RowTile(after[i], largest, tileSize, resolution, settings, view, row);
        var c :| InGrid(view, tileSize, c, row) && CutTile(largest, tileSize, c, row) == Some(after[i].imageRegion);
      }
    }
    forall c, r | InGrid(view, tileSize, c, r) && r < row
      ensures CellCovered(after, largest, tileSize, resolution, c, r)
    {
      CoveredGrows(before, after, largest, tileSize, resolution, c, r);
    }
  }

  /** The grid cell a tile's region starts in, as (row, column). */
  function CellOf(t: Tile, tileSize: nat): (int, int)
    requires tileSize > 0
  {
    (t.imageRegion.y / tileSize, t.imageRegion.x / tileSize)
  }

  /** Row-major order of grid cells given as (row, column). */
  predicate CellBefore(a: (int, int), b: (int, int))
  {
    a.0 < b.0 || (a.0 == b.0 && a.1 < b.1)
  }

  /** The tiles from position `from` on follow their cells in strictly
      increasing row-major order. */
  predicate RowMajorFrom(tiles: seq<Tile>, from: int, tileSize: nat)
    requires tileSize > 0
  {
    forall i, j :: 0 <= from <= i < j < |tiles| ==> CellBefore(CellOf(tiles[i], tileSize), CellOf(tiles[j], tileSize))
  }

  /** A position inside cell `q` of edge `d` divides to `q`. */
  lemma DivInCell(x: int, q: int, d: nat)
    requires d > 0 && q * d <= x < q * d + d
    ensures x / d == q
  {
    var k := x / d;
    if k < q {
      MulMonotone(k + 1, q, d);
    } else if q < k {
      MulMonotone(q + 1, k, d);
    }
  }

  /** The cut of grid cell (col, row) starts in that cell. */
  lemma CutInCell(largest: Region, tileSize: nat, col: int, row: int)
    requires tileSize > 0 && CutTile(largest, tileSize, col, row).Some?
    ensures var r := CutTile(largest, tileSize, col, row).value;
            r.y / tileSize == row && r.x / tileSize == col
  {
    var r := CutTile(largest, tileSize, col, row).value;
    assert r.x == Max(col * tileSize, largest.x) && r.y == Max(row * tileSize, largest.y);
    DivInCell(r.x, col, tileSize);
    DivInCell(r.y, row, tileSize);
  }

  /** One cell of LoadGridRow keeps the tiles of the row in column order. */
  lemma OrderColStep(start: seq<Tile>, before: seq<Tile>, after: seq<Tile>, tileSize: nat, col: int, row: int)
    requires tileSize > 0 && start <= before <= after && |after| <= |before| + 1
    requires forall i :: |start| <= i < |before| ==>
               CellOf(before[i], tileSize).0 == row && CellOf(before[i], tileSize).1 < col
    requires RowMajorFrom(before, |start|, tileSize)
    requires forall i :: |before| <= i < |after| ==> CellOf(after[i], tileSize) == (row, col)
    ensures forall i :: |start| <= i < |after| ==>
              CellOf(after[i], tileSize).0 == row && CellOf(after[i], tileSize).1 < col + 1
    ensures RowMajorFrom(after, |start|, tileSize)
  {
  }

  /** One row of LoadGrid keeps the appended tiles in row-major order. */
  lemma OrderRowStep(start: seq<Tile>, before: seq<Tile>, after: seq<Tile>, tileSize: nat, row: int)
    requires tileSize > 0 && start <= before <= after
    requires forall i :: |start| <= i < |before| ==> CellOf(before[i], tileSize).0 < row
    requires RowMajorFrom(before, |start|, tileSize)
    requires forall i :: |before| <= i < |after| ==> CellOf(after[i], tileSize).0 == row
    requires RowMajorFrom(after, |before|, tileSize)
    ensures forall i :: |start| <= i < |after| ==> CellOf(after[i], tileSize).0 < row + 1
    ensures RowMajorFrom(after, |start|, tileSize)
  {
  }

  /** Every walked cell of the grid over `view` is outside the image or
      held at `resolution`. */
  ghost predicate GridCovered(tiles: seq<Tile>, largest: Region, tileSize: nat, resolution: nat, view: Region)
    requires tileSize > 0
  {
    forall col, row :: InGrid(view, tileSize, col, row) ==> CellCovered(tiles, largest, tileSize, resolution, col, row)
  }

  /** The image regions of a tile list, as a set. */
  ghost function Regions(tiles: seq<Tile>): set<Region>
  {
    set i | 0 <= i < |tiles| :: tiles[i].imageRegion
  }

  /** A list whose tiles have pairwise different regions has as many
      regions as tiles. */
  lemma {:induction false} DistinctRegions(tiles: seq<Tile>)
    requires forall i, j :: 0 <= i < j < |tiles| ==> tiles[i].imageRegion != tiles[j].imageRegion
    ensures |Regions(tiles)| == |tiles|
  {
    if tiles != [] {
      var front := tiles[..|tiles| - 1];
      var last := tiles[|tiles| - 1].imageRegion;
      DistinctRegions(front);
      assert Regions(tiles) == Regions(front) + {last} by {
        forall x | x in Regions(tiles)
          ensures x in Regions(front) + {last}
        {
          var i :| 0 <= i < |tiles| && tiles[i].imageRegion == x;
          if i < |front| {
            assert front[i] == tiles[i];
          }
        }
        forall x | x in Regions(front)
          ensures x in Regions(tiles)
        {
          var i :| 0 <= i < |front| && front[i].imageRegion == x;
          assert tiles[i] == front[i];
        }
      }
      forall i | 0 <= i < |front|
        ensures front[i].imageRegion != last
      {
        assert front[i] == tiles[i];
      }
    }
  }

  /** The four cells of a 512 x 512 request at the origin of a 4096 x 4096
      image, with tile size 256. */
  function CornerCells(): set<Region>
  {
    {Region(0, 0, 256, 256), Region(256, 0, 256, 256), Region(0, 256, 256, 256), Region(256, 256, 256, 256)}
  }

  /** The cut of cell (col, row) of that image, for the cells of that
      request. */
  lemma CornerCut(col: int, row: int)
    requires InGrid(Region(0, 0, 512, 512), 256, col, row)
    ensures 0 <= col <= 1 && 0 <= row <= 1
    ensures CutTile(Region(0, 0, 4096, 4096), 256, col, row) == Some(Region(col * 256, row * 256, 256, 256))
    ensures Region(col * 256, row * 256, 256, 256) in CornerCells()
  {
    DivInCell(0 + 512 - 1, 1, 256);
    CornerCellCut(col, row);
  }

  lemma CornerCellCut(col: int, row: int)
    requires 0 <= col <= 1 && 0 <= row <= 1
    ensures CutTile(Region(0, 0, 4096, 4096), 256, col, row) == Some(Region(col * 256, row * 256, 256, 256))
    ensures Region(col * 256, row * 256, 256, 256) in CornerCells()
  {
    assert Inside(Region(col * 256, row * 256, 256, 256), Region(0, 0, 4096, 4096));
  }

  lemma CornerCellsCount()
    ensures |CornerCells()| == 4
  {
    var a, b, c, d := Region(0, 0, 256, 256), Region(256, 0, 256, 256), Region(0, 256, 256, 256), Region(256, 256, 256, 256);
    assert CornerCells() == {a} + {b} + {c} + {d};
    assert |{a} + {b}| == 2;
    assert |{a} + {b} + {c}| == 3;
  }

  /** A walked tile of that request is one of the four cells' cuts. */
  lemma WalkedCornerTile(t: Tile, resolution: nat, settings: Rendering)
    requires WalkedTile(t, Region(0, 0, 4096, 4096), 256, resolution, settings, Region(0, 0, 512, 512))
    ensures t.imageRegion in CornerCells()
  {
    var c, r :| InGrid(Region(0, 0, 512, 512), 256, c, r) && CutTile(Region(0, 0, 4096, 4096), 256, c, r) == Some(t.imageRegion);
    CornerCut(c, r);
  }

  /** A list covering cell (col, row) of that request holds its cut. */
  lemma CornerHeld(tiles: seq<Tile>, resolution: nat, col: int, row: int)
    requires 0 <= col <= 1 && 0 <= row <= 1
    requires CellCovered(tiles, Region(0, 0, 4096, 4096), 256, resolution, col, row)
    ensures Region(col * 256, row * 256, 256, 256) in Regions(tiles)
  {
    var x := Region(col * 256, row * 256, 256, 256);
    assert Inside(x, Region(0, 0, 4096, 4096));
    assert CutTile(Region(0, 0, 4096, 4096), 256, col, row) == Some(x);
    var i :| 0 <= i < |tiles| && SameKey(tiles[i], Wanted(x, resolution));
    assert tiles[i].imageRegion == x;
  }

  /** The walked tiles of that request lie among the four cells' cuts. */
  lemma WalkedInCorner(tiles: seq<Tile>, resolution: nat, settings: Rendering)
    requires forall i :: 0 <= i < |tiles| ==>
               WalkedTile(tiles[i], Region(0, 0, 4096, 4096), 256, resolution, settings, Region(0, 0, 512, 512))
    ensures Regions(tiles) <= CornerCells()
  {
    forall x | x in Regions(tiles)
      ensures x in CornerCells()
    {
      var i :| 0 <= i < |tiles| && tiles[i].imageRegion == x;
      WalkedCornerTile(tiles[i], resolution, settings);
    }
  }

  /** A list covering the walk over that request holds all four cuts. */
  lemma CornerCovered(tiles: seq<Tile>, resolution: nat)
    requires GridCovered(tiles, Region(0, 0, 4096, 4096), 256, resolution, Region(0, 0, 512, 512))
    ensures CornerCells() <= Regions(tiles)
  {
    assert (0 + 512 - 1) / 256 == 1;
    forall col, row | 0 <= col <= 1 && 0 <= row <= 1
      ensures Region(col * 256, row * 256, 256, 256) in Regions(tiles)
    {
      assert InGrid(Region(0, 0, 512, 512), 256, col, row);
      CornerHeld(tiles, resolution, col, row);
    }
    assert Region(0 * 256, 0 * 256, 256, 256) in Regions(tiles);
    assert Region(1 * 256, 0 * 256, 256, 256) in Regions(tiles);
    assert Region(0 * 256, 1 * 256, 256, 256) in Regions(tiles);
    assert Region(1 * 256, 1 * 256, 256, 256) in Regions(tiles);
  }

  /** Tiles apart from each other at a single resolution have different
      regions. */
  lemma ApartAtOneResolution(tiles: seq<Tile>, resolution: nat)
    requires PairwiseApart(tiles)
    requires forall i :: 0 <= i < |tiles| ==> tiles[i].resolution == resolution
    ensures forall i, j :: 0 <= i < j < |tiles| ==> tiles[i].imageRegion != tiles[j].imageRegion
  {
    forall i, j | 0 <= i < j < |tiles|
      ensures tiles[i].imageRegion != tiles[j].imageRegion
    {
      assert Apart(tiles[i], tiles[j]);
    }
  }

  /** What the walk over `view` leaves in an empty cache: no two tiles
      share a key, every tile is the cut of a walked cell at `resolution`,
      and every walked cell is held. */
  ghost predicate ExactlyWalked(tiles: seq<Tile>, largest: Region, tileSize: nat, resolution: nat, settings: Rendering,
                                view: Region)
    requires tileSize > 0
  {
    && PairwiseApart(tiles)
    && RowMajorFrom(tiles, 0, tileSize)
    && (forall i :: 0 <= i < |tiles| ==> WalkedTile(tiles[i], largest, tileSize, resolution, settings, view))
    && GridCovered(tiles, largest, tileSize, resolution, view)
  }

  /** The walk over a request of 2 x 2 cells at the image's corner (tile
      size 256, image 4096 x 4096, request 512 x 512 at the origin): what
      UpdateData leaves in an empty cache for that request (see
      UpdateDataFromEmpty) is exactly the four cells' tiles. */
  lemma FourTilesForTwoByTwoCells(tiles: seq<Tile>, resolution: nat, settings: Rendering)
    requires ExactlyWalked(tiles, Region(0, 0, 4096, 4096), 256, resolution, settings, Region(0, 0, 512, 512))
    ensures |tiles| == 4
    ensures Regions(tiles) == CornerCells()
  {
    forall i | 0 <= i < |tiles|
      ensures tiles[i].resolution == resolution
    {
      assert StillNeeded(tiles[i], Region(0, 0, 512, 512), resolution);
    }
    ApartAtOneResolution(tiles, resolution);
    DistinctRegions(tiles);
    WalkedInCorner(tiles, resolution, settings);
    CornerCovered(tiles, resolution);
    SubsetBothWays(Regions(tiles), CornerCells());
    CornerCellsCount();
  }

  /** In that example the four tiles come in row-major order: the top
      row left to right, then the bottom row. */
  lemma FourTilesInRowMajorOrder(tiles: seq<Tile>, resolution: nat, settings: Rendering)
    requires ExactlyWalked(tiles, Region(0, 0, 4096, 4096), 256, resolution, settings, Region(0, 0, 512, 512))
    ensures |tiles| == 4
    ensures RegionList(tiles)
            == [Region(0, 0, 256, 256), Region(256, 0, 256, 256), Region(0, 256, 256, 256), Region(256, 256, 256, 256)]
  {
    FourTilesForTwoByTwoCells(tiles, resolution, settings);
    CornerListInOrder(tiles);
  }

  /** Four tiles in row-major order whose regions are the corner cells
      list those cells row by row. */
  lemma CornerListInOrder(tiles: seq<Tile>)
    requires |tiles| == 4 && RowMajorFrom(tiles, 0, 256)
    requires Regions(tiles) == CornerCells()
    ensures RegionList(tiles)
            == [Region(0, 0, 256, 256), Region(256, 0, 256, 256), Region(0, 256, 256, 256), Region(256, 256, 256, 256)]
  {
    EachRegionListed(tiles);
    CornerOrder(tiles);
    ListOfFour(RegionList(tiles));
  }

  /** The regions of a list of tiles, in list order. */
  function RegionList(tiles: seq<Tile>): (rs: seq<Region>)
    ensures |rs| == |tiles|
    ensures forall i :: 0 <= i < |tiles| ==> rs[i] == tiles[i].imageRegion
  {
    if tiles == [] then [] else [tiles[0].imageRegion] + RegionList(tiles[1..])
  }

  lemma EachRegionListed(tiles: seq<Tile>)
    ensures forall i :: 0 <= i < |tiles| ==> tiles[i].imageRegion in Regions(tiles)
  {
  }

  /** Four tiles over the corner cells, in row-major order, are the cells
      in rank order. */
  lemma CornerOrder(tiles: seq<Tile>)
    requires |tiles| == 4 && RowMajorFrom(tiles, 0, 256)
    requires forall i :: 0 <= i < 4 ==> tiles[i].imageRegion in CornerCells()
    ensures tiles[0].imageRegion == Region(0, 0, 256, 256)
    ensures tiles[1].imageRegion == Region(256, 0, 256, 256)
    ensures tiles[2].imageRegion == Region(0, 256, 256, 256)
    ensures tiles[3].imageRegion == Region(256, 256, 256, 256)
  {
    forall i | 0 <= i < 3
      ensures CornerRank(tiles[i].imageRegion) < CornerRank(tiles[i + 1].imageRegion)
    {
      assert CellBefore(CellOf(tiles[i], 256), CellOf(tiles[i + 1], 256));
      RankFollowsCell(tiles[i].imageRegion, tiles[i + 1].imageRegion);
    }
    RankNames(tiles[0].imageRegion);
    RankNames(tiles[1].imageRegion);
    RankNames(tiles[2].imageRegion);
    RankNames(tiles[3].imageRegion);
  }

  lemma ListOfFour(rs: seq<Region>)
    requires |rs| == 4
    requires rs[0] == Region(0, 0, 256, 256) && rs[1] == Region(256, 0, 256, 256)
    requires rs[2] == Region(0, 256, 256, 256) && rs[3] == Region(256, 256, 256, 256)
    ensures rs == [Region(0, 0, 256, 256), Region(256, 0, 256, 256), Region(0, 256, 256, 256), Region(256, 256, 256, 256)]
  {
  }

  /** The row-major position of one of the four corner cells. */
  function CornerRank(r: Region): (k: int)
    requires r in CornerCells()
    ensures 0 <= k < 4
  {
    (if r.y == 0 then 0 else 2) + (if r.x == 0 then 0 else 1)
  }

  /** Row-major order of the corner cells is order of their ranks. */
  lemma RankFollowsCell(a: Region, b: Region)
    requires a in CornerCells() && b in CornerCells()
    requires CellBefore((a.y / 256, a.x / 256), (b.y / 256, b.x / 256))
    ensures CornerRank(a) < CornerRank(b)
  {
    CornerCellIndex(a);
    CornerCellIndex(b);
  }

  lemma CornerCellIndex(r: Region)
    requires r in CornerCells()
    ensures r.y / 256 == (if r.y == 0 then 0 else 1) && r.x / 256 == (if r.x == 0 then 0 else 1)
  {
    DivInCell(r.y, if r.y == 0 then 0 else 1, 256);
    DivInCell(r.x, if r.x == 0 then 0 else 1, 256);
  }

  /** Each rank names one corner cell. */
  lemma RankNames(r: Region)
    requires r in CornerCells()
    ensures CornerRank(r) == 0 ==> r == Region(0, 0, 256, 256)
    ensures CornerRank(r) == 1 ==> r == Region(256, 0, 256, 256)
    ensures CornerRank(r) == 2 ==> r == Region(0, 256, 256, 256)
    ensures CornerRank(r) == 3 ==> r == Region(256, 256, 256, 256)
  {
  }

  lemma SubsetBothWays<T>(a: set<T>, b: set<T>)
    requires a <= b && b <= a
    ensures a == b && |a| == |b|
  {
  }

  /** A region meeting `b` meets any region around `b`. */
  lemma OverlapsWider(a: Region, b: Region, c: Region)
    requires Overlaps(a, b) && Inside(b, c)
    ensures Overlaps(a, c)
  {
  }

  /** A pixel of both regions lies in the crop of one to the other. */
  lemma CropContains(r: Region, bounds: Region, px: int, py: int)
    requires Contains(r, px, py) && Contains(bounds, px, py)
    ensures Crop(r, bounds).Some? && Contains(Crop(r, bounds).value, px, py)
  {
  }

  /** The cell of index `i` along an axis starts at or before `a` when `i`
      is at most `a`'s cell, and ends after `b` when `i` is at least `b`'s
      cell. */
  lemma CellBounds(i: int, a: int, b: int, d: nat)
    requires d > 0
    ensures i <= a / d ==> i * d <= a
    ensures b / d <= i ==> b < i * d + d
  {
    MulMonotone(i, a / d, d);
    MulMonotone(b / d, i, d);
  }

  /** A walked cell of a view inside the image is cut to a piece of the
      image that overlaps the view. */
  lemma WalkedCellMeetsView(largest: Region, tileSize: nat, view: Region, col: int, row: int)
    requires tileSize > 0 && Inside(view, largest)
    requires InGrid(view, tileSize, col, row)
    ensures CutTile(largest, tileSize, col, row).Some?
    ensures Overlaps(CutTile(largest, tileSize, col, row).value, view)
  {
    CellBounds(col, view.x + view.w - 1, view.x, tileSize);
    CellBounds(row, view.y + view.h - 1, view.y, tileSize);
    var cell := Region(col * tileSize, row * tileSize, tileSize, tileSize);
    assert Overlaps(cell, view);
    OverlapsWider(cell, view, largest);
  }

  /** When every tile is still needed, cleaning keeps them all. */
  lemma {:induction false} KeptAll(tiles: seq<Tile>, requested: Region, resolution: nat)
    requires forall i :: 0 <= i < |tiles| ==> StillNeeded(tiles[i], requested, resolution)
    ensures Kept(tiles, requested, resolution) == tiles
    ensures Dropped(tiles, requested, resolution) == []
  {
    if tiles != [] {
      var front := tiles[..|tiles| - 1];
      assert tiles == front + [tiles[|tiles| - 1]];
      KeptAll(front, requested, resolution);
    }
  }

  // ---------------------------------------------------------------------------
  // The actor
  // ---------------------------------------------------------------------------

  class NonOptGlImageActor {
    /** `m_TileSize`: the edge of a grid cell, in pixels. */
    var tileSize: nat
    /** `m_LargestRegion`: the whole image. */
    var largestRegion: Region
    /** `m_AvailableResolutions` and `m_CurrentResolution` (decimation factors). */
    var availableResolutions: seq<nat>
    var currentResolution: nat
    /** `m_RedIdx` ... `m_MaxBlue` and `m_UseShader`. */
    var rendering: Rendering
    /** `m_LoadedTiles` */
    var loadedTiles: seq<Tile>
    /** The device's texture names: those handed out so far are
        1 .. nextTextureId - 1, and those given back are logged in order. */
    var nextTextureId: nat
    var releasedTextures: seq<nat>
    /** The object's modification time, advanced by `Modified()`. */
    var mTime: nat

    ghost predicate Valid()
      reads this
    {
      && tileSize > 0
      && |availableResolutions| > 0
      && currentResolution in availableResolutions
      && nextTextureId >= 1
      && WellKept(loadedTiles, releasedTextures, nextTextureId, largestRegion, tileSize)
    }

    /** The actor once an image is open: its size, its resolution levels and
        the display settings; no tile is loaded yet. Reading the image file
        is not part of this model. */
    constructor (tileEdge: nat, largest: Region, resolutions: seq<nat>, initial: Rendering)
      requires tileEdge > 0 && |resolutions| > 0
      ensures Valid()
      ensures tileSize == tileEdge && largestRegion == largest
      ensures availableResolutions == resolutions && currentResolution == resolutions[0]
      ensures rendering == initial && loadedTiles == [] && releasedTextures == []
      ensures nextTextureId == 1 && mTime == 0
    {
      tileSize := tileEdge;
      largestRegion := largest;
      availableResolutions := resolutions;
      currentResolution := resolutions[0];
      rendering := initial;
      loadedTiles := [];
      nextTextureId := 1;
      releasedTextures := [];
      mTime := 0;
    }

    /** LoadTile: the tile gets a new texture and a copy of the current
        display settings. The pixel upload itself is not modelled. */
    method LoadTile(tile: Tile) returns (loaded: Tile)
      requires Valid()
      modifies this`nextTextureId
      ensures Valid()
      ensures loaded == tile.(loaded := true, textureId := old(nextTextureId), rendering := rendering)
      ensures nextTextureId == old(nextTextureId) + 1
      ensures HandleInvariant(loaded)
    {
      loaded := tile.(loaded := true, textureId := nextTextureId, rendering := rendering);
      nextTextureId := nextTextureId + 1;
    }

    /** UnloadTile: a loaded tile gives its texture back and is unloaded; an
        unloaded tile is left as it is. */
    method UnloadTile(tile: Tile) returns (unloaded: Tile)
      modifies this`releasedTextures
      ensures tile.loaded ==> unloaded == tile.(loaded := false, textureId := 0)
      ensures tile.loaded ==> releasedTextures == old(releasedTextures) + [tile.textureId]
      ensures !tile.loaded ==> unloaded == tile && releasedTextures == old(releasedTextures)
      ensures HandleInvariant(tile) ==> HandleInvariant(unloaded)
    {
      unloaded := tile;
      if tile.loaded {
        releasedTextures := releasedTextures + [tile.textureId];
        unloaded := tile.(loaded := false, textureId := 0);
      }
    }

    /** TileAlreadyLoaded: some held tile has the same region and resolution. */
    method TileAlreadyLoaded(tile: Tile) returns (found: bool)
      ensures found == HoldsKey(loadedTiles, tile)
    {
      var i := 0;
      while i < |loadedTiles|
        invariant 0 <= i <= |loadedTiles|
        invariant forall k :: 0 <= k < i ==> !SameKey(loadedTiles[k], tile)
      {
        if SameKey(loadedTiles[i], tile) {
          return true;
        }
        i := i + 1;
      }
      return false;
    }

    /** CleanLoadedTiles: keep, in order, the tiles that overlap the
        requested region at the current resolution; unload all the others. */
    method CleanLoadedTiles(requested: Region)
      requires Valid()
      modifies this`loadedTiles, this`releasedTextures
      ensures Valid()
      ensures loadedTiles == Kept(old(loadedTiles), requested, currentResolution)
      ensures releasedTextures ==
                old(releasedTextures) + TextureIds(Dropped(old(loadedTiles), requested, currentResolution))
    {
      CleanStaysWellKept(loadedTiles, releasedTextures, nextTextureId, largestRegion, tileSize,
                         requested, currentResolution);
      assert forall k :: 0 <= k < |loadedTiles| ==> OnDevice(loadedTiles[k], nextTextureId, largestRegion, tileSize);
      loadedTiles := UnloadUnneeded(loadedTiles, requested);
    }

    /** The loop of CleanLoadedTiles over the (loaded) tiles: collect the
        ones still needed and unload the rest. */
    method UnloadUnneeded(tiles: seq<Tile>, requested: Region) returns (kept: seq<Tile>)
      requires forall k :: 0 <= k < |tiles| ==> tiles[k].loaded
      modifies this`releasedTextures
      ensures kept == Kept(tiles, requested, currentResolution)
      ensures releasedTextures ==
                old(releasedTextures) + TextureIds(Dropped(tiles, requested, currentResolution))
    {
      kept := [];
      var i := 0;
      while i < |tiles|
        invariant 0 <= i <= |tiles|
        invariant kept == Kept(tiles[..i], requested, currentResolution)
        invariant releasedTextures ==
                    old(releasedTextures) + TextureIds(Dropped(tiles[..i], requested, currentResolution))
      {
        var tile := tiles[i];
        ghost var prefix := tiles[..i];
        assert tiles[..i + 1] == prefix + [tile];
        SplitLast(prefix, tile, requested, currentResolution);
        if StillNeeded(tile, requested, currentResolution) {
          kept := kept + [tile];
        } else {
          ghost var dropped := TextureIds(Dropped(prefix, requested, currentResolution));
          TextureIdsLast(Dropped(prefix, requested, currentResolution), tile);
          var _ := UnloadTile(tile);
          assert old(releasedTextures) + (dropped + [tile.textureId]) ==
                 (old(releasedTextures) + dropped) + [tile.textureId];
        }
        i := i + 1;
      }
      assert tiles[..i] == tiles;
    }

    /** ClearLoadedTiles: unload every tile and empty the list. */
    method ClearLoadedTiles()
      requires Valid()
      modifies this`loadedTiles, this`releasedTextures
      ensures Valid()
      ensures loadedTiles == []
      ensures releasedTextures == old(releasedTextures) + TextureIds(old(loadedTiles))
    {
      ClearStaysWellKept(loadedTiles, releasedTextures, nextTextureId, largestRegion, tileSize);
      assert forall k :: 0 <= k < |loadedTiles| ==> OnDevice(loadedTiles[k], nextTextureId, largestRegion, tileSize);
      UnloadAll(loadedTiles);
      loadedTiles := [];
    }

    /** The loop of ClearLoadedTiles: give back the texture of every
        (loaded) tile, in list order. */
    method UnloadAll(tiles: seq<Tile>)
      requires forall k :: 0 <= k < |tiles| ==> tiles[k].loaded
      modifies this`releasedTextures
      ensures releasedTextures == old(releasedTextures) + TextureIds(tiles)
    {
      var i := 0;
      while i < |tiles|
        invariant 0 <= i <= |tiles|
        invariant releasedTextures == old(releasedTextures) + TextureIds(tiles[..i])
      {
        TextureIdsLast(tiles[..i], tiles[i]);
        assert tiles[..i + 1] == tiles[..i] + [tiles[i]];
        var _ := UnloadTile(tiles[i]);
        i := i + 1;
      }
      assert tiles[..i] == tiles;
    }

    /** UpdateResolution: take the available factor nearest the one the
        view asks for (computing that from the view settings is not part of
        this model). */
    method UpdateResolution(target: real)
      requires Valid()
      modifies this`currentResolution
      ensures Valid()
      ensures currentResolution in availableResolutions
      ensures forall j :: 0 <= j < |availableResolutions| ==>
                Distance(currentResolution, target) <= Distance(availableResolutions[j], target)
      ensures exists i :: FirstClosest(availableResolutions, target, i) && currentResolution == availableResolutions[i]
    {
      var closest := ClosestResolution(availableResolutions, target);
      currentResolution := availableResolutions[closest];
    }

    /** One grid cell of UpdateData: unless a tile with this region at the
        current resolution is held already, load one and append it. */
    method RequestTile(region: Region)
      requires Valid()
      requires Inside(region, largestRegion) && region.w <= tileSize && region.h <= tileSize
      modifies this`loadedTiles, this`nextTextureId
      ensures Valid()
      ensures old(HoldsKey(loadedTiles, Wanted(region, currentResolution))) ==>
                loadedTiles == old(loadedTiles) && nextTextureId == old(nextTextureId)
      ensures !old(HoldsKey(loadedTiles, Wanted(region, currentResolution))) ==>
                loadedTiles == old(loadedTiles) + [Wanted(region, currentResolution).(
                  loaded := true, textureId := old(nextTextureId), rendering := rendering)] &&
                nextTextureId == old(nextTextureId) + 1
      ensures HoldsKey(loadedTiles, Wanted(region, currentResolution))
      ensures old(loadedTiles) <= loadedTiles
    {
      var tile := Wanted(region, currentResolution);
      var found := TileAlreadyLoaded(tile);
      if !found {
        tile := LoadTile(tile);
        AppendStaysWellKept(loadedTiles, releasedTextures, nextTextureId - 1, largestRegion, tileSize, tile);
        loadedTiles := loadedTiles + [tile];
        assert SameKey(loadedTiles[|loadedTiles| - 1], Wanted(region, currentResolution));
      }
    }

    // -------------------------------------------------------------------------
    // Display settings (itkSetMacro / itkGetMacro / itkBooleanMacro). A setter
    // calls Modified() only when the value changes, and it never touches the
    // tiles already held: they keep the settings they were loaded with.

    function GetUseShader(): bool
      reads this
    {
      rendering.useShader
    }

    method SetUseShader(v: bool)
      requires Valid()
      modifies this`rendering, this`mTime
      ensures Valid()
      ensures GetUseShader() == v
      ensures rendering == old(rendering).(useShader := v)
      ensures mTime == if old(rendering.useShader) != v then old(mTime) + 1 else old(mTime)
    {
      if rendering.useShader != v {
        rendering := rendering.(useShader := v);
        mTime := mTime + 1;
      }
    }

    method UseShaderOn()
      requires Valid()
      modifies this`rendering, this`mTime
      ensures Valid()
      ensures GetUseShader()
      ensures rendering == old(rendering).(useShader := true)
      ensures mTime == if !old(rendering.useShader) then old(mTime) + 1 else old(mTime)
    {
      SetUseShader(true);
    }

    method UseShaderOff()
      requires Valid()
      modifies this`rendering, this`mTime
      ensures Valid()
      ensures !GetUseShader()
      ensures rendering == old(rendering).(useShader := false)
      ensures mTime == if old(rendering.useShader) then old(mTime) + 1 else old(mTime)
    {
      SetUseShader(false);
    }

    function GetMinRed(): real
      reads this
    {
      rendering.minRed
    }

    method SetMinRed(v: real)
      requires Valid()
      modifies this`rendering, this`mTime
      ensures Valid()
      ensures GetMinRed() == v
      ensures rendering == old(rendering).(minRed := v)
      ensures mTime == if old(rendering.minRed) != v then old(mTime) + 1 else old(mTime)
    {
      if rendering.minRed != v {
        rendering := rendering.(minRed := v);
        mTime := mTime + 1;
      }
    }

    function GetMinGreen(): real
      reads this
    {
      rendering.minGreen
    }

    method SetMinGreen(v: real)
      requires Valid()
      modifies this`rendering, this`mTime
      ensures Valid()
      ensures GetMinGreen() == v
      ensures rendering == old(rendering).(minGreen := v)
      ensures mTime == if old(rendering.minGreen) != v then old(mTime) + 1 else old(mTime)
    {
      if rendering.minGreen != v {
        rendering := rendering.(minGreen := v);
        mTime := mTime + 1;
      }
    }

    function GetMinBlue(): real
      reads this
    {
      rendering.minBlue
    }

    method SetMinBlue(v: real)
      requires Valid()
      modifies this`rendering, this`mTime
      ensures Valid()
      ensures GetMinBlue() == v
      ensures rendering == old(rendering).(minBlue := v)
      ensures mTime == if old(rendering.minBlue) != v then old(mTime) + 1 else old(mTime)
    {
      if rendering.minBlue != v {
        rendering := rendering.(minBlue := v);
        mTime := mTime + 1;
      }
    }

    function GetMaxRed(): real
      reads this
    {
      rendering.maxRed
    }

    method SetMaxRed(v: real)
      requires Valid()
      modifies this`rendering, this`mTime
      ensures Valid()
      ensures GetMaxRed() == v
      ensures rendering == old(rendering).(maxRed := v)
      ensures mTime == if old(rendering.maxRed) != v then old(mTime) + 1 else old(mTime)
    {
      if rendering.maxRed != v {
        rendering := rendering.(maxRed := v);
        mTime := mTime + 1;
      }
    }

    function GetMaxGreen(): real
      reads this
    {
      rendering.maxGreen
    }

    method SetMaxGreen(v: real)
      requires Valid()
      modifies this`rendering, this`mTime
      ensures Valid()
      ensures GetMaxGreen() == v
      ensures rendering == old(rendering).(maxGreen := v)
      ensures mTime == if old(rendering.maxGreen) != v then old(mTime) + 1 else old(mTime)
    {
      if rendering.maxGreen != v {
        rendering := rendering.(maxGreen := v);
        mTime := mTime + 1;
      }
    }

    function GetMaxBlue(): real
      reads this
    {
      rendering.maxBlue
    }

    method SetMaxBlue(v: real)
      requires Valid()
      modifies this`rendering, this`mTime
      ensures Valid()
      ensures GetMaxBlue() == v
      ensures rendering == old(rendering).(maxBlue := v)
      ensures mTime == if old(rendering.maxBlue) != v then old(mTime) + 1 else old(mTime)
    {
      if rendering.maxBlue != v {
        rendering := rendering.(maxBlue := v);
        mTime := mTime + 1;
      }
    }

    function GetRedIdx(): nat
      reads this
    {
      rendering.redIdx
    }

    method SetRedIdx(v: nat)
      requires Valid()
      modifies this`rendering, this`mTime
      ensures Valid()
      ensures GetRedIdx() == v
      ensures rendering == old(rendering).(redIdx := v)
      ensures mTime == if old(rendering.redIdx) != v then old(mTime) + 1 else old(mTime)
    {
      if rendering.redIdx != v {
        rendering := rendering.(redIdx := v);
        mTime := mTime + 1;
      }
    }

    function GetGreenIdx(): nat
      reads this
    {
      rendering.greenIdx
    }

    method SetGreenIdx(v: nat)
      requires Valid()
      modifies this`rendering, this`mTime
      ensures Valid()
      ensures GetGreenIdx() == v
      ensures rendering == old(rendering).(greenIdx := v)
      ensures mTime == if old(rendering.greenIdx) != v then old(mTime) + 1 else old(mTime)
    {
      if rendering.greenIdx != v {
        rendering := rendering.(greenIdx := v);
        mTime := mTime + 1;
      }
    }

    function GetBlueIdx(): nat
      reads this
    {
      rendering.blueIdx
    }

    method SetBlueIdx(v: nat)
      requires Valid()
      modifies this`rendering, this`mTime
      ensures Valid()
      ensures GetBlueIdx() == v
      ensures rendering == old(rendering).(blueIdx := v)
      ensures mTime == if old(rendering.blueIdx) != v then old(mTime) + 1 else old(mTime)
    {
      if rendering.blueIdx != v {
        rendering := rendering.(blueIdx := v);
        mTime := mTime + 1;
      }
    }

    /** A tile held before a settings change keeps the settings it was
        loaded with: request a cell, then set the red minimum to any value;
        the tile of that cell carries the settings in force when it was
        loaded, and only the actor has the new value. */
    method SettingsReachNewTilesOnly(region: Region, v: real)
      requires Valid()
      requires Inside(region, largestRegion) && region.w <= tileSize && region.h <= tileSize
      modifies this`loadedTiles, this`nextTextureId, this`rendering, this`mTime
      ensures Valid()
      ensures GetMinRed() == v && rendering == old(rendering).(minRed := v)
      ensures old(HoldsKey(loadedTiles, Wanted(region, currentResolution))) ==> loadedTiles == old(loadedTiles)
      ensures !old(HoldsKey(loadedTiles, Wanted(region, currentResolution))) ==>
                loadedTiles == old(loadedTiles) + [Wanted(region, currentResolution).(
                  loaded := true, textureId := old(nextTextureId), rendering := old(rendering))]
    {
      RequestTile(region);
      SetMinRed(v);
    }

    /** One row of the grid walk over `view`, left to right. The tiles it
        appends are cuts of the row's cells at the current resolution and
        under the current display settings, in column order, and it appends
        nothing when every cell of the row is held already. */
    method LoadGridRow(view: Region, row: int)
      requires Valid() && Inside(view, largestRegion) && view.w > 0 && view.h > 0
      requires view.y / tileSize <= row <= (view.y + view.h - 1) / tileSize
      modifies this`loadedTiles, this`nextTextureId
      ensures Valid()
      ensures old(loadedTiles) <= loadedTiles
      ensures forall i :: |old(loadedTiles)| <= i < |loadedTiles| ==>
                RowTile(loadedTiles[i], largestRegion, tileSize, currentResolution, rendering, view, row)
      ensures forall i :: |old(loadedTiles)| <= i < |loadedTiles| ==> CellOf(loadedTiles[i], tileSize).0 == row
      ensures RowMajorFrom(loadedTiles, |old(loadedTiles)|, tileSize)
      ensures forall col :: InGrid(view, tileSize, col, row) ==>
                CellCovered(loadedTiles, largestRegion, tileSize, currentResolution, col, row)
      ensures (forall col :: InGrid(view, tileSize, col, row) ==>
                 CellCovered(old(loadedTiles), largestRegion, tileSize, currentResolution, col, row)) ==>
                loadedTiles == old(loadedTiles) && nextTextureId == old(nextTextureId)
    {
      var col := view.x / tileSize;
      var endCol := (view.x + view.w - 1) / tileSize;
      DivMonotone(view.x, view.x + view.w - 1, tileSize);
      while col <= endCol
        invariant view.x / tileSize <= col <= endCol + 1
        invariant Valid()
        invariant old(loadedTiles) <= loadedTiles
        invariant forall i :: |old(loadedTiles)| <= i < |loadedTiles| ==>
                    RowTile(loadedTiles[i], largestRegion, tileSize, currentResolution, rendering, view, row)
        invariant forall i :: |old(loadedTiles)| <= i < |loadedTiles| ==>
                    CellOf(loadedTiles[i], tileSize).0 == row && CellOf(loadedTiles[i], tileSize).1 < col
        invariant RowMajorFrom(loadedTiles, |old(loadedTiles)|, tileSize)
        invariant forall c :: view.x / tileSize <= c < col ==>
                    CellCovered(loadedTiles, largestRegion, tileSize, currentResolution, c, row)
        invariant (forall c :: InGrid(view, tileSize, c, row) ==>
                     CellCovered(old(loadedTiles), largestRegion, tileSize, currentResolution, c, row)) ==>
                    loadedTiles == old(loadedTiles) && nextTextureId == old(nextTextureId)
      {
        assert InGrid(view, tileSize, col, row);
        WalkedCellMeetsView(largestRegion, tileSize, view, col, row);
        var cut := CutTile(largestRegion, tileSize, col, row);
        ghost var before := loadedTiles;
        RequestTile(cut.value);
        ColStep(old(loadedTiles), before, loadedTiles, largestRegion, tileSize, currentResolution, rendering, view, col, row);
        CutInCell(largestRegion, tileSize, col, row);
        OrderColStep(old(loadedTiles), before, loadedTiles, tileSize, col, row);
        col := col + 1;
      }
    }

    /** The grid walk of UpdateData over `view`, row by row, so the tiles
        join the list in row-major order, each under the current display
        settings. */
    method LoadGrid(view: Region)
      requires Valid() && Inside(view, largestRegion)
      modifies this`loadedTiles, this`nextTextureId
      ensures Valid()
      ensures old(loadedTiles) <= loadedTiles
      ensures forall i :: |old(loadedTiles)| <= i < |loadedTiles| ==>
                WalkedTile(loadedTiles[i], largestRegion, tileSize, currentResolution, rendering, view)
      ensures RowMajorFrom(loadedTiles, |old(loadedTiles)|, tileSize)
      ensures GridCovered(loadedTiles, largestRegion, tileSize, currentResolution, view)
      ensures GridCovered(old(loadedTiles), largestRegion, tileSize, currentResolution, view) ==>
                loadedTiles == old(loadedTiles) && nextTextureId == old(nextTextureId)
    {
      if view.w == 0 || view.h == 0 {
        return;
      }
      var row := view.y / tileSize;
      var endRow := (view.y + view.h - 1) / tileSize;
      DivMonotone(view.y, view.y + view.h - 1, tileSize);
      while row <= endRow
        invariant view.y / tileSize <= row <= endRow + 1
        invariant Valid()
        invariant old(loadedTiles) <= loadedTiles
        invariant forall i :: |old(loadedTiles)| <= i < |loadedTiles| ==>
                    WalkedTile(loadedTiles[i], largestRegion, tileSize, currentResolution, rendering, view)
        invariant forall i :: |old(loadedTiles)| <= i < |loadedTiles| ==> CellOf(loadedTiles[i], tileSize).0 < row
        invariant RowMajorFrom(loadedTiles, |old(loadedTiles)|, tileSize)
        invariant forall c, r :: InGrid(view, tileSize, c, r) && r < row ==>
                    CellCovered(loadedTiles, largestRegion, tileSize, currentResolution, c, r)
        invariant GridCovered(old(loadedTiles), largestRegion, tileSize, currentResolution, view) ==>
                    loadedTiles == old(loadedTiles) && nextTextureId == old(nextTextureId)
      {
        ghost var before := loadedTiles;
        LoadGridRow(view, row);
        RowStep(old(loadedTiles), before, loadedTiles, largestRegion, tileSize, currentResolution, rendering, view, row);
        OrderRowStep(old(loadedTiles), before, loadedTiles, tileSize, row);
        row := row + 1;
      }
    }

    /** What UpdateData(target, requested) leaves behind: the factor it
        picks for the target, only tiles the request still needs, and every
        walked cell of the request's part of the image held. */
    ghost predicate Settled(target: real, requested: Region)
      reads this
    {
      && tileSize > 0
      && (exists i :: FirstClosest(availableResolutions, target, i) && currentResolution == availableResolutions[i])
      && (forall i :: 0 <= i < |loadedTiles| ==> StillNeeded(loadedTiles[i], requested, currentResolution))
      && (Crop(requested, largestRegion).Some? ==>
            GridCovered(loadedTiles, largestRegion, tileSize, currentResolution, Crop(requested, largestRegion).value))
    }

    /** UpdateData: choose the resolution, clean the tiles the request no
        longer needs, then walk the grid over the request's part of the
        image and load every cell not held yet. The list becomes the kept
        tiles, in their old order, followed by cuts of walked cells.
        Afterwards every requested pixel of the image lies in a held tile,
        every held tile overlaps the request, and a second call with the same target and region loads
        and unloads nothing. */
    method UpdateData(target: real, requested: Region)
      requires Valid()
      modifies this`currentResolution, this`loadedTiles, this`releasedTextures, this`nextTextureId
      ensures Valid()
      ensures Settled(target, requested)
      ensures forall px, py :: Contains(requested, px, py) && Contains(largestRegion, px, py) ==>
                exists i :: 0 <= i < |loadedTiles| && Contains(loadedTiles[i].imageRegion, px, py)
      ensures Kept(old(loadedTiles), requested, currentResolution) <= loadedTiles
      ensures releasedTextures ==
                old(releasedTextures) + TextureIds(Dropped(old(loadedTiles), requested, currentResolution))
      ensures forall i :: |Kept(old(loadedTiles), requested, currentResolution)| <= i < |loadedTiles| ==>
                Crop(requested, largestRegion).Some? &&
                WalkedTile(loadedTiles[i], largestRegion, tileSize, currentResolution, rendering,
                           Crop(requested, largestRegion).value)
      ensures RowMajorFrom(loadedTiles, |Kept(old(loadedTiles), requested, currentResolution)|, tileSize)
      ensures old(Settled(target, requested)) ==>
                loadedTiles == old(loadedTiles) && nextTextureId == old(nextTextureId) &&
                releasedTextures == old(releasedTextures) && currentResolution == old(currentResolution)
    {
      ResolveAndClean(target, requested);
      LoadRequested(requested);
    }

    /** UpdateData on an empty cache: every tile it leaves is the cut of a
        walked cell of the request's part of the image, at the chosen
        factor, no two share a key, and every walked cell is held. */
    method UpdateDataFromEmpty(target: real, requested: Region)
      requires Valid() && loadedTiles == []
      modifies this`currentResolution, this`loadedTiles, this`releasedTextures, this`nextTextureId
      ensures Valid()
      ensures Crop(requested, largestRegion).Some? ==>
                ExactlyWalked(loadedTiles, largestRegion, tileSize, currentResolution, rendering,
                              Crop(requested, largestRegion).value)
    {
      UpdateData(target, requested);
      assert Kept([], requested, currentResolution) == [];
    }

    /** The first half of UpdateData: pick the resolution and clean. When
        the actor was already settled for this target and region, nothing
        changes. */
    method ResolveAndClean(target: real, requested: Region)
      requires Valid()
      modifies this`currentResolution, this`loadedTiles, this`releasedTextures
      ensures Valid()
      ensures exists i :: FirstClosest(availableResolutions, target, i) && currentResolution == availableResolutions[i]
      ensures loadedTiles == Kept(old(loadedTiles), requested, currentResolution)
      ensures releasedTextures ==
                old(releasedTextures) + TextureIds(Dropped(old(loadedTiles), requested, currentResolution))
      ensures forall i :: 0 <= i < |loadedTiles| ==> StillNeeded(loadedTiles[i], requested, currentResolution)
      ensures old(Settled(target, requested)) ==>
                loadedTiles == old(loadedTiles) && releasedTextures == old(releasedTextures) &&
                currentResolution == old(currentResolution)
    {
      ghost var settled := Settled(target, requested);
      UpdateResolution(target);
      if settled {
        var i :| FirstClosest(availableResolutions, target, i) && old(currentResolution) == availableResolutions[i];
        var k :| FirstClosest(availableResolutions, target, k) && currentResolution == availableResolutions[k];
        FirstClosestUnique(availableResolutions, target, i, k);
        KeptAll(loadedTiles, requested, currentResolution);
        assert releasedTextures + TextureIds([]) == releasedTextures;
      }
      CleanLoadedTiles(requested);
      KeptFacts(old(loadedTiles), requested, currentResolution);
    }

    /** The second half of UpdateData: walk the grid over the request's
        part of the image, appending only cuts of walked cells. When that part was already covered, nothing
        changes. */
    method LoadRequested(requested: Region)
      requires Valid()
      requires forall i :: 0 <= i < |loadedTiles| ==> StillNeeded(loadedTiles[i], requested, currentResolution)
      modifies this`loadedTiles, this`nextTextureId
      ensures Valid()
      ensures old(loadedTiles) <= loadedTiles
      ensures forall i :: |old(loadedTiles)| <= i < |loadedTiles| ==>
                Crop(requested, largestRegion).Some? &&
                WalkedTile(loadedTiles[i], largestRegion, tileSize, currentResolution, rendering,
                           Crop(requested, largestRegion).value)
      ensures RowMajorFrom(loadedTiles, |old(loadedTiles)|, tileSize)
      ensures forall i :: 0 <= i < |loadedTiles| ==> StillNeeded(loadedTiles[i], requested, currentResolution)
      ensures Crop(requested, largestRegion).Some? ==>
                GridCovered(loadedTiles, largestRegion, tileSize, currentResolution, Crop(requested, largestRegion).value)
      ensures forall px, py :: Contains(requested, px, py) && Contains(largestRegion, px, py) ==>
                exists i :: 0 <= i < |loadedTiles| && Contains(loadedTiles[i].imageRegion, px, py)
      ensures (Crop(requested, largestRegion).Some? ==>
                 GridCovered(old(loadedTiles), largestRegion, tileSize, currentResolution,
                             Crop(requested, largestRegion).value)) ==>
                loadedTiles == old(loadedTiles) && nextTextureId == old(nextTextureId)
    {
      var view := Crop(requested, largestRegion);
      if view.Some? {
        LoadGrid(view.value);
        forall i | 0 <= i < |loadedTiles|
          ensures StillNeeded(loadedTiles[i], requested, currentResolution)
        {
          if i < |old(loadedTiles)| {
            assert loadedTiles[i] == old(loadedTiles)[i];
          } else {
            OverlapsWider(loadedTiles[i].imageRegion, view.value, requested);
          }
        }
      }
      forall px, py | Contains(requested, px, py) && Contains(largestRegion, px, py)
        ensures exists i :: 0 <= i < |loadedTiles| && Contains(loadedTiles[i].imageRegion, px, py)
      {
        CropContains(requested, largestRegion, px, py);
        PixelInWalkedCell(largestRegion, tileSize, view.value, px, py);
        assert CellCovered(loadedTiles, largestRegion, tileSize, currentResolution, px / tileSize, py / tileSize);
      }
    }
  }
}