/**
 * Tiled images of the Presidential Library viewer (popup.js): the greedy search for the finest
 * JPEG tile level (`findMaxJtlLevelPrLib`) and the assembly of a page from its tiles
 * (`assembleTiledImagePrLib`). The raster is modelled by which tile was drawn at which pixel
 * origin; pixels, decoding and JPEG encoding are not modelled.
 */
module Tiles {
  import opened Common
  import opened Text

  /** PRILIB_TILE_SIZE: the tile size the grid is computed with. */
  const NominalTileSize: nat := 256
  /** The first level probed; levels are probed from here down to 0. */
  const MaxJtlLevel: nat := 10

  datatype AssemblyError = MetadataUnavailable | NoUsableLevel | FirstTileFailed | TileRejected

  // ---------------------------------------------------------------------------
  // Arithmetic

  /** `Math.ceil(a / b)` for natural numbers. */
  function CeilDiv(a: nat, b: nat): (q: nat)
    requires b > 0
    ensures q * b >= a
    ensures q > 0 ==> (q - 1) * b < a
    ensures a > 0 ==> q > 0
  {
    var q := (a + b - 1) / b;
    assert a + b - 1 == q * b + (a + b - 1) % b;
    q
  }

  /** Multiplying by a natural number keeps the order. */
  lemma MulMonotone(a: int, b: int, d: nat)
    ensures a <= b ==> a * d <= b * d
  {
  }

  /** Quotient and remainder are the only ones: n == q*d + r with r < d fixes both. */
  lemma DivModUnique(n: nat, d: nat, q: nat, r: nat)
    requires d > 0 && r < d && n == q * d + r
    ensures n / d == q && n % d == r
  {
    var q', r' := n / d, n % d;
    assert n == q' * d + r';
    MulMonotone(q + 1, q', d);
    MulMonotone(q' + 1, q, d);
    assert (q + 1) * d == q * d + d;
    assert (q' + 1) * d == q' * d + d;
  }

  /** A positive factor can be cancelled. */
  lemma MulCancel(a: nat, b: nat, d: nat)
    requires d > 0 && a * d == b * d
    ensures a == b
  {
    DivModUnique(a * d, d, a, 0);
    DivModUnique(b * d, d, b, 0);
  }

  // ---------------------------------------------------------------------------
  // Probing for the finest level

  /** The answer of the background script to a `fetchTile` request; ProbeError when the request threw. */
  datatype ProbeResponse = ProbeError | ProbeReply(success: bool, contentType: Option<string>)

  /** `response.status === 'success' && response.contentType && response.contentType.startsWith('image/')` */
  predicate IsImageReply(p: ProbeResponse)
  {
    p.ProbeReply? && p.success && p.contentType.Some? && StartsWith(p.contentType.value, "image/")
  }

  /** The level the greedy search settles on: an image, and no image at any higher level. */
  predicate IsFinestLevel(probe: nat -> ProbeResponse, level: nat)
  {
    && level <= MaxJtlLevel
    && IsImageReply(probe(level))
    && forall l: nat :: level < l <= MaxJtlLevel ==> !IsImageReply(probe(l))
  }

  /** The first level of `level`, `level - 1`, ..., 0 that answers with an image. */
  function FinestFrom(probe: nat -> ProbeResponse, level: nat): (found: Option<nat>)
    ensures found.Some? ==> && found.value <= level
                            && IsImageReply(probe(found.value))
                            && forall l: nat :: found.value < l <= level ==> !IsImageReply(probe(l))
    ensures found.None? ==> forall l: nat :: l <= level ==> !IsImageReply(probe(l))
    decreases level
  {
    if IsImageReply(probe(level)) then Some(level)
    else if level == 0 then None
    else FinestFrom(probe, level - 1)
  }

  /** The outcome of the level search: the finest level, or NoUsableLevel when no level answers with an image. */
  function FinestLevel(probe: nat -> ProbeResponse): (r: Result<nat, AssemblyError>)
    ensures r.Ok? <==> exists l: nat :: l <= MaxJtlLevel && IsImageReply(probe(l))
    ensures r.Ok? ==> IsFinestLevel(probe, r.value)
    ensures r.Err? ==> r.error == NoUsableLevel
  {
    match FinestFrom(probe, MaxJtlLevel)
    case Some(l) => Ok(l)
    case None => Err(NoUsableLevel)
  }

  /** The finest level is unique. */
  lemma FinestLevelUnique(probe: nat -> ProbeResponse, a: nat, b: nat)
    requires IsFinestLevel(probe, a) && IsFinestLevel(probe, b)
    ensures a == b
  {
  }

  /**
   * `findMaxJtlLevelPrLib`: probes tile 0 at levels 10, 9, ..., 0 and returns the first level that
   * answers with an image; throws when none does. `probed` lists the levels asked, in order.
   */
  method FindMaxJtlLevel(probe: nat -> ProbeResponse) returns (r: Result<nat, AssemblyError>, probed: seq<nat>)
    ensures r == FinestLevel(probe)
    ensures r.Ok? ==> |probed| == MaxJtlLevel + 1 - r.value
    ensures r.Err? ==> |probed| == MaxJtlLevel + 1
    ensures forall k :: 0 <= k < |probed| ==> probed[k] == MaxJtlLevel - k
  {
    probed := [];
    var level: int := MaxJtlLevel;
    while level >= 0
      invariant -1 <= level <= MaxJtlLevel
      invariant |probed| == MaxJtlLevel - level
      invariant forall k :: 0 <= k < |probed| ==> probed[k] == MaxJtlLevel - k
      invariant forall l: nat :: level < l <= MaxJtlLevel ==> !IsImageReply(probe(l))
    {
      probed := probed + [level];
      if IsImageReply(probe(level)) {
        r := Ok(level);
        FinestLevelUnique(probe, level, FinestLevel(probe).value);
        return;
      }
      level := level - 1;
    }
    r := Err(NoUsableLevel);
  }

  // ---------------------------------------------------------------------------
  // The tile grid

  datatype Cell = Cell(row: nat, col: nat)
  datatype Origin = Origin(x: nat, y: nat)

  /** `cols = Math.ceil(width / PRILIB_TILE_SIZE)` */
  function GridColumns(width: nat): nat
  {
    CeilDiv(width, NominalTileSize)
  }

  /** `rows = Math.ceil(height / PRILIB_TILE_SIZE)` */
  function GridRows(height: nat): nat
  {
    CeilDiv(height, NominalTileSize)
  }

  /** Row `idx div cols` and column `idx mod cols` of tile `idx`. */
  function TileCell(idx: nat, cols: nat): Cell
    requires cols > 0
  {
    Cell(idx / cols, idx % cols)
  }

  /** The pixel origin tile `idx` is drawn at: `(col * tileWidth, row * tileHeight)`. */
  function TileOrigin(idx: nat, cols: nat, tileWidth: nat, tileHeight: nat): Origin
    requires cols > 0
  {
    var cell := TileCell(idx, cols);
    Origin(cell.col * tileWidth, cell.row * tileHeight)
  }

  /** Every index below `cols * rows` lands inside the grid. */
  lemma TileCellInGrid(idx: nat, cols: nat, rows: nat)
    requires cols > 0 && idx < cols * rows
    ensures TileCell(idx, cols).row < rows && TileCell(idx, cols).col < cols
  {
    var q := idx / cols;
    assert idx == q * cols + idx % cols;
    MulMonotone(rows, q, cols);
  }

  /** Different indices get different cells. */
  lemma TileCellInjective(i: nat, j: nat, cols: nat)
    requires cols > 0 && TileCell(i, cols) == TileCell(j, cols)
    ensures i == j
  {
    assert i == (i / cols) * cols + i % cols;
    assert j == (j / cols) * cols + j % cols;
  }

  /** Every cell of the grid is the cell of exactly the index `row * cols + col`. */
  lemma TileCellOnto(row: nat, col: nat, cols: nat, rows: nat)
    requires col < cols && row < rows
    ensures row * cols + col < cols * rows
    ensures TileCell(row * cols + col, cols) == Cell(row, col)
  {
    DivModUnique(row * cols + col, cols, row, col);
    MulMonotone(row + 1, rows, cols);
    assert (row + 1) * cols == row * cols + cols;
  }

  /** With positive tile sizes, different indices are drawn at different origins. */
  lemma TileOriginInjective(i: nat, j: nat, cols: nat, tileWidth: nat, tileHeight: nat)
    requires cols > 0 && tileWidth > 0 && tileHeight > 0
    requires TileOrigin(i, cols, tileWidth, tileHeight) == TileOrigin(j, cols, tileWidth, tileHeight)
    ensures i == j
  {
    var ci, cj := TileCell(i, cols), TileCell(j, cols);
    MulCancel(ci.col, cj.col, tileWidth);
    MulCancel(ci.row, cj.row, tileHeight);
    TileCellInjective(i, j, cols);
  }

  /** When the tiles really are 256 square, every origin of the nominal grid lies inside the raster. */
  lemma NominalOriginInsideRaster(idx: nat, width: nat, height: nat)
    requires width > 0 && height > 0
    requires idx < GridColumns(width) * GridRows(height)
    ensures var o := TileOrigin(idx, GridColumns(width), NominalTileSize, NominalTileSize);
            o.x < width && o.y < height
  {
    var cols, rows := GridColumns(width), GridRows(height);
    TileCellInGrid(idx, cols, rows);
    var cell := TileCell(idx, cols);
    assert cell.col * NominalTileSize <= (cols - 1) * NominalTileSize;
    assert cell.row * NominalTileSize <= (rows - 1) * NominalTileSize;
  }

  // ---------------------------------------------------------------------------
  // The raster

  /** The canvas the tiles are drawn on: which tile was drawn last at which pixel origin. */
  class Canvas {
    const width: nat
    const height: nat
    var drawn: map<Origin, nat>

    constructor (width: nat, height: nat)
      ensures this.width == width && this.height == height && drawn == map[]
    {
      this.width := width;
      this.height := height;
      drawn := map[];
    }

    /** `ctx.drawImage(tile, x, y)` */
    method DrawImage(tile: nat, x: nat, y: nat)
      modifies this
      ensures drawn == old(drawn)[Origin(x, y) := tile]
    {
      drawn := drawn[Origin(x, y) := tile];
    }
  }

  /**
   * A tile request: the message to the background script was rejected (`lastError`, an empty
   * answer or `status: 'error'`), it was answered without success or data, the data did not
   * decode as an image, or it decoded at a size.
   */
  datatype TileFetch = FetchRejected | FetchFailed | DecodeFailed | Decoded(width: nat, height: nat)
  datatype Dimensions = Dimensions(width: nat, height: nat)

  /**
   * What the image server answers for one document: `info.json` (None when the request
   * failed), the probe of tile 0 per level, and each tile per (level, index).
   */
  datatype ImageSource = ImageSource(info: Option<Dimensions>, probe: nat -> ProbeResponse, tile: (nat, nat) -> TileFetch)

  /** The assembled page: the raster size and the tile drawn at each origin. */
  datatype Raster = Raster(width: nat, height: nat, tiles: map<Origin, nat>)

  /** `fetchImageMetadataPrLib` throws unless both width and height are present and non-zero. */
  predicate ValidInfo(info: Option<Dimensions>)
  {
    info.Some? && info.value.width > 0 && info.value.height > 0
  }

  /**
   * The drawing after tiles 0..n-1: tile 0 at (0,0), then each later tile that decoded at its
   * origin, in index order (a later drawing at the same origin replaces an earlier one).
   */
  function Placements(tile: (nat, nat) -> TileFetch, level: nat, cols: nat, tileWidth: nat, tileHeight: nat, n: nat)
    : map<Origin, nat>
    requires cols > 0
    decreases n
  {
    if n <= 1 then map[Origin(0, 0) := 0]
    else
      var earlier := Placements(tile, level, cols, tileWidth, tileHeight, n - 1);
      if tile(level, n - 1).Decoded? then earlier[TileOrigin(n - 1, cols, tileWidth, tileHeight) := n - 1]
      else earlier
  }

  /**
   * Every drawing is of tile 0 or of a decoded tile below n, and sits at that tile's origin;
   * (0,0) always holds a drawing.
   */
  lemma {:induction false} PlacementsWellFormed(tile: (nat, nat) -> TileFetch, level: nat, cols: nat, tileWidth: nat, tileHeight: nat, n: nat)
    requires cols > 0
    ensures var placed := Placements(tile, level, cols, tileWidth, tileHeight, n);
            && Origin(0, 0) in placed
            && forall o :: o in placed ==>
                 && (placed[o] == 0 || placed[o] < n)
                 && o == TileOrigin(placed[o], cols, tileWidth, tileHeight)
                 && (placed[o] == 0 || tile(level, placed[o]).Decoded?)
    decreases n
  {
    if n > 1 {
      PlacementsWellFormed(tile, level, cols, tileWidth, tileHeight, n - 1);
    } else {
      assert TileOrigin(0, cols, tileWidth, tileHeight) == Origin(0, 0);
    }
  }

  /** A decoded tile is found at its origin in the final drawing: no other tile overwrites it. */
  lemma {:induction false} DecodedTileIsPlaced(tile: (nat, nat) -> TileFetch, level: nat, cols: nat, tileWidth: nat, tileHeight: nat, n: nat, idx: nat)
    requires cols > 0 && tileWidth > 0 && tileHeight > 0
    requires 1 <= idx < n && tile(level, idx).Decoded?
    ensures var placed := Placements(tile, level, cols, tileWidth, tileHeight, n);
            var o := TileOrigin(idx, cols, tileWidth, tileHeight);
            o in placed && placed[o] == idx
    decreases n
  {
    if idx < n - 1 {
      DecodedTileIsPlaced(tile, level, cols, tileWidth, tileHeight, n - 1, idx);
      if tile(level, n - 1).Decoded?
         && TileOrigin(n - 1, cols, tileWidth, tileHeight) == TileOrigin(idx, cols, tileWidth, tileHeight) {
        TileOriginInjective(n - 1, idx, cols, tileWidth, tileHeight);
      }
    }
  }

  /** With positive tile sizes tile 0 stays at (0,0). */
  lemma FirstTileStaysAtOrigin(tile: (nat, nat) -> TileFetch, level: nat, cols: nat, tileWidth: nat, tileHeight: nat, n: nat)
    requires cols > 0 && tileWidth > 0 && tileHeight > 0
    ensures var placed := Placements(tile, level, cols, tileWidth, tileHeight, n);
            Origin(0, 0) in placed && placed[Origin(0, 0)] == 0
  {
    var placed := Placements(tile, level, cols, tileWidth, tileHeight, n);
    PlacementsWellFormed(tile, level, cols, tileWidth, tileHeight, n);
    var i := placed[Origin(0, 0)];
    assert TileOrigin(i, cols, tileWidth, tileHeight) == TileOrigin(0, cols, tileWidth, tileHeight);
    TileOriginInjective(i, 0, cols, tileWidth, tileHeight);
  }

  /** With 256-pixel tiles every drawing of the nominal grid starts inside the `width x height` raster. */
  lemma NominalPlacementsInsideRaster(tile: (nat, nat) -> TileFetch, level: nat, width: nat, height: nat)
    requires width > 0 && height > 0
    ensures var cols := GridColumns(width);
            var placed := Placements(tile, level, cols, NominalTileSize, NominalTileSize, cols * GridRows(height));
            forall o :: o in placed ==> o.x < width && o.y < height
  {
    var cols := GridColumns(width);
    var total := cols * GridRows(height);
    var placed := Placements(tile, level, cols, NominalTileSize, NominalTileSize, total);
    PlacementsWellFormed(tile, level, cols, NominalTileSize, NominalTileSize, total);
    MulMonotone(1, GridRows(height), cols);
    forall o | o in placed ensures o.x < width && o.y < height {
      NominalOriginInsideRaster(placed[o], width, height);
    }
  }

  /** Whether the message for one of the tiles 1..n-1 was rejected. */
  function AnyRejected(tile: (nat, nat) -> TileFetch, level: nat, n: nat): (b: bool)
    ensures b <==> exists idx: nat :: 1 <= idx < n && tile(level, idx).FetchRejected?
    decreases n
  {
    if n <= 1 then false
    else AnyRejected(tile, level, n - 1) || tile(level, n - 1).FetchRejected?
  }

  /**
   * What `assembleTiledImagePrLib` produces from what the server answers: the error it throws,
   * or the raster holding tile 0 at (0,0) and every other decoded tile of the nominal grid at
   * its cell's origin, spaced by the size of tile 0. A rejected message for a later tile
   * rejects the `Promise.all` over the tiles and so the whole assembly.
   */
  function Assemble(source: ImageSource): (r: Result<Raster, AssemblyError>)
    ensures r == Err(MetadataUnavailable) <==> !ValidInfo(source.info)
    ensures ValidInfo(source.info) ==>
              (r == Err(NoUsableLevel) <==> forall l: nat :: l <= MaxJtlLevel ==> !IsImageReply(source.probe(l)))
    ensures r == Err(FirstTileFailed) <==>
              ValidInfo(source.info) && exists l: nat :: IsFinestLevel(source.probe, l) && !source.tile(l, 0).Decoded?
    ensures r == Err(TileRejected) <==>
              && ValidInfo(source.info)
              && exists l: nat :: && IsFinestLevel(source.probe, l) && source.tile(l, 0).Decoded?
                                  && exists idx: nat :: && 1 <= idx < TotalTiles(source.info.value)
                                                        && source.tile(l, idx).FetchRejected?
    ensures r.Ok? ==>
              && ValidInfo(source.info)
              && r.value.width == source.info.value.width
              && r.value.height == source.info.value.height
              && exists l: nat :: && IsFinestLevel(source.probe, l) && source.tile(l, 0).Decoded?
                                  && (forall idx: nat :: 1 <= idx < TotalTiles(source.info.value)
                                                         ==> !source.tile(l, idx).FetchRejected?)
                                  && r.value.tiles == Placements(source.tile, l, GridColumns(source.info.value.width),
                                                                 source.tile(l, 0).width, source.tile(l, 0).height,
                                                                 TotalTiles(source.info.value))
  {
    if !ValidInfo(source.info) then Err(MetadataUnavailable)
    else
      var width, height := source.info.value.width, source.info.value.height;
      match FinestLevel(source.probe)
      case Err(e) => Err(e)
      case Ok(level) =>
        var first := source.tile(level, 0);
        if !first.Decoded? then Err(FirstTileFailed)
        else if AnyRejected(source.tile, level, TotalTiles(source.info.value)) then Err(TileRejected)
        else
          var cols := GridColumns(width);
          Ok(Raster(width, height, Placements(source.tile, level, cols, first.width, first.height, cols * GridRows(height))))
  }

  /** `totalTiles = cols * rows` of the nominal grid. */
  function TotalTiles(size: Dimensions): nat
  {
    GridColumns(size.width) * GridRows(size.height)
  }

  /**
   * `assembleTiledImagePrLib`: reads the image size, finds the finest level, fetches tile 0
   * (fatal when it fails) to learn the actual tile size, draws it at (0,0), then draws every
   * other tile of the nominal grid that fetches and decodes at its cell's origin, skipping
   * the ones answered without data or that do not decode; a rejected message for any of them
   * fails the assembly once all tiles are done.
   */
  method AssembleTiledImage(source: ImageSource) returns (r: Result<Raster, AssemblyError>)
    ensures r == Assemble(source)
  {
    if !ValidInfo(source.info) {
      return Err(MetadataUnavailable);
    }
    var width, height := source.info.value.width, source.info.value.height;
    var found, _ := FindMaxJtlLevel(source.probe);
    if found.Err? {
      return Err(found.error);
    }
    var level := found.value;
    var cols := GridColumns(width);
    var rows := GridRows(height);
    var totalTiles := cols * rows;
    var canvas := new Canvas(width, height);
    var first := source.tile(level, 0);
    if !first.Decoded? {
      return Err(FirstTileFailed);
    }
    var actualTileWidth, actualTileHeight := first.width, first.height;
    canvas.DrawImage(0, 0, 0);
    var rejected := false;
    var idx := 1;
    while idx < totalTiles
      invariant 1 <= idx
      invariant idx <= totalTiles || totalTiles == 0
      invariant canvas.drawn == Placements(source.tile, level, cols, actualTileWidth, actualTileHeight, idx)
      invariant rejected == AnyRejected(source.tile, level, idx)
    {
      var fetched := source.tile(level, idx);
      if fetched.FetchRejected? {
        rejected := true;
      } else if fetched.Decoded? {
        var origin := TileOrigin(idx, cols, actualTileWidth, actualTileHeight);
        canvas.DrawImage(idx, origin.x, origin.y);
      }
      idx := idx + 1;
    }
    if rejected {
      return Err(TileRejected);
    }
    r := Ok(Raster(canvas.width, canvas.height, canvas.drawn));
  }

  // ---------------------------------------------------------------------------
  // The grid computed from the nominal size versus the actual tile size

  /** Pixel (x, y) lies under one of the drawn tiles of the given size. */
  ghost predicate Covered(tiles: map<Origin, nat>, tileWidth: nat, tileHeight: nat, x: nat, y: nat)
  {
    exists o :: o in tiles && o.x <= x < o.x + tileWidth && o.y <= y < o.y + tileHeight
  }

  /**
   * As written: when the tile server's actual tiles are narrower than 256 and the nominal
   * columns of them fall short of the width, the pixel column just right of the last drawn
   * column stays blank, however many tiles succeed.
   */
  lemma NominalGridLeavesGap(tile: (nat, nat) -> TileFetch, level: nat, width: nat, height: nat, tileWidth: nat, tileHeight: nat)
    requires width > 0 && height > 0 && tileWidth > 0
    requires GridColumns(width) * tileWidth < width
    ensures var cols := GridColumns(width);
            var placed := Placements(tile, level, cols, tileWidth, tileHeight, cols * GridRows(height));
            !Covered(placed, tileWidth, tileHeight, cols * tileWidth, 0)
  {
    var cols := GridColumns(width);
    var placed := Placements(tile, level, cols, tileWidth, tileHeight, cols * GridRows(height));
    PlacementsWellFormed(tile, level, cols, tileWidth, tileHeight, cols * GridRows(height));
    forall o | o in placed ensures o.x + tileWidth <= cols * tileWidth {
      var cell := TileCell(placed[o], cols);
      assert o.x == cell.col * tileWidth;
      ColumnEndsWithinGrid(cell.col, cols, tileWidth);
    }
  }

  /** A column below `cols` ends at or before `cols * tileWidth`. */
  lemma ColumnEndsWithinGrid(col: nat, cols: nat, tileWidth: nat)
    requires col < cols
    ensures col * tileWidth + tileWidth <= cols * tileWidth
  {
    MulMonotone(col + 1, cols, tileWidth);
    assert (col + 1) * tileWidth == col * tileWidth + tileWidth;
  }

  /** A concrete instance: a 512 x 256 page served in 128-pixel tiles is drawn only on its left half. */
  lemma NominalGridGapExample(tile: (nat, nat) -> TileFetch, level: nat)
    ensures !Covered(Placements(tile, level, GridColumns(512), 128, 128, GridColumns(512) * GridRows(256)), 128, 128, 256, 0)
  {
    assert GridColumns(512) == 2;
    NominalGridLeavesGap(tile, level, 512, 256, 128, 128);
  }

  /** Corrected grid: the columns and rows computed from the actual tile size. */
  function CoveringColumns(width: nat, tileWidth: nat): nat
    requires tileWidth > 0
  {
    CeilDiv(width, tileWidth)
  }

  /** A coordinate below `cells * tileSize` falls in a cell below `cells`. */
  lemma CellBelowGridEnd(x: nat, cells: nat, tileSize: nat)
    requires tileSize > 0 && x < cells * tileSize
    ensures x / tileSize < cells
  {
    PixelInOwnCell(x, tileSize);
    MulMonotone(cells, x / tileSize, tileSize);
  }

  /** The pixel coordinates `c * tileSize` up to `c * tileSize + tileSize - 1` are those in cell c. */
  lemma PixelInCell(x: nat, c: nat, tileSize: nat)
    requires tileSize > 0 && c * tileSize <= x < c * tileSize + tileSize
    ensures x / tileSize == c
  {
    DivModUnique(x, tileSize, c, x - c * tileSize);
  }

  /**
   * With positive tile sizes, drawn tiles do not overlap: the only drawing that can lie over a
   * pixel is the one at the origin of the pixel's cell.
   */
  lemma DrawingsDoNotOverlap(tile: (nat, nat) -> TileFetch, level: nat, cols: nat, tileWidth: nat, tileHeight: nat,
                             n: nat, o: Origin, x: nat, y: nat)
    requires cols > 0 && tileWidth > 0 && tileHeight > 0
    requires o in Placements(tile, level, cols, tileWidth, tileHeight, n)
    requires o.x <= x < o.x + tileWidth && o.y <= y < o.y + tileHeight
    ensures o == Origin((x / tileWidth) * tileWidth, (y / tileHeight) * tileHeight)
  {
    var placed := Placements(tile, level, cols, tileWidth, tileHeight, n);
    PlacementsWellFormed(tile, level, cols, tileWidth, tileHeight, n);
    var cell := TileCell(placed[o], cols);
    assert o == Origin(cell.col * tileWidth, cell.row * tileHeight);
    PixelInCell(x, cell.col, tileWidth);
    PixelInCell(y, cell.row, tileHeight);
  }

  /** With the corrected grid and every tile decoded, each raster pixel lies under a drawn tile. */
  lemma CoveringGridCoversRaster(tile: (nat, nat) -> TileFetch, level: nat, width: nat, height: nat,
                                 tileWidth: nat, tileHeight: nat, x: nat, y: nat)
    requires width > 0 && height > 0 && tileWidth > 0 && tileHeight > 0
    requires forall idx: nat :: tile(level, idx).Decoded?
    requires x < width && y < height
    ensures var cols := CoveringColumns(width, tileWidth);
            Covered(Placements(tile, level, cols, tileWidth, tileHeight, cols * CeilDiv(height, tileHeight)),
                    tileWidth, tileHeight, x, y)
  {
    GridCoversRaster(tile, level, CoveringColumns(width, tileWidth), CeilDiv(height, tileHeight),
                     width, height, tileWidth, tileHeight, x, y);
  }

  /**
   * Any grid whose columns and rows of tiles reach the raster's width and height covers it
   * when every tile decodes.
   */
  lemma GridCoversRaster(tile: (nat, nat) -> TileFetch, level: nat, cols: nat, rows: nat, width: nat, height: nat,
                         tileWidth: nat, tileHeight: nat, x: nat, y: nat)
    requires tileWidth > 0 && tileHeight > 0
    requires width <= cols * tileWidth && height <= rows * tileHeight
    requires forall idx: nat :: tile(level, idx).Decoded?
    requires x < width && y < height
    ensures cols > 0
    ensures Covered(Placements(tile, level, cols, tileWidth, tileHeight, cols * rows), tileWidth, tileHeight, x, y)
  {
    var col, row := x / tileWidth, y / tileHeight;
    CellBelowGridEnd(x, cols, tileWidth);
    CellBelowGridEnd(y, rows, tileHeight);
    assert tile(level, row * cols + col).Decoded? by { MulMonotone(0, row, cols); }
    PixelUnderItsCell(tile, level, cols, rows, tileWidth, tileHeight, x, y);
  }

  /** A pixel whose cell is in the grid and whose tile decodes lies under that tile's drawing. */
  lemma PixelUnderItsCell(tile: (nat, nat) -> TileFetch, level: nat, cols: nat, rows: nat, tileWidth: nat, tileHeight: nat,
                          x: nat, y: nat)
    requires tileWidth > 0 && tileHeight > 0
    requires x / tileWidth < cols && y / tileHeight < rows
    requires tile(level, (y / tileHeight) * cols + x / tileWidth).Decoded?
    ensures Covered(Placements(tile, level, cols, tileWidth, tileHeight, cols * rows), tileWidth, tileHeight, x, y)
  {
    var col, row := x / tileWidth, y / tileHeight;
    CellIsPlaced(tile, level, cols, rows, tileWidth, tileHeight, row, col);
    PixelInOwnCell(x, tileWidth);
    PixelInOwnCell(y, tileHeight);
    var placed := Placements(tile, level, cols, tileWidth, tileHeight, cols * rows);
    var target := Origin(col * tileWidth, row * tileHeight);
    assert target in placed && target.x <= x < target.x + tileWidth && target.y <= y < target.y + tileHeight;
  }

  /** A coordinate lies within the cell its quotient names. */
  lemma PixelInOwnCell(x: nat, tileSize: nat)
    requires tileSize > 0
    ensures (x / tileSize) * tileSize <= x < (x / tileSize) * tileSize + tileSize
  {
    assert x == (x / tileSize) * tileSize + x % tileSize;
  }

  /** The cell (row, col) of a grid is drawn when its tile decodes. */
  lemma CellIsPlaced(tile: (nat, nat) -> TileFetch, level: nat, cols: nat, rows: nat, tileWidth: nat, tileHeight: nat,
                     row: nat, col: nat)
    requires tileWidth > 0 && tileHeight > 0
    requires row < rows && col < cols
    requires tile(level, row * cols + col).Decoded?
    ensures Origin(col * tileWidth, row * tileHeight) in Placements(tile, level, cols, tileWidth, tileHeight, cols * rows)
  {
    TileCellOnto(row, col, cols, rows);
    var idx := row * cols + col;
    assert TileOrigin(idx, cols, tileWidth, tileHeight) == Origin(col * tileWidth, row * tileHeight);
    if idx == 0 {
      FirstTileStaysAtOrigin(tile, level, cols, tileWidth, tileHeight, cols * rows);
    } else {
      DecodedTileIsPlaced(tile, level, cols, tileWidth, tileHeight, cols * rows, idx);
    }
  }
}
