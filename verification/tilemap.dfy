/** The game's tile attribute map and the decoding of its level file: a
    UWORD width, a UWORD height, then one byte per tile, rows of the map one
    after another. Tiles are stored transposed, as `[x][y]`, into the tile
    data of the game's tile buffer and into the attribute map. The file is a byte
    sequence; the tile data and the attribute map are grids of the fixed map
    size. */
module TileMap {
  import opened Bytes
  import opened Wrappers

  /** TILE_MAP_SIZE_X */
  const MapWidth: nat := 300
  /** TILE_MAP_SIZE_Y */
  const MapHeight: nat := 46
  /** Bytes before the first tile: width and height, one UWORD each. */
  const HeaderSize: nat := 4

  /** A `UBYTE [MapWidth][MapHeight]` array, indexed `[x][y]`. */
  predicate IsGrid(g: seq<seq<UByte>>)
  {
    |g| == MapWidth && forall x :: 0 <= x < MapWidth ==> |g[x]| == MapHeight
  }

  predicate InMap(x: int, y: int)
  {
    0 <= x < MapWidth && 0 <= y < MapHeight
  }

  /** tileSetAttribute: the store `g[x][y] = a`, which the C code performs
      without a bounds check; the same store writes the tile buffer's tile
      data. Only cell (x, y) changes. */
  function SetAttribute(g: seq<seq<UByte>>, x: int, y: int, a: UByte): (r: seq<seq<UByte>>)
    requires IsGrid(g) && InMap(x, y)
    ensures IsGrid(r)
    ensures r[x][y] == a
    ensures forall i, j :: InMap(i, j) && (i != x || j != y) ==> r[i][j] == g[i][j]
  {
    var column: seq<UByte> := g[x][y := a];
    g[x := column]
  }

  /** tileReset: clears every cell of the attribute map, whatever it held. */
  method TileReset(attributes: seq<seq<UByte>>) returns (g: seq<seq<UByte>>)
    requires IsGrid(attributes)
    ensures IsGrid(g)
    ensures forall x, y :: InMap(x, y) ==> g[x][y] == 0
  {
    g := attributes;
    var x := 0;
    while x < MapWidth
      invariant x <= MapWidth
      invariant IsGrid(g)
      invariant forall i, j :: InMap(i, j) && i < x ==> g[i][j] == 0
    {
      var y := 0;
      while y < MapHeight
        invariant y <= MapHeight
        invariant IsGrid(g)
        invariant forall i, j :: InMap(i, j) && (i < x || (i == x && j < y)) ==> g[i][j] == 0
      {
        g := SetAttribute(g, x, y, 0);
        y := y + 1;
      }
      x := x + 1;
    }
  }

  datatype MapError =
    /** The file ends inside the header or inside the tiles; the C code would
        keep stale header values or store uninitialised tile bytes. */
    | Truncated
    /** The rectangle the header announces leaves the map: the C code would
        store outside its arrays. */
    | Overrun
    /** The first tile store goes through a tile-buffer pointer that is
        never assigned (see `LoadMapAsWritten`). */
    | NullTileBuffer

  /** The map data after a successful load. */
  datatype Level = Level(width: UWord, height: UWord, tiles: seq<seq<UByte>>, attributes: seq<seq<UByte>>)

  /** Whether a `width` x `height` file makes the decoding loop store
      outside the map: only a non-empty rectangle larger than the map does. */
  predicate Overruns(width: int, height: int)
  {
    width > 0 && height > 0 && (width > MapWidth || height > MapHeight)
  }

  /** The check the decoding loop never makes is exactly "some tile of the
      file's rectangle lies outside the map". */
  lemma OverrunIffTileOutsideMap(width: UWord, height: UWord)
    ensures Overruns(width, height) <==>
      exists x, y :: 0 <= x < width && 0 <= y < height && !InMap(x, y)
  {
    if Overruns(width, height) {
      assert !InMap(width - 1, height - 1);
    }
  }

  /** Size of a file holding a `width` x `height` map: the header, then
      one byte per tile. */
  function FileSize(width: nat, height: nat): nat
  {
    HeaderSize + width * height
  }

  /** File offset of tile (x, y): after the header, row `y`, column `x`. */
  function TileOffset(width: nat, x: nat, y: nat): nat
  {
    HeaderSize + y * width + x
  }

  lemma TileOffsetInFile(width: nat, height: nat, x: nat, y: nat)
    requires x < width && y < height
    ensures TileOffset(width, x, y) < FileSize(width, height)
  {
    assert y * width + x < (y + 1) * width;
    assert (y + 1) * width <= height * width;
  }

  /** The byte the file holds for tile (x, y) of a `width` x `height` map. */
  function FileTile(file: seq<UByte>, width: nat, height: nat, x: nat, y: nat): UByte
    requires x < width && y < height && |file| >= FileSize(width, height)
  {
    TileOffsetInFile(width, height, x, y);
    file[TileOffset(width, x, y)]
  }

  /** One pass of the inner loop of loadMap: reads row `y` of the file and
      stores each byte as tile (x, y) of the tile data and of the attribute
      map, touching no other cell. */
  method StoreRow(file: seq<UByte>, w: UWord, h: UWord, y: nat,
                  tiles: seq<seq<UByte>>, attributes: seq<seq<UByte>>)
    returns (t: seq<seq<UByte>>, attrs: seq<seq<UByte>>)
    requires IsGrid(tiles) && IsGrid(attributes)
    requires !Overruns(w, h) && y < h && |file| >= FileSize(w, h)
    ensures IsGrid(t) && IsGrid(attrs)
    ensures forall i, j :: InMap(i, j) ==>
      t[i][j] == (if i < w && j == y then FileTile(file, w, h, i, j) else tiles[i][j])
    ensures forall i, j :: InMap(i, j) ==>
      attrs[i][j] == (if i < w && j == y then FileTile(file, w, h, i, j) else attributes[i][j])
  {
    t, attrs := tiles, attributes;
    var pos := TileOffset(w, 0, y);
    var x := 0;
    while x < w
      invariant x <= w
      invariant pos == TileOffset(w, x, y)
      invariant IsGrid(t) && IsGrid(attrs)
      invariant forall i, j :: InMap(i, j) ==>
        t[i][j] == (if i < x && j == y then FileTile(file, w, h, i, j) else tiles[i][j])
      invariant forall i, j :: InMap(i, j) ==>
        attrs[i][j] == (if i < x && j == y then FileTile(file, w, h, i, j) else attributes[i][j])
    {
      TileOffsetInFile(w, h, x, y);
      var tile := file[pos];
      t := SetAttribute(t, x, y, tile);
      attrs := SetAttribute(attrs, x, y, tile);
      pos := pos + 1;
      x := x + 1;
    }
  }

  /** The two nested loops of loadMap over a file whose header has been
      read: every tile of the `w` x `h` rectangle is stored, nothing else. */
  method StoreRows(file: seq<UByte>, w: UWord, h: UWord,
                   tiles: seq<seq<UByte>>, attributes: seq<seq<UByte>>)
    returns (t: seq<seq<UByte>>, attrs: seq<seq<UByte>>)
    requires IsGrid(tiles) && IsGrid(attributes)
    requires !Overruns(w, h) && |file| >= FileSize(w, h)
    ensures IsGrid(t) && IsGrid(attrs)
    ensures forall i, j :: InMap(i, j) ==>
      t[i][j] == (if i < w && j < h then FileTile(file, w, h, i, j) else tiles[i][j])
    ensures forall i, j :: InMap(i, j) ==>
      attrs[i][j] == (if i < w && j < h then FileTile(file, w, h, i, j) else attributes[i][j])
  {
    t, attrs := tiles, attributes;
    var y := 0;
    while y < h
      invariant y <= h
      invariant IsGrid(attrs) && IsGrid(t)
      invariant forall i, j :: InMap(i, j) ==>
        t[i][j] == (if i < w && j < y then FileTile(file, w, h, i, j) else tiles[i][j])
      invariant forall i, j :: InMap(i, j) ==>
        attrs[i][j] == (if i < w && j < y then FileTile(file, w, h, i, j) else attributes[i][j])
    {
      t, attrs := StoreRow(file, w, h, y, t, attrs);
      y := y + 1;
    }
  }

  /** The attribute map as tileReset leaves it. */
  function ZeroGrid(): (g: seq<seq<UByte>>)
    ensures IsGrid(g)
    ensures forall x, y :: InMap(x, y) ==> g[x][y] == 0
  {
    seq(MapWidth, _ => seq(MapHeight, _ => 0))
  }

  /** loadMap as written: its tile store goes through the file-static
      tile-buffer pointer, which nothing assigns, so it is null. The
      attribute map is reset first; a file with an empty rectangle stores
      nothing and leaves it cleared. For any other file the first store, of
      tile (0, 0), dereferences the null pointer whether or not the file
      holds that tile's byte, which the model reports as `NullTileBuffer`:
      nothing after it is defined. */
  function LoadMapAsWritten(file: seq<UByte>): (r: Result<seq<seq<UByte>>, MapError>)
    ensures r == Failure(Truncated) <==> |file| < HeaderSize
    ensures r.Success? <==>
      |file| >= HeaderSize && (BytesToWord(file, 0) == 0 || BytesToWord(file, 2) == 0)
    ensures r.Success? ==> IsGrid(r.value) && forall x, y :: InMap(x, y) ==> r.value[x][y] == 0
    ensures r == Failure(NullTileBuffer) <==>
      |file| >= HeaderSize && BytesToWord(file, 0) > 0 && BytesToWord(file, 2) > 0
  {
    if |file| < HeaderSize then Failure(Truncated)
    else
      var w := BytesToWord(file, 0);
      var h := BytesToWord(file, 2);
      if w == 0 || h == 0 then Success(ZeroGrid())
      else Failure(NullTileBuffer)
  }

  /** Every file that `LoadMap` decodes into a non-empty map makes the code
      as written store through the null pointer. */
  lemma LoadMapAsWrittenFailsOnEveryMap(file: seq<UByte>)
    requires |file| >= HeaderSize
    requires BytesToWord(file, 0) > 0 && BytesToWord(file, 2) > 0
    requires !Overruns(BytesToWord(file, 0), BytesToWord(file, 2))
    requires |file| >= FileSize(BytesToWord(file, 0), BytesToWord(file, 2))
    ensures LoadMapAsWritten(file) == Failure(NullTileBuffer)
  {
  }

  /** The decoding part of loadMap: the attribute map is reset, then the
      file is read row after row, each byte stored as tile (x, y) of the tile
      data of the tile buffer `gameGsCreate` creates and of the attribute
      map. Tiles outside the file's rectangle keep
      their tile data and have attribute 0. */
  method LoadMap(attributes: seq<seq<UByte>>, tiles: seq<seq<UByte>>, file: seq<UByte>)
    returns (r: Result<Level, MapError>)
    requires IsGrid(attributes) && IsGrid(tiles)
    ensures r != Failure(NullTileBuffer)
    ensures |file| < HeaderSize ==> r == Failure(Truncated)
    ensures |file| >= HeaderSize ==>
      var w := BytesToWord(file, 0);
      var h := BytesToWord(file, 2);
      && (r == Failure(Overrun) <==> Overruns(w, h))
      && (r.Success? <==> !Overruns(w, h) && |file| >= FileSize(w, h))
    ensures r.Success? ==>
      var l := r.value;
      && |file| >= FileSize(l.width, l.height)
      && l.width == BytesToWord(file, 0) && l.height == BytesToWord(file, 2)
      && IsGrid(l.tiles) && IsGrid(l.attributes)
      && (forall x, y :: InMap(x, y) ==>
            l.tiles[x][y] == (if x < l.width && y < l.height
                              then FileTile(file, l.width, l.height, x, y) else tiles[x][y]))
      && (forall x, y :: InMap(x, y) ==>
            l.attributes[x][y] == (if x < l.width && y < l.height then l.tiles[x][y] else 0))
  {
    if |file| < HeaderSize {
      return Failure(Truncated);
    }
    var w := BytesToWord(file, 0);
    var h := BytesToWord(file, 2);
    if Overruns(w, h) {
      return Failure(Overrun);
    }
    if |file| < FileSize(w, h) {
      return Failure(Truncated);
    }
    var cleared := TileReset(attributes);
    var t, attrs := StoreRows(file, w, h, tiles, cleared);
    assert forall x, y :: InMap(x, y) ==>
      attrs[x][y] == (if x < w && y < h then t[x][y] else 0);
    r := Success(Level(w, h, t, attrs));
  }
}
