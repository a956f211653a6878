# ACE scrolling test: palette, tile map and bob manager in Dafny

A model of the sequential core of `amiga-test-ace-scrolling`, an Amiga game
test built on the ACE engine, with proofs about it. It has three parts.

- **Palette utilities** (`palette.dfy`, module `Palette`).
  - `paletteColorDim` scales each 4-bit channel of a 0x0RGB colour by
    `level/15`. `paletteDim` applies it to the first `count` entries of a
    palette.
  - `paletteSave` and `paletteLoadFromFd` use a small file format: one count
    byte, then `count` UWORD colours. The load reads at most a caller-given
    maximum.
  - The bit-depth loop of `paletteDump` is modelled, and so is its swatch
    loop, which has a bug (see Findings).
- **Tile map** (`tilemap.dfy`, module `TileMap`).
  - `tileReset` and `tileSetAttribute` work on the fixed 300 x 46 attribute map.
  - The decoding loop of `loadMap` reads a UWORD width, a UWORD height, then
    one byte per tile, row by row. Each byte goes to the tile data of the
    tile buffer and to the attribute map at `[x][y]`. As written, the tile
    store goes through a pointer that is never assigned (see Findings);
    `LoadMap` models the intended store into the buffer `gameGsCreate`
    creates.
- **Bob manager** (`bob.dfy`, module `BobManager`; `bob_protocol.dfy`, module
  `BobProtocol`). Bobs are blitter-drawn sprites. The manager's header
  documents a protocol, and the model follows it.
  - Registration: `bobManagerCreate`, then `bobInit` calls, then
    `bobReallocateBgBuffers`.
  - Each frame: `bobBegin`, then `bobPush` and `bobProcessNext` calls, then
    `bobPushingDone`, more `bobProcessNext` calls, and `bobEnd`.
  - The model state is the phase, the registered bobs, the push queue, the
    count of stored backgrounds, the count of drawn bobs, the undraw records,
    and the blitter operations (restore, save, draw) submitted in the current
    frame.
  - `BobProtocol.Step` runs one call. It rejects a call the protocol forbids
    and names the rule that was broken.

Shared pieces: `bytes.dfy` defines the C `UBYTE`/`UWORD` types and the
big-endian byte layout of a UWORD on the 68000. `wrappers.dfy` defines
`Option` and `Result`.

Inputs and effects outside the model:

- A file's contents are a byte sequence. A null file handle is `None`.
- Whether the blitter is idle is an input to `Push` and `ProcessNext`.
- The C functions update arrays in place. Here each one returns the new array
  or manager state instead.

The frame states follow the header. It only distinguishes the time before
`bobPushingDone` from the time after it, so the model has four phases:
`Registering`, `Idle` (between frames), `Pushing` and `Drawing`. A separate
"ended" state would behave exactly like `Idle`, so the model has none.

## Model

| member | source | states |
|---|---|---|
| Palette.ColorDim | deps/ace/src/ace/utils/palette.c:44-58 | The result is below 0x1000. Each output channel is `((c * level) / 15) & 0xF` of the same input channel `c`, and of no other channel. At level 15 the result is `color & 0xFFF`, so every 12-bit colour is unchanged. At level 0 it is 0 (black). For levels 0..15 no channel of the result is brighter than the same channel of the input. |
| Palette.DimChannelBounds | deps/ace/src/ace/utils/palette.c:52-54 | At level 15 a channel keeps its value. At level 0 it becomes 0. At any level up to 15 it does not grow. |
| Palette.ColorDimIgnoresHighNibble | deps/ace/src/ace/utils/palette.c:47-49 | Two colours that agree on their low 12 bits dim to the same colour: bits 12-15 of the input do not affect the result. |
| Palette.Dim | deps/ace/src/ace/utils/palette.c:36-42 | `dest[c]` becomes the dimmed `source[c]` for every `c < count`. Every other entry of `dest` stays as it was. |
| Palette.ColorsRead | deps/ace/src/ace/utils/palette.c:26-28 | A load reads as many colours as the smaller of the stored count and the caller's maximum. |
| Palette.LoadFromFd | deps/ace/src/ace/utils/palette.c:14-34 | A null file leaves the palette unchanged. Otherwise the load succeeds exactly when the file holds the count byte and the colours to read. Entry `i` below the read count is then the UWORD at byte `1 + 2i`. Every later entry is unchanged. |
| Palette.Save | deps/ace/src/ace/utils/palette.c:77-96 | Saving `count` colours writes `1 + 2 * count` bytes: the count byte, then colour `i` as the UWORD at byte `1 + 2i`. |
| Palette.SaveLoadRoundTrip | deps/ace/src/ace/utils/palette.c:27-30 | Loading the bytes saved for `n` colours with maximum `m` gives the saved first `min(n, m)` colours, followed by the rest of the target palette unchanged. |
| Palette.SaveLoadRoundTripFull | deps/ace/src/ace/utils/palette.c:27-30 | With a maximum of at least `n`, loading a saved palette gives back exactly the palette that was saved. |
| Palette.LoadIgnoresTrailingBytes | deps/ace/src/ace/utils/palette.c:27-30 | Bytes after the colours the load needs do not affect its result. |
| Palette.LastColor | deps/ace/src/ace/utils/palette.c:61 | `ubColorCnt - 1` as a UBYTE: `count - 1`, and 255 for a count of 0. |
| Palette.BitLengthIsLeast | deps/ace/src/ace/utils/palette.c:63-66 | The number of right shifts that bring `n` to 0 is the least `b` with `n < 2^b`. |
| Palette.BitDepth | deps/ace/src/ace/utils/palette.c:60-66 | The loop yields the least `bpp` with `count - 1 < 2^bpp`. A count of 0 wraps around and gives 8. |
| Palette.SwatchLoopAsWrittenDrawsOneTooMany | deps/ace/src/ace/utils/palette.c:70-72 | For `count < 255` the loop as written draws `count + 1` swatches, with indices `0..count`. |
| Palette.SwatchLoopAsWrittenNeverExits | deps/ace/src/ace/utils/palette.c:70 | For `count == 255` the loop as written is still running after any number of iterations. |
| Palette.SwatchIndices | deps/ace/src/ace/utils/palette.c:70-72 | The corrected loop draws each colour index below `count` exactly once, in order. |
| Bytes.WordsToBytesAt | deps/ace/src/ace/utils/palette.c:91 | In the bytes written for a UWORD array, word `i` is at bytes `2i` and `2i + 1`. |
| TileMap.TileReset | src/game.c:39-45 | After the reset, every cell of the 300 x 46 attribute map is 0, whatever it held before. |
| TileMap.SetAttribute | src/game.c:47-49 | Cell (x, y) holds the new attribute. Every other cell is unchanged. Callers must pass x < 300 and y < 46, because the C code does not check. |
| TileMap.OverrunIffTileOutsideMap | src/game.c:62-67 | Some tile of the file's width x height rectangle falls outside the 300 x 46 map exactly when the rectangle is non-empty and wider than 300 or taller than 46. |
| TileMap.StoreRow | src/game.c:63-68 | One pass of the inner loop stores file row `y` into tile data and attribute map at `[x][y]`, for x < width. No other cell changes. |
| TileMap.StoreRows | src/game.c:62-69 | The nested loops store the file's tile (x, y) at `[x][y]` for every x < width and y < height. No other cell changes. |
| TileMap.LoadMapAsWritten | src/game.c:51-69 | As written: a file shorter than the header is truncated. A file whose rectangle is empty loads nothing and leaves the attribute map all 0. Any file with a complete header and a non-empty rectangle stores through the null tile-buffer pointer, whether or not tile bytes follow: the C code detects no truncation there. |
| TileMap.LoadMapAsWrittenFailsOnEveryMap | src/game.c:62-67 | Every file that `LoadMap` decodes into a non-empty map makes the code as written store through the null pointer. |
| TileMap.LoadMap | src/game.c:51-69 | Decoding fails as truncated if the file is shorter than its header, or if the rectangle fits the map and the file is shorter than its tiles; it never reports the null-pointer store. It fails as overrun exactly when the header's rectangle leaves the map. Otherwise it succeeds. On success: width and height come from the header; each tile in the rectangle is the file's byte for it; the attribute map agrees with the tile data there and is 0 elsewhere; tile data outside the rectangle is unchanged. |
| BobManager.Create | deps/ace/include/ace/managers/bob.h:77-94 | A new manager has no bobs, has registration open, has submitted no blits, and satisfies the manager invariant. |
| BobManager.BobInit | deps/ace/include/ace/managers/bob.h:105-120 | The new bob gets the next index. Its initial width and height are also recorded as its capacity. Earlier bobs and the blit trace are unchanged. |
| BobManager.ReallocateBgBuffers | deps/ace/include/ace/managers/bob.h:122-129 | Registration closes, no frame is open, and the bobs are unchanged. |
| BobManager.SetFrame | deps/ace/include/ace/managers/bob.h:131-141 | Only the frame and mask references of the bob change. The bob must not be queued and undrawn. |
| BobManager.SetWidth | deps/ace/include/ace/managers/bob.h:143-153 | Only the width of the bob changes. The new width must not exceed the width given to `bobInit`. |
| BobManager.SetHeight | deps/ace/include/ace/managers/bob.h:155-165 | Only the height of the bob changes. The new height must not exceed the height given to `bobInit`. |
| BobManager.SetPos | deps/ace/include/ace/managers/bob.h:54-58 | The client's write to `sPos` changes only the position of that bob. |
| BobManager.Begin | deps/ace/include/ace/managers/bob.h:179-186 | The frame's blits are the restores of all undraw records, in the order they were recorded. Afterwards the queue and the records are empty, and pushing is open. |
| BobManager.ProcessNext | deps/ace/include/ace/managers/bob.h:204-216 | Returns true exactly when a background remains to be saved, or, after `bobPushingDone`, a bob remains to be drawn. An idle blitter gets exactly one operation. A busy blitter, or no work left, changes nothing. A draw happens only after pushing is done and every background is saved. |
| BobManager.Push | deps/ace/include/ace/managers/bob.h:188-202 | The bob is appended to the queue at its current position, also when it was pushed before in the same frame. The blit trace gains exactly one background save, of the next unsaved queued bob, when the blitter is idle, and nothing otherwise; the restores and undraw records are unchanged. The bob is then busy, so the client may not modify it. |
| BobManager.PushingDone | deps/ace/include/ace/managers/bob.h:218-227 | Moves to the drawing phase and changes nothing else. |
| BobManager.Drain | deps/ace/include/ace/managers/bob.h:229-233 | Calling `ProcessNext` until no work is left saves every queued background and draws every queued bob. |
| BobManager.End | deps/ace/include/ace/managers/bob.h:229-233 | Accepted while pushing or drawing; while pushing it first closes the queue. After the frame, the blits are the restores, then a save for every queued bob, then a draw for every queued bob, both in push order. The undraw records are the drawn bobs that need undraw. |
| BobManager.DiscardUndraw | deps/ace/include/ace/managers/bob.h:235 | Between frames, the undraw records are cleared and nothing else changes. |
| BobManager.OperationsFollowPushOrder | deps/ace/include/ace/managers/bob.h:192 | In every reachable state, saves and draws so far happen in exactly push order, and the restores are those of the frame's start. |
| BobManager.NoDrawBeforePushingDone | deps/ace/include/ace/managers/bob.h:207-209 | Before `bobPushingDone`, no bob has been drawn. |
| BobManager.BackgroundsStoredBeforeAnyDraw | deps/ace/include/ace/managers/bob.h:205-212 | Once a draw has happened, every later operation is a draw, and every pushed bob has had its background saved. |
| BobManager.EndCompletesFrame | deps/ace/include/ace/managers/bob.h:229-233 | After `bobEnd`, called while pushing or drawing, every pushed bob has been saved and drawn in push order. A further `bobProcessNext` reports no work and changes nothing. |
| BobProtocol.ClientWriteSparesBusyBobs | deps/ace/include/ace/managers/bob.h:194-195 | A client write to a bob that is pushed and not drawn yet is rejected. An accepted client write to any other bob leaves the busy bob exactly as it was. |
| BobProtocol.Step | deps/ace/include/ace/managers/bob.h:18-52 | A call is rejected exactly when it breaks the documented workflow, and the error names the broken rule. Every accepted call keeps the manager invariant. |
| BobProtocol.Run | deps/ace/include/ace/managers/bob.h:18-52 | Every sequence of accepted calls keeps the manager invariant. |
| BobProtocol.CapacityAlwaysHolds | deps/ace/include/ace/managers/bob.h:146-162 | From `bobManagerCreate` through any accepted calls, every bob stays within the size given to `bobInit`. |
| BobProtocol.StepKeepsRegistrationClosed | deps/ace/include/ace/managers/bob.h:127 | Once registration has closed, no accepted call reopens it, and no `bobInit` is accepted. |
| BobProtocol.RegistrationStaysClosed | deps/ace/include/ace/managers/bob.h:127 | After `bobReallocateBgBuffers`, registration stays closed through any accepted calls, and none of them is a `bobInit`. |
| BobProtocol.PushingStaysClosed | deps/ace/include/ace/managers/bob.h:222-223 | From a drawing or between-frames state, no run of accepted calls without `bobBegin` reopens pushing. |
| BobProtocol.PushRejectedAfterPushingDone | deps/ace/include/ace/managers/bob.h:222-223 | After `bobPushingDone` and any accepted calls other than `bobBegin` (`bobProcessNext`, `bobEnd`, client writes, `bobDiscardUndraw`), `bobPush` is rejected. |
| BobProtocol.ClientWritesKeepUndrawRecords | deps/ace/include/ace/managers/bob.h:54-58 | Client writes between frames leave the phase and the undraw records unchanged. |
| BobProtocol.BeginAfterClientWrites | deps/ace/include/ace/managers/bob.h:179-186 | `bobBegin` after client writes restores the undraw records from before those writes. |
| BobProtocol.BeginRestoresLastFramePositions | deps/ace/include/ace/managers/bob.h:188-191 | After `bobEnd`, any client writes, then `bobBegin`, the restores are exactly the drawn bobs that need undraw. Each is restored at the position it was drawn at, whether or not it is pushed again. |

## Left out

- File I/O (`fileOpen`, `fileRead`, `fileClose`, `diskFileOpen`): a file is a byte sequence. Other callers of these functions are not part of this model.
- `paletteLoadFromPath`: it only opens the file and calls `paletteLoadFromFd`.
- `paletteSave`'s failure to open a file: `Palette.Save` returns the bytes that would be written.
- Logging (`logBlockBegin`, `logWrite`, `logBlockEnd`) everywhere.
- In `paletteDump`: `bitmapCreate`, `blitRect`, `bitmapSaveBmp`, `bitmapDestroy`. Only the bit-depth loop and the index sequence of the swatch loop are kept.
- In `loadMap`: `systemUse`, `systemUnuse`, `cameraReset` and the fixed file name. The rest of `src/game.c` (view, viewport, tile buffer and camera setup, the game loop) and `src/main.c` are not part of this model.
- Palette.LoadFromFd: a file shorter than its count byte and announced colours is a `Truncated` error. In the C code a missing count byte leaves `ubPaletteLength` uninitialised, and missing colours leave the remaining palette entries with their old values after a partial read.
- TileMap.LoadMap: a short file is a `Truncated` error, for the same reason. A header rectangle that leaves the 300 x 46 map is an `Overrun` error. The C code writes outside its arrays in that case.
- TileMap.LoadMap: stores into the tile data of the tile buffer `gameGsCreate` creates (`g_pMainBuffer`), not through `s_pMainBuffer`, which the C code dereferences while it is still null (see Findings).
- TileMap.StoreRow: the same; its tile-data half is the intended store, not the null-pointer store of game.c:66.
- TileMap.StoreRows: the same; its tile-data half is the intended store, not the null-pointer store of game.c:66.
- TileMap.LoadMap: the tile buffer's tile data is modelled as a grid of the same 300 x 46 size. Its real size is set by code that is not part of this model.
- BobManager: pixels, blit sizes and modulos, background-buffer addresses and the background-buffer size formula. The implementation behind the header is not part of this model.
- BobManager: the private fields `_uwBlitSize`, `_wModuloUndrawSave` and `_pOldDrawOffs`, and double-buffer alternation (`pOldPositions[2]`). The model is the single-buffered manager (`pFront == pBack`, bob.h:79), with one undraw history. With two buffers, `bobBegin` would restore what was drawn into that buffer two frames earlier.
- BobManager: the blitter runs in parallel with the CPU. The model replaces that with an idle flag passed to each call.
- `bobManagerDestroy` and `bobManagerReset`: the header gives no behaviour for them beyond their names.
- `bobCalcFrameAddress`: the header says frames are stacked vertically in a one-frame-wide bitmap and the result is the byte address of the frame at a given Y offset. No formula is given, and the bitmap's bytes per row come from `tBitMap`, which is not part of this model.
- BobManager.DiscardUndraw: the header gives no semantics. It is modelled as clearing the undraw records, allowed only between frames.
- BobManager.End: the drain loop is modelled with the blitter idle at every step. Waiting for the blitter is not modelled.

## Findings

| source | as written | input that shows it | evidently intended | confidence | as-written member | corrected member |
|---|---|---|---|---|---|---|
| deps/ace/src/ace/utils/palette.c:70-72 | `for(UBYTE i = 0; i <= ubColorCnt; ++i)` draws `ubColorCnt + 1` swatches. With `ubColorCnt == 255` the UBYTE index wraps from 255 to 0, so the loop never ends. | `ubColorCnt = 4` draws indices 0..4, where index 4 is not a colour of the palette. `ubColorCnt = 255` loops forever. | `i < ubColorCnt`: one swatch per colour, indices `0..ubColorCnt-1`. | medium, not executed | Palette.SwatchLoopAsWrittenDrawsOneTooMany | Palette.SwatchIndices |
| src/game.c:66 | `s_pMainBuffer->pTileData[x][y] = uwTileData;` stores through `s_pMainBuffer`, a file-static pointer (game.c:22) that nothing assigns, so it is null; `gameGsCreate` assigns only `g_pMainBuffer` (game.c:99). `cameraReset` at game.c:73 reads the same null pointer. | Any map file with width > 0 and height > 0, e.g. the bytes `00 01 00 01 07`, or the header alone `00 01 00 01`. | The store goes into `g_pMainBuffer`, the tile buffer `gameGsCreate` creates. | high, not executed | TileMap.LoadMapAsWritten | TileMap.LoadMap |
