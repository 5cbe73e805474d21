# Demos: pixel field, source-text reader and hue counter

This project models the small pieces of logic in a set of SDL demo programs
and proves properties of them in Dafny.

- **`softwarerender/flib.cc`** (module `Flib`). A 100 x 100 grid of RGBA
  cells (`Pix`, four 8-bit channels) goes through three passes in each frame,
  in this order:
  1. Emit: ten writes of red `{255,0,0,0}` (alpha 0) at `pos * 2`, each
     followed by a cursor advance that wraps to 0.
  2. Decay: r, g and b of every cell drop by one unless already 0. Alpha is
     left alone.
  3. Pointer: if the last mouse position lies inside the grid, its cell
     becomes `{0,255,0,0}`.

  Because emit runs before decay, an emitted cell ends the frame at red 254.
  The pointer cell ends at exactly green 255. The grid is the class
  `Flib.Field`, with the buffer as an `array<Pix>` and the cursor as a field.
  The passes are methods with loops, proved against the functions `Emit`,
  `DecayAll`, `Stamp` and `Frame` on `seq<Pix>`. `new Pix[gm]` does not
  initialise the cells, so the constructor promises nothing about them. The
  generic `flib::clamp` is modelled on `int` as `Flib.Clamp`.
- **`get_src_code`** (module `SourceText`). This function is the same, line
  for line, in `codingclub_demo.c:282-306` and `codingclub_demo.cpp:290-314`.
  The two copies differ in the file name they open and in the C++ `const` on
  the result. When `fopen` fails, they also differ in the error message and in
  how it reaches stderr: `fprintf` in C, `std::cerr` in C++. It allocates a zeroed buffer of `SRC_READ_MAX` = 10000 characters
  and copies the file into it without its line feeds and tabs. It stops once
  9999 characters are stored and then writes a NUL terminator. It returns
  NULL when the file cannot be opened. The file is a `SourceFile`: either
  `Unopenable` when `fopen` fails, or `Opened` with the characters that
  `fgetc` delivers. `SourceText.GetSrcCode` fills an
  `array<char>` with the same loop and is proved against `Loaded`, which is
  "filter, then truncate to 9999".
- **The hue counter of `codingclub_demo.c`** (module `Hue`). This is an
  `unsigned int` that starts at 0 and goes through `if (++hue > 360) hue = 0;`
  once per frame. The emitter cursor uses the same wrap idiom, so both are
  built on module `Counter`. Its closed form, `(x + k) mod (limit + 1)`, and
  its exact period of `limit + 1` are proved there.

The frame order follows the code: emit, then decay, then pointer
(`softwarerender/flib.cc:79-99`). The grid starts out indeterminate, not
zeroed.

## Model

| member | source | states |
|---|---|---|
| `Counter.Bump` | codingclub_demo.c:133-134 | the `if (++x > limit) x = 0` step stays in [0, limit], is 0 exactly when x has reached the limit, and is x + 1 otherwise |
| `Counter.Iterate` | softwarerender/flib.cc:79-85 | any number of counter steps from a value in range stays in [0, limit] |
| `Counter.IterateClosedForm` | codingclub_demo.c:133-134 | k steps from x in range land on (x + k) mod (limit + 1) |
| `Counter.IterateAdd` | softwarerender/flib.cc:79-85 | a steps followed by b more steps equal a + b steps, so frames compose |
| `Counter.IterateNoWrap` | softwarerender/flib.cc:83-84 | below the limit the counter just counts up |
| `Counter.IteratePeriod` | softwarerender/flib.cc:83-84 | the counter returns to its start after limit + 1 steps and not after fewer |
| `Flib.Clamp` | softwarerender/flib.cc:33-36 | when min <= max the result lies in [min, max], is val when val is already there, and is the nearest point of [min, max] to val |
| `Flib.ClampIdempotent` | softwarerender/flib.cc:33-36 | clamping twice is clamping once |
| `Flib.DecayPix` | softwarerender/flib.cc:86-95 | each of r, g, b is unchanged iff it was 0 and otherwise exactly one lower; never below 0; alpha untouched |
| `Flib.DecayTimes` | softwarerender/flib.cc:86-95 | k decay steps keep a cell's alpha, and no colour channel rises |
| `Flib.DecayTimesSaturates` | softwarerender/flib.cc:86-95 | k decay steps lower each colour channel by k, saturating at 0, and keep alpha |
| `Flib.FadesToBlack` | softwarerender/flib.cc:86-95 | after 255 decay steps any cell is black with its alpha intact |
| `Flib.Advance` | softwarerender/flib.cc:83-84 | corrected cursor step: from [0, gm/spread) it stays there, so the next write index is a grid cell |
| `Flib.AdvanceAsWritten` | softwarerender/flib.cc:83-84 | as-written cursor step: from [0, gm/spread] it stays there, so write indices lie in [0, gm] |
| `Flib.CursorAt` | softwarerender/flib.cc:82-84 | the corrected cursor before each write of a frame stays in [0, gm/spread) |
| `Flib.WriteIndex` | softwarerender/flib.cc:82 | every emit write of the corrected cursor is inside the 10000-cell buffer |
| `Flib.WriteIndexClosedForm` | softwarerender/flib.cc:79-85 | with the corrected cursor, the j-th write of a frame from cursor p is cell ((p + j) mod 5000) * 2, and the frame leaves the cursor at (p + 10) mod 5000 |
| `Flib.WritesDistinct` | softwarerender/flib.cc:79-85 | the ten writes of one frame hit ten different cells |
| `Flib.Emit` | softwarerender/flib.cc:79-85 | the emit pass over the corrected cursor keeps the grid at gm cells |
| `Flib.EmitAt` | softwarerender/flib.cc:79-85 | after the emit pass over the corrected cursor a cell is red exactly when one of the frame's writes hit it, and otherwise holds its old value |
| `Flib.DecayAll` | softwarerender/flib.cc:86 | the decay pass keeps the number of cells |
| `Flib.InGrid` | softwarerender/flib.cc:96 | when the pointer guard holds, the index mx + my * gw lies in [0, gm) |
| `Flib.PointerCell` | softwarerender/flib.cc:96-98 | an in-grid pointer (mx, my) names a cell in [0, gm) whose column is mx and whose row is my |
| `Flib.Stamp` | softwarerender/flib.cc:96-99 | the pointer pass keeps the grid at gm cells |
| `Flib.Frame` | softwarerender/flib.cc:77-99 | a frame over the corrected cursor keeps the grid at gm cells |
| `Flib.FrameAt` | softwarerender/flib.cc:77-99 | after a frame over the corrected cursor a cell is green under an in-grid pointer, else {254,0,0,0} if emitted, else its old value decayed once |
| `Flib.SentinelWritesNothing` | softwarerender/flib.cc:55 | with the initial pointer (-1, -1) there is no pointer write, and every cell the corrected cursor does not emit to changes only by decay |
| `Flib.Frames` | softwarerender/flib.cc:57-99 | a run of frames of the render loop over the corrected cursor, one pointer position per frame, keeps the grid at gm cells |
| `Flib.UntouchedCellOnlyDecays` | softwarerender/flib.cc:77-99 | over a run of frames with any pointer positions, using the corrected cursor, a cell that no frame emits to or points at ends as its start value after k decay steps, k being the number of frames |
| `Flib.EmitAsWritten` | softwarerender/flib.cc:82-84 | the as-written emit pass either fails on an out-of-bounds write or keeps the grid's size |
| `Flib.AsWrittenStaysUndefined` | softwarerender/flib.cc:79-85 | an out-of-bounds first write makes the rest of the frame undefined |
| `Flib.AsWrittenOverrunsOnFrame501` | softwarerender/flib.cc:82-84 | from pos = 0 the as-written cursor reaches 5000 after 500 frames, and the first write of frame 501 is at index 10000 = gm, past the buffer |
| `Flib.CursorsSplitAfterFrame500` | softwarerender/flib.cc:83-84 | from pos = 0 the as-written and corrected cursors are both 10 n after each frame n <= 499; after frame 500 the as-written cursor is 5000 and the corrected one is 0 |
| `Flib.AsWrittenAgreesBeforeWrap` | softwarerender/flib.cc:82-84 | away from the wrap point the as-written and corrected emit passes write the same cells |
| `Flib.Field.constructor` | softwarerender/flib.cc:51-55 | a fresh gm-cell buffer of unspecified contents, cursor 0, no frames run |
| `Flib.Field.EmitPass` | softwarerender/flib.cc:79-85 | the loop leaves the buffer equal to `Emit` of its old contents and the corrected cursor advanced ten times |
| `Flib.Field.DecayPass` | softwarerender/flib.cc:86-95 | every cell afterwards is its old value decayed once |
| `Flib.Field.PointerPass` | softwarerender/flib.cc:96-99 | the buffer afterwards is `Stamp` of its old contents |
| `Flib.Field.Step` | softwarerender/flib.cc:77-99 | one frame: the buffer becomes `Frame` of the old buffer, cell by cell green, faded red or decayed; the cursor keeps its invariant that it depends only on the frame count |
| `Flib.CursorAfterFrames` | softwarerender/flib.cc:53 | after n frames from pos = 0 the corrected cursor is (10 n) mod 5000, whatever the pointer did; as written, the grid agrees through frame 500 and the cursor through frame 499; after frame 500 the source's cursor is 5000 where this member gives 0 |
| `SourceText.Skipped` | codingclub_demo.c:296 | only the control characters line feed and tab are dropped; spaces and printable characters are kept |
| `SourceText.Filter` | codingclub_demo.c:294-299 | the filtered text is no longer than the input and contains no line feed and no tab |
| `SourceText.Loaded` | codingclub_demo.c:294-301 | the stored text is a prefix of the filtered text, all of it when it is shorter than 9999 characters and exactly 9999 characters otherwise |
| `SourceText.Nuls` | codingclub_demo.c:284 | the zeroed calloc buffer: k NUL characters |
| `SourceText.GetSrcCode` | codingclub_demo.c:282-306 | NULL exactly when the file cannot be opened; otherwise a 10000-character buffer holding `Loaded` of the file followed by NULs, with the terminator at index at most 9999 |
| `SourceText.LoadedAtStop` | codingclub_demo.c:300-303 | whether the loop ends at end of file or at the 9999th stored character, what it stored is `Loaded` of the file |
| `SourceText.FilterAppend` | codingclub_demo.cpp:302-309 | filtering two pieces of text one after the other is filtering their concatenation |
| `SourceText.FilterKeepsCleanText` | codingclub_demo.cpp:304-307 | text with no line feed or tab passes through unchanged |
| `SourceText.FilterCounts` | codingclub_demo.cpp:304-307 | every other character keeps its number of occurrences; line feeds and tabs are all removed |
| `SourceText.StopsAtLimit` | codingclub_demo.cpp:308-309 | once 9999 characters are kept, whatever follows in the file does not change the result |
| `SourceText.SkippedDoNotCount` | codingclub_demo.cpp:304-305 | a dropped line feed or tab does not use up the limit |
| `Hue.HueAfterFrames` | codingclub_demo.c:133-134 | the frame loop keeps hue in [0, 360], and after n frames hue is n mod 361 |
| `Hue.HueSequence` | codingclub_demo.c:79 | from 0 the hue runs 1, 2, ..., 360 and then 0, with period 361 |

## Findings

| source | as written | input that shows it | evidently intended | confidence | as-written member | corrected member |
|---|---|---|---|---|---|---|
| softwarerender/flib.cc:83 | the cursor is reset only once it exceeds gm/spread = 5000, so it can equal 5000, and the next emit write goes to `pd[5000 * 2]` = `pd[10000]` in a buffer of 10000 cells (flib.cc:51, 82) | start at pos = 0; after 500 frames of 10 writes the cursor is 5000, and the first write of frame 501 is one past the end | the cursor stays in [0, gm/spread), so every write `pos * spread` is a cell of the grid | high; not executed | `Flib.AsWrittenOverrunsOnFrame501` | `Flib.Advance` |

The class `Flib.Field` uses the corrected cursor. Its `Valid()` keeps
`pos <= 4999`, so every write in `EmitPass` is in bounds.

## Left out

- SDL window, renderer, texture and event handling, and the calls that present or free things, in all three programs: these are foreign calls with no logic of their own. The last mouse position is the `mx`, `my` parameter of `Flib.Field.Step`.
- Frame pacing with `SDL_GetTicks` and `SDL_Delay`: timing and I/O.
- `ccdemo_hsv_to_rgb`, the `sinf`-driven rotation and scale animation, and `ccdemo_draw_text`: floating point and foreign rendering.
- The C++ demo's hue counter: it is a `double`, so it is floating point.
- `ccdemo_load_text` and `ccdemo_load_text_wrap`, and the loop that draws source text until the screen is full: thin wrappers over the font library.
- `fopen`, `fgetc` and `fclose` in `get_src_code`: the file's contents are an input `SourceFile`.
- SourceText.SourceFile: `fgetc` delivers bytes, so each character of `Opened.contents` stands for one byte and is below 256. The type `seq<char>` does not enforce that bound. The 9999 limit counts characters, and these are bytes only when the bound holds.
- SourceText.GetSrcCode: it does not model a failing `calloc`, where the source would write through NULL. It does not model the buffer leaked when `fopen` fails. It states the buffer's contents, not what `strlen` would see, so a NUL byte in the file shortens the visible C string without being modelled.
- SourceText.GetSrcCode: the error message written to stderr when `fopen` fails is not modelled, because it is output with no effect on the result.
- Flib.Clamp: modelled on unbounded `int` only. The template is defined but never instantiated anywhere in `flib.cc`.
- Flib.Field: the cursor is a `u64` and the pointer is `i64` in the source. Neither can wrap, because the cursor never exceeds 5001 (`++pos` reaches 5001 just before the reset) and the pointer only takes part in a bounds check and an index below 10000. They are unbounded integers here.
- Flib.WriteIndexClosedForm, Flib.Field.EmitPass, Flib.Field.Step, Flib.Emit, Flib.EmitAt, Flib.Frame, Flib.FrameAt, Flib.Frames, Flib.UntouchedCellOnlyDecays, Flib.SentinelWritesNothing, Flib.CursorAfterFrames: they use the corrected cursor bound (values in [0, 5000), period 5000). The source's bound gives period 5001. From pos = 0 the grid agrees through frame 500 and the cursor through frame 499; after frame 500 the source's cursor is 5000 where these members give 0, and frame 501 of the source writes past the buffer. The as-written bound is modelled by `Flib.AdvanceAsWritten` and `Flib.EmitAsWritten`, where a write past the buffer gives `None` because the source's behaviour there is undefined.
- `python/welcome.py`: a GUI frame with menus and message boxes and no logic to model.
