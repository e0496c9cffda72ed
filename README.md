# Hit counter endpoint: a Dafny model

This project models `endpoint.go`, the core of a small HTTP hit counter. At
startup the program cuts twelve 100 by 100 glyphs (`0`-`9`, `.` and `,`) out of
a sprite atlas. For each request under `/counter` it counts the GETs per URL
and answers each GET with an image of the new count. The image is the glyphs
of the count's decimal digits drawn side by side. A DELETE resets the URL's
count.

The model has five modules:

- `Raster` (`raster.dfy`) models the part of Go's `image` and `image/draw` that
  the endpoint uses.
  - Image buffers are `array2<Pixel>`, indexed `[x, y]`.
  - `NewRgba` gives a fresh, transparent buffer.
  - `Draw` is `draw.Draw`.
  - `Snapshot` is the value a buffer holds: a `Bitmap`, which is a sequence of
    columns. Drawing two bitmaps side by side is then sequence concatenation.
- `GlyphTable` (`glyph_table.dfy`) models the table `cs`, which gives each
  character's cell in the atlas, and proves facts about its layout.
- `Renderer` (`renderer.dfy`) models `generateNumberImage`, the loop of
  `init`, and `createConcatenatedImage`.
  - Each method is proved against value-level functions: `Glyph`, `GlyphsOf`
    and `Render`.
  - Lemmas state what those functions compute.
- `Format` (`format.dfy`) models `fmt.Sprintf("%v", n)` for a count `n >= 0`.
  It also proves that the text reads back as `n` and that the two are
  inverse.
- `Server` (`server.dfy`) models the package state and the handlers.
  - `m` and `images` are fields of the class `Endpoint`.
  - `init`, `ServeHTTP` and `counter` are its methods.
  - `CounterStep`, `Serve` and `Run` are the counter map as a state machine,
    and lemmas describe its behaviour.

Choices where `endpoint.go` settles a question:

- An empty byte slice is not an error. `createConcatenatedImage` allocates a
  0 by 100 image and its loop draws nothing (`endpoint.go:118-123`).
  `Renderer.RenderEmpty` states this.
- `endpoint.go` never checks for a character missing from `images`. For an
  unknown byte, `images[bs[i]]` is a nil image (`endpoint.go:121`). In the
  model, `CreateConcatenatedImage` requires every byte to be in the table.
  The endpoint always meets this, because every character of a formatted
  count is a digit (`Format.DecimalDrawable`).
- `endpoint.go` never checks the atlas's size: `draw.Draw` clips instead. The
  model requires an atlas of at least 300 by 400 pixels.
- The digits `1`-`9` fill the first three rows of a 3-column grid. `,`, `0` and
  `.` make up a fourth row, at x = 0, 100 and 200 with y = 300
  (`endpoint.go:20`, `endpoint.go:30-31`). They are not in a trailing column.
  `GlyphTable.OffsetsOnGrid` and `GlyphTable.GridCovered` state this layout.

## Model

| member | source | states |
|---|---|---|
| Raster.NewRgba | endpoint.go:112 | `image.NewRGBA` over (0,0)-(w,h) returns a fresh w by h buffer whose every pixel is transparent |
| Raster.Draw | endpoint.go:113 | pixel (x, y) inside the rectangle receives the source pixel at (x, y) - r.min + sp; every pixel outside it keeps its old value; Over is admitted only onto a transparent region |
| Raster.Snapshot | endpoint.go:112 | the bitmap value of an RGBA buffer, such as the one `image.NewRGBA` allocates: it has the buffer's size and agrees with it on every pixel |
| GlyphTable.Offset | endpoint.go:19-32 | `cs[c]`, read from the literal table `Cs`, is the top-left corner of a 100 by 100 cell lying inside a 300 by 400 atlas |
| GlyphTable.TableDomain | endpoint.go:19-32 | a byte has an entry in `cs` if and only if it is an ASCII digit, `.` or `,` |
| GlyphTable.TableSize | endpoint.go:19-32 | `cs` has exactly 12 entries |
| GlyphTable.KeysAre | endpoint.go:19-32 | the keys of `cs` are the byte values 48-57, 46 and 44 |
| GlyphTable.OffsetsOnGrid | endpoint.go:19-32 | every offset is a corner of the 3 by 4 grid, x in {0,100,200} and y in {0,100,200,300}, and its cell fits in the atlas |
| GlyphTable.CellsDisjoint | endpoint.go:19-32 | distinct characters have distinct offsets, and their 100 by 100 cells share no pixel |
| GlyphTable.GridCovered | endpoint.go:19-32 | every corner of the 3 by 4 grid is the offset of some character, so the twelve cells tile the atlas |
| GlyphTable.Cell | endpoint.go:19-32 | the atlas cell of `c` is the 100 by 100 box with its corner at `cs[c]`; `CellsDisjoint` states that these cells are pairwise disjoint |
| Renderer.Glyph | endpoint.go:111-115 | the glyph of `c` is a 100 by 100 bitmap whose pixel (x, y) is atlas pixel (x + ox, y + oy) for c's offset (ox, oy) |
| Renderer.GlyphsOf | endpoint.go:106-108 | the glyph set of an atlas has exactly the table's characters as keys; each entry is that character's 100 by 100 glyph |
| Renderer.GenerateNumberImage | endpoint.go:111-115 | returns a fresh 100 by 100 buffer whose pixel (x, y) is `src` pixel (x + ox, y + oy), so its value is the glyph of `b` in the atlas `src` holds |
| Renderer.LoadGlyphs | endpoint.go:106-108 | returns one fresh 100 by 100 buffer per table character, no two characters sharing a buffer, each holding that character's glyph: the buffers hold the atlas's glyph set |
| Renderer.GlyphsIn | endpoint.go:33 | the glyph set the `images` buffers hold has the map's keys and each buffer's current value |
| Renderer.GlyphsInAtlas | endpoint.go:106-108 | buffers that each hold their character's glyph of the atlas hold the atlas's whole glyph set |
| Renderer.Render | endpoint.go:117-125 | the image of `bs` drawn with 100 by 100 glyphs is 100 times the length of `bs` wide |
| Renderer.RenderSize | endpoint.go:118 | the image of `bs` is exactly 100 * len(bs) wide and 100 high |
| Renderer.RenderAt | endpoint.go:119-123 | pixel (x, y) of the image is pixel (x mod 100, y) of the glyph of `bs[x / 100]` |
| Renderer.RenderAppend | endpoint.go:117-123 | the image of `s1 + s2` is the image of `s1` followed by the image of `s2` |
| Renderer.RenderShifted | endpoint.go:117-123 | column x of the image of `s2` is column 100 * len(s1) + x of the image of `s1 + s2`: `s2` is drawn shifted right by the width of `s1` |
| Renderer.RenderSingle | endpoint.go:117-123 | a single character is drawn as exactly its glyph |
| Renderer.RenderEmpty | endpoint.go:118 | the empty byte string is drawn as an image of width 0, not as an error |
| Renderer.RenderFromAtlas | endpoint.go:111-123 | end to end: pixel (x, y) of the image of `bs` is the atlas pixel at the offset of `bs[x / 100]`, moved by (x mod 100, y) |
| Renderer.CreateConcatenatedImage | endpoint.go:117-125 | returns a fresh 100 * len(bs) by 100 buffer whose pixel (x, y) is pixel (x mod 100, y) of the glyph buffer of `bs[x / 100]`; its value is the image of `bs`. The loop keeps x == 100 * i, bands before x drawn and the rest still transparent |
| Format.DigitChar | endpoint.go:75 | the character of a digit below 10 is an ASCII digit |
| Format.DigitValue | endpoint.go:75 | an ASCII digit stands for a number below 10 whose character it is |
| Format.Decimal | endpoint.go:75 | `%v` of a count is a non-empty string of ASCII digits with no sign and no leading zero |
| Format.ValueOfDecimal | endpoint.go:75 | reading the formatted text back in base 10 gives the count |
| Format.DecimalOfValue | endpoint.go:75 | every canonical numeral is the text `%v` writes for its own value, so formatting and reading back are inverse |
| Format.DecimalInjective | endpoint.go:75 | distinct counts are formatted differently |
| Format.ValueAtLeast | endpoint.go:75 | a canonical numeral of two or more digits stands for at least 10 |
| Format.DecimalDrawable | endpoint.go:75 | every byte of a formatted count has a glyph in `cs` |
| Server.IsCounterPath | endpoint.go:46 | `strings.HasPrefix(path, "/counter")`: the path is at least as long as `/counter` and begins with it |
| Server.CountOf | endpoint.go:74 | Go reads a missing key as 0; while every stored count is positive, a count of 0 means exactly that the key is absent |
| Server.CounterStep | endpoint.go:72-90 | GET sets the url's count to its old value (0 if absent) plus one and stores the key; DELETE removes the url; any other method leaves the map as it was; no other key changes presence or count |
| Server.Serve | endpoint.go:45-49 | a path without the `/counter` prefix leaves the map as it was; no key other than the request's url changes presence or count |
| Server.GetIncrements | endpoint.go:73-74 | a GET sets `m[k]` to its previous value plus one, an absent key reading as 0 and so giving 1; every other key keeps its presence and count |
| Server.DeleteRemoves | endpoint.go:88-89 | a DELETE removes exactly the key and leaves every other count as it was |
| Server.DeleteThenGet | endpoint.go:73-74 | after a DELETE of k, the next GET on k yields 1 |
| Server.OtherMethodsIgnored | endpoint.go:72-90 | a method other than GET or DELETE leaves the map unchanged |
| Server.OtherPathsIgnored | endpoint.go:45-49 | a request whose path does not start with `/counter` leaves the map unchanged, whatever its method |
| Server.ServeKeepsPositive | endpoint.go:70-91 | handling a request keeps every stored count at least 1 |
| Server.RunCounts | endpoint.go:73-74 | over a run of requests with no DELETE on k, the count of k is its starting value plus the number of GETs on k |
| Server.ResponseShape | endpoint.go:75-78 | the image a GET returns for count n can be drawn and is 100 pixels wide per decimal digit of n and 100 high |
| Server.Endpoint.constructor | endpoint.go:17-34 | the package starts with an empty counter map and, once `init` has run, the glyph set of the atlas |
| Server.Endpoint.Init | endpoint.go:106-108 | `images` gets one fresh buffer per table character, all distinct, each holding that character's glyph of the atlas; `m` is unchanged |
| Server.Endpoint.Counter | endpoint.go:70-91 | the map becomes `CounterStep` of the old map; an image is returned exactly for GET, fresh, 100 pixels wide per digit of the new count and 100 high, and equal to the rendering of its decimal text; the glyphs and the invariant are kept |
| Server.Endpoint.ServeHTTP | endpoint.go:45-49 | only paths under `/counter` reach `counter`; the map becomes `Serve` of the old map; an image is returned exactly for a GET under the prefix, sized and drawn as for `Counter`; the invariant is kept |

## Left out

- HTTP plumbing is not modelled: the server, the mux, `ListenAndServe`,
  response headers and body writes (`endpoint.go:51-68`, `endpoint.go:82-86`).
  `ServeHTTP` and `Counter` return the image instead of writing it.
- PNG decoding and encoding and opening `numbers.png` are not modelled
  (`endpoint.go:94-104`, `endpoint.go:78`). The atlas is a given buffer passed
  to `Init`, and the response is the unencoded image. The panics on a missing
  or unreadable file are not modelled either.
- Colour arithmetic is not modelled: pixels are opaque values.
  - `draw.Src` is a copy.
  - `draw.Over` is admitted only onto a transparent destination, where it
    also leaves the source pixel.
  - The conversion of the atlas's colour model to RGBA is not modelled.
- Raster.Draw: the clipping `draw.Draw` does is not modelled. The rectangle
  must lie inside both images, so `Init` requires an atlas of at least 300 by
  400 pixels.
- Renderer.CreateConcatenatedImage: requires every byte to be in the table.
  The Go code would dereference a nil glyph for an unknown byte.
- Server.Endpoint.Init: the glyph buffers are collected by
  `Renderer.LoadGlyphs` and stored in `images` at the end. Go inserts them one
  at a time, but no one can observe the map during `init`. The order of the
  iteration over `cs` is arbitrary, as in Go.
- Server.Endpoint.Counter: counts are unbounded `nat`. Go's `int` overflow
  after 2^63 - 1 GETs is not modelled.
- Concurrent requests are not modelled: Go shares the map `m` between
  handler goroutines without synchronisation, and the model handles requests
  one at a time.
- Logging is not modelled.
- Server.Endpoint: in Go, `m` and `images` are package globals
  (`endpoint.go:17-34`). Every `*endpoint` that `mustSetupEndpoint` returns
  shares them, and `init` runs once per process. The model makes them fields of
  one `Endpoint` object and loads the glyphs in its constructor. It therefore
  assumes one endpoint per process and does not model two endpoints sharing
  one counter map.
- The key and the path are two given fields of `Request`. The model does not
  derive the key (`r.URL.String()`, `endpoint.go:71`) from the path
  (`r.URL.Path`, `endpoint.go:46`).
