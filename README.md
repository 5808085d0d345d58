# futsplat scene loader in Dafny

futsplat renders 3D Gaussian splats. `SplatRenderer::loadPly` reads a scene
from a binary little-endian PLY file. This project models that loader and the
host side of `render`.

The loader has four stages:

- **Header loop.** It reads text lines up to the line `end_header`.
  - `element vertex N` sets the record count and opens the vertex section.
  - Any other `element` line closes the section.
  - Each `property <type> <name>` line inside the section maps `<name>` to the
    next value of a counter. The counter starts at 0 and is never reset.
- **Resolver.** `getIdx` looks up the 14 scalar fields and the 45 `f_rest_k`
  harmonic fields. It returns the mapped index, or -1 for an absent name.
- **Body buffer.** It holds `vertexCount * propCounter * 4` bytes. It is
  zero-initialised, then filled with what the file still holds.
- **Decode loop.** It copies each field's 4-byte word (or zero) into 14
  scalar columns. It de-interleaves the harmonics into three columns of 15
  coefficients per record.

`render` interleaves the three colour planes returned by the compute backend
into one RGB byte buffer.

## Modules

- `wrappers.dfy`: `Option` and the `Byte` type.
- `text.dfy`: the text handling the header loop relies on.
  - `ss >> token` extraction on C `isspace` whitespace.
  - `ss >> vertexCount`: an optional `+`, leading digits, saturation at
    `INT_MAX`. A token with no digits reads as 0. A missing token leaves the
    count unchanged.
  - `std::to_string`.
- `header.dfy`:
  - The header loop as a method (`Header.ParseHeader`), proved against a left
    fold of one step per line (`StateAfter`).
  - A declarative reading of that fold (`SectionOpen`, `DeclaredProperties`,
    `LastCount`).
  - A header writer (`HeaderWriter`) used as the round-trip partner.
- `resolver.dfy`: `getIdx` and the resolution of the 59 field names.
- `decoder.dfy`:
  - `readF`, the buffer, and the decode loop. The loop fills an `array2` of 14
    scalar rows and three flat harmonic arrays of `n * 15` slots.
  - A record encoder used as the round-trip partner.
- `pixels.dfy`: the RGB interleave of `render`.
- `renderer.dfy`:
  - The `SplatRenderer` class with `LoadPly` and `Render`.
  - Properties of a loaded scene.
  - Load round trips for files written by the writer.

Field values are opaque 4-byte words, never floats. The all-zero word is
`0.0f`.

Behaviour of the source worth noting:

- Only the element name `vertex` opens the vertex section. Any other name,
  `point` included, closes it.
- The record count may be 0.
- `element vertex` with no count token leaves the count as it was.
- The property counter advances only inside the vertex section and is never
  reset.

## Model

| member | source | states |
|---|---|---|
| Text.WordLength | main.cpp:115 | one extraction takes the longest whitespace-free run: the prefix has no whitespace and is followed by whitespace or the end of the line |
| Text.Tokens | main.cpp:113-126 | successive extractions yield only non-empty, whitespace-free tokens |
| Text.TokensOfJoin | main.cpp:113-126 | tokenising tokens written with single spaces gives the same tokens back |
| Text.Decimal | main.cpp:159 | `std::to_string` of a natural number is non-empty, all digits, and has no leading zero |
| Text.DecimalRoundTrip | main.cpp:159 | the digits of `Decimal(n)` have the value `n` |
| Text.DecimalInjective | main.cpp:159 | distinct numbers are spelled differently |
| Text.LeadingDigits | main.cpp:119 | the number of leading decimal digits: all of them are digits, and the next character is not |
| Text.CountValue | main.cpp:119 | the count stored by `ss >> vertexCount` never exceeds INT_MAX |
| Text.CountOfDecimal | main.cpp:119 | a count written in decimal, up to INT_MAX, is read back unchanged |
| Header.Classify | main.cpp:113-127 | a line is an `element` line iff its first token is `element`, a vertex element iff its second token is also `vertex` (with a count iff it has a third token), and a property iff its first token is `property`, named by its third token (empty when missing) |
| Header.Step | main.cpp:116-128 | one iteration: `element vertex` opens the section and `element <other>` closes it; the count changes only on `element vertex <n>`, to n; a property line in an open section maps its name to the counter and advances the counter by one; no other name is added or remapped |
| Header.HeaderLength | main.cpp:110-112 | the loop processes exactly the lines before the first `end_header`, or all lines when there is none |
| Header.ParseHeader | main.cpp:103-129 | the loop's final `vertexCount`, `props`, `propCounter` and `inVertex` equal the fold of one step per line before the first `end_header` |
| Header.StateAfterMeaning | main.cpp:104-128 | after any prefix of lines: `inVertex` holds iff the last `element` line was `element vertex`; `vertexCount` is the count on the last `element vertex` line that has one; `propCounter` is the number of vertex property lines; a name is mapped iff it was declared as a vertex property, and it maps to the position of its last declaration |
| Header.PropertyLineStep | main.cpp:124-127 | a `property` line keeps the section flag and the count. It appends its name to the declared names iff the vertex section is open |
| Header.PropertyRun | main.cpp:124-127 | a run of property lines inside an open vertex section declares exactly their names, in order |
| Header.PropsBelowCounter | main.cpp:127 | every mapped index is below the final counter |
| Header.DeclarationOrder | main.cpp:105-128 | the Nth vertex property gets index N: the counter equals the number of vertex property lines, exactly the declared names are mapped, and a name not declared again later maps to its own position |
| Header.NoVertexElement | main.cpp:105-129 | without an `element vertex` line the count stays 0, the counter stays 0 and the map is empty |
| Header.StopsAtEndHeader | main.cpp:110-112 | lines after the first `end_header` have no effect on the result |
| Header.ListPropertyName | main.cpp:125-127 | `property list <count-type> <item-type> <name>` registers the count type as the property name |
| Header.PropertyLine | main.cpp:124-127 | `property <type> <name>` is read as a declaration of `<name>` |
| Header.VertexElementLine | main.cpp:116-120 | `element vertex <n>`, with n up to INT_MAX, is read as a vertex element with count n |
| HeaderWriter.WrittenHeaderPrefix | main.cpp:116-127 | in a written header, after its property lines the vertex section is open, the declared names are the written names, and the count is the written count |
| HeaderWriter.WrittenHeaderLength | main.cpp:110-112 | the header loop stops at the written `end_header` line |
| HeaderWriter.ParseWrittenHeader | main.cpp:103-129 | header round trip: a written header is read back with its count, a counter equal to the number of fields, exactly the written names mapped, each to its position |
| Resolver.RestNameSpells | main.cpp:159 | `"f_rest_" + std::to_string(k)` is `f_rest_` followed by a decimal numeral without leading zero whose value is k |
| Resolver.RestNamesDistinct | main.cpp:157-160 | the 45 harmonic lookups use 45 different names |
| Resolver.RestNameNotScalar | main.cpp:140-160 | no harmonic name is one of the 14 scalar names |
| Resolver.GetIdx | main.cpp:135-138 | the result is -1 iff the name is absent, and otherwise the mapped index |
| Resolver.Resolved | main.cpp:140-160 | there are 14 scalar indices and 45 harmonic indices |
| Resolver.ResolveFields | main.cpp:140-160 | the 14 scalar lookups and the loop over `f_rest_0` .. `f_rest_44` compute `getIdx` of each fixed name in order |
| Resolver.ResolvedInRange | main.cpp:127-171 | every resolved index is -1 or lies in `[0, propCounter)` |
| Resolver.ResolvedMeaning | main.cpp:135-160 | a field resolves to -1 iff the header declares no vertex property of that name, and otherwise to the position of its last declaration |
| Decoder.Stride | main.cpp:171 | a record has four bytes per declared property: a field index fits a record exactly when it is -1 or below `propCounter` |
| Decoder.WordAt | main.cpp:186 | the copied word's bytes are exactly the four buffer bytes at the offset |
| Decoder.ZeroFilled | main.cpp:172-173 | the buffer has the requested size; byte k is the file's byte k where the file has one, and 0 after that |
| Decoder.ZeroFilledExact | main.cpp:172-173 | reading exactly what the file holds gives it back unchanged |
| Decoder.WindowInBounds | main.cpp:171-186 | the window `[i*stride + p*4, +4)` of a field of record `i < n` lies inside a buffer of `n*stride` bytes |
| Decoder.ReadF | main.cpp:181-188 | `readF(-1)` is zero; for any other index the window `[i*stride + p*4, +4)` lies inside the buffer and the result's bytes are exactly those four bytes |
| Decoder.ShCoeff | main.cpp:208-213 | slot `k` of channel c belongs to record `k / 15` and reads `idx_rest[3*(k % 15) + c]`: zero when that index is -1, otherwise the four bytes of that field in record `k / 15` |
| Decoder.DeinterleaveAt | main.cpp:208-213 | slot `i*15+j` of channel c holds field `f_rest_{3j+c}` of record i |
| Decoder.SequentialRest | main.cpp:208-213 | with `f_rest_0..44` declared as fields 0..44, channel c of record i reads fields c, 3+c, .., 42+c |
| Decoder.DecodeScalars | main.cpp:190-206 | iteration i writes `readF` of each scalar index into slot i of its column, and leaves every other slot unchanged |
| Decoder.DecodeHarmonics | main.cpp:208-213 | iteration i writes slots `i*15 .. i*15+14` of the three channels with their de-interleaved coefficients, and leaves every other slot unchanged |
| Decoder.DecodeRecords | main.cpp:163-214 | the scalar columns have `n` entries and the harmonic columns `n*15`; every entry is the `readF` of its field for its record; all four columns are newly allocated and the three harmonic columns are distinct |
| Decoder.DecodeEncoded | main.cpp:178-188 | body round trip: `readF` of record i, field p of an encoded body returns the written word |
| Pixels.Interleaved | main.cpp:301 | the RGB buffer has three bytes per pixel |
| Pixels.InterleavedAt | main.cpp:303-306 | channel c of pixel i sits at `i*3 + c` |
| Pixels.PlaneOfInterleaved | main.cpp:301-306 | each colour plane is recovered from the interleaved buffer |
| Pixels.InterleavePixels | main.cpp:301-307 | the pixel loop fills the buffer with exactly the interleaved planes |
| Renderer.Available | main.cpp:110-173 | `file.read` sees the body when the file has an `end_header` line, and nothing when the header loop ran into the end of the file |
| Renderer.BodyBuffer | main.cpp:171-173 | the buffer holds `vertexCount * stride` bytes |
| Renderer.FileIndices | main.cpp:135-171 | the indices resolved from a file are -1 or fields of its records |
| Renderer.SplatRenderer.constructor | main.cpp:60-67 | a new renderer holds no splats |
| Renderer.SplatRenderer.LoadPly | main.cpp:96-243 | on a file that cannot be opened: returns false and changes nothing. Otherwise: returns true, the splat count is the header's count, and every column holds the words decoded from the file; the columns are newly allocated, so no array of the caller is shared with the scene |
| Renderer.SplatRenderer.Render | main.cpp:245-307 | with no splats, or when the backend fails, the pixel buffer is left as it was. Otherwise it becomes the interleaved planes, `w*h*3` bytes |
| Renderer.AbsentFieldReadsZero | main.cpp:140-183 | a scalar field the header does not declare is zero in every record |
| Renderer.AbsentHarmonicReadsZero | main.cpp:157-213 | a harmonic coefficient the header does not declare is zero in every record |
| Renderer.ShortBodyReadsZero | main.cpp:172-186 | a scalar field whose window lies past the end of the file reads as zero |
| Renderer.ShortBodyHarmonicReadsZero | main.cpp:172-212 | a harmonic coefficient whose window lies past the end of the file reads as zero |
| Renderer.NoVertexElementMeansEmptyScene | main.cpp:105-172 | without an `element vertex` line the scene has no records, the stride is 0 and the buffer is empty |
| Renderer.WrittenFileLayout | main.cpp:110-173 | for a written file: the count and stride are the written ones, and the buffer is exactly the encoded body |
| Renderer.WrittenFieldIndex | main.cpp:135-138 | for a written file, `getIdx` of a name is its written position, or -1 when it was not written |
| Renderer.LoadWrittenScalar | main.cpp:140-206 | load round trip: scalar column f of record i holds the value written under that field's name, or zero |
| Renderer.LoadWrittenHarmonic | main.cpp:157-213 | load round trip: harmonic slot `i*15+j` of channel c holds the value written as `f_rest_{3j+c}`, or zero |
| Renderer.LoadWrittenNoHarmonics | main.cpp:157-213 | a written file with no `f_rest_*` field loads with every harmonic coefficient zero |
| Renderer.LoadPositionsOnly | main.cpp:140-206 | a file written with only x, y, z, opacity loads those four values, and zero for scale, rotation and base colour |
| Renderer.LoadPositionsOnlyHarmonics | main.cpp:157-213 | ... and zero for every harmonic coefficient |

## Left out

- File opening: `LoadPly` takes `None` for a file that cannot be opened.
- File reading: an opened file is its header lines plus the bytes after `end_header`. The read into the buffer is `ZeroFilled`.
- A file with no `end_header` line: the stream is exhausted by then, so no body bytes are read.
- Diagnostics printed to `std::cout` and `std::cerr`.
- The compute backend (Futhark) is foreign code.
  - Its context set-up, array uploads, frees and synchronisation are not modelled.
  - The upload is modelled as the renderer keeping the decoded columns.
  - The render call's result is a parameter of `Render`: `None` for a failure code, or the three planes already clamped and quantised.
- OpenMP: both parallel loops are modelled sequentially.
  - The decode loop's disjoint writes are stated per iteration in the ensures of `DecodeScalars` and `DecodeHarmonics`.
  - The pixel loop's writes are not stated per iteration: `InterleavePixels` states only the final buffer.
- The 14 scalar columns are modelled as the 14 rows of one `array2`, not as 14 separate vectors.
- Floating point: not modelled.
  - Field values are opaque words.
  - The camera, the intrinsics and the view transform are not modelled.
  - The clamp-and-scale to bytes is not modelled.
- Window, UI and texture code (GLFW, ImGui, OpenGL) and the main loop are not modelled.
- `gen_data.py` is a benchmark-input generator and is not part of this model.
- Text.CountValue: a token with a leading `-` reads as 0. The source would store a negative count, and the vector allocation with it fails.
- Decoder.DecodeRecords: `int` overflow is not modelled, because the integers are unbounded. This covers the `int` products `vertexCount * 15`, `propCounter * 4`, `i * 15 + j` and `p_idx * 4` for counts too large for `int`.
- Renderer.SplatRenderer.Render: the `w*h` planes are taken as given, so the buffer's resize and the truncation of a float to a byte are not modelled.
