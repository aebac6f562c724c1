# Tesseract wrapper for Unity, modelled in Dafny

This project models `TesseractWrapper`, the C# class that binds a Unity
program to the Tesseract OCR library. The model covers:

- the engine session handle, driven by `Init` and `Close`;
- one `Recognize` of a `Texture2D`:
  - packing the pixels into an RGBA byte stream, last row first;
  - copying the stream into a block of unmanaged memory and handing it to the engine;
  - reading the sentinel-terminated confidence array and the BOXA word boxes;
  - outlining each confident word on the texture with `DrawLines`;
  - freeing the image block;
  - keeping only the confident words of the recognised text;
- the `Box` and `Boxa` records it reads from native memory.

The Tesseract and Leptonica libraries are treated as an oracle:

- `Init` takes what `TessBaseAPICreate` and `TessBaseAPIInit3` return as parameters.
- `Recognize` takes an `EngineResult`. It holds:
  - the recognition status;
  - the int32 words from the confidence pointer on;
  - the BOXA header, its pointer table and the box records,
  - the text pointer and the text it points to.
- `Recognize` also takes the address `Marshal.AllocHGlobal` hands out.

Every native call is appended to a ghost trace, `TesseractWrapper.calls`. `TesseractWrapper.Valid` states two things:

- the handle field is the handle the trace leaves live;
- each call was made on the live handle, and `TessBaseAPICreate` only when none was live.

From this, `Native.NoDoubleDelete` proves that between two Delete calls the second deletes a non-zero handle that a Create returned after the first: no handle is deleted twice. The unmanaged heap is a map from addresses to blocks (`Native.UnmanagedMemory`).

Files:

- `structures.dfy`: the records and 32-bit helpers.
- `text.dfy`: the .NET string operations used.
- `results.dfy`: the confidence decoding and the word filter.
- `pixels.dfy`: the byte stream.
- `outline.dfy`: the highlight rectangle and what `DrawLines` paints.
- `native.dfy`: the call trace, the engine's answers and the heap.
- `texture.dfy`: the part of `Texture2D` that is used.
- `wrapper.dfy`: the class itself.

The model follows the code, including behaviours a caller may not expect:

- When `dataPath` is null or white space, `Init` has already created an engine. It returns false and leaves that handle live; the next `Init` or `Close` releases it. Until then `Recognize`, which checks only for handle 0, goes ahead on that engine: its trace shows `SetImage`, `TessBaseAPIRecognize` and the calls after them on a handle that never received `TessBaseAPIInit3`.
- `Recognize` throws in three cases:
  - `OverflowException` when the BOXA count is negative;
  - `ArgumentOutOfRangeException` when there are fewer confidences than boxes;
  - `IndexOutOfRangeException` when the text splits into fewer words than boxes.
- In the first two cases the image block is never freed. `Wrapper.LeaksExactlyOnEarlyThrow` states exactly when the block leaks.
- The loops run over all `boxa.n` boxes. There is no clipping to the shortest of the three lists, and no clipping of pixel writes to the texture.
- The confidence pointer is not checked for null, and there is no cap on how many values are read. The model requires that the engine wrote its sentinel (`Native.WellFormed`).

## Model

| member | source | states |
|---|---|---|
| Wrapper.TesseractWrapper.constructor | Assets/Scripts/TesseractWrapper.cs:87-90 | a new wrapper has no handle, no error message, no texture and has made no native call |
| Wrapper.TesseractWrapper.Close | Assets/Scripts/TesseractWrapper.cs:150-157 | on a live handle: End then Delete on it, then the handle is 0. On handle 0: no call at all. So a second `Close` does nothing. The trace stays disciplined |
| Wrapper.CloseCalls | Assets/Scripts/TesseractWrapper.cs:152-155 | `Close` makes no call exactly when the handle is 0 |
| Wrapper.TesseractWrapper.Init | Assets/Scripts/TesseractWrapper.cs:108-147 | It first closes a live handle. It returns true exactly when Create gave a handle, `dataPath` is not null or white space, and Init3 returned 0. Error cases, each with the handle it leaves and the exact calls made: "TessAPICreate failed" (handle 0); "Invalid DataPath" (the created handle left live); "TessAPIInit failed. Output: " and the code (handle closed to 0) |
| Wrapper.TesseractWrapper.Open | Assets/Scripts/TesseractWrapper.cs:113-146 | the same four cases for the part of `Init` after the initial `Close` |
| Text.IsNullOrWhiteSpace | Assets/Scripts/TesseractWrapper.cs:123 | true exactly for null or for a text that is empty once its leading white space is trimmed |
| Text.TrimStartEmptyIff | Assets/Scripts/TesseractWrapper.cs:123 | trimming leaves nothing exactly when every character is white space |
| Text.TrimStart | Assets/Scripts/TesseractWrapper.cs:123 | the result is a suffix of the text, everything cut off is white space, and it does not start with white space |
| Text.IsWhiteSpace | Assets/Scripts/TesseractWrapper.cs:123 | the blank and the newline, the characters the text is later split at, are white space |
| Text.IntToString | Assets/Scripts/TesseractWrapper.cs:135 | a minus sign exactly for a negative code, then decimal digits only, with no leading zero (just "0" for zero) |
| Text.NatToString | Assets/Scripts/TesseractWrapper.cs:135 | at least one digit, digits only, leading with `0` only for zero |
| Text.IntToStringRoundTrip | Assets/Scripts/TesseractWrapper.cs:135 | the Init3 code in the error message reads back to the code, so distinct codes give distinct messages |
| Native.Extend | Assets/Scripts/TesseractWrapper.cs:110-157 | appending a call allowed on the live handle keeps the trace disciplined and moves the live handle as `Next` says |
| Native.AdmissibleAt | Assets/Scripts/TesseractWrapper.cs:110-157 | every call of a disciplined trace was allowed for the handle live when it was made |
| Native.OpenedBy | Assets/Scripts/TesseractWrapper.cs:110-157 | a handle live at one point of the trace but not at an earlier one was returned by a Create between the two |
| Native.NoDoubleDelete | Assets/Scripts/TesseractWrapper.cs:150-157 | of two Delete calls in a disciplined trace, both delete a non-zero handle, and the handle of the second was returned by a Create between them: no handle is deleted twice |
| Wrapper.TesseractWrapper.Recognize | Assets/Scripts/TesseractWrapper.cs:160-325 | Handle 0: returns null and changes nothing (no call, no texture, no memory). A live handle is kept. Otherwise: the result is `RecognizeOutcome`; the texture is recorded; the calls are exactly `RecognizeCalls` on the packed image; the pixels are `Highlights` of the confident words (unchanged on a failed recognition or a negative BOXA count); the image block stays allocated exactly when `LeaksImage` |
| Wrapper.TesseractWrapper.SubmitImage | Assets/Scripts/TesseractWrapper.cs:171-224 | a fresh block at the allocator's address holds exactly `Packed` of `GetPixels32`, and `SetImage` is called with it, the width, the height, 4 and `4 * width` |
| Wrapper.TesseractWrapper.Analyse | Assets/Scripts/TesseractWrapper.cs:227-324 | The result is `RecognizeOutcome`, and the calls are `AnalyseCalls`. A failed `TessBaseAPIRecognize` frees the block and returns null. Otherwise the block is freed unless `LeaksImage` |
| Wrapper.TesseractWrapper.ReadWords | Assets/Scripts/TesseractWrapper.cs:235-324 | After a successful recognition: the result is `RecognizeOutcome`; the calls are `WordCalls`; the pixels are `Highlights`; the block is freed unless `LeaksImage` |
| Wrapper.TesseractWrapper.ReadText | Assets/Scripts/TesseractWrapper.cs:287-324 | The block is freed on every path. A null text pointer: null after one `GetUTF8Text`. Otherwise `Clear` and `TessDeleteText` follow; the result is the filtered words, or `IndexOutOfRangeException` when there are fewer words than boxes |
| Wrapper.TextCalls | Assets/Scripts/TesseractWrapper.cs:287-306 | the text is always fetched; it is cleared and deleted exactly when the pointer is not null |
| Wrapper.WordCalls | Assets/Scripts/TesseractWrapper.cs:235-306 | the confidences and the words are always fetched; the text is fetched exactly when the box loop runs to its end |
| Wrapper.AnalyseCalls | Assets/Scripts/TesseractWrapper.cs:227-306 | `TessBaseAPIRecognize` comes first; nothing follows exactly when it fails |
| Wrapper.RecognizeCalls | Assets/Scripts/TesseractWrapper.cs:223-227 | `SetImage` with 4 bytes per pixel and `4 * width` per line comes first, then `TessBaseAPIRecognize` |
| Wrapper.LeaksExactlyOnEarlyThrow | Assets/Scripts/TesseractWrapper.cs:216-294 | The image block leaks exactly when `Recognize` throws `OverflowException` or `ArgumentOutOfRangeException`. Every other path frees it: failed recognition, null text, the missing word, success |
| Wrapper.RecognizedTextIsConfidentWords | Assets/Scripts/TesseractWrapper.cs:309-324 | When `Recognize` returns text: the box loop ran to its end; there were enough words; the text is the confident words among the first `boxa.n` of the split text, each followed by a blank. Splitting it again gives exactly those words, and it is empty exactly when no word reaches 60 |
| Wrapper.TesseractWrapper.PackPixels | Assets/Scripts/TesseractWrapper.cs:184-209 | the packing loop fills a fresh array with exactly `Packed(colors, width, height)` |
| Wrapper.TesseractWrapper.PackRow | Assets/Scripts/TesseractWrapper.cs:195-208 | the inner loop appends the bytes of row `y`, left to right, and advances the byte pointer by `4 * width`; the bytes before the start and after the new pointer are unchanged |
| Wrapper.TesseractWrapper.PackPixel | Assets/Scripts/TesseractWrapper.cs:204-207 | the four `dataBytes[bytePtr++]` writes append R, G, B and A; every other byte is unchanged |
| Pixels.PackedLength | Assets/Scripts/TesseractWrapper.cs:179-184 | the stream holds `width * height * 4` bytes |
| Pixels.PackedAt | Assets/Scripts/TesseractWrapper.cs:191-209 | byte `4 * ((height - 1 - y) * width + x) + k` is channel `k` (r, g, b, a) of `colors[y * width + x]`: the last row comes first |
| Pixels.CellInGrid | Assets/Scripts/TesseractWrapper.cs:198 | `y * width + x` indexes the colour array for every pixel of the grid |
| Textures.Texture.GetPixels32 | Assets/Scripts/TesseractWrapper.cs:176 | `GetPixels32` returns `width * height` colours |
| Textures.Texture.GetPixels32At | Assets/Scripts/TesseractWrapper.cs:176 | entry `y * width + x` of `GetPixels32` is the pixel at column `x`, row `y` |
| Textures.Texture.SetPixel | Assets/Scripts/TesseractWrapper.cs:338-348 | `SetPixel` sets that one coordinate and changes no other |
| Wrapper.TesseractWrapper.ReadConfidences | Assets/Scripts/TesseractWrapper.cs:235-251 | the `while (true)` loop returns exactly the values before the first -1, in memory order, without the sentinel |
| Results.BeforeSentinelIsPrefix | Assets/Scripts/TesseractWrapper.cs:243-251 | the decoded list is a prefix of the memory, is followed by the sentinel, and does not contain it |
| Results.BeforeSentinelIgnoresTail | Assets/Scripts/TesseractWrapper.cs:243-251 | nothing after the first sentinel is read |
| Wrapper.TesseractWrapper.HighlightBoxes | Assets/Scripts/TesseractWrapper.cs:264-283 | The box loop throws `ArgumentOutOfRangeException` exactly when there are fewer confidences than boxes. Either way, the pixels are `Highlights` of the words reached, and the `boxes` array is `StoredBoxes` of them |
| Wrapper.TesseractWrapper.HighlightWord | Assets/Scripts/TesseractWrapper.cs:270-282 | one pass of the box loop: for a word scored at least 60, stores its box record in `boxes[index]` and adds the outline of that box; otherwise changes neither the pixels nor the array |
| Wrapper.StoredBoxesAt | Assets/Scripts/TesseractWrapper.cs:266-275 | after the box loop, slot `k` holds word `k`'s box record exactly when the loop reached word `k` and it was scored at least 60; every other slot keeps what it held (in `Recognize`, the default of the fresh array) |
| Wrapper.Reached | Assets/Scripts/TesseractWrapper.cs:267-270 | the box loop gets through all `n` boxes or as far as there are confidences, whichever is fewer |
| Wrapper.HighlightsPainted | Assets/Scripts/TesseractWrapper.cs:267-283 | After the box loop: a pixel is magenta when it lies on the outline of a reached word scored at least 60. Every other pixel is as before. No pixel is lost |
| Wrapper.HighlightsStep | Assets/Scripts/TesseractWrapper.cs:267-283 | one more word keeps the box loop's pixels described by `Painted` |
| Wrapper.PaintedStep | Assets/Scripts/TesseractWrapper.cs:270-281 | drawing a confident word's outline over the earlier highlights, or skipping a word that is not confident, gives the highlights of one word more |
| Wrapper.HighlightedStep | Assets/Scripts/TesseractWrapper.cs:270-281 | the highlighted pixels of one word more are the earlier ones plus that word's outline when it is confident |
| Outline.HighlightRect | Assets/Scripts/TesseractWrapper.cs:280 | x, width and height are the box's. `y + height` is `texture.height - box.y` whenever the 32-bit subtraction does not wrap, and is congruent to it modulo 2^32 always |
| Outline.HighlightRectExample | Assets/Scripts/TesseractWrapper.cs:280 | a 20 by 8 box at (10, 5) on a texture 100 high is drawn from row 87 |
| Structures.Wrap32 | Assets/Scripts/TesseractWrapper.cs:280 | the unchecked 32-bit result equals the exact one when it fits, and is congruent to it modulo 2^32 always |
| Wrapper.TesseractWrapper.DrawLines | Assets/Scripts/TesseractWrapper.cs:326-353 | the pixels after both loop nests are `DrawnLines`. That is exactly the outline painted in the colour: every other pixel keeps its colour, and no pixel is removed |
| Outline.DrawnLinesOutlined | Assets/Scripts/TesseractWrapper.cs:334-350 | Writing the pixels of both loop nests in order paints exactly the `OnOutline` pixels in the colour and keeps every other pixel. This holds for every rectangle and thickness, including empty and negative ones |
| Outline.OnOutlineIff | Assets/Scripts/TesseractWrapper.cs:334-350 | `OnOutline` is exactly the set of pixels the strokes at offsets `0 .. thickness - 1` set: `(x, y1+i)`, `(x, y2-i)` for `x1 <= x <= x2` and `(x1+i, y)`, `(x2-i, y)` for `y1 <= y <= y2` |
| Outline.Lines | Assets/Scripts/TesseractWrapper.cs:336 | the inner loop runs `thickness` times, or never when `thickness` is not positive |
| Outline.LoopEnd | Assets/Scripts/TesseractWrapper.cs:334 | the outer loop leaves its variable at `x2 + 1`, or at `x1` when it never runs |
| Outline.ColumnStep | Assets/Scripts/TesseractWrapper.cs:336-340 | one pass of the first inner loop adds `(x, y1 + i)` and `(x, y2 - i)` to what is painted |
| Outline.RowStep | Assets/Scripts/TesseractWrapper.cs:345-349 | one pass of the second inner loop adds `(x1 + i, y)` and `(x2 - i, y)` to what is painted |
| Outline.ColumnDone | Assets/Scripts/TesseractWrapper.cs:334-341 | a finished column leaves the full horizontal bands painted up to it |
| Outline.RowDone | Assets/Scripts/TesseractWrapper.cs:343-350 | a finished row leaves the full vertical bands painted up to it |
| Outline.PaintColumnsDrawn | Assets/Scripts/TesseractWrapper.cs:334-341 | the first loop nest paints exactly the horizontal bands of the columns it has passed |
| Outline.PaintRowsDrawn | Assets/Scripts/TesseractWrapper.cs:343-350 | the second loop nest adds exactly the vertical bands of the rows it has passed |
| Wrapper.TesseractWrapper.FilterWords | Assets/Scripts/TesseractWrapper.cs:311-324 | Given enough words and confidences, the `StringBuilder` loop returns `Filtered`. Otherwise it throws: `IndexOutOfRangeException` when the words give out first (or together), `ArgumentOutOfRangeException` when the confidences do |
| Results.FilteredIsJoinOfKept | Assets/Scripts/TesseractWrapper.cs:313-324 | the filtered text is the confident words, in order, each followed by one blank |
| Results.KeptWordsExactly | Assets/Scripts/TesseractWrapper.cs:316-319 | a word is kept exactly when some word of the first `n` equal to it is scored at least 60 |
| Results.FilteredEmptyIff | Assets/Scripts/TesseractWrapper.cs:313-324 | the text is empty exactly when none of the first `n` words is scored at least 60 |
| Results.FilteredSplitsIntoKept | Assets/Scripts/TesseractWrapper.cs:309-324 | splitting the filtered text again gives back exactly the kept words |
| Results.FilteredExample | Assets/Scripts/TesseractWrapper.cs:313-324 | scores 80, 40, 61 for "Hello", "World", "Foo" give "Hello Foo " |
| Results.SplitJoinSpaced | Assets/Scripts/TesseractWrapper.cs:309-310 | splitting tokens joined by blanks gives the tokens back |
| Text.SplitWords | Assets/Scripts/TesseractWrapper.cs:309-310 | the first entry, when there is one, is a token: non-empty, with no blank or newline |
| Text.SplitWordsEmptyIff | Assets/Scripts/TesseractWrapper.cs:309-310 | the text splits into no entry exactly when it consists of blanks and newlines only |
| Text.SplitWordsUnfold | Assets/Scripts/TesseractWrapper.cs:309-310 | a text with a non-separator splits into its leading word after the separators, followed by the entries of what comes after that word |
| Text.SplitWordsSkipsSeparator | Assets/Scripts/TesseractWrapper.cs:309-310 | a blank or newline in front of the text adds no entry |
| Text.SplitWordsAreTokens | Assets/Scripts/TesseractWrapper.cs:309-310 | `Split` with `RemoveEmptyEntries` gives only non-empty entries without a blank or newline |
| Text.SplitWordsCons | Assets/Scripts/TesseractWrapper.cs:309-310 | a token followed by a blank splits off as one entry |
| Text.SkipSeparators | Assets/Scripts/TesseractWrapper.cs:309-310 | what is left after the leading separators is a suffix of the text, and it starts with no separator |
| Text.LeadingWord | Assets/Scripts/TesseractWrapper.cs:309-310 | the next entry is the longest prefix without a separator |
| Native.UnmanagedMemory.AllocHGlobal | Assets/Scripts/TesseractWrapper.cs:216 | a new block of `cb` bytes at the allocator's address, the rest of the heap unchanged |
| Native.UnmanagedMemory.Copy | Assets/Scripts/TesseractWrapper.cs:220 | the first `length` bytes of the block are the source bytes; the rest of the block and of the heap are unchanged |
| Native.UnmanagedMemory.FreeHGlobal | Assets/Scripts/TesseractWrapper.cs:230 | the block is released, the rest of the heap unchanged |

The `Box` and `Boxa` datatypes in `structures.dfy` are the records of
`Assets/Scripts/Structures/Box.cs` (lines 8-15) and
`Assets/Scripts/Structures/Boxa.cs` (lines 8-14). They hold no behaviour.

## Left out

- The `DllImport` declarations and the library itself. Each native call is a trace entry, and its result is a parameter of the operation that makes it.
- `Version`: it only returns a library string. String marshalling (`PtrToStringAnsi`, `PtrToStringAuto`) is foreign decoding; the model takes the decoded text as given.
- `GetErrorMessage` and `GetHighlightedTexture`: they only read a field, `errorMsg` or `highlightedTexture`.
- The `catch` block of `Init` (lines 140-144): it receives the errors the .NET runtime raises when it cannot bind a P/Invoke call, such as `DllNotFoundException` or `EntryPointNotFoundException`, from `TessBaseAPICreate`, `TessBaseAPIInit3` or the `Close` inside the `try`. It sets the message to the exception text and returns false. When `TessBaseAPIInit3` is the call that fails, the just-created handle stays live, unlike the non-zero-code path, which closes it. Binding failures are not modelled: every native call returns.
- `Debug.Log` in the final loop: it is output only. Its evaluation of `words[i]` before `confidence[i]` is kept, since it decides which exception is thrown.
- `Texture2D.Apply`: it uploads to the GPU and changes no pixel.
- Unity's treatment of out-of-range `SetPixel` coordinates: every write is recorded under the coordinates it was given.
- Floating point:
  - `Rect` holds floats and `MinimumConfidence` is a float. The model uses integers, which is exact while coordinates stay below 2^24.
  - `Color.magenta` is taken in its `Color32` form (255, 0, 255, 255).
  - The float sums `x + width` and `y + height` in `DrawLines` are taken exactly, with no 32-bit wrap-around.
- `Wrapper.TesseractWrapper.PackPixels`: does not model the 32-bit overflow of `width * height * 4`. Unity limits a texture to 16384 pixels a side, so the product fits.
- `Wrapper.TesseractWrapper.DrawLines`: does not model the unchecked `int` wrap-around of `x++` and `y++` at `Int32.MaxValue`, nor of the `SetPixel` arguments `y1 + i`, `y2 - i`, `x1 + i` and `x2 - i`, which wrap when `y1`, `y2`, `x1` or `x2` lies within `thickness` of an int32 bound (`HighlightRect` can put `rect.y` anywhere in the int32 range). The coordinates are unbounded integers, and every write is recorded unwrapped.
- A null BOXA pointer from `TessBaseAPIGetWords`: the model assumes the engine returns a BOXA header. A null confidence pointer: the model requires the sentinel (`Native.WellFormed`).
- `Text.IntToString`: models the culture-invariant rendering. `"..." + init` uses the current culture's `NegativeSign`, which may differ from `-` for the negative codes Init3 usually returns; culture data is outside the model.
- `Recognize(null)`: reading `width` of a null texture throws `NullReferenceException`. The model's texture parameter is a non-null reference, so that exception is not modelled.
- `GetPixels32` on a texture without read/write access throws in Unity. The model's texture is always readable.
- `Marshal.AllocHGlobal` can throw `OutOfMemoryException`. The model's allocator always succeeds at the address it is given.
- `Marshal.AllocHGlobal`'s uninitialised contents are modelled as zero bytes. Only the copied bytes are used.
- The platform size of `IntPtr`: the model reads box pointers as a sequence of addresses.
- `Assets/Scripts/TesseractDriver.cs` and `Assets/Scripts/TesseractDemoScript.cs`: the application code around the wrapper (the data path, the UI, the frame hook).
