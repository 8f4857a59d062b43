# Image to Base64 Converter — a Dafny model of the page logic

The converter is a single Next.js page (`src/app/page.tsx`). The user picks an
image. The browser reads it as a data URL and redraws it on a canvas at a
quality from 1 to 100 (the canvas is scaled by quality / 100 and exported as
JPEG at 0.9). The page shows the resulting data URL, its size in bytes, the
size of a PNG export of the same canvas, and the data URL cut into chunks of
1000 characters inside a JavaScript snippet:

```
export default base64Image = [
  "<chunk 1>",
  "<chunk 2>"
].join("");
```

This project models that logic in Dafny:

- `Chunking`: the loop of `splitBase64`, as a method (`SplitChunks`) proved
  against the specification function `Chunks`, and the properties of `Chunks`:
  concatenation gives back the input, where each chunk sits, how long each chunk
  is, and how many chunks there are.
- `Literal`: the text `splitBase64` renders (`Render`). Its partner is an
  evaluator (`Evaluate`) that reads the header, the quoted items, the separators
  and the footer, and joins the items. Rendering the chunks of any string
  without quotes, backslashes or line breaks evaluates back to that string.
  Base64 data URLs are such strings.
- `Decimal` and `ByteFormat`: `formatBytes`, with a reader (`ParseSize`) of the
  text it produces. The KB and MB branches are modelled exactly, not only their
  unit. The divisors 1024 and 1048576 are powers of two, so `bytes / 1024` is
  exact in binary floating point for any integer byte count below 2^53.
  `toFixed(2)` then prints the integer n nearest to 100 · bytes / D, taking the
  larger n on a tie, with two digits after the point. So the model computes
  n = (200 · bytes + D) / (2 · D).
- `Utf8`: `new Blob([text]).size`, the UTF-8 byte length of the text.
- `Page`: the component's state fields. One `PageState` value holds them and
  the transition functions `OnImageChange`, `OnSliderChange`, `OnRemove` and
  `OnCopy` act on it. The class `HomePage` holds the same fields as mutable
  fields, and its handler methods are proved to move its state as those
  functions say. The methods also keep the invariant `Consistent`.

The canvas recompression is a function value `compress` that the page is given.
It takes a data URL and a quality and returns the JPEG data URL and, when the
PNG blob is not null, the PNG size. It is never inspected, so every property
about it holds for any canvas behaviour. The chosen file is an input of
`HandleImageChange`: its size, the data URL the FileReader produced, and the
dimensions of the decoded image (None when the image element does not load
it). Whether the clipboard accepts a write is an input of `HandleConvertBase64`.

Some behaviours of the code are easy to misread. The model does what the code does:

- An empty string gives zero chunks, not one empty chunk, because the loop body
  never runs. It renders as `export default base64Image = [\n  \n].join("");`.
- Choosing a file compresses it at the quality the slider currently shows. The
  quality is not reset to 100 (line 51).
- Remove does not reset `quality`, `formattedBase64` or `imageDimensions`.
  Choosing an image and removing it therefore does not give back the initial
  state (`Page.IngestThenRemoveIsNotInitial`).
- A recompression sets the PNG size only when the PNG blob is not null. A null
  blob leaves the earlier PNG size in place.

## Model

| member | source | states |
|---|---|---|
| `Chunking.SplitChunks` | src/app/page.tsx:147-151 | the loop's chunks are exactly `Chunks(s, size)`; they concatenate back to `s`; there are ceil(\|s\| / size) of them; chunk k is `s[k*size .. min((k+1)*size, \|s\|)]`; all but the last have `size` characters and the last has 1 to `size` |
| `Chunking.ChunksConcat` | src/app/page.tsx:148-151 | concatenating the chunks in order gives back the input exactly |
| `Chunking.ChunksCount` | src/app/page.tsx:149-150 | the number of chunks is (\|s\| + size - 1) / size, so the empty string gives none |
| `Chunking.ChunkAt` | src/app/page.tsx:149-150 | the k-th chunk starts at k·size (inside the string) and is the slice `s.slice(k*size, k*size + size)`, clamped at the end |
| `Chunking.ChunkLengths` | src/app/page.tsx:149-150 | every chunk but the last has exactly `size` characters; the last has between 1 and `size` |
| `Literal.ParseJoined` | src/app/page.tsx:153 | reading back the quoted chunks joined by `,\n  ` gives the chunk list, when no chunk holds a quote, backslash or line break |
| `Literal.EvaluateRender` | src/app/page.tsx:153 | the rendered snippet of any list of plain chunks evaluates to their ordered concatenation |
| `Literal.RenderRoundTrip` | src/app/page.tsx:147-155 | the rendered snippet of the chunks of a plain string evaluates to that string, for every chunk size |
| `Literal.RenderEmpty` | src/app/page.tsx:147-153 | with the default chunk size 1000 the empty string renders as `export default base64Image = [\n  \n].join("");`, which evaluates to "" |
| `Decimal.NatToStringCanonical` | src/app/page.tsx:119 | `${n}` is a non-empty run of digits without a leading zero (except "0") |
| `Decimal.ParseNatToString` | src/app/page.tsx:119 | reading the digits of n back gives n |
| `Decimal.NatToStringParse` | src/app/page.tsx:119 | every canonical digit text is the text of the number it denotes |
| `ByteFormat.UnitThresholds` | src/app/page.tsx:118-121 | the unit is B iff bytes < 1024, KB iff 1024 ≤ bytes < 1048576, MB otherwise |
| `ByteFormat.HundredthsNearest` | src/app/page.tsx:120-121 | the hundredths shown lie within half a hundredth of bytes / D, a tie rounding up, as `toFixed(2)` rounds |
| `ByteFormat.FormatBytesReads` | src/app/page.tsx:118-122 | the text of a byte count reads back as its unit and its shown value: the count itself in B, the rounded quotient in KB and MB |
| `ByteFormat.FormatBytesMeaning` | src/app/page.tsx:118-122 | read back, the text shows the count unchanged below 1024 and otherwise a value within half a hundredth of bytes / 1024 or bytes / 1048576, in the unit the thresholds choose |
| `ByteFormat.FormatBytesExampleB` | src/app/page.tsx:119 | 500 bytes shows as "500 B" and 0 bytes as "0 B" |
| `ByteFormat.FormatBytesExampleKB` | src/app/page.tsx:120 | 2048 bytes shows as "2.00 KB" |
| `ByteFormat.FormatBytesExampleMB` | src/app/page.tsx:121 | 5242880 bytes shows as "5.00 MB" |
| `ByteFormat.FormatBytesTopOfKB` | src/app/page.tsx:120 | 1048575 bytes is still in the KB branch and shows as "1024.00 KB" |
| `Utf8.ByteLengthBounds` | src/app/page.tsx:76 | the Blob size of a text is between its length and four times its length |
| `Utf8.AsciiByteLength` | src/app/page.tsx:76 | the Blob size of an ASCII text, such as a data URL, is its length |
| `Utf8.ByteLengthIsLengthOnlyIfAscii` | src/app/page.tsx:76 | a text whose Blob size equals its length is ASCII |
| `Page.HomePage.constructor` | src/app/page.tsx:9-19 | the initial state: empty messages, no original, the default avatar as preview, empty chunked text, no sizes or dimensions, quality 100 |
| `Page.HomePage.SplitBase64` | src/app/page.tsx:147-156 | stores the rendered snippet of the chunks of the string; nothing else changes |
| `Page.HomePage.ApplyQualityCompression` | src/app/page.tsx:61-85 | sets preview to the canvas's JPEG data URL, the chunked text to its split, the base64 size to its Blob size, and the PNG size only when the blob exists |
| `Page.HomePage.HandleImageChange` | src/app/page.tsx:34-59 | moves the state as `OnImageChange` and keeps `Consistent` |
| `Page.HomePage.HandleConvertBase64` | src/app/page.tsx:87-109 | moves the state as `OnRemove` (remove) or `OnCopy` (copy), returning what was written to the clipboard, and keeps `Consistent` |
| `Page.HomePage.HandleSliderChange` | src/app/page.tsx:111-116 | moves the state as `OnSliderChange` and keeps `Consistent` |
| `Page.InitialConsistent` | src/app/page.tsx:9-19 | the initial state satisfies the invariant |
| `Page.IngestKeepsConsistent` | src/app/page.tsx:34-59 | choosing a file keeps the invariant: slider enabled iff an original is stored; a stored original has file size, base64 size and dimensions |
| `Page.SliderKeepsConsistent` | src/app/page.tsx:111-116 | a slider move within 1..100 keeps the invariant |
| `Page.RemoveKeepsConsistent` | src/app/page.tsx:89-100 | remove keeps the invariant |
| `Page.CopyKeepsConsistent` | src/app/page.tsx:89-108 | copy keeps the invariant |
| `Page.IngestNoFile` | src/app/page.tsx:35-36 | without a file the handler changes nothing |
| `Page.IngestCompressesAtCurrentQuality` | src/app/page.tsx:38-53 | a decodable file sets the file size, stores the original and its dimensions, and compresses at the current quality (not 100); the preview, chunked text and base64 size come from that compression; the slider is enabled and the error cleared |
| `Page.IngestUndecodable` | src/app/page.tsx:38-55 | a file the image element cannot load changes only the file size and the preview; a previously stored original and its derived fields stay |
| `Page.SliderWithoutImage` | src/app/page.tsx:111-116 | without a stored original the slider only sets `quality` |
| `Page.SliderRecompressesOriginal` | src/app/page.tsx:73-82 | with a stored original the slider sets `quality` and recompresses the original (never the preview); only preview, chunked text, base64 size and PNG size change |
| `Page.SliderDoesNotCompound` | src/app/page.tsx:111-116 | moving to a then b equals moving straight to b, except for a PNG size left from a when b yields no blob |
| `Page.SliderIdempotent` | src/app/page.tsx:111-116 | moving the slider twice to the same value equals moving it once |
| `Page.RemoveEffects` | src/app/page.tsx:89-100 | remove gives the initial state except that quality, chunked text and dimensions are kept; the interim base64 size of line 93 is overwritten |
| `Page.RemoveRestoresInitialIff` | src/app/page.tsx:89-100 | remove gives back exactly the initial state iff quality is 100, the chunked text is empty and there are no dimensions |
| `Page.RemoveIdempotent` | src/app/page.tsx:89-100 | removing twice is removing once |
| `Page.IngestThenRemoveIsNotInitial` | src/app/page.tsx:48-53 | choosing a decodable image and removing it does not return to the initial state |
| `Page.CompressedLiteralMatchesPreview` | src/app/page.tsx:73-75 | after a recompression the chunked text evaluates to the very string stored as preview |
| `Page.SliderLiteralMatchesPreview` | src/app/page.tsx:111-116 | after a slider move with a stored original, the chunked text evaluates to the new preview |
| `Page.CopyOutcome` | src/app/page.tsx:89-108 | copy clears both messages; it writes the preview and reports success iff there is a preview and the write is accepted; it reports "No image selected!" iff there is no preview; no other field changes |

## Left out

- Canvas drawing, JPEG and PNG encoding, `toDataURL` and `toBlob` (lines 61-85, 124-145) are browser calls. They are the given function `compress`, so nothing is claimed about the pixels, the scaled size `img.width * (quality / 100)`, or how the size depends on quality.
- Base64 encoding and decoding are done by the browser (`readAsDataURL`, `toDataURL`). The repository has no implementation of its own.
- `handleDownloadPng` (lines 124-145) only draws, exports and clicks a download link. It changes no state.
- FileReader, the image element's load event and the clipboard are inputs of the handlers. Their callbacks are run to completion inside one handler, so interleavings are not modelled: another event arriving while a load or a canvas export is pending, or the `quality` captured by the closure of line 51 differing from the current one.
- The 5-second timer that clears the messages (lines 21-32), and all JSX rendering, including where the sizes are displayed through `formatBytes` (lines 158-260). `src/app/layout.tsx` holds only page metadata and a wrapper.
- Strings are sequences of Unicode scalar values, while JavaScript slices UTF-16 code units. The two agree on data URLs, which are ASCII.
- `ByteFormat.FormatBytes` is modelled for the exact integer byte counts that JavaScript numbers hold (below 2^53). Above 10^21, where `toFixed` switches to exponent notation, the model does not follow the source.
- `Page.HomePage.HandleSliderChange` requires a value from 1 to 100. The range input (lines 196-201) produces nothing else, and the invariant's quality bound depends on it.
