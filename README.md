# PDF study-guide generator: verified model of the text chunker

The application turns an uploaded PDF into a Markdown study guide. It
extracts the text, splits it into overlapping chunks, sends each chunk to a
hosted language model, concatenates the successful answers, asks the model
for one final analysis, and wraps that analysis in a fixed Markdown header
and footer. The only reproducible logic is in `main.py`. This project
models it in Dafny:

- `chunker.dfy` (module `Chunker`): `chunk_text`, the sliding-window
  splitter. `ChunkText` is the loop of the source (a cursor `start`, a list
  `chunks` that grows by one window per pass). It is proved equal to the
  closed form `Chunks`: the i-th chunk is the window of `chunkSize`
  characters at offset `i * (chunkSize - overlap)`, truncated at the end of
  the text, for every such offset below `|text|`.
- `chunker_properties.dfy` (module `ChunkerProperties`): what the chunks
  satisfy. This covers their windows, their number (the ceiling of
  `|text| / step`), when there is exactly one, full-size chunks, the
  trailing chunk that repeats text, the shared overlap of neighbours,
  coverage of every character, and reconstruction of the text from the
  chunks.
- `study_guide.dfy` (module `StudyGuide`): `create_markdown_from_ai_analysis`
  and the download file name `name.replace('.pdf', '') + "_study_guide.md"`.
- `pipeline.dfy` (module `Pipeline`): the loop in `main` that keeps the
  successful chunk analyses in chunk order, and the flow from extracted
  text to study guide with its three failure exits.
- `wrappers.dfy` (module `Wrappers`): `Option` for Python's `None`, and
  `Present`, Python's truth test on an optional string.

The two calls to the hosted model are function parameters that return
`Option<string>`. `None` stands for a failed call, since the source catches
every exception and returns `None`.

Some of the code's behaviour differs from what a reader of `chunk_text`
and of the download line might first expect:

- A text of at most `chunkSize` characters does not always give one chunk.
  The loop tests the cursor after subtracting the overlap, so a text gives
  one chunk only when it is at most `chunkSize - overlap` long. With the
  defaults, 6000 characters give two chunks, `[0:6000)` and `[5500:6000)`
  (`JustOverOneStep`, `SingleChunk`).
- The number of chunks is `ceil(len / step)`, with `step = chunkSize -
  overlap`, not `ceil((len - overlap) / step)` (`ChunkCountIsCeiling`).
- Consecutive chunks start one step apart. For a 12000-character text the
  chunks are `[0:6000)`, `[5500:11500)` and `[11000:12000)`
  (`TwelveThousandCharacters`).
- Not every chunk but the last is full-size. When the trailing chunk has at
  most `overlap` characters, its predecessor already ends at the end of the
  text, and the trailing chunk repeats that predecessor's tail
  (`LastChunkRedundancy`). When it has fewer than `overlap` characters,
  the predecessor is cut short as well. With `overlap <= step`, every chunk
  but the last two is full-size (`FullChunks`).
- The configuration is never checked. With `chunkSize <= overlap` the
  cursor does not advance and the loop never ends on non-empty text, so
  `ChunkText` requires `overlap < chunkSize`.
- The download name does not strip only a trailing `.pdf`. Every
  occurrence of `.pdf` anywhere in the name is removed
  (`DownloadName`, `EveryOccurrenceRemoved`).

## Model

| member | source | states |
|---|---|---|
| `Chunker.ChunkText` | main.py:34-48 | The cursor loop returns exactly the closed-form chunk list `Chunks(text, chunkSize, overlap)`. It requires `overlap < chunkSize`, without which the cursor does not advance. |
| `Chunker.Chunks` | main.py:36-39 | The chunk list is empty if and only if the text is empty. |
| `Chunker.Slice` | main.py:41 | Python's `text[start:end]`: its length is `min(end, len) - start` when `start < len` and `start < end`, else 0, and character `j` is `text[start + j]`. |
| `Chunker.ChunkCount` | main.py:39-46 | The number of chunks `k` is the least count whose cursor reaches the text length: `n <= Start(k)`, and `Start(k - 1) < n` unless `k == 0`. |
| `Chunker.CountUnique` | main.py:39-46 | Any `k` meeting those two conditions equals `ChunkCount`, so the loop's exit condition fixes the number of chunks. |
| `Chunker.BelowCount` | main.py:39 | A cursor position below the text length is one of the counted chunk starts. |
| `Chunker.StartIsProduct` | main.py:37-43 | After `i` passes the cursor is at `i * (chunkSize - overlap)`. |
| `Chunker.StartMonotone` | main.py:43 | Cursor positions never decrease. |
| `Chunker.StartIncreasing` | main.py:43 | With a positive step, chunk start offsets strictly increase by at least one step. |
| `Chunker.ChunkAt` | main.py:40-42 | The i-th chunk starts inside the text and is the text between its start and its end, the end being cut at the text length. |
| `Chunker.NextChunk` | main.py:39-43 | While the cursor is inside the text, the chunk the loop emits there is the next chunk of the closed form, and that chunk exists. |
| `Chunker.ChunkShape` | main.py:39-42 | Every chunk starts inside the text, is non-empty and has at most `chunkSize` characters. |
| `ChunkerProperties.ChunkWindows` | main.py:40-43 | Chunk `i` is `text[i*step : min(i*step + chunkSize, len)]`, and `i*step < len`. |
| `ChunkerProperties.ChunkCountIsCeiling` | main.py:39-46 | The number of chunks is `(len + step - 1) / step`, the ceiling of `len / step`. |
| `ChunkerProperties.SingleChunk` | main.py:39-46 | Non-empty text gives exactly one chunk if and only if `len <= chunkSize - overlap`, and that chunk is the whole text. |
| `ChunkerProperties.LastChunkReachesEnd` | main.py:39-45 | The last chunk ends exactly at the end of the text. |
| `ChunkerProperties.FullChunks` | main.py:40-42 | When `overlap <= step`, every chunk but the last two has exactly `chunkSize` characters. |
| `ChunkerProperties.LastChunkRedundancy` | main.py:43-46 | With two or more chunks, the last chunk has at most `overlap` characters if and only if its predecessor already reached the end of the text. In that case the last chunk is a suffix of its predecessor. |
| `ChunkerProperties.ConsecutiveOverlap` | main.py:40-43 | After its first `step` characters, a chunk continues exactly as the next chunk begins, for `overlap` characters or up to the end of the text. |
| `ChunkerProperties.StartBefore` | main.py:43 | Every offset lies within one step after some cursor position. |
| `ChunkerProperties.Coverage` | main.py:39-46 | Every character index of the text lies inside some chunk, and that chunk holds the same character there. |
| `ChunkerProperties.ReassemblePrefix` | main.py:40-43 | Joining the first `j` chunks, each after the first with its leading `overlap` characters dropped, gives the text up to the end of chunk `j`. |
| `ChunkerProperties.Reconstruction` | main.py:34-48 | `chunks[0] + chunks[1][overlap:] + ... + chunks[n-1][overlap:]` equals the text. |
| `ChunkerProperties.JustOverOneStep` | main.py:34-48 | With the defaults, a text of 5501 to 6000 characters, 6000 included, gives two chunks: the whole text and `text[5500:]`. |
| `ChunkerProperties.TwelveThousandCharacters` | main.py:34-48 | With the defaults, 12000 characters give `[0:6000)`, `[5500:11500)` and `[11000:12000)`. |
| `StudyGuide.CreateMarkdown` | main.py:174-210 | The result is the error message if and only if the analysis is `None` or empty. Otherwise it begins with `# <name> - Study Guide` and holds the analysis verbatim between the fixed header and footer. |
| `StudyGuide.AnalysisRoundTrip` | main.py:179-210 | The analysis can be read back out of the document, so the document embeds it unmodified. |
| `StudyGuide.ErrorMessageIsNoGuide` | main.py:176-177 | The error message is not a study guide for any document name. |
| `StudyGuide.CreateMarkdownInjective` | main.py:179-210 | Different non-empty analyses give different documents. |
| `StudyGuide.RemovePdf` | main.py:299 | `name.replace('.pdf', '')` never lengthens the name and removes a multiple of four characters. |
| `StudyGuide.DownloadName` | main.py:299 | The download name ends with `_study_guide.md`. It is the name plus that suffix if and only if `.pdf` does not occur in the name; otherwise the part before the suffix is shorter than the name. At every occurrence of `.pdf`, the result is the replacement applied to the part before it and to the part after it, so every occurrence is removed. |
| `StudyGuide.RemovePdfChanges` | main.py:299 | The replacement leaves a name unchanged if and only if `.pdf` does not occur in it. Otherwise it makes the name shorter. |
| `StudyGuide.RemovePdfSplit` | main.py:299 | Removing `.pdf` from `a + ".pdf" + b` gives the removal from `a` followed by the removal from `b`. |
| `StudyGuide.RemoveTrailingPdf` | main.py:299 | Removing `.pdf` from a base without `.pdf` followed by `.pdf` gives the base back. |
| `StudyGuide.DownloadNameOfPdf` | main.py:299 | `base.pdf`, where `base` has no `.pdf`, gives `base_study_guide.md`. |
| `StudyGuide.EveryOccurrenceRemoved` | main.py:299 | `a.pdf` followed by `b.pdf`, where `a` and `b` have no `.pdf`, gives `ab_study_guide.md`. Every occurrence is removed, not only the suffix. |
| `StudyGuide.ReplacementCanLeavePdf` | main.py:299 | One left-to-right pass can leave a `.pdf` behind: `..pdfpdf` becomes `.pdf`. |
| `StudyGuide.UpperCaseExtensionKept` | main.py:299 | The match is case-sensitive: a base without `.pdf` followed by `.PDF` is kept whole, so `Scan.PDF` gives `Scan.PDF_study_guide.md`. |
| `Pipeline.Responses` | main.py:269-272 | One analyser response per chunk, each call given the chunk, its 1-based number, the chunk total and the document name. |
| `Pipeline.Successful` | main.py:273-274 | The kept results are no more than the responses. Each is non-empty and was returned by some call. None is kept if and only if no call succeeded. |
| `Pipeline.SuccessfulAppend` | main.py:269-275 | Filtering commutes with concatenation, so results stay in chunk order. |
| `Pipeline.AllSuccessful` | main.py:269-275 | When every call succeeds, every result is kept, at its chunk's position. |
| `Pipeline.CollectResults` | main.py:265-275 | The result loop returns exactly the successful responses for the chunks, in chunk order. |
| `Pipeline.Process` | main.py:255-305 | Ends with no text exactly when extraction gave `None` or empty text. Otherwise it reports no chunk results exactly when no analysis succeeded, and a failed final analysis exactly when the combiner gave `None` or empty text. Otherwise it yields the Markdown built from the final analysis, which reads back to that analysis, and the derived download name. |

## Left out

- PDF text extraction with PyPDF2 (main.py:22-32) is a foreign library call. `Process` takes the extracted text, or `None`, as a parameter.
- Loading the API key from the environment (main.py:12-20) is I/O. When the key is missing, the sidebar calls `st.stop()` (main.py:226-229) before the uploader is shown, so no document is processed; this stop belongs to the interface and is left out with it. The `if not GOOGLE_API_KEY` guards inside the two model calls (main.py:52-53, main.py:102-103) are not reachable from `main` and are not modelled.
- The calls to the hosted model and their prompt texts (main.py:50-172) are network calls. They are the parameters `analyze` and `combine`. The answers are opaque strings, and an error report plus `None` is modelled as `None`.
- The Streamlit interface is presentation. This covers page setup, sidebar, uploader, spinners, progress bar, status lines, the 3000-character preview (main.py:293), the download button and the footer (main.py:212-334).
- The progress fraction and the success-rate percentage (main.py:275, main.py:315) are floating-point display values.
- The imports `re`, `Counter`, `pandas`, `markdown` and `io` (main.py:5-10) are not used by any logic.
- Chunker.ChunkText: models non-negative `overlap` below `chunkSize` only. Python would also accept a negative overlap, which leaves gaps between chunks, or a chunk size of zero or less, where negative slice bounds count from the end of the text. The application only uses the defaults 6000 and 500.
- Determinism has no lemma of its own, because every Dafny function is deterministic by construction.
