# chat-with-pdf backend, modelled in Dafny

This project models the algorithmic core of `backend/app.py` of the
chat-with-pdf backend. That file is a FastAPI service that:

- splits the text of each PDF page into overlapping chunks;
- stores every chunk whose embedding succeeds, labelled with its page and
  chunk number, next to its embedding vector in a FAISS index;
- answers a question by embedding it, searching the index for neighbours
  and assembling the neighbours' texts into a context plus a list of
  source labels.

Files:

- `wrappers.dfy` (`Wrappers`): the `Option` type, used for the embedding
  provider's answer and for Python lookups that may raise.
- `text.dfy` (`Text`): the Python string operations the code relies on:
  - `str.strip` with Python's whitespace set;
  - `str.rfind` over a slice, where a match must lie wholly inside the slice;
  - `split(": ", 1)[0]` and `split(".")[-1]`;
  - ASCII `lower`;
  - `join`;
  - the decimal rendering of a number in an f-string.
- `chunker.dfy` (`Chunker`): `chunk_text`.
  - `ChunkText` is its loop, and `SnapWindowEnd` is the part of the loop
    body that computes `end`.
  - Both are proved against the functions `WindowEnd`, `NextStart`,
    `Windows` and `Chunks`.
  - Lemmas prove the chunk bounds, how the window end snaps to a break,
    termination, and that the windows tile the text.
- `ingestion.dfy` (`Ingestion`): what an upload should store, as pure
  functions of the page texts and the embedding oracle, with lemmas about
  it:
  - the extension check;
  - the provenance, order and count of the stored entries;
  - that a document's label is recovered by splitting at `": "`, and that
    labels are injective.
- `retrieval.dfy` (`Retrieval`): the list comprehensions of
  `chat_with_pdf`, including Python's negative indexing of the FAISS `-1`
  padding.
- `app.dfy` (`App`): the mutable state.
  - `VectorIndex` is the FAISS index, as the sequence of vectors added
    since the last reset.
  - `Backend` holds the `documents` list and the index. Its invariant
    `Valid` says that document k and vector k come from the same stored
    entry.
  - `Upload` is `upload_pdf`, as nested loops; `StorePage` is the inner
    loop.
  - `Chat` is `chat_with_pdf` up to the language-model call.

The embedding provider is a parameter `embed: string -> Option<Vector>`.
The FAISS search is a parameter `search(vectors, query, top_k)` that
returns the row of neighbour indices. The PDF text extraction is replaced
by the list of page texts passed to `Upload`.

Behaviour of the code worth knowing:

- A window that ends at a ". " break ends just past the '.', so the chunk
  keeps the '.' and not the space after it.
- A text no longer than `chunk_size` is returned whole and unstripped, so
  the empty page gives one empty chunk.
- After the window that reaches the end of the text, the loop emits one
  more window whenever `end - overlap` is still ahead of `start`. That
  window holds the last `overlap` characters, which the previous chunk
  already contains (`Chunker.TrailingWindowRepeatsTail`). A 2500-character
  page without breaks, with `chunk_size=1000, overlap=200`, gives four
  chunks, the last repeating the tail of the third.
- A `-1` index with no stored documents raises IndexError: the filter
  `idx < len(documents)` keeps it and `documents[-1]` fails. The model
  returns `Answer.IndexError` in that case.

## Model

| member | source | states |
|---|---|---|
| Text.Strip | backend/app.py:47 | the result is the slice left after removing the leading and trailing whitespace: both removed parts are all whitespace, its first and last characters are not, and it is empty exactly when the input is all whitespace |
| Text.RFind | backend/app.py:40-42 | -1 exactly when no occurrence lies wholly inside s[lo:hi]; otherwise the last such occurrence |
| Text.SplitHead | backend/app.py:127 | a prefix of the input containing no occurrence of the separator, followed in the input by the separator unless it is the whole input |
| Text.LastField | backend/app.py:67 | the suffix after the last '.', containing no '.', preceded by '.' unless it is the whole name |
| Text.Lower | backend/app.py:67 | same length, each ASCII capital replaced by its small letter |
| Text.Join | backend/app.py:111 | the joined text has the summed length of the parts plus one separator between each pair; no parts give "" |
| Text.JoinAt | backend/app.py:111 | the joined text holds every part in order, part k starting after the parts before it and one separator after each of them, with a separator right before every part but the first |
| Text.JoinPart | backend/app.py:111 | part k and the separator before it sit at their offset in the joined text |
| Text.JoinLast | backend/app.py:111 | the last part ends the joined text, right after a separator |
| Text.NatToString | backend/app.py:89 | a non-empty digit string that denotes n and has no leading zero |
| Chunker.WindowEnd | backend/app.py:36-45 | the window end is strictly after start, at most chunk_size past it, and within the text; it is the text's end when the window reaches it, and otherwise past the window's middle |
| Chunker.WindowEndSnaps | backend/app.py:38-45 | the end is just past the last ". " lying wholly in the look-back region; failing that, just past the last newline there; failing both, it is unchanged |
| Chunker.SnapWindowEnd | backend/app.py:36-45 | the statements that compute `end` yield WindowEnd |
| Chunker.NextStart | backend/app.py:48 | for chunk_size >= 2 the next start is strictly later; it is never before end - overlap; with overlap >= 0 and an end past the window's middle it is at most end |
| Chunker.Windows | backend/app.py:34-48 | every visited window lies in the text, starts at or after the first start, is non-empty and is at most chunk_size long; there are windows exactly when start < len(text) |
| Chunker.ChunkText | backend/app.py:29-50 | the loop returns Chunks, the stripped text of each window Windows visits, or [text] for a text that fits in one chunk, whatever chunk_size is |
| Chunker.ChunkStep | backend/app.py:46-48 | one turn of the loop appends the current window's stripped text and moves on to the windows from the next start |
| Chunker.PiecesAt | backend/app.py:47 | piece k is the stripped text of window k, and there is one piece per window |
| Chunker.ChunksAreStrippedWindows | backend/app.py:31-32 | a text of at most chunk_size characters gives exactly [text], unstripped; a longer one gives the stripped text of each window in order |
| Chunker.ChunkLengthBound | backend/app.py:36 | no chunk is longer than chunk_size |
| Chunker.WindowsTile | backend/app.py:34-48 | with overlap >= 0 the first window starts at start and the last ends at len(text); each next window starts strictly later, no later than the previous end, and at most overlap before it |
| Chunker.CoveredByWindows | backend/app.py:34-48 | every character of the text lies in some window |
| Chunker.TrailingWindowRepeatsTail | backend/app.py:35-48 | after the window that reaches the text's end, a window of the last overlap characters follows when end - overlap > start |
| Chunker.ChunkSizeOneStalls | backend/app.py:48 | with chunk_size 1 and overlap >= 1 the next start equals the current start |
| Ingestion.DocumentsAppend | backend/app.py:93-94 | storing one more entry appends its document to the documents and its vector to the vectors |
| Ingestion.IsPdfNameIgnoresCase | backend/app.py:67-68 | a name is accepted exactly when the text after its last '.' is "pdf" in any letter case |
| Ingestion.LowerCharIs | backend/app.py:67 | lowering a character gives a given small letter exactly when it is that letter or its capital |
| Ingestion.UpperCaseExtensionAccepted | backend/app.py:67-69 | "x.PDF" is accepted |
| Ingestion.BareNameAccepted | backend/app.py:67-69 | "pdf", a name without a dot, is accepted |
| Ingestion.InnerPdfRefused | backend/app.py:67-69 | "a.pdf.txt" is refused |
| Ingestion.PageEntriesFrom | backend/app.py:88-95 | each entry of a page is the page's chunk at its position, with the vector the embedding returned for that chunk |
| Ingestion.EntriesComeFromPages | backend/app.py:85-95 | every stored entry is a chunk of a page, at its page and chunk number, with that chunk's embedding |
| Ingestion.PageEntriesOrdered | backend/app.py:88-95 | a page's entries are in increasing chunk order and all carry the page's number |
| Ingestion.EntriesOrdered | backend/app.py:85-95 | stored entries are strictly ordered by page and then by chunk number |
| Ingestion.FailuresAppend | backend/app.py:91-92 | one more chunk adds one to the failure count exactly when its embedding fails |
| Ingestion.PageEntriesCount | backend/app.py:88-95 | a page stores one entry per chunk except those whose embedding failed |
| Ingestion.TotalsAppend | backend/app.py:85-86 | one more page adds its chunk and failure counts to the totals |
| Ingestion.EntriesCount | backend/app.py:83-95 | the stored entries plus the failed embeddings add up to all chunks of all pages |
| Ingestion.LabelHasNoColon | backend/app.py:89 | a "Page p, Chunk c" label contains no ':' |
| Ingestion.SplitHeadAfterColonFree | backend/app.py:127 | splitting head + ": " + rest at the first ": " gives head when head has no ':' |
| Ingestion.SourceOfDocument | backend/app.py:127 | splitting a stored document at its first ": " recovers exactly its "Page p+1, Chunk i+1" label |
| Ingestion.DigitPrefixesAgree | backend/app.py:89 | two digit strings each followed by a non-digit that form the same text are equal, and so are the rests |
| Ingestion.LabelInjective | backend/app.py:89 | equal labels have equal page and chunk numbers |
| Retrieval.PyIndex | backend/app.py:111 | Python's list lookup succeeds exactly for -n <= idx < n and reads position idx, or n + idx for negative idx |
| Retrieval.Kept | backend/app.py:111 | the filter keeps exactly the indices below len(documents), each as often as the row holds it |
| Retrieval.KeptAppend | backend/app.py:111 | the filter keeps the row's order: filtering two halves and concatenating gives the filtered row |
| Retrieval.PromptFromKept | backend/app.py:111 | a prompt has one source per kept index; its context is the documents the kept indices name, in row order, joined by the separator, and source k is the text before the first ": " of the k-th of them |
| Retrieval.ResolveAt | backend/app.py:111 | the lookups succeed exactly when no kept index is below -len(documents); piece k is then the document the k-th kept index names |
| Retrieval.FaissRowLookup | backend/app.py:109-111 | on a FAISS row (entries in [-1, n)) the lookups raise exactly when there are no documents and the row is not empty |
| Retrieval.PiecesAreDocuments | backend/app.py:111 | every context piece is a stored document |
| Retrieval.SentinelRepeatsLastDocument | backend/app.py:111 | a trailing -1 adds the last document once more |
| Retrieval.EmptyCorpusLookup | backend/app.py:111 | with no documents the lookup raises exactly when the row holds a negative index, and otherwise gives no pieces |
| Retrieval.ResolveValid | backend/app.py:111 | the intended lookup yields at most one piece per index, each a stored document |
| Retrieval.ResolveValidDropsPadding | backend/app.py:111 | valid indices followed by -1 padding yield exactly the documents those indices name |
| Retrieval.DropAllPadding | backend/app.py:111 | a row of -1 padding yields no pieces under the intended lookup |
| Retrieval.ResolveAgreesWithoutSentinels | backend/app.py:111 | on rows without negative indices the source's lookup and the intended one agree |
| Retrieval.PaddedRowRepeatsLastChunk | backend/app.py:111 | two documents and the row [0, 1, -1, -1, -1] give a context that repeats the second document three more times; the intended lookup gives the two documents |
| Retrieval.SourcesAreLabels | backend/app.py:127 | for a corpus built by an upload, a prompt has one source per kept index, and source k is the "Page p, Chunk c" label of the entry the k-th kept index names |
| App.VectorIndex.Reset | backend/app.py:81 | the index holds no vectors |
| App.VectorIndex.Add | backend/app.py:93 | the vector is appended after the existing ones |
| App.Backend.constructor | backend/app.py:18-20 | the service starts with no documents and an empty index |
| App.Backend.Upload | backend/app.py:66-101 | a name that is not .pdf is refused with nothing changed; otherwise documents and index hold exactly the entries of all chunks whose embedding succeeded, paired by position, and the answer counts the pages and the stored chunks, which with the failures add up to all chunks |
| App.Backend.StorePage | backend/app.py:88-95 | the page's successfully embedded chunks are appended, in order, to documents and index alike, and their number is returned |
| App.Backend.Chat | backend/app.py:104-111 | the answer is an embedding failure exactly when the query's embedding fails, and an index error exactly when a kept neighbour index is below -len(documents); otherwise the context is the documents the kept indices name, in row order, joined by the separator, and source k is the label of the entry the k-th kept index names |

## Left out

- PDF text extraction (`extract_text_from_pdf`): `Upload` takes the page texts as a parameter.
- The HTTP call to the embedding service (`get_embedding`): it is the parameter `embed`. Each chunk's embedding is modelled as a fixed function of the chunk, so a service that answers differently on repeated calls is not modelled.
- The language-model request, its answer text and its failure result: `Chat` stops at the context it would send, and the sources it would return on success.
- FAISS internals: the float32 conversion, L2 distances, the ranking of neighbours, the distances array, and the index's fixed dimension of 1536, which FAISS checks on `add`. Vectors are opaque sequences of reals, and the search is the parameter `search`. The lemma `Retrieval.FaissRowLookup` states what follows when the row has FAISS's shape.
- Saving the upload to `./uploads`, the FastAPI routing and async handlers, the API-key loading, and races between concurrent requests on the shared globals.
- Text.Lower: lowers ASCII letters only, where Python's `str.lower` also maps non-ASCII capitals. No non-ASCII character lowers to a text containing 'p', 'd' or 'f', so the extension check gives Python's verdict on every filename.
- Chunker.ChunkText: requires `Chunkable`, that is chunk_size >= 2 or a text no longer than chunk_size. The source returns such a short text as [text] whatever chunk_size is, and so does the model. A longer text with chunk_size 1 and overlap >= 1 loops forever in the source (see Findings). A longer text with chunk_size 1 and overlap <= 0 terminates in the source, since the next start `end - overlap` is past `start`, but the model excludes that case. A longer text with chunk_size <= 0 is not modelled. With chunk_size 0 the source emits empty windows or loops forever. With a negative chunk_size, Python's negative slicing decides the windows: the empty text gives [], and a longer text can give non-empty chunks.
- App.Backend.Upload: for a .pdf name, requires every page to be `Chunkable`, for the same reason.

## Findings

| source | as written | input that shows it | evidently intended | confidence | as-written member | corrected member |
|---|---|---|---|---|---|---|
| backend/app.py:48 | when `end - overlap <= start` the fallback step is `chunk_size // 2`, which is 0 for chunk_size 1 | text "ab", chunk_size 1, overlap 200: `start` stays 0 and "a" is appended forever | every turn moves `start` forward, so the loop ends | not executed | Chunker.ChunkSizeOneStalls | Chunker.ChunkText |
| backend/app.py:111 | the filter `idx < len(documents)` keeps FAISS's -1 padding, and `documents[-1]` reads the last document, or raises when there are none | two stored chunks and top_k 5: row [0, 1, -1, -1, -1] repeats the second chunk three more times; no stored chunks and top_k 3: IndexError | padding is dropped, giving only the documents the search found | not executed | Retrieval.PaddedRowRepeatsLastChunk | Retrieval.ResolveValid |

For the second finding, `App.Backend.Chat` keeps the lookup as the source
writes it. `Retrieval.ResolveValid` is the intended lookup.
`Retrieval.ResolveValidDropsPadding` and `Retrieval.DropAllPadding` prove
that it drops the padding. `Retrieval.ResolveAgreesWithoutSentinels`
proves that it agrees with the source on rows without negative indices.
