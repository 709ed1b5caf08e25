/** The state of the backend of backend/app.py and its two handlers.

    The module keeps two globals: a FAISS flat index of embedding vectors
    and the list `documents` of labelled chunk texts, where the k-th
    document belongs to the k-th vector. `upload_pdf` rebuilds both from
    the pages of one PDF; `chat_with_pdf` embeds a question, searches the
    index and assembles the context and the source labels. */
module App {
  import opened Wrappers
  import opened Text
  import opened Chunker
  import opened Ingestion
  import opened Retrieval

  /** The FAISS flat index, as far as the backend uses it: the vectors
      added since the last reset, in insertion order (FAISS numbers them
      0, 1, 2, ... in that order). */
  class VectorIndex {
    var vectors: seq<Vector>

    constructor ()
      ensures vectors == []
    {
      vectors := [];
    }

    /** index.reset() */
    method Reset()
      modifies this
      ensures vectors == []
    {
      vectors := [];
    }

    /** index.add(...) with one vector. */
    method Add(v: Vector)
      modifies this
      ensures vectors == old(vectors) + [v]
    {
      vectors := vectors + [v];
    }
  }

  /** The two answers of `upload_pdf`. */
  datatype UploadResult =
    | UnsupportedFormat
    | Uploaded(pagesProcessed: nat, chunksProcessed: nat)

  /** index.search(query, top_k)[1][0]: the row of neighbour indices. */
  type Searcher = (seq<Vector>, Vector, int) -> seq<int>

  class Backend {
    var documents: seq<string>
    const index: VectorIndex
    /** The entries the current contents were built from. */
    ghost var entries: seq<Entry>

    /** Document k and vector k of the index come from the same entry. */
    ghost predicate Valid()
      reads this, index
    {
      documents == Documents(entries) && index.vectors == Vectors(entries)
    }

    /** The state at start-up: an empty index and no documents. */
    constructor ()
      ensures Valid() && documents == [] && index.vectors == [] && entries == []
      ensures fresh(index)
    {
      documents := [];
      index := new VectorIndex();
      entries := [];
    }

    /** `upload_pdf` on a file whose text extraction yielded `pages`. A name
        whose last dot-separated field is not "pdf" in any letter case is
        refused and nothing changes. Otherwise the documents and the index
        are cleared and refilled with the entries of every chunk of every
        page whose embedding succeeded, and the answer counts the pages
        and the stored chunks. */
    method Upload(filename: string, pages: seq<string>, chunkSize: int, overlap: int, embed: Embedder)
      returns (r: UploadResult)
      requires Valid()
      requires IsPdfName(filename) ==> PagesChunkable(pages, chunkSize)
      modifies this, index
      ensures Valid()
      ensures !IsPdfName(filename) ==>
        r == UnsupportedFormat && entries == old(entries)
        && documents == old(documents) && index.vectors == old(index.vectors)
      ensures IsPdfName(filename) ==>
        entries == IngestEntries(pages, chunkSize, overlap, embed)
        && r == Uploaded(|pages|, |entries|)
        && r.chunksProcessed + TotalFailures(pages, chunkSize, overlap, embed)
           == TotalChunks(pages, chunkSize, overlap)
    {
      var fileExt := Lower(LastField(filename, '.'));
      if fileExt != "pdf" {
        return UnsupportedFormat;
      }
      documents := [];
      index.Reset();
      entries := [];
      var chunksProcessed := 0;
      var pageNum := 0;
      while pageNum < |pages|
        invariant 0 <= pageNum <= |pages|
        invariant entries == IngestEntries(pages[..pageNum], chunkSize, overlap, embed)
        invariant Valid() && chunksProcessed == |entries|
      {
        var chunks := ChunkText(pages[pageNum], chunkSize, overlap);
        var stored := StorePage(pageNum, chunks, embed);
        chunksProcessed := chunksProcessed + stored;
        assert pages[..pageNum + 1][..pageNum] == pages[..pageNum];
        pageNum := pageNum + 1;
      }
      assert pages[..pageNum] == pages;
      EntriesCount(pages, chunkSize, overlap, embed);
      r := Uploaded(|pages|, chunksProcessed);
    }

    /** The inner loop of `upload_pdf` over the chunks of page `pageNum`:
        each chunk whose embedding succeeds is added to the index, its
        labelled text to the documents, in chunk order; `stored` is the
        number added. */
    method StorePage(pageNum: nat, chunks: seq<string>, embed: Embedder) returns (stored: nat)
      requires Valid()
      modifies this, index
      ensures Valid()
      ensures entries == old(entries) + PageEntries(pageNum, chunks, embed)
      ensures stored == |PageEntries(pageNum, chunks, embed)|
    {
      stored := 0;
      var i := 0;
      while i < |chunks|
        invariant 0 <= i <= |chunks|
        invariant entries == old(entries) + PageEntries(pageNum, chunks[..i], embed)
        invariant Valid() && stored == |PageEntries(pageNum, chunks[..i], embed)|
      {
        var chunkWithMetadata := Label(pageNum, i) + ": " + chunks[i];
        var embedding := embed(chunks[i]);
        assert chunks[..i + 1][..i] == chunks[..i];
        if embedding.Some? {
          var e := Entry(pageNum, i, chunks[i], embedding.value);
          DocumentsAppend(entries, e);
          index.Add(embedding.value);
          documents := documents + [chunkWithMetadata];
          entries := entries + [e];
          stored := stored + 1;
        }
        i := i + 1;
      }
      assert chunks[..i] == chunks;
    }

    /** `chat_with_pdf` up to the language-model call: the embedding of the
        question, the neighbour row the search answers for `topK`, and the
        context and sources read from `documents`. The answer is an
        embedding failure exactly when the embedding fails, and an index
        error exactly when some kept neighbour index is below
        -len(documents). Otherwise the context is the documents the kept
        indices name, in row order, joined by the separator, and source k
        is the label of the entry the k-th kept index names. */
    function Chat(query: string, topK: int, embed: Embedder, search: Searcher): (a: Answer)
      reads this, index
      ensures a.EmbeddingFailed? <==> embed(query).None?
      ensures embed(query).Some? ==>
        var ks := Kept(|documents|, search(index.vectors, embed(query).value, topK));
        a.IndexError? <==> !AtLeast(ks, -(|documents| as int))
      ensures a.Prompt? ==>
        var ks := Kept(|documents|, search(index.vectors, embed(query).value, topK));
        && AtLeast(ks, -(|documents| as int))
        && |a.sources| == |ks|
        && a.context == Join(Separator, Named(documents, ks))
      ensures a.Prompt? && Valid() ==>
        var ks := Kept(|documents|, search(index.vectors, embed(query).value, topK));
        forall k :: 0 <= k < |ks| ==>
          var e := entries[PyIndex(|documents|, ks[k]).value];
          a.sources[k] == Label(e.page, e.chunk)
    {
      match embed(query)
      case None => EmbeddingFailed
      case Some(q) =>
        var row := search(index.vectors, q, topK);
        ResolveAt(documents, row);
        PromptFromKept(documents, row);
        SourcesAreLabels(entries, row);
        Assemble(documents, row)
    }
  }
}
