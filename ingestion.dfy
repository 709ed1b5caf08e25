/** What `upload_pdf` of backend/app.py computes, as values: the extension
    check, the labelled documents and their vectors for every page and
    chunk whose embedding succeeds, and the counts it reports. The class
    that performs the updates in place is in app.dfy. */
module Ingestion {
  import opened Wrappers
  import opened Text
  import opened Chunker

  /** An embedding vector; the model never looks inside it. */
  type Vector = seq<real>

  /** The embedding provider: a vector, or None when the request fails. */
  type Embedder = string -> Option<Vector>

  /** One chunk that was indexed: its page and its position in the page
      (both 0-based), its text and its vector. */
  datatype Entry = Entry(page: nat, chunk: nat, text: string, vector: Vector)

  /** "Page {page+1}, Chunk {chunk+1}". */
  function Label(page: nat, chunk: nat): string
  {
    "Page " + NatToString(page + 1) + ", Chunk " + NatToString(chunk + 1)
  }

  /** The stored document: the label, ": ", and the chunk. */
  function Document(e: Entry): string
  {
    Label(e.page, e.chunk) + ": " + e.text
  }

  /** file.filename.split(".")[-1].lower() == "pdf" */
  function IsPdfName(filename: string): bool
  {
    Lower(LastField(filename, '.')) == "pdf"
  }

  /** The entries one page contributes: its chunks, in order, except those
      whose embedding fails. */
  function PageEntries(page: nat, chunks: seq<string>, embed: Embedder): seq<Entry>
  {
    if chunks == [] then []
    else
      var i := |chunks| - 1;
      PageEntries(page, chunks[..i], embed)
      + match embed(chunks[i]) case None => [] case Some(v) => [Entry(page, i, chunks[i], v)]
  }

  /** Every page is text on which chunk_text is modelled. */
  predicate PagesChunkable(pages: seq<string>, chunkSize: int)
  {
    forall k :: 0 <= k < |pages| ==> Chunkable(pages[k], chunkSize)
  }

  /** The entries a whole upload produces, page after page. */
  function IngestEntries(pages: seq<string>, chunkSize: int, overlap: int, embed: Embedder): seq<Entry>
    requires PagesChunkable(pages, chunkSize)
  {
    if pages == [] then []
    else
      var p := |pages| - 1;
      IngestEntries(pages[..p], chunkSize, overlap, embed)
      + PageEntries(p, Chunks(pages[p], chunkSize, overlap), embed)
  }

  function Documents(es: seq<Entry>): seq<string>
  {
    seq(|es|, k requires 0 <= k < |es| => Document(es[k]))
  }

  function Vectors(es: seq<Entry>): seq<Vector>
  {
    seq(|es|, k requires 0 <= k < |es| => es[k].vector)
  }

  lemma DocumentsAppend(es: seq<Entry>, e: Entry)
    ensures Documents(es + [e]) == Documents(es) + [Document(e)]
    ensures Vectors(es + [e]) == Vectors(es) + [e.vector]
  {
  }

  // ---------------------------------------------------------------------
  // The extension check

  /** The check ignores case: the text after the last '.' (all of the name
      when it has none) must be p, d, f in either case. */
  lemma IsPdfNameIgnoresCase(filename: string)
    ensures var ext := LastField(filename, '.');
      IsPdfName(filename) <==>
        && |ext| == 3
        && (ext[0] == 'p' || ext[0] == 'P')
        && (ext[1] == 'd' || ext[1] == 'D')
        && (ext[2] == 'f' || ext[2] == 'F')
  {
    var ext := LastField(filename, '.');
    var low := Lower(ext);
    if |ext| == 3 {
      assert low == "pdf" <==> low[0] == 'p' && low[1] == 'd' && low[2] == 'f';
      LowerCharIs(ext[0], 'p', 'P');
      LowerCharIs(ext[1], 'd', 'D');
      LowerCharIs(ext[2], 'f', 'F');
    }
  }

  lemma LowerCharIs(c: char, lower: char, upper: char)
    requires 'a' <= lower <= 'z' && upper as int == lower as int - 32
    ensures LowerChar(c) == lower <==> c == lower || c == upper
  {
  }

  /** "x.PDF" is accepted: the extension is compared in lower case. */
  lemma UpperCaseExtensionAccepted()
    ensures IsPdfName("x.PDF")
  {
    var f := "x.PDF";
    var ext := LastField(f, '.');
    assert f[1] == '.';
    assert |ext| == 3 && ext == f[2..];
    IsPdfNameIgnoresCase(f);
  }

  /** "pdf" is accepted: a name without a dot is its own extension. */
  lemma BareNameAccepted()
    ensures IsPdfName("pdf")
  {
    var f := "pdf";
    var ext := LastField(f, '.');
    assert '.' !in f;
    assert ext == f;
    IsPdfNameIgnoresCase(f);
  }

  /** "a.pdf.txt" is refused: only the text after the last dot counts. */
  lemma InnerPdfRefused()
    ensures !IsPdfName("a.pdf.txt")
  {
    var f := "a.pdf.txt";
    var ext := LastField(f, '.');
    assert f[5] == '.';
    assert |ext| == 3 && ext == f[6..];
    IsPdfNameIgnoresCase(f);
  }

  // ---------------------------------------------------------------------
  // Provenance, order and counts of the entries

  /** `e` records a chunk of page `e.page` at position `e.chunk` whose
      embedding succeeded with `e.vector`. */
  predicate FromPages(pages: seq<string>, chunkSize: int, overlap: int, embed: Embedder, e: Entry)
    requires PagesChunkable(pages, chunkSize)
  {
    && e.page < |pages|
    && e.chunk < |Chunks(pages[e.page], chunkSize, overlap)|
    && Chunks(pages[e.page], chunkSize, overlap)[e.chunk] == e.text
    && embed(e.text) == Some(e.vector)
  }

  lemma {:induction false} PageEntriesFrom(page: nat, chunks: seq<string>, embed: Embedder)
    ensures forall k :: 0 <= k < |PageEntries(page, chunks, embed)| ==>
      var e := PageEntries(page, chunks, embed)[k];
      e.page == page && e.chunk < |chunks| && chunks[e.chunk] == e.text
      && embed(e.text) == Some(e.vector)
  {
    if chunks != [] {
      var i := |chunks| - 1;
      PageEntriesFrom(page, chunks[..i], embed);
    }
  }

  /** Every entry records a chunk of the given pages whose embedding
      succeeded, with that embedding as its vector. */
  lemma {:induction false} EntriesComeFromPages(pages: seq<string>, chunkSize: int, overlap: int, embed: Embedder)
    requires PagesChunkable(pages, chunkSize)
    ensures forall e :: e in IngestEntries(pages, chunkSize, overlap, embed) ==>
      FromPages(pages, chunkSize, overlap, embed, e)
  {
    if pages != [] {
      var p := |pages| - 1;
      var front := IngestEntries(pages[..p], chunkSize, overlap, embed);
      var tail := PageEntries(p, Chunks(pages[p], chunkSize, overlap), embed);
      EntriesComeFromPages(pages[..p], chunkSize, overlap, embed);
      PageEntriesFrom(p, Chunks(pages[p], chunkSize, overlap), embed);
      assert IngestEntries(pages, chunkSize, overlap, embed) == front + tail;
      forall e | e in front + tail ensures FromPages(pages, chunkSize, overlap, embed, e) {
        if e in front {
          assert FromPages(pages[..p], chunkSize, overlap, embed, e);
          assert pages[..p][e.page] == pages[e.page];
        } else {
          var k :| 0 <= k < |tail| && tail[k] == e;
        }
      }
    }
  }

  /** (page, chunk) of `a` comes strictly before that of `b`. */
  predicate Before(a: Entry, b: Entry)
  {
    a.page < b.page || (a.page == b.page && a.chunk < b.chunk)
  }

  predicate Ordered(es: seq<Entry>)
  {
    forall k, l :: 0 <= k < l < |es| ==> Before(es[k], es[l])
  }

  lemma {:induction false} PageEntriesOrdered(page: nat, chunks: seq<string>, embed: Embedder)
    ensures Ordered(PageEntries(page, chunks, embed))
    ensures forall k :: 0 <= k < |PageEntries(page, chunks, embed)| ==>
      PageEntries(page, chunks, embed)[k].page == page
      && PageEntries(page, chunks, embed)[k].chunk < |chunks|
  {
    if chunks != [] {
      var i := |chunks| - 1;
      PageEntriesOrdered(page, chunks[..i], embed);
    }
  }

  /** The entries come in (page, chunk) order without repetition, so their
      position in the corpus (the ordinal shared by a document and its
      vector) grows with page and chunk number. */
  lemma {:induction false} EntriesOrdered(pages: seq<string>, chunkSize: int, overlap: int, embed: Embedder)
    requires PagesChunkable(pages, chunkSize)
    ensures var es := IngestEntries(pages, chunkSize, overlap, embed);
      Ordered(es) && forall k :: 0 <= k < |es| ==> es[k].page < |pages|
  {
    if pages != [] {
      var p := |pages| - 1;
      var front := IngestEntries(pages[..p], chunkSize, overlap, embed);
      var tail := PageEntries(p, Chunks(pages[p], chunkSize, overlap), embed);
      EntriesOrdered(pages[..p], chunkSize, overlap, embed);
      PageEntriesOrdered(p, Chunks(pages[p], chunkSize, overlap), embed);
      var es := front + tail;
      forall k, l | 0 <= k < l < |es| ensures Before(es[k], es[l]) {
        if l < |front| {
          assert es[k] == front[k] && es[l] == front[l];
        } else if k >= |front| {
          assert es[k] == tail[k - |front|] && es[l] == tail[l - |front|];
        } else {
          assert es[k] == front[k] && es[l] == tail[l - |front|];
        }
      }
    }
  }

  /** Chunks of `chunks` whose embedding fails. */
  function Failures(chunks: seq<string>, embed: Embedder): nat
  {
    if chunks == [] then 0
    else Failures(chunks[1..], embed) + if embed(chunks[0]).None? then 1 else 0
  }

  /** All chunks of all pages, and those of them whose embedding fails. */
  function TotalChunks(pages: seq<string>, chunkSize: int, overlap: int): nat
    requires PagesChunkable(pages, chunkSize)
  {
    if pages == [] then 0
    else |Chunks(pages[0], chunkSize, overlap)| + TotalChunks(pages[1..], chunkSize, overlap)
  }

  function TotalFailures(pages: seq<string>, chunkSize: int, overlap: int, embed: Embedder): nat
    requires PagesChunkable(pages, chunkSize)
  {
    if pages == [] then 0
    else Failures(Chunks(pages[0], chunkSize, overlap), embed)
         + TotalFailures(pages[1..], chunkSize, overlap, embed)
  }

  lemma {:induction false} FailuresAppend(chunks: seq<string>, c: string, embed: Embedder)
    ensures Failures(chunks + [c], embed) == Failures(chunks, embed) + if embed(c).None? then 1 else 0
  {
    if chunks != [] {
      assert (chunks + [c])[1..] == chunks[1..] + [c];
      FailuresAppend(chunks[1..], c, embed);
    }
  }

  lemma {:induction false} PageEntriesCount(page: nat, chunks: seq<string>, embed: Embedder)
    ensures |PageEntries(page, chunks, embed)| + Failures(chunks, embed) == |chunks|
  {
    if chunks != [] {
      var i := |chunks| - 1;
      PageEntriesCount(page, chunks[..i], embed);
      assert chunks == chunks[..i] + [chunks[i]];
      FailuresAppend(chunks[..i], chunks[i], embed);
    }
  }

  lemma {:induction false} TotalsAppend(pages: seq<string>, page: string, chunkSize: int, overlap: int, embed: Embedder)
    requires PagesChunkable(pages, chunkSize) && Chunkable(page, chunkSize)
    ensures TotalChunks(pages + [page], chunkSize, overlap)
         == TotalChunks(pages, chunkSize, overlap) + |Chunks(page, chunkSize, overlap)|
    ensures TotalFailures(pages + [page], chunkSize, overlap, embed)
         == TotalFailures(pages, chunkSize, overlap, embed) + Failures(Chunks(page, chunkSize, overlap), embed)
  {
    if pages != [] {
      assert (pages + [page])[1..] == pages[1..] + [page];
      TotalsAppend(pages[1..], page, chunkSize, overlap, embed);
    }
  }

  /** A chunk whose embedding fails is skipped and nothing else is: the
      indexed chunks and the failed ones together are all the chunks. */
  lemma {:induction false} EntriesCount(pages: seq<string>, chunkSize: int, overlap: int, embed: Embedder)
    requires PagesChunkable(pages, chunkSize)
    ensures |IngestEntries(pages, chunkSize, overlap, embed)| + TotalFailures(pages, chunkSize, overlap, embed)
         == TotalChunks(pages, chunkSize, overlap)
  {
    if pages != [] {
      var p := |pages| - 1;
      var front, last := pages[..p], pages[p];
      assert pages == front + [last];
      assert PagesChunkable(front, chunkSize) && Chunkable(last, chunkSize);
      var chunks := Chunks(last, chunkSize, overlap);
      assert IngestEntries(pages, chunkSize, overlap, embed)
          == IngestEntries(front, chunkSize, overlap, embed) + PageEntries(p, chunks, embed);
      EntriesCount(front, chunkSize, overlap, embed);
      PageEntriesCount(p, chunks, embed);
      TotalsAppend(front, last, chunkSize, overlap, embed);
    }
  }

  // ---------------------------------------------------------------------
  // Labels

  predicate NoColon(s: string)
  {
    forall k :: 0 <= k < |s| ==> s[k] != ':'
  }

  lemma LabelHasNoColon(page: nat, chunk: nat)
    ensures NoColon(Label(page, chunk))
  {
    var a := NatToString(page + 1);
    var b := NatToString(chunk + 1);
    var l := Label(page, chunk);
    forall k | 0 <= k < |l| ensures l[k] != ':' {
      if 5 <= k < 5 + |a| {
        assert l[k] == a[k - 5];
      } else if 5 + |a| + 8 <= k {
        assert l[k] == b[k - 5 - |a| - 8];
      }
    }
  }

  /** Splitting at the first ": " recovers a prefix that has no colon. */
  lemma {:induction false} SplitHeadAfterColonFree(head: string, rest: string)
    requires NoColon(head)
    ensures SplitHead(head + ": " + rest, ": ") == head
  {
    var s := head + ": " + rest;
    assert OccursAt(s, ": ", |head|) by { assert s[|head|..|head| + 2] == ": "; }
    forall i | 0 <= i < |head| ensures !OccursAt(s, ": ", i) {
      assert s[i] == head[i];
    }
    assert s[..|head|] == head;
  }

  /** The source label a query reports for a stored document is exactly
      "Page {page+1}, Chunk {chunk+1}", whatever the chunk's own text holds
      (a ": " inside the chunk does not matter). */
  lemma SourceOfDocument(e: Entry)
    ensures SplitHead(Document(e), ": ") == Label(e.page, e.chunk)
  {
    LabelHasNoColon(e.page, e.chunk);
    SplitHeadAfterColonFree(Label(e.page, e.chunk), e.text);
  }

  predicate AllDigits(s: string)
  {
    forall k :: 0 <= k < |s| ==> IsDigit(s[k])
  }

  lemma DigitPrefixesAgree(a: string, x: string, b: string, y: string)
    requires AllDigits(a) && AllDigits(b)
    requires x != [] && y != [] && !IsDigit(x[0]) && !IsDigit(y[0])
    requires a + x == b + y
    ensures a == b && x == y
  {
    var s := a + x;
    assert s[|a|] == x[0];
    assert s[|b|] == (b + y)[|b|] == y[0];
    assert forall i :: 0 <= i < |a| ==> s[i] == a[i];
    assert forall i :: 0 <= i < |b| ==> s[i] == (b + y)[i] == b[i];
    assert |a| == |b|;
    assert a == s[..|a|] && b == (b + y)[..|b|];
    assert x == s[|a|..] && y == (b + y)[|b|..];
  }

  /** Different (page, chunk) positions get different labels, so the
      sources of a query name the chunks unambiguously. */
  lemma LabelInjective(p: nat, i: nat, q: nat, j: nat)
    requires Label(p, i) == Label(q, j)
    ensures p == q && i == j
  {
    var a, b := NatToString(p + 1), NatToString(i + 1);
    var c, d := NatToString(q + 1), NatToString(j + 1);
    var l := Label(p, i);
    assert l == "Page " + (a + (", Chunk " + b));
    assert l == "Page " + (c + (", Chunk " + d));
    assert a + (", Chunk " + b) == l[5..] == c + (", Chunk " + d);
    DigitPrefixesAgree(a, ", Chunk " + b, c, ", Chunk " + d);
    assert b == (", Chunk " + b)[8..];
    assert d == (", Chunk " + d)[8..];
  }
}
