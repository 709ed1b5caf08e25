/** The context and sources `chat_with_pdf` of backend/app.py assembles
    from the neighbour indices the vector search returns.

    The search answers one row of `top_k` integers; FAISS pads a row with
    -1 when it has fewer entries than `top_k`. The list comprehensions keep
    every index with `idx < len(documents)` and look it up with Python's
    indexing, where a negative index counts from the end and one below
    -len(documents) raises IndexError. */
module Retrieval {
  import opened Wrappers
  import opened Text
  import opened Ingestion

  /** The separator the context pieces are joined with. */
  const Separator: string := "\n\n---\n\n"

  /** What the handler produces up to the language-model call: an error,
      or the context string and the source labels. */
  datatype Answer =
    | EmbeddingFailed
    | IndexError
    | Prompt(context: string, sources: seq<string>)

  /** Python's lookup `xs[idx]` in a list of length n: the position read,
      or None when it raises IndexError. */
  function PyIndex(n: nat, idx: int): (r: Option<nat>)
    ensures r.Some? <==> -(n as int) <= idx < n
    ensures r.Some? ==> r.value < n && r.value as int == (if idx >= 0 then idx else n + idx)
  {
    if 0 <= idx < n then Some(idx)
    else if -(n as int) <= idx < 0 then Some(n + idx)
    else None
  }

  /** The indices the filter `idx < len(documents)` keeps. */
  function Kept(n: nat, hits: seq<int>): (ks: seq<int>)
    ensures |ks| <= |hits|
    ensures forall k :: 0 <= k < |ks| ==> ks[k] < n
    ensures forall x :: x in ks <==> x in hits && x < n
    ensures forall x :: multiset(ks)[x] == if x < n then multiset(hits)[x] else 0
  {
    if hits == [] then []
    else
      assert hits == [hits[0]] + hits[1..];
      if hits[0] < n then [hits[0]] + Kept(n, hits[1..])
      else Kept(n, hits[1..])
  }

  /** The filter keeps the row's order: filtering a row in two halves and
      concatenating gives the filtered row. */
  lemma {:induction false} KeptAppend(n: nat, a: seq<int>, b: seq<int>)
    ensures Kept(n, a + b) == Kept(n, a) + Kept(n, b)
  {
    if a != [] {
      assert (a + b)[1..] == a[1..] + b;
      KeptAppend(n, a[1..], b);
    } else {
      assert a + b == b;
    }
  }

  /** [documents[idx] for idx in hits if idx < len(documents)], or None
      when a lookup raises. */
  function Resolve(docs: seq<string>, hits: seq<int>): Option<seq<string>>
  {
    if hits == [] then Some([])
    else
      var rest := Resolve(docs, hits[1..]);
      var at := PyIndex(|docs|, hits[0]);
      if hits[0] >= |docs| then rest
      else if at.None? || rest.None? then None
      else Some([docs[at.value]] + rest.value)
  }

  /** documents[idx].split(": ", 1)[0] for every looked-up document. */
  function Sources(pieces: seq<string>): seq<string>
  {
    seq(|pieces|, k requires 0 <= k < |pieces| => SplitHead(pieces[k], ": "))
  }

  /** Context and sources from one search row. */
  function Assemble(docs: seq<string>, hits: seq<int>): Answer
  {
    match Resolve(docs, hits)
    case None => IndexError
    case Some(pieces) => Prompt(Join(Separator, pieces), Sources(pieces))
  }

  /** Every index in `ks` is at least `bound`. */
  predicate AtLeast(ks: seq<int>, bound: int)
  {
    forall k :: 0 <= k < |ks| ==> bound <= ks[k]
  }

  /** The lookups succeed exactly when no kept index is below
      -len(documents); then piece k is the document that kept index k
      names, read with Python's negative indexing. */
  lemma {:induction false} ResolveAt(docs: seq<string>, hits: seq<int>)
    ensures Resolve(docs, hits).Some? <==> AtLeast(Kept(|docs|, hits), -(|docs| as int))
    ensures var ks := Kept(|docs|, hits);
      Resolve(docs, hits).Some? ==>
        |Resolve(docs, hits).value| == |ks|
        && forall k :: 0 <= k < |ks| ==>
             Resolve(docs, hits).value[k] == docs[PyIndex(|docs|, ks[k]).value]
  {
    if hits != [] {
      ResolveAt(docs, hits[1..]);
      var ks := Kept(|docs|, hits);
      var ks' := Kept(|docs|, hits[1..]);
      if hits[0] < |docs| {
        assert ks == [hits[0]] + ks';
        assert forall k :: 1 <= k < |ks| ==> ks[k] == ks'[k - 1];
        assert AtLeast(ks, -(|docs| as int)) <==> -(|docs| as int) <= hits[0] && AtLeast(ks', -(|docs| as int))
        by {
          if AtLeast(ks, -(|docs| as int)) {
            assert -(|docs| as int) <= ks[0] == hits[0];
            forall k | 0 <= k < |ks'| ensures -(|docs| as int) <= ks'[k] {
              assert ks'[k] == ks[k + 1];
            }
          }
          if -(|docs| as int) <= hits[0] && AtLeast(ks', -(|docs| as int)) {
            forall k | 0 <= k < |ks| ensures -(|docs| as int) <= ks[k] {
              if k > 0 { assert ks[k] == ks'[k - 1]; }
            }
          }
        }
      }
    }
  }

  /** A row as FAISS answers it for an index of n vectors: every entry
      names a stored vector or is the -1 padding. */
  predicate FaissRow(n: nat, row: seq<int>)
  {
    forall k :: 0 <= k < |row| ==> -1 <= row[k] < n
  }

  /** On a FAISS row the lookups raise exactly when nothing is stored and
      the row is not empty: with no documents every entry is the -1
      padding and documents[-1] raises; with documents, -1 reads the last
      one. */
  lemma FaissRowLookup(docs: seq<string>, row: seq<int>)
    requires FaissRow(|docs|, row)
    ensures Resolve(docs, row).None? <==> docs == [] && row != []
  {
    ResolveAt(docs, row);
    var ks := Kept(|docs|, row);
    if docs == [] && row != [] {
      assert row[0] in ks;
      assert !AtLeast(ks, 0);
    }
  }

  /** Every context piece is a stored document, in search order. */
  lemma PiecesAreDocuments(docs: seq<string>, hits: seq<int>)
    ensures Resolve(docs, hits).Some? ==>
      forall p :: p in Resolve(docs, hits).value ==> p in docs
  {
    ResolveAt(docs, hits);
  }

  /** A -1 sentinel at the end of the row adds the last document once
      more when there are documents. */
  lemma {:induction false} SentinelRepeatsLastDocument(docs: seq<string>, hits: seq<int>)
    requires docs != [] && Resolve(docs, hits).Some?
    ensures Resolve(docs, hits + [-1]) == Some(Resolve(docs, hits).value + [docs[|docs| - 1]])
  {
    if hits == [] {
      assert hits + [-1] == [-1];
      assert [-1][1..] == [];
      assert Resolve(docs, [-1]) == Some([docs[|docs| - 1]] + []);
      assert [docs[|docs| - 1]] + [] == Resolve(docs, hits).value + [docs[|docs| - 1]];
    } else {
      assert (hits + [-1])[1..] == hits[1..] + [-1];
      SentinelRepeatsLastDocument(docs, hits[1..]);
      var r' := Resolve(docs, hits[1..]).value;
      if hits[0] < |docs| {
        var k := PyIndex(|docs|, hits[0]).value;
        assert [docs[k]] + (r' + [docs[|docs| - 1]]) == ([docs[k]] + r') + [docs[|docs| - 1]];
      }
    }
  }

  /** With no documents the filter keeps every negative index, and the
      lookup of any of them raises: the answer is an error exactly when
      the row holds a negative index, and otherwise has no pieces. */
  lemma {:induction false} EmptyCorpusLookup(hits: seq<int>)
    ensures Resolve([], hits).Some? <==> forall k :: 0 <= k < |hits| ==> hits[k] >= 0
    ensures Resolve([], hits).Some? ==> Resolve([], hits).value == []
  {
    if hits != [] {
      EmptyCorpusLookup(hits[1..]);
      assert forall k :: 1 <= k < |hits| ==> hits[k] == hits[1..][k - 1];
    }
  }

  /** The lookup as evidently intended: keep only indices that name a
      document, 0 <= idx < len(documents). */
  function ResolveValid(docs: seq<string>, hits: seq<int>): (pieces: seq<string>)
    ensures |pieces| <= |hits|
    ensures forall p :: p in pieces ==> p in docs
  {
    if hits == [] then []
    else if 0 <= hits[0] < |docs| then [docs[hits[0]]] + ResolveValid(docs, hits[1..])
    else ResolveValid(docs, hits[1..])
  }

  /** A row with a valid index for each of the first m entries and -1
      padding after them yields exactly those m documents. */
  lemma {:induction false} ResolveValidDropsPadding(docs: seq<string>, hits: seq<int>, padding: nat)
    requires forall k :: 0 <= k < |hits| ==> 0 <= hits[k] < |docs|
    ensures ResolveValid(docs, hits + seq(padding, _ => -1))
         == seq(|hits|, k requires 0 <= k < |hits| => docs[hits[k]])
  {
    if hits == [] {
      assert hits + seq(padding, _ => -1) == seq(padding, _ => -1);
      DropAllPadding(docs, padding);
    } else {
      assert (hits + seq(padding, _ => -1))[1..] == hits[1..] + seq(padding, _ => -1);
      ResolveValidDropsPadding(docs, hits[1..], padding);
      assert seq(|hits|, k requires 0 <= k < |hits| => docs[hits[k]])
          == [docs[hits[0]]] + seq(|hits| - 1, k requires 0 <= k < |hits| - 1 => docs[hits[1..][k]]);
    }
  }

  lemma {:induction false} DropAllPadding(docs: seq<string>, padding: nat)
    ensures ResolveValid(docs, seq(padding, _ => -1)) == []
  {
    if padding > 0 {
      assert seq(padding, _ => -1)[1..] == seq(padding - 1, _ => -1);
      DropAllPadding(docs, padding - 1);
    }
  }

  /** On rows without negative indices the source's lookup and the
      intended one agree. */
  lemma {:induction false} ResolveAgreesWithoutSentinels(docs: seq<string>, hits: seq<int>)
    requires forall k :: 0 <= k < |hits| ==> hits[k] >= 0
    ensures Resolve(docs, hits) == Some(ResolveValid(docs, hits))
  {
    if hits != [] {
      assert forall k :: 0 <= k < |hits| - 1 ==> hits[1..][k] == hits[k + 1];
      ResolveAgreesWithoutSentinels(docs, hits[1..]);
    }
  }

  /** Two stored chunks, a search for five neighbours: FAISS returns
      [0, 1, -1, -1, -1]; the source's context repeats the last chunk
      three times, the intended lookup gives the two chunks. */
  lemma PaddedRowRepeatsLastChunk()
    ensures Resolve(["a", "b"], [0, 1, -1, -1, -1]) == Some(["a", "b", "b", "b", "b"])
    ensures ResolveValid(["a", "b"], [0, 1, -1, -1, -1]) == ["a", "b"]
  {
    var docs := ["a", "b"];
    assert [-1][1..] == [];
    assert [-1, -1][1..] == [-1];
    assert [-1, -1, -1][1..] == [-1, -1];
    assert [1, -1, -1, -1][1..] == [-1, -1, -1];
    assert [0, 1, -1, -1, -1][1..] == [1, -1, -1, -1];
    assert Resolve(docs, [-1]).value == [docs[1]] + [] == ["b"];
    assert Resolve(docs, [-1, -1]).value == [docs[1]] + ["b"] == ["b", "b"];
    assert Resolve(docs, [-1, -1, -1]).value == [docs[1]] + ["b", "b"] == ["b", "b", "b"];
    assert Resolve(docs, [1, -1, -1, -1]).value == [docs[1]] + ["b", "b", "b"] == ["b", "b", "b", "b"];
    assert Resolve(docs, [0, 1, -1, -1, -1]).value == [docs[0]] + ["b", "b", "b", "b"] == ["a", "b", "b", "b", "b"];
    assert ResolveValid(docs, [1, -1, -1, -1]) == [docs[1]] + [] == ["b"];
    assert ResolveValid(docs, [0, 1, -1, -1, -1]) == [docs[0]] + ["b"] == ["a", "b"];
  }

  /** The documents the indices `ks` name, read with Python's indexing. */
  function Named(docs: seq<string>, ks: seq<int>): seq<string>
    requires forall k :: 0 <= k < |ks| ==> -(|docs| as int) <= ks[k] < |docs|
  {
    seq(|ks|, k requires 0 <= k < |ks| => docs[PyIndex(|docs|, ks[k]).value])
  }

  /** A prompt is read from the kept indices in row order: the context
      is the documents they name joined by the separator, and source k is
      the text before the first ": " of the k-th of those documents. */
  lemma PromptFromKept(docs: seq<string>, hits: seq<int>)
    ensures var a := Assemble(docs, hits);
      var ks := Kept(|docs|, hits);
      a.Prompt? ==>
        && AtLeast(ks, -(|docs| as int))
        && |a.sources| == |ks|
        && a.context == Join(Separator, Named(docs, ks))
        && forall k :: 0 <= k < |ks| ==>
             a.sources[k] == SplitHead(docs[PyIndex(|docs|, ks[k]).value], ": ")
  {
    ResolveAt(docs, hits);
    var ks := Kept(|docs|, hits);
    if Assemble(docs, hits).Prompt? {
      var pieces := Resolve(docs, hits).value;
      assert pieces == Named(docs, ks);
    }
  }

  /** For a corpus built by an upload, source k of a prompt is the
      "Page p, Chunk c" label of the entry whose document the k-th kept
      index names. */
  lemma SourcesAreLabels(es: seq<Entry>, hits: seq<int>)
    ensures var docs := Documents(es);
      var a := Assemble(docs, hits);
      var ks := Kept(|docs|, hits);
      a.Prompt? ==>
        && AtLeast(ks, -(|docs| as int))
        && |a.sources| == |ks|
        && forall k :: 0 <= k < |ks| ==>
             var e := es[PyIndex(|docs|, ks[k]).value];
             a.sources[k] == Label(e.page, e.chunk)
  {
    var docs := Documents(es);
    PromptFromKept(docs, hits);
    var ks := Kept(|docs|, hits);
    if Assemble(docs, hits).Prompt? {
      forall k | 0 <= k < |ks|
        ensures SplitHead(docs[PyIndex(|docs|, ks[k]).value], ": ")
             == Label(es[PyIndex(|docs|, ks[k]).value].page, es[PyIndex(|docs|, ks[k]).value].chunk)
      {
        SourceOfDocument(es[PyIndex(|docs|, ks[k]).value]);
      }
    }
  }
}
