/** The sliding-window text splitter `chunk_text` of backend/app.py.

    A window of at most `chunkSize` characters starting at `start` ends at
    `WindowEnd`; when the window stops short of the end of the text, its end
    is pulled back to just past the last ". " (else the last newline) found
    in a look-back region of min(100, chunkSize // 4) characters. The
    window's text is stripped and emitted, and the next window starts at
    `NextStart`. `Windows` lists the windows the loop visits, `Chunks` is the
    function's result and `ChunkText` is the loop itself. */
module Chunker {
  import opened Text

  /** One window text[lo..hi] visited by the loop. */
  datatype Window = Window(lo: nat, hi: nat)

  function Min(a: int, b: int): int
  {
    if a <= b then a else b
  }

  /** Width of the region searched for a break: min(100, chunk_size // 4). */
  function LookBack(chunkSize: int): int
  {
    Min(100, chunkSize / 4)
  }

  /** Where the window that starts at `start` ends, after snapping back
      to a sentence or line break. */
  function WindowEnd(text: string, chunkSize: int, start: nat): (end: nat)
    requires chunkSize >= 1 && start < |text|
    ensures start < end <= start + chunkSize && end <= |text|
    ensures start + chunkSize >= |text| ==> end == |text|
    // the snapped end of a window that stops short of the text's end is
    // still past the middle of the window
    ensures end < |text| ==> end > start + chunkSize / 2
  {
    var end := Min(start + chunkSize, |text|);
    if end < |text| then
      var lo := end - LookBack(chunkSize);
      var dot := RFind(text, ". ", lo, end);
      var breakPoint := if dot == -1 then RFind(text, "\n", lo, end) else dot;
      if breakPoint != -1 then breakPoint + 1 else end
    else end
  }

  /** When the window stops short of the end of the text, its end is just
      past the last ". " lying wholly in the look-back region; failing that,
      just past the last newline there; failing both, unchanged. */
  lemma WindowEndSnaps(text: string, chunkSize: int, start: nat)
    requires chunkSize >= 1 && start + chunkSize < |text|
    ensures var end := WindowEnd(text, chunkSize, start);
      var hi := start + chunkSize;
      var lo := hi - LookBack(chunkSize);
      if !NoneWithin(text, ". ", lo, hi) then LastWithin(text, ". ", lo, hi, end - 1)
      else if !NoneWithin(text, "\n", lo, hi) then LastWithin(text, "\n", lo, hi, end - 1)
      else end == hi
  {
  }

  /** The start of the next window: `end - overlap` when that moves
      forward, otherwise `start + chunk_size // 2`. */
  function NextStart(chunkSize: int, overlap: int, start: int, end: int): (next: int)
    ensures chunkSize >= 2 ==> next > start
    ensures chunkSize >= 0 && start >= end - overlap ==> next >= start
    ensures chunkSize >= 0 ==> next >= end - overlap
    ensures overlap >= 0 && end > start + chunkSize / 2 ==> next <= end
  {
    if end - overlap > start then end - overlap else start + chunkSize / 2
  }

  /** The windows the loop of `chunk_text` visits from `start` on. */
  function Windows(text: string, chunkSize: int, overlap: int, start: nat): (ws: seq<Window>)
    requires chunkSize >= 2
    ensures forall k :: 0 <= k < |ws| ==>
      start <= ws[k].lo < ws[k].hi <= ws[k].lo + chunkSize && ws[k].hi <= |text|
    ensures start < |text| <==> ws != []
    decreases |text| - start
  {
    if start >= |text| then []
    else
      var end := WindowEnd(text, chunkSize, start);
      [Window(start, end)] + Windows(text, chunkSize, overlap, NextStart(chunkSize, overlap, start, end))
  }

  predicate WithinText(text: string, ws: seq<Window>)
  {
    forall k :: 0 <= k < |ws| ==> ws[k].lo <= ws[k].hi <= |text|
  }

  /** The stripped text of each window. */
  function Pieces(text: string, ws: seq<Window>): seq<string>
    requires WithinText(text, ws)
  {
    if ws == [] then [] else [Strip(text[ws[0].lo..ws[0].hi])] + Pieces(text, ws[1..])
  }

  /** The inputs on which chunk_text is modelled: a text no longer than
      `chunkSize` is returned at once whatever `chunkSize` is; a longer
      one needs `chunkSize >= 2` for the loop to move forward. */
  predicate Chunkable(text: string, chunkSize: int)
  {
    chunkSize >= 2 || |text| <= chunkSize
  }

  /** The result of chunk_text(text, chunk_size, overlap). */
  function Chunks(text: string, chunkSize: int, overlap: int): seq<string>
    requires Chunkable(text, chunkSize)
  {
    if |text| <= chunkSize then [text]
    else Pieces(text, Windows(text, chunkSize, overlap, 0))
  }

  /** The body of the loop of `chunk_text` up to the snapped window end
      (the statements that compute `end`). */
  method SnapWindowEnd(text: string, chunkSize: int, start: nat) returns (end: int)
    requires chunkSize >= 1 && start < |text|
    ensures end == WindowEnd(text, chunkSize, start)
  {
    end := Min(start + chunkSize, |text|);
    if end < |text| {
      var lookBack := Min(100, chunkSize / 4);
      var breakPoint := RFind(text, ". ", end - lookBack, end);
      if breakPoint == -1 {
        breakPoint := RFind(text, "\n", end - lookBack, end);
      }
      if breakPoint != -1 {
        end := breakPoint + 1;
      }
    }
  }

  /** chunk_text as the source writes it: a loop over `start`. */
  method ChunkText(text: string, chunkSize: int, overlap: int) returns (chunks: seq<string>)
    requires Chunkable(text, chunkSize)
    ensures chunks == Chunks(text, chunkSize, overlap)
  {
    chunks := [];
    if |text| <= chunkSize {
      chunks := chunks + [text];
    } else {
      var start: nat := 0;
      while start < |text|
        invariant chunks + Pieces(text, Windows(text, chunkSize, overlap, start))
               == Pieces(text, Windows(text, chunkSize, overlap, 0))
        decreases |text| - start
      {
        var end := SnapWindowEnd(text, chunkSize, start);
        ChunkStep(text, chunkSize, overlap, start, chunks);
        ghost var next := NextStart(chunkSize, overlap, start, end);
        chunks := chunks + [Strip(text[start..end])];
        start := if end - overlap > start then end - overlap else start + chunkSize / 2;
        assert start == next;
      }
    }
  }

  /** The first window visited from `start`, and the rest. */
  lemma WindowsUnfold(text: string, chunkSize: int, overlap: int, start: nat)
    requires chunkSize >= 2 && start < |text|
    ensures var end := WindowEnd(text, chunkSize, start);
      Windows(text, chunkSize, overlap, start)
      == [Window(start, end)] + Windows(text, chunkSize, overlap, NextStart(chunkSize, overlap, start, end))
  {
  }

  /** One turn of the loop of `ChunkText` keeps its invariant. */
  lemma ChunkStep(text: string, chunkSize: int, overlap: int, start: nat, done: seq<string>)
    requires chunkSize >= 2 && start < |text|
    ensures var end := WindowEnd(text, chunkSize, start);
      done + Pieces(text, Windows(text, chunkSize, overlap, start))
      == (done + [Strip(text[start..end])])
         + Pieces(text, Windows(text, chunkSize, overlap, NextStart(chunkSize, overlap, start, end)))
  {
    var end := WindowEnd(text, chunkSize, start);
    var ws := Windows(text, chunkSize, overlap, start);
    var rest := Windows(text, chunkSize, overlap, NextStart(chunkSize, overlap, start, end));
    var piece := Strip(text[start..end]);
    WindowsUnfold(text, chunkSize, overlap, start);
    assert ws[0] == Window(start, end) && ws[1..] == rest;
    PiecesUnfold(text, ws);
    assert done + ([piece] + Pieces(text, rest)) == (done + [piece]) + Pieces(text, rest);
  }

  /** The stripped text of the first window, then the rest. */
  lemma PiecesUnfold(text: string, ws: seq<Window>)
    requires WithinText(text, ws) && ws != []
    ensures WithinText(text, ws[1..])
    ensures Pieces(text, ws) == [Strip(text[ws[0].lo..ws[0].hi])] + Pieces(text, ws[1..])
  {
    forall k | 0 <= k < |ws| - 1 ensures ws[1..][k].lo <= ws[1..][k].hi <= |text| {
      assert ws[1..][k] == ws[k + 1];
    }
  }

  /** Element `k` of the result is the stripped text of window `k`. */
  lemma {:induction false} PiecesAt(text: string, ws: seq<Window>)
    requires WithinText(text, ws)
    ensures |Pieces(text, ws)| == |ws|
    ensures forall k :: 0 <= k < |ws| ==>
      Pieces(text, ws)[k] == Strip(text[ws[k].lo..ws[k].hi])
  {
    if ws != [] {
      PiecesUnfold(text, ws);
      PiecesAt(text, ws[1..]);
      forall k | 0 < k < |ws| ensures Pieces(text, ws)[k] == Strip(text[ws[k].lo..ws[k].hi]) {
        assert ws[1..][k - 1] == ws[k];
      }
    }
  }

  /** A text that fits in one chunk is returned whole and unstripped (so
      the empty text gives [""]); a longer one gives the stripped text of
      each window, in order. */
  lemma ChunksAreStrippedWindows(text: string, chunkSize: int, overlap: int)
    requires Chunkable(text, chunkSize)
    ensures |text| <= chunkSize ==> Chunks(text, chunkSize, overlap) == [text]
    ensures |text| > chunkSize ==>
      var ws := Windows(text, chunkSize, overlap, 0);
      |Chunks(text, chunkSize, overlap)| == |ws|
      && forall k :: 0 <= k < |ws| ==>
           Chunks(text, chunkSize, overlap)[k] == Strip(text[ws[k].lo..ws[k].hi])
  {
    if |text| > chunkSize {
      PiecesAt(text, Windows(text, chunkSize, overlap, 0));
    }
  }

  /** No chunk is longer than `chunkSize`. */
  lemma ChunkLengthBound(text: string, chunkSize: int, overlap: int)
    requires Chunkable(text, chunkSize)
    ensures forall c :: c in Chunks(text, chunkSize, overlap) ==> |c| <= chunkSize
  {
    ChunksAreStrippedWindows(text, chunkSize, overlap);
    var cs := Chunks(text, chunkSize, overlap);
    if |text| > chunkSize {
      var ws := Windows(text, chunkSize, overlap, 0);
      forall c | c in cs ensures |c| <= chunkSize {
        var k :| 0 <= k < |cs| && cs[k] == c;
        assert |text[ws[k].lo..ws[k].hi]| <= chunkSize;
      }
    }
  }

  /** Window `b` starts strictly after window `a`, no later than `a` ends
      and no earlier than `overlap` characters before that. */
  predicate Follows(a: Window, b: Window, overlap: int)
  {
    a.lo < b.lo <= a.hi && b.lo >= a.hi - overlap
  }

  /** With a non-negative overlap the windows tile the text: the first
      starts at `start`, the last ends at the end of the text, each next
      window starts strictly later, no later than the previous one ends
      (no gap) and no earlier than `overlap` before that end. */
  lemma {:induction false} WindowsTile(text: string, chunkSize: int, overlap: int, start: nat)
    requires chunkSize >= 2 && overlap >= 0 && start < |text|
    ensures var ws := Windows(text, chunkSize, overlap, start);
      && ws[0].lo == start
      && ws[|ws| - 1].hi == |text|
      && forall k {:trigger Follows(ws[k], ws[k + 1], overlap)} :: 0 <= k < |ws| - 1 ==>
           Follows(ws[k], ws[k + 1], overlap)
    decreases |text| - start
  {
    var end := WindowEnd(text, chunkSize, start);
    var next := NextStart(chunkSize, overlap, start, end);
    var rest := Windows(text, chunkSize, overlap, next);
    WindowsUnfold(text, chunkSize, overlap, start);
    var ws := [Window(start, end)] + rest;
    if next < |text| {
      assert next <= end by {
        if end < |text| { assert end > start + chunkSize / 2; }
      }
      WindowsTile(text, chunkSize, overlap, next);
      FollowsCons(Window(start, end), rest, overlap);
    } else {
      assert rest == [];
    }
  }

  /** Putting a window in front of a chain of windows that follow each
      other keeps the chain when the old first window follows it. */
  lemma FollowsCons(w: Window, rest: seq<Window>, overlap: int)
    requires rest != [] && Follows(w, rest[0], overlap)
    requires forall k {:trigger Follows(rest[k], rest[k + 1], overlap)} :: 0 <= k < |rest| - 1 ==>
      Follows(rest[k], rest[k + 1], overlap)
    ensures var ws := [w] + rest;
      forall k {:trigger Follows(ws[k], ws[k + 1], overlap)} :: 0 <= k < |ws| - 1 ==>
        Follows(ws[k], ws[k + 1], overlap)
  {
    var ws := [w] + rest;
    forall k | 0 <= k < |ws| - 1
      ensures Follows(ws[k], ws[k + 1], overlap)
    {
      if k == 0 {
        assert ws[1] == rest[0];
      } else {
        var j := k - 1;
        assert Follows(rest[j], rest[j + 1], overlap);
        assert ws[k] == rest[j] && ws[k + 1] == rest[j + 1];
      }
    }
  }

  /** Every character of a text longer than one chunk lies in some window. */
  lemma CoveredByWindows(text: string, chunkSize: int, overlap: int, j: nat)
    requires chunkSize >= 2 && overlap >= 0 && j < |text|
    ensures var ws := Windows(text, chunkSize, overlap, 0);
      exists k :: 0 <= k < |ws| && ws[k].lo <= j < ws[k].hi
  {
    var ws := Windows(text, chunkSize, overlap, 0);
    WindowsTile(text, chunkSize, overlap, 0);
    // the last window starting at or before j also ends after j
    var k := 0;
    while k + 1 < |ws| && ws[k + 1].lo <= j
      invariant 0 <= k < |ws| && ws[k].lo <= j
      decreases |ws| - k
    {
      k := k + 1;
    }
    if k + 1 < |ws| {
      assert Follows(ws[k], ws[k + 1], overlap);
    }
    assert ws[k].lo <= j < ws[k].hi;
  }

  /** The loop does not stop at the window that reaches the end of the
      text: when `end - overlap` still moves forward it emits one more
      window, the last `overlap` characters, which lie wholly inside the
      window before. */
  lemma TrailingWindowRepeatsTail(text: string, chunkSize: int, overlap: int, start: nat)
    requires chunkSize >= 2 && start < |text| <= start + chunkSize
    requires 0 < overlap && start < |text| - overlap
    ensures var ws := Windows(text, chunkSize, overlap, start);
      |ws| >= 2 && ws[0] == Window(start, |text|) && ws[1] == Window(|text| - overlap, |text|)
  {
    WindowsUnfold(text, chunkSize, overlap, start);
    WindowsUnfold(text, chunkSize, overlap, |text| - overlap);
  }

  /** With chunk_size 1 and a positive overlap the loop of `chunk_text`
      never advances: each window is one character long, the look-back
      region is empty, and `start + 1 // 2` is `start` again. */
  lemma ChunkSizeOneStalls(text: string, overlap: int, start: nat)
    requires start < |text| && overlap >= 1
    ensures NextStart(1, overlap, start, WindowEnd(text, 1, start)) == start
  {
  }
}
