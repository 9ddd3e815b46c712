/**
 The overlapping word windows of `backend/pipeline/ingest.py`.

 A text is its list of words: the source collapses white space first, so joining and
 splitting by single spaces loses nothing.
 */
module Chunking {
  import opened Common
  import opened Sequences

  type Words = seq<string>

  /** The window that starts at word `i`. */
  function Window(words: Words, i: nat, size: nat): (w: Words)
    requires i <= |words|
    ensures |w| == Min(size, |words| - i)
  {
    words[i..Min(i + size, |words|)]
  }

  /** The windows from word `i` on, without those shorter than `minWords`. */
  function WindowsFrom(words: Words, i: nat, size: nat, step: nat, minWords: nat): seq<Words>
    requires step > 0
    decreases |words| - i
  {
    if i >= |words| then []
    else
      var w := Window(words, i, size);
      (if |w| >= minWords then [w] else []) + WindowsFrom(words, i + step, size, step, minWords)
  }

  /** What `sliding_window_chunks` returns. */
  function Chunks(words: Words, size: nat, overlap: nat, minWords: nat): seq<Words>
    requires overlap < size
  {
    if words == [] then []
    else if |words| <= size then (if |words| >= minWords then [words] else [])
    else WindowsFrom(words, 0, size, size - overlap, minWords)
  }

  /** What the loop has at word `i`: all chunks but those of the windows from `i` on, each within the bounds. */
  ghost predicate Collected(words: Words, i: nat, size: nat, step: nat, minWords: nat, chunks: seq<Words>, all: seq<Words>) {
    && step > 0 && chunks + WindowsFrom(words, i, size, step, minWords) == all
    && forall k | 0 <= k < |chunks| :: minWords <= |chunks[k]| <= size
  }

  lemma CollectedStep(words: Words, i: nat, size: nat, step: nat, minWords: nat, chunks: seq<Words>, all: seq<Words>)
    requires Collected(words, i, size, step, minWords, chunks, all) && i < |words|
    ensures var w := words[i..Min(i + size, |words|)];
            Collected(words, i + step, size, step, minWords, if |w| >= minWords then chunks + [w] else chunks, all)
  {
    LoopStep(chunks, words, i, size, step, minWords);
  }

  /** The loop.  With `overlap >= size` the source's loop would not advance. */
  method SlidingWindowChunks(words: Words, size: nat, overlap: nat, minWords: nat) returns (chunks: seq<Words>)
    requires overlap < size
    ensures chunks == Chunks(words, size, overlap, minWords)
    ensures forall k | 0 <= k < |chunks| :: minWords <= |chunks[k]| <= size
  {
    if words == [] {
      return [];
    }
    if |words| <= size {
      return if |words| >= minWords then [words] else [];
    }
    chunks := [];
    var i: nat := 0;
    ghost var step, all := size - overlap, WindowsFrom(words, 0, size, size - overlap, minWords);
    while i < |words|
      invariant Collected(words, i, size, step, minWords, chunks, all)
    {
      var end := Min(i + size, |words|);
      var chunk := words[i..end];
      CollectedStep(words, i, size, step, minWords, chunks, all);
      if |chunk| >= minWords {
        chunks := chunks + [chunk];
      }
      i := i + (size - overlap);
    }
  }

  function WithoutOverlap(chunk: Words, overlap: nat): Words {
    chunk[Min(overlap, |chunk|)..]
  }

  /** The first chunk followed by every later chunk without its first `overlap` words. */
  function Stitch(chunks: seq<Words>, overlap: nat): Words {
    if chunks == [] then []
    else if |chunks| == 1 then chunks[0]
    else
      var n := |chunks| - 1;
      Stitch(chunks[..n], overlap) + WithoutOverlap(chunks[n], overlap)
  }

  /** The start of the first window that reaches the last word. */
  function LastStart(n: nat, i: nat, size: nat, step: nat): (start: nat)
    requires step > 0
    ensures start >= i
    ensures start + size >= n
    ensures start > i ==> start - step + size < n
    decreases n - i
  {
    if i + size >= n then i else LastStart(n, i + step, size, step)
  }

  // ---------------------------------------------------------------- proofs

  lemma NextWindow(words: Words, i: nat, size: nat, step: nat, minWords: nat)
    requires step > 0 && i < |words|
    ensures var w, rest := Window(words, i, size), WindowsFrom(words, i + step, size, step, minWords);
            WindowsFrom(words, i, size, step, minWords) == if |w| >= minWords then [w] + rest else rest
  {
  }

  lemma LoopStep(chunks: seq<Words>, words: Words, i: nat, size: nat, step: nat, minWords: nat)
    requires step > 0 && i < |words|
    ensures var w, rest := Window(words, i, size), WindowsFrom(words, i + step, size, step, minWords);
            chunks + WindowsFrom(words, i, size, step, minWords)
            == (if |w| >= minWords then chunks + [w] else chunks) + rest
  {
  }

  lemma StitchLast(chunks: seq<Words>, last: Words, overlap: nat)
    requires chunks != []
    ensures Stitch(chunks + [last], overlap) == Stitch(chunks, overlap) + WithoutOverlap(last, overlap)
  {
  }

  lemma TailsLast(chunks: seq<Words>, last: Words, overlap: nat)
    ensures Tails(chunks + [last], overlap) == Tails(chunks, overlap) + WithoutOverlap(last, overlap)
  {
  }

  lemma {:induction false} StitchAppend(a: seq<Words>, b: seq<Words>, overlap: nat)
    requires a != []
    ensures Stitch(a + b, overlap) == Stitch(a, overlap) + Tails(b, overlap)
    decreases |b|
  {
    if b == [] {
      assert a + b == a;
    } else {
      var front, last := b[..|b| - 1], b[|b| - 1];
      assert b == front + [last];
      Associative(a, front, [last]);
      StitchAppend(a, front, overlap);
      StitchLast(a + front, last, overlap);
      TailsLast(front, last, overlap);
      Associative(Stitch(a, overlap), Tails(front, overlap), WithoutOverlap(last, overlap));
    }
  }

  /** The chunks without their first `overlap` words, joined. */
  function Tails(chunks: seq<Words>, overlap: nat): Words {
    if chunks == [] then []
    else
      var n := |chunks| - 1;
      Tails(chunks[..n], overlap) + WithoutOverlap(chunks[n], overlap)
  }

  lemma {:induction false} TailsCons(c: Words, rest: seq<Words>, overlap: nat)
    ensures Tails([c] + rest, overlap) == WithoutOverlap(c, overlap) + Tails(rest, overlap)
    decreases |rest|
  {
    if rest == [] {
      assert [c] + rest == [] + [c];
      TailsLast([], c, overlap);
    } else {
      var front, last := rest[..|rest| - 1], rest[|rest| - 1];
      assert rest == front + [last];
      Associative([c], front, [last]);
      TailsCons(c, front, overlap);
      TailsLast([c] + front, last, overlap);
      TailsLast(front, last, overlap);
      Associative(WithoutOverlap(c, overlap), Tails(front, overlap), WithoutOverlap(last, overlap));
    }
  }

  lemma {:induction false} ShortWindowsAreDropped(words: Words, i: nat, size: nat, step: nat, minWords: nat)
    requires step > 0 && |words| - i < minWords
    ensures WindowsFrom(words, i, size, step, minWords) == []
    decreases |words| - i
  {
    if i < |words| {
      ShortWindowsAreDropped(words, i + step, size, step, minWords);
    }
  }

  /** Window `k` starts `k` steps on, and is kept exactly when it starts inside the text and is long enough. */
  lemma {:induction false} WindowAt(words: Words, i: nat, size: nat, step: nat, minWords: nat, k: nat)
    requires step > 0 && minWords <= size
    ensures var ws, start := WindowsFrom(words, i, size, step, minWords), i + k * step;
            && (k < |ws| <==> start < |words| && |words| - start >= minWords)
            && (k < |ws| ==> ws[k] == words[start..Min(start + size, |words|)])
    decreases k
  {
    var start := i + k * step;
    assert start >= i by {
      MulIsNat(k, step);
    }
    if i < |words| {
      NextWindow(words, i, size, step, minWords);
      if |words| - i < minWords {
        ShortWindowsAreDropped(words, i, size, step, minWords);
      } else if k > 0 {
        WindowAt(words, i + step, size, step, minWords, k - 1);
        assert (i + step) + (k - 1) * step == start by {
          MulStep(k, step);
        }
      }
    }
  }

  lemma MulIsNat(k: nat, step: nat)
    ensures k * step >= 0
  {
  }

  lemma MulStep(k: nat, step: nat)
    ensures (k - 1) * step == k * step - step
  {
  }

  /**
   The chunks themselves: chunk `k` is the slice of `size` words that starts `k` times
   `size - overlap` words into the text; a text of one chunk at most is that chunk.
   */
  lemma ChunkAt(words: Words, size: nat, overlap: nat, minWords: nat, k: nat)
    requires overlap < size
    ensures var chunks, start := Chunks(words, size, overlap, minWords), k * (size - overlap);
            && (words == [] ==> chunks == [])
            && (0 < |words| <= size ==> chunks == if |words| >= minWords then [words] else [])
            && (|words| > size && minWords <= size ==>
                  && (k < |chunks| <==> start < |words| && start + minWords <= |words|)
                  && (k < |chunks| ==> chunks[k] == words[start..if start + size <= |words| then start + size else |words|]))
            && (|words| > size && minWords > size ==> chunks == [])
  {
    if |words| > size {
      if minWords <= size {
        WindowAt(words, 0, size, size - overlap, minWords, k);
      } else {
        NothingKept(words, 0, size, size - overlap, minWords);
      }
    }
  }

  /** After the last word has been reached, later windows repeat overlap words only. */
  lemma {:induction false} TrailingWindowsAddNothing(words: Words, i: nat, size: nat, overlap: nat, minWords: nat)
    requires overlap < size && |words| - i <= overlap
    ensures Tails(WindowsFrom(words, i, size, size - overlap, minWords), overlap) == []
    decreases |words| - i
  {
    if i < |words| {
      var step := size - overlap;
      var w, rest := Window(words, i, size), WindowsFrom(words, i + step, size, step, minWords);
      TrailingWindowsAddNothing(words, i + step, size, overlap, minWords);
      TailsCons(w, rest, overlap);
      assert WindowsFrom(words, i, size, step, minWords) == if |w| >= minWords then [w] + rest else rest;
    }
  }

  /** The end of the words kept by the windows from `i` on: a short tail window is dropped. */
  function KeptEnd(n: nat, i: nat, size: nat, overlap: nat, minWords: nat): (end: nat)
    requires overlap < size && i + overlap <= n
    ensures i + overlap <= end <= n
    decreases n - i
  {
    if i + size >= n then (if n - i >= minWords then n else i + overlap)
    else KeptEnd(n, i + (size - overlap), size, overlap, minWords)
  }

  lemma {:induction false} KeptEndByLastStart(n: nat, i: nat, size: nat, overlap: nat, minWords: nat)
    requires overlap < size && i + overlap <= n
    ensures var last := LastStart(n, i, size, size - overlap);
            KeptEnd(n, i, size, overlap, minWords) == if n - last >= minWords then n else last + overlap
    decreases n - i
  {
    if i + size < n {
      KeptEndByLastStart(n, i + (size - overlap), size, overlap, minWords);
    }
  }

  /** The windows from `i` on add the words after the first `i + overlap`. */
  lemma {:induction false} WindowsAddTheRest(words: Words, i: nat, size: nat, overlap: nat, minWords: nat)
    requires overlap < size && minWords <= size && i + overlap <= |words|
    ensures Tails(WindowsFrom(words, i, size, size - overlap, minWords), overlap)
            == words[i + overlap..KeptEnd(|words|, i, size, overlap, minWords)]
    decreases |words| - i
  {
    if i >= |words| {
      assert WindowsFrom(words, i, size, size - overlap, minWords) == [];
    } else if i + size >= |words| {
      LastWindowAdds(words, i, size, overlap, minWords);
    } else {
      WindowsAddTheRest(words, i + (size - overlap), size, overlap, minWords);
      FullWindowAdds(words, i, size, overlap, minWords);
    }
  }

  /** A window that is not the last adds its words after the overlap. */
  lemma FullWindowAdds(words: Words, i: nat, size: nat, overlap: nat, minWords: nat)
    requires overlap < size && minWords <= size && i + size < |words|
    requires Tails(WindowsFrom(words, i + (size - overlap), size, size - overlap, minWords), overlap)
             == words[i + size..KeptEnd(|words|, i + (size - overlap), size, overlap, minWords)]
    ensures Tails(WindowsFrom(words, i, size, size - overlap, minWords), overlap)
            == words[i + overlap..KeptEnd(|words|, i, size, overlap, minWords)]
  {
    WindowAdds(words, i, size, overlap, minWords);
    SlicesJoin(words, i + overlap, i + size, KeptEnd(|words|, i + (size - overlap), size, overlap, minWords));
  }

  lemma LastWindowAdds(words: Words, i: nat, size: nat, overlap: nat, minWords: nat)
    requires overlap < size && i + overlap <= |words| && i < |words| <= i + size
    ensures Tails(WindowsFrom(words, i, size, size - overlap, minWords), overlap)
            == words[i + overlap..KeptEnd(|words|, i, size, overlap, minWords)]
  {
    var w, rest := Window(words, i, size), WindowsFrom(words, i + (size - overlap), size, size - overlap, minWords);
    var all := Tails(WindowsFrom(words, i, size, size - overlap, minWords), overlap);
    assert |w| == |words| - i;
    WindowAdds(words, i, size, overlap, minWords);
    TrailingWindowsAddNothing(words, i + (size - overlap), size, overlap, minWords);
    AddsNothing(all, if |w| >= minWords then words[i + overlap..i + |w|] else words[i + overlap..i + overlap], Tails(rest, overlap));
  }

  lemma WindowAdds(words: Words, i: nat, size: nat, overlap: nat, minWords: nat)
    requires overlap < size && i + overlap <= |words| && i < |words|
    ensures var w, rest := Window(words, i, size), WindowsFrom(words, i + (size - overlap), size, size - overlap, minWords);
            Tails(WindowsFrom(words, i, size, size - overlap, minWords), overlap)
            == (if |w| >= minWords then words[i + overlap..i + |w|] else words[i + overlap..i + overlap]) + Tails(rest, overlap)
  {
    var w, rest := Window(words, i, size), WindowsFrom(words, i + (size - overlap), size, size - overlap, minWords);
    NextWindow(words, i, size, size - overlap, minWords);
    TailsCons(w, rest, overlap);
    WindowWithoutOverlap(words, i, size, overlap);
    if |w| < minWords {
      assert words[i + overlap..i + overlap] == [];
      AppendNothing(Tails(rest, overlap));
    }
  }

  lemma WindowWithoutOverlap(words: Words, i: nat, size: nat, overlap: nat)
    requires overlap < size && i + overlap <= |words|
    ensures WithoutOverlap(Window(words, i, size), overlap) == words[i + overlap..i + |Window(words, i, size)|]
  {
  }

  lemma SlicesJoin(words: Words, a: nat, b: nat, c: nat)
    requires a <= b <= c <= |words|
    ensures words[a..b] + words[b..c] == words[a..c]
  {
  }

  /** The words of a long text that survive: all, or those before a dropped tail window. */
  lemma StitchedText(words: Words, size: nat, overlap: nat, minWords: nat)
    requires overlap < size < |words| && minWords <= size
    ensures Stitch(Chunks(words, size, overlap, minWords), overlap)
            == words[..KeptEnd(|words|, 0, size, overlap, minWords)]
  {
    var step := size - overlap;
    var w := Window(words, 0, size);
    var rest := WindowsFrom(words, step, size, step, minWords);
    NextWindow(words, 0, size, step, minWords);
    WindowsAddTheRest(words, step, size, overlap, minWords);
    StitchAppend([w], rest, overlap);
    SlicesJoin(words, 0, size, KeptEnd(|words|, 0, size, overlap, minWords));
  }

  /**
   Exactly when nothing is lost: a text longer than one chunk is rebuilt word for word iff
   the first window that reaches its end has at least `minWords` words.
   */
  lemma RebuildsIff(words: Words, size: nat, overlap: nat, minWords: nat)
    requires overlap < size < |words|
    ensures Stitch(Chunks(words, size, overlap, minWords), overlap) == words
            <==> |words| - LastStart(|words|, 0, size, size - overlap) >= minWords
                 && minWords <= size
  {
    if minWords <= size {
      StitchedText(words, size, overlap, minWords);
      KeptEndByLastStart(|words|, 0, size, overlap, minWords);
    } else {
      NothingKept(words, 0, size, size - overlap, minWords);
    }
  }

  lemma {:induction false} NothingKept(words: Words, i: nat, size: nat, step: nat, minWords: nat)
    requires step > 0 && minWords > size
    ensures WindowsFrom(words, i, size, step, minWords) == []
    decreases |words| - i
  {
    if i < |words| {
      NothingKept(words, i + step, size, step, minWords);
    }
  }

  /**
   The configuration test: every text longer than one chunk is rebuilt iff
   `minWords <= overlap + 1`.  The bound is sharp: a text one word longer than a chunk
   ends in a window of exactly `overlap + 1` words.
   */
  lemma EveryLongTextRebuildsIff(size: nat, overlap: nat, minWords: nat)
    requires overlap < size
    ensures (forall words: Words :: |words| > size ==> Stitch(Chunks(words, size, overlap, minWords), overlap) == words)
            <==> minWords <= overlap + 1
  {
    var shortest: Words := seq(size + 1, i => "");
    RebuildsIff(shortest, size, overlap, minWords);
    forall words: Words | |words| > size && minWords <= overlap + 1
      ensures Stitch(Chunks(words, size, overlap, minWords), overlap) == words
    {
      RebuildsIff(words, size, overlap, minWords);
      StitchedText(words, size, overlap, minWords);
    }
  }

  /** With the shipped defaults 400/80/30 no word of a long text is lost. */
  lemma DefaultsLoseNothing(words: Words)
    requires |words| > 400
    ensures Stitch(Chunks(words, 400, 80, 30), 80) == words
  {
    EveryLongTextRebuildsIff(400, 80, 30);
  }
}
