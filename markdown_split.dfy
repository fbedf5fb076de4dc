/** `split_markdown_file` of the first package (utils.py): the text is cut into
    chapter segments, and consecutive segments are packed greedily into chunks
    whose summed word count stays within `maxWords`. Segments are glued
    together with nothing between them. */
module MarkdownSplit {
  import opened Strings
  import opened Words
  import opened Splitting
  import opened PartFiles

  /** The loop state: the chunks closed so far and the one being filled, as
      the lists of segments they are made of, and `current_words`. */
  datatype Acc = Acc(done: seq<seq<string>>, cur: seq<string>, curWords: nat)

  /** Summed word count of a list of segments. */
  function SumWords(g: seq<string>): nat
  {
    if g == [] then 0 else SumWords(g[..|g| - 1]) + CountWords(g[|g| - 1])
  }

  /** All segments of the groups, in order. */
  function Flatten(gs: seq<seq<string>>): seq<string>
  {
    if gs == [] then [] else Flatten(gs[..|gs| - 1]) + gs[|gs| - 1]
  }

  /** One turn of the loop: the segment either closes the current chunk and
      starts a new one (`current_words + chapter_words > max_words`) or joins
      it. */
  function Step(a: Acc, seg: string, maxWords: int): Acc
  {
    var w := CountWords(seg);
    if a.curWords + w > maxWords then Acc(a.done + [a.cur], [seg], w)
    else Acc(a.done, a.cur + [seg], a.curWords + w)
  }

  function Fold(segs: seq<string>, maxWords: int): Acc
  {
    if segs == [] then Acc([], [], 0)
    else Step(Fold(segs[..|segs| - 1], maxWords), segs[|segs| - 1], maxWords)
  }

  /** The chunks as groups of segments: after the loop, the last chunk is
      kept only if its text is non-empty (`if current_chunk:`). */
  function Groups(segs: seq<string>, maxWords: int): seq<seq<string>>
  {
    var a := Fold(segs, maxWords);
    if Concat(a.cur) != "" then a.done + [a.cur] else a.done
  }

  function Rendered(gs: seq<seq<string>>): (r: seq<string>)
    ensures |r| == |gs|
    ensures forall k :: 0 <= k < |gs| ==> r[k] == Concat(gs[k])
  {
    seq(|gs|, k requires 0 <= k < |gs| => Concat(gs[k]))
  }

  /** The chunk texts `split_markdown_file` produces for `content`. */
  function Chunks(content: string, maxWords: int): seq<string>
  {
    Rendered(Groups(SplitHeadings(content), maxWords))
  }

  // -----------------------------------------------------------------------
  // The loop.

  /** The chunking loop of `split_markdown_file`; the chunk texts it appends
      are those of the greedy packing `Chunks`, and together they spell the
      segments in order. */
  method SplitChunks(content: string, maxWords: int) returns (chunks: seq<string>)
    ensures chunks == Chunks(content, maxWords)
    ensures Concat(chunks) == Concat(SplitHeadings(content))
  {
    var chapters := SplitHeadings(content);
    chunks := [];
    var currentChunk := "";
    var currentWords := 0;
    ghost var a := Acc([], [], 0);
    assert chapters[..0] == [];
    for i := 0 to |chapters|
      invariant a == Fold(chapters[..i], maxWords)
      invariant chunks == Rendered(a.done)
      invariant currentChunk == Concat(a.cur)
      invariant currentWords == a.curWords
    {
      FoldSnoc(chapters, i, maxWords);
      var chapter := chapters[i];
      var chapterWords := CountWords(chapter);
      if currentWords + chapterWords > maxWords {
        RenderedSnoc(a.done, a.cur);
        ConcatOne(chapter);
        chunks := chunks + [currentChunk];
        currentChunk := chapter;
        currentWords := chapterWords;
      } else {
        ConcatSnoc(a.cur, chapter);
        currentChunk := currentChunk + chapter;
        currentWords := currentWords + chapterWords;
      }
      a := Step(a, chapter, maxWords);
    }
    assert chapters[..|chapters|] == chapters;
    if currentChunk != "" {
      RenderedSnoc(a.done, a.cur);
      chunks := chunks + [currentChunk];
    }
    ChunksLossless(content, maxWords);
  }

  lemma FoldSnoc(segs: seq<string>, i: nat, maxWords: int)
    requires i < |segs|
    ensures Fold(segs[..i + 1], maxWords) == Step(Fold(segs[..i], maxWords), segs[i], maxWords)
  {
    assert segs[..i + 1][..i] == segs[..i];
  }

  lemma RenderedSnoc(gs: seq<seq<string>>, g: seq<string>)
    ensures Rendered(gs + [g]) == Rendered(gs) + [Concat(g)]
  {
  }

  lemma ConcatOne(s: string)
    ensures Concat([s]) == s
  {
    ConcatSnoc([], s);
    assert [] + [s] == [s];
  }

  /** The whole of `split_markdown_file`: the chunks and the part files they
      are written to, `<stem>_part1.md`, `<stem>_part2.md`, ... */
  method SplitMarkdownFile(dir: string, stem: string, content: string, maxWords: int)
    returns (files: seq<PartFile>)
    ensures |files| == |Chunks(content, maxWords)|
    ensures forall k :: 0 <= k < |files| ==>
      files[k] == PartFile(dir, PartName(stem, k + 1), Chunks(content, maxWords)[k])
  {
    var chunks := SplitChunks(content, maxWords);
    files := NameParts(dir, stem, chunks);
  }

  // -----------------------------------------------------------------------
  // What the packing guarantees.

  /** A group that went over the limit holds at most one segment. */
  predicate Fits(g: seq<string>, maxWords: int)
  {
    |g| <= 1 || SumWords(g) <= maxWords
  }

  /** Every segment of `g` after its first begins with a character that is
      not a word character, so no Latin word is glued across segments. */
  predicate TailsSeparated(g: seq<string>)
  {
    forall j :: 1 <= j < |g| ==> g[j] != "" && !IsWordChar(g[j][0])
  }

  /** The loop invariant of the packing. */
  predicate Packed(a: Acc, maxWords: int)
  {
    && a.curWords == SumWords(a.cur)
    && (forall k :: 0 <= k < |a.done| ==> Fits(a.done[k], maxWords))
    && Fits(a.cur, maxWords)
    && (forall k :: 1 <= k < |a.done| ==> a.done[k] != [])
    && (a.done != [] ==> a.cur != [])
    && (forall k :: 0 <= k < |a.done| - 1 ==>
          SumWords(a.done[k]) + CountWords(a.done[k + 1][0]) > maxWords)
    && (a.done != [] ==> SumWords(a.done[|a.done| - 1]) + CountWords(a.cur[0]) > maxWords)
  }

  /** Segments after the first start with a non-word character. */
  predicate LaterSegmentsSeparated(segs: seq<string>)
  {
    forall p :: 1 <= p < |segs| ==> segs[p] != "" && !IsWordChar(segs[p][0])
  }

  lemma SumWordsSnoc(g: seq<string>, s: string)
    ensures SumWords(g + [s]) == SumWords(g) + CountWords(s)
  {
    assert (g + [s])[..|g|] == g;
  }

  lemma FlattenSnoc(gs: seq<seq<string>>, g: seq<string>)
    ensures Flatten(gs + [g]) == Flatten(gs) + g
  {
    assert (gs + [g])[..|gs|] == gs;
  }

  /** Closing the current chunk keeps the packing invariant. */
  lemma FlushPacked(a: Acc, seg: string, maxWords: int)
    requires Packed(a, maxWords) && a.curWords + CountWords(seg) > maxWords
    ensures Packed(Acc(a.done + [a.cur], [seg], CountWords(seg)), maxWords)
  {
    var d := a.done + [a.cur];
    var n := |a.done|;
    assert SumWords([seg]) == CountWords(seg) by {
      assert [] + [seg] == [seg];
      SumWordsSnoc([], seg);
    }
    forall k | 0 <= k < |d| ensures Fits(d[k], maxWords) {
      if k < n { assert d[k] == a.done[k]; } else { assert d[k] == a.cur; }
    }
    forall k | 1 <= k < |d| ensures d[k] != [] {
      if k < n { assert d[k] == a.done[k]; } else { assert d[k] == a.cur; }
    }
    forall k | 0 <= k < |d| - 1 ensures SumWords(d[k]) + CountWords(d[k + 1][0]) > maxWords {
      assert d[k] == a.done[k];
      if k + 1 < n { assert d[k + 1] == a.done[k + 1]; } else { assert d[k + 1] == a.cur; }
    }
    assert d[|d| - 1] == a.cur;
  }

  /** Adding the segment to the current chunk keeps the packing invariant. */
  lemma AppendPacked(a: Acc, seg: string, maxWords: int)
    requires Packed(a, maxWords) && a.curWords + CountWords(seg) <= maxWords
    ensures Packed(Acc(a.done, a.cur + [seg], a.curWords + CountWords(seg)), maxWords)
  {
    SumWordsSnoc(a.cur, seg);
    assert a.cur != [] ==> (a.cur + [seg])[0] == a.cur[0];
  }

  /** One step keeps the packing invariant. */
  lemma StepPacked(a: Acc, seg: string, maxWords: int)
    requires Packed(a, maxWords)
    ensures Packed(Step(a, seg, maxWords), maxWords)
  {
    if a.curWords + CountWords(seg) > maxWords {
      FlushPacked(a, seg, maxWords);
    } else {
      AppendPacked(a, seg, maxWords);
    }
  }

  /** The packing keeps its invariant. */
  lemma {:induction false} FoldPacked(segs: seq<string>, maxWords: int)
    ensures Packed(Fold(segs, maxWords), maxWords)
  {
    if segs != [] {
      FoldPacked(segs[..|segs| - 1], maxWords);
      StepPacked(Fold(segs[..|segs| - 1], maxWords), segs[|segs| - 1], maxWords);
    }
  }

  /** The packing keeps the segments in order, and the group being filled is
      never empty once a segment has been seen. */
  lemma {:induction false} FoldOrder(segs: seq<string>, maxWords: int)
    ensures Flatten(Fold(segs, maxWords).done) + Fold(segs, maxWords).cur == segs
    ensures segs != [] ==> Fold(segs, maxWords).cur != []
  {
    if segs != [] {
      var init := segs[..|segs| - 1];
      var seg := segs[|segs| - 1];
      FoldOrder(init, maxWords);
      var a := Fold(init, maxWords);
      var b := Fold(segs, maxWords);
      assert b == Step(a, seg, maxWords);
      assert init + [seg] == segs;
      if a.curWords + CountWords(seg) > maxWords {
        assert b.done == a.done + [a.cur] && b.cur == [seg];
        FlattenSnoc(a.done, a.cur);
        assert Flatten(b.done) + b.cur == (Flatten(a.done) + a.cur) + [seg];
      } else {
        assert b.done == a.done && b.cur == a.cur + [seg];
        assert Flatten(b.done) + b.cur == (Flatten(a.done) + a.cur) + [seg];
      }
    }
  }

  /** When every later segment starts with a non-word character, so does
      every later segment of each group. */
  lemma {:induction false} FoldSeparated(segs: seq<string>, maxWords: int)
    requires LaterSegmentsSeparated(segs)
    ensures forall k :: 0 <= k < |Fold(segs, maxWords).done| ==> TailsSeparated(Fold(segs, maxWords).done[k])
    ensures TailsSeparated(Fold(segs, maxWords).cur)
  {
    if segs != [] {
      var init := segs[..|segs| - 1];
      var seg := segs[|segs| - 1];
      assert LaterSegmentsSeparated(init);
      FoldSeparated(init, maxWords);
      FoldOrder(init, maxWords);
      var a := Fold(init, maxWords);
      var b := Fold(segs, maxWords);
      if a.curWords + CountWords(seg) > maxWords {
        assert b.done == a.done + [a.cur];
        assert TailsSeparated(b.cur);
      } else {
        assert b.cur == a.cur + [seg];
        if a.cur != [] {
          assert |init| >= 1;
          assert seg != "" && !IsWordChar(seg[0]);
        }
        assert TailsSeparated(b.cur);
      }
    }
  }

  lemma {:induction false} ConcatRenderedIsConcatFlatten(gs: seq<seq<string>>)
    ensures Concat(Rendered(gs)) == Concat(Flatten(gs))
  {
    if gs != [] {
      var init := gs[..|gs| - 1];
      ConcatRenderedIsConcatFlatten(init);
      assert Rendered(gs) == Rendered(init) + [Concat(gs[|gs| - 1])];
      ConcatSnoc(Rendered(init), Concat(gs[|gs| - 1]));
      ConcatAppend(Flatten(init), gs[|gs| - 1]);
    }
  }

  /** Lossless: the chunks written out, one after another, spell the chapter
      segments one after another (the newlines the split consumed are not
      put back). */
  lemma ChunksLossless(content: string, maxWords: int)
    ensures Concat(Chunks(content, maxWords)) == Concat(SplitHeadings(content))
  {
    var segs := SplitHeadings(content);
    var a := Fold(segs, maxWords);
    FoldOrder(segs, maxWords);
    var gs := Groups(segs, maxWords);
    ConcatRenderedIsConcatFlatten(gs);
    ConcatAppend(Flatten(a.done), a.cur);
    if Concat(a.cur) != "" {
      FlattenSnoc(a.done, a.cur);
    }
  }

  /** Summing the segment counts is the same as counting the chunk text when
      the segments are separated. */
  lemma {:induction false} CountConcat(g: seq<string>)
    requires TailsSeparated(g)
    ensures CountWords(Concat(g)) == SumWords(g)
  {
    if g != [] {
      var init := g[..|g| - 1];
      assert TailsSeparated(init);
      CountConcat(init);
      assert init + [g[|g| - 1]] == g;
      ConcatSnoc(init, g[|g| - 1]);
      CountWordsAppend(Concat(init), g[|g| - 1]);
    }
  }

  /** The size bound and its one exception, the greedy rule and the empty
      chunk, for the groups of any list of segments. */
  lemma GroupsShape(segs: seq<string>, maxWords: int)
    ensures var gs := Groups(segs, maxWords);
      && (forall k :: 0 <= k < |gs| ==> |gs[k]| <= 1 || SumWords(gs[k]) <= maxWords)
      && (forall k :: 1 <= k < |gs| ==> gs[k] != [])
      && (forall k :: 0 <= k < |gs| - 1 ==> SumWords(gs[k]) + CountWords(gs[k + 1][0]) > maxWords)
      && (segs != [] && CountWords(segs[0]) > maxWords ==> gs != [] && gs[0] == [])
  {
    var a := Fold(segs, maxWords);
    FoldPacked(segs, maxWords);
    var gs := Groups(segs, maxWords);
    if Concat(a.cur) != "" {
      assert gs == a.done + [a.cur];
      assert a.cur != [];
      forall k | 0 <= k < |gs|
        ensures Fits(gs[k], maxWords) && (k >= 1 ==> gs[k] != [])
      {
        if k < |a.done| {
          assert gs[k] == a.done[k];
        } else {
          assert gs[k] == a.cur;
        }
      }
      forall k | 0 <= k < |gs| - 1
        ensures SumWords(gs[k]) + CountWords(gs[k + 1][0]) > maxWords
      {
        if k + 1 < |a.done| {
          assert gs[k + 1] == a.done[k + 1];
        } else {
          assert gs[k + 1] == a.cur;
        }
      }
    } else {
      assert gs == a.done;
    }
    if segs != [] && CountWords(segs[0]) > maxWords {
      FirstFlush(segs, maxWords);
    }
  }

  /** A first segment over the limit makes the loop close the still empty
      chunk first, and that chunk stays the first one. */
  lemma {:induction false} FirstFlush(segs: seq<string>, maxWords: int)
    requires segs != [] && CountWords(segs[0]) > maxWords
    ensures Fold(segs, maxWords).done != [] && Fold(segs, maxWords).done[0] == []
  {
    if |segs| > 1 {
      var init := segs[..|segs| - 1];
      assert init[0] == segs[0];
      FirstFlush(init, maxWords);
    }
  }

  /** For the chunks of a Markdown text: the chunk text concatenates its
      group, a chunk whose word count exceeds the limit is a single segment
      (or the empty first chunk), a chunk is closed only when the next
      segment would push the sum strictly past the limit, and an over-limit
      first segment produces an empty first chunk. */
  lemma ChunksShape(content: string, maxWords: int)
    ensures var segs := SplitHeadings(content);
      var gs := Groups(segs, maxWords);
      var chunks := Chunks(content, maxWords);
      && |chunks| == |gs|
      && (forall k :: 0 <= k < |chunks| ==> CountWords(chunks[k]) == SumWords(gs[k]))
      && (forall k :: 0 <= k < |chunks| ==> CountWords(chunks[k]) <= maxWords || |gs[k]| <= 1)
      && (forall k :: 1 <= k < |chunks| ==> gs[k] != [])
      && (forall k :: 0 <= k < |chunks| - 1 ==> CountWords(chunks[k]) + CountWords(gs[k + 1][0]) > maxWords)
      && (CountWords(segs[0]) > maxWords ==> chunks != [] && chunks[0] == "")
  {
    var segs := SplitHeadings(content);
    SplitHeadingsSound(content);
    assert LaterSegmentsSeparated(segs);
    FoldSeparated(segs, maxWords);
    GroupsShape(segs, maxWords);
    var gs := Groups(segs, maxWords);
    forall k | 0 <= k < |gs| ensures CountWords(Concat(gs[k])) == SumWords(gs[k]) {
      CountConcat(gs[k]);
    }
  }

  /** Empty content gives no chunk at all (for a non-negative limit). */
  lemma EmptyContentNoChunks(maxWords: int)
    requires maxWords >= 0
    ensures Chunks("", maxWords) == []
  {
    assert SplitHeadings("") == [""];
    assert Fold([""], maxWords) == Acc([], [""], 0) by {
      assert [""][..0] == [];
    }
  }

  /** The newline the heading split consumes is not written back: segments
      are glued with nothing between them, so a heading ends up on the line
      of the text before it. */
  lemma HeadingNewlineDropped()
    ensures SplitHeadings("a\n# b") == ["a", "# b"]
    ensures Chunks("a\n# b", 10) == ["a# b"]
  {
    var t := "a\n# b";
    assert HeadingBreak(t, 1);
    assert !HeadingBreak(t, 0);
    assert !HeadingBreak(t, 2) && !HeadingBreak(t, 3) && !HeadingBreak(t, 4);
    assert t[2..] == "# b";
    assert SplitHeadingsFrom(t, 2, 5) == ["# b"];
    assert SplitHeadingsFrom(t, 2, 2) == ["# b"];
    assert t[0..1] == "a";
    assert SplitHeadingsFrom(t, 0, 1) == ["a"] + ["# b"];
    assert SplitHeadings(t) == ["a", "# b"];
    CountWordsBound("a");
    CountWordsBound("# b");
    var segs := ["a", "# b"];
    assert segs[..1] == ["a"];
    assert [] + ["a"] == ["a"];
    assert Fold(["a"], 10) == Acc([], ["a"], CountWords("a"));
    assert Fold(segs, 10) == Acc([], ["a", "# b"], CountWords("a") + CountWords("# b"));
    ConcatSnoc(["a"], "# b");
    ConcatOne("a");
    assert Concat(["a", "# b"]) == "a# b";
  }

  /** The order of the segments is kept: the groups, read one after another,
      are the segments, except for trailing empty segments of a final group
      that was dropped. */
  lemma GroupsKeepOrder(segs: seq<string>, maxWords: int)
    ensures var flat := Flatten(Groups(segs, maxWords));
      && |flat| <= |segs| && flat == segs[..|flat|]
      && (forall p :: |flat| <= p < |segs| ==> segs[p] == "")
  {
    FoldOrder(segs, maxWords);
    var a := Fold(segs, maxWords);
    var gs := Groups(segs, maxWords);
    var head := Flatten(a.done);
    assert segs == head + a.cur;
    if Concat(a.cur) != "" {
      assert gs == a.done + [a.cur];
      FlattenSnoc(a.done, a.cur);
      assert Flatten(gs) == segs;
      assert segs[..|segs|] == segs;
    } else {
      assert gs == a.done;
      ConcatEmpty(a.cur);
      assert segs[..|head|] == head;
      forall p | |head| <= p < |segs| ensures segs[p] == "" {
        assert segs[p] == a.cur[p - |head|];
      }
    }
  }

  lemma {:induction false} ConcatEmpty(ss: seq<string>)
    requires Concat(ss) == ""
    ensures forall k :: 0 <= k < |ss| ==> ss[k] == ""
  {
    if ss != [] {
      ConcatEmpty(ss[1..]);
      forall k | 0 <= k < |ss| ensures ss[k] == "" {
        if k > 0 { assert ss[k] == ss[1..][k - 1]; }
      }
    }
  }
}
