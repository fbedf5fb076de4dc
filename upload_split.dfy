/** `split_markdown_file` of the upload script (scripts/upload.py): the text
    is cut into chapter segments as in the first package, but every piece is
    written followed by `"\n\n"`, and a chapter whose own word count is over
    the limit is cut again into its paragraphs, which are packed on their
    own before the packing of chapters resumes. */
module UploadSplit {
  import opened Strings
  import opened Words
  import opened Splitting
  import opened PartFiles

  /** A piece of a chunk: a whole chapter segment, or one paragraph of a
      chapter that was over the limit. */
  datatype Piece = Whole(text: string) | Para(text: string)

  /** The loop state: closed chunks and the one being filled, as lists of
      pieces, and the running word count (`current_words` / `temp_words`). */
  datatype Acc = Acc(done: seq<seq<Piece>>, cur: seq<Piece>, curWords: nat)

  /** The text of a chunk: each piece followed by `"\n\n"`. */
  function Render(g: seq<Piece>): string
  {
    if g == [] then "" else Render(g[..|g| - 1]) + g[|g| - 1].text + "\n\n"
  }

  function SumWords(g: seq<Piece>): nat
  {
    if g == [] then 0 else SumWords(g[..|g| - 1]) + CountWords(g[|g| - 1].text)
  }

  function Flatten(gs: seq<seq<Piece>>): seq<Piece>
  {
    if gs == [] then [] else Flatten(gs[..|gs| - 1]) + gs[|gs| - 1]
  }

  function Texts(ps: seq<Piece>): (r: seq<string>)
    ensures |r| == |ps|
    ensures forall k :: 0 <= k < |ps| ==> r[k] == ps[k].text
  {
    seq(|ps|, k requires 0 <= k < |ps| => ps[k].text)
  }

  function Paras(ss: seq<string>): (r: seq<Piece>)
    ensures |r| == |ss|
    ensures forall k :: 0 <= k < |ss| ==> r[k] == Para(ss[k])
  {
    seq(|ss|, k requires 0 <= k < |ss| => Para(ss[k]))
  }

  /** One turn of the paragraph loop: the paragraph closes the temporary
      chunk only when that chunk is non-empty and the sum would pass the
      limit. */
  function ParaStep(t: Acc, para: string, maxWords: int): Acc
  {
    var w := CountWords(para);
    if t.curWords + w > maxWords && t.cur != [] then Acc(t.done + [t.cur], [Para(para)], w)
    else Acc(t.done, t.cur + [Para(para)], t.curWords + w)
  }

  function ParaFold(start: Acc, paras: seq<string>, maxWords: int): Acc
  {
    if paras == [] then start
    else ParaStep(ParaFold(start, paras[..|paras| - 1], maxWords), paras[|paras| - 1], maxWords)
  }

  /** One turn of the chapter loop, with its three branches. */
  function ChapterStep(a: Acc, chapter: string, maxWords: int): Acc
  {
    var w := CountWords(chapter);
    if w > maxWords then
      var a1 := if a.cur != [] then Acc(a.done + [a.cur], [], 0) else a;
      var t := ParaFold(Acc(a1.done, [], 0), SplitParagraphs(chapter), maxWords);
      if t.cur != [] then t else Acc(t.done, a1.cur, a1.curWords)
    else if a.curWords + w > maxWords then Acc(a.done + [a.cur], [Whole(chapter)], w)
    else Acc(a.done, a.cur + [Whole(chapter)], a.curWords + w)
  }

  function Fold(chapters: seq<string>, maxWords: int): Acc
  {
    if chapters == [] then Acc([], [], 0)
    else ChapterStep(Fold(chapters[..|chapters| - 1], maxWords), chapters[|chapters| - 1], maxWords)
  }

  /** The last chunk is kept only if it is non-empty. */
  function Groups(chapters: seq<string>, maxWords: int): seq<seq<Piece>>
  {
    var a := Fold(chapters, maxWords);
    if a.cur != [] then a.done + [a.cur] else a.done
  }

  function Rendered(gs: seq<seq<Piece>>): (r: seq<string>)
    ensures |r| == |gs|
    ensures forall k :: 0 <= k < |gs| ==> r[k] == Render(gs[k])
  {
    seq(|gs|, k requires 0 <= k < |gs| => Render(gs[k]))
  }

  /** The chunk texts the upload script writes for `content`. */
  function Chunks(content: string, maxWords: int): seq<string>
  {
    Rendered(Groups(SplitHeadings(content), maxWords))
  }

  /** The pieces a chapter becomes: its paragraphs when its own count is
      over the limit, otherwise the whole chapter. */
  function Expand(chapter: string, maxWords: int): seq<Piece>
  {
    if CountWords(chapter) > maxWords then Paras(SplitParagraphs(chapter)) else [Whole(chapter)]
  }

  function ExpandAll(chapters: seq<string>, maxWords: int): seq<Piece>
  {
    if chapters == [] then []
    else ExpandAll(chapters[..|chapters| - 1], maxWords) + Expand(chapters[|chapters| - 1], maxWords)
  }

  // -----------------------------------------------------------------------
  // The loops.

  /** The nested chunking loops, with `chunk_num` counting the chunk being
      filled. */
  method SplitChunks(content: string, maxWords: int) returns (chunks: seq<string>)
    ensures chunks == Chunks(content, maxWords)
  {
    var chapters := SplitHeadings(content);
    chunks := [];
    var currentChunk := "";
    var currentWords := 0;
    var chunkNum := 1;
    ghost var a := Acc([], [], 0);
    assert chapters[..0] == [];
    for i := 0 to |chapters|
      invariant a == Fold(chapters[..i], maxWords)
      invariant chunks == Rendered(a.done)
      invariant currentChunk == Render(a.cur)
      invariant currentWords == a.curWords
      invariant chunkNum == |chunks| + 1
    {
      FoldSnoc(chapters, i, maxWords);
      RenderEmpty(a.cur);
      var chapter := chapters[i];
      var chapterWords := CountWords(chapter);
      if chapterWords > maxWords {
        ghost var a1 := if a.cur != [] then Acc(a.done + [a.cur], [], 0) else a;
        if currentChunk != "" {
          RenderedSnoc(a.done, a.cur);
          chunks := chunks + [currentChunk];
          chunkNum := chunkNum + 1;
          currentChunk := "";
          currentWords := 0;
        }
        var tempChunk, tempWords;
        chunks, tempChunk, tempWords, chunkNum := PackParagraphs(chunks, chunkNum, SplitParagraphs(chapter), maxWords, a1.done);
        ghost var t := ParaFold(Acc(a1.done, [], 0), SplitParagraphs(chapter), maxWords);
        RenderEmpty(t.cur);
        if tempChunk != "" {
          currentChunk := tempChunk;
          currentWords := tempWords;
        }
      } else if currentWords + chapterWords > maxWords {
        RenderedSnoc(a.done, a.cur);
        RenderOne(Whole(chapter));
        chunks := chunks + [currentChunk];
        chunkNum := chunkNum + 1;
        currentChunk := chapter + "\n\n";
        currentWords := chapterWords;
      } else {
        RenderSnoc(a.cur, Whole(chapter));
        currentChunk := currentChunk + chapter + "\n\n";
        currentWords := currentWords + chapterWords;
      }
      a := ChapterStep(a, chapter, maxWords);
    }
    assert chapters[..|chapters|] == chapters;
    RenderEmpty(a.cur);
    if currentChunk != "" {
      RenderedSnoc(a.done, a.cur);
      chunks := chunks + [currentChunk];
    }
  }

  /** The inner loop over the paragraphs of a chapter over the limit: it
      closes chunks onto `chunks` and leaves the last paragraphs in
      `temp_chunk`, exactly as the paragraph packing `ParaFold` does from an
      empty temporary chunk. */
  method PackParagraphs(chunks0: seq<string>, chunkNum0: int, paragraphs: seq<string>, maxWords: int,
                        ghost done0: seq<seq<Piece>>)
    returns (chunks: seq<string>, tempChunk: string, tempWords: nat, chunkNum: int)
    requires chunks0 == Rendered(done0) && chunkNum0 == |chunks0| + 1
    ensures var t := ParaFold(Acc(done0, [], 0), paragraphs, maxWords);
      && chunks == Rendered(t.done) && tempChunk == Render(t.cur) && tempWords == t.curWords
      && chunkNum == |chunks| + 1
  {
    chunks, chunkNum := chunks0, chunkNum0;
    tempChunk := "";
    tempWords := 0;
    ghost var start := Acc(done0, [], 0);
    ghost var t := start;
    assert paragraphs[..0] == [];
    for j := 0 to |paragraphs|
      invariant t == ParaFold(start, paragraphs[..j], maxWords)
      invariant chunks == Rendered(t.done)
      invariant tempChunk == Render(t.cur)
      invariant tempWords == t.curWords
      invariant chunkNum == |chunks| + 1
    {
      ParaFoldSnoc(start, paragraphs, j, maxWords);
      RenderEmpty(t.cur);
      var para := paragraphs[j];
      var paraWords := CountWords(para);
      if tempWords + paraWords > maxWords && tempChunk != "" {
        RenderedSnoc(t.done, t.cur);
        RenderOne(Para(para));
        chunks := chunks + [tempChunk];
        chunkNum := chunkNum + 1;
        tempChunk := para + "\n\n";
        tempWords := paraWords;
      } else {
        RenderSnoc(t.cur, Para(para));
        tempChunk := tempChunk + para + "\n\n";
        tempWords := tempWords + paraWords;
      }
      t := ParaStep(t, para, maxWords);
    }
    assert paragraphs[..|paragraphs|] == paragraphs;
  }

  lemma FoldSnoc(chapters: seq<string>, i: nat, maxWords: int)
    requires i < |chapters|
    ensures Fold(chapters[..i + 1], maxWords) == ChapterStep(Fold(chapters[..i], maxWords), chapters[i], maxWords)
  {
    assert chapters[..i + 1][..i] == chapters[..i];
  }

  lemma ParaFoldSnoc(start: Acc, paras: seq<string>, j: nat, maxWords: int)
    requires j < |paras|
    ensures ParaFold(start, paras[..j + 1], maxWords) == ParaStep(ParaFold(start, paras[..j], maxWords), paras[j], maxWords)
  {
    assert paras[..j + 1][..j] == paras[..j];
  }

  lemma RenderedSnoc(gs: seq<seq<Piece>>, g: seq<Piece>)
    ensures Rendered(gs + [g]) == Rendered(gs) + [Render(g)]
  {
  }

  lemma RenderSnoc(g: seq<Piece>, p: Piece)
    ensures Render(g + [p]) == Render(g) + p.text + "\n\n"
  {
    assert (g + [p])[..|g|] == g;
  }

  lemma RenderOne(p: Piece)
    ensures Render([p]) == p.text + "\n\n"
  {
    RenderSnoc([], p);
    assert [] + [p] == [p];
  }

  /** The whole of the upload script's `split_markdown_file`: chunks and the
      numbered part files they go to; there is always at least one, and
      none is empty. */
  method SplitMarkdownFile(dir: string, stem: string, content: string, maxWords: int)
    returns (files: seq<PartFile>)
    ensures files != [] && |files| == |Chunks(content, maxWords)|
    ensures forall k :: 0 <= k < |files| ==>
      files[k] == PartFile(dir, PartName(stem, k + 1), Chunks(content, maxWords)[k]) && files[k].text != ""
  {
    var chunks := SplitChunks(content, maxWords);
    ChunksShape(content, maxWords);
    files := NameParts(dir, stem, chunks);
  }

  // -----------------------------------------------------------------------
  // What the packing guarantees.

  /** A chunk's text is empty exactly when it holds no piece. */
  lemma RenderEmpty(g: seq<Piece>)
    ensures Render(g) == "" <==> g == []
  {
    if g != [] {
      assert |Render(g)| >= 2;
    }
  }

  /** A chunk whose count is over the limit is one paragraph. */
  predicate Bounded(g: seq<Piece>, maxWords: int)
  {
    g != [] && SumWords(g) > maxWords ==> |g| == 1 && g[0].Para?
  }

  /** The invariant of both loops. */
  predicate Packed(a: Acc, maxWords: int)
  {
    && a.curWords == SumWords(a.cur)
    && (forall k :: 0 <= k < |a.done| ==> a.done[k] != [] && Bounded(a.done[k], maxWords))
    && Bounded(a.cur, maxWords)
  }

  lemma SumWordsSnoc(g: seq<Piece>, p: Piece)
    ensures SumWords(g + [p]) == SumWords(g) + CountWords(p.text)
  {
    assert (g + [p])[..|g|] == g;
  }

  lemma FlattenSnoc(gs: seq<seq<Piece>>, g: seq<Piece>)
    ensures Flatten(gs + [g]) == Flatten(gs) + g
  {
    assert (gs + [g])[..|gs|] == gs;
  }

  lemma ParaStepPacked(t: Acc, para: string, maxWords: int)
    requires Packed(t, maxWords)
    ensures Packed(ParaStep(t, para, maxWords), maxWords)
    ensures ParaStep(t, para, maxWords).cur != []
    ensures Flatten(ParaStep(t, para, maxWords).done) + ParaStep(t, para, maxWords).cur
         == Flatten(t.done) + t.cur + [Para(para)]
  {
    var w := CountWords(para);
    var p := Para(para);
    if t.curWords + w > maxWords && t.cur != [] {
      ClosePacked(t, maxWords);
      SumWordsOne(p);
      FlattenSnoc(t.done, t.cur);
      AppendAssoc(Flatten(t.done), t.cur, [p]);
    } else {
      SumWordsSnoc(t.cur, p);
      AppendAssoc(Flatten(t.done), t.cur, [p]);
      if t.cur == [] {
        assert t.cur + [p] == [p];
      }
    }
  }

  lemma SumWordsOne(p: Piece)
    ensures SumWords([p]) == CountWords(p.text)
  {
    SumWordsSnoc([], p);
    assert [] + [p] == [p];
  }

  lemma ParasSnoc(ss: seq<string>)
    requires ss != []
    ensures Paras(ss) == Paras(ss[..|ss| - 1]) + [Para(ss[|ss| - 1])]
  {
    var init := ss[..|ss| - 1];
    var a := Paras(ss);
    var b := Paras(init) + [Para(ss[|ss| - 1])];
    forall k | 0 <= k < |a| ensures a[k] == b[k] {
      if k < |init| {
        assert b[k] == Paras(init)[k];
      }
    }
  }

  lemma {:induction false} ParaFoldPacked(start: Acc, paras: seq<string>, maxWords: int)
    requires Packed(start, maxWords)
    ensures Packed(ParaFold(start, paras, maxWords), maxWords)
    ensures paras != [] ==> ParaFold(start, paras, maxWords).cur != []
    ensures Flatten(ParaFold(start, paras, maxWords).done) + ParaFold(start, paras, maxWords).cur
         == Flatten(start.done) + start.cur + Paras(paras)
  {
    if paras != [] {
      var init := paras[..|paras| - 1];
      var last := paras[|paras| - 1];
      var t := ParaFold(start, init, maxWords);
      var u := ParaFold(start, paras, maxWords);
      assert u == ParaStep(t, last, maxWords);
      ParaFoldPacked(start, init, maxWords);
      ParaStepPacked(t, last, maxWords);
      ParasSnoc(paras);
      AppendAssoc(Flatten(start.done) + start.cur, Paras(init), [Para(last)]);
    }
  }

  /** The branch for a chapter over the limit. */
  lemma OversizedStepPacked(a: Acc, chapter: string, maxWords: int)
    requires Packed(a, maxWords)
    requires CountWords(chapter) > maxWords
    ensures Packed(ChapterStep(a, chapter, maxWords), maxWords)
    ensures ChapterStep(a, chapter, maxWords).cur != []
    ensures Flatten(ChapterStep(a, chapter, maxWords).done) + ChapterStep(a, chapter, maxWords).cur
         == Flatten(a.done) + a.cur + Expand(chapter, maxWords)
  {
    var a1 := if a.cur != [] then Acc(a.done + [a.cur], [], 0) else a;
    var start := Acc(a1.done, [], 0);
    if a.cur != [] {
      FlattenSnoc(a.done, a.cur);
      ClosePacked(a, maxWords);
    } else {
      assert Flatten(a.done) + a.cur == Flatten(a.done);
    }
    assert Flatten(start.done) + start.cur == Flatten(a.done) + a.cur;
    var paras := SplitParagraphs(chapter);
    var t := ParaFold(start, paras, maxWords);
    ParaFoldPacked(start, paras, maxWords);
    assert Expand(chapter, maxWords) == Paras(paras);
    assert ChapterStep(a, chapter, maxWords) == t;
  }

  /** Closing a non-empty current chunk keeps the packing invariant. */
  lemma ClosePacked(a: Acc, maxWords: int)
    requires Packed(a, maxWords) && a.cur != []
    ensures Packed(Acc(a.done + [a.cur], [], 0), maxWords)
  {
    var d := a.done + [a.cur];
    forall k | 0 <= k < |d| ensures d[k] != [] && Bounded(d[k], maxWords) {
      if k < |a.done| {
        assert d[k] == a.done[k];
      }
    }
  }

  lemma ChapterStepPacked(a: Acc, chapter: string, maxWords: int)
    requires Packed(a, maxWords)
    ensures Packed(ChapterStep(a, chapter, maxWords), maxWords)
    ensures ChapterStep(a, chapter, maxWords).cur != []
    ensures Flatten(ChapterStep(a, chapter, maxWords).done) + ChapterStep(a, chapter, maxWords).cur
         == Flatten(a.done) + a.cur + Expand(chapter, maxWords)
  {
    var w := CountWords(chapter);
    if w > maxWords {
      OversizedStepPacked(a, chapter, maxWords);
    } else {
      SumWordsSnoc(a.cur, Whole(chapter));
      SumWordsSnoc([], Whole(chapter));
      assert [] + [Whole(chapter)] == [Whole(chapter)];
      if a.curWords + w > maxWords {
        FlattenSnoc(a.done, a.cur);
        assert a.cur != [] by {
          assert SumWords(a.cur) > 0;
        }
      }
    }
  }

  lemma {:induction false} FoldPacked(chapters: seq<string>, maxWords: int)
    ensures Packed(Fold(chapters, maxWords), maxWords)
    ensures chapters != [] ==> Fold(chapters, maxWords).cur != []
    ensures Flatten(Fold(chapters, maxWords).done) + Fold(chapters, maxWords).cur
         == ExpandAll(chapters, maxWords)
  {
    if chapters != [] {
      var init := chapters[..|chapters| - 1];
      FoldPacked(init, maxWords);
      ChapterStepPacked(Fold(init, maxWords), chapters[|chapters| - 1], maxWords);
    }
  }

  /** Every chunk holds a piece, and a chunk whose summed count is over the
      limit is a single paragraph of a chapter that was over the limit; the
      pieces of all chunks, in order, are the chapters, each one expanded to
      its paragraphs exactly when its own count is over the limit. */
  lemma GroupsShape(chapters: seq<string>, maxWords: int)
    ensures var gs := Groups(chapters, maxWords);
      && (forall k :: 0 <= k < |gs| ==> gs[k] != [])
      && (forall k :: 0 <= k < |gs| ==> SumWords(gs[k]) > maxWords ==> |gs[k]| == 1 && gs[k][0].Para?)
      && Flatten(gs) == ExpandAll(chapters, maxWords)
      && (chapters != [] ==> gs != [])
  {
    FoldPacked(chapters, maxWords);
    var a := Fold(chapters, maxWords);
    var gs := Groups(chapters, maxWords);
    if a.cur != [] {
      assert gs == a.done + [a.cur];
      FlattenSnoc(a.done, a.cur);
      forall k | 0 <= k < |gs|
        ensures gs[k] != [] && Bounded(gs[k], maxWords)
      {
        if k < |a.done| {
          assert gs[k] == a.done[k];
        } else {
          assert gs[k] == a.cur;
        }
      }
    } else {
      assert gs == a.done;
      assert Flatten(a.done) + a.cur == Flatten(a.done);
    }
  }

  lemma {:induction false} RenderIsTerminated(g: seq<Piece>)
    ensures Render(g) == Terminated(Texts(g), "\n\n")
  {
    if g != [] {
      var init := g[..|g| - 1];
      RenderIsTerminated(init);
      assert Texts(g) == Texts(init) + [g[|g| - 1].text];
      TerminatedSnoc(Texts(init), g[|g| - 1].text, "\n\n");
    }
  }

  lemma {:induction false} RenderAppend(x: seq<Piece>, y: seq<Piece>)
    ensures Render(x + y) == Render(x) + Render(y)
  {
    if y == [] {
      assert x + y == x;
    } else {
      var init := y[..|y| - 1];
      var p := y[|y| - 1];
      RenderAppend(x, init);
      RenderJoinedSnoc(x, y);
      AppendAssoc(Render(x), Render(init), p.text);
      AppendAssoc(Render(x), Render(init) + p.text, "\n\n");
    }
  }

  lemma {:induction false} ConcatRenderedIsRenderFlatten(gs: seq<seq<Piece>>)
    ensures Concat(Rendered(gs)) == Render(Flatten(gs))
  {
    if gs != [] {
      var init := gs[..|gs| - 1];
      var g := gs[|gs| - 1];
      ConcatRenderedIsRenderFlatten(init);
      assert Rendered(gs) == Rendered(init) + [Render(g)];
      ConcatSnoc(Rendered(init), Render(g));
      RenderAppend(Flatten(init), g);
    }
  }

  /** A chapter's pieces, each followed by `"\n\n"`, spell the chapter
      followed by `"\n\n"`: re-splitting at paragraphs loses nothing. */
  lemma ExpandLossless(chapter: string, maxWords: int)
    ensures Render(Expand(chapter, maxWords)) == chapter + "\n\n"
  {
    RenderIsTerminated(Expand(chapter, maxWords));
    if CountWords(chapter) > maxWords {
      var paras := SplitParagraphs(chapter);
      SplitParagraphsSound(chapter);
      assert Texts(Paras(paras)) == paras;
      TerminatedIsJoinPlusSep(paras, "\n\n");
    } else {
      assert Texts([Whole(chapter)]) == [chapter];
    }
  }

  lemma {:induction false} ExpandAllLossless(chapters: seq<string>, maxWords: int)
    ensures Render(ExpandAll(chapters, maxWords)) == Terminated(chapters, "\n\n")
  {
    if chapters != [] {
      var init := chapters[..|chapters| - 1];
      var ch := chapters[|chapters| - 1];
      ExpandAllLossless(init, maxWords);
      ExpandLossless(ch, maxWords);
      RenderSnocLossless(ExpandAll(init, maxWords), Expand(ch, maxWords), chapters);
      ExpandAllSnoc(chapters, maxWords);
    }
  }

  lemma ExpandAllSnoc(chapters: seq<string>, maxWords: int)
    requires chapters != []
    ensures ExpandAll(chapters, maxWords)
         == ExpandAll(chapters[..|chapters| - 1], maxWords) + Expand(chapters[|chapters| - 1], maxWords)
  {
  }

  /** The pieces of one more chapter, rendered after those of the earlier
      ones. */
  lemma RenderSnocLossless(before: seq<Piece>, last: seq<Piece>, chapters: seq<string>)
    requires chapters != []
    requires Render(before) == Terminated(chapters[..|chapters| - 1], "\n\n")
    requires Render(last) == chapters[|chapters| - 1] + "\n\n"
    ensures Render(before + last) == Terminated(chapters, "\n\n")
  {
    var init := chapters[..|chapters| - 1];
    var ch := chapters[|chapters| - 1];
    RenderAppend(before, last);
    TerminatedSnoc(init, ch, "\n\n");
    LastSplit(chapters);
  }

  /** The last piece of `x + y` is the last piece of `y`. */
  lemma RenderJoinedSnoc(x: seq<Piece>, y: seq<Piece>)
    requires y != []
    ensures Render(x + y) == Render(x + y[..|y| - 1]) + y[|y| - 1].text + "\n\n"
  {
    var z := x + y;
    assert z[..|z| - 1] == x + y[..|y| - 1];
  }

  lemma LastSplit(ss: seq<string>)
    requires ss != []
    ensures ss[..|ss| - 1] + [ss[|ss| - 1]] == ss
  {
  }


  /** Lossless: the chunks written one after another spell every chapter
      segment followed by `"\n\n"`, in order. */
  lemma ChunksLossless(content: string, maxWords: int)
    ensures Concat(Chunks(content, maxWords)) == Terminated(SplitHeadings(content), "\n\n")
  {
    var chapters := SplitHeadings(content);
    GroupsShape(chapters, maxWords);
    ConcatRenderedIsRenderFlatten(Groups(chapters, maxWords));
    ExpandAllLossless(chapters, maxWords);
  }

  lemma BlankCountsNothing()
    ensures CountWords("\n\n") == 0
  {
    assert !MatchAt("\n\n", 0) && !MatchAt("\n\n", 1);
    assert FindAllLatin("\n\n", 1) == 0;
  }

  /** The count of a chunk's text is the sum of its pieces' counts: the
      `"\n\n"` between pieces keeps words apart. */
  lemma {:induction false} CountRender(g: seq<Piece>)
    ensures CountWords(Render(g)) == SumWords(g)
  {
    if g != [] {
      var init := g[..|g| - 1];
      var p := g[|g| - 1];
      CountRender(init);
      var r := Render(init);
      assert r != [] ==> r[|r| - 1] == '\n';
      CountWordsAppend(r, p.text);
      CountWordsAppend(r + p.text, "\n\n");
      BlankCountsNothing();
      assert Render(g) == (r + p.text) + "\n\n";
    }
  }

  /** For the chunks of any text: there is at least one (even for empty
      content, whose single empty segment becomes the chunk `"\n\n"`), none
      is empty, a chunk over the limit is one paragraph of an over-limit
      chapter, and a chunk's count is the sum of its pieces' counts. */
  lemma ChunksShape(content: string, maxWords: int)
    ensures var gs := Groups(SplitHeadings(content), maxWords);
      var chunks := Chunks(content, maxWords);
      && |chunks| >= 1
      && (forall k :: 0 <= k < |chunks| ==> chunks[k] != "")
      && (forall k :: 0 <= k < |chunks| ==> CountWords(chunks[k]) == SumWords(gs[k]))
      && (forall k :: 0 <= k < |chunks| ==> CountWords(chunks[k]) > maxWords ==> |gs[k]| == 1 && gs[k][0].Para?)
  {
    var gs := Groups(SplitHeadings(content), maxWords);
    GroupsShape(SplitHeadings(content), maxWords);
    forall k | 0 <= k < |gs| ensures Render(gs[k]) != "" && CountWords(Render(gs[k])) == SumWords(gs[k]) {
      RenderEmpty(gs[k]);
      CountRender(gs[k]);
    }
  }
}
