/** `epub_to_markdown` of convert_epub.py: a metadata header followed by
    every document item of the book whose Markdown is substantial, each
    closed by a horizontal rule. Reading the archive, decoding and parsing
    are not modelled: the book arrives already read, each item with the
    Markdown `html_to_markdown` gives for it (or marked as failing to
    decode). */
module EpubAssembly {
  import opened Strings
  import opened HtmlMarkdown

  /** `ITEM_DOCUMENT` in ebooklib. */
  const DocumentType := 9
  /** A chapter is kept when its stripped Markdown is longer than this. */
  const MinChapterLength := 100
  const ChapterSeparator := "\n\n---\n\n"

  /** An item of the book: its ebooklib type and the Markdown of its parsed
      content (`None` when decoding the content raises, which skips it). */
  datatype Item = Item(itemType: int, markdown: Option<string>)

  /** The item for a parsed document. */
  function DocumentItem(itemType: int, doc: Option<Node>): Item
  {
    Item(itemType, if doc.Some? then Some(HtmlToMarkdown(doc.value)) else None)
  }

  /** The read book: the values of its `DC:title` and `DC:creator` entries,
      and its items in manifest order. */
  datatype Book = Book(titles: seq<string>, creators: seq<string>, items: seq<Item>)

  /** `True` with the text written, or `False` when reading the book
      raised. */
  datatype Outcome = Converted(markdown: string, chapters: nat) | Failed

  function Title(b: Book): string
  {
    if b.titles != [] then b.titles[0] else "Unknown Title"
  }

  function Author(b: Book): string
  {
    if b.creators != [] then b.creators[0] else "Unknown Author"
  }

  function Header(b: Book): string
  {
    "# " + Title(b) + "\n\n" + "**Author:** " + Author(b) + "\n\n" + "---\n\n"
  }

  /** `len(chapter_md.strip()) > 100`. */
  predicate Substantial(md: string)
  {
    |Strip(md)| > MinChapterLength
  }

  /** The Markdown an item contributes, if any. */
  function ChapterOf(item: Item): Option<string>
  {
    if item.itemType == DocumentType && item.markdown.Some?
       && Substantial(item.markdown.value)
    then Some(item.markdown.value)
    else None
  }

  /** The chapters kept, in item order. */
  function Chapters(items: seq<Item>): seq<string>
  {
    if items == [] then []
    else
      var init := Chapters(items[..|items| - 1]);
      match ChapterOf(items[|items| - 1])
      case Some(c) => init + [c]
      case None => init
  }

  /** An item with a chapter adds it after the earlier ones. */
  lemma ChapterKept(items: seq<Item>, i: nat)
    requires i < |items| && ChapterOf(items[i]).Some?
    ensures Chapters(items[..i + 1]) == Chapters(items[..i]) + [ChapterOf(items[i]).value]
  {
    assert items[..i + 1][..i] == items[..i];
  }

  /** An item without a chapter adds nothing. */
  lemma ChapterSkipped(items: seq<Item>, i: nat)
    requires i < |items| && ChapterOf(items[i]).None?
    ensures Chapters(items[..i + 1]) == Chapters(items[..i])
  {
    assert items[..i + 1][..i] == items[..i];
  }

  /** Appending a chapter and the separator to the text written so far
      writes the text of one more kept chapter. */
  lemma AppendOne(header: string, kept: seq<string>, chapter: string, md: string)
    requires md == header + Terminated(kept, ChapterSeparator)
    ensures md + chapter + ChapterSeparator == header + Terminated(kept + [chapter], ChapterSeparator)
  {
    TerminatedSnoc(kept, chapter, ChapterSeparator);
    var text := Terminated(kept, ChapterSeparator);
    assert md + chapter + ChapterSeparator == header + (text + chapter + ChapterSeparator);
  }

  /** `epub_to_markdown`: the header, then the chapters in item order. */
  method EpubToMarkdown(book: Option<Book>) returns (outcome: Outcome)
    ensures book.None? ==> outcome == Failed
    ensures book.Some? ==> outcome == Converted(
      Header(book.value) + Terminated(Chapters(book.value.items), ChapterSeparator),
      |Chapters(book.value.items)|)
  {
    if book.None? {
      return Failed;
    }
    var b := book.value;
    var markdownContent := "# " + Title(b) + "\n\n";
    markdownContent := markdownContent + "**Author:** " + Author(b) + "\n\n";
    markdownContent := markdownContent + "---\n\n";
    assert markdownContent == Header(b);
    var chapterCount;
    markdownContent, chapterCount := AppendChapters(markdownContent, b.items);
    return Converted(markdownContent, chapterCount);
  }

  /** The loop over the items of `epub_to_markdown`: each kept chapter is
      appended to the text, followed by the separator, and counted. */
  method AppendChapters(header: string, items: seq<Item>) returns (markdownContent: string, chapterCount: nat)
    ensures markdownContent == header + Terminated(Chapters(items), ChapterSeparator)
    ensures chapterCount == |Chapters(items)|
  {
    markdownContent := header;
    chapterCount := 0;
    ghost var kept: seq<string> := [];
    assert items[..0] == [];
    for i := 0 to |items|
      invariant kept == Chapters(items[..i])
      invariant markdownContent == header + Terminated(kept, ChapterSeparator)
      invariant chapterCount == |kept|
    {
      var item := items[i];
      if item.itemType == DocumentType && item.markdown.Some? {
        var chapterMd := item.markdown.value;
        if Substantial(chapterMd) {
          ChapterKept(items, i);
          AppendOne(header, kept, chapterMd, markdownContent);
          markdownContent := markdownContent + chapterMd;
          markdownContent := markdownContent + ChapterSeparator;
          chapterCount := chapterCount + 1;
          kept := kept + [chapterMd];
        } else {
          ChapterSkipped(items, i);
        }
      } else {
        ChapterSkipped(items, i);
      }
    }
    assert items[..|items|] == items;
  }

  // -----------------------------------------------------------------------

  /** A book with no substantial chapter still converts: the result is the
      header alone, and the conversion reports success. */
  lemma NoChapterStillConverts(b: Book)
    requires forall k :: 0 <= k < |b.items| ==> ChapterOf(b.items[k]).None?
    ensures Chapters(b.items) == []
    ensures Header(b) + Terminated(Chapters(b.items), ChapterSeparator) == Header(b)
  {
    NoChapters(b.items);
  }

  lemma {:induction false} NoChapters(items: seq<Item>)
    requires forall k :: 0 <= k < |items| ==> ChapterOf(items[k]).None?
    ensures Chapters(items) == []
  {
    if items != [] {
      NoChapters(items[..|items| - 1]);
    }
  }

  /** `strip` leaves text without whitespace at its ends unchanged. */
  lemma StripTrimmed(r: string)
    requires r != "" ==> !IsSpace(r[0]) && !IsSpace(r[|r| - 1])
    ensures Strip(r) == r
  {
    if r != "" {
      assert LeadingSpaces(r) == 0;
      assert TrailingSpaces(r[0..]) == 0 by {
        assert r[0..] == r;
      }
    }
  }

  /** The Markdown of a document has no whitespace at its ends, so the
      `strip` in the length test never changes it. */
  lemma MarkdownIsStripped(doc: Node)
    ensures Strip(HtmlToMarkdown(doc)) == HtmlToMarkdown(doc)
  {
    var body := FindBodyIn(doc);
    var rendered := if body.Some? then Render(body.value) else Render(doc);
    CleanupShape(rendered);
    StripTrimmed(Cleanup(rendered));
  }

  /** An item built from a parsed document is kept exactly when it is a
      document item, it decoded, and its Markdown is longer than 100
      characters; what is kept is that Markdown. */
  lemma DocumentItemKept(itemType: int, doc: Option<Node>)
    ensures ChapterOf(DocumentItem(itemType, doc)).Some?
        <==> itemType == DocumentType && doc.Some? && |HtmlToMarkdown(doc.value)| > MinChapterLength
    ensures ChapterOf(DocumentItem(itemType, doc)).Some?
        ==> ChapterOf(DocumentItem(itemType, doc)).value == HtmlToMarkdown(doc.value)
  {
    if doc.Some? {
      MarkdownIsStripped(doc.value);
    }
  }

  /** Every kept chapter is longer than 100 characters once stripped, and
      comes from a document item with Markdown, in item order. */
  lemma {:induction false} ChaptersShape(items: seq<Item>)
    ensures |Chapters(items)| <= |items|
    ensures forall k :: 0 <= k < |Chapters(items)| ==> Substantial(Chapters(items)[k])
    ensures forall c :: c in Chapters(items) ==>
      exists k :: 0 <= k < |items| && items[k].itemType == DocumentType && items[k].markdown == Some(c)
  {
    if items != [] {
      var init := items[..|items| - 1];
      var item := items[|items| - 1];
      ChaptersShape(init);
      forall c | c in Chapters(init)
        ensures exists k :: 0 <= k < |items| && items[k].itemType == DocumentType && items[k].markdown == Some(c)
      {
        var k :| 0 <= k < |init| && init[k].itemType == DocumentType && init[k].markdown == Some(c);
        assert items[k] == init[k];
      }
      match ChapterOf(item)
      case Some(c) =>
        assert Chapters(items) == Chapters(init) + [c];
        assert items[|items| - 1].markdown == Some(c);
      case None =>
    }
  }

  /** The written text starts with the header and, when a chapter was kept,
      ends with the separator after the last chapter. */
  lemma DocumentFrame(b: Book)
    ensures var md := Header(b) + Terminated(Chapters(b.items), ChapterSeparator);
      && StartsWith(md, Header(b))
      && (Chapters(b.items) != [] ==> EndsWith(md, ChapterSeparator))
  {
    var chs := Chapters(b.items);
    var md := Header(b) + Terminated(chs, ChapterSeparator);
    assert md[..|Header(b)|] == Header(b);
    if chs != [] {
      TerminatedIsJoinPlusSep(chs, ChapterSeparator);
      assert md == (Header(b) + JoinWith(chs, ChapterSeparator)) + ChapterSeparator;
    }
  }
}
