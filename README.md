# book-ingestion-service, modelled in Dafny

This project models the core of the book-ingestion pipeline, which goes from a
Z-Library page to a NotebookLM upload.

- **Words** is the word count both chunkers use (`count_words`). Every CJK
  unified ideograph counts as one word, and so does every match of
  `\b[a-zA-Z]+\b`. Python's `\b` is Unicode-aware, so a run of ASCII letters
  counts only when it is a whole word-character token (`IsWordChar`).
- **Splitting** models the two ways text is cut.
  - `re.split(r'\n(?=#{1,3}\s)', ...)` gives the chapter segments; the newline
    is consumed.
  - `text.split('\n\n')` gives the paragraphs.
- **MarkdownSplit** is `split_markdown_file` of `zlibrary-to-notebooklm/utils.py`.
  - Segments are packed greedily into chunks with nothing between them.
  - A chunk closes only when the next segment would take the sum strictly past
    the limit.
  - The last chunk is kept only if its text is non-empty.
  - Chunks are written to `<stem>_part<i>.md` (**PartFiles**).
- **UploadSplit** is the other `split_markdown_file`, in
  `zlibrary-to-notebooklm-main/scripts/upload.py`.
  - Every piece is followed by `"\n\n"`.
  - A chapter whose own count is over the limit is cut into its paragraphs,
    which are packed on their own.
- **HtmlMarkdown** is `html_to_markdown` of `convert_epub.py`.
  - It is a recursive fold over a parsed node tree, with a fixed rule per tag
    (`Tag`, `TagOf`, `Rule`).
  - It is followed by the whitespace clean-up: four or more newlines become
    three, runs of spaces become one, and the ends are stripped.
- **EpubAssembly** is the chapter loop of `epub_to_markdown`.
  - First comes a title/author header.
  - Then every document item whose stripped Markdown is longer than 100
    characters, each followed by `"\n\n---\n\n"`.
- **DownloadStrategy** covers the decisions inside `download_from_zlibrary`.
  - Which link to click, and which format to expect. This is read from a
    snapshot of what the page's selectors match.
  - Where the downloaded file is then looked for: the download event, or else
    the newest matching file in the downloads directory that is less than 120
    seconds old.
- **UploadPipeline** covers the `convert_to_txt` dispatch and the notebook
  title that `upload_to_notebooklm` derives from a file name.

The loops of the source are methods, proved against the function that
specifies them:
- `MarkdownSplit.SplitChunks`
- `UploadSplit.SplitChunks` and `UploadSplit.PackParagraphs`
- `EpubAssembly.AppendChapters`
- `DownloadStrategy.SelectDownload`
- `PartFiles.NameParts`

The lemmas beside them state what the source promises about those functions.

Notes on how the code behaves, which the model follows:

- An EPUB without a substantial chapter converts successfully. The result is
  the header alone (`NoChapterStillConverts`).
- `count_words("你好 hello")` is 3: each ideograph counts as a word, and so
  does `hello` (`CountWordsMixed`).
- A run of letters counts only when it stands alone as a word-character
  token. Letters glued to a digit, `_` or an ideograph add nothing
  (`CountWordsLettersThenDigits`, `CountWordsIdeographsThenLetters`).
- Only the upload script's splitter cuts an oversized chapter into
  paragraphs. The one in `utils.py` keeps such a chapter whole, as its own
  over-limit chunk. If it is the first segment, an empty chunk comes before
  it (`MarkdownSplit.GroupsShape`).
- In `utils.py` the newline consumed by the heading split is not written
  back, so a heading ends up on the line before it
  (`MarkdownSplit.HeadingNewlineDropped`). The chunks spell the segments, not
  the content.
- The separator `"\n\n---\n\n"` follows every kept chapter, the last one
  included (`DocumentFrame`).
- `download_from_zlibrary` returns a bare `None` on three of its early exits
  and a pair everywhere else. Its caller unpacks a pair.
  `DownloadStrategy.Returned` keeps the two shapes apart (`DownloadShape`).
- The rule tags (headings, `p`, `b`/`strong`, `i`/`em`, `code`, `a`, `li`)
  write `get_text()`, which leaves out comments, the strings of `script`,
  `style` and `template`, and ruby `rt`/`rp` text. The default rule renders
  every string, comments included. Each text node carries a `counted` flag
  for this (`ScriptInParagraph`, `CommentInDiv`).

## Model

| member | source | states |
|---|---|---|
| Words.CountWordsBound | zlibrary-to-notebooklm/utils.py:5-8 | the count is at most the text's length, and 0 for empty text |
| Words.CountWords | zlibrary-to-notebooklm/utils.py:5-8 | defines `count_words`: the CJK ideographs plus the `\b[a-zA-Z]+\b` matches (its properties are the `Words` lemmas below) |
| Words.ScanCountsLatinWords | zlibrary-to-notebooklm/utils.py:7 | the left-to-right `\b[a-zA-Z]+\b` scan counts exactly the maximal word-character tokens made only of ASCII letters |
| Words.CountWordsAppend | zlibrary-to-notebooklm/utils.py:5-8 | counting two texts separated by a non-word character is the sum of their counts |
| Words.CountWordsMixed | zlibrary-to-notebooklm-main/scripts/upload.py:364-371 | "你好 hello" counts 3: two ideographs and one word |
| Words.CountWordsLettersThenDigits | zlibrary-to-notebooklm/utils.py:7 | "abc123" has no Latin word, since `\b` does not fall between letter and digit |
| Words.CountWordsIdeographsThenLetters | zlibrary-to-notebooklm-main/scripts/upload.py:368-370 | "你好hello" counts only its two ideographs |
| Words.WordsFitInText | zlibrary-to-notebooklm-main/scripts/upload.py:364-371 | ideographs plus Latin words from a position never exceed the characters left |
| Splitting.SplitHeadingsSound | zlibrary-to-notebooklm/utils.py:14 | joining the segments with "\n" gives the text back; every later segment begins with 1-3 `#` and whitespace; no segment holds a break |
| Splitting.SplitParagraphsSound | zlibrary-to-notebooklm-main/scripts/upload.py:406 | joining the paragraphs with "\n\n" gives the chapter back, no paragraph holds "\n\n", and every paragraph but the last is empty or ends in a character other than a newline, so each cut is the leftmost |
| Splitting.ThreeNewlinesSplit | zlibrary-to-notebooklm-main/scripts/upload.py:406 | "a\n\n\nb" splits into "a" and "\nb" |
| Splitting.SplitHeadings | zlibrary-to-notebooklm/utils.py:14 | defines `re.split(r"\n(?=#{1,3}\s)")`: at least one segment (the rest is `SplitHeadingsSound`) |
| Splitting.SplitParagraphs | zlibrary-to-notebooklm-main/scripts/upload.py:406 | defines `split("\n\n")`: at least one paragraph (the rest is `SplitParagraphsSound`) |
| MarkdownSplit.SplitChunks | zlibrary-to-notebooklm/utils.py:14-31 | the loop appends exactly the greedy packing's chunk texts, and together they spell the segments in order |
| MarkdownSplit.Chunks | zlibrary-to-notebooklm/utils.py:14-31 | defines the chunk texts of utils.py: the greedy packing of the heading segments (stated by `GroupsShape`, `ChunksShape`, `ChunksLossless`) |
| MarkdownSplit.SplitMarkdownFile | zlibrary-to-notebooklm/utils.py:10-41 | one part file per chunk, numbered from 1 in order, holding that chunk |
| MarkdownSplit.ChunksLossless | zlibrary-to-notebooklm/utils.py:20-31 | the chunks concatenated equal the segments concatenated |
| MarkdownSplit.FoldPacked | zlibrary-to-notebooklm/utils.py:20-28 | the packing invariant holds after every segment: running count, size bound, greedy closing rule |
| MarkdownSplit.FoldOrder | zlibrary-to-notebooklm/utils.py:20-28 | the closed chunks then the open one are the segments, in order |
| MarkdownSplit.GroupsShape | zlibrary-to-notebooklm/utils.py:16-31 | a chunk over the limit holds one segment; a chunk is closed only when the next segment would pass the limit strictly; an over-limit first segment yields an empty first chunk |
| MarkdownSplit.ChunksShape | zlibrary-to-notebooklm/utils.py:20-31 | the same, stated with each chunk text's own word count |
| MarkdownSplit.CountConcat | zlibrary-to-notebooklm/utils.py:21-28 | a chunk text's count equals the sum of its segments' counts, so `current_words` is the chunk's count |
| MarkdownSplit.FirstFlush | zlibrary-to-notebooklm/utils.py:16-24 | an over-limit first segment closes the still-empty chunk first |
| MarkdownSplit.EmptyContentNoChunks | zlibrary-to-notebooklm/utils.py:30-31 | empty content yields no chunk |
| MarkdownSplit.GroupsKeepOrder | zlibrary-to-notebooklm/utils.py:20-31 | the chunks read in order are a prefix of the segments; only empty segments can be missing |
| MarkdownSplit.HeadingNewlineDropped | zlibrary-to-notebooklm/utils.py:14-28 | "a\n# b" splits into "a" and "# b" and becomes the one chunk "a# b" |
| PartFiles.PartNamesDistinct | zlibrary-to-notebooklm/utils.py:36 | different part numbers give different file names |
| PartFiles.NameParts | zlibrary-to-notebooklm/utils.py:33-39 | file k holds chunk k and is named `<stem>_part<k+1>.md` |
| UploadSplit.SplitChunks | zlibrary-to-notebooklm-main/scripts/upload.py:384-438 | the nested loops append exactly the chunk texts of the specification `Chunks` |
| UploadSplit.Chunks | zlibrary-to-notebooklm-main/scripts/upload.py:384-438 | defines the chunk texts of upload.py: chapters packed, over-limit chapters re-split by paragraph (stated by `ChunksShape`, `ChunksLossless`) |
| UploadSplit.PackParagraphs | zlibrary-to-notebooklm-main/scripts/upload.py:406-423 | the paragraph loop closes and leaves open exactly what the paragraph packing does, with `chunk_num` one past the chunks written |
| UploadSplit.SplitMarkdownFile | zlibrary-to-notebooklm-main/scripts/upload.py:373-451 | one part file per chunk, numbered from 1 in order; at least one, and none empty |
| UploadSplit.ChunksLossless | zlibrary-to-notebooklm-main/scripts/upload.py:397-438 | the chunks concatenated equal every segment followed by "\n\n", with re-split chapters rebuilt exactly |
| UploadSplit.ExpandLossless | zlibrary-to-notebooklm-main/scripts/upload.py:406-419 | a chapter's pieces, each followed by "\n\n", spell the chapter followed by "\n\n" |
| UploadSplit.ExpandAllLossless | zlibrary-to-notebooklm-main/scripts/upload.py:393-434 | the pieces of all chapters spell every chapter followed by "\n\n" |
| UploadSplit.FoldPacked | zlibrary-to-notebooklm-main/scripts/upload.py:393-434 | after every chapter no closed chunk is empty, any over-limit chunk is one paragraph, and the pieces are the expanded chapters in order |
| UploadSplit.ParaFoldPacked | zlibrary-to-notebooklm-main/scripts/upload.py:410-419 | the paragraph loop keeps the same invariant and order |
| UploadSplit.ChapterStepPacked | zlibrary-to-notebooklm-main/scripts/upload.py:396-434 | each of the three branches keeps the invariant and appends the chapter's pieces |
| UploadSplit.GroupsShape | zlibrary-to-notebooklm-main/scripts/upload.py:393-438 | no chunk is empty; a chunk over the limit is a single paragraph; the pieces in order are the chapters, re-split exactly when over the limit |
| UploadSplit.ChunksShape | zlibrary-to-notebooklm-main/scripts/upload.py:393-449 | at least one chunk, none empty, each counting the sum of its pieces, any over the limit a single paragraph |
| UploadSplit.CountRender | zlibrary-to-notebooklm-main/scripts/upload.py:448 | a chunk text's count is the sum of its pieces' counts |
| UploadSplit.RenderEmpty | zlibrary-to-notebooklm-main/scripts/upload.py:399 | a chunk's text is empty exactly when it holds no piece |
| HtmlMarkdown.BlankRendersBlank | zlibrary-to-notebooklm/convert_epub.py:17-104 | a subtree whose strings are all whitespace renders to whitespace only |
| HtmlMarkdown.GetText | zlibrary-to-notebooklm/convert_epub.py:33 | defines `get_text()`: the counted strings of the subtree in order (stated by `CountedTextIsAllText`, `CountedTextBlank`) |
| HtmlMarkdown.Render | zlibrary-to-notebooklm/convert_epub.py:17-104 | defines `process_element`: a string stripped, a skipped tag empty, a tag with a rule by that rule, any other by its children in order (stated by `PlainRendersLeaves`, `BlankRendersBlank`) |
| HtmlMarkdown.Rule | zlibrary-to-notebooklm/convert_epub.py:26-95 | defines the per-tag rules: skipped tags write nothing; headings, paragraphs, bold, italic, code, links, both list kinds and line breaks wrap the stripped `get_text` (stated by `RuleOnBlank`, `NumberedByPosition`, `ScriptInParagraph`) |
| HtmlMarkdown.FindBody | zlibrary-to-notebooklm/convert_epub.py:107 | defines `soup.find("body")` over a list of siblings: the first body element in document order (stated by `FindBodySound`) |
| HtmlMarkdown.Cleanup | zlibrary-to-notebooklm/convert_epub.py:113-116 | defines the three clean-up steps (stated by `CleanupShape`, `CleanupKeepsVisible`) |
| HtmlMarkdown.HtmlToMarkdown | zlibrary-to-notebooklm/convert_epub.py:106-118 | defines `html_to_markdown`: the body, or the whole document without one, rendered then cleaned (stated by `PlainDocumentKeepsText`) |
| HtmlMarkdown.CountedTextBlank | zlibrary-to-notebooklm/convert_epub.py:33 | when all strings of a subtree are blank, so is its `get_text` |
| HtmlMarkdown.RuleOnBlank | zlibrary-to-notebooklm/convert_epub.py:26-95 | with blank text every tag rule writes only newlines or nothing |
| HtmlMarkdown.BlankBullets | zlibrary-to-notebooklm/convert_epub.py:75-82 | items with blank text write no bullet line |
| HtmlMarkdown.BlankNumbered | zlibrary-to-notebooklm/convert_epub.py:84-91 | items with blank text write no numbered line |
| HtmlMarkdown.PlainRendersLeaves | zlibrary-to-notebooklm/convert_epub.py:19-24 | without tags that have a rule, rendering is the stripped text nodes concatenated in order |
| HtmlMarkdown.PlainAllRendersLeaves | zlibrary-to-notebooklm/convert_epub.py:97-102 | the default rule concatenates the children's renderings in order |
| HtmlMarkdown.TextIsLeaves | zlibrary-to-notebooklm/convert_epub.py:19-24 | all the strings of a subtree are its text nodes concatenated in order |
| HtmlMarkdown.CountedTextIsAllText | zlibrary-to-notebooklm/convert_epub.py:33 | when every string is of a kind `get_text` counts, `get_text` is all the strings |
| HtmlMarkdown.ScriptInParagraph | zlibrary-to-notebooklm/convert_epub.py:39-43 | a paragraph writes its counted text and leaves out the text of a `script` inside it |
| HtmlMarkdown.CommentInDiv | zlibrary-to-notebooklm/convert_epub.py:19-24 | an element without a rule writes a comment child's stripped text, which `get_text` leaves out |
| HtmlMarkdown.SkippedChildrenVanish | zlibrary-to-notebooklm/convert_epub.py:27-28 | for an element rendered by the default rule, dropping its script/style/nav/footer/svg children does not change its rendering |
| HtmlMarkdown.NumberedByPosition | zlibrary-to-notebooklm/convert_epub.py:84-91 | the `li` at position k among the direct `li` children is numbered start+k |
| HtmlMarkdown.EmptyItemKeepsNumber | zlibrary-to-notebooklm/convert_epub.py:87-90 | an empty item writes nothing but still uses its number |
| HtmlMarkdown.FindBodySound | zlibrary-to-notebooklm/convert_epub.py:107-111 | a body is found exactly when the tree has one, and what is found is a body element |
| HtmlMarkdown.CleanupShape | zlibrary-to-notebooklm/convert_epub.py:113-116 | after clean-up: no four newlines in a row, no two spaces in a row, no whitespace at either end |
| HtmlMarkdown.CleanupKeepsVisible | zlibrary-to-notebooklm/convert_epub.py:113-116 | the clean-up keeps every non-whitespace character, in order |
| HtmlMarkdown.NewlinesNoQuad | zlibrary-to-notebooklm/convert_epub.py:114 | the newline step leaves no run of four newlines |
| HtmlMarkdown.SpacesNoDouble | zlibrary-to-notebooklm/convert_epub.py:115 | the space step leaves no two spaces in a row |
| HtmlMarkdown.SpacesKeepNoQuad | zlibrary-to-notebooklm/convert_epub.py:114-115 | the space step creates no run of four newlines |
| HtmlMarkdown.VisibleNewlines | zlibrary-to-notebooklm/convert_epub.py:114 | the newline step changes no visible character |
| HtmlMarkdown.VisibleSpaces | zlibrary-to-notebooklm/convert_epub.py:115 | the space step changes no visible character |
| HtmlMarkdown.PlainDocumentKeepsText | zlibrary-to-notebooklm/convert_epub.py:106-118 | for a body-less document without rule tags, the Markdown shows exactly the visible characters of all its strings; that is its `get_text` when every string is counted |
| EpubAssembly.EpubToMarkdown | zlibrary-to-notebooklm/convert_epub.py:121-180 | an unreadable book fails; otherwise the text is the header then every kept chapter followed by the separator, and the count is the number kept |
| EpubAssembly.Header | zlibrary-to-notebooklm/convert_epub.py:136-139 | defines the title, author and rule lines that open the document (stated by `DocumentFrame`) |
| EpubAssembly.Chapters | zlibrary-to-notebooklm/convert_epub.py:142-156 | defines the kept chapters in item order (stated by `ChaptersShape`, `DocumentItemKept`) |
| EpubAssembly.AppendChapters | zlibrary-to-notebooklm/convert_epub.py:142-160 | the item loop appends exactly the kept chapters, in order, and counts them |
| EpubAssembly.NoChapterStillConverts | zlibrary-to-notebooklm/convert_epub.py:153-174 | with no substantial chapter the document is the header alone and conversion succeeds |
| EpubAssembly.ChaptersShape | zlibrary-to-notebooklm/convert_epub.py:143-156 | every kept chapter is longer than 100 once stripped and is the Markdown of a document item |
| EpubAssembly.DocumentFrame | zlibrary-to-notebooklm/convert_epub.py:137-156 | the document starts with the header and, with a chapter, ends with the separator |
| EpubAssembly.DocumentItemKept | zlibrary-to-notebooklm/convert_epub.py:143-156 | a parsed item is kept exactly when it is a document, it decoded, and its Markdown is longer than 100; the kept text is that Markdown |
| EpubAssembly.MarkdownIsStripped | zlibrary-to-notebooklm/convert_epub.py:116 | a chapter's Markdown is already stripped, so the length test measures it as written |
| DownloadStrategy.SelectDownload | zlibrary-to-notebooklm-main/scripts/upload.py:161-295 | the branches and the selector loop pick exactly the link and format of the specification `Select` |
| DownloadStrategy.Primary | zlibrary-to-notebooklm-main/scripts/upload.py:161-264 | defines the first step: the dots menu or the old convert buttons (stated by `DotsIgnoresLegacy`, `LegacyPrefersPdf`) |
| DownloadStrategy.Select | zlibrary-to-notebooklm-main/scripts/upload.py:161-300 | defines the chosen link and format: the first step, else the direct-link scan (stated by `SelectSound`) |
| DownloadStrategy.FormatOf | zlibrary-to-notebooklm-main/scripts/upload.py:286-289 | defines the format read from an href, PDF first (stated by `PdfBeforeEpub`) |
| DownloadStrategy.DirectoryPick | zlibrary-to-notebooklm-main/scripts/upload.py:332-351 | defines the fallback pick in the downloads directory (stated by `DirectoryPickSound`) |
| DownloadStrategy.Download | zlibrary-to-notebooklm-main/scripts/upload.py:297-355 | defines what `download_from_zlibrary` returns (stated by `DownloadShape`) |
| DownloadStrategy.ScanFrom | zlibrary-to-notebooklm-main/scripts/upload.py:277-295 | the scan returns only links whose href holds "/dl/" |
| DownloadStrategy.ScanSound | zlibrary-to-notebooklm-main/scripts/upload.py:277-295 | the scan finds nothing exactly when no scanned link is direct, else the first direct link in selector order |
| DownloadStrategy.DotsIgnoresLegacy | zlibrary-to-notebooklm-main/scripts/upload.py:166-189 | with the dots menu, convert buttons are never consulted and PDF is preferred over EPUB |
| DownloadStrategy.LegacyPrefersPdf | zlibrary-to-notebooklm-main/scripts/upload.py:189-264 | on the old interface the PDF button wins and the EPUB button is never consulted |
| DownloadStrategy.SelectSound | zlibrary-to-notebooklm-main/scripts/upload.py:266-300 | no link exactly when the first step found none and no scanned link is direct; a scanned link is direct and its format is read pdf-before-epub |
| DownloadStrategy.PdfBeforeEpub | zlibrary-to-notebooklm-main/scripts/upload.py:286-289 | an href naming both formats is taken as PDF |
| DownloadStrategy.Glob | zlibrary-to-notebooklm-main/scripts/upload.py:337 | exactly the listed files with the pattern's suffix |
| DownloadStrategy.Latest | zlibrary-to-notebooklm-main/scripts/upload.py:340 | the first file with the largest modification time |
| DownloadStrategy.DirectoryPickSound | zlibrary-to-notebooklm-main/scripts/upload.py:332-351 | the pick is the newest file of the expected kind and younger than 120 s; none exactly when no such file is that young |
| DownloadStrategy.DownloadShape | zlibrary-to-notebooklm-main/scripts/upload.py:297-355 | a bare None exactly on the early exits; a found file carries the selected format, no file no format |
| UploadPipeline.RFind | zlibrary-to-notebooklm-main/scripts/upload.py:460 | the last index of the character, or -1 |
| UploadPipeline.StemSuffix | zlibrary-to-notebooklm-main/scripts/upload.py:460-468 | stem and suffix split the name; a suffix is a dot and at least one character without a further dot |
| UploadPipeline.StemOfDotted | zlibrary-to-notebooklm-main/scripts/upload.py:468 | `<stem>.md` has stem `<stem>` and suffix `.md` |
| UploadPipeline.Stem | zlibrary-to-notebooklm-main/scripts/upload.py:468 | defines `Path.stem`: the name before its last dot, unless that dot is first or last (stated by `StemSuffix`) |
| UploadPipeline.Suffix | zlibrary-to-notebooklm-main/scripts/upload.py:460 | defines `Path.suffix`: from the last dot, unless that dot is first or last (stated by `StemSuffix`) |
| UploadPipeline.Extension | zlibrary-to-notebooklm-main/scripts/upload.py:460 | defines `file_path.suffix.lower()` |
| UploadPipeline.ConvertToTxt | zlibrary-to-notebooklm-main/scripts/upload.py:453-499 | PDF (by extension or format) unchanged; other non-EPUB unchanged; failed conversion unchanged; over 350000 words the part files; otherwise the single Markdown file |
| UploadPipeline.ConvertBook | zlibrary-to-notebooklm-main/scripts/upload.py:460-495 | a PDF or non-EPUB, a path with a quote, or a book the converter cannot read keeps the file; a converter writing in place hands on its header and kept chapters, as read back in text mode, as the Markdown file or, over 350000 words, as the parts `/tmp/<stem>_part<k>.md` holding the chunks in order, split exactly when the document as written counts over 350000 words; one writing elsewhere leaves the old `/tmp/<stem>.md` to be read back, or an error when there is none |
| UploadPipeline.ReadText | zlibrary-to-notebooklm-main/scripts/upload.py:488 | what text mode reads back holds no carriage return and is no longer than what was written |
| UploadPipeline.ReadUnchanged | zlibrary-to-notebooklm-main/scripts/upload.py:488 | text without a carriage return reads back exactly as written |
| UploadPipeline.ReadKeepsCount | zlibrary-to-notebooklm-main/scripts/upload.py:488 | reading back counts the same words as were written, since the line ends it rewrites are not word characters |
| UploadPipeline.WrittenInPlace | zlibrary-to-notebooklm/convert_epub.py:163 | the converter writes to `/tmp/<stem>.md` exactly when the stem holds no ".txt" |
| UploadPipeline.TxtOnlyInStem | zlibrary-to-notebooklm/convert_epub.py:163 | ".txt" occurs in `/tmp/<stem>.md` exactly when it occurs in the stem |
| UploadPipeline.ReplaceShrinks | zlibrary-to-notebooklm/convert_epub.py:163 | replacing ".txt" by ".md" never lengthens a path and shortens one that holds ".txt" |
| UploadPipeline.ReplaceAll | zlibrary-to-notebooklm-main/scripts/upload.py:515 | defines `str.replace`: leftmost occurrences, not overlapping (stated by `ReplaceChar`, `ReplaceAbsent`, `ReplaceChars`, `ReplaceShrinks`) |
| UploadPipeline.ReplaceChars | zlibrary-to-notebooklm-main/scripts/upload.py:515 | a replacement holds only characters of the text or of the replacement |
| UploadPipeline.SplitUpload | zlibrary-to-notebooklm-main/scripts/upload.py:491-493 | the parts of `/tmp/<stem>.md` are named after the same stem, at least one |
| UploadPipeline.SomeChunk | zlibrary-to-notebooklm-main/scripts/upload.py:493 | a split always yields a part |
| UploadPipeline.ReplaceChar | zlibrary-to-notebooklm-main/scripts/upload.py:515 | replacing `_` by a space changes exactly the underscores |
| UploadPipeline.ReplaceAbsent | zlibrary-to-notebooklm-main/scripts/upload.py:515 | text without the pattern is left alone |
| UploadPipeline.RemovePart1Suffix | zlibrary-to-notebooklm-main/scripts/upload.py:515 | removing `_part1` undoes an appended `_part1` |
| UploadPipeline.RemoveGroups | zlibrary-to-notebooklm-main/scripts/upload.py:517-518 | the substitution introduces no character that was not in the title |
| UploadPipeline.GroupFreeKept | zlibrary-to-notebooklm-main/scripts/upload.py:517-518 | a title without the opening bracket is left exactly as it is |
| UploadPipeline.RemoveGroupAt | zlibrary-to-notebooklm-main/scripts/upload.py:517-518 | the leftmost opening bracket and the first closing bracket after it on the same line are removed with what lies between; the text before is kept and the rest is cleaned the same way |
| UploadPipeline.GroupsRemoved | zlibrary-to-notebooklm-main/scripts/upload.py:517-518 | no bracketed group closed on its line is left |
| UploadPipeline.CollapseWhitespace | zlibrary-to-notebooklm-main/scripts/upload.py:519 | the only whitespace left is single spaces, and no character but a space is introduced |
| UploadPipeline.CollapseKeepsVisible | zlibrary-to-notebooklm-main/scripts/upload.py:519 | collapsing whitespace keeps every non-whitespace character, in order |
| UploadPipeline.CleanTitleKeeps | zlibrary-to-notebooklm-main/scripts/upload.py:517-519 | the cleaned title shows every non-whitespace character that the two group removals leave, in order; a title without brackets keeps all of them |
| UploadPipeline.NoGroupUnclosed | zlibrary-to-notebooklm-main/scripts/upload.py:517-518 | on a single line, no bracketed group is left exactly when no opening bracket has a closing one after it |
| UploadPipeline.TitleNoGroups | zlibrary-to-notebooklm-main/scripts/upload.py:517-521 | a one-line title, once cleaned and shortened, holds no `[...]` and no `(...)` group |
| UploadPipeline.CleanTitleTidy | zlibrary-to-notebooklm-main/scripts/upload.py:517-519 | the clean-up leaves no underscore, single spaces only, none at the ends |
| UploadPipeline.ShortenTidy | zlibrary-to-notebooklm-main/scripts/upload.py:520-521 | truncation keeps the title tidy and at most 53 long |
| UploadPipeline.CleanTitle | zlibrary-to-notebooklm-main/scripts/upload.py:517-519 | defines the clean-up: both group removals, whitespace collapsed, stripped (stated by `CleanTitleTidy`, `CleanTitleKeeps`, `TitleNoGroups`) |
| UploadPipeline.Shorten | zlibrary-to-notebooklm-main/scripts/upload.py:520-521 | defines the cut to 50 characters plus "..." (stated by `ShortenTidy`, `TitleShape`) |
| UploadPipeline.TitleShape | zlibrary-to-notebooklm-main/scripts/upload.py:514-521 | a derived title is tidy and at most 53 long; over 50 it is the first 50 characters then "..."; otherwise it is kept whole; the cleaned title keeps every visible character the group removals leave (all of them when there are no brackets); a one-line title is left with no bracketed group of either kind |
| UploadPipeline.DerivedTitleShape | zlibrary-to-notebooklm-main/scripts/upload.py:575-583 | both the single-file and the part-list titles are tidy and at most 53 long, and for a one-line stem hold no bracketed group of either kind |
| UploadPipeline.FirstPartTitle | zlibrary-to-notebooklm-main/scripts/upload.py:514-521 | the list title of `<x>_part1` is the single title of `<x>` |
| UploadPipeline.FirstPartStem | zlibrary-to-notebooklm-main/scripts/upload.py:444 | the first part file's stem is `<stem>_part1` |
| UploadPipeline.SplitKeepsTitle | zlibrary-to-notebooklm-main/scripts/upload.py:513-583 | a book split into parts gets the same notebook title it would get as one Markdown file |
| UploadPipeline.NotebookTitle | zlibrary-to-notebooklm-main/scripts/upload.py:509-583 | defines the title: the one given if not empty, else the list title of the first part or the single title of the file (stated by `SplitKeepsTitle`, `DerivedTitleShape`) |

## Left out

- Browser work is not modelled, because it is I/O and timing: Playwright, login, page loads, clicks, sleeps, the 60-second conversion polling and the download event handler. The selection works on a snapshot of what the selectors match (`DownloadStrategy.Page`). The converted-link lists are those seen after the wait.
- The `notebooklm` command calls and their JSON parsing in `upload_to_notebooklm` are left out, because they are a foreign process. Only the title is modelled.
- The converter subprocess in `convert_to_txt` is left out for the same reason. Its outcome is a parameter. `ConversionOf` maps an `EpubAssembly.Outcome` to it, and `ConvertBook` runs `EpubToMarkdown` in its place.
- `UploadPipeline.ConvertBook` runs `zlibrary-to-notebooklm/convert_epub.py` where upload.py:474-475 runs `scripts/convert_epub.py` beside it. That script is not part of this model, and the two are taken to behave alike.
- `UploadPipeline.ConvertBook` takes a path with a `'` as a failed conversion, because upload.py:477 quotes both paths with `'` and the shell then splits them. This assumes the split arguments name no readable EPUB; the model does not rebuild them. A quote in the converter script's own directory is not modelled.
- `UploadPipeline.ConvertBook` takes `book` to be what the converter reads at the path it is handed, and `existing` to be whatever `/tmp/<stem>.md` held before. When the stem holds ".txt", convert_epub.py:163 writes elsewhere (`WrittenInPlace`), and upload.py:488 reads that old text or raises.
- EPUB reading, UTF-8 decoding and HTML parsing are left out, because they are foreign libraries. The book arrives as `EpubAssembly.Book`; the document as a `HtmlMarkdown.Node` tree. Which strings `get_text` counts is decided by the parser and arrives as each text node's `counted` flag.
- File writes are left out: the chunkers return (directory, name, text) triples instead of writing them. Reading a file back is left out except at upload.py:488, where `ReadText` models text mode turning "\r\n" and a lone "\r" into "\n". The chunkers take that text as they find it: it holds no "\r", so reading it again at upload.py:377 would change nothing (`ReadUnchanged`).
- KB sizes and printed messages are left out. `time.time()` is a float in the source; the model uses integer seconds.
- The exception handler of `download_from_zlibrary` is left out, because exceptions come from the browser. It returns `(None, None)`, the same shape as `Pair(None, None)`. The per-selector `except: continue` of the direct-link scan (upload.py:294-295) is not modelled either: a selector whose query raises is taken as matching nothing.
- `glob` on the downloads directory is modelled as a case-sensitive suffix test on the names listed. Hidden files and directories are not distinguished.
- `DownloadStrategy.FormatOf` and `UploadPipeline.Extension`: `lower()` is modelled on ASCII letters only.
- `Words.IsWordChar` approximates `\w` by ASCII letters, digits and `_`, the Latin-1 and Latin Extended-A/B letters and numerals, and the CJK ideographs. Other scripts' letters are not word characters here.
- The command-line entry points (`main` of upload.py, the `__main__` block of convert_epub.py) are not part of this model; neither are `main.py` and the `book_parser.py` files, which only orchestrate I/O.
- `UploadPipeline.TitleShape` states "ends in ..." only for titles longer than 50. A shorter cleaned title that already ends in "..." is kept as it is, so the converse does not hold.
- `UploadPipeline.GroupsRemoved` speaks of groups closed on their own line: `.` in `\[.*?\]` does not match a newline, so a group spanning a line break stays.
