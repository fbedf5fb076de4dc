/** The decisions of scripts/upload.py between download and upload: what
    `convert_to_txt` hands on for a downloaded file, and the notebook title
    `upload_to_notebooklm` derives from a file name. Running the converter
    and the `notebooklm` command is not modelled: the conversion arrives as
    its outcome. */
module UploadPipeline {
  import opened Strings
  import opened Words
  import opened PartFiles
  import UploadSplit
  import EpubAssembly
  import opened DownloadStrategy

  /** A file path: its directory and its final component. */
  datatype Path = Path(dir: string, name: string)

  /** `str.rfind(c)`: the last index of `c`, or -1. */
  function RFind(s: string, c: char): (i: int)
    ensures -1 <= i < |s|
    ensures i >= 0 ==> s[i] == c
    ensures forall k :: i < k < |s| ==> s[k] != c
  {
    if s == [] then -1
    else if s[|s| - 1] == c then |s| - 1
    else RFind(s[..|s| - 1], c)
  }

  /** pathlib's `suffix`: from the last dot on, unless that dot starts the
      name or ends it. */
  function Suffix(name: string): string
  {
    var i := RFind(name, '.');
    if 0 < i < |name| - 1 then name[i..] else ""
  }

  /** pathlib's `stem`: the name without its suffix. */
  function Stem(name: string): string
  {
    var i := RFind(name, '.');
    if 0 < i < |name| - 1 then name[..i] else name
  }

  /** The stem and the suffix split the name; a suffix is a dot followed by
      at least one character and no further dot, and it leaves a non-empty
      stem. */
  lemma StemSuffix(name: string)
    ensures Stem(name) + Suffix(name) == name
    ensures Suffix(name) != "" ==>
      && |Suffix(name)| >= 2 && Suffix(name)[0] == '.'
      && (forall k :: 1 <= k < |Suffix(name)| ==> Suffix(name)[k] != '.')
      && Stem(name) != ""
  {
  }

  /** Characters other than `c` appended at the end do not move its last
      occurrence. */
  lemma {:induction false} RFindPast(a: string, t: string, c: char)
    requires forall k :: 0 <= k < |t| ==> t[k] != c
    ensures RFind(a + t, c) == RFind(a, c)
    decreases |t|
  {
    if t != [] {
      var t' := t[..|t| - 1];
      assert forall k :: 0 <= k < |t'| ==> t'[k] != c;
      assert (a + t)[..|a + t| - 1] == a + t';
      assert (a + t)[|a + t| - 1] == t[|t| - 1];
      RFindPast(a, t', c);
    } else {
      assert a + t == a;
    }
  }

  /** A name made of a non-empty stem, a dot and an extension without dots
      splits back into the two. */
  lemma StemOfDotted(stem: string, ext: string)
    requires stem != "" && ext != ""
    requires forall k :: 0 <= k < |ext| ==> ext[k] != '.'
    ensures Stem(stem + "." + ext) == stem
    ensures Suffix(stem + "." + ext) == "." + ext
  {
    var name := stem + "." + ext;
    RFindPast(stem + ".", ext, '.');
    assert RFind(stem + ".", '.') == |stem|;
    assert name[..|stem|] == stem;
    assert name[|stem|..] == "." + ext;
  }

  // -----------------------------------------------------------------------
  // `convert_to_txt`

  /** `self.temp_dir`. */
  const TempDir := "/tmp"
  /** The word limit of one upload. */
  const MaxUploadWords := 350000

  /** What `convert_to_txt` returns: the input file itself, the Markdown file
      the conversion wrote, or the part files it was split into. */
  datatype Prepared = Original(path: Path) | MarkdownFile(path: Path, text: string) | Parts(files: seq<PartFile>)

  /** The extension test, `file_path.suffix.lower()`. */
  function Extension(file: Path): string
  {
    LowerAscii(Suffix(file.name))
  }

  predicate TakenAsPdf(file: Path, format: Option<Format>)
  {
    Extension(file) == ".pdf" || format == Some(Pdf)
  }

  /** Where the conversion writes: `/tmp/<stem>.md`. */
  function MarkdownPath(file: Path): Path
  {
    Path(TempDir, Stem(file.name) + ".md")
  }

  /** What the converter hands back: the Markdown it wrote when it exits with
      status 0, nothing when it fails. */
  function ConversionOf(outcome: EpubAssembly.Outcome): Option<string>
  {
    if outcome.Converted? then Some(outcome.markdown) else None
  }

  /** A split always yields at least one part. */
  lemma SomeChunk(text: string)
    ensures UploadSplit.Chunks(text, MaxUploadWords) != []
  {
    UploadSplit.ChunksShape(text, MaxUploadWords);
  }

  /** `split_markdown_file` on `/tmp/<stem>.md`: the parts are written next
      to it, named after the same stem. */
  method SplitUpload(file: Path, text: string) returns (files: seq<PartFile>)
    requires Suffix(file.name) != ""
    ensures var chunks := UploadSplit.Chunks(text, MaxUploadWords);
      && files != [] && |files| == |chunks|
      && forall k :: 0 <= k < |chunks| ==> files[k] == PartFile(TempDir, PartName(Stem(file.name), k + 1), chunks[k])
  {
    var mdFile := MarkdownPath(file);
    StemSuffix(file.name);
    StemOfDotted(Stem(file.name), "md");
    assert mdFile.name == Stem(file.name) + "." + "md";
    SomeChunk(text);
    files := UploadSplit.SplitMarkdownFile(mdFile.dir, Stem(mdFile.name), text, MaxUploadWords);
  }

  /** `convert_to_txt(file_path, file_format)`, with `conversion` the result
      of running the EPUB converter on the file. */
  method ConvertToTxt(file: Path, format: Option<Format>, conversion: Option<string>) returns (r: Prepared)
    ensures TakenAsPdf(file, format) ==> r == Original(file)
    ensures !TakenAsPdf(file, format) && Extension(file) != ".epub" ==> r == Original(file)
    ensures !TakenAsPdf(file, format) && Extension(file) == ".epub" && conversion.None? ==> r == Original(file)
    ensures !TakenAsPdf(file, format) && Extension(file) == ".epub" && conversion.Some?
            && CountWords(conversion.value) <= MaxUploadWords ==>
              r == MarkdownFile(MarkdownPath(file), conversion.value)
    ensures !TakenAsPdf(file, format) && Extension(file) == ".epub" && conversion.Some?
            && CountWords(conversion.value) > MaxUploadWords ==>
              var chunks := UploadSplit.Chunks(conversion.value, MaxUploadWords);
              && r.Parts? && r.files != [] && |r.files| == |chunks|
              && forall k :: 0 <= k < |chunks| ==>
                   r.files[k] == PartFile(TempDir, PartName(Stem(file.name), k + 1), chunks[k])
  {
    var ext := LowerAscii(Suffix(file.name));
    if ext == ".pdf" || format == Some(Pdf) {
      return Original(file);
    }
    var mdFile := Path(TempDir, Stem(file.name) + ".md");
    if ext == ".epub" {
      if conversion.None? {
        return Original(file);
      }
      var text := conversion.value;
      var wordCount := CountWords(text);
      if wordCount > MaxUploadWords {
        var files := SplitUpload(file, text);
        return Parts(files);
      }
      return MarkdownFile(mdFile, text);
    }
    return Original(file);
  }

  /** `str(md_file)`: the text of the path `/tmp/<stem>.md`. */
  function MarkdownText(file: Path): string
  {
    TempDir + "/" + MarkdownPath(file).name
  }

  /** Where the converter writes: before writing, convert_epub.py replaces
      every `.txt` in the output path by `.md`. */
  function WrittenPath(file: Path): string
  {
    ReplaceAll(MarkdownText(file), ".txt", ".md")
  }

  /** The converter's shell command puts both paths between single quotes;
      a quote in the file's directory or name breaks that quoting. */
  predicate QuoteFree(file: Path)
  {
    !('\'' in file.dir) && !('\'' in file.name)
  }

  /** What `open(path, 'r')` reads back: text mode turns `"\r\n"` and a
      lone `'\r'` into `'\n'`. */
  function ReadText(s: string): (r: string)
    ensures '\r' !in r
    ensures |r| <= |s|
    decreases |s|
  {
    if s == [] then []
    else if s[0] == '\r' then
      "\n" + ReadText(if |s| > 1 && s[1] == '\n' then s[2..] else s[1..])
    else [s[0]] + ReadText(s[1..])
  }

  /** Text without a carriage return reads back exactly as written. */
  lemma {:induction false} ReadUnchanged(s: string)
    requires '\r' !in s
    ensures ReadText(s) == s
    decreases |s|
  {
    if s != [] {
      assert s[0] != '\r' && '\r' !in s[1..];
      ReadUnchanged(s[1..]);
      assert s == [s[0]] + s[1..];
    }
  }

  /** A non-word character in front adds no word. */
  lemma CountWordsNonWordHead(c: char, x: string)
    requires !IsWordChar(c)
    ensures CountWords([c] + x) == CountWords(x)
  {
    assert [c][1..] == [];
    assert !IsCjk(c) && !IsAsciiLetter(c);
    assert CjkCount([c]) == 0;
    assert !MatchAt([c], 0);
    assert FindAllLatin([c], 0) == FindAllLatin([c], 1) == 0;
    CountWordsAppend([c], x);
  }

  /** A non-word character after `p` separates the counts. */
  lemma CountWordsAtSeparator(p: string, c: char, x: string)
    requires !IsWordChar(c)
    ensures CountWords(p + ([c] + x)) == CountWords(p) + CountWords(x)
  {
    CountWordsAppend(p, [c] + x);
    CountWordsNonWordHead(c, x);
  }

  /** Reading in text mode counts the same words, whatever comes before:
      the line ends it rewrites are not word characters. */
  lemma {:induction false} ReadKeepsCountAfter(p: string, s: string)
    ensures CountWords(p + ReadText(s)) == CountWords(p + s)
    decreases |s|
  {
    if s == [] {
    } else if s[0] == '\r' {
      var rest := if |s| > 1 && s[1] == '\n' then s[2..] else s[1..];
      ReadKeepsCountAfter([], rest);
      assert [] + ReadText(rest) == ReadText(rest) && [] + rest == rest;
      LineEndRead(p, s, rest);
    } else {
      ReadKeepsCountAfter(p + [s[0]], s[1..]);
      OrdinaryRead(p, s);
    }
  }

  /** Away from a `'\r'`, reading copies the character. */
  lemma OrdinaryRead(p: string, s: string)
    requires s != [] && s[0] != '\r'
    ensures p + ReadText(s) == (p + [s[0]]) + ReadText(s[1..])
    ensures p + s == (p + [s[0]]) + s[1..]
  {
    var c, t := s[0], ReadText(s[1..]);
    assert ReadText(s) == [c] + t;
    assert p + ([c] + t) == (p + [c]) + t by {}
    assert p + s == (p + [c]) + s[1..] by { assert s == [c] + s[1..]; }
  }

  /** The step of `ReadKeepsCountAfter` at a `'\r'`. */
  lemma LineEndRead(p: string, s: string, rest: string)
    requires s != [] && s[0] == '\r'
    requires rest == if |s| > 1 && s[1] == '\n' then s[2..] else s[1..]
    requires CountWords(ReadText(rest)) == CountWords(rest)
    ensures CountWords(p + ReadText(s)) == CountWords(p + s)
  {
    var read := ReadText(rest);
    assert ReadText(s) == ['\n'] + read;
    CountWordsAtSeparator(p, '\n', read);
    assert s == ['\r'] + s[1..];
    CountWordsAtSeparator(p, '\r', s[1..]);
    if |s| > 1 && s[1] == '\n' {
      assert s[1..] == ['\n'] + rest;
      CountWordsNonWordHead('\n', rest);
    }
  }

  /** The word count of the text read back is that of the text written. */
  lemma ReadKeepsCount(s: string)
    ensures CountWords(ReadText(s)) == CountWords(s)
  {
    ReadKeepsCountAfter([], s);
    assert [] + ReadText(s) == ReadText(s) && [] + s == s;
  }

  /** `convert_to_txt` with the converter run on the file. `book` is what
      the converter reads at the path it is handed, `existing` what
      `/tmp/<stem>.md` held before the run (`None`: no such file). A path
      with a quote makes the command fail, so the file is kept as it is. A
      converter that writes elsewhere leaves `/tmp/<stem>.md` as it was:
      `convert_to_txt` reads the old text, or raises (`None`) when there is
      none. Otherwise the converter's document (header, then the kept
      chapters) is read back in text mode and becomes the Markdown file or,
      over 350000 words, its parts; reading back rewrites line ends but
      counts the same words as were written. */
  method ConvertBook(file: Path, format: Option<Format>, book: Option<EpubAssembly.Book>, existing: Option<string>)
    returns (r: Option<Prepared>)
    ensures TakenAsPdf(file, format) || Extension(file) != ".epub" ==> r == Some(Original(file))
    ensures !TakenAsPdf(file, format) && Extension(file) == ".epub" && (!QuoteFree(file) || book.None?) ==>
      r == Some(Original(file))
    ensures !TakenAsPdf(file, format) && Extension(file) == ".epub" && QuoteFree(file) && book.Some? ==>
      var b := book.value;
      var md := EpubAssembly.Header(b) + Terminated(EpubAssembly.Chapters(b.items), EpubAssembly.ChapterSeparator);
      var read := if WrittenPath(file) == MarkdownText(file) then Some(ReadText(md))
                  else if existing.Some? then Some(ReadText(existing.value)) else None;
      && (read.None? ==> r.None?)
      && (read.Some? && CountWords(read.value) <= MaxUploadWords ==> r == Some(MarkdownFile(MarkdownPath(file), read.value)))
      && (read.Some? && CountWords(read.value) > MaxUploadWords ==>
            var chunks := UploadSplit.Chunks(read.value, MaxUploadWords);
            && r.Some? && r.value.Parts? && |r.value.files| == |chunks|
            && forall k :: 0 <= k < |chunks| ==>
                 r.value.files[k] == PartFile(TempDir, PartName(Stem(file.name), k + 1), chunks[k]))
      && (WrittenPath(file) == MarkdownText(file) ==> r.Some? && (r.value.Parts? <==> CountWords(md) > MaxUploadWords))
  {
    var outcome := EpubAssembly.Failed;
    if QuoteFree(file) {
      outcome := EpubAssembly.EpubToMarkdown(book);
    }
    var conversion := ConversionOf(outcome);
    if conversion.Some? && WrittenPath(file) != MarkdownText(file) {
      if existing.None? && !TakenAsPdf(file, format) && Extension(file) == ".epub" {
        return None;
      }
      conversion := existing;
    }
    if conversion.Some? {
      ReadKeepsCount(conversion.value);
      conversion := Some(ReadText(conversion.value));
    }
    var prepared := ConvertToTxt(file, format, conversion);
    r := Some(prepared);
  }

  /** Replacing a pattern by something shorter never lengthens the text, and
      shortens it when the pattern occurs. */
  lemma {:induction false} ReplaceShrinks(s: string, pattern: string, replacement: string)
    requires pattern != "" && |replacement| < |pattern|
    ensures |ReplaceAll(s, pattern, replacement)| <= |s|
    ensures Contains(s, pattern) ==> |ReplaceAll(s, pattern, replacement)| < |s|
    decreases |s|
  {
    if s != [] {
      if StartsWith(s, pattern) {
        ReplaceShrinks(s[|pattern|..], pattern, replacement);
      } else {
        ReplaceShrinks(s[1..], pattern, replacement);
      }
    }
  }

  /** `.txt` occurs in `a + m + z` exactly when it occurs in `m`, when `a`
      has no dot and `z` no `t`. */
  lemma TxtInMiddle(a: string, m: string, z: string)
    requires forall k :: 0 <= k < |a| ==> a[k] != '.'
    requires forall k :: 0 <= k < |z| ==> z[k] != 't'
    ensures Contains(a + m + z, ".txt") <==> Contains(m, ".txt")
  {
    var w := a + m + z;
    ContainsAt(w, ".txt");
    ContainsAt(m, ".txt");
    if Contains(m, ".txt") {
      var i :| OccursAt(m, ".txt", i);
      assert w[|a| + i..|a| + i + 4] == m[i..i + 4];
      assert OccursAt(w, ".txt", |a| + i);
    }
    if Contains(w, ".txt") {
      var i :| OccursAt(w, ".txt", i);
      assert w[i..i + 4] == ".txt";
      assert w[i] == w[i..i + 4][0] == '.';
      assert w[i + 3] == w[i..i + 4][3] == 't';
      assert |a| <= i && i + 4 <= |a| + |m|;
      assert m[i - |a|..i - |a| + 4] == w[i..i + 4];
      assert OccursAt(m, ".txt", i - |a|);
    }
  }

  /** `.txt` occurs in `/tmp/<stem>.md` exactly when it occurs in the stem:
      neither `/tmp/` nor `.md` can hold part of it. */
  lemma TxtOnlyInStem(stem: string)
    ensures Contains(TempDir + "/" + stem + ".md", ".txt") <==> Contains(stem, ".txt")
  {
    TxtInMiddle(TempDir + "/", stem, ".md");
  }

  /** The converter writes to `/tmp/<stem>.md` exactly when the stem holds
      no `.txt`; `notes.txt.epub` is converted into `/tmp/notes.md.md`. */
  lemma WrittenInPlace(file: Path)
    ensures WrittenPath(file) == MarkdownText(file) <==> !Contains(Stem(file.name), ".txt")
  {
    var w := MarkdownText(file);
    assert w == TempDir + "/" + Stem(file.name) + ".md";
    TxtOnlyInStem(Stem(file.name));
    ReplaceShrinks(w, ".txt", ".md");
    if !Contains(w, ".txt") {
      ReplaceAbsent(w, ".txt", ".md");
    }
  }

  // -----------------------------------------------------------------------
  // The notebook title

  /** `s.replace(pattern, replacement)`: every occurrence, left to right, without
      overlap. */
  function ReplaceAll(s: string, pattern: string, replacement: string): string
    requires pattern != ""
    decreases |s|
  {
    if s == [] then []
    else if StartsWith(s, pattern) then replacement + ReplaceAll(s[|pattern|..], pattern, replacement)
    else [s[0]] + ReplaceAll(s[1..], pattern, replacement)
  }

  /** Replacing one character by another changes exactly those positions. */
  lemma {:induction false} ReplaceChar(s: string, c: char, d: char)
    ensures |ReplaceAll(s, [c], [d])| == |s|
    ensures forall k :: 0 <= k < |s| ==> ReplaceAll(s, [c], [d])[k] == if s[k] == c then d else s[k]
    decreases |s|
  {
    if s != [] {
      ReplaceChar(s[1..], c, d);
    }
  }

  /** Text without the searched string is left alone. */
  lemma {:induction false} ReplaceAbsent(s: string, pattern: string, replacement: string)
    requires pattern != "" && !Contains(s, pattern)
    ensures ReplaceAll(s, pattern, replacement) == s
    decreases |s|
  {
    if s != [] {
      ReplaceAbsent(s[1..], pattern, replacement);
    }
  }

  /** Appending `_part1` and removing every `_part1` gives what removing
      them from the stem alone gives: no occurrence can straddle the join,
      since `_` occurs in `_part1` only at its start. */
  lemma {:induction false} RemovePart1Suffix(x: string)
    ensures ReplaceAll(x + "_part1", "_part1", "") == ReplaceAll(x, "_part1", "")
    decreases |x|
  {
    var p := "_part1";
    if x == [] {
      assert StartsWith(p, p);
      assert p[6..] == [];
    } else if StartsWith(x, p) {
      assert (x + p)[..6] == x[..6];
      assert (x + p)[6..] == x[6..] + p;
      RemovePart1Suffix(x[6..]);
    } else {
      assert !StartsWith(x + p, p) by {
        if |x| >= 6 {
          assert (x + p)[..6] == x[..6];
        } else {
          assert (x + p)[..6][|x|] == '_' != p[|x|];
        }
      }
      assert (x + p)[1..] == x[1..] + p;
      RemovePart1Suffix(x[1..]);
    }
  }

  /** Where the first closing character stands in `t`, if it comes before
      any line break (the lazy `.*?` of `\[.*?\]` does not cross one). */
  function CloseIndex(t: string, close: char): (r: Option<nat>)
    ensures r.Some? ==> r.value < |t| && t[r.value] == close
    ensures r.Some? ==> forall k :: 0 <= k < r.value ==> t[k] != close && t[k] != '\n'
    decreases |t|
  {
    if t == [] then None
    else if t[0] == close then Some(0)
    else if t[0] == '\n' then None
    else match CloseIndex(t[1..], close)
      case Some(j) => Some(j + 1)
      case None => None
  }

  /** `re.sub(r'\[.*?\]', '', s)` for `open`, `close` = `[`, `]`, and the
      same with `(`, `)`: each opening character that is closed on its line
      is removed together with everything up to its closing character. */
  function RemoveGroups(s: string, open: char, close: char): (r: string)
    ensures forall c :: c in r ==> c in s
    decreases |s|
  {
    if s == [] then []
    else if s[0] == open && CloseIndex(s[1..], close).Some? then
      var rest := s[CloseIndex(s[1..], close).value + 2..];
      assert forall c :: c in rest ==> c in s;
      RemoveGroups(rest, open, close)
    else
      assert forall c :: c in s[1..] ==> c in s;
      [s[0]] + RemoveGroups(s[1..], open, close)
  }

  /** No opening character is closed later on its line. */
  predicate NoGroup(r: string, open: char, close: char)
  {
    forall i :: 0 <= i < |r| && r[i] == open ==> CloseIndex(r[i + 1..], close).None?
  }

  /** Removing groups from text that is not closed on its first line keeps
      it unclosed there. */
  lemma {:induction false} UnclosedKept(t: string, open: char, close: char)
    requires open != close && open != '\n' && close != '\n'
    requires CloseIndex(t, close).None?
    ensures CloseIndex(RemoveGroups(t, open, close), close).None?
    decreases |t|
  {
    if t != [] && t[0] != '\n' {
      var r' := RemoveGroups(t[1..], open, close);
      if t[0] == open {
        assert CloseIndex(t[1..], close).None?;
      }
      assert RemoveGroups(t, open, close) == [t[0]] + r';
      UnclosedKept(t[1..], open, close);
      assert ([t[0]] + r')[1..] == r';
    }
  }

  /** After the substitution no group is left. */
  lemma {:induction false} GroupsRemoved(s: string, open: char, close: char)
    requires open != close && open != '\n' && close != '\n'
    ensures NoGroup(RemoveGroups(s, open, close), open, close)
    decreases |s|
  {
    if s != [] {
      if s[0] == open && CloseIndex(s[1..], close).Some? {
        GroupsRemoved(s[CloseIndex(s[1..], close).value + 2..], open, close);
      } else {
        var r' := RemoveGroups(s[1..], open, close);
        var r := [s[0]] + r';
        GroupsRemoved(s[1..], open, close);
        forall i | 0 <= i < |r| && r[i] == open
          ensures CloseIndex(r[i + 1..], close).None?
        {
          if i == 0 {
            assert r[1..] == r';
            UnclosedKept(s[1..], open, close);
          } else {
            assert r[i + 1..] == r'[i..];
            assert r'[i - 1] == open;
          }
        }
      }
    }
  }

  /** Text without an opening character is left alone. */
  lemma {:induction false} GroupFreeKept(s: string, open: char, close: char)
    requires open !in s
    ensures RemoveGroups(s, open, close) == s
    decreases |s|
  {
    if s != [] {
      GroupFreeKept(s[1..], open, close);
    }
  }

  /** The closing character after a stretch without it or a line break is
      the one found. */
  lemma {:induction false} CloseIndexAfter(g: string, close: char, b: string)
    requires close !in g && '\n' !in g
    ensures CloseIndex(g + [close] + b, close) == Some(|g|)
    decreases |g|
  {
    if g != [] {
      assert (g + [close] + b)[1..] == g[1..] + [close] + b;
      CloseIndexAfter(g[1..], close, b);
    }
  }

  /** The first group closed on its line goes, with its brackets; what
      comes before it stays, and the rest is cleaned the same way. */
  lemma {:induction false} RemoveGroupAt(a: string, g: string, b: string, open: char, close: char)
    requires open !in a && close !in g && '\n' !in g
    ensures RemoveGroups(a + [open] + g + [close] + b, open, close) == a + RemoveGroups(b, open, close)
    decreases |a|
  {
    var s := a + [open] + g + [close] + b;
    if a == [] {
      assert s[1..] == g + [close] + b;
      CloseIndexAfter(g, close, b);
      assert s[|g| + 2..] == b;
    } else {
      assert s[1..] == a[1..] + [open] + g + [close] + b;
      RemoveGroupAt(a[1..], g, b, open, close);
    }
  }

  /** `re.sub(r'\s+', ' ', s)`: every run of whitespace becomes one space. */
  function CollapseWhitespace(s: string): (r: string)
    ensures forall c :: c in r ==> c in s || c == ' '
    ensures Collapsed(r)
    ensures r != [] && s != [] ==> (IsSpace(r[0]) <==> IsSpace(s[0]))
    decreases |s|
  {
    if s == [] then []
    else if IsSpace(s[0]) then
      var n := LeadingSpaces(s);
      var rest := s[n..];
      var tail := CollapseWhitespace(rest);
      assert forall c :: c in rest ==> c in s;
      assert rest != [] ==> !IsSpace(rest[0]);
      [' '] + tail
    else
      assert forall c :: c in s[1..] ==> c in s;
      [s[0]] + CollapseWhitespace(s[1..])
  }

  /** Collapsing whitespace keeps every other character, in order. */
  lemma {:induction false} CollapseKeepsVisible(s: string)
    ensures Visible(CollapseWhitespace(s)) == Visible(s)
    decreases |s|
  {
    if s != [] {
      if IsSpace(s[0]) {
        var n := LeadingSpaces(s);
        CollapseKeepsVisible(s[n..]);
        VisibleAppend([' '], CollapseWhitespace(s[n..]));
        assert IsBlank(s[..n]) by {
          forall k | 0 <= k < n ensures IsSpace(s[..n][k]) {
            assert s[..n][k] == s[k];
          }
        }
        VisibleBlank(s[..n]);
        assert s == s[..n] + s[n..];
        VisibleAppend(s[..n], s[n..]);
      } else {
        CollapseKeepsVisible(s[1..]);
        VisibleAppend([s[0]], CollapseWhitespace(s[1..]));
      }
    }
  }

  /** The only whitespace is single spaces. */
  predicate Collapsed(s: string)
  {
    forall k :: 0 <= k < |s| && IsSpace(s[k]) ==> s[k] == ' ' && (k + 1 < |s| ==> !IsSpace(s[k + 1]))
  }

  /** The longest title kept whole. */
  const MaxTitleLength := 50

  /** `title[:50] + "..."` for a title longer than 50 characters. */
  function Shorten(t: string): string
  {
    if |t| > MaxTitleLength then t[..MaxTitleLength] + "..." else t
  }

  /** The clean-up both branches share: groups removed, whitespace
      collapsed, ends stripped. */
  function CleanTitle(raw: string): string
  {
    Strip(CollapseWhitespace(RemoveGroups(RemoveGroups(raw, '[', ']'), '(', ')')))
  }

  /** The title of a single file, from its stem. */
  function SingleTitle(stem: string): string
  {
    Shorten(CleanTitle(ReplaceAll(stem, "_", " ")))
  }

  /** The title of a list of part files, from the first part's stem. */
  function ListTitle(stem: string): string
  {
    Shorten(CleanTitle(ReplaceAll(ReplaceAll(stem, "_part1", ""), "_", " ")))
  }

  /** The title `upload_to_notebooklm` uses: the given one unless it is
      missing or empty, else one derived from the (first) file's stem. */
  function NotebookTitle(given: Option<string>, upload: Prepared): string
    requires upload.Parts? ==> upload.files != []
  {
    if given.Some? && given.value != "" then given.value
    else match upload
      case Parts(files) => ListTitle(Stem(files[0].name))
      case Original(path) => SingleTitle(Stem(path.name))
      case MarkdownFile(path, _) => SingleTitle(Stem(path.name))
  }

  /** A substring of collapsed text is collapsed. */
  lemma CollapsedSlice(s: string, i: nat, j: nat)
    requires Collapsed(s) && i <= j <= |s|
    ensures Collapsed(s[i..j])
  {
    var t := s[i..j];
    forall k | 0 <= k < |t| && IsSpace(t[k])
      ensures t[k] == ' ' && (k + 1 < |t| ==> !IsSpace(t[k + 1]))
    {
      assert t[k] == s[i + k];
      if k + 1 < |t| {
        assert t[k + 1] == s[i + k + 1];
      }
    }
  }

  /** No opening character has a closing one anywhere after it. Without
      line breaks this is `NoGroup`, and unlike `NoGroup` every clean-up
      step keeps it. */
  predicate Unclosed(s: string, open: char, close: char)
  {
    forall i :: 0 <= i < |s| && s[i] == open ==> close !in s[i + 1..]
  }

  lemma UnclosedCons(c: char, t: string, open: char, close: char)
    ensures Unclosed([c] + t, open, close) <==> (c == open ==> close !in t) && Unclosed(t, open, close)
  {
    var s := [c] + t;
    assert s[1..] == t;
    if (c == open ==> close !in t) && Unclosed(t, open, close) {
      forall i | 0 <= i < |s| && s[i] == open ensures close !in s[i + 1..] {
        if i > 0 {
          assert s[i + 1..] == t[i..];
          assert t[i - 1] == open;
        }
      }
    }
    if Unclosed(s, open, close) {
      assert s[0] == c;
      forall i | 0 <= i < |t| && t[i] == open ensures close !in t[i + 1..] {
        assert s[i + 1] == t[i] == open;
        assert s[i + 2..] == t[i + 1..];
      }
    }
  }

  lemma UnclosedSlice(s: string, i: nat, j: nat, open: char, close: char)
    requires Unclosed(s, open, close) && i <= j <= |s|
    ensures Unclosed(s[i..j], open, close)
  {
    var t := s[i..j];
    forall k | 0 <= k < |t| && t[k] == open ensures close !in t[k + 1..] {
      assert t[k] == s[i + k];
      assert t[k + 1..] == s[i + k + 1..j];
    }
  }

  /** Text without a line break that `NoGroup` holds of is unclosed. */
  lemma {:induction false} CloseIndexNone(t: string, close: char)
    requires '\n' !in t && CloseIndex(t, close).None?
    ensures close !in t
    decreases |t|
  {
    if t != [] {
      CloseIndexNone(t[1..], close);
    }
  }

  lemma NoGroupUnclosed(s: string, open: char, close: char)
    requires '\n' !in s
    ensures NoGroup(s, open, close) <==> Unclosed(s, open, close)
  {
    forall i | 0 <= i < |s| && s[i] == open
      ensures CloseIndex(s[i + 1..], close).None? <==> close !in s[i + 1..]
    {
      assert forall c :: c in s[i + 1..] ==> c in s;
      if CloseIndex(s[i + 1..], close).None? {
        CloseIndexNone(s[i + 1..], close);
      }
    }
  }

  /** Removing groups of any kind keeps text unclosed. */
  lemma {:induction false} UnclosedRemoveGroups(s: string, o: char, c: char, open: char, close: char)
    requires Unclosed(s, open, close)
    ensures Unclosed(RemoveGroups(s, o, c), open, close)
    decreases |s|
  {
    if s != [] {
      UnclosedCons(s[0], s[1..], open, close);
      assert [s[0]] + s[1..] == s;
      if s[0] == o && CloseIndex(s[1..], c).Some? {
        var k := CloseIndex(s[1..], c).value + 2;
        UnclosedSlice(s, k, |s|, open, close);
        UnclosedRemoveGroups(s[k..], o, c, open, close);
      } else {
        UnclosedRemoveGroups(s[1..], o, c, open, close);
        UnclosedCons(s[0], RemoveGroups(s[1..], o, c), open, close);
      }
    }
  }

  /** Collapsing whitespace keeps text unclosed. */
  lemma {:induction false} UnclosedCollapse(s: string, open: char, close: char)
    requires Unclosed(s, open, close) && open != ' ' && close != ' '
    ensures Unclosed(CollapseWhitespace(s), open, close)
    decreases |s|
  {
    if s != [] {
      UnclosedCons(s[0], s[1..], open, close);
      assert [s[0]] + s[1..] == s;
      if IsSpace(s[0]) {
        var n := LeadingSpaces(s);
        UnclosedSlice(s, n, |s|, open, close);
        UnclosedCollapse(s[n..], open, close);
        UnclosedCons(' ', CollapseWhitespace(s[n..]), open, close);
      } else {
        UnclosedCollapse(s[1..], open, close);
        UnclosedCons(s[0], CollapseWhitespace(s[1..]), open, close);
      }
    }
  }

  /** Appending text with neither character keeps text unclosed. */
  lemma UnclosedAppend(x: string, y: string, open: char, close: char)
    requires Unclosed(x, open, close) && open !in y && close !in y
    ensures Unclosed(x + y, open, close)
  {
    var s := x + y;
    forall i | 0 <= i < |s| && s[i] == open ensures close !in s[i + 1..] {
      assert i < |x|;
      assert s[i + 1..] == x[i + 1..] + y;
    }
  }

  /** Every step after the first substitution keeps text unclosed, so the
      title ends without a group of the kind the raw text had none of. */
  lemma UnclosedTitle(g2: string, open: char, close: char)
    requires Unclosed(g2, open, close)
    requires open !in " ." && close !in " ."
    ensures Unclosed(Shorten(Strip(CollapseWhitespace(g2))), open, close)
  {
    var c := CollapseWhitespace(g2);
    UnclosedCollapse(g2, open, close);
    var clean := Strip(c);
    UnclosedSlice(c, LeadingSpaces(c), LeadingSpaces(c) + |clean|, open, close);
    if |clean| > MaxTitleLength {
      UnclosedSlice(clean, 0, MaxTitleLength, open, close);
      UnclosedAppend(clean[..MaxTitleLength], "...", open, close);
    }
  }

  /** `replace` brings in no character but the replacement's. */
  lemma {:induction false} ReplaceChars(s: string, pattern: string, replacement: string)
    requires pattern != ""
    ensures forall c :: c in ReplaceAll(s, pattern, replacement) ==> c in s || c in replacement
    decreases |s|
  {
    if s != [] {
      if StartsWith(s, pattern) {
        ReplaceChars(s[|pattern|..], pattern, replacement);
        assert forall c :: c in s[|pattern|..] ==> c in s;
      } else {
        ReplaceChars(s[1..], pattern, replacement);
        assert forall c :: c in s[1..] ==> c in s;
      }
    }
  }

  /** A title derived from text without a line break holds no `[...]` and
      no `(...)` group. */
  lemma TitleNoGroups(raw: string)
    requires '\n' !in raw
    ensures NoGroup(Shorten(CleanTitle(raw)), '[', ']') && NoGroup(Shorten(CleanTitle(raw)), '(', ')')
  {
    var g1 := RemoveGroups(raw, '[', ']');
    var g2 := RemoveGroups(g1, '(', ')');
    var t := Shorten(CleanTitle(raw));
    assert '\n' !in g1 && '\n' !in g2;
    GroupsRemoved(raw, '[', ']');
    NoGroupUnclosed(g1, '[', ']');
    UnclosedRemoveGroups(g1, '(', ')', '[', ']');
    UnclosedTitle(g2, '[', ']');
    GroupsRemoved(g1, '(', ')');
    NoGroupUnclosed(g2, '(', ')');
    UnclosedTitle(g2, '(', ')');
    CleanTitleNoNewline(raw);
    NoGroupUnclosed(t, '[', ']');
    NoGroupUnclosed(t, '(', ')');
  }

  /** No step of the clean-up brings in a line break. */
  lemma CleanTitleNoNewline(raw: string)
    requires '\n' !in raw
    ensures '\n' !in Shorten(CleanTitle(raw))
  {
    var c := CollapseWhitespace(RemoveGroups(RemoveGroups(raw, '[', ']'), '(', ')'));
    var clean := Strip(c);
    assert forall k :: 0 <= k < |clean| ==> clean[k] == c[LeadingSpaces(c) + k];
    if |clean| > MaxTitleLength {
      assert forall ch :: ch in Shorten(clean) ==> ch in clean || ch == '.';
    }
  }

  /** No underscore, whitespace only as single spaces, none at the ends. */
  predicate TidyTitle(t: string)
  {
    && '_' !in t
    && Collapsed(t)
    && (t != "" ==> !IsSpace(t[0]) && !IsSpace(t[|t| - 1]))
  }

  /** The clean-up leaves a tidy title when the underscores are gone. */
  lemma CleanTitleTidy(raw: string)
    requires '_' !in raw
    ensures TidyTitle(CleanTitle(raw))
  {
    var g1 := RemoveGroups(raw, '[', ']');
    var g2 := RemoveGroups(g1, '(', ')');
    var c := CollapseWhitespace(g2);
    assert '_' !in c by {
      assert '_' !in g1;
      assert '_' !in g2;
    }
    StripTidy(c);
  }

  /** Stripping collapsed text without underscores leaves a tidy title. */
  lemma StripTidy(c: string)
    requires '_' !in c && Collapsed(c)
    ensures TidyTitle(Strip(c))
  {
    var clean := Strip(c);
    var a := LeadingSpaces(c);
    assert clean == c[a..a + |clean|];
    CollapsedSlice(c, a, a + |clean|);
    forall k | 0 <= k < |clean| ensures clean[k] != '_' {
      assert clean[k] == c[a + k];
    }
  }

  /** Shortening keeps a title tidy, and never makes it longer than 53. */
  lemma ShortenTidy(t: string)
    requires TidyTitle(t)
    ensures TidyTitle(Shorten(t))
    ensures |Shorten(t)| <= MaxTitleLength + 3
  {
    if |t| > MaxTitleLength {
      var h := t[..MaxTitleLength];
      var u := h + "...";
      CollapsedSlice(t, 0, MaxTitleLength);
      forall k | 0 <= k < |u| && IsSpace(u[k])
        ensures u[k] == ' ' && (k + 1 < |u| ==> !IsSpace(u[k + 1]))
      {
        if k < MaxTitleLength {
          assert u[k] == h[k];
          if k + 1 < MaxTitleLength {
            assert u[k + 1] == h[k + 1];
          }
        }
      }
      assert forall ch :: ch in u ==> ch in t || ch == '.';
      assert u[0] == t[0];
    }
  }

  /** A derived title has no underscore, single spaces as its only
      whitespace, no whitespace at its ends and at most 53 characters; a
      cleaned title over 50 characters is cut to its first 50 followed by
      `...`, and a shorter one is kept whole. The cleaned title keeps every
      non-whitespace character outside the groups, in order (all of them
      when there is no group), and, for text without line breaks, no group
      of either kind is left. */
  lemma TitleShape(raw: string)
    requires '_' !in raw
    ensures var clean := CleanTitle(raw);
      var t := Shorten(clean);
      && TidyTitle(t)
      && |t| <= MaxTitleLength + 3
      && (|clean| > MaxTitleLength ==> |t| == MaxTitleLength + 3 && StartsWith(t, clean[..MaxTitleLength]) && EndsWith(t, "..."))
      && (|clean| <= MaxTitleLength ==> t == clean)
      && Visible(clean) == Visible(RemoveGroups(RemoveGroups(raw, '[', ']'), '(', ')'))
      && ('[' !in raw && '(' !in raw ==> Visible(clean) == Visible(raw))
      && ('\n' !in raw ==> NoGroup(t, '[', ']') && NoGroup(t, '(', ')'))
  {
    CleanTitleTidy(raw);
    ShortenTidy(CleanTitle(raw));
    CleanTitleKeeps(raw);
    if '\n' !in raw {
      TitleNoGroups(raw);
    }
  }

  /** What the clean-up keeps: every non-whitespace character outside the
      groups, in order; all of them when there is no group. */
  lemma CleanTitleKeeps(raw: string)
    ensures Visible(CleanTitle(raw)) == Visible(RemoveGroups(RemoveGroups(raw, '[', ']'), '(', ')'))
    ensures '[' !in raw && '(' !in raw ==> Visible(CleanTitle(raw)) == Visible(raw)
  {
    var g1 := RemoveGroups(raw, '[', ']');
    var g2 := RemoveGroups(g1, '(', ')');
    CollapseKeepsVisible(g2);
    VisibleStrip(CollapseWhitespace(g2));
    if '[' !in raw && '(' !in raw {
      GroupFreeKept(raw, '[', ']');
      GroupFreeKept(g1, '(', ')');
    }
  }

  /** The underscore replacement leaves no underscore. */
  lemma NoUnderscoreLeft(s: string)
    ensures '_' !in ReplaceAll(s, "_", " ")
  {
    ReplaceChar(s, '_', ' ');
  }

  /** Both derived titles satisfy `TitleShape`. */
  lemma DerivedTitleShape(stem: string)
    ensures TidyTitle(SingleTitle(stem)) && TidyTitle(ListTitle(stem))
    ensures |SingleTitle(stem)| <= MaxTitleLength + 3 && |ListTitle(stem)| <= MaxTitleLength + 3
    ensures '\n' !in stem ==>
      && NoGroup(SingleTitle(stem), '[', ']') && NoGroup(SingleTitle(stem), '(', ')')
      && NoGroup(ListTitle(stem), '[', ']') && NoGroup(ListTitle(stem), '(', ')')
  {
    var single := ReplaceAll(stem, "_", " ");
    var stripped := ReplaceAll(stem, "_part1", "");
    var list := ReplaceAll(stripped, "_", " ");
    NoUnderscoreLeft(stem);
    TitleShape(single);
    NoUnderscoreLeft(stripped);
    TitleShape(list);
    if '\n' !in stem {
      ReplaceChars(stem, "_", " ");
      ReplaceChars(stem, "_part1", "");
      ReplaceChars(stripped, "_", " ");
      TitleNoGroups(single);
      TitleNoGroups(list);
    }
  }

  /** The list title of a first part is the single title of the stem it
      was split from, when that stem does not itself hold `_part1`. */
  lemma FirstPartTitle(x: string)
    requires !Contains(x, "_part1")
    ensures ListTitle(x + "_part1") == SingleTitle(x)
  {
    RemovePart1Suffix(x);
    ReplaceAbsent(x, "_part1", "");
  }

  /** The stem of the first part file is the stem split from, with
      `_part1` appended. */
  lemma FirstPartStem(x: string)
    requires x != ""
    ensures Stem(PartName(x, 1)) == x + "_part1"
  {
    assert NatToString(1) == "1";
    assert PartName(x, 1) == (x + "_part1") + "." + "md";
    StemOfDotted(x + "_part1", "md");
  }

  /** The Markdown file keeps the stem of the file it was converted from. */
  lemma MarkdownPathStem(file: Path)
    requires Stem(file.name) != ""
    ensures Stem(MarkdownPath(file).name) == Stem(file.name)
  {
    var x := Stem(file.name);
    assert MarkdownPath(file).name == x + "." + "md";
    StemOfDotted(x, "md");
  }

  /** A book split into parts gets the title it would have had as one
      Markdown file: the first part's `_part1` is removed again (unless the
      stem already held `_part1`). */
  lemma SplitKeepsTitle(file: Path, text: string, files: seq<PartFile>)
    requires Stem(file.name) != "" && !Contains(Stem(file.name), "_part1")
    requires files != [] && files[0].name == PartName(Stem(file.name), 1)
    ensures NotebookTitle(None, Parts(files)) == NotebookTitle(None, MarkdownFile(MarkdownPath(file), text))
  {
    var x := Stem(file.name);
    FirstPartStem(x);
    MarkdownPathStem(file);
    FirstPartTitle(x);
    assert NotebookTitle(None, Parts(files)) == ListTitle(x + "_part1");
    assert NotebookTitle(None, MarkdownFile(MarkdownPath(file), text)) == SingleTitle(x);
  }
}
