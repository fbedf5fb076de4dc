/** The decisions inside `download_from_zlibrary` (scripts/upload.py), taken
    out of the browser session: which link to click and which format to
    expect, read from a snapshot of what the page's selectors match; and,
    after the click, where the downloaded file is looked for. */
module DownloadStrategy {
  import opened Strings

  datatype Format = Pdf | Epub

  /** An element a selector matched: an identity, and its `href` attribute
      (`None` when it has none). */
  datatype Link = Link(id: nat, href: Option<string>)

  /** What the page shows, as the selectors of `download_from_zlibrary` see
      it. The converted-link lists are read after the conversion wait. */
  datatype Page = Page(
    dots: bool,                  // the three-dots menu button
    pdfOptions: seq<Link>,       // `a:has-text("PDF"), button:has-text("PDF")`
    epubOptions: seq<Link>,      // `a:has-text("EPUB"), button:has-text("EPUB")`
    pdfConvert: bool,            // `a[data-convert_to="pdf"]`
    epubConvert: bool,           // `a[data-convert_to="epub"]`
    convertedPdf: seq<Link>,     // `a[href*="/dl/"][href*="convertedTo=pdf"]`
    convertedEpub: seq<Link>,    // `a[href*="/dl/"][href*="convertedTo=epub"]`
    dlLinks: seq<Link>,          // `a[href*="/dl/"]`
    cnTextLinks: seq<Link>,      // `a:has-text("下载")`
    enTextLinks: seq<Link>,      // `a:has-text("Download")`
    cnButtons: seq<Link>         // `button:has-text("下载")`
  )

  /** The link to click and the format expected. */
  datatype Choice = Choice(link: Option<Link>, format: Option<Format>)

  /** `query_selector`: the first match, if any. */
  function First(links: seq<Link>): Option<Link>
  {
    if links == [] then None else Some(links[0])
  }

  /** The choice made before the direct scan: the new interface's menu
      options, or the old interface's convert buttons. */
  function Primary(p: Page): Choice
  {
    if p.dots then
      if p.pdfOptions != [] then Choice(Some(p.pdfOptions[0]), Some(Pdf))
      else if p.epubOptions != [] then Choice(Some(p.epubOptions[0]), Some(Epub))
      else Choice(None, None)
    else if p.pdfConvert then
      Choice(if p.convertedPdf != [] then First(p.convertedPdf) else First(p.dlLinks), Some(Pdf))
    else if p.epubConvert then
      Choice(if p.convertedEpub != [] then First(p.convertedEpub) else First(p.dlLinks), Some(Epub))
    else Choice(None, None)
  }

  /** The selector lists of the direct scan, in order. */
  function ScanLists(p: Page): seq<seq<Link>>
  {
    [p.dlLinks, p.cnTextLinks, p.enTextLinks, p.cnButtons]
  }

  /** `href and '/dl/' in href`. */
  predicate IsDirect(l: Link)
  {
    l.href.Some? && l.href.value != "" && Contains(l.href.value, "/dl/")
  }

  /** The format read off a direct link; when neither name occurs, the
      format chosen before is kept. */
  function FormatOf(href: string, previous: Option<Format>): Option<Format>
  {
    if Contains(LowerAscii(href), "pdf") then Some(Pdf)
    else if Contains(LowerAscii(href), "epub") then Some(Epub)
    else previous
  }

  /** The scan, from list `s` and position `j` in it: the first direct link. */
  function ScanFrom(lists: seq<seq<Link>>, s: nat, j: nat): (r: Option<Link>)
    requires s <= |lists| && (s < |lists| ==> j <= |lists[s]|)
    ensures r.Some? ==> IsDirect(r.value)
    decreases |lists| - s, if s < |lists| then |lists[s]| - j else 0
  {
    if s == |lists| then None
    else if j == |lists[s]| then ScanFrom(lists, s + 1, 0)
    else if IsDirect(lists[s][j]) then Some(lists[s][j])
    else ScanFrom(lists, s, j + 1)
  }

  /** The whole selection: the direct scan runs only when nothing was found
      before it. */
  function Select(p: Page): Choice
  {
    var c := Primary(p);
    if c.link.Some? then c
    else match ScanFrom(ScanLists(p), 0, 0)
      case Some(l) => Choice(Some(l), FormatOf(l.href.value, c.format))
      case None => c
  }

  /** Step 1 of `download_from_zlibrary`, with `download_link` and
      `downloaded_format` reassigned across the branches and the scan. */
  method SelectDownload(p: Page) returns (link: Option<Link>, format: Option<Format>)
    ensures Choice(link, format) == Select(p)
  {
    link := None;
    format := None;
    if p.dots {
      if p.pdfOptions != [] {
        link := Some(p.pdfOptions[0]);
        format := Some(Pdf);
      } else if p.epubOptions != [] {
        link := Some(p.epubOptions[0]);
        format := Some(Epub);
      }
    } else if p.pdfConvert {
      format := Some(Pdf);
      link := First(p.convertedPdf);
      if link.None? {
        if p.dlLinks != [] {
          link := Some(p.dlLinks[0]);
        }
      }
    } else if p.epubConvert {
      format := Some(Epub);
      link := First(p.convertedEpub);
      if link.None? {
        if p.dlLinks != [] {
          link := Some(p.dlLinks[0]);
        }
      }
    }
    assert Choice(link, format) == Primary(p);
    if link.None? {
      var selectors := ScanLists(p);
      ghost var before := format;
      var s := 0;
      while s < |selectors|
        invariant s <= |selectors|
        invariant link.None? && format == before
        invariant ScanFrom(selectors, s, 0) == ScanFrom(selectors, 0, 0)
        decreases |selectors| - s
      {
        var links := selectors[s];
        var j := 0;
        while j < |links|
          invariant j <= |links|
          invariant link.None? && format == before
          invariant ScanFrom(selectors, s, j) == ScanFrom(selectors, 0, 0)
        {
          var href := links[j].href;
          if href.Some? && href.value != "" && Contains(href.value, "/dl/") {
            link := Some(links[j]);
            if Contains(LowerAscii(href.value), "pdf") {
              format := Some(Pdf);
            } else if Contains(LowerAscii(href.value), "epub") {
              format := Some(Epub);
            }
            break;
          }
          j := j + 1;
        }
        if link.Some? {
          break;
        }
        s := s + 1;
      }
      assert selectors == ScanLists(p);
    }
  }

  // -----------------------------------------------------------------------
  // What the selection guarantees.

  /** With the three-dots menu present, the old interface's convert buttons
      and converted links are never consulted, and a PDF option wins over an
      EPUB one. */
  lemma DotsIgnoresLegacy(p: Page, pdfConvert: bool, epubConvert: bool, convertedPdf: seq<Link>, convertedEpub: seq<Link>)
    requires p.dots
    ensures Select(p) == Select(p.(pdfConvert := pdfConvert, epubConvert := epubConvert,
                                   convertedPdf := convertedPdf, convertedEpub := convertedEpub))
    ensures p.pdfOptions != [] ==> Select(p) == Choice(Some(p.pdfOptions[0]), Some(Pdf))
    ensures p.pdfOptions == [] && p.epubOptions != [] ==> Select(p) == Choice(Some(p.epubOptions[0]), Some(Epub))
  {
  }

  /** On the old interface a PDF convert button wins over an EPUB one: the
      EPUB button and its converted links are then never consulted, and the
      expected format is PDF unless the direct scan picks a link whose
      address names EPUB. */
  lemma LegacyPrefersPdf(p: Page, epubConvert: bool, convertedEpub: seq<Link>)
    requires !p.dots && p.pdfConvert
    ensures Select(p) == Select(p.(epubConvert := epubConvert, convertedEpub := convertedEpub))
    ensures Select(p).format == Some(Pdf) || Select(p).format == Some(Epub)
    ensures p.convertedPdf != [] ==> Select(p) == Choice(Some(p.convertedPdf[0]), Some(Pdf))
    ensures p.convertedPdf == [] && p.dlLinks != [] ==> Select(p) == Choice(Some(p.dlLinks[0]), Some(Pdf))
  {
  }

  /** The scan finds nothing exactly when no scanned element has a direct
      address, and what it finds is a scanned element with one, with no
      direct element ahead of it. */
  lemma {:induction false} ScanSound(lists: seq<seq<Link>>, s: nat, j: nat)
    requires s <= |lists| && (s < |lists| ==> j <= |lists[s]|)
    ensures ScanFrom(lists, s, j).None? <==> NoDirectFrom(lists, s, j)
    ensures ScanFrom(lists, s, j).Some? ==>
      exists s', j' :: s <= s' < |lists| && 0 <= j' < |lists[s']| && (s' == s ==> j <= j')
        && lists[s'][j'] == ScanFrom(lists, s, j).value
        && IsDirect(lists[s'][j']) && NoDirectBetween(lists, s, j, s', j')
    decreases |lists| - s, if s < |lists| then |lists[s]| - j else 0
  {
    if s < |lists| {
      if j == |lists[s]| {
        ScanSound(lists, s + 1, 0);
        if ScanFrom(lists, s, j).Some? {
          var s', j' :| s + 1 <= s' < |lists| && 0 <= j' < |lists[s']|
            && lists[s'][j'] == ScanFrom(lists, s, j).value
            && IsDirect(lists[s'][j']) && NoDirectBetween(lists, s + 1, 0, s', j');
          assert NoDirectBetween(lists, s, j, s', j');
        }
      } else if IsDirect(lists[s][j]) {
        assert NoDirectBetween(lists, s, j, s, j);
      } else {
        ScanSound(lists, s, j + 1);
        if ScanFrom(lists, s, j).Some? {
          var s', j' :| s <= s' < |lists| && 0 <= j' < |lists[s']| && (s' == s ==> j + 1 <= j')
            && lists[s'][j'] == ScanFrom(lists, s, j).value
            && IsDirect(lists[s'][j']) && NoDirectBetween(lists, s, j + 1, s', j');
          assert NoDirectBetween(lists, s, j, s', j');
        }
      }
    }
  }

  /** No element from position (`s`, `j`) on has a direct address. */
  predicate NoDirectFrom(lists: seq<seq<Link>>, s: nat, j: nat)
  {
    forall a, b :: s <= a < |lists| && 0 <= b < |lists[a]| && (a == s ==> j <= b) ==> !IsDirect(lists[a][b])
  }

  /** No element from (`s`, `j`) up to, and not including, (`s2`, `j2`)
      has a direct address. */
  predicate NoDirectBetween(lists: seq<seq<Link>>, s: nat, j: nat, s2: nat, j2: nat)
  {
    forall a, b ::
      (s <= a <= s2 && a < |lists| && 0 <= b < |lists[a]| && (a == s ==> j <= b) && (a == s2 ==> b < j2))
      ==> !IsDirect(lists[a][b])
  }

  /** The selection finds no link exactly when the first step finds none and
      no scanned element has a direct address; a link found by the scan has
      one, and its format is PDF when its address names PDF, else EPUB when
      it names EPUB, else the format chosen before. */
  lemma SelectSound(p: Page)
    ensures Select(p).link.None? <==> Primary(p).link.None? && NoDirectFrom(ScanLists(p), 0, 0)
    ensures Primary(p).link.None? && Select(p).link.Some? ==>
      && IsDirect(Select(p).link.value)
      && Select(p).format == FormatOf(Select(p).link.value.href.value, Primary(p).format)
  {
    ScanSound(ScanLists(p), 0, 0);
    if Primary(p).link.None? && Select(p).link.Some? {
      var lists := ScanLists(p);
      var s', j' :| 0 <= s' < |lists| && 0 <= j' < |lists[s']|
        && lists[s'][j'] == ScanFrom(lists, 0, 0).value
        && IsDirect(lists[s'][j']) && NoDirectBetween(lists, 0, 0, s', j');
    }
  }

  /** A direct address naming both formats is taken as PDF. */
  lemma PdfBeforeEpub(href: string, previous: Option<Format>)
    requires Contains(LowerAscii(href), "pdf")
    ensures FormatOf(href, previous) == Some(Pdf)
  {
  }

  // -----------------------------------------------------------------------
  // After the click.

  /** A file in the downloads directory: its name and modification time, in
      whole seconds. */
  datatype FileEntry = FileEntry(name: string, mtime: int)

  /** How long a file found by the directory scan may be, in seconds. */
  const FreshWindow := 120

  /** `"*.pdf"` when the expected format is PDF, `"*.epub"` otherwise
      (including when no format is known). */
  function Pattern(format: Option<Format>): string
  {
    if format == Some(Pdf) then ".pdf" else ".epub"
  }

  /** `glob(pattern)` on the directory listing: the names ending with the
      pattern's suffix, in listing order. */
  function Glob(files: seq<FileEntry>, suffix: string): (r: seq<FileEntry>)
    ensures |r| <= |files|
    ensures forall k :: 0 <= k < |r| ==> r[k] in files && EndsWith(r[k].name, suffix)
    ensures forall f :: f in files && EndsWith(f.name, suffix) ==> f in r
  {
    if files == [] then []
    else
      var rest := Glob(files[1..], suffix);
      assert forall f :: f in files[1..] ==> f in files;
      if EndsWith(files[0].name, suffix) then [files[0]] + rest else rest
  }

  /** `max(files, key=mtime)`: the index of the first file with the largest
      modification time. */
  function Latest(files: seq<FileEntry>): (i: nat)
    requires files != []
    ensures i < |files|
    ensures forall k :: 0 <= k < |files| ==> files[k].mtime <= files[i].mtime
    ensures forall k :: 0 <= k < i ==> files[k].mtime < files[i].mtime
  {
    if |files| == 1 then 0
    else
      var k := Latest(files[..|files| - 1]);
      if files[|files| - 1].mtime > files[k].mtime then |files| - 1 else k
  }

  /** The directory fallback: the newest file of the expected kind, if it is
      younger than the window. */
  function DirectoryPick(files: seq<FileEntry>, format: Option<Format>, now: int): Option<FileEntry>
  {
    var found := Glob(files, Pattern(format));
    if found == [] then None
    else
      var latest := found[Latest(found)];
      if now - latest.mtime < FreshWindow then Some(latest) else None
  }

  /** The directory fallback returns a file of the expected kind that is
      the newest of its kind and younger than the window, and returns none
      exactly when there is no such file. */
  lemma DirectoryPickSound(files: seq<FileEntry>, format: Option<Format>, now: int)
    ensures var r := DirectoryPick(files, format, now);
      && (r.Some? ==>
            && r.value in files && EndsWith(r.value.name, Pattern(format))
            && now - r.value.mtime < FreshWindow
            && (forall f :: f in files && EndsWith(f.name, Pattern(format)) ==> f.mtime <= r.value.mtime))
      && (r.None? <==> forall f :: f in files && EndsWith(f.name, Pattern(format)) ==> now - f.mtime >= FreshWindow)
  {
    var found := Glob(files, Pattern(format));
    if found != [] {
      var latest := found[Latest(found)];
      forall f | f in files && EndsWith(f.name, Pattern(format)) ensures f.mtime <= latest.mtime {
        var k :| 0 <= k < |found| && found[k] == f;
      }
    }
  }

  /** What `download_from_zlibrary` returns: a bare `None` (no saved
      session, no link, or the click raised), or a pair of the file (if
      any) and the expected format. */
  datatype Returned = Bare | Pair(file: Option<string>, format: Option<Format>)

  /** The whole decision after the page was read: `saved` is the name under
      which the download event saved a file that now exists, `files` the
      downloads directory afterwards. */
  function Download(hasSession: bool, p: Page, clickRaised: bool, saved: Option<string>,
                    files: seq<FileEntry>, now: int): Returned
  {
    if !hasSession then Bare
    else
      var c := Select(p);
      if c.link.None? || clickRaised then Bare
      else if saved.Some? then Pair(saved, c.format)
      else match DirectoryPick(files, c.format, now)
        case Some(f) => Pair(Some(f.name), c.format)
        case None => Pair(None, None)
  }

  /** The caller unpacks a pair, and a bare `None` comes back exactly in the
      three early exits. A pair with a file carries the format chosen by
      the selection; a pair without one carries no format either. */
  lemma DownloadShape(hasSession: bool, p: Page, clickRaised: bool, saved: Option<string>,
                      files: seq<FileEntry>, now: int)
    ensures var r := Download(hasSession, p, clickRaised, saved, files, now);
      && (r == Bare <==> !hasSession || Select(p).link.None? || clickRaised)
      && (r.Pair? && r.file.Some? ==> r.format == Select(p).format)
      && (r.Pair? && r.file.None? ==>
            r.format.None? && saved.None? && DirectoryPick(files, Select(p).format, now).None?)
  {
  }
}
