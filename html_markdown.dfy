/** `html_to_markdown` of convert_epub.py: a parsed XHTML document is
    rendered to Markdown by a fixed rule per tag name, and the result is
    tidied (runs of four or more newlines become three, runs of spaces become
    one, and the ends are stripped). */
module HtmlMarkdown {
  import opened Strings

  /** A parsed document node: a run of text, or an element with its tag
      name, its `href` attribute (`""` when absent) and its children in
      document order. The parser gives each string a kind; `counted` is
      false for the kinds `get_text` leaves out: comments and other special
      strings, the strings of `script`, `style` and `template`, and ruby
      `rt`/`rp` text. */
  datatype Node = Text(s: string, counted: bool) | Element(name: string, href: string, children: seq<Node>)

  /** `element.get_text()`: the counted strings of the descendant text
      nodes, in document order. */
  function GetText(n: Node): string
    decreases n
  {
    match n
    case Text(s, counted) => if counted then s else ""
    case Element(_, _, cs) => GetTexts(cs)
  }

  function GetTexts(cs: seq<Node>): string
    decreases cs
  {
    if cs == [] then "" else GetText(cs[0]) + GetTexts(cs[1..])
  }

  /** Every string of the subtree, counted or not: `process_element` renders
      each text node, whatever its kind. */
  function AllText(n: Node): string
    decreases n
  {
    match n
    case Text(s, _) => s
    case Element(_, _, cs) => AllTexts(cs)
  }

  function AllTexts(cs: seq<Node>): string
    decreases cs
  {
    if cs == [] then "" else AllText(cs[0]) + AllTexts(cs[1..])
  }

  /** Every text node of the subtree is counted by `get_text`. */
  predicate AllCounted(n: Node)
    decreases n
  {
    match n
    case Text(_, counted) => counted
    case Element(_, _, cs) => forall k :: 0 <= k < |cs| ==> AllCounted(cs[k])
  }

  /** Elements whose whole subtree is dropped. */
  predicate Skipped(name: string)
  {
    name in ["script", "style", "nav", "footer", "svg"]
  }

  /** `h1` ... `h6`. */
  predicate IsHeading(name: string)
  {
    |name| == 2 && name[0] == 'h' && '1' <= name[1] <= '6'
  }

  /** The level `int(name[1])` of a heading. */
  function HeadingLevel(name: string): (level: nat)
    requires IsHeading(name)
    ensures 1 <= level <= 6
  {
    name[1] as int - '0' as int
  }

  function Hashes(n: nat): (r: string)
    ensures |r| == n && forall i :: 0 <= i < n ==> r[i] == '#'
  {
    if n == 0 then "" else "#" + Hashes(n - 1)
  }

  /** `f"{open}{text}{close}"` when the text is non-empty, `""` otherwise. */
  function Wrap(open: string, text: string, close: string): string
  {
    if text != "" then open + text + close else ""
  }

  /** What `process_element` does with an element, decided by the first
      test its tag name passes, in the order of the source. */
  datatype Tag = Dropped | Heading(level: nat) | Paragraph | Bold | Italic | Code
               | Anchor | Bulleted | Ordered | Break | Other

  function TagOf(name: string): Tag
  {
    if Skipped(name) then Dropped
    else if IsHeading(name) then Heading(HeadingLevel(name))
    else if name == "p" then Paragraph
    else if name == "b" || name == "strong" then Bold
    else if name == "i" || name == "em" then Italic
    else if name == "code" then Code
    else if name == "a" then Anchor
    else if name == "ul" then Bulleted
    else if name == "ol" then Ordered
    else if name == "br" then Break
    else Other
  }

  /** The tags with a rule of their own; every other element renders its
      children. */
  predicate HasRule(name: string)
  {
    TagOf(name) != Other
  }

  /** `process_element`: a text node is stripped, an element with a rule
      of its own follows it, any other element renders its children. */
  function Render(n: Node): string
    decreases n
  {
    match n
    case Text(s, _) => Strip(s)
    case Element(name, href, cs) => if HasRule(name) then Rule(TagOf(name), href, cs) else RenderAll(cs)
  }

  /** The per-tag rules. */
  function Rule(tag: Tag, href: string, cs: seq<Node>): string
  {
    var t := Strip(GetTexts(cs));
    match tag
    case Dropped => ""
    case Heading(level) => Wrap("\n\n" + Hashes(level) + " ", t, "\n\n")
    case Paragraph => Wrap("\n\n", t, "\n\n")
    case Bold => Wrap("**", t, "**")
    case Italic => Wrap("*", t, "*")
    case Code => Wrap("`", t, "`")
    case Anchor => if href != "" && t != "" then "[" + t + "](" + href + ")" else t
    case Bulleted => "\n\n" + Bullets(cs) + "\n"
    case Ordered => "\n\n" + Numbered(cs, 1) + "\n"
    case Break => "\n"
    case Other => ""
  }

  /** The default rule: the children rendered and concatenated. */
  function RenderAll(cs: seq<Node>): string
    decreases cs
  {
    if cs == [] then "" else Render(cs[0]) + RenderAll(cs[1..])
  }

  predicate IsItem(n: Node)
  {
    n.Element? && n.name == "li"
  }

  /** The `ul` loop over the direct `li` children: `"- text\n"` for each
      item with non-empty text. Other children are ignored. */
  function Bullets(cs: seq<Node>): string
  {
    if cs == [] then ""
    else if IsItem(cs[0]) then Wrap("- ", Strip(GetText(cs[0])), "\n") + Bullets(cs[1..])
    else Bullets(cs[1..])
  }

  /** The `ol` loop: `enumerate(items, 1)` numbers every direct `li` child,
      and an item with empty text is skipped but still uses its number. */
  function Numbered(cs: seq<Node>, i: nat): string
  {
    if cs == [] then ""
    else if IsItem(cs[0]) then Wrap(NatToString(i) + ". ", Strip(GetText(cs[0])), "\n") + Numbered(cs[1..], i + 1)
    else Numbered(cs[1..], i)
  }

  /** `soup.find('body')`: the first `body` element among the descendants,
      in document order. */
  function FindBody(cs: seq<Node>): (r: Option<Node>)
    decreases cs
  {
    if cs == [] then None
    else if cs[0].Element? && cs[0].name == "body" then Some(cs[0])
    else match FindBodyIn(cs[0]) {
      case Some(b) => Some(b)
      case None => FindBody(cs[1..])
    }
  }

  function FindBodyIn(n: Node): Option<Node>
    decreases n
  {
    match n
    case Text(_, _) => None
    case Element(_, _, cs) => FindBody(cs)
  }

  // -----------------------------------------------------------------------
  // Clean-up.

  /** Length of the run of `c` starting at `i`. */
  function RunOf(s: string, i: nat, c: char): (n: nat)
    requires i <= |s|
    ensures i + n <= |s|
    ensures forall k :: i <= k < i + n ==> s[k] == c
    ensures i + n < |s| ==> s[i + n] != c
    decreases |s| - i
  {
    if i == |s| || s[i] != c then 0 else 1 + RunOf(s, i + 1, c)
  }

  /** `re.sub(r'\n{4,}', '\n\n\n', s[i..])`. */
  function CollapseNewlinesFrom(s: string, i: nat): string
    requires i <= |s|
    decreases |s| - i
  {
    if i == |s| then ""
    else if s[i] == '\n' then
      var n := RunOf(s, i, '\n');
      (if n >= 4 then "\n\n\n" else s[i..i + n]) + CollapseNewlinesFrom(s, i + n)
    else [s[i]] + CollapseNewlinesFrom(s, i + 1)
  }

  /** `re.sub(r' +', ' ', s[i..])`. */
  function CollapseSpacesFrom(s: string, i: nat): string
    requires i <= |s|
    decreases |s| - i
  {
    if i == |s| then ""
    else if s[i] == ' ' then " " + CollapseSpacesFrom(s, i + RunOf(s, i, ' '))
    else [s[i]] + CollapseSpacesFrom(s, i + 1)
  }

  /** The three clean-up steps at the end of `html_to_markdown`. */
  function Cleanup(s: string): string
  {
    Strip(CollapseSpacesFrom(CollapseNewlinesFrom(s, 0), 0))
  }

  /** `html_to_markdown(soup)`: the `body` element if there is one, the
      whole document otherwise, rendered and tidied. */
  function HtmlToMarkdown(doc: Node): string
  {
    match FindBodyIn(doc)
    case Some(body) => Cleanup(Render(body))
    case None => Cleanup(Render(doc))
  }

  // -----------------------------------------------------------------------
  // Properties of the rendering.

  /** A subtree with only whitespace text renders to whitespace only
      (`br`, `ul` and `ol` still emit their newlines). */
  lemma {:induction false} BlankRendersBlank(n: Node)
    requires IsBlank(AllText(n))
    ensures IsBlank(Render(n))
    decreases n
  {
    match n
    case Text(s, _) =>
    case Element(name, href, cs) =>
      if HasRule(name) {
        CountedTextsBlank(cs);
        RuleOnBlank(TagOf(name), href, cs);
      } else {
        BlankChildrenRenderBlank(cs);
      }
  }

  /** With blank text, every rule writes at most newlines. */
  lemma RuleOnBlank(tag: Tag, href: string, cs: seq<Node>)
    requires IsBlank(GetTexts(cs))
    ensures IsBlank(Rule(tag, href, cs))
  {
    var t := Strip(GetTexts(cs));
    assert t == "";
    var r := Rule(tag, href, cs);
    match tag {
      case Bulleted =>
        BlankBullets(cs);
        ListOnBlank(Bullets(cs));
      case Ordered =>
        BlankNumbered(cs, 1);
        ListOnBlank(Numbered(cs, 1));
      case Break =>
        NewlinesBlank(r);
      case Anchor =>
        assert r == t;
      case Heading(level) =>
        assert r == Wrap("\n\n" + Hashes(level) + " ", t, "\n\n");
      case Paragraph =>
        assert r == Wrap("\n\n", t, "\n\n");
      case Bold =>
        assert r == Wrap("**", t, "**");
      case Italic =>
        assert r == Wrap("*", t, "*");
      case Code =>
        assert r == Wrap("`", t, "`");
      case Dropped =>
      case Other =>
    }
  }

  /** A list without items writes only newlines. */
  lemma ListOnBlank(items: string)
    requires items == ""
    ensures IsBlank("\n\n" + items + "\n")
  {
    NewlinesBlank("\n\n" + items + "\n");
  }

  lemma NewlinesBlank(s: string)
    requires forall i :: 0 <= i < |s| ==> s[i] == '\n'
    ensures IsBlank(s)
  {
  }

  lemma {:induction false} BlankChildrenRenderBlank(cs: seq<Node>)
    requires IsBlank(AllTexts(cs))
    ensures IsBlank(RenderAll(cs))
    decreases cs
  {
    if cs != [] {
      BlankSplit(AllText(cs[0]), AllTexts(cs[1..]));
      BlankRendersBlank(cs[0]);
      BlankChildrenRenderBlank(cs[1..]);
    }
  }

  /** When all the strings are blank, so are the counted ones. */
  lemma {:induction false} CountedTextBlank(n: Node)
    requires IsBlank(AllText(n))
    ensures IsBlank(GetText(n))
    decreases n
  {
    match n
    case Text(_, _) =>
    case Element(_, _, cs) =>
      CountedTextsBlank(cs);
  }

  lemma {:induction false} CountedTextsBlank(cs: seq<Node>)
    requires IsBlank(AllTexts(cs))
    ensures IsBlank(GetTexts(cs))
    decreases cs
  {
    if cs != [] {
      BlankSplit(AllText(cs[0]), AllTexts(cs[1..]));
      CountedTextBlank(cs[0]);
      CountedTextsBlank(cs[1..]);
    }
  }

  lemma BlankSplit(x: string, y: string)
    requires IsBlank(x + y)
    ensures IsBlank(x) && IsBlank(y)
  {
    forall i | 0 <= i < |x| ensures IsSpace(x[i]) {
      assert x[i] == (x + y)[i];
    }
    forall i | 0 <= i < |y| ensures IsSpace(y[i]) {
      assert y[i] == (x + y)[|x| + i];
    }
  }

  lemma {:induction false} BlankBullets(cs: seq<Node>)
    requires IsBlank(GetTexts(cs))
    ensures Bullets(cs) == ""
  {
    if cs != [] {
      BlankSplit(GetText(cs[0]), GetTexts(cs[1..]));
      BlankBullets(cs[1..]);
    }
  }

  lemma {:induction false} BlankNumbered(cs: seq<Node>, i: nat)
    requires IsBlank(GetTexts(cs))
    ensures Numbered(cs, i) == ""
  {
    if cs != [] {
      BlankSplit(GetText(cs[0]), GetTexts(cs[1..]));
      BlankNumbered(cs[1..], i + 1);
      BlankNumbered(cs[1..], i);
    }
  }

  /** A tree made only of elements without a rule of their own. */
  predicate Plain(n: Node)
    decreases n
  {
    match n
    case Text(_, _) => true
    case Element(name, _, cs) => !HasRule(name) && PlainAll(cs)
  }

  predicate PlainAll(cs: seq<Node>)
    decreases cs
  {
    cs == [] || (Plain(cs[0]) && PlainAll(cs[1..]))
  }

  /** The text nodes of a tree, in document order. */
  function Leaves(n: Node): seq<string>
    decreases n
  {
    match n
    case Text(s, _) => [s]
    case Element(_, _, cs) => LeavesAll(cs)
  }

  function LeavesAll(cs: seq<Node>): seq<string>
    decreases cs
  {
    if cs == [] then [] else Leaves(cs[0]) + LeavesAll(cs[1..])
  }

  function StripEach(ss: seq<string>): (r: seq<string>)
    ensures |r| == |ss|
  {
    if ss == [] then [] else [Strip(ss[0])] + StripEach(ss[1..])
  }

  lemma {:induction false} StripEachAppend(x: seq<string>, y: seq<string>)
    ensures StripEach(x + y) == StripEach(x) + StripEach(y)
  {
    if x == [] {
      assert x + y == y;
    } else {
      assert (x + y)[1..] == x[1..] + y;
      StripEachAppend(x[1..], y);
    }
  }

  /** Without tags of their own, rendering concatenates the stripped text
      nodes in document order, with nothing in between: the text of each
      node survives and only the whitespace at its edges is lost. */
  lemma {:induction false} PlainRendersLeaves(n: Node)
    requires Plain(n)
    ensures Render(n) == Concat(StripEach(Leaves(n)))
    decreases n
  {
    match n
    case Text(s, _) =>
      assert StripEach([s]) == [Strip(s)] + StripEach([]);
    case Element(_, _, cs) =>
      PlainAllRendersLeaves(cs);
  }

  lemma {:induction false} PlainAllRendersLeaves(cs: seq<Node>)
    requires PlainAll(cs)
    ensures RenderAll(cs) == Concat(StripEach(LeavesAll(cs)))
    decreases cs
  {
    if cs != [] {
      PlainRendersLeaves(cs[0]);
      PlainAllRendersLeaves(cs[1..]);
      StripEachAppend(Leaves(cs[0]), LeavesAll(cs[1..]));
      ConcatAppend(StripEach(Leaves(cs[0])), StripEach(LeavesAll(cs[1..])));
    }
  }

  /** Leaves and text agree: all the strings of a subtree are the
      concatenation of its text nodes. */
  lemma {:induction false} TextIsLeaves(n: Node)
    ensures AllText(n) == Concat(Leaves(n))
    decreases n
  {
    match n
    case Text(s, _) =>
      assert Concat([s]) == s + Concat([]);
    case Element(_, _, cs) =>
      TextsAreLeaves(cs);
  }

  lemma {:induction false} TextsAreLeaves(cs: seq<Node>)
    ensures AllTexts(cs) == Concat(LeavesAll(cs))
    decreases cs
  {
    if cs != [] {
      TextIsLeaves(cs[0]);
      TextsAreLeaves(cs[1..]);
      ConcatAppend(Leaves(cs[0]), LeavesAll(cs[1..]));
    }
  }

  /** When every string is counted, `get_text` sees all of them. */
  lemma {:induction false} CountedTextIsAllText(n: Node)
    requires AllCounted(n)
    ensures GetText(n) == AllText(n)
    decreases n
  {
    match n
    case Text(_, _) =>
    case Element(_, _, cs) =>
      CountedTextsAreAllTexts(cs);
  }

  lemma {:induction false} CountedTextsAreAllTexts(cs: seq<Node>)
    requires forall k :: 0 <= k < |cs| ==> AllCounted(cs[k])
    ensures GetTexts(cs) == AllTexts(cs)
    decreases cs
  {
    if cs != [] {
      CountedTextIsAllText(cs[0]);
      CountedTextsAreAllTexts(cs[1..]);
    }
  }

  /** A rule tag writes only what `get_text` counts: the text of a `script`
      inside a paragraph is left out. */
  lemma ScriptInParagraph(t: string, x: string)
    ensures Render(Element("p", "", [Text(t, true), Element("script", "", [Text(x, false)])]))
         == Wrap("\n\n", Strip(t), "\n\n")
  {
    var xs := [Text(x, false)];
    var script := Element("script", "", xs);
    var cs := [Text(t, true), script];
    assert xs[1..] == [];
    assert GetTexts(xs) == GetText(xs[0]) + GetTexts([]) == "";
    assert cs[1..] == [script] && [script][1..] == [];
    assert GetTexts(cs[1..]) == GetText(script) + GetTexts([]) == "";
    assert GetTexts(cs) == t + GetTexts(cs[1..]) == t;
    assert TagOf("p") == Paragraph;
  }

  /** The default rule renders every string, so a comment inside a `div` is
      written out although `get_text` leaves it out. */
  lemma CommentInDiv(t: string, c: string)
    ensures Render(Element("div", "", [Text(t, true), Text(c, false)])) == Strip(t) + Strip(c)
    ensures GetText(Element("div", "", [Text(t, true), Text(c, false)])) == t
  {
    var ds := [Text(t, true), Text(c, false)];
    assert ds[1..] == [Text(c, false)] && [Text(c, false)][1..] == [];
    assert TagOf("div") == Other;
    assert GetText(Element("div", "", ds)) == t by {
      assert GetTexts(ds[1..]) == "" + GetTexts([]);
      assert GetTexts(ds) == t + GetTexts(ds[1..]);
    }
    assert RenderAll(ds[1..]) == Strip(c) + RenderAll([]);
    assert RenderAll(ds) == Strip(t) + RenderAll(ds[1..]);
  }

  /** Dropping children with a skipped tag from an element without a rule
      of its own does not change its rendering. */
  lemma {:induction false} SkippedChildrenVanish(cs: seq<Node>)
    ensures RenderAll(cs) == RenderAll(WithoutSkipped(cs))
  {
    if cs != [] {
      SkippedChildrenVanish(cs[1..]);
      if !(cs[0].Element? && Skipped(cs[0].name)) {
        assert WithoutSkipped(cs)[1..] == WithoutSkipped(cs[1..]);
      }
    }
  }

  function WithoutSkipped(cs: seq<Node>): (r: seq<Node>)
    ensures |r| <= |cs|
    ensures forall k :: 0 <= k < |r| ==> !(r[k].Element? && Skipped(r[k].name))
  {
    if cs == [] then []
    else if cs[0].Element? && Skipped(cs[0].name) then WithoutSkipped(cs[1..])
    else [cs[0]] + WithoutSkipped(cs[1..])
  }

  /** The direct `li` children, `find_all('li', recursive=False)`. */
  function Items(cs: seq<Node>): (r: seq<Node>)
    ensures |r| <= |cs|
    ensures forall k :: 0 <= k < |r| ==> IsItem(r[k])
  {
    if cs == [] then []
    else if IsItem(cs[0]) then [cs[0]] + Items(cs[1..])
    else Items(cs[1..])
  }

  /** The line an `ol` writes for the item numbered `i`. */
  function ItemLine(i: nat, li: Node): string
  {
    Wrap(NatToString(i) + ". ", Strip(GetText(li)), "\n")
  }

  /** `for i, li in enumerate(items, start)` over the list of items. */
  function ItemLines(items: seq<Node>, start: nat): string
  {
    if items == [] then "" else ItemLine(start, items[0]) + ItemLines(items[1..], start + 1)
  }

  /** The numbered list writes, for the `li` at position `k` (from 0) among
      the direct `li` children, its line with number `start + k`, whatever
      other children lie between them and whether or not earlier items were
      empty. */
  lemma {:induction false} NumberedByPosition(cs: seq<Node>, start: nat)
    ensures Numbered(cs, start) == ItemLines(Items(cs), start)
  {
    if cs != [] {
      NumberedByPosition(cs[1..], if IsItem(cs[0]) then start + 1 else start);
      if IsItem(cs[0]) {
        assert Items(cs)[1..] == Items(cs[1..]);
      }
    }
  }

  /** An item with empty text writes no line, yet the next item's number is
      one more than it would have been without it. */
  lemma EmptyItemKeepsNumber(li: Node, rest: seq<Node>, start: nat)
    requires IsItem(li) && Strip(GetText(li)) == ""
    ensures Numbered([li] + rest, start) == Numbered(rest, start + 1)
  {
    assert ([li] + rest)[1..] == rest;
  }

  /** `FindBody` finds a `body` element exactly when the tree has one, and
      what it returns is one. */
  predicate HasBody(cs: seq<Node>)
    decreases cs
  {
    cs != [] && ((cs[0].Element? && (cs[0].name == "body" || HasBody(cs[0].children))) || HasBody(cs[1..]))
  }

  lemma {:induction false} FindBodySound(cs: seq<Node>)
    ensures FindBody(cs).Some? <==> HasBody(cs)
    ensures FindBody(cs).Some? ==> FindBody(cs).value.Element? && FindBody(cs).value.name == "body"
    decreases cs
  {
    if cs != [] {
      if cs[0].Element? && cs[0].name != "body" {
        FindBodySound(cs[0].children);
      }
      FindBodySound(cs[1..]);
    }
  }

  // -----------------------------------------------------------------------
  // Properties of the clean-up.

  /** Four newlines in a row start at `p`. */
  predicate NewlineQuad(s: string, p: nat)
    requires p + 4 <= |s|
  {
    s[p] == '\n' && s[p + 1] == '\n' && s[p + 2] == '\n' && s[p + 3] == '\n'
  }

  predicate NoNewlineQuad(s: string)
  {
    forall p :: 0 <= p && p + 4 <= |s| ==> !NewlineQuad(s, p)
  }

  predicate NoDoubleSpace(s: string)
  {
    forall p :: 0 <= p && p + 1 < |s| ==> !(s[p] == ' ' && s[p + 1] == ' ')
  }

  /** The output of the newline step at a character other than a newline
      starts with that character. */
  lemma NewlinesHead(s: string, i: nat)
    requires i < |s| && s[i] != '\n'
    ensures CollapseNewlinesFrom(s, i) != "" && CollapseNewlinesFrom(s, i)[0] == s[i]
  {
  }

  /** At most three characters before text that does not start with a
      newline cannot hold four newlines with it. */
  lemma NoQuadAfterShort(chunk: string, rest: string)
    requires |chunk| <= 3 && NoNewlineQuad(rest)
    requires rest != "" ==> rest[0] != '\n'
    ensures NoNewlineQuad(chunk + rest)
  {
    var r := chunk + rest;
    forall p | 0 <= p && p + 4 <= |r| ensures !NewlineQuad(r, p) {
      if p < |chunk| {
        assert r[|chunk|] == rest[0];
      } else {
        assert r[p..p + 4] == rest[p - |chunk|..p - |chunk| + 4];
        assert !NewlineQuad(rest, p - |chunk|);
      }
    }
  }

  /** A character other than a newline in front keeps four newlines out. */
  lemma NoQuadAfterChar(c: char, rest: string)
    requires c != '\n' && NoNewlineQuad(rest)
    ensures NoNewlineQuad([c] + rest)
  {
    var r := [c] + rest;
    forall p | 0 <= p && p + 4 <= |r| ensures !NewlineQuad(r, p) {
      if p > 0 {
        assert !NewlineQuad(rest, p - 1);
      }
    }
  }

  lemma {:induction false} NewlinesNoQuad(s: string, i: nat)
    requires i <= |s|
    requires i == 0 || i == |s| || s[i - 1] != '\n' || s[i] != '\n'
    ensures NoNewlineQuad(CollapseNewlinesFrom(s, i))
    decreases |s| - i
  {
    if i < |s| {
      if s[i] == '\n' {
        var n := RunOf(s, i, '\n');
        var chunk := if n >= 4 then "\n\n\n" else s[i..i + n];
        var rest := CollapseNewlinesFrom(s, i + n);
        NewlinesNoQuad(s, i + n);
        if i + n < |s| {
          NewlinesHead(s, i + n);
        }
        NoQuadAfterShort(chunk, rest);
      } else {
        NewlinesNoQuad(s, i + 1);
        NoQuadAfterChar(s[i], CollapseNewlinesFrom(s, i + 1));
      }
    }
  }

  /** A newline the space step writes at the front comes from a newline of
      the input at the same place in the scan. */
  lemma {:induction false} SpacesLeadingNewlines(s: string, i: nat, k: nat)
    requires i <= |s|
    requires k <= |CollapseSpacesFrom(s, i)|
    requires forall q :: 0 <= q < k ==> CollapseSpacesFrom(s, i)[q] == '\n'
    ensures i + k <= |s| && forall q :: i <= q < i + k ==> s[q] == '\n'
    decreases k
  {
    if k > 0 {
      var r := CollapseSpacesFrom(s, i);
      assert r[0] == '\n';
      assert i < |s| && s[i] == '\n';
      var rest := CollapseSpacesFrom(s, i + 1);
      assert r == [s[i]] + rest;
      forall q | 0 <= q < k - 1 ensures rest[q] == '\n' {
        assert rest[q] == r[q + 1];
      }
      SpacesLeadingNewlines(s, i + 1, k - 1);
    }
  }

  lemma {:induction false} SpacesKeepNoQuad(s: string, i: nat)
    requires i <= |s|
    requires NoNewlineQuad(s)
    ensures NoNewlineQuad(CollapseSpacesFrom(s, i))
    decreases |s| - i
  {
    if i < |s| {
      var r := CollapseSpacesFrom(s, i);
      if s[i] == ' ' {
        var n := RunOf(s, i, ' ');
        var rest := CollapseSpacesFrom(s, i + n);
        SpacesKeepNoQuad(s, i + n);
        assert r == " " + rest;
        forall p | 0 <= p && p + 4 <= |r| ensures !NewlineQuad(r, p) {
          if p > 0 {
            assert !NewlineQuad(rest, p - 1);
          }
        }
      } else {
        var rest := CollapseSpacesFrom(s, i + 1);
        SpacesKeepNoQuad(s, i + 1);
        assert r == [s[i]] + rest;
        forall p | 0 <= p && p + 4 <= |r| ensures !NewlineQuad(r, p) {
          if p > 0 {
            assert !NewlineQuad(rest, p - 1);
          } else if rest[0] == '\n' && rest[1] == '\n' && rest[2] == '\n' {
            SpacesLeadingNewlines(s, i + 1, 3);
            assert !NewlineQuad(s, i);
          }
        }
      }
    }
  }

  lemma {:induction false} SpacesNoDouble(s: string, i: nat)
    requires i <= |s|
    ensures NoDoubleSpace(CollapseSpacesFrom(s, i))
    ensures i < |s| && s[i] != ' ' ==> CollapseSpacesFrom(s, i)[0] == s[i]
    decreases |s| - i
  {
    if i < |s| {
      var r := CollapseSpacesFrom(s, i);
      if s[i] == ' ' {
        var n := RunOf(s, i, ' ');
        var rest := CollapseSpacesFrom(s, i + n);
        SpacesNoDouble(s, i + n);
        assert r == " " + rest;
        forall p | 0 <= p && p + 1 < |r| ensures !(r[p] == ' ' && r[p + 1] == ' ') {
          if p == 0 {
            assert r[1] == rest[0];
          } else {
            assert r[p] == rest[p - 1] && r[p + 1] == rest[p];
          }
        }
      } else {
        var rest := CollapseSpacesFrom(s, i + 1);
        SpacesNoDouble(s, i + 1);
        assert r == [s[i]] + rest;
        forall p | 0 <= p && p + 1 < |r| ensures !(r[p] == ' ' && r[p + 1] == ' ') {
          if p > 0 {
            assert r[p] == rest[p - 1] && r[p + 1] == rest[p];
          }
        }
      }
    }
  }

  /** Stripping keeps both shapes, since it takes a slice. */
  lemma StripKeepsShape(c: string)
    requires NoNewlineQuad(c) && NoDoubleSpace(c)
    ensures NoNewlineQuad(Strip(c)) && NoDoubleSpace(Strip(c))
  {
    var r := Strip(c);
    var a := LeadingSpaces(c);
    forall p | 0 <= p && p + 4 <= |r| ensures !NewlineQuad(r, p) {
      assert r[p] == c[a + p] && r[p + 1] == c[a + p + 1] && r[p + 2] == c[a + p + 2] && r[p + 3] == c[a + p + 3];
      assert !NewlineQuad(c, a + p);
    }
    forall p | 0 <= p && p + 1 < |r| ensures !(r[p] == ' ' && r[p + 1] == ' ') {
      assert r[p] == c[a + p] && r[p + 1] == c[a + p + 1];
    }
  }

  /** The clean-up leaves no run of four newlines, no two spaces in a row
      and no whitespace at either end. */
  lemma CleanupShape(s: string)
    ensures var r := Cleanup(s);
      && NoNewlineQuad(r)
      && NoDoubleSpace(r)
      && (r != "" ==> !IsSpace(r[0]) && !IsSpace(r[|r| - 1]))
  {
    var m := CollapseNewlinesFrom(s, 0);
    NewlinesNoQuad(s, 0);
    SpacesKeepNoQuad(m, 0);
    SpacesNoDouble(m, 0);
    StripKeepsShape(CollapseSpacesFrom(m, 0));
  }

  /** A run of one character that is whitespace has nothing visible. */
  lemma RunInvisible(s: string, i: nat, c: char)
    requires i <= |s| && IsSpace(c)
    ensures Visible(s[i..i + RunOf(s, i, c)]) == ""
  {
    var n := RunOf(s, i, c);
    var run := s[i..i + n];
    assert IsBlank(run) by {
      forall k | 0 <= k < n ensures IsSpace(run[k]) {
        assert run[k] == s[i + k] == c;
      }
    }
    VisibleBlank(run);
  }

  /** Visibility of a text cut in two at `j`. */
  lemma VisibleCut(s: string, i: nat, j: nat)
    requires i <= j <= |s|
    ensures Visible(s[i..]) == Visible(s[i..j]) + Visible(s[j..])
  {
    assert s[i..] == s[i..j] + s[j..];
    VisibleAppend(s[i..j], s[j..]);
  }

  /** A visible character in front stays in front. */
  lemma VisibleCons(s: string, i: nat, rest: string)
    requires i < |s|
    ensures Visible([s[i]] + rest) == (if IsSpace(s[i]) then "" else [s[i]]) + Visible(rest)
    ensures Visible(s[i..]) == (if IsSpace(s[i]) then "" else [s[i]]) + Visible(s[i + 1..])
  {
    assert ([s[i]] + rest)[1..] == rest;
    assert s[i..][1..] == s[i + 1..];
  }

  /** Skipping a run of a whitespace character skips nothing visible. */
  lemma RunSkipped(s: string, i: nat, c: char)
    requires i <= |s| && IsSpace(c)
    ensures Visible(s[i..]) == Visible(s[i + RunOf(s, i, c)..])
  {
    var n := RunOf(s, i, c);
    VisibleCut(s, i, i + n);
    RunInvisible(s, i, c);
  }

  /** What one run of newlines is rewritten to shows nothing. */
  lemma NewlineChunkInvisible(s: string, i: nat)
    requires i < |s| && s[i] == '\n'
    ensures var n := RunOf(s, i, '\n');
      Visible(if n >= 4 then "\n\n\n" else s[i..i + n]) == ""
  {
    var n := RunOf(s, i, '\n');
    if n >= 4 {
      ThreeNewlinesInvisible();
    } else {
      RunInvisible(s, i, '\n');
    }
  }

  lemma ThreeNewlinesInvisible()
    ensures Visible("\n\n\n") == ""
  {
    var three := "\n\n\n";
    assert three[1..] == "\n\n";
    assert three[1..][1..] == "\n";
    assert three[1..][1..][1..] == "";
  }

  /** One run of newlines, rewritten or not, shows nothing. */
  lemma NewlineRunStep(s: string, i: nat)
    requires i < |s| && s[i] == '\n'
    ensures var n := RunOf(s, i, '\n');
      && Visible(CollapseNewlinesFrom(s, i)) == Visible(CollapseNewlinesFrom(s, i + n))
      && Visible(s[i..]) == Visible(s[i + n..])
  {
    var n := RunOf(s, i, '\n');
    var chunk := if n >= 4 then "\n\n\n" else s[i..i + n];
    var rest := CollapseNewlinesFrom(s, i + n);
    assert CollapseNewlinesFrom(s, i) == chunk + rest;
    VisibleAppend(chunk, rest);
    NewlineChunkInvisible(s, i);
    RunSkipped(s, i, '\n');
  }

  /** A character other than a newline is copied, with its visibility. */
  lemma NewlineOtherStep(s: string, i: nat)
    requires i < |s| && s[i] != '\n'
    ensures var h := if IsSpace(s[i]) then "" else [s[i]];
      && Visible(CollapseNewlinesFrom(s, i)) == h + Visible(CollapseNewlinesFrom(s, i + 1))
      && Visible(s[i..]) == h + Visible(s[i + 1..])
  {
    var rest := CollapseNewlinesFrom(s, i + 1);
    assert CollapseNewlinesFrom(s, i) == [s[i]] + rest;
    VisibleCons(s, i, rest);
  }

  lemma {:induction false} VisibleNewlines(s: string, i: nat)
    requires i <= |s|
    ensures Visible(CollapseNewlinesFrom(s, i)) == Visible(s[i..])
    decreases |s| - i
  {
    if i < |s| {
      if s[i] == '\n' {
        var n := RunOf(s, i, '\n');
        NewlineRunStep(s, i);
        VisibleNewlines(s, i + n);
      } else {
        NewlineOtherStep(s, i);
        VisibleNewlines(s, i + 1);
      }
    }
  }

  /** One run of spaces, written as one space, shows nothing. */
  lemma SpaceRunStep(s: string, i: nat)
    requires i < |s| && s[i] == ' '
    ensures var n := RunOf(s, i, ' ');
      && Visible(CollapseSpacesFrom(s, i)) == Visible(CollapseSpacesFrom(s, i + n))
      && Visible(s[i..]) == Visible(s[i + n..])
  {
    var n := RunOf(s, i, ' ');
    var rest := CollapseSpacesFrom(s, i + n);
    assert CollapseSpacesFrom(s, i) == " " + rest;
    VisibleCons(" ", 0, rest);
    RunSkipped(s, i, ' ');
  }

  /** A character other than a space is copied, with its visibility. */
  lemma SpaceOtherStep(s: string, i: nat)
    requires i < |s| && s[i] != ' '
    ensures var h := if IsSpace(s[i]) then "" else [s[i]];
      && Visible(CollapseSpacesFrom(s, i)) == h + Visible(CollapseSpacesFrom(s, i + 1))
      && Visible(s[i..]) == h + Visible(s[i + 1..])
  {
    var rest := CollapseSpacesFrom(s, i + 1);
    assert CollapseSpacesFrom(s, i) == [s[i]] + rest;
    VisibleCons(s, i, rest);
  }

  lemma {:induction false} VisibleSpaces(s: string, i: nat)
    requires i <= |s|
    ensures Visible(CollapseSpacesFrom(s, i)) == Visible(s[i..])
    decreases |s| - i
  {
    if i < |s| {
      if s[i] == ' ' {
        var n := RunOf(s, i, ' ');
        SpaceRunStep(s, i);
        VisibleSpaces(s, i + n);
      } else {
        SpaceOtherStep(s, i);
        VisibleSpaces(s, i + 1);
      }
    }
  }

  /** The clean-up only ever removes or shortens whitespace: every other
      character is kept, in order. */
  lemma CleanupKeepsVisible(s: string)
    ensures Visible(Cleanup(s)) == Visible(s)
  {
    var m := CollapseNewlinesFrom(s, 0);
    VisibleNewlines(s, 0);
    VisibleSpaces(m, 0);
    VisibleStrip(CollapseSpacesFrom(m, 0));
    assert s[0..] == s;
    assert m[0..] == m;
  }

  lemma {:induction false} VisibleStripEach(ls: seq<string>)
    ensures Visible(Concat(StripEach(ls))) == Visible(Concat(ls))
  {
    if ls != [] {
      VisibleStripEach(ls[1..]);
      VisibleAppend(Strip(ls[0]), Concat(StripEach(ls[1..])));
      VisibleAppend(ls[0], Concat(ls[1..]));
      VisibleStrip(ls[0]);
    }
  }

  /** For a document without a `body` and without any tag that has a rule
      of its own, the Markdown keeps every non-whitespace character of the
      document's text, in order, and adds none. */
  lemma PlainDocumentKeepsText(doc: Node)
    requires Plain(doc) && FindBodyIn(doc) == None
    ensures Visible(HtmlToMarkdown(doc)) == Visible(AllText(doc))
    ensures AllCounted(doc) ==> Visible(HtmlToMarkdown(doc)) == Visible(GetText(doc))
  {
    PlainRendersLeaves(doc);
    TextIsLeaves(doc);
    if AllCounted(doc) {
      CountedTextIsAllText(doc);
    }
    VisibleStripEach(Leaves(doc));
    CleanupKeepsVisible(Render(doc));
  }
}
