/** The two ways the chunkers cut Markdown text:
    `re.split(r'\n(?=#{1,3}\s)', content)` (chapters) and
    `text.split('\n\n')` (paragraphs). */
module Splitting {
  import opened Strings

  /** The look-ahead `#{1,3}\s`: one to three `#` and then a whitespace
      character. A longer run of `#` fails, since `#` is not whitespace. */
  predicate HeadingStart(s: string)
  {
    || (|s| > 1 && s[0] == '#' && IsSpace(s[1]))
    || (|s| > 2 && s[0] == '#' && s[1] == '#' && IsSpace(s[2]))
    || (|s| > 3 && s[0] == '#' && s[1] == '#' && s[2] == '#' && IsSpace(s[3]))
  }

  /** The pattern `\n(?=#{1,3}\s)` matches at `i`. */
  predicate HeadingBreak(t: string, i: nat)
    requires i < |t|
  {
    t[i] == '\n' && HeadingStart(t[i + 1..])
  }

  /** `re.split` of `t[start..]`: `i` scans for the next break, which is cut
      out of the text. */
  function SplitHeadingsFrom(t: string, start: nat, i: nat): (segs: seq<string>)
    requires start <= i <= |t|
    ensures |segs| >= 1
    decreases |t| - i
  {
    if i == |t| then [t[start..]]
    else if HeadingBreak(t, i) then [t[start..i]] + SplitHeadingsFrom(t, i + 1, i + 1)
    else SplitHeadingsFrom(t, start, i + 1)
  }

  /** The chapter segments of a Markdown text. */
  function SplitHeadings(t: string): (segs: seq<string>)
    ensures |segs| >= 1
  {
    SplitHeadingsFrom(t, 0, 0)
  }

  lemma BreakInSuffix(t: string, start: nat, j: nat)
    requires start + j < |t|
    ensures HeadingBreak(t[start..], j) == HeadingBreak(t, start + j)
  {
    assert t[start..][j] == t[start + j];
    assert t[start..][j + 1..] == t[start + j + 1..];
  }

  /** Every segment after the first begins a heading. */
  predicate HeadsAfterFirst(segs: seq<string>)
  {
    forall k :: 1 <= k < |segs| ==> HeadingStart(JoinWith(segs[k..], "\n")) && segs[k] != "" && segs[k][0] == '#'
  }

  /** No segment holds a break, counted in the text from that segment on. */
  predicate NoInnerBreak(segs: seq<string>)
  {
    forall k, j :: 0 <= k < |segs| && 0 <= j < |segs[k]| ==> !HeadingBreak(JoinWith(segs[k..], "\n"), j)
  }

  /** Cutting at a break and joining back with the newline it removed. */
  lemma JoinAtBreak(t: string, start: nat, i: nat, rest: seq<string>)
    requires start <= i < |t| && t[i] == '\n'
    requires |rest| >= 1 && JoinWith(rest, "\n") == t[i + 1..]
    ensures JoinWith([t[start..i]] + rest, "\n") == t[start..]
  {
    JoinCons(t[start..i], rest, "\n");
    CutAt(t, start, i);
    assert [t[i]] == "\n";
  }

  lemma JoinCons(x: string, rest: seq<string>, sep: string)
    requires rest != []
    ensures JoinWith([x] + rest, sep) == x + sep + JoinWith(rest, sep)
  {
    assert ([x] + rest)[1..] == rest;
  }

  lemma CutAt(t: string, start: nat, i: nat)
    requires start <= i < |t|
    ensures t[start..] == t[start..i] + [t[i]] + t[i + 1..]
  {
  }

  /** Text that begins a heading and is made of segments begins with the
      first segment, which so starts with `#`. */
  lemma FirstSegmentHead(rest: seq<string>)
    requires |rest| >= 1 && HeadingStart(JoinWith(rest, "\n"))
    ensures rest[0] != "" && rest[0][0] == '#'
  {
    var j := JoinWith(rest, "\n");
    var tail := if |rest| > 1 then "\n" + JoinWith(rest[1..], "\n") else "";
    assert j == rest[0] + tail;
    assert j[0] == '#';
    assert tail == "" || tail[0] == '\n';
  }

  /** The segment after a break begins the heading the break looked at. */
  lemma HeadsAtBreak(t: string, start: nat, i: nat, rest: seq<string>)
    requires start <= i < |t| && HeadingBreak(t, i)
    requires |rest| >= 1 && JoinWith(rest, "\n") == t[i + 1..] && HeadsAfterFirst(rest)
    ensures HeadsAfterFirst([t[start..i]] + rest)
  {
    var segs := [t[start..i]] + rest;
    forall k | 1 <= k < |segs|
      ensures HeadingStart(JoinWith(segs[k..], "\n")) && segs[k] != "" && segs[k][0] == '#'
    {
      assert segs[k..] == rest[k - 1..];
      assert segs[k] == rest[k - 1];
      if k == 1 {
        assert rest[0..] == rest;
        FirstSegmentHead(rest);
      }
    }
  }

  /** The segment before a break holds none, as the scan found none. */
  lemma NoBreakBefore(t: string, start: nat, i: nat, rest: seq<string>)
    requires start <= i <= |t|
    requires forall j :: start <= j < i ==> !HeadingBreak(t, j)
    requires JoinWith([t[start..i]] + rest, "\n") == t[start..]
    requires NoInnerBreak(rest)
    ensures NoInnerBreak([t[start..i]] + rest)
  {
    var segs := [t[start..i]] + rest;
    forall k, j | 0 <= k < |segs| && 0 <= j < |segs[k]|
      ensures !HeadingBreak(JoinWith(segs[k..], "\n"), j)
    {
      if k == 0 {
        assert segs[0..] == segs;
        BreakInSuffix(t, start, j);
      } else {
        assert segs[k..] == rest[k - 1..];
      }
    }
  }

  /** What `SplitHeadingsFrom` promises, for the induction. */
  lemma {:induction false} SplitHeadingsFromSound(t: string, start: nat, i: nat)
    requires start <= i <= |t|
    requires forall j :: start <= j < i ==> !HeadingBreak(t, j)
    ensures var segs := SplitHeadingsFrom(t, start, i);
      && JoinWith(segs, "\n") == t[start..]
      && HeadsAfterFirst(segs)
      && NoInnerBreak(segs)
    decreases |t| - i
  {
    var segs := SplitHeadingsFrom(t, start, i);
    if i == |t| {
      assert segs == [t[start..]] + [];
      assert t[start..i] == t[start..];
      NoBreakBefore(t, start, i, []);
    } else if HeadingBreak(t, i) {
      var rest := SplitHeadingsFrom(t, i + 1, i + 1);
      SplitHeadingsFromSound(t, i + 1, i + 1);
      assert segs == [t[start..i]] + rest;
      JoinAtBreak(t, start, i, rest);
      HeadsAtBreak(t, start, i, rest);
      NoBreakBefore(t, start, i, rest);
    } else {
      SplitHeadingsFromSound(t, start, i + 1);
    }
  }

  /** Joining the segments with `"\n"` gives back the text; every segment
      after the first begins a heading (one to three `#`, then whitespace, which
      may be the newline that ends the segment); and no segment contains a
      break, so the split is as fine as the pattern allows. */
  lemma SplitHeadingsSound(t: string)
    ensures var segs := SplitHeadings(t);
      && JoinWith(segs, "\n") == t
      && (forall k :: 1 <= k < |segs| ==> HeadingStart(JoinWith(segs[k..], "\n")) && segs[k] != "" && segs[k][0] == '#')
      && (forall k, j :: 0 <= k < |segs| && 0 <= j < |segs[k]| ==> !HeadingBreak(JoinWith(segs[k..], "\n"), j))
  {
    SplitHeadingsFromSound(t, 0, 0);
    assert t[0..] == t;
  }

  // -----------------------------------------------------------------------

  /** The separator `"\n\n"` occurs at `i`. */
  predicate ParagraphBreak(t: string, i: nat)
  {
    i + 1 < |t| && t[i] == '\n' && t[i + 1] == '\n'
  }

  /** `str.split('\n\n')` of `t[start..]`, scanning from `i`: the leftmost
      occurrence is cut out, and the scan resumes after it. */
  function SplitParagraphsFrom(t: string, start: nat, i: nat): (paras: seq<string>)
    requires start <= i <= |t|
    ensures |paras| >= 1
    decreases |t| - i
  {
    if i + 1 >= |t| then [t[start..]]
    else if ParagraphBreak(t, i) then [t[start..i]] + SplitParagraphsFrom(t, i + 2, i + 2)
    else SplitParagraphsFrom(t, start, i + 1)
  }

  function SplitParagraphs(t: string): (paras: seq<string>)
    ensures |paras| >= 1
  {
    SplitParagraphsFrom(t, 0, 0)
  }

  /** Every paragraph but the last is empty or ends in something other than
      a newline: of three newlines in a row, the cut takes the first two. */
  predicate LeftmostCuts(paras: seq<string>)
  {
    forall k :: 0 <= k < |paras| - 1 && paras[k] != [] ==> paras[k][|paras[k]| - 1] != '\n'
  }

  lemma {:induction false} SplitParagraphsFromSound(t: string, start: nat, i: nat)
    requires start <= i <= |t|
    requires forall j :: start <= j < i ==> !ParagraphBreak(t, j)
    ensures var paras := SplitParagraphsFrom(t, start, i);
      && JoinWith(paras, "\n\n") == t[start..]
      && (forall k, j :: 0 <= k < |paras| && 0 <= j ==> !ParagraphBreak(paras[k], j))
      && LeftmostCuts(paras)
    decreases |t| - i
  {
    var paras := SplitParagraphsFrom(t, start, i);
    if i + 1 >= |t| {
      forall j | 0 <= j ensures !ParagraphBreak(paras[0], j) {
        if j + 1 < |paras[0]| {
          assert paras[0][j] == t[start + j] && paras[0][j + 1] == t[start + j + 1];
          assert !ParagraphBreak(t, start + j);
        }
      }
    } else if ParagraphBreak(t, i) {
      var rest := SplitParagraphsFrom(t, i + 2, i + 2);
      SplitParagraphsFromSound(t, i + 2, i + 2);
      assert paras == [t[start..i]] + rest;
      assert paras[1..] == rest;
      assert t[start..] == t[start..i] + "\n\n" + t[i + 2..];
      forall k, j | 0 <= k < |paras| && 0 <= j ensures !ParagraphBreak(paras[k], j) {
        if k == 0 {
          if j + 1 < |paras[0]| {
            assert paras[0][j] == t[start + j] && paras[0][j + 1] == t[start + j + 1];
            assert !ParagraphBreak(t, start + j);
          }
        } else {
          assert paras[k] == rest[k - 1];
        }
      }
      if i > start {
        assert !ParagraphBreak(t, i - 1);
      }
      forall k | 0 <= k < |paras| - 1 && paras[k] != []
        ensures paras[k][|paras[k]| - 1] != '\n'
      {
        if k > 0 {
          assert paras[k] == rest[k - 1];
        }
      }
    } else {
      SplitParagraphsFromSound(t, start, i + 1);
    }
  }

  /** Joining the paragraphs with `"\n\n"` gives back the text, no
      paragraph contains `"\n\n"`, and each cut is the leftmost one left. */
  lemma SplitParagraphsSound(t: string)
    ensures var paras := SplitParagraphs(t);
      && JoinWith(paras, "\n\n") == t
      && (forall k, j :: 0 <= k < |paras| && 0 <= j ==> !ParagraphBreak(paras[k], j))
      && LeftmostCuts(paras)
  {
    SplitParagraphsFromSound(t, 0, 0);
    assert t[0..] == t;
  }

  /** Of three newlines, the first two are the separator. */
  lemma ThreeNewlinesSplit()
    ensures SplitParagraphs("a\n\n\nb") == ["a", "\nb"]
  {
    var t := "a\n\n\nb";
    assert !ParagraphBreak(t, 0) && ParagraphBreak(t, 1);
    assert !ParagraphBreak(t, 3);
    assert t[0..1] == "a" && t[3..] == "\nb";
    assert SplitParagraphsFrom(t, 3, 3) == SplitParagraphsFrom(t, 3, 4) == [t[3..]];
  }
}
