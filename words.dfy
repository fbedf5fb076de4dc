/** The word count used by both chunkers: every CJK unified ideograph
    (U+4E00..U+9FFF) counts as one word, and so does every match of the
    regular expression `\b[a-zA-Z]+\b`. */
module Words {

  predicate IsCjk(c: char)
  {
    '\U{4E00}' <= c <= '\U{9FFF}'
  }

  predicate IsAsciiLetter(c: char)
  {
    ('a' <= c <= 'z') || ('A' <= c <= 'Z')
  }

  /** A character that `\w` matches in a `str` pattern, so that `\b` sees it as
      part of a word: ASCII letters and digits, `_`, the Latin-1 letters and
      numerals, the Latin Extended-A and -B letters and the CJK ideographs. */
  predicate IsWordChar(c: char)
  {
    || IsAsciiLetter(c) || ('0' <= c <= '9') || c == '_'
    || c == '\U{AA}' || c == '\U{B2}' || c == '\U{B3}' || c == '\U{B5}' || c == '\U{B9}' || c == '\U{BA}'
    || ('\U{BC}' <= c <= '\U{BE}') || ('\U{C0}' <= c <= '\U{D6}') || ('\U{D8}' <= c <= '\U{F6}')
    || ('\U{F8}' <= c <= '\U{24F}')
    || IsCjk(c)
  }

  /** Number of characters matched by `[一-鿿]`. */
  function CjkCount(t: string): (n: nat)
    ensures n <= |t|
  {
    if t == [] then 0 else (if IsCjk(t[0]) then 1 else 0) + CjkCount(t[1..])
  }

  /** Length of the run of ASCII letters starting at `i` (what the greedy
      `[a-zA-Z]+` consumes). */
  function LetterRun(t: string, i: nat): (n: nat)
    requires i <= |t|
    ensures i + n <= |t|
    ensures forall k :: i <= k < i + n ==> IsAsciiLetter(t[k])
    ensures i + n < |t| ==> !IsAsciiLetter(t[i + n])
    decreases |t| - i
  {
    if i == |t| || !IsAsciiLetter(t[i]) then 0 else 1 + LetterRun(t, i + 1)
  }

  /** `\b[a-zA-Z]+\b` matches at position `i`. `\b` before a letter needs a
      non-word character (or the start) on its left. After the greedy run the
      closing `\b` needs a non-word character (or the end); backtracking to a
      shorter run cannot help, since it would leave a letter on both sides. */
  predicate MatchAt(t: string, i: nat)
    requires i < |t|
  {
    && IsAsciiLetter(t[i])
    && (i == 0 || !IsWordChar(t[i - 1]))
    && (i + LetterRun(t, i) == |t| || !IsWordChar(t[i + LetterRun(t, i)]))
  }

  /** The number of matches `re.findall` reports when it scans from `i`: after
      a match it resumes at the end of the match, otherwise one position on. */
  function FindAllLatin(t: string, i: nat): nat
    requires i <= |t|
    decreases |t| - i
  {
    if i == |t| then 0
    else if MatchAt(t, i) then 1 + FindAllLatin(t, i + LetterRun(t, i))
    else FindAllLatin(t, i + 1)
  }

  /** `count_words`: ideographs plus Latin words. */
  function CountWords(t: string): nat
  {
    CjkCount(t) + FindAllLatin(t, 0)
  }

  // ---------------------------------------------------------------------
  // An independent description of the Latin words: the maximal runs of word
  // characters that consist of ASCII letters only.

  /** Length of the maximal run of word characters starting at `i`. */
  function WordRun(t: string, i: nat): (n: nat)
    requires i <= |t|
    ensures i + n <= |t|
    ensures forall k :: i <= k < i + n ==> IsWordChar(t[k])
    ensures i + n < |t| ==> !IsWordChar(t[i + n])
    decreases |t| - i
  {
    if i == |t| || !IsWordChar(t[i]) then 0 else 1 + WordRun(t, i + 1)
  }

  predicate AllLetters(t: string, a: nat, b: nat)
    requires a <= b <= |t|
  {
    forall k :: a <= k < b ==> IsAsciiLetter(t[k])
  }

  /** Number of maximal word-character runs, from `i` on, made of ASCII
      letters only. */
  function LatinWords(t: string, i: nat): nat
    requires i <= |t|
    decreases |t| - i
  {
    if i == |t| then 0
    else if !IsWordChar(t[i]) then LatinWords(t, i + 1)
    else (if AllLetters(t, i, i + WordRun(t, i)) then 1 else 0) + LatinWords(t, i + WordRun(t, i))
  }

  /** The letter run is determined by where the letters stop. */
  lemma {:induction false} LetterRunIs(t: string, i: nat, n: nat)
    requires i + n <= |t|
    requires AllLetters(t, i, i + n)
    requires i + n < |t| ==> !IsAsciiLetter(t[i + n])
    ensures LetterRun(t, i) == n
    decreases n
  {
    if n > 0 {
      LetterRunIs(t, i + 1, n - 1);
    }
  }

  /** The letter run cannot pass a character that is not a letter. */
  lemma {:induction false} LetterRunBefore(t: string, i: nat, k: nat)
    requires i <= k < |t|
    requires !IsAsciiLetter(t[k])
    ensures i + LetterRun(t, i) <= k
    decreases k - i
  {
    if i < k && IsAsciiLetter(t[i]) {
      LetterRunBefore(t, i + 1, k);
    }
  }

  /** Inside a run of word characters no match can start, so the scan from
      any position after the run's start lands on the run's end. */
  lemma {:induction false} ScanSkipsRun(t: string, i: nat, k: nat, e: nat)
    requires i < k <= e <= |t|
    requires forall j :: i <= j < e ==> IsWordChar(t[j])
    ensures FindAllLatin(t, k) == FindAllLatin(t, e)
    decreases e - k
  {
    if k < e {
      assert IsWordChar(t[k - 1]);
      ScanSkipsRun(t, i, k + 1, e);
    }
  }

  /** A run of letters that is a whole word is one match, and the scan
      resumes at its end. */
  lemma LetterWordStep(t: string, i: nat)
    requires i < |t| && IsWordChar(t[i]) && (i == 0 || !IsWordChar(t[i - 1]))
    requires AllLetters(t, i, i + WordRun(t, i))
    ensures FindAllLatin(t, i) == 1 + FindAllLatin(t, i + WordRun(t, i))
  {
    LetterRunIs(t, i, WordRun(t, i));
  }

  /** A word with a character other than an ASCII letter is no match, and
      no match starts inside it. */
  lemma MixedWordStep(t: string, i: nat)
    requires i < |t| && IsWordChar(t[i]) && (i == 0 || !IsWordChar(t[i - 1]))
    requires !AllLetters(t, i, i + WordRun(t, i))
    ensures FindAllLatin(t, i) == FindAllLatin(t, i + WordRun(t, i))
  {
    var n := WordRun(t, i);
    var k :| i <= k < i + n && !IsAsciiLetter(t[k]);
    if IsAsciiLetter(t[i]) {
      LetterRunBefore(t, i, k);
      assert IsWordChar(t[i + LetterRun(t, i)]);
      assert !MatchAt(t, i);
    }
    if n > 1 {
      ScanSkipsRun(t, i, i + 1, i + n);
    }
  }

  /** The regular-expression scan counts exactly the ASCII-letter word runs,
      from any position that is not in the middle of a word. */
  lemma {:induction false} ScanCountsLatinWords(t: string, i: nat)
    requires i <= |t|
    requires i == 0 || i == |t| || !IsWordChar(t[i - 1]) || !IsWordChar(t[i])
    ensures FindAllLatin(t, i) == LatinWords(t, i)
    decreases |t| - i
  {
    if i < |t| {
      if !IsWordChar(t[i]) {
        ScanCountsLatinWords(t, i + 1);
      } else {
        var n := WordRun(t, i);
        ScanCountsLatinWords(t, i + n);
        if AllLetters(t, i, i + n) {
          LetterWordStep(t, i);
        } else {
          MixedWordStep(t, i);
        }
      }
    }
  }

  /** With a non-word character at the junction, no Latin word straddles the
      two halves. */
  predicate SeparatedAt(x: string, y: string)
  {
    x == [] || y == [] || !IsWordChar(x[|x| - 1]) || !IsWordChar(y[0])
  }

  lemma {:induction false} CjkCountAppend(x: string, y: string)
    ensures CjkCount(x + y) == CjkCount(x) + CjkCount(y)
  {
    if x == [] {
      assert x + y == y;
    } else {
      assert (x + y)[1..] == x[1..] + y;
      CjkCountAppend(x[1..], y);
    }
  }

  /** What lies in front of `y` does not change the runs found inside it. */
  lemma {:induction false} WordRunShift(x: string, y: string, j: nat)
    requires j <= |y|
    ensures WordRun(x + y, |x| + j) == WordRun(y, j)
    decreases |y| - j
  {
    if j < |y| {
      assert (x + y)[|x| + j] == y[j];
      WordRunShift(x, y, j + 1);
    }
  }

  lemma {:induction false} LatinWordsShift(x: string, y: string, j: nat)
    requires j <= |y|
    ensures LatinWords(x + y, |x| + j) == LatinWords(y, j)
    decreases |y| - j
  {
    if j < |y| {
      var xy := x + y;
      assert xy[|x| + j] == y[j];
      if IsWordChar(y[j]) {
        var n := WordRun(y, j);
        WordRunShift(x, y, j);
        AllLettersShift(x, y, j, j + n);
        LatinWordsShift(x, y, j + n);
      } else {
        LatinWordsShift(x, y, j + 1);
      }
    }
  }

  lemma AllLettersShift(x: string, y: string, a: nat, b: nat)
    requires a <= b <= |y|
    ensures AllLetters(x + y, |x| + a, |x| + b) == AllLetters(y, a, b)
  {
    var xy := x + y;
    forall k | a <= k < b ensures xy[|x| + k] == y[k] {
    }
    if AllLetters(y, a, b) {
      forall k | |x| + a <= k < |x| + b ensures IsAsciiLetter(xy[k]) {
        assert xy[k] == y[k - |x|];
      }
    }
  }

  lemma AllLettersPrefix(x: string, y: string, a: nat, b: nat)
    requires a <= b <= |x|
    ensures AllLetters(x + y, a, b) == AllLetters(x, a, b)
  {
    var xy := x + y;
    forall k | a <= k < b ensures xy[k] == x[k] {
    }
  }

  /** Latin words add up over a separated junction. */
  lemma {:induction false} LatinWordsAppend(x: string, y: string, i: nat)
    requires i <= |x|
    requires SeparatedAt(x, y)
    ensures LatinWords(x + y, i) == LatinWords(x, i) + LatinWords(y, 0)
    decreases |x| - i
  {
    var xy := x + y;
    if i == |x| {
      LatinWordsShift(x, y, 0);
    } else {
      assert xy[i] == x[i];
      if !IsWordChar(x[i]) {
        LatinWordsAppend(x, y, i + 1);
      } else {
        var n := WordRun(x, i);
        var m := WordRun(xy, i);
        WordRunPrefix(x, y, i);
        assert m == n;
        AllLettersPrefix(x, y, i, i + n);
        LatinWordsAppend(x, y, i + n);
      }
    }
  }

  /** A run that starts in `x` ends in `x` when the junction is separated. */
  lemma {:induction false} WordRunPrefix(x: string, y: string, i: nat)
    requires i <= |x|
    requires SeparatedAt(x, y)
    requires i == |x| ==> y == [] || !IsWordChar(y[0])
    ensures WordRun(x + y, i) == WordRun(x, i)
    decreases |x| - i
  {
    var xy := x + y;
    if i < |x| {
      assert xy[i] == x[i];
      if IsWordChar(x[i]) {
        WordRunPrefix(x, y, i + 1);
      }
    } else if y != [] {
      assert xy[i] == y[0];
    }
  }

  /** `count_words` adds up over two pieces joined at a non-word character.
      This is what lets a chunker sum the counts of its pieces. */
  lemma CountWordsAppend(x: string, y: string)
    requires SeparatedAt(x, y)
    ensures CountWords(x + y) == CountWords(x) + CountWords(y)
  {
    CjkCountAppend(x, y);
    LatinWordsAppend(x, y, 0);
    ScanCountsLatinWords(x + y, 0);
    ScanCountsLatinWords(x, 0);
    ScanCountsLatinWords(y, 0);
  }

  lemma {:induction false} NoCjkInLetters(t: string, a: nat, b: nat)
    requires a <= b <= |t|
    requires AllLetters(t, a, b)
    ensures CjkCount(t[a..b]) == 0
    decreases b - a
  {
    if a < b {
      assert t[a..b][1..] == t[a + 1..b];
      NoCjkInLetters(t, a + 1, b);
    }
  }

  /** Ideographs and Latin words never share a character. */
  lemma {:induction false} WordsFitInText(t: string, i: nat)
    requires i <= |t|
    ensures CjkCount(t[i..]) + LatinWords(t, i) <= |t| - i
    decreases |t| - i
  {
    if i < |t| {
      if !IsWordChar(t[i]) {
        assert t[i..][1..] == t[i + 1..];
        WordsFitInText(t, i + 1);
      } else {
        var n := WordRun(t, i);
        WordsFitInText(t, i + n);
        var w := t[i..i + n];
        var r := t[i + n..];
        assert t[i..] == w + r;
        CjkCountAppend(w, r);
        if AllLetters(t, i, i + n) {
          NoCjkInLetters(t, i, i + n);
        }
      }
    }
  }

  /** `count_words` never exceeds the number of characters, and is 0 on the
      empty text. */
  lemma CountWordsBound(t: string)
    ensures CountWords(t) <= |t|
    ensures t == "" ==> CountWords(t) == 0
  {
    ScanCountsLatinWords(t, 0);
    WordsFitInText(t, 0);
    assert t[0..] == t;
  }

  /** Text without ideographs has none to count. */
  lemma {:induction false} NoCjk(t: string)
    requires forall k :: 0 <= k < |t| ==> !IsCjk(t[k])
    ensures CjkCount(t) == 0
  {
    if t != [] {
      NoCjk(t[1..]);
    }
  }

  /** The scan finds nothing where no letter is left. */
  lemma {:induction false} NoLettersFrom(t: string, i: nat)
    requires i <= |t|
    requires forall k :: i <= k < |t| ==> !IsAsciiLetter(t[k])
    ensures FindAllLatin(t, i) == 0
    decreases |t| - i
  {
    if i < |t| {
      NoLettersFrom(t, i + 1);
    }
  }

  /** "你好 hello" has two ideographs and one Latin word. */
  lemma CountWordsMixed()
    ensures CountWords("你好 hello") == 3
  {
    var s := "你好 hello";
    NoLettersFrom(s, 8);
    assert LetterRun(s, 3) == 5;
    assert MatchAt(s, 3);
    assert FindAllLatin(s, 3) == 1;
    assert FindAllLatin(s, 0) == 1;
    NoCjk(s[2..]);
    assert CjkCount(s) == 2;
  }

  /** In "abc123" the letters touch a digit, so `\b` rejects them. */
  lemma CountWordsLettersThenDigits()
    ensures CountWords("abc123") == 0
  {
    var u := "abc123";
    NoLettersFrom(u, 3);
    assert LetterRun(u, 0) == 3;
    assert FindAllLatin(u, 0) == 0;
    NoCjk(u);
  }

  /** In "你好hello" the letters touch an ideograph, a word character, so
      only the two ideographs count. */
  lemma CountWordsIdeographsThenLetters()
    ensures CountWords("你好hello") == 2
  {
    var v := "你好hello";
    NoLettersFrom(v, 7);
    assert LetterRun(v, 2) == 5;
    assert !MatchAt(v, 2);
    assert FindAllLatin(v, 3) == 0;
    assert FindAllLatin(v, 0) == 0;
    NoCjk(v[2..]);
    assert CjkCount(v) == 2;
  }
}
