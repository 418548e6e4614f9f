/**
 * Quoting-aware splitting of a command line into words: `getlistOfWords`
 * of megacmdcommonutils.cpp, with the backslash doubling applied to the
 * words of a "completion" request.
 *
 * The scanners below take the characters of the C string (everything
 * before its NUL) and a position; position |t| is the terminator.
 */
module CommonWords {
  import opened Text
  import CommonUtils

  /** What the blank-skipping loop steps over: a positive signed char not above ' '. */
  predicate IsBlank(c: char)
  {
    1 <= c as int <= 32
  }

  function SkipBlanks(t: seq<char>, i: nat, ignoreTrailing: bool): (j: nat)
    requires i <= |t|
    ensures i <= j <= |t|
    decreases |t| - i
  {
    if i < |t| && IsBlank(t[i]) && (ignoreTrailing || i + 1 < |t|) then SkipBlanks(t, i + 1, ignoreTrailing)
    else i
  }

  function SkipSpaceChars(t: seq<char>, i: nat): (j: nat)
    requires i <= |t|
    ensures i <= j <= |t| && (j < |t| ==> t[j] != ' ')
    decreases |t| - i
  {
    if i < |t| && t[i] == ' ' then SkipSpaceChars(t, i + 1) else i
  }

  /** Where a quoted word opened before i ends: the next q, or the end of the string. */
  function QuoteEnd(t: seq<char>, i: nat, q: char): (j: nat)
    requires i <= |t|
    ensures i <= j <= |t| && (j < |t| ==> t[j] == q)
    decreases |t| - i
  {
    if i < |t| && t[i] != q then QuoteEnd(t, i + 1, q) else i
  }

  /** A quoted word ends at the first q after its opening quote. */
  lemma {:induction false} QuoteEndAt(t: seq<char>, i: nat, q: char, c: nat)
    requires i <= c <= |t| && (c < |t| ==> t[c] == q)
    requires forall k :: i <= k < c ==> t[k] != q
    ensures QuoteEnd(t, i, q) == c
    decreases c - i
  {
    if i < c {
      QuoteEndAt(t, i + 1, q, c);
    }
  }

  /** The do-while that looks for the quote closing a '"' met inside an unquoted word. */
  function ClosingQuote(t: seq<char>, j: nat): (r: nat)
    requires j < |t|
    ensures j <= r < |t| && (t[r] == '"' || r + 1 == |t|)
    decreases |t| - j
  {
    if t[j] != '"' && j + 1 < |t| then ClosingQuote(t, j + 1) else j
  }

  /**
   * End of an unquoted word starting at i: it stops at the end or at a space
   * whose previous scanned character is not a backslash; a '"' with
   * something after it swallows everything up to its closing quote.
   */
  function WordEnd(t: seq<char>, i: nat, prev: nat): (e: nat)
    requires i <= |t|
    ensures i <= e <= |t|
    ensures i < |t| && t[i] != ' ' ==> e > i
    decreases |t| - i
  {
    if i < |t| && !(t[i] == ' ' && At(t, prev) != '\\') then
      var k := if t[i] == '"' && i + 1 < |t| then ClosingQuote(t, i + 1) else i;
      WordEnd(t, k + 1, k)
    else i
  }

  /**
   * The word that starts at a non-blank position j, and the position after
   * it: a quoted word loses its quotes and ends at the matching quote or at
   * the end; an unquoted word ends as `WordEnd` says.
   */
  function NextWord(t: seq<char>, j: nat): (r: (seq<char>, nat))
    requires j < |t|
    ensures j < r.1 <= |t|
  {
    if t[j] == '"' || t[j] == '\'' then
      var e := QuoteEnd(t, j + 1, t[j]);
      (t[j + 1..e], if e < |t| then e + 1 else e)
    else
      var k := SkipSpaceChars(t, j);
      var e := WordEnd(t, k, k);
      (t[k..e], e)
  }

  /** Reference definition: the words of t from position i on. */
  function WordsFrom(t: seq<char>, i: nat, ignoreTrailing: bool): seq<seq<char>>
    requires i <= |t|
    decreases |t| - i
  {
    var j := SkipBlanks(t, i, ignoreTrailing);
    if j == |t| then []
    else
      var (w, next) := NextWord(t, j);
      [w] + WordsFrom(t, next, ignoreTrailing)
  }

  /** Each word with every backslash doubled. */
  function DoubleBackslashes(ws: seq<seq<char>>): (r: seq<seq<char>>)
    ensures |r| == |ws|
    ensures forall k :: 0 <= k < |ws| ==> r[k] == CommonUtils.MapChars(ws[k], '\\', "\\\\")
  {
    if |ws| == 0 then [] else [CommonUtils.MapChars(ws[0], '\\', "\\\\")] + DoubleBackslashes(ws[1..])
  }

  /** The completion post-processing: applies only to a "completion" line of two or more words. */
  function EscapeCompletion(words: seq<seq<char>>, escape: bool): seq<seq<char>>
  {
    if escape && |words| > 1 && words[0] == "completion" then [words[0]] + DoubleBackslashes(words[1..])
    else words
  }

  /** What `getlistOfWords(line, escape, ignoreTrailingSpaces)` returns. */
  function Words(line: seq<char>, escape: bool, ignoreTrailing: bool): seq<seq<char>>
  {
    EscapeCompletion(WordsFrom(CStr(line), 0, ignoreTrailing), escape)
  }

  lemma AtCStr(t: seq<char>)
    requires NUL !in t
    ensures forall k :: At(t, k) == NUL <==> !(0 <= k < |t|)
  {
    forall k | 0 <= k < |t|
      ensures At(t, k) != NUL
    {
      assert t[k] in t;
    }
  }

  /** The inner loop of a quoted word, whose chunks restart at each backslash. */
  method ReadQuoted(t: seq<char>, start: nat, q: char) returns (word: seq<char>, next: nat)
    requires NUL !in t && 0 < start <= |t|
    requires q == '"' || q == '\''
    ensures word == t[start..QuoteEnd(t, start, q)]
    ensures next == (if QuoteEnd(t, start, q) < |t| then QuoteEnd(t, start, q) + 1 else QuoteEnd(t, start, q))
  {
    AtCStr(t);
    var p: nat := start;
    var w: nat := start;
    word := [];
    while true
      invariant start <= w <= p <= |t|
      invariant word == t[start..w]
      invariant QuoteEnd(t, p, q) == QuoteEnd(t, start, q)
      decreases |t| - p
    {
      var c := At(t, p);
      if c == q || c == '\\' || c == NUL {
        assert t[start..p] == t[start..w] + t[w..p];
        word := word + t[w..p];
        if c == NUL {
          next := p;
          return;
        }
        p := p + 1;
        if c == q {
          next := p;
          return;
        }
        w := p - 1;
      } else {
        p := p + 1;
      }
    }
  }

  /** The unquoted-word scan, with the do-while that skips a quoted part. */
  method ReadUnquoted(t: seq<char>, start: nat) returns (i: nat)
    requires NUL !in t && start <= |t|
    ensures i == WordEnd(t, start, start)
  {
    AtCStr(t);
    i := start;
    var prev: nat := start;
    while At(t, i) != NUL && !(At(t, i) == ' ' && At(t, prev) != '\\')
      invariant start <= i <= |t|
      invariant WordEnd(t, i, prev) == WordEnd(t, start, start)
      decreases |t| - i
    {
      ghost var i0 := i;
      if At(t, i) == '"' && At(t, i + 1) != NUL {
        i := i + 1;
        while At(t, i) != '"' && At(t, i + 1) != NUL
          invariant i0 < i < |t|
          invariant ClosingQuote(t, i) == ClosingQuote(t, i0 + 1)
          decreases |t| - i
        {
          i := i + 1;
        }
      }
      prev := i;
      i := i + 1;
    }
  }

  /** One step of the reference definition, from the first non-blank position j. */
  lemma WordsFromStep(t: seq<char>, i: nat, j: nat, ignoreTrailing: bool)
    requires i <= j < |t| && SkipBlanks(t, i, ignoreTrailing) == j
    ensures WordsFrom(t, i, ignoreTrailing) == [NextWord(t, j).0] + WordsFrom(t, NextWord(t, j).1, ignoreTrailing)
  {
  }

  lemma WordsFromEnd(t: seq<char>, i: nat, ignoreTrailing: bool)
    requires i <= |t| && SkipBlanks(t, i, ignoreTrailing) == |t|
    ensures WordsFrom(t, i, ignoreTrailing) == []
  {
  }

  lemma NextWordIs(t: seq<char>, j: nat, word: seq<char>, next: nat)
    requires j < |t|
    requires (t[j] == '"' || t[j] == '\'') ==>
               var e := QuoteEnd(t, j + 1, t[j]);
               word == t[j + 1..e] && next == if e < |t| then e + 1 else e
    requires !(t[j] == '"' || t[j] == '\'') ==>
               var k := SkipSpaceChars(t, j);
               next == WordEnd(t, k, k) && word == t[k..next]
    ensures NextWord(t, j) == (word, next)
  {
  }

  /** The loop that skips leading blank space. */
  method SkipBlankRun(t: seq<char>, start: nat, ignoreTrailingSpaces: bool) returns (i: nat)
    requires NUL !in t && start <= |t|
    ensures i == SkipBlanks(t, start, ignoreTrailingSpaces)
  {
    AtCStr(t);
    i := start;
    while IsBlank(At(t, i)) && (ignoreTrailingSpaces || At(t, i + 1) != NUL)
      invariant start <= i <= |t|
      invariant SkipBlanks(t, i, ignoreTrailingSpaces) == SkipBlanks(t, start, ignoreTrailingSpaces)
      decreases |t| - i
    {
      i := i + 1;
    }
  }

  /** One quoted or regular word read from the non-blank position j. */
  method ReadWord(t: seq<char>, j: nat) returns (word: seq<char>, i: nat)
    requires NUL !in t && j < |t|
    ensures (word, i) == NextWord(t, j)
  {
    AtCStr(t);
    var c := t[j];
    if c == '"' || c == '\'' {
      word, i := ReadQuoted(t, j + 1, c);
    } else {
      i := j;
      while At(t, i) == ' '
        invariant j <= i <= |t|
        invariant SkipSpaceChars(t, i) == SkipSpaceChars(t, j)
        decreases |t| - i
      {
        i := i + 1;
      }
      var w := i;
      i := ReadUnquoted(t, w);
      word := t[w..i];
    }
    NextWordIs(t, j, word, i);
  }

  /** The word loop of getlistOfWords over the characters of the C string. */
  method SplitWords(t: seq<char>, ignoreTrailingSpaces: bool) returns (words: seq<seq<char>>)
    requires NUL !in t
    ensures words == WordsFrom(t, 0, ignoreTrailingSpaces)
  {
    AtCStr(t);
    ghost var target := WordsFrom(t, 0, ignoreTrailingSpaces);
    words := [];
    var i: nat := 0;
    while true
      invariant i <= |t|
      invariant words + WordsFrom(t, i, ignoreTrailingSpaces) == target
      decreases |t| - i
    {
      var j := SkipBlankRun(t, i, ignoreTrailingSpaces);
      if At(t, j) == NUL {
        WordsFromEnd(t, i, ignoreTrailingSpaces);
        break;
      }
      var word, next := ReadWord(t, j);
      WordsFromStep(t, i, j, ignoreTrailingSpaces);
      assert words + [word] + WordsFrom(t, next, ignoreTrailingSpaces) == words + WordsFrom(t, i, ignoreTrailingSpaces);
      words := words + [word];
      i := next;
    }
  }

  /** getlistOfWords (src/megacmdcommonutils.cpp:390-491). */
  method GetListOfWords(line: seq<char>, escapeBackSlashInCompletion: bool, ignoreTrailingSpaces: bool)
    returns (words: seq<seq<char>>)
    ensures words == Words(line, escapeBackSlashInCompletion, ignoreTrailingSpaces)
  {
    words := SplitWords(CStr(line), ignoreTrailingSpaces);
    words := EscapeCompletionWords(words, escapeBackSlashInCompletion);
  }

  /** The final loop, replacing "\" by "\\" in every word after "completion". */
  method EscapeCompletionWords(ws: seq<seq<char>>, escape: bool) returns (words: seq<seq<char>>)
    ensures words == EscapeCompletion(ws, escape)
  {
    words := ws;
    if escape && |words| > 1 && words[0] == "completion" {
      var i := 1;
      while i < |words|
        invariant 1 <= i <= |words| == |ws|
        invariant words[0] == ws[0]
        invariant forall k :: 1 <= k < i ==> words[k] == CommonUtils.MapChars(ws[k], '\\', "\\\\")
        invariant forall k :: i <= k < |words| ==> words[k] == ws[k]
      {
        var r := CommonUtils.ReplaceAll(words[i], "\\", "\\\\");
        CommonUtils.ReplaceAllSingleChar(words[i], '\\', "\\\\");
        words := words[i := r];
        i := i + 1;
      }
      assert words == [ws[0]] + DoubleBackslashes(ws[1..]);
    }
  }

  // ---------------------------------------------------------------------
  // Properties

  /** A character that keeps an unquoted word going. */
  predicate InWord(c: char)
  {
    c != ' ' && c != '"' && c != NUL
  }

  /** A word that splits back to itself: no space, no quote, no leading blank, no final backslash. */
  predicate PlainWord(w: seq<char>)
  {
    |w| > 0 && (forall k :: 0 <= k < |w| ==> InWord(w[k]))
    && !IsBlank(w[0]) && w[0] != '\'' && w[|w| - 1] != '\\'
  }

  lemma {:induction false} ScanInWord(t: seq<char>, i: nat, prev: nat, n: nat)
    requires 1 <= n && i + n <= |t|
    requires forall k :: i <= k < i + n ==> InWord(t[k])
    ensures WordEnd(t, i, prev) == WordEnd(t, i + n, i + n - 1)
    decreases n
  {
    if n > 1 {
      ScanInWord(t, i + 1, i, n - 1);
    }
  }

  /** The word read at j when it is neither quoted nor starts with a space. */
  lemma UnquotedNext(t: seq<char>, j: nat)
    requires j < |t| && t[j] != ' ' && t[j] != '"' && t[j] != '\''
    ensures NextWord(t, j) == (t[j..WordEnd(t, j, j)], WordEnd(t, j, j))
  {
    assert SkipSpaceChars(t, j) == j;
  }

  /** From a position the skip loop stops at, the next word is read there. */
  lemma WordsAt(t: seq<char>, j: nat, ignoreTrailing: bool)
    requires j < |t| && !IsBlank(t[j])
    ensures WordsFrom(t, j, ignoreTrailing) == [NextWord(t, j).0] + WordsFrom(t, NextWord(t, j).1, ignoreTrailing)
  {
    assert SkipBlanks(t, j, ignoreTrailing) == j;
    WordsFromStep(t, j, j, ignoreTrailing);
  }

  /** A blank followed by a character the skip loop stops at is skipped. */
  lemma BlankStep(t: seq<char>, k: nat, ignoreTrailing: bool)
    requires k + 1 < |t| && IsBlank(t[k]) && !IsBlank(t[k + 1])
    ensures WordsFrom(t, k, ignoreTrailing) == WordsFrom(t, k + 1, ignoreTrailing)
  {
    assert SkipBlanks(t, k, ignoreTrailing) == k + 1;
    assert SkipBlanks(t, k + 1, ignoreTrailing) == k + 1;
  }

  /** A plain word followed by the end or a space is read whole. */
  lemma PlainWordAt(t: seq<char>, i: nat, w: seq<char>, ignoreTrailing: bool)
    requires PlainWord(w) && i + |w| <= |t| && t[i..i + |w|] == w
    requires i + |w| == |t| || t[i + |w|] == ' '
    ensures WordsFrom(t, i, ignoreTrailing) == [w] + WordsFrom(t, i + |w|, ignoreTrailing)
  {
    var a := i + |w|;
    forall k | i <= k < a
      ensures InWord(t[k])
    {
      assert t[k] == t[i..a][k - i];
    }
    assert t[i] == w[0] && t[a - 1] == w[|w| - 1];
    ScanInWord(t, i, i, |w|);
    if a < |t| {
      assert At(t, a - 1) == w[|w| - 1];
    }
    assert WordEnd(t, a, a - 1) == a;
    UnquotedNext(t, i);
    assert NextWord(t, i) == (w, a);
    WordsAt(t, i, ignoreTrailing);
  }

  predicate AllPlain(ws: seq<seq<char>>)
  {
    forall m :: 0 <= m < |ws| ==> PlainWord(ws[m])
  }

  /** Reading a plain word and the single space after it. */
  lemma PlainWordThenSpace(t: seq<char>, i: nat, w: seq<char>, next: seq<char>, ignoreTrailing: bool)
    requires PlainWord(w) && |next| > 0 && !IsBlank(next[0])
    requires i + |w| + 1 + |next| <= |t|
    requires t[i..i + |w| + 1 + |next|] == w + " " + next
    ensures WordsFrom(t, i, ignoreTrailing) == [w] + WordsFrom(t, i + |w| + 1, ignoreTrailing)
  {
    var a := i + |w|;
    var s := t[i..a + 1 + |next|];
    assert t[i..a] == s[..|w|] == w;
    assert t[a] == s[|w|] == ' ';
    assert t[a + 1] == s[|w| + 1] == next[0];
    PlainWordAt(t, i, w, ignoreTrailing);
    BlankStep(t, a, ignoreTrailing);
  }

  /** How a join of two or more plain words lies in t between i and e. */
  lemma JoinLayout(t: seq<char>, i: nat, e: nat, ws: seq<seq<char>>)
    requires |ws| >= 2 && AllPlain(ws)
    requires i <= e <= |t| && t[i..e] == CommonUtils.JoinWith(ws, " ")
    ensures var n := CommonUtils.JoinWith(ws[1..], " ");
            PlainWord(ws[0]) && |n| > 0 && !IsBlank(n[0])
            && i + |ws[0]| + 1 + |n| == e
            && t[i..i + |ws[0]| + 1 + |n|] == ws[0] + " " + n
            && t[i + |ws[0]| + 1..e] == n
    ensures AllPlain(ws[1..])
  {
    var w := ws[0];
    assert PlainWord(w);
    var ws' := ws[1..];
    var next := CommonUtils.JoinWith(ws', " ");
    assert AllPlain(ws') by {
      forall m | 0 <= m < |ws'|
        ensures PlainWord(ws'[m])
      {
        assert ws'[m] == ws[m + 1];
      }
    }
    JoinHead(ws', " ");
    assert t[i..e] == w + " " + next;
    assert t[i + |w| + 1..e] == t[i..e][|w| + 1..];
  }

  /** The first plain word of a join of two or more, and where the rest of the join starts. */
  lemma JoinedStep(t: seq<char>, i: nat, e: nat, ws: seq<seq<char>>, ignoreTrailing: bool)
    requires |ws| >= 2 && AllPlain(ws)
    requires i <= e <= |t| && t[i..e] == CommonUtils.JoinWith(ws, " ")
    ensures i + |ws[0]| + 1 <= e
    ensures AllPlain(ws[1..])
    ensures t[i + |ws[0]| + 1..e] == CommonUtils.JoinWith(ws[1..], " ")
    ensures WordsFrom(t, i, ignoreTrailing) == [ws[0]] + WordsFrom(t, i + |ws[0]| + 1, ignoreTrailing)
  {
    JoinLayout(t, i, e, ws);
    WordThenJoin(t, i, ws[0], CommonUtils.JoinWith(ws[1..], " "), e, ignoreTrailing);
  }

  /** A plain word, a space and a non-empty join ending at e: the word is read first. */
  lemma WordThenJoin(t: seq<char>, i: nat, w: seq<char>, n: seq<char>, e: nat, ignoreTrailing: bool)
    requires PlainWord(w) && |n| > 0 && !IsBlank(n[0])
    requires i + |w| + 1 + |n| == e <= |t|
    requires t[i..e] == w + " " + n
    ensures WordsFrom(t, i, ignoreTrailing) == [w] + WordsFrom(t, i + |w| + 1, ignoreTrailing)
  {
    PlainWordThenSpace(t, i, w, n, ignoreTrailing);
  }

  lemma JoinedOne(t: seq<char>, i: nat, e: nat, ws: seq<seq<char>>, ignoreTrailing: bool)
    requires |ws| == 1 && AllPlain(ws)
    requires i <= e <= |t| && t[i..e] == CommonUtils.JoinWith(ws, " ")
    requires e == |t| || t[e] == ' '
    ensures WordsFrom(t, i, ignoreTrailing) == ws + WordsFrom(t, e, ignoreTrailing)
  {
    assert PlainWord(ws[0]);
    PlainWordAt(t, i, ws[0], ignoreTrailing);
    assert [ws[0]] == ws;
  }

  /**
   * Plain words joined by single spaces between positions i and e come back
   * one by one, when e is the end or a space.
   */
  lemma {:induction false} JoinedPlainWords(t: seq<char>, i: nat, e: nat, ws: seq<seq<char>>, ignoreTrailing: bool)
    requires |ws| >= 1 && AllPlain(ws)
    requires i <= e <= |t| && t[i..e] == CommonUtils.JoinWith(ws, " ")
    requires e == |t| || t[e] == ' '
    ensures WordsFrom(t, i, ignoreTrailing) == ws + WordsFrom(t, e, ignoreTrailing)
    decreases |ws|
  {
    if |ws| == 1 {
      JoinedOne(t, i, e, ws, ignoreTrailing);
    } else {
      JoinedStep(t, i, e, ws, ignoreTrailing);
      var j := i + |ws[0]| + 1;
      JoinedPlainWords(t, j, e, ws[1..], ignoreTrailing);
      ghost var B := WordsFrom(t, j, ignoreTrailing);
      ghost var C := WordsFrom(t, e, ignoreTrailing);
      assert B == ws[1..] + C;
      ConsAppend(ws, C);
    }
  }

  lemma ConsAppend<T>(ws: seq<T>, after: seq<T>)
    requires |ws| >= 1
    ensures [ws[0]] + (ws[1..] + after) == ws + after
  {
  }

  /** A join of plain words starts with the first word. */
  lemma JoinHead(ws: seq<seq<char>>, sep: seq<char>)
    requires |ws| >= 1 && AllPlain(ws)
    ensures var j := CommonUtils.JoinWith(ws, sep); |j| >= |ws[0]| && j[..|ws[0]|] == ws[0]
    ensures var j := CommonUtils.JoinWith(ws, sep); |j| > 0 && !IsBlank(j[0])
  {
    assert PlainWord(ws[0]);
  }

  lemma {:induction false} SkipTrailingSpaces(t: seq<char>, k: nat, ignoreTrailing: bool)
    requires k < |t| && forall m :: k <= m < |t| ==> t[m] == ' '
    ensures SkipBlanks(t, k, ignoreTrailing) == if ignoreTrailing then |t| else |t| - 1
    decreases |t| - k
  {
    if k + 1 < |t| {
      SkipTrailingSpaces(t, k + 1, ignoreTrailing);
    }
  }

  /** Trailing spaces give one final "" unless ignoreTrailingSpaces is set. */
  lemma TrailingSpaces(t: seq<char>, k: nat, ignoreTrailing: bool)
    requires k < |t| && forall m :: k <= m < |t| ==> t[m] == ' '
    ensures WordsFrom(t, k, ignoreTrailing) == if ignoreTrailing then [] else [""]
  {
    SkipTrailingSpaces(t, k, ignoreTrailing);
    if ignoreTrailing {
      WordsFromEnd(t, k, ignoreTrailing);
    } else {
      var j := |t| - 1;
      assert t[j] == ' ';
      assert SkipSpaceChars(t, j) == |t|;
      NextWordIs(t, j, [], |t|);
      LastWord(t, k, j, [], ignoreTrailing);
    }
  }

  /** A word that reaches the end of the line is the last one. */
  lemma LastWord(t: seq<char>, i: nat, j: nat, word: seq<char>, ignoreTrailing: bool)
    requires i <= j < |t| && SkipBlanks(t, i, ignoreTrailing) == j
    requires NextWord(t, j) == (word, |t|)
    ensures WordsFrom(t, i, ignoreTrailing) == [word]
  {
    WordsFromStep(t, i, j, ignoreTrailing);
    WordsFromEnd(t, |t|, ignoreTrailing);
  }

  /**
   * Splitting a line of plain words, separated by single spaces and followed
   * by m spaces, returns the words, plus a final "" when there are trailing
   * spaces and they are not ignored.
   */
  lemma SplitPlainLine(ws: seq<seq<char>>, m: nat, ignoreTrailing: bool)
    requires |ws| >= 1 && AllPlain(ws)
    ensures WordsFrom(CommonUtils.JoinWith(ws, " ") + CommonUtils.Spaces(m), 0, ignoreTrailing)
            == ws + (if m > 0 && !ignoreTrailing then [""] else [])
  {
    var j := CommonUtils.JoinWith(ws, " ");
    var t := j + CommonUtils.Spaces(m);
    assert t[0..|j|] == j;
    JoinedPlainWords(t, 0, |j|, ws, ignoreTrailing);
    if m > 0 {
      assert t[|j|] == CommonUtils.Spaces(m)[0];
      TrailingSpaces(t, |j|, ignoreTrailing);
    } else {
      assert WordsFrom(t, |t|, ignoreTrailing) == [];
    }
  }

  /** A word in matching quotes comes back without them, whatever it holds. */
  lemma QuotedWord(t: seq<char>, i: nat, q: char, w: seq<char>, rest: seq<char>, ignoreTrailing: bool)
    requires q == '"' || q == '\''
    requires i <= |t| && t[i..] == [q] + w + [q] + rest && q !in w
    ensures i + |w| + 2 <= |t|
    ensures WordsFrom(t, i, ignoreTrailing) == [w] + WordsFrom(t, i + |w| + 2, ignoreTrailing)
  {
    var c := i + 1 + |w|;
    assert t[i] == q && t[c] == q;
    assert t[i + 1..c] == w;
    forall k | i + 1 <= k < c
      ensures t[k] != q
    {
      assert t[k] == w[k - i - 1];
    }
    QuoteEndAt(t, i + 1, q, c);
  }

  /** A quote that is never closed takes the rest of the line, spaces included. */
  lemma UnmatchedQuote(t: seq<char>, i: nat, q: char, w: seq<char>, ignoreTrailing: bool)
    requires q == '"' || q == '\''
    requires i <= |t| && t[i..] == [q] + w && q !in w
    ensures WordsFrom(t, i, ignoreTrailing) == [w]
  {
    assert t[i] == q;
    assert t[i + 1..] == w;
    forall k | i + 1 <= k < |t|
      ensures t[k] != q
    {
      assert t[k] == w[k - i - 1];
    }
    QuoteEndAt(t, i + 1, q, |t|);
    assert SkipBlanks(t, i, ignoreTrailing) == i;
    NextWordIs(t, i, w, |t|);
    LastWord(t, i, i, w, ignoreTrailing);
  }

  /** The head of an unquoted word that stops at nothing before reaching a '"'. */
  predicate WordHead(p: seq<char>)
  {
    |p| > 0 && (forall k :: 0 <= k < |p| ==> InWord(p[k])) && !IsBlank(p[0]) && p[0] != '\''
  }

  lemma {:induction false} ClosingQuoteAt(t: seq<char>, j: nat, c: nat)
    requires j <= c < |t| && t[c] == '"'
    requires forall k :: j <= k < c ==> t[k] != '"'
    ensures ClosingQuote(t, j) == c
    decreases c - j
  {
    if j < c {
      ClosingQuoteAt(t, j + 1, c);
    }
  }

  lemma {:induction false} ClosingQuoteMissing(t: seq<char>, j: nat)
    requires j < |t| && forall k :: j <= k < |t| ==> t[k] != '"'
    ensures ClosingQuote(t, j) == |t| - 1
    decreases |t| - j
  {
    if j + 1 < |t| {
      ClosingQuoteMissing(t, j + 1);
    }
  }

  /** The characters of a word head sitting at i in t. */
  lemma HeadChars(t: seq<char>, i: nat, p: seq<char>)
    requires WordHead(p) && i + |p| <= |t| && t[i..i + |p|] == p
    ensures forall k :: i <= k < i + |p| ==> InWord(t[k])
    ensures t[i] != ' ' && t[i] != '"' && t[i] != '\'' && !IsBlank(t[i])
  {
    forall k | i <= k < i + |p|
      ensures InWord(t[k])
    {
      assert t[k] == t[i..i + |p|][k - i];
    }
    assert t[i] == p[0];
  }

  /** Where the pieces of `p"v"` lie when that text sits at t[i..e]. */
  lemma InnerQuotedLayout(t: seq<char>, i: nat, e: nat, p: seq<char>, v: seq<char>)
    requires WordHead(p) && '"' !in v
    requires i <= e <= |t| && t[i..e] == p + "\"" + v + "\""
    ensures i + |p| + |v| + 2 == e
    ensures forall k :: i <= k < i + |p| ==> InWord(t[k])
    ensures t[i] != ' ' && t[i] != '"' && t[i] != '\'' && !IsBlank(t[i])
    ensures t[i + |p|] == '"' && t[e - 1] == '"'
    ensures forall k :: i + |p| + 1 <= k < e - 1 ==> t[k] != '"'
  {
    var a := i + |p|;
    assert t[i..a] == t[i..e][..|p|];
    HeadChars(t, i, p);
    assert t[a] == t[i..e][|p|];
    assert t[e - 1] == t[i..e][|p| + 1 + |v|];
    forall k | a + 1 <= k < e - 1
      ensures t[k] != '"'
    {
      assert t[k] == t[i..e][k - i] == v[k - a - 1];
    }
  }

  /** The scan of an unquoted word `p"v"`: over the head, through the quotes, up to e. */
  lemma InnerQuotedScan(t: seq<char>, i: nat, a: nat, e: nat)
    requires i < a && a + 1 < e <= |t|
    requires forall k :: i <= k < a ==> InWord(t[k])
    requires t[a] == '"' && t[e - 1] == '"'
    requires forall k :: a + 1 <= k < e - 1 ==> t[k] != '"'
    requires e == |t| || t[e] == ' '
    ensures WordEnd(t, i, i) == e
  {
    ScanInWord(t, i, i, a - i);
    ClosingQuoteAt(t, a + 1, e - 1);
    assert WordEnd(t, e, e - 1) == e;
  }

  lemma InnerQuotedEnd(t: seq<char>, i: nat, e: nat, p: seq<char>, v: seq<char>)
    requires WordHead(p) && '"' !in v
    requires i <= e <= |t| && t[i..e] == p + "\"" + v + "\""
    requires e == |t| || t[e] == ' '
    ensures WordEnd(t, i, i) == e
    ensures t[i] != ' ' && t[i] != '"' && t[i] != '\'' && !IsBlank(t[i])
  {
    InnerQuotedLayout(t, i, e, p, v);
    InnerQuotedScan(t, i, i + |p|, e);
  }

  /** `--opt="a b"`: a quoted part inside an unquoted word keeps its quotes and spaces. */
  lemma InnerQuoted(t: seq<char>, i: nat, e: nat, p: seq<char>, v: seq<char>, ignoreTrailing: bool)
    requires WordHead(p) && '"' !in v
    requires i <= e <= |t| && t[i..e] == p + "\"" + v + "\""
    requires e == |t| || t[e] == ' '
    ensures WordsFrom(t, i, ignoreTrailing) == [p + "\"" + v + "\""] + WordsFrom(t, e, ignoreTrailing)
  {
    InnerQuotedEnd(t, i, e, p, v);
    UnquotedNext(t, i);
    WordsAt(t, i, ignoreTrailing);
  }

  /** Where the pieces of `p"r` lie when that text ends t at i. */
  lemma InnerUnmatchedLayout(t: seq<char>, i: nat, p: seq<char>, r: seq<char>)
    requires WordHead(p) && '"' !in r
    requires i <= |t| && t[i..] == p + "\"" + r
    ensures i + |p| < |t|
    ensures forall k :: i <= k < i + |p| ==> InWord(t[k])
    ensures t[i] != ' ' && t[i] != '"' && t[i] != '\'' && !IsBlank(t[i])
    ensures t[i + |p|] == '"'
    ensures forall k :: i + |p| + 1 <= k < |t| ==> t[k] != '"'
  {
    var a := i + |p|;
    assert t[i..a] == t[i..][..|p|];
    HeadChars(t, i, p);
    assert t[a] == t[i..][|p|];
    forall k | a + 1 <= k < |t|
      ensures t[k] != '"'
    {
      assert t[k] == t[i..][k - i] == r[k - a - 1];
    }
  }

  /** The scan of an unquoted word whose '"' at a is never closed runs to the end. */
  lemma InnerUnmatchedScan(t: seq<char>, i: nat, a: nat)
    requires i < a < |t|
    requires forall k :: i <= k < a ==> InWord(t[k])
    requires t[a] == '"'
    requires forall k :: a + 1 <= k < |t| ==> t[k] != '"'
    ensures WordEnd(t, i, i) == |t|
  {
    ScanInWord(t, i, i, a - i);
    if a + 1 < |t| {
      ClosingQuoteMissing(t, a + 1);
      assert WordEnd(t, |t|, |t| - 1) == |t|;
    }
  }

  lemma InnerUnmatchedEnd(t: seq<char>, i: nat, p: seq<char>, r: seq<char>)
    requires WordHead(p) && '"' !in r
    requires i <= |t| && t[i..] == p + "\"" + r
    ensures i < |t| && WordEnd(t, i, i) == |t|
    ensures t[i] != ' ' && t[i] != '"' && t[i] != '\'' && !IsBlank(t[i])
  {
    InnerUnmatchedLayout(t, i, p, r);
    InnerUnmatchedScan(t, i, i + |p|);
  }

  /** `--opt="x`: a '"' never closed inside an unquoted word is kept, with the rest of the line. */
  lemma InnerUnmatched(t: seq<char>, i: nat, p: seq<char>, r: seq<char>, ignoreTrailing: bool)
    requires WordHead(p) && '"' !in r
    requires i <= |t| && t[i..] == p + "\"" + r
    ensures WordsFrom(t, i, ignoreTrailing) == [t[i..]]
  {
    InnerUnmatchedEnd(t, i, p, r);
    UnquotedNext(t, i);
    assert SkipBlanks(t, i, ignoreTrailing) == i;
    assert t[i..WordEnd(t, i, i)] == t[i..];
    LastWord(t, i, i, t[i..], ignoreTrailing);
  }

  /** Words are untouched unless the line is a "completion" request with the flag set. */
  lemma EscapeOnlyCompletion(words: seq<seq<char>>, escape: bool)
    ensures !escape || |words| <= 1 || words[0] != "completion" ==> EscapeCompletion(words, escape) == words
    ensures escape && |words| > 1 && words[0] == "completion" ==>
              var r := EscapeCompletion(words, escape);
              |r| == |words| && r[0] == words[0]
              && forall k :: 1 <= k < |words| ==> r[k] == CommonUtils.MapChars(words[k], '\\', "\\\\")
  {
  }
}
