/**
 * String, vector and small-object utilities of megacmdcommonutils.cpp and
 * megacmdcommonutils.h: split, trims, replace/replaceAll, toInteger,
 * joinStrings, link and e-mail checks, property trimming, flag and option
 * lookup, numberOfDigits, the boolean folds, vector concatenation, the
 * runtime directory default and HammeringLimiter.
 */
module CommonUtils {
  import opened Wrappers
  import opened Text

  // ---------------------------------------------------------------------
  // split

  /** A token is kept only when it is not empty. */
  function Keep(t: seq<char>): (r: seq<seq<char>>)
    ensures r == (if |t| > 0 then [t] else [])
  {
    if |t| > 0 then [t] else []
  }

  /** Reference definition of splitting at every occurrence of a non-empty pattern. */
  function Tokens(s: seq<char>, p: seq<char>): seq<seq<char>>
    requires |p| > 0
    decreases |s|
  {
    match Find(s, p, 0)
    case None => Keep(s)
    case Some(e) => Keep(s[..e]) + Tokens(s[e + |p|..], p)
  }

  /** What `split(input, pattern)` returns. */
  function SplitSpec(input: seq<char>, pattern: seq<char>): seq<seq<char>>
  {
    if |input| == 0 then []
    else if |pattern| == 0 then [input]
    else Tokens(input, pattern)
  }

  function ShiftBy(r: Option<nat>, d: nat): Option<nat>
  {
    match r
    case None => None
    case Some(k) => Some(k + d)
  }

  lemma {:induction false} FindShiftFrom(s: seq<char>, p: seq<char>, start: nat, k: nat)
    requires start <= |s|
    ensures Find(s, p, start + k) == ShiftBy(Find(s[start..], p, k), start)
    decreases |s| - start - k
  {
    var t := s[start..];
    if start + k + |p| <= |s| {
      assert s[start + k..start + k + |p|] == t[k..k + |p|];
      MatchesAtIff(s, p, start + k);
      MatchesAtIff(t, p, k);
      if s[start + k..start + k + |p|] != p {
        FindShiftFrom(s, p, start, k + 1);
      }
    }
  }

  /** `s.find(p, start)` agrees with searching the suffix from start. */
  lemma FindShift(s: seq<char>, p: seq<char>, start: nat)
    requires start <= |s|
    ensures Find(s, p, start) == ShiftBy(Find(s[start..], p, 0), start)
  {
    FindShiftFrom(s, p, start, 0);
  }

  lemma TokensSome(r: seq<char>, p: seq<char>, j: nat, head: seq<char>, tail: seq<char>)
    requires |p| > 0 && Find(r, p, 0) == Some(j) && head == r[..j] && tail == r[j + |p|..]
    ensures Tokens(r, p) == Keep(head) + Tokens(tail, p)
  {
  }

  /** One step of the split loop, stated on offsets into the input. */
  lemma TokensFrom(s: seq<char>, p: seq<char>, start: nat)
    requires |p| > 0 && start <= |s|
    ensures Find(s, p, start).None? ==> Tokens(s[start..], p) == Keep(s[start..])
    ensures Find(s, p, start).Some? ==>
              var e := Find(s, p, start).value;
              Tokens(s[start..], p) == Keep(s[start..e]) + Tokens(s[e + |p|..], p)
  {
    FindShift(s, p, start);
    var rest := s[start..];
    match Find(rest, p, 0)
    case None =>
    case Some(k) =>
      SliceShift(s, start, k, |p|);
      TokensSome(rest, p, k, s[start..k + start], s[k + start + |p|..]);
  }

  /** The tokens from offset start on, as the loop of `split` finds them. */
  function TokensAt(s: seq<char>, p: seq<char>, start: nat): seq<seq<char>>
    requires |p| > 0 && start <= |s|
    decreases |s| - start
  {
    match Find(s, p, start)
    case None => Keep(s[start..])
    case Some(e) => Keep(s[start..e]) + TokensAt(s, p, e + |p|)
  }

  /** Splitting from an offset is splitting the suffix from there. */
  lemma {:induction false} TokensAtSuffix(s: seq<char>, p: seq<char>, start: nat)
    requires |p| > 0 && start <= |s|
    ensures TokensAt(s, p, start) == Tokens(s[start..], p)
    decreases |s| - start
  {
    TokensFrom(s, p, start);
    match Find(s, p, start)
    case None =>
    case Some(e) => TokensAtSuffix(s, p, e + |p|);
  }

  /** For a non-empty input and pattern, the result is the tokens from offset 0. */
  lemma SplitSpecAt(input: seq<char>, pattern: seq<char>)
    requires |input| > 0 && |pattern| > 0
    ensures SplitSpec(input, pattern) == TokensAt(input, pattern, 0)
  {
    TokensAtSuffix(input, pattern, 0);
    assert input[0..] == input;
  }

  /** The loop of `split` (src/megacmdcommonutils.cpp:316-343). */
  method Split(input: seq<char>, pattern: seq<char>) returns (tokens: seq<seq<char>>)
    ensures tokens == SplitSpec(input, pattern)
  {
    tokens := [];
    if |input| == 0 {
      return;
    }
    if |pattern| == 0 {
      tokens := [input];
      return;
    }
    SplitSpecAt(input, pattern);
    ghost var target := TokensAt(input, pattern, 0);
    var start := 0;
    while true
      invariant start <= |input|
      invariant tokens + TokensAt(input, pattern, start) == target
      decreases |input| - start
    {
      var end := Find(input, pattern, start);
      if end.None? {
        assert TokensAt(input, pattern, start) == Keep(input[start..]);
        tokens := tokens + Keep(input[start..]);
        return;
      }
      var e := end.value;
      AccumulateStep(tokens, Keep(input[start..e]), TokensAt(input, pattern, e + |pattern|), TokensAt(input, pattern, start), target);
      tokens := tokens + Keep(input[start..e]);
      start := e + |pattern|;
    }
  }

  lemma {:induction false} TokensNonEmpty(s: seq<char>, p: seq<char>)
    requires |p| > 0
    ensures forall t :: t in Tokens(s, p) ==> |t| > 0
    decreases |s|
  {
    match Find(s, p, 0)
    case None =>
    case Some(e) => TokensNonEmpty(s[e + |p|..], p);
  }

  lemma {:induction false} TokensAvoidPattern(s: seq<char>, p: seq<char>)
    requires |p| > 0
    ensures forall t :: t in Tokens(s, p) ==> !Contains(t, p)
    decreases |s|
  {
    match Find(s, p, 0)
    case None =>
    case Some(e) =>
      TokensAvoidPattern(s[e + |p|..], p);
      var t := s[..e];
      forall k | 0 <= k && k + |p| <= e
        ensures OccursAt(t, p, k) == OccursAt(s, p, k)
      {
        assert t[k..k + |p|] == s[k..k + |p|];
      }
      assert !Contains(t, p);
  }

  /** `split` never yields an empty token, and no token contains the pattern. */
  lemma SplitTokens(input: seq<char>, pattern: seq<char>)
    ensures forall t :: t in SplitSpec(input, pattern) ==> |t| > 0
    ensures |pattern| > 0 ==> forall t :: t in SplitSpec(input, pattern) ==> !Contains(t, pattern)
  {
    if |input| > 0 && |pattern| > 0 {
      TokensNonEmpty(input, pattern);
      TokensAvoidPattern(input, pattern);
    }
  }

  /** Empty input yields no token; an empty pattern yields the input alone. */
  lemma SplitEdgeCases(input: seq<char>, pattern: seq<char>)
    ensures |input| == 0 ==> SplitSpec(input, pattern) == []
    ensures |input| > 0 && |pattern| == 0 ==> SplitSpec(input, pattern) == [input]
  {
  }

  /** Joining with a separator character, the inverse partner of `split`. */
  function JoinWith(ts: seq<seq<char>>, sep: seq<char>): seq<char>
  {
    if |ts| == 0 then [] else if |ts| == 1 then ts[0] else ts[0] + sep + JoinWith(ts[1..], sep)
  }

  lemma FirstOfChar(a: seq<char>, c: char, b: seq<char>)
    requires c !in a
    ensures Find(a + [c] + b, [c], 0) == Some(|a|)
  {
    var s := a + [c] + b;
    assert s[|a|..|a| + 1] == [c];
    assert OccursAt(s, [c], |a|);
    forall k | 0 <= k < |a|
      ensures !OccursAt(s, [c], k)
    {
      assert s[k..k + 1] == [a[k]];
    }
  }

  /**
   * Splitting the join of non-empty tokens that avoid a separator character
   * gives the tokens back.
   */
  lemma {:induction false} SplitJoinRoundTrip(ts: seq<seq<char>>, c: char)
    requires forall i :: 0 <= i < |ts| ==> |ts[i]| > 0 && c !in ts[i]
    ensures SplitSpec(JoinWith(ts, [c]), [c]) == ts
  {
    if |ts| == 0 {
    } else if |ts| == 1 {
      var s := ts[0];
      forall k | 0 <= k < |s|
        ensures !OccursAt(s, [c], k)
      {
        assert s[k..k + 1] == [s[k]];
      }
    } else {
      var rest := JoinWith(ts[1..], [c]);
      var s := ts[0] + [c] + rest;
      FirstOfChar(ts[0], c, rest);
      assert s[..|ts[0]|] == ts[0];
      assert s[|ts[0]| + 1..] == rest;
      SplitJoinRoundTrip(ts[1..], c);
      assert |rest| > 0 by {
        assert |ts[1..][0]| > 0;
        JoinNonEmpty(ts[1..], [c]);
      }
    }
  }

  lemma {:induction false} JoinNonEmpty(ts: seq<seq<char>>, sep: seq<char>)
    requires |ts| > 0 && |ts[0]| > 0
    ensures |JoinWith(ts, sep)| > 0
  {
  }

  // ---------------------------------------------------------------------
  // ltrim / rtrim

  /** `ltrim(s, c)`: everything from the first character other than c. */
  function LTrim(s: seq<char>, c: char): (r: seq<char>)
  {
    match FindFirstNot(s, c)
    case None => []
    case Some(p) => s[p..]
  }

  /** `ltrim` removes every leading c and nothing else. */
  lemma LTrimRemovesLeading(s: seq<char>, c: char)
    ensures exists k :: 0 <= k <= |s| && LTrim(s, c) == s[k..] && forall i :: 0 <= i < k ==> s[i] == c
    ensures |LTrim(s, c)| > 0 ==> LTrim(s, c)[0] != c
  {
    match FindFirstNot(s, c)
    case None => assert LTrim(s, c) == s[|s|..];
    case Some(p) =>
      assert 0 <= p <= |s| && LTrim(s, c) == s[p..] && forall i :: 0 <= i < p ==> s[i] == c;
  }

  /** `rtrim(s, c)` as the code computes it from `find_last_of`. */
  function RTrim(s: seq<char>, c: char): seq<char>
  {
    var last := match FindLastChar(s, c) case None => |s| case Some(p) => p;
    var last' := if last + 1 < |s| && s[last + 1] != c then |s| else last;
    s[..last']
  }

  /** `rtrim` removes exactly one trailing c when s ends with c, and nothing otherwise. */
  lemma RTrimOne(s: seq<char>, c: char)
    ensures |s| > 0 && s[|s| - 1] == c ==> RTrim(s, c) == s[..|s| - 1]
    ensures !(|s| > 0 && s[|s| - 1] == c) ==> RTrim(s, c) == s
  {
    match FindLastChar(s, c)
    case None =>
    case Some(p) =>
      if p + 1 < |s| {
        assert s[p + 1] in s[p + 1..];
      }
  }

  lemma TrimExamples()
    ensures LTrim("123456", '2') == "123456"
    ensures LTrim("123456", '1') == "23456"
    ensures RTrim("123456", '2') == "123456"
    ensures RTrim("123456", '6') == "12345"
  {
    RTrimOne("123456", '2');
    RTrimOne("123456", '6');
    assert FindFirstNot("123456", '2') == Some(0);
    assert FindFirstNot("123456", '1') == Some(1) by {
      assert FindFirstNot("23456", '1') == Some(0);
    }
  }

  // ---------------------------------------------------------------------
  // replace / replaceAll

  /** `replace(str, from, to)`: the first occurrence only; false when there is none. */
  function Replace(str: seq<char>, from: seq<char>, to: seq<char>): (r: (bool, seq<char>))
    ensures !r.0 <==> !Contains(str, from)
    ensures !r.0 ==> r.1 == str
    ensures r.0 ==> exists k :: OccursAt(str, from, k) && (forall j :: 0 <= j < k ==> !OccursAt(str, from, j))
                            && r.1 == str[..k] + to + str[k + |from|..]
  {
    match Find(str, from, 0)
    case None => (false, str)
    case Some(k) => (true, str[..k] + to + str[k + |from|..])
  }

  /**
   * Reference definition of replacing every occurrence: the search restarts
   * after the inserted text, so only the original text is scanned.
   */
  function ReplacedAll(s: seq<char>, from: seq<char>, to: seq<char>): seq<char>
    requires |from| > 0
    decreases |s|
  {
    match Find(s, from, 0)
    case None => s
    case Some(k) => s[..k] + to + ReplacedAll(s[k + |from|..], from, to)
  }

  lemma ReplacedUnfold(s: seq<char>, from: seq<char>, to: seq<char>)
    requires |from| > 0
    ensures Find(s, from, 0).None? ==> ReplacedAll(s, from, to) == s
    ensures Find(s, from, 0).Some? ==>
              var k := Find(s, from, 0).value;
              ReplacedAll(s, from, to) == s[..k] + to + ReplacedAll(s[k + |from|..], from, to)
  {
  }

  lemma SliceShift(r: seq<char>, start: nat, k: nat, n: nat)
    requires start + k + n <= |r|
    ensures r[start..][..k] == r[start..k + start]
    ensures r[start..][k + n..] == r[k + start + n..]
  {
  }

  lemma ReplacedSome(r: seq<char>, from: seq<char>, to: seq<char>, j: nat, head: seq<char>, tail: seq<char>)
    requires |from| > 0 && Find(r, from, 0) == Some(j) && head == r[..j] && tail == r[j + |from|..]
    ensures ReplacedAll(r, from, to) == head + to + ReplacedAll(tail, from, to)
  {
  }

  /** One step of the replaceAll loop, stated on offsets into the current string. */
  lemma ReplacedFrom(r: seq<char>, from: seq<char>, to: seq<char>, start: nat)
    requires |from| > 0 && start <= |r|
    ensures Find(r, from, start).None? ==> ReplacedAll(r[start..], from, to) == r[start..]
    ensures Find(r, from, start).Some? ==>
              var k := Find(r, from, start).value;
              ReplacedAll(r[start..], from, to) == r[start..k] + to + ReplacedAll(r[k + |from|..], from, to)
  {
    FindShift(r, from, start);
    var rest := r[start..];
    match Find(rest, from, 0)
    case None =>
    case Some(j) =>
      SliceShift(r, start, j, |from|);
      ReplacedSome(rest, from, to, j, r[start..j + start], r[j + start + |from|..]);
  }

  function ReplaceAt(r: seq<char>, k: nat, n: nat, to: seq<char>): seq<char>
    requires k + n <= |r|
  {
    r[..k] + to + r[k + n..]
  }

  /** The loop invariant of replaceAll survives one replacement. */
  lemma ReplaceInvariantStep(r: seq<char>, from: seq<char>, to: seq<char>, start: nat, target: seq<char>)
    requires |from| > 0 && start <= |r|
    requires r[..start] + ReplacedAll(r[start..], from, to) == target
    requires Find(r, from, start).Some?
    ensures var k := Find(r, from, start).value;
            var r' := ReplaceAt(r, k, |from|, to);
            k + |to| <= |r'| && r'[..k + |to|] + ReplacedAll(r'[k + |to|..], from, to) == target
  {
    ReplacedFrom(r, from, to, start);
    var k := Find(r, from, start).value;
    ReplaceAtSlices(r, k, |from|, to, start);
    var r' := ReplaceAt(r, k, |from|, to);
    var tail := r'[k + |to|..];
    assert tail == r[k + |from|..];
    var rt := ReplacedAll(tail, from, to);
    Regroup(r[..start], r[start..k], to, rt, r'[..k + |to|], ReplacedAll(r[start..], from, to), target);
  }

  lemma Regroup(a: seq<char>, b: seq<char>, t: seq<char>, rt: seq<char>, l: seq<char>, m: seq<char>, target: seq<char>)
    requires l == a + b + t && m == b + t + rt && a + m == target
    ensures l + rt == target
  {
  }

  lemma ReplaceAtSlices(r: seq<char>, k: nat, n: nat, to: seq<char>, start: nat)
    requires start <= k && k + n <= |r|
    ensures k + |to| <= |ReplaceAt(r, k, n, to)|
    ensures ReplaceAt(r, k, n, to)[..k + |to|] == r[..start] + r[start..k] + to
    ensures ReplaceAt(r, k, n, to)[k + |to|..] == r[k + n..]
  {
    var r' := ReplaceAt(r, k, n, to);
    assert r'[..k + |to|] == r[..k] + to;
    assert r[..k] == r[..start] + r[start..k];
  }

  /** The loop invariant of replaceAll gives the result once nothing is left to find. */
  lemma ReplaceInvariantDone(r: seq<char>, from: seq<char>, to: seq<char>, start: nat, target: seq<char>)
    requires |from| > 0 && start <= |r|
    requires r[..start] + ReplacedAll(r[start..], from, to) == target
    requires Find(r, from, start).None?
    ensures r == target
  {
    ReplacedFrom(r, from, to, start);
    assert r == r[..start] + r[start..];
  }

  /** The loop of `replaceAll` (src/megacmdcommonutils.cpp:529-541). */
  method ReplaceAll(str: seq<char>, from: seq<char>, to: seq<char>) returns (r: seq<char>)
    ensures |from| == 0 ==> r == str
    ensures |from| > 0 ==> r == ReplacedAll(str, from, to)
  {
    r := str;
    if |from| == 0 {
      return;
    }
    var startPos: nat := 0;
    assert r[..0] + r[0..] == r;
    while true
      invariant startPos <= |r|
      invariant r[..startPos] + ReplacedAll(r[startPos..], from, to) == ReplacedAll(str, from, to)
      decreases |r| - startPos
    {
      var found := Find(r, from, startPos);
      if found.None? {
        ReplaceInvariantDone(r, from, to, startPos, ReplacedAll(str, from, to));
        return;
      }
      ReplaceInvariantStep(r, from, to, startPos, ReplacedAll(str, from, to));
      var k := found.value;
      r := ReplaceAt(r, k, |from|, to);
      startPos := k + |to|;
    }
  }

  /** The text produced for each character when `from` is one character long. */
  function CharImage(ch: char, f: char, to: seq<char>): seq<char>
  {
    if ch == f then to else [ch]
  }

  function MapChars(s: seq<char>, f: char, to: seq<char>): seq<char>
  {
    if |s| == 0 then [] else CharImage(s[0], f, to) + MapChars(s[1..], f, to)
  }

  /**
   * With a one-character `from`, replaceAll rewrites every occurrence of that
   * character and copies every other character, so inserted text is never
   * rescanned (doubling backslashes really doubles each one).
   */
  lemma {:induction false} ReplaceAllSingleChar(s: seq<char>, f: char, to: seq<char>)
    ensures ReplacedAll(s, [f], to) == MapChars(s, f, to)
    decreases |s|
  {
    SingleCharOccurs(s, f);
    ReplacedUnfold(s, [f], to);
    match Find(s, [f], 0)
    case None =>
      NoCharMap(s, f, to);
    case Some(k) =>
      ReplaceAllSingleChar(s[k + 1..], f, to);
      MapCharsAt(s, f, to, k);
  }

  /** A one-character pattern occurs exactly where that character stands. */
  lemma SingleCharOccurs(s: seq<char>, f: char)
    ensures forall i :: 0 <= i < |s| ==> (OccursAt(s, [f], i) <==> s[i] == f)
  {
    forall i | 0 <= i < |s|
      ensures OccursAt(s, [f], i) <==> s[i] == f
    {
      assert s[i..i + 1] == [s[i]];
    }
  }

  /** Mapping splits at the first occurrence of the character. */
  lemma MapCharsAt(s: seq<char>, f: char, to: seq<char>, k: nat)
    requires k < |s| && s[k] == f && f !in s[..k]
    ensures MapChars(s, f, to) == s[..k] + to + MapChars(s[k + 1..], f, to)
  {
    var a := s[..k];
    var b := s[k + 1..];
    assert s == a + ([f] + b);
    NoCharMap(a, f, to);
    MapCharsAppend(a, [f] + b, f, to);
    assert ([f] + b)[1..] == b;
  }

  lemma {:induction false} NoCharMap(s: seq<char>, f: char, to: seq<char>)
    requires f !in s
    ensures MapChars(s, f, to) == s
    decreases |s|
  {
    if |s| > 0 {
      assert f !in s[1..];
      NoCharMap(s[1..], f, to);
    }
  }

  lemma {:induction false} MapCharsAppend(a: seq<char>, b: seq<char>, f: char, to: seq<char>)
    ensures MapChars(a + b, f, to) == MapChars(a, f, to) + MapChars(b, f, to)
    decreases |a|
  {
    if |a| > 0 {
      assert (a + b)[1..] == a[1..] + b;
      MapCharsAppend(a[1..], b, f, to);
    } else {
      assert a + b == b;
    }
  }

  /** A string with no occurrence of `from` is left as it is. */
  lemma ReplaceAllAbsent(s: seq<char>, from: seq<char>, to: seq<char>)
    requires |from| > 0 && !Contains(s, from)
    ensures ReplacedAll(s, from, to) == s
  {
  }

  // ---------------------------------------------------------------------
  // toInteger

  /** The int range of the target platform. */
  const INT_MIN: int := -0x8000_0000
  const INT_MAX: int := 0x7FFF_FFFF

  function SkipSpaces(s: seq<char>, i: nat): (j: nat)
    requires i <= |s|
    ensures i <= j <= |s| && (j < |s| ==> !IsSpace(s[j]))
    ensures forall k :: i <= k < j ==> IsSpace(s[k])
    decreases |s| - i
  {
    if i < |s| && IsSpace(s[i]) then SkipSpaces(s, i + 1) else i
  }

  function DigitRunEnd(s: seq<char>, i: nat): (j: nat)
    requires i <= |s|
    ensures i <= j <= |s| && AllDigits(s[i..j]) && (j < |s| ==> !IsDigit(s[j]))
    decreases |s| - i
  {
    if i < |s| && IsDigit(s[i]) then DigitRunEnd(s, i + 1) else i
  }

  /**
   * `strtol(s, &end, 10)` on a C string: the end offset and the value before
   * clamping to the range of long. No digits gives end 0 and value 0.
   */
  function Strtol(s: seq<char>): (r: (nat, int))
    ensures r.0 <= |s|
  {
    var i := SkipSpaces(s, 0);
    var neg := i < |s| && s[i] == '-';
    var j := if i < |s| && (s[i] == '-' || s[i] == '+') then i + 1 else i;
    var e := DigitRunEnd(s, j);
    var v: int := if e == j then 0 else DigitsValue(s[j..e]);
    if e == j then (0, 0)
    else (e, if neg then -v else v)
  }

  /** `strtol` followed by the range and full-consumption checks of toInteger. */
  function ParseWhole(what: seq<char>, failValue: int): int
  {
    var c := CStr(what);
    var (end, l) := Strtol(c);
    if end != |c| then failValue
    else if l < INT_MIN || l > INT_MAX then failValue
    else l
  }

  /**
   * `toInteger` as written (src/megacmdcommonutils.cpp:543-567): the first
   * guard `!isdigit(w0) && !(w0 != '-') && (w0 != '+')` holds exactly when
   * w0 is '-', so every negative number is refused.
   */
  function ToIntegerAsWritten(what: seq<char>, failValue: int): int
  {
    if |what| == 0 then failValue
    else if !IsDigit(what[0]) && !(what[0] != '-') && (what[0] != '+') then failValue
    else ParseWhole(what, failValue)
  }

  /** The guard as evidently intended: the text must start with a digit or a sign. */
  function ToInteger(what: seq<char>, failValue: int): int
  {
    if |what| == 0 then failValue
    else if !IsDigit(what[0]) && what[0] != '-' && what[0] != '+' then failValue
    else ParseWhole(what, failValue)
  }

  lemma AsWrittenGuardIsMinus(what: seq<char>, failValue: int)
    requires |what| > 0 && what[0] == '-'
    ensures ToIntegerAsWritten(what, failValue) == failValue
  {
  }

  /** The input that shows the guard typo: "-5" is refused as written. */
  lemma ToIntegerNegativeFinding()
    ensures ToIntegerAsWritten("-5", -1) == -1
    ensures ToInteger("-5", -1) == -5
  {
    var s := "-5";
    assert CStr(s) == s by {
      assert CStr(s[1..]) == s[1..] by { assert s[1..][1..] == []; }
    }
    assert SkipSpaces(s, 0) == 0;
    assert DigitRunEnd(s, 1) == 2 by {
      assert DigitRunEnd(s, 2) == 2;
    }
    assert s[1..2] == "5";
    assert DigitsValue("5") == 5 by {
      assert "5"[..0] == [];
    }
  }

  lemma {:induction false} DigitRunAll(s: seq<char>, i: nat)
    requires i <= |s| && forall k :: i <= k < |s| ==> IsDigit(s[k])
    ensures DigitRunEnd(s, i) == |s|
    decreases |s| - i
  {
    if i < |s| {
      DigitRunAll(s, i + 1);
    }
  }

  /** The decimal rendering of any int (as `std::to_string` writes it) parses back. */
  lemma ToIntegerRoundTrip(v: int, failValue: int)
    requires INT_MIN <= v <= INT_MAX
    ensures ToInteger(IntToString(v), failValue) == v
  {
    var s := IntToString(v);
    var d := NatToString(if v < 0 then -v else v);
    assert NUL !in s by {
      if v < 0 { assert s == "-" + d; }
    }
    CStrNoNul(s);
    assert !IsSpace(s[0]);
    assert SkipSpaces(s, 0) == 0;
    if v < 0 {
      assert s[1..] == d;
      DigitRunAll(s, 1);
      assert s[1..|s|] == d;
    } else {
      DigitRunAll(s, 0);
      assert s[0..|s|] == d;
    }
  }

  /** toInteger fails on empty text, on anything left after the digits, and out of range. */
  lemma ToIntegerFailures(what: seq<char>, failValue: int)
    ensures |what| == 0 ==> ToInteger(what, failValue) == failValue
    ensures Strtol(CStr(what)).0 != |CStr(what)| ==> ToInteger(what, failValue) == failValue
    ensures (Strtol(CStr(what)).1 < INT_MIN || Strtol(CStr(what)).1 > INT_MAX) ==>
              ToInteger(what, failValue) == failValue
    ensures ToInteger(what, failValue) != failValue ==> INT_MIN <= ToInteger(what, failValue) <= INT_MAX
  {
  }

  // ---------------------------------------------------------------------
  // joinStrings

  /**
   * `joinStrings(vec, delim, quoted)`: every element (wrapped in double quotes
   * when quoted) followed by delim, with the final delim cut off only when
   * there are at least two elements.
   */
  function JoinStrings(vec: seq<seq<char>>, delim: seq<char>, quoted: bool): (r: seq<char>)
    ensures |vec| == 0 ==> r == []
    ensures |vec| == 1 ==> r == (if quoted then "\"" + vec[0] + "\"" else vec[0]) + delim
  {
    var all := JoinTerminated(vec, delim, quoted);
    if |vec| > 1 then all[..|all| - |delim|]
    else if |vec| == 1 then
      assert JoinTerminated(vec[1..], delim, quoted) == [];
      all
    else all
  }

  function Item(w: seq<char>, quoted: bool): seq<char>
  {
    if quoted then "\"" + w + "\"" else w
  }

  function JoinTerminated(vec: seq<seq<char>>, delim: seq<char>, quoted: bool): (r: seq<char>)
    ensures |r| >= |vec| * |delim|
  {
    if |vec| == 0 then [] else Item(vec[0], quoted) + delim + JoinTerminated(vec[1..], delim, quoted)
  }

  function MapItems(vec: seq<seq<char>>, quoted: bool): (r: seq<seq<char>>)
    ensures |r| == |vec|
    ensures forall i :: 0 <= i < |vec| ==> r[i] == Item(vec[i], quoted)
  {
    if |vec| == 0 then [] else [Item(vec[0], quoted)] + MapItems(vec[1..], quoted)
  }

  lemma {:induction false} JoinTerminatedIsJoin(vec: seq<seq<char>>, delim: seq<char>, quoted: bool)
    requires |vec| > 0
    ensures JoinTerminated(vec, delim, quoted) == JoinWith(MapItems(vec, quoted), delim) + delim
    decreases |vec|
  {
    if |vec| > 1 {
      JoinTerminatedIsJoin(vec[1..], delim, quoted);
      assert MapItems(vec, quoted)[1..] == MapItems(vec[1..], quoted);
    } else {
      assert vec[1..] == [];
    }
  }

  /** With two or more elements joinStrings is the separator join of the (quoted) elements. */
  lemma JoinStringsMany(vec: seq<seq<char>>, delim: seq<char>, quoted: bool)
    requires |vec| > 1
    ensures JoinStrings(vec, delim, quoted) == JoinWith(MapItems(vec, quoted), delim)
  {
    JoinTerminatedIsJoin(vec, delim, quoted);
  }

  // ---------------------------------------------------------------------
  // link and e-mail checks

  /** `isPublicLink`: starts with "http" and has '#', "/file/" or "/folder/" somewhere. */
  function IsPublicLink(link: seq<char>): (r: bool)
    ensures r <==> StartsWith(link, "http") &&
                   (Contains(link, "#") || Contains(link, "/file/") || Contains(link, "/folder/"))
  {
    Find(link, "http", 0) == Some(0) &&
    (Find(link, "#", 0).Some? || Find(link, "/file/", 0).Some? || Find(link, "/folder/", 0).Some?)
  }

  /** `isValidEmail`: an '@' exists, a '.' exists, and the first '@' precedes the last '.'. */
  function IsValidEmail(email: seq<char>): (r: bool)
    ensures r <==> exists i, j :: 0 <= i < j < |email| && email[i] == '@' && email[j] == '.'
  {
    var at := FindChar(email, '@');
    var dot := FindLastChar(email, '.');
    var r := !(at.None? || dot.None? || at.value > dot.value);
    assert r ==> email[at.value] == '@' && email[dot.value] == '.' && at.value < dot.value;
    r
  }

  // ---------------------------------------------------------------------
  // property trimming

  function LTrimProperty(s: seq<char>, c: char): seq<char>
  {
    LTrim(s, c)
  }

  /**
   * `rtrimProperty`: everything up to the last character other than c; when
   * every character is c, `substr(0, npos)` keeps the string unchanged.
   */
  function RTrimProperty(s: seq<char>, c: char): (r: seq<char>)
    ensures (forall k :: 0 <= k < |s| ==> s[k] == c) ==> r == s
    ensures (exists k :: 0 <= k < |s| && s[k] != c) ==>
              |r| > 0 && r[|r| - 1] != c && exists n :: 0 <= n <= |s| && r == s[..n] && forall k :: n <= k < |s| ==> s[k] == c
  {
    match FindLastNot(s, c)
    case None => s
    case Some(p) => s[..p + 1]
  }

  /**
   * `trimProperty`: strip spaces at both ends, then, when more than one
   * character is left and it starts with a quote, strip that quote from both
   * ends.
   */
  function TrimProperty(what: seq<char>): seq<char>
  {
    var w := LTrimProperty(RTrimProperty(what, ' '), ' ');
    if |w| > 1 && (w[0] == '\'' || w[0] == '"') then LTrimProperty(RTrimProperty(w, w[0]), w[0])
    else w
  }

  lemma {:induction false} LTrimAllSame(s: seq<char>, c: char)
    requires forall k :: 0 <= k < |s| ==> s[k] == c
    ensures LTrim(s, c) == []
  {
  }

  lemma LTrimKeepsNonC(s: seq<char>, c: char)
    requires |s| > 0 && s[0] != c
    ensures LTrim(s, c) == s
  {
  }

  lemma RTrimPropertyPadding(x: seq<char>, c: char, tail: seq<char>)
    requires |x| > 0 && x[|x| - 1] != c && forall k :: 0 <= k < |tail| ==> tail[k] == c
    ensures RTrimProperty(x + tail, c) == x
  {
    var s := x + tail;
    var p := FindLastNot(s, c).value;
    assert s[|x| - 1] != c;
    assert p >= |x| - 1;
    assert p < |x|;
    assert s[..p + 1] == x;
  }

  lemma LTrimPadding(head: seq<char>, c: char, x: seq<char>)
    requires |x| > 0 && x[0] != c && forall k :: 0 <= k < |head| ==> head[k] == c
    ensures LTrim(head + x, c) == x
  {
    var s := head + x;
    var p := FindFirstNot(s, c).value;
    assert s[|head|] != c;
    assert p <= |head|;
    assert p >= |head|;
    assert s[p..] == x;
  }

  /** A double-quoted, space-padded value loses the padding and both quotes. */
  lemma TrimPropertyQuoted(v: seq<char>, pad1: nat, pad2: nat)
    requires |v| > 0 && v[0] != '"' && v[|v| - 1] != '"'
    ensures TrimProperty(Spaces(pad1) + ("\"" + v + "\"") + Spaces(pad2)) == v
  {
    var q := "\"" + v + "\"";
    var x := Spaces(pad1) + q;
    assert x[|x| - 1] == '"';
    RTrimPropertyPadding(x, ' ', Spaces(pad2));
    assert q[0] == '"';
    LTrimPadding(Spaces(pad1), ' ', q);
    var w := LTrimProperty(RTrimProperty(x + Spaces(pad2), ' '), ' ');
    assert w == q;
    var h := "\"" + v;
    assert q == h + "\"";
    assert h[|h| - 1] == v[|v| - 1];
    RTrimPropertyPadding(h, '"', "\"");
    LTrimPadding("\"", '"', v);
  }

  function Spaces(n: nat): (r: seq<char>)
    ensures |r| == n && forall k :: 0 <= k < n ==> r[k] == ' '
  {
    if n == 0 then [] else [' '] + Spaces(n - 1)
  }

  // ---------------------------------------------------------------------
  // flags and options

  /** `getFlag`: the stored count, 0 when the flag was not given. */
  function GetFlag(flags: map<seq<char>, int>, optname: seq<char>): (r: int)
    ensures optname in flags ==> r == flags[optname]
    ensures optname !in flags ==> r == 0
  {
    if optname in flags then flags[optname] else 0
  }

  /** `getOption`: the stored value, defaultValue when the option was not given. */
  function GetOption(options: map<seq<char>, seq<char>>, optname: seq<char>, defaultValue: seq<char>): (r: seq<char>)
    ensures optname in options ==> r == options[optname]
    ensures optname !in options ==> r == defaultValue
  {
    if optname in options then options[optname] else defaultValue
  }

  /** A word that `discardOptionsAndFlags` erases: it starts with '-'. */
  predicate IsDashWord(w: seq<char>)
  {
    |w| > 0 && w[0] == '-'
  }

  /** Reference definition: the words that do not start with '-', in order. */
  function NonDashWords(ws: seq<seq<char>>): (r: seq<seq<char>>)
    ensures |r| <= |ws|
  {
    if |ws| == 0 then []
    else if IsDashWord(ws[0]) then NonDashWords(ws[1..])
    else [ws[0]] + NonDashWords(ws[1..])
  }

  /** The kept words are exactly the words of ws that do not start with '-'. */
  lemma {:induction false} NonDashWordsMembers(ws: seq<seq<char>>)
    ensures forall w :: w in NonDashWords(ws) <==> w in ws && !IsDashWord(w)
    decreases |ws|
  {
    if |ws| > 0 {
      NonDashWordsMembers(ws[1..]);
      assert ws == [ws[0]] + ws[1..];
    }
  }

  /**
   * The erase loop of `discardOptionsAndFlags` (src/megacmdcommonutils.cpp:925-940);
   * the shell's copy (src/megacmdshell/megacmdshell.cpp:150-165) is the same code.
   */
  method DiscardOptionsAndFlags(ws: seq<seq<char>>) returns (r: seq<seq<char>>)
    ensures r == NonDashWords(ws)
  {
    r := ws;
    ghost var target := NonDashWords(ws);
    var it := 0;
    assert r[it..] == ws;
    while it < |r|
      invariant it <= |r|
      invariant r[..it] + NonDashWords(r[it..]) == target
      decreases |r| - it
    {
      assert r[it..][1..] == r[it + 1..];
      if IsDashWord(r[it]) {
        var r' := r[..it] + r[it + 1..];
        assert r'[..it] == r[..it];
        assert r'[it..] == r[it + 1..];
        r := r';
      } else {
        assert r[..it + 1] == r[..it] + [r[it]];
        AccumulateStep(r[..it], [r[it]], NonDashWords(r[it + 1..]), NonDashWords(r[it..]), target);
        it := it + 1;
      }
    }
    assert r[..it] == r;
  }

  /** Discarding keeps exactly the non-dash words and their order; nothing else changes. */
  lemma NonDashWordsOfPlain(ws: seq<seq<char>>)
    requires forall k :: 0 <= k < |ws| ==> !IsDashWord(ws[k])
    ensures NonDashWords(ws) == ws
  {
  }

  // ---------------------------------------------------------------------
  // numberOfDigits

  /** C++ integer division, which truncates toward zero. */
  function TruncDiv(a: int, b: int): int
    requires b > 0
  {
    if a >= 0 then a / b else -((-a) / b)
  }

  /** Decimal digits of |n|, 0 for 0. */
  function MagnitudeDigits(n: nat): nat
  {
    if n == 0 then 0 else 1 + MagnitudeDigits(n / 10)
  }

  function Pow10(k: nat): nat
  {
    if k == 0 then 1 else 10 * Pow10(k - 1)
  }

  /** The loop of `numberOfDigits` (src/megacmdcommonutils.h:435-444). */
  method NumberOfDigits(num: int) returns (digits: nat)
    ensures digits == (if num < 0 then 1 else 0) + MagnitudeDigits(if num < 0 then -num else num)
  {
    digits := if num < 0 then 1 else 0;
    var n := num;
    while n != 0
      invariant digits + MagnitudeDigits(if n < 0 then -n else n) ==
                (if num < 0 then 1 else 0) + MagnitudeDigits(if num < 0 then -num else num)
      decreases if n < 0 then -n else n
    {
      digits := digits + 1;
      n := TruncDiv(n, 10);
    }
  }

  /** The digit count k of a positive magnitude satisfies 10^(k-1) <= n < 10^k. */
  lemma {:induction false} MagnitudeDigitsBounds(n: nat)
    requires n > 0
    ensures Pow10(MagnitudeDigits(n) - 1) <= n < Pow10(MagnitudeDigits(n))
  {
    if n >= 10 {
      MagnitudeDigitsBounds(n / 10);
    }
  }

  /** A minus sign counts as a digit, and 0 has no digits. */
  lemma NumberOfDigitsExamples()
    ensures MagnitudeDigits(0) == 0
    ensures MagnitudeDigits(1) == 1 && MagnitudeDigits(10) == 2 && MagnitudeDigits(100) == 3
    ensures 1 + MagnitudeDigits(1) == 2 && 1 + MagnitudeDigits(10) == 3 && 1 + MagnitudeDigits(100) == 4
  {
  }

  // ---------------------------------------------------------------------
  // boolean folds and vector concatenation

  /** `onlyZeroOrOneOf(args...)`: the true arguments sum to at most 1. */
  function OnlyZeroOrOneOf(args: seq<bool>): bool
  {
    CountTrue(args) <= 1
  }

  /** `onlyZeroOf(args...)`: the true arguments sum to 0. */
  function OnlyZeroOf(args: seq<bool>): bool
  {
    CountTrue(args) == 0
  }

  lemma {:induction false} CountTrueZero(args: seq<bool>)
    ensures CountTrue(args) == 0 <==> forall i :: 0 <= i < |args| ==> !args[i]
    decreases |args|
  {
    if |args| > 0 {
      CountTrueZero(args[1..]);
      assert forall i :: 1 <= i < |args| ==> args[i] == args[1..][i - 1];
    }
  }

  /** onlyZeroOf holds iff no argument is true. */
  lemma OnlyZeroOfIff(args: seq<bool>)
    ensures OnlyZeroOf(args) <==> forall i :: 0 <= i < |args| ==> !args[i]
  {
    CountTrueZero(args);
  }

  /** onlyZeroOrOneOf holds iff no two distinct arguments are true. */
  lemma {:induction false} OnlyZeroOrOneOfIff(args: seq<bool>)
    ensures OnlyZeroOrOneOf(args) <==> forall i, j :: 0 <= i < |args| && 0 <= j < |args| && args[i] && args[j] ==> i == j
    decreases |args|
  {
    if |args| > 0 {
      OnlyZeroOrOneOfIff(args[1..]);
      CountTrueZero(args[1..]);
      assert forall i :: 1 <= i < |args| ==> args[i] == args[1..][i - 1];
      if args[0] && !OnlyZeroOrOneOf(args) {
        var j :| 0 <= j < |args[1..]| && args[1..][j];
        assert args[j + 1];
      }
      if !args[0] && !OnlyZeroOrOneOf(args) {
        var i, j :| 0 <= i < |args[1..]| && 0 <= j < |args[1..]| && args[1..][i] && args[1..][j] && i != j;
        assert args[i + 1] && args[j + 1];
      }
    }
  }

  /** The vector `operator+`: a fresh vector with the elements of a, then those of b. */
  function Concat<T>(a: seq<T>, b: seq<T>): (r: seq<T>)
    ensures |r| == |a| + |b|
    ensures forall i :: 0 <= i < |a| ==> r[i] == a[i]
    ensures forall i :: 0 <= i < |b| ==> r[|a| + i] == b[i]
  {
    a + b
  }

  // ---------------------------------------------------------------------
  // PlatformDirectories::runtimeDirPath

  /** A platform's directories: runtimeDirPath is overridden only by some platforms. */
  datatype PlatformDirectories = PlatformDirectories(configDir: seq<char>, runtimeOverride: Option<seq<char>>)
  {
    function RuntimeDirPath(): (r: seq<char>)
      ensures runtimeOverride.None? ==> r == configDir
      ensures runtimeOverride.Some? ==> r == runtimeOverride.value
    {
      runtimeOverride.GetOr(configDir)
    }
  }

  // ---------------------------------------------------------------------
  // HammeringLimiter

  /**
   * `HammeringLimiter`: `runRecently(now)` reports whether a recorded call
   * lies within limitSecs; only a false answer records now. Time points are
   * steady-clock milliseconds; the elapsed time is truncated to whole seconds.
   */
  class HammeringLimiter {
    var limitSecs: int
    var lastCall: Option<int>

    constructor (seconds: int)
      ensures limitSecs == seconds && lastCall == None
    {
      limitSecs := seconds;
      lastCall := None;
    }

    method RunRecently(now: int) returns (recent: bool)
      modifies this
      ensures recent == RanWithin(old(lastCall), now, limitSecs)
      ensures limitSecs == old(limitSecs)
      ensures lastCall == (if recent then old(lastCall) else Some(now))
    {
      if lastCall.Some? && TruncDiv1000(now - lastCall.value) <= limitSecs {
        return true;
      }
      lastCall := Some(now);
      return false;
    }
  }

  function TruncDiv1000(ms: int): int
  {
    TruncDiv(ms, 1000)
  }

  /** True iff a call was recorded no more than limitSecs whole seconds ago. */
  predicate RanWithin(lastCall: Option<int>, now: int, limitSecs: int)
  {
    lastCall.Some? && TruncDiv1000(now - lastCall.value) <= limitSecs
  }

  /** After a false answer, an immediate second call (same instant) answers true. */
  lemma HammeringSecondCallIsRecent(lastCall: Option<int>, now: int, limitSecs: int)
    requires !RanWithin(lastCall, now, limitSecs) && limitSecs >= 0
    ensures RanWithin(Some(now), now, limitSecs)
  {
  }
}
