/**
 * Helpers of src/megacmdutils.cpp: log-level and share-level names, the
 * wildcard matcher, option and flag extraction, octal permission strings,
 * readable periods, link types, size ranges and version-suffixed names.
 *
 * The SDK constants these functions return are the values the MEGA SDK
 * defines: log levels FATAL=0 .. MAX=5, share access UNKNOWN=-1, READ=0,
 * READWRITE=1, FULL=2, OWNER=3, and node types UNKNOWN=-1, FILE=0, FOLDER=1.
 */
module MegaCmdUtils {
  import opened Wrappers
  import opened Text
  import opened CommonUtils
  import opened CommonSizes

  // ---------------------------------------------------------------------
  // megacmdWildcardMatch (src/megacmdutils.cpp:1030-1073)

  /**
   * Reference definition of a full wildcard match of s[i..] against p[j..]:
   * '*' matches any run, '?' exactly one character, anything else itself.
   */
  predicate Glob(s: seq<char>, i: nat, p: seq<char>, j: nat)
    requires i <= |s| && j <= |p|
    decreases |s| - i + |p| - j
  {
    if j == |p| then i == |s|
    else if p[j] == '*' then Glob(s, i, p, j + 1) || (i < |s| && Glob(s, i + 1, p, j))
    else i < |s| && (p[j] == '?' || p[j] == s[i]) && Glob(s, i + 1, p, j + 1)
  }

  /** p[j..j+n] has no '*' and matches s[k..k+n] position by position. */
  predicate SegmentMatches(s: seq<char>, k: nat, p: seq<char>, j: nat, n: nat)
  {
    k + n <= |s| && j + n <= |p|
    && forall q :: j <= q < j + n ==> p[q] != '*' && (p[q] == '?' || p[q] == s[k + (q - j)])
  }

  predicate StarFree(p: seq<char>, j: nat, n: nat)
  {
    j + n <= |p| && forall q :: j <= q < j + n ==> p[q] != '*'
  }

  /** A matched star-free segment can be stepped over. */
  lemma {:induction false} SegmentStep(s: seq<char>, k: nat, p: seq<char>, j: nat, n: nat)
    requires SegmentMatches(s, k, p, j, n)
    ensures Glob(s, k, p, j) == Glob(s, k + n, p, j + n)
    decreases n
  {
    if n > 0 {
      assert p[j] != '*' && (p[j] == '?' || p[j] == s[k]);
      SegmentStep(s, k + 1, p, j + 1, n - 1);
    }
  }

  /** A star-free segment that matches from k must be matched there character by character. */
  lemma {:induction false} SegmentForward(s: seq<char>, k: nat, p: seq<char>, j: nat, n: nat)
    requires k <= |s| && StarFree(p, j, n) && Glob(s, k, p, j)
    ensures k + n <= |s| && Glob(s, k + n, p, j + n)
    decreases n
  {
    if n > 0 {
      assert p[j] != '*';
      SegmentForward(s, k + 1, p, j + 1, n - 1);
    }
  }

  /** A star can absorb more: matching from m implies matching from any earlier k. */
  lemma {:induction false} StarEarlier(s: seq<char>, k: nat, m: nat, p: seq<char>, j: nat)
    requires k <= m <= |s| && j < |p| && p[j] == '*' && Glob(s, m, p, j)
    ensures Glob(s, k, p, j)
    decreases m - k
  {
    if k < m {
      StarEarlier(s, k + 1, m, p, j);
    }
  }

  /**
   * After a star at st, once the star-free segment p[st+1..st+1+n] has matched
   * from k, the first such k is as good as any later one: the match is decided
   * from where the segment ended (when a star follows, or the text is used up).
   */
  lemma {:induction false} StarFrom(s: seq<char>, k: nat, m: nat, p: seq<char>, st: nat, n: nat)
    requires st < |p| && p[st] == '*'
    requires SegmentMatches(s, k, p, st + 1, n)
    requires (st + 1 + n < |p| && p[st + 1 + n] == '*') || k + n == |s|
    requires k <= m <= |s| && Glob(s, m, p, st)
    ensures Glob(s, k + n, p, st + 1 + n)
    decreases |s| - m
  {
    assert StarFree(p, st + 1, n);
    if Glob(s, m, p, st + 1) {
      SegmentForward(s, m, p, st + 1, n);
      if k + n < m + n {
        StarEarlier(s, k + n, m + n, p, st + 1 + n);
      }
    } else {
      StarFrom(s, k, m + 1, p, st, n);
    }
  }

  /** The greedy commitment: from a star, matching is decided where the segment ended. */
  lemma StarCommit(s: seq<char>, k: nat, p: seq<char>, st: nat, n: nat)
    requires st < |p| && p[st] == '*' && k <= |s|
    requires SegmentMatches(s, k, p, st + 1, n)
    requires (st + 1 + n < |p| && p[st + 1 + n] == '*') || k + n == |s|
    ensures Glob(s, k, p, st) == Glob(s, k + n, p, st + 1 + n)
  {
    if Glob(s, k, p, st) {
      StarFrom(s, k, k, p, st, n);
    }
    SegmentStep(s, k, p, st + 1, n);
  }

  /** A mismatch inside the segment after a star moves on to the next start. */
  lemma StarRetry(s: seq<char>, k: nat, p: seq<char>, st: nat, n: nat)
    requires st < |p| && p[st] == '*' && k + n < |s|
    requires SegmentMatches(s, k, p, st + 1, n)
    requires st + 1 + n == |p| || (p[st + 1 + n] != '*' && p[st + 1 + n] != '?' && p[st + 1 + n] != s[k + n])
    ensures Glob(s, k, p, st) == Glob(s, k + 1, p, st)
  {
    SegmentStep(s, k, p, st + 1, n);
  }

  /**
   * `megacmdWildcardMatch` over the two C strings: it decides the full
   * wildcard match of the string against the pattern. Its three loops are
   * the three methods below.
   */
  method WildcardMatch(pszString: seq<char>, pszMatch: seq<char>) returns (b: bool)
    ensures b == Glob(CStr(pszString), 0, CStr(pszMatch), 0)
  {
    var s := CStr(pszString);
    var p := CStr(pszMatch);
    var ok, i, j := MatchUntilStar(s, p);
    if !ok {
      return false;
    }
    var done;
    done, j := MatchAfterStar(s, p, i, j);
    if done {
      return true;
    }
    b := MatchTrailingStars(s, p, j);
  }

  /** The first loop: literal and '?' positions up to the first star or the end of the string. */
  method MatchUntilStar(s: seq<char>, p: seq<char>) returns (ok: bool, i: nat, j: nat)
    requires NUL !in s && NUL !in p
    ensures !ok ==> !Glob(s, 0, p, 0)
    ensures ok ==> i <= |s| && j <= |p| && Glob(s, i, p, j) == Glob(s, 0, p, 0)
    ensures ok ==> i == |s| || At(p, j) == '*'
  {
    i, j := 0, 0;
    while At(s, i) != NUL && At(p, j) != '*'
      invariant i <= |s| && j <= |p|
      invariant Glob(s, i, p, j) == Glob(s, 0, p, 0)
      decreases |s| - i
    {
      if At(p, j) != At(s, i) && At(p, j) != '?' {
        return false, i, j;
      }
      j := j + 1;
      i := i + 1;
    }
    ok := true;
  }

  /**
   * The state of the backtracking loop: mp is just after the last star seen,
   * cp one past where the segment after it is being tried, the segment has
   * matched up to (i, j), and the match from the star is the whole match.
   */
  predicate Backtracking(s: seq<char>, p: seq<char>, i0: nat, j0: nat, i: nat, j: nat, mp: nat, cp: nat)
  {
    i0 <= |s| && j0 <= |p| &&
    i <= |s| && 1 <= mp <= j <= |p| && p[mp - 1] == '*' && 1 <= cp &&
    cp - 1 + (j - mp) == i && SegmentMatches(s, cp - 1, p, mp, j - mp) &&
    Glob(s, cp - 1, p, mp - 1) == Glob(s, i0, p, j0)
  }

  /** A star at j: the segment before it is committed to, and a new one starts after it. */
  lemma BacktrackNewStar(s: seq<char>, p: seq<char>, i0: nat, j0: nat, i: nat, j: nat, mp: nat, cp: nat)
    requires Backtracking(s, p, i0, j0, i, j, mp, cp) && i < |s| && j < |p| && p[j] == '*'
    ensures j + 1 == |p| ==> Glob(s, i0, p, j0)
    ensures j + 1 < |p| ==> Backtracking(s, p, i0, j0, i, j + 1, j + 1, i + 1)
  {
    StarCommit(s, cp - 1, p, mp - 1, j - mp);
    if j + 1 == |p| {
      assert Glob(s, |s|, p, j + 1);
      StarEarlier(s, i, |s|, p, j);
    }
  }

  /** A matching character extends the segment. */
  lemma BacktrackAdvance(s: seq<char>, p: seq<char>, i0: nat, j0: nat, i: nat, j: nat, mp: nat, cp: nat)
    requires Backtracking(s, p, i0, j0, i, j, mp, cp) && i < |s| && j < |p|
    requires p[j] != '*' && (p[j] == s[i] || p[j] == '?')
    ensures Backtracking(s, p, i0, j0, i + 1, j + 1, mp, cp)
  {
  }

  /** A mismatch: the segment is tried again one character later. */
  lemma BacktrackRetry(s: seq<char>, p: seq<char>, i0: nat, j0: nat, i: nat, j: nat, mp: nat, cp: nat)
    requires Backtracking(s, p, i0, j0, i, j, mp, cp) && i < |s|
    requires j == |p| || (p[j] != '*' && p[j] != '?' && p[j] != s[i])
    ensures Backtracking(s, p, i0, j0, cp, mp, mp, cp + 1)
  {
    StarRetry(s, cp - 1, p, mp - 1, j - mp);
  }

  /** With the string used up, matching goes on from j. */
  lemma BacktrackEnd(s: seq<char>, p: seq<char>, i0: nat, j0: nat, j: nat, mp: nat, cp: nat)
    requires Backtracking(s, p, i0, j0, |s|, j, mp, cp)
    ensures Glob(s, |s|, p, j) == Glob(s, i0, p, j0)
  {
    StarCommit(s, cp - 1, p, mp - 1, j - mp);
  }

  /**
   * The backtracking loop. Either the pattern ended in a star (done), or the
   * string is used up at pattern position j.
   */
  method MatchAfterStar(s: seq<char>, p: seq<char>, i0: nat, j0: nat) returns (done: bool, j: nat)
    requires NUL !in s && NUL !in p
    requires i0 <= |s| && j0 <= |p| && (i0 == |s| || At(p, j0) == '*')
    ensures done ==> Glob(s, i0, p, j0)
    ensures !done ==> j <= |p| && Glob(s, |s|, p, j) == Glob(s, i0, p, j0)
  {
    var i := i0;
    j := j0;
    if At(s, i) == NUL {
      return false, j;
    }
    // the first iteration always meets the star that stopped the first loop
    j := j + 1;
    if At(p, j) == NUL {
      assert Glob(s, |s|, p, j);
      StarEarlier(s, i, |s|, p, j - 1);
      return true, j;
    }
    var mp: nat := j;
    var cp: nat := i + 1;
    while At(s, i) != NUL
      invariant Backtracking(s, p, i0, j0, i, j, mp, cp)
      decreases |s| - cp, |s| - i, |p| - j
    {
      if At(p, j) == '*' {
        BacktrackNewStar(s, p, i0, j0, i, j, mp, cp);
        j := j + 1;
        if At(p, j) == NUL {
          return true, j;
        }
        mp := j;
        cp := i + 1;
      } else if At(p, j) == At(s, i) || At(p, j) == '?' {
        BacktrackAdvance(s, p, i0, j0, i, j, mp, cp);
        j := j + 1;
        i := i + 1;
      } else {
        BacktrackRetry(s, p, i0, j0, i, j, mp, cp);
        j := mp;
        i := cp;
        cp := cp + 1;
      }
    }
    BacktrackEnd(s, p, i0, j0, j, mp, cp);
    done := false;
  }

  /** The last loop: with the string used up, only a run of stars may remain. */
  method MatchTrailingStars(s: seq<char>, p: seq<char>, j0: nat) returns (b: bool)
    requires NUL !in p && j0 <= |p|
    ensures b == Glob(s, |s|, p, j0)
  {
    var j := j0;
    while At(p, j) == '*'
      invariant j0 <= j <= |p|
      invariant Glob(s, |s|, p, j) == Glob(s, |s|, p, j0)
      decreases |p| - j
    {
      j := j + 1;
    }
    return At(p, j) == NUL;
  }

  /** A pattern without wildcards matches exactly the equal string. */
  lemma {:induction false} GlobLiteral(s: seq<char>, i: nat, p: seq<char>, j: nat)
    requires i <= |s| && j <= |p|
    requires forall q :: j <= q < |p| ==> p[q] != '*' && p[q] != '?'
    ensures Glob(s, i, p, j) <==> s[i..] == p[j..]
    decreases |s| - i + |p| - j
  {
    if j < |p| && i < |s| {
      GlobLiteral(s, i + 1, p, j + 1);
      assert s[i..] == [s[i]] + s[i + 1..] && p[j..] == [p[j]] + p[j + 1..];
    }
  }

  /** A lone star matches every string. */
  lemma {:induction false} GlobStar(s: seq<char>, i: nat)
    requires i <= |s|
    ensures Glob(s, i, "*", 0)
    decreases |s| - i
  {
    assert Glob(s, |s|, "*", 1);
    if i < |s| {
      GlobStar(s, i + 1);
    }
  }

  // ---------------------------------------------------------------------
  // Log levels (src/megacmdutils.cpp:198-275)

  const LOG_LEVEL_FATAL: int := 0
  const LOG_LEVEL_ERROR: int := 1
  const LOG_LEVEL_WARNING: int := 2
  const LOG_LEVEL_INFO: int := 3
  const LOG_LEVEL_DEBUG: int := 4
  const LOG_LEVEL_MAX: int := 5

  /** `getLogLevelStr`. */
  function LogLevelStr(loglevel: int): (r: seq<char>)
    ensures LOG_LEVEL_FATAL <= loglevel <= LOG_LEVEL_MAX <==> r != "UNKNOWN"
  {
    if loglevel == LOG_LEVEL_FATAL then "FATAL"
    else if loglevel == LOG_LEVEL_ERROR then "ERROR"
    else if loglevel == LOG_LEVEL_WARNING then "WARNING"
    else if loglevel == LOG_LEVEL_INFO then "INFO"
    else if loglevel == LOG_LEVEL_DEBUG then "DEBUG"
    else if loglevel == LOG_LEVEL_MAX then "VERBOSE"
    else "UNKNOWN"
  }

  /**
   * `is >> i` on an istringstream over the text: leading white space, an
   * optional sign and at least one digit; a value outside int fails.
   */
  function StreamInt(t: seq<char>): (r: Option<int>)
    ensures r.Some? ==> INT_MIN <= r.value <= INT_MAX
  {
    var (end, v) := Strtol(t);
    if end == 0 || v < INT_MIN || v > INT_MAX then None else Some(v)
  }

  function Clamp(v: int, lo: int, hi: int): int
    requires lo <= hi
  {
    if v < lo then lo else if v > hi then hi else v
  }

  /** The six level names of `getLogLevelNum`, upper or lower case. */
  function NamedLogLevel(l: seq<char>): (r: Option<int>)
  {
    if l == "FATAL" || l == "fatal" then Some(LOG_LEVEL_FATAL)
    else if l == "ERROR" || l == "error" then Some(LOG_LEVEL_ERROR)
    else if l == "WARNING" || l == "warning" then Some(LOG_LEVEL_WARNING)
    else if l == "INFO" || l == "info" then Some(LOG_LEVEL_INFO)
    else if l == "DEBUG" || l == "debug" then Some(LOG_LEVEL_DEBUG)
    else if l == "VERBOSE" || l == "verbose" then Some(LOG_LEVEL_MAX)
    else None
  }

  /** `getLogLevelNum`: a level name, else a number clamped to the level range. */
  function LogLevelNum(level: seq<char>): (r: Option<int>)
    ensures r.Some? ==> LOG_LEVEL_FATAL <= r.value <= LOG_LEVEL_MAX
    ensures r.None? <==> NamedLogLevel(CStr(level)).None? && StreamInt(CStr(level)).None?
  {
    var l := CStr(level);
    match NamedLogLevel(l)
    case Some(n) => Some(n)
    case None =>
      match StreamInt(l)
      case None => None
      case Some(i) => Some(Clamp(i, LOG_LEVEL_FATAL, LOG_LEVEL_MAX))
  }

  lemma NamedFatal()
    ensures NamedLogLevel("FATAL") == Some(LOG_LEVEL_FATAL)
  {
  }

  lemma NamedError()
    ensures NamedLogLevel("ERROR") == Some(LOG_LEVEL_ERROR)
  {
  }

  lemma NamedWarning()
    ensures NamedLogLevel("WARNING") == Some(LOG_LEVEL_WARNING)
  {
  }

  lemma NamedInfo()
    ensures NamedLogLevel("INFO") == Some(LOG_LEVEL_INFO)
  {
  }

  lemma NamedDebug()
    ensures NamedLogLevel("DEBUG") == Some(LOG_LEVEL_DEBUG)
  {
  }

  lemma NamedVerbose()
    ensures NamedLogLevel("VERBOSE") == Some(LOG_LEVEL_MAX)
  {
  }

  /** Every level name reads back as its level. */
  lemma LogLevelRoundTrip(loglevel: int)
    requires LOG_LEVEL_FATAL <= loglevel <= LOG_LEVEL_MAX
    ensures LogLevelNum(LogLevelStr(loglevel)) == Some(loglevel)
  {
    var t := LogLevelStr(loglevel);
    CStrNoNul(t);
    if loglevel == LOG_LEVEL_FATAL {
      NamedFatal();
    } else if loglevel == LOG_LEVEL_ERROR {
      NamedError();
    } else if loglevel == LOG_LEVEL_WARNING {
      NamedWarning();
    } else if loglevel == LOG_LEVEL_INFO {
      NamedInfo();
    } else if loglevel == LOG_LEVEL_DEBUG {
      NamedDebug();
    } else {
      NamedVerbose();
    }
  }

  /** No level name starts with a digit or a minus sign. */
  lemma NotLevelName(t: seq<char>)
    requires |t| > 0 && (IsDigit(t[0]) || t[0] == '-')
    ensures NamedLogLevel(t).None?
  {
  }

  /** A decimal number reads back clamped into the level range. */
  lemma LogLevelNumeric(v: int)
    requires INT_MIN <= v <= INT_MAX
    ensures LogLevelNum(IntToString(v)) == Some(Clamp(v, LOG_LEVEL_FATAL, LOG_LEVEL_MAX))
  {
    var t := IntToString(v);
    ToIntegerRoundTrip(v, v + 1);
    assert NUL !in t by {
      if v < 0 { assert t == "-" + NatToString(-v); }
    }
    CStrNoNul(t);
    NotLevelName(t);
  }

  // ---------------------------------------------------------------------
  // Share levels (src/megacmdutils.cpp:278-341)

  const ACCESS_UNKNOWN: int := -1
  const ACCESS_READ: int := 0
  const ACCESS_READWRITE: int := 1
  const ACCESS_FULL: int := 2
  const ACCESS_OWNER: int := 3

  /** `getShareLevelStr`. */
  function ShareLevelStr(sharelevel: int): (r: seq<char>)
    ensures ACCESS_UNKNOWN <= sharelevel <= ACCESS_OWNER <==> r != "UNEXPECTED"
  {
    if sharelevel == ACCESS_UNKNOWN then "UNKNOWN"
    else if sharelevel == ACCESS_READ then "READ"
    else if sharelevel == ACCESS_READWRITE then "READWRITE"
    else if sharelevel == ACCESS_FULL then "FULL"
    else if sharelevel == ACCESS_OWNER then "OWNER"
    else "UNEXPECTED"
  }

  /** `atoi`: the strtol value, 0 when there are no digits. */
  function Atoi(t: seq<char>): int
  {
    Strtol(t).1
  }

  /** `getShareLevelNum`: the five names, "UNEXPECTED" as -9, anything else through atoi. */
  function ShareLevelNum(level: seq<char>): (r: int)
    ensures CStr(level) == "UNEXPECTED" ==> r == -9
  {
    var l := CStr(level);
    if l == "UNKNOWN" then ACCESS_UNKNOWN
    else if l == "READ" then ACCESS_READ
    else if l == "READWRITE" then ACCESS_READWRITE
    else if l == "FULL" then ACCESS_FULL
    else if l == "OWNER" then ACCESS_OWNER
    else if l == "UNEXPECTED" then -9
    else Atoi(l)
  }

  /** A share level's name reads back as the level; any other number comes back as -9. */
  lemma ShareLevelRoundTrip(sharelevel: int)
    ensures ACCESS_UNKNOWN <= sharelevel <= ACCESS_OWNER ==> ShareLevelNum(ShareLevelStr(sharelevel)) == sharelevel
    ensures !(ACCESS_UNKNOWN <= sharelevel <= ACCESS_OWNER) ==> ShareLevelNum(ShareLevelStr(sharelevel)) == -9
  {
    CStrNoNul(ShareLevelStr(sharelevel));
  }

  // ---------------------------------------------------------------------
  // Octal permissions (src/megacmdutils.cpp:1216-1243)

  /** `readablePermissions`: the owner, group and other bits as three octal digits. */
  function ReadablePermissions(permvalue: int): (r: seq<char>)
    ensures |r| == 3 && forall i :: 0 <= i < 3 ==> '0' <= r[i] <= '7'
  {
    var owner := (permvalue / 64) % 8;
    var group := (permvalue / 8) % 8;
    var others := permvalue % 8;
    [DigitChar(owner), DigitChar(group), DigitChar(others)]
  }

  function OctalDigit(c: char): (d: int)
  {
    (c as int) - ('0' as int)
  }

  /** `permissionsFromReadable`: exactly three digits 0-7 give their octal value, anything else -1. */
  function PermissionsFromReadable(permissions: seq<char>): (r: int)
    ensures -1 <= r <= 511
    ensures r == -1 <==> !(|permissions| == 3 && forall i :: 0 <= i < 3 ==> '0' <= permissions[i] <= '7')
  {
    if |permissions| == 3 then
      var owner := OctalDigit(permissions[0]);
      var group := OctalDigit(permissions[1]);
      var others := OctalDigit(permissions[2]);
      if owner < 0 || owner > 7 || group < 0 || group > 7 || others < 0 || others > 7 then -1
      else owner * 64 + group * 8 + others
    else -1
  }

  /** The octal digits of a value below 0777 recombine to it, and digits split back out. */
  lemma OctalSplit(o: int, g: int, x: int)
    requires 0 <= o < 8 && 0 <= g < 8 && 0 <= x < 8
    ensures var v := o * 64 + g * 8 + x; (v / 64) % 8 == o && (v / 8) % 8 == g && v % 8 == x
  {
    var v := o * 64 + g * 8 + x;
    assert v / 64 == o;
    assert v / 8 == o * 8 + g;
    assert (o * 8 + g) % 8 == g;
  }

  lemma OctalJoin(p: int)
    requires 0 <= p <= 511
    ensures (p / 64) % 8 * 64 + (p / 8) % 8 * 8 + p % 8 == p
  {
    assert (p / 64) % 8 == p / 64;
    assert p / 8 == (p / 64) * 8 + (p / 8) % 8;
  }

  /** The two conversions are inverse on 0..0777 and on the three-digit strings. */
  lemma PermissionsRoundTrip(p: int, s: seq<char>)
    ensures 0 <= p <= 511 ==> PermissionsFromReadable(ReadablePermissions(p)) == p
    ensures PermissionsFromReadable(s) != -1 ==> ReadablePermissions(PermissionsFromReadable(s)) == s
  {
    if 0 <= p <= 511 {
      OctalJoin(p);
    }
    if PermissionsFromReadable(s) != -1 {
      var o, g, x := OctalDigit(s[0]), OctalDigit(s[1]), OctalDigit(s[2]);
      OctalSplit(o, g, x);
      var r := ReadablePermissions(o * 64 + g * 8 + x);
      assert r[0] == DigitChar(o) == s[0];
      assert r[1] == DigitChar(g) == s[1];
      assert r[2] == DigitChar(x) == s[2];
    }
  }

  // ---------------------------------------------------------------------
  // getReadablePeriod (src/megacmdutils.cpp:618-643)

  /** C++ `%` on long long, whose sign follows the dividend. */
  function TruncRem(a: int, b: int): int
    requires b > 0
  {
    a - b * TruncDiv(a, b)
  }

  const YEAR_SECS: int := 31557600
  const MONTH_SECS: int := 2629800
  const DAY_SECS: int := 86400

  /** The years, months, days, hours, minutes and seconds the code splits a period into. */
  function Period(rawtime: int): (r: seq<int>)
    ensures |r| == 6
  {
    var years := TruncDiv(rawtime, YEAR_SECS);
    var rest1 := TruncRem(rawtime, YEAR_SECS);
    var months := TruncDiv(rest1, MONTH_SECS);
    var rest2 := TruncRem(rest1, MONTH_SECS);
    var days := TruncDiv(rest2, DAY_SECS);
    var rest3 := TruncRem(rest2, DAY_SECS);
    var hours := TruncDiv(rest3, 3600);
    var rest4 := TruncRem(rest3, 3600);
    [years, months, days, hours, TruncDiv(rest4, 60), TruncRem(rest4, 60)]
  }

  const PeriodUnits: seq<char> := "ymdhMs"

  /** A component and its unit letter, or nothing for a zero component. */
  function PeriodPart(n: int, unit: char): (r: seq<char>)
  {
    if n != 0 then IntToString(n) + [unit] else []
  }

  function PeriodParts(cs: seq<int>, units: seq<char>): (r: seq<char>)
    requires |cs| == |units|
  {
    if |cs| == 0 then [] else PeriodPart(cs[0], units[0]) + PeriodParts(cs[1..], units[1..])
  }

  /** `getReadablePeriod`: the non-zero components with their units, or "0s". */
  function ReadablePeriod(rawtime: int): (r: seq<char>)
  {
    var t := PeriodParts(Period(rawtime), PeriodUnits);
    if |t| > 0 then t else "0s"
  }

  /** The components add back up to the period and are within their ranges. */
  lemma PeriodDecomposes(rawtime: int)
    ensures var c := Period(rawtime);
            c[0] * YEAR_SECS + c[1] * MONTH_SECS + c[2] * DAY_SECS + c[3] * 3600 + c[4] * 60 + c[5] == rawtime
    ensures rawtime >= 0 ==> forall i :: 0 <= i < 6 ==> Period(rawtime)[i] >= 0
    ensures rawtime >= 0 ==> var c := Period(rawtime);
            c[1] < 12 && c[2] <= 30 && c[3] < 24 && c[4] < 60 && c[5] < 60
  {
  }

  /** A rendered part list is empty only when every component is zero, and never starts with '0'. */
  lemma {:induction false} PeriodPartsShape(cs: seq<int>, units: seq<char>)
    requires |cs| == |units|
    ensures |PeriodParts(cs, units)| == 0 <==> forall i :: 0 <= i < |cs| ==> cs[i] == 0
    ensures |PeriodParts(cs, units)| > 0 ==> PeriodParts(cs, units)[0] != '0'
    decreases |cs|
  {
    if |cs| > 0 {
      PeriodPartsShape(cs[1..], units[1..]);
      if cs[0] != 0 {
        var n := cs[0];
        assert IntToString(n)[0] != '0' by {
          if n < 0 { assert IntToString(n)[0] == '-'; }
        }
      } else {
        assert forall i :: 1 <= i < |cs| ==> cs[i] == cs[1..][i - 1];
      }
    }
  }

  /** The period reads "0s" exactly for zero. */
  lemma ReadablePeriodZero(rawtime: int)
    ensures ReadablePeriod(rawtime) == "0s" <==> rawtime == 0
  {
    var c := Period(rawtime);
    PeriodPartsShape(c, PeriodUnits);
    if rawtime != 0 {
      SomeComponentNonZero(rawtime);
    }
  }

  /** A non-zero period has a non-zero component. */
  lemma SomeComponentNonZero(rawtime: int)
    requires rawtime != 0
    ensures exists i :: 0 <= i < |Period(rawtime)| && Period(rawtime)[i] != 0
  {
    var c := Period(rawtime);
    PeriodDecomposes(rawtime);
    if c[0] != 0 {
      assert c[0] != 0;
    } else if c[1] != 0 {
      assert c[1] != 0;
    } else if c[2] != 0 {
      assert c[2] != 0;
    } else if c[3] != 0 {
      assert c[3] != 0;
    } else if c[4] != 0 {
      assert c[4] != 0;
    } else {
      assert c[5] == rawtime;
    }
  }

  // ---------------------------------------------------------------------
  // getLinkType (src/megacmdutils.cpp:432-454)

  const TYPE_UNKNOWN: int := -1
  const TYPE_FILE: int := 0
  const TYPE_FOLDER: int := 1

  /** `getLinkType`: the tests in their order of precedence. */
  function LinkType(link: seq<char>): (r: int)
    ensures Contains(link, "/folder/") ==> r == TYPE_FOLDER
    ensures !Contains(link, "/folder/") && Contains(link, "/file/") ==> r == TYPE_FILE
    ensures !Contains(link, "/folder/") && !Contains(link, "/file/") ==>
              (r == TYPE_UNKNOWN <==> '#' !in link || FindChar(link, '#').value == |link| - 1)
    ensures !Contains(link, "/folder/") && !Contains(link, "/file/") && '#' in link ==>
              var h := FindChar(link, '#').value;
              h + 1 < |link| ==> (r == TYPE_FOLDER <==> link[h + 1] == 'F')
  {
    if Contains(link, "/folder/") then TYPE_FOLDER
    else if Contains(link, "/file/") then TYPE_FILE
    else match FindChar(link, '#')
      case None => TYPE_UNKNOWN
      case Some(posHash) =>
        if !(posHash + 1 < |link|) then TYPE_UNKNOWN
        else if link[posHash + 1] == 'F' then TYPE_FOLDER
        else TYPE_FILE
  }

  // ---------------------------------------------------------------------
  // nodeNameIsVersion (src/megacmdutils.cpp:1120-1136)

  /** A versioned node name: longer than 12, '#' eleven from the end, then ten digits. */
  predicate IsVersionName(nodeName: seq<char>)
  {
    |nodeName| > 12 && nodeName[|nodeName| - 11] == '#' && AllDigits(nodeName[|nodeName| - 10..])
  }

  /** The digit loop of `nodeNameIsVersion`. */
  method NodeNameIsVersion(nodeName: seq<char>) returns (isversion: bool)
    ensures isversion <==> IsVersionName(nodeName)
  {
    isversion := false;
    if |nodeName| > 12 && nodeName[|nodeName| - 11] == '#' {
      var i := |nodeName| - 10;
      while i < |nodeName|
        invariant |nodeName| - 10 <= i <= |nodeName|
        invariant forall k :: |nodeName| - 10 <= k < i ==> IsDigit(nodeName[k])
        invariant isversion <==> i == |nodeName| && AllDigits(nodeName[|nodeName| - 10..])
      {
        if nodeName[i] > '9' || nodeName[i] < '0' {
          break;
        }
        if i == |nodeName| - 1 {
          isversion := true;
        }
        i := i + 1;
      }
    }
  }

  // ---------------------------------------------------------------------
  // getMinAndMaxSize (src/megacmdutils.cpp:877-937)

  /** The result and the two sizes the function writes (-1 for "no bound"). */
  datatype SizeRange = SizeRange(ok: bool, minSize: int, maxSize: int)

  /** A one-character occurrence found by `find` is that character. */
  lemma SignAt(s: seq<char>, c: char, q: nat)
    requires OccursAt(s, [c], q)
    ensures q < |s| && s[q] == c
  {
    assert s[q..q + 1][0] == s[q];
  }

  /**
   * `getMinAndMaxSize`: "+A[-B]" gives minimum A and maximum B, "-A[+B]"
   * gives maximum A and minimum B; each part goes through `textToSize`.
   */
  function MinAndMaxSize(sizestring: seq<char>): (r: SizeRange)
    ensures (|sizestring| == 0 || (sizestring[0] != '+' && sizestring[0] != '-')) ==> r == SizeRange(false, -1, -1)
    ensures r.ok ==> r.minSize >= -1 && r.maxSize >= -1
  {
    if |sizestring| == 0 then SizeRange(false, -1, -1)
    else if sizestring[0] == '+' then MinThenMax(sizestring)
    else if sizestring[0] == '-' then MaxThenMin(sizestring)
    else SizeRange(false, -1, -1)
  }

  /** The "+A[-B]" branch of `getMinAndMaxSize`. */
  function MinThenMax(sizestring: seq<char>): (r: SizeRange)
    requires |sizestring| > 0 && sizestring[0] == '+'
    ensures r.ok ==> r.minSize >= -1 && r.maxSize >= -1
  {
    var posmax := Find(sizestring, "-", 0);
    var first := match posmax case None => sizestring[1..] case Some(q) => (SignAt(sizestring, '-', q); sizestring[1..q]);
    var mn := TextToSize(first);
    TextToSizeFails(first);
    if mn == -1 then SizeRange(false, -1, -1)
    else match posmax
      case None => SizeRange(true, mn, -1)
      case Some(q) =>
        var mx := TextToSize(sizestring[q + 1..]);
        TextToSizeFails(sizestring[q + 1..]);
        if mx == -1 then SizeRange(false, mn, -1) else SizeRange(true, mn, mx)
  }

  /** The "-A[+B]" branch of `getMinAndMaxSize`. */
  function MaxThenMin(sizestring: seq<char>): (r: SizeRange)
    requires |sizestring| > 0 && sizestring[0] == '-'
    ensures r.ok ==> r.minSize >= -1 && r.maxSize >= -1
  {
    var posmin := Find(sizestring, "+", 0);
    var first := match posmin case None => sizestring[1..] case Some(q) => (SignAt(sizestring, '+', q); sizestring[1..q]);
    var mx := TextToSize(first);
    TextToSizeFails(first);
    if mx == -1 then SizeRange(false, -1, -1)
    else match posmin
      case None => SizeRange(true, -1, mx)
      case Some(q) =>
        var mn := TextToSize(sizestring[q + 1..]);
        TextToSizeFails(sizestring[q + 1..]);
        if mn == -1 then SizeRange(false, -1, mx) else SizeRange(true, mn, mx)
  }

  /** Size texts built from amounts and unit letters hold no sign. */
  lemma {:induction false} RenderNoSign(cs: seq<(nat, Unit)>)
    ensures '-' !in Render(cs) && '+' !in Render(cs)
    decreases |cs|
  {
    if |cs| > 0 {
      RenderNoSign(cs[1..]);
      var d := NatToString(cs[0].0);
      assert forall i :: 0 <= i < |d| ==> IsDigit(d[i]);
      assert Render(cs) == d + [Letter(cs[0].1)] + Render(cs[1..]);
    }
  }

  /** `find` of a single character gives its first position. */
  lemma FindFirstOf(t: seq<char>, c: char, q: nat)
    requires q < |t| && t[q] == c && forall k :: 0 <= k < q ==> t[k] != c
    ensures Find(t, [c], 0) == Some(q)
  {
    assert t[q..q + 1] == [c];
    assert OccursAt(t, [c], q);
    var r := Find(t, [c], 0);
    if r.Some? && r.value != q {
      SignAt(t, c, r.value);
    }
  }

  lemma FindAbsent(t: seq<char>, c: char)
    requires c !in t
    ensures Find(t, [c], 0).None?
  {
    var r := Find(t, [c], 0);
    if r.Some? {
      SignAt(t, c, r.value);
    }
  }

  /** "+A" reads back as the minimum A with no maximum. */
  lemma MinSizeOnly(a: seq<(nat, Unit)>)
    ensures MinAndMaxSize("+" + Render(a)) == SizeRange(true, Total(a), -1)
  {
    var ra := Render(a);
    RenderNoSign(a);
    TextToSizeOfRendered(a);
    var s1 := "+" + ra;
    FindAbsent(s1, '-');
    assert s1[1..] == ra;
  }

  /** Both parts of a "+A-B" text are read with textToSize. */
  lemma PlusMinusRange(s: seq<char>, q: nat, first: seq<char>, second: seq<char>)
    requires |s| > 0 && s[0] == '+'
    requires Find(s, "-", 0) == Some(q) && 1 <= q && first == s[1..q] && second == s[q + 1..]
    requires TextToSize(first) >= 0 && TextToSize(second) >= 0
    ensures MinAndMaxSize(s) == SizeRange(true, TextToSize(first), TextToSize(second))
  {
  }

  /** Both parts of a "-A+B" text are read with textToSize. */
  lemma MinusPlusRange(s: seq<char>, q: nat, first: seq<char>, second: seq<char>)
    requires |s| > 0 && s[0] == '-'
    requires Find(s, "+", 0) == Some(q) && 1 <= q && first == s[1..q] && second == s[q + 1..]
    requires TextToSize(first) >= 0 && TextToSize(second) >= 0
    ensures MinAndMaxSize(s) == SizeRange(true, TextToSize(second), TextToSize(first))
  {
  }

  /** The layout of sign + A + other + B. */
  lemma TwoPartLayout(s: seq<char>, sign: char, other: char, ra: seq<char>, rb: seq<char>)
    requires s == [sign] + ra + [other] + rb && other !in ra && sign != other
    ensures Find(s, [other], 0) == Some(1 + |ra|) && s[1..1 + |ra|] == ra && s[1 + |ra| + 1..] == rb
  {
    assert forall k :: 1 <= k < 1 + |ra| ==> s[k] == ra[k - 1];
    FindFirstOf(s, other, 1 + |ra|);
  }

  /** "+A-B" reads back as the minimum A and the maximum B. */
  lemma MinThenMaxSize(a: seq<(nat, Unit)>, b: seq<(nat, Unit)>)
    ensures MinAndMaxSize("+" + Render(a) + "-" + Render(b)) == SizeRange(true, Total(a), Total(b))
  {
    var ra, rb := Render(a), Render(b);
    RenderNoSign(a);
    TextToSizeOfRendered(a);
    TextToSizeOfRendered(b);
    var s2 := "+" + ra + "-" + rb;
    TwoPartLayout(s2, '+', '-', ra, rb);
    PlusMinusRange(s2, 1 + |ra|, ra, rb);
  }

  /** "-A" reads back as the maximum A with no minimum. */
  lemma MaxSizeOnly(a: seq<(nat, Unit)>)
    ensures MinAndMaxSize("-" + Render(a)) == SizeRange(true, -1, Total(a))
  {
    var ra := Render(a);
    RenderNoSign(a);
    TextToSizeOfRendered(a);
    var s1 := "-" + ra;
    FindAbsent(s1, '+');
    assert s1[1..] == ra;
  }

  /** "-A+B" reads back as the maximum A and the minimum B. */
  lemma MaxThenMinSize(a: seq<(nat, Unit)>, b: seq<(nat, Unit)>)
    ensures MinAndMaxSize("-" + Render(a) + "+" + Render(b)) == SizeRange(true, Total(b), Total(a))
  {
    var ra, rb := Render(a), Render(b);
    RenderNoSign(a);
    TextToSizeOfRendered(a);
    TextToSizeOfRendered(b);
    var s2 := "-" + ra + "+" + rb;
    TwoPartLayout(s2, '-', '+', ra, rb);
    MinusPlusRange(s2, 1 + |ra|, ra, rb);
  }

  // ---------------------------------------------------------------------
  // setOptionsAndFlags (src/megacmdutils.cpp:1138-1212)

  /** What the scan leaves behind: the result, the two maps and the remaining words. */
  datatype OptionScan = OptionScan(discarded: bool, opts: map<seq<char>, seq<char>>,
                                   flags: map<seq<char>, int>, ws: seq<seq<char>>)

  /** A counted flag: its count goes up by one. */
  function Bump(flags: map<seq<char>, int>, name: seq<char>): (r: map<seq<char>, int>)
    ensures GetFlag(r, name) == GetFlag(flags, name) + 1
    ensures forall k :: k != name ==> GetFlag(r, k) == GetFlag(flags, k)
  {
    flags[name := GetFlag(flags, name) + 1]
  }

  /** The letters of a word "-abc": each valid one counted in order, an invalid one reported. */
  function ShortFlags(flags: map<seq<char>, int>, cs: seq<char>, valid: set<seq<char>>): (r: (map<seq<char>, int>, bool))
    decreases |cs|
  {
    if |cs| == 0 then (flags, false)
    else
      var name := [cs[0]];
      var rest := ShortFlags(if name in valid then Bump(flags, name) else flags, cs[1..], valid);
      (rest.0, rest.1 || name !in valid)
  }

  /** The name of an "--name=value" word and the text after its '='. */
  function OptionParts(w: seq<char>): (r: (seq<char>, seq<char>))
  {
    var cleared := LTrim(w, '-');
    match FindChar(cleared, '=')
    case Some(p) => (cleared[..p], cleared[p + 1..])
    case None => (cleared, cleared)
  }

  /** The value stored for an option: leading quotes and one trailing quote removed. */
  function Unquoted(value: seq<char>): seq<char>
  {
    RTrim(LTrim(value, '"'), '"')
  }

  /**
   * One dash word other than "--": "-abc" counts each letter, "--name" counts
   * the flag name, "--name=value" stores the option; the boolean tells whether
   * a name was not valid.
   */
  function DashStep(opts: map<seq<char>, seq<char>>, flags: map<seq<char>, int>, w: seq<char>, valid: set<seq<char>>)
    : (r: (map<seq<char>, seq<char>>, map<seq<char>, int>, bool))
    requires |w| > 0
  {
    if |w| > 1 && w[1] != '-' then
      var sf := ShortFlags(flags, w[1..], valid);
      (opts, sf.0, sf.1)
    else if '=' !in w then
      var name := LTrim(w, '-');
      if name in valid then (opts, Bump(flags, name), false) else (opts, flags, true)
    else
      var (name, value) := OptionParts(w);
      if name in valid then (opts[name := Unquoted(value)], flags, false) else (opts, flags, true)
  }

  /**
   * Reference definition of the scan: the words in rest are processed front
   * to back; words starting with '-' are consumed by DashStep, "--" is removed
   * and ends the scan, and the other words are kept (or, in global mode, end
   * the scan with everything after them left).
   */
  function ScanOptions(opts: map<seq<char>, seq<char>>, flags: map<seq<char>, int>, kept: seq<seq<char>>,
                       rest: seq<seq<char>>, valid: set<seq<char>>, global: bool, discarded: bool): (r: OptionScan)
    decreases |rest|
  {
    if |rest| == 0 then OptionScan(discarded, opts, flags, kept)
    else
      var w := rest[0];
      if IsDashWord(w) then
        if w == "--" then OptionScan(discarded, opts, flags, kept + rest[1..])
        else
          var st := DashStep(opts, flags, w, valid);
          ScanOptions(st.0, st.1, kept, rest[1..], valid, global, discarded || st.2)
      else if global then OptionScan(discarded, opts, flags, kept + rest)
      else ScanOptions(opts, flags, kept + [w], rest[1..], valid, global, discarded)
  }

  /** The inner loop over the letters of a "-abc" word. */
  method CountShortFlags(flags0: map<seq<char>, int>, w: seq<char>, valid: set<seq<char>>)
    returns (flags: map<seq<char>, int>, discarded: bool)
    requires |w| >= 1
    ensures (flags, discarded) == ShortFlags(flags0, w[1..], valid)
  {
    flags, discarded := flags0, false;
    var i := 1;
    while i < |w|
      invariant 1 <= i <= |w|
      invariant var r := ShortFlags(flags, w[i..], valid); (r.0, r.1 || discarded) == ShortFlags(flags0, w[1..], valid)
    {
      var optname := w[i..i + 1];
      assert optname == [w[i..][0]] && w[i..][1..] == w[i + 1..];
      if optname in valid {
        flags := flags[optname := GetFlag(flags, optname) + 1];
      } else {
        discarded := true;
      }
      i := i + 1;
    }
  }

  /**
   * `setOptionsAndFlags`: the erase loop over ws, updating the option and
   * flag maps; the result tells whether some name was not valid.
   */
  method SetOptionsAndFlags(opts0: map<seq<char>, seq<char>>, flags0: map<seq<char>, int>, ws0: seq<seq<char>>,
                            vvalidOptions: set<seq<char>>, global: bool)
    returns (discarded: bool, opts: map<seq<char>, seq<char>>, flags: map<seq<char>, int>, ws: seq<seq<char>>)
    ensures OptionScan(discarded, opts, flags, ws) == ScanOptions(opts0, flags0, [], ws0, vvalidOptions, global, false)
  {
    discarded, opts, flags, ws := false, opts0, flags0, ws0;
    ghost var kept: seq<seq<char>> := [];
    ghost var rest := ws0;
    var it := 0;
    while it < |ws|
      invariant it == |kept| && ws == kept + rest
      invariant ScanOptions(opts, flags, kept, rest, vvalidOptions, global, discarded)
                == ScanOptions(opts0, flags0, [], ws0, vvalidOptions, global, false)
      decreases |rest|
    {
      var w := ws[it];
      assert w == rest[0];
      if |w| > 0 && w[0] == '-' {
        if |w| > 1 && w[1] != '-' {
          var bad;
          flags, bad := CountShortFlags(flags, w, vvalidOptions);
          discarded := discarded || bad;
        } else if w == "--" {
          ws := ws[..it] + ws[it + 1..];
          assert ws == kept + rest[1..];
          return;
        } else if FindChar(w, '=').None? {
          var optname := LTrim(w, '-');
          if optname in vvalidOptions {
            flags := flags[optname := GetFlag(flags, optname) + 1];
          } else {
            discarded := true;
          }
        } else {
          var cleared := LTrim(w, '-');
          var optname, value;
          match FindChar(cleared, '=') {
            case Some(p) =>
              optname, value := cleared[..p], cleared[p + 1..];
            case None =>
              optname, value := cleared, cleared;
          }
          if optname in vvalidOptions {
            value := RTrim(LTrim(value, '"'), '"');
            opts := opts[optname := value];
          } else {
            discarded := true;
          }
        }
        ws := ws[..it] + ws[it + 1..];
        assert ws == kept + rest[1..];
        rest := rest[1..];
      } else {
        if global {
          return;
        }
        it := it + 1;
        kept := kept + [w];
        rest := rest[1..];
      }
    }
  }

  /** Each letter of "-abc" adds one to its own count when valid; the word is reported iff a letter is invalid. */
  lemma {:induction false} ShortFlagsCount(flags: map<seq<char>, int>, cs: seq<char>, valid: set<seq<char>>, k: seq<char>)
    ensures GetFlag(ShortFlags(flags, cs, valid).0, k)
            == GetFlag(flags, k) + (if k in valid && |k| == 1 then multiset(cs)[k[0]] else 0)
    ensures ShortFlags(flags, cs, valid).1 <==> exists i :: 0 <= i < |cs| && [cs[i]] !in valid
    decreases |cs|
  {
    if |cs| > 0 {
      var name := [cs[0]];
      var flags' := if name in valid then Bump(flags, name) else flags;
      ShortFlagsCount(flags', cs[1..], valid, k);
      assert cs == [cs[0]] + cs[1..];
      assert multiset(cs) == multiset{cs[0]} + multiset(cs[1..]);
      if |k| == 1 {
        assert k == [k[0]];
      }
      if ShortFlags(flags', cs[1..], valid).1 {
        var i :| 0 <= i < |cs[1..]| && [cs[1..][i]] !in valid;
        assert [cs[i + 1]] !in valid;
      }
      if exists i :: 0 <= i < |cs| && [cs[i]] !in valid {
        var i :| 0 <= i < |cs| && [cs[i]] !in valid;
        if i > 0 {
          assert [cs[1..][i - 1]] !in valid;
        }
      }
    }
  }

  /** A consumed word that names something not valid (what makes the result true). */
  predicate HasInvalid(w: seq<char>, valid: set<seq<char>>)
  {
    IsDashWord(w) &&
    if |w| > 1 && w[1] != '-' then exists i :: 1 <= i < |w| && [w[i]] !in valid
    else if w == "--" then false
    else if '=' !in w then LTrim(w, '-') !in valid
    else OptionParts(w).0 !in valid
  }

  /** DashStep reports a word exactly when the word names something not valid. */
  lemma DashStepReports(opts: map<seq<char>, seq<char>>, flags: map<seq<char>, int>, w: seq<char>, valid: set<seq<char>>)
    requires IsDashWord(w) && w != "--"
    ensures DashStep(opts, flags, w, valid).2 <==> HasInvalid(w, valid)
  {
    if |w| > 1 && w[1] != '-' {
      var sf := ShortFlags(flags, w[1..], valid);
      ShortFlagsCount(flags, w[1..], valid, []);
      if sf.1 {
        var i :| 0 <= i < |w[1..]| && [w[1..][i]] !in valid;
        assert [w[i + 1]] !in valid;
      }
      if HasInvalid(w, valid) {
        var i :| 1 <= i < |w| && [w[i]] !in valid;
        assert [w[1..][i - 1]] !in valid;
      }
    }
  }

  /** DashStep only raises counts and only adds option names. */
  lemma DashStepMonotone(opts: map<seq<char>, seq<char>>, flags: map<seq<char>, int>, w: seq<char>, valid: set<seq<char>>, k: seq<char>)
    requires |w| > 0
    ensures GetFlag(DashStep(opts, flags, w, valid).1, k) >= GetFlag(flags, k)
    ensures k in opts ==> k in DashStep(opts, flags, w, valid).0
  {
    if |w| > 1 && w[1] != '-' {
      ShortFlagsCount(flags, w[1..], valid, k);
    }
  }

  /** Some word of rest is invalid iff the first one is or some later one is. */
  lemma InvalidSplit(rest: seq<seq<char>>, valid: set<seq<char>>)
    requires |rest| > 0
    ensures (exists i :: 0 <= i < |rest| && HasInvalid(rest[i], valid))
            <==> HasInvalid(rest[0], valid) || exists i :: 0 <= i < |rest[1..]| && HasInvalid(rest[1..][i], valid)
  {
    if exists i :: 0 <= i < |rest| && HasInvalid(rest[i], valid) {
      var i :| 0 <= i < |rest| && HasInvalid(rest[i], valid);
      if i > 0 { assert HasInvalid(rest[1..][i - 1], valid); }
    }
  }

  /**
   * Without "--" and outside global mode every word is looked at: the words
   * left are exactly the non-dash ones, in order, and the result is true iff
   * some dash word names something not valid.
   */
  lemma {:induction false} ScanWithoutStop(opts: map<seq<char>, seq<char>>, flags: map<seq<char>, int>, kept: seq<seq<char>>,
                                           rest: seq<seq<char>>, valid: set<seq<char>>, discarded: bool)
    requires forall i :: 0 <= i < |rest| ==> rest[i] != "--"
    ensures ScanOptions(opts, flags, kept, rest, valid, false, discarded).ws == kept + NonDashWords(rest)
    ensures ScanOptions(opts, flags, kept, rest, valid, false, discarded).discarded
            <==> discarded || exists i :: 0 <= i < |rest| && HasInvalid(rest[i], valid)
    decreases |rest|
  {
    if |rest| > 0 {
      var w := rest[0];
      var tail := rest[1..];
      assert forall i :: 0 <= i < |tail| ==> tail[i] == rest[i + 1];
      InvalidSplit(rest, valid);
      if IsDashWord(w) {
        var st := DashStep(opts, flags, w, valid);
        DashStepReports(opts, flags, w, valid);
        ScanWithoutStop(st.0, st.1, kept, tail, valid, discarded || st.2);
      } else {
        ScanWithoutStop(opts, flags, kept + [w], tail, valid, discarded);
        assert kept + [w] + NonDashWords(tail) == kept + NonDashWords(rest);
      }
    }
  }

  /** "--" ends the scan: the words after it are left untouched, and only "--" itself is removed. */
  lemma {:induction false} ScanStopsAtDoubleDash(opts: map<seq<char>, seq<char>>, flags: map<seq<char>, int>, kept: seq<seq<char>>,
                                                 rest: seq<seq<char>>, valid: set<seq<char>>, discarded: bool, i: nat)
    requires i < |rest| && rest[i] == "--"
    requires forall j :: 0 <= j < i ==> rest[j] != "--"
    ensures ScanOptions(opts, flags, kept, rest, valid, false, discarded).ws
            == kept + NonDashWords(rest[..i]) + rest[i + 1..]
    decreases i
  {
    var w := rest[0];
    var tail := rest[1..];
    if i == 0 {
      assert NonDashWords(rest[..0]) == [];
    } else {
      assert tail[i - 1] == "--";
      assert forall j :: 0 <= j < i - 1 ==> tail[j] == rest[j + 1];
      if IsDashWord(w) {
        var st := DashStep(opts, flags, w, valid);
        ScanStopsAtDoubleDash(st.0, st.1, kept, tail, valid, discarded || st.2, i - 1);
        StopAfterDashWord(opts, flags, kept, rest, valid, discarded, i);
      } else {
        ScanStopsAtDoubleDash(opts, flags, kept + [w], tail, valid, discarded, i - 1);
        StopAfterPlainWord(opts, flags, kept, rest, valid, discarded, i);
      }
    }
  }

  /** The step of ScanStopsAtDoubleDash past a dash word that is not "--". */
  lemma StopAfterDashWord(opts: map<seq<char>, seq<char>>, flags: map<seq<char>, int>, kept: seq<seq<char>>,
                          rest: seq<seq<char>>, valid: set<seq<char>>, discarded: bool, i: nat)
    requires 0 < i < |rest| && rest[0] != "--" && IsDashWord(rest[0])
    requires var st := DashStep(opts, flags, rest[0], valid);
             ScanOptions(st.0, st.1, kept, rest[1..], valid, false, discarded || st.2).ws
             == kept + NonDashWords(rest[1..][..i - 1]) + rest[1..][i..]
    ensures ScanOptions(opts, flags, kept, rest, valid, false, discarded).ws
            == kept + NonDashWords(rest[..i]) + rest[i + 1..]
  {
    ScanStep(opts, flags, kept, rest, valid, discarded);
    NonDashPrefix(rest, i);
    assert rest[1..][i..] == rest[i + 1..];
  }

  /** The step of ScanStopsAtDoubleDash past a word that is kept. */
  lemma StopAfterPlainWord(opts: map<seq<char>, seq<char>>, flags: map<seq<char>, int>, kept: seq<seq<char>>,
                           rest: seq<seq<char>>, valid: set<seq<char>>, discarded: bool, i: nat)
    requires 0 < i < |rest| && rest[0] != "--" && !IsDashWord(rest[0])
    requires ScanOptions(opts, flags, kept + [rest[0]], rest[1..], valid, false, discarded).ws
             == kept + [rest[0]] + NonDashWords(rest[1..][..i - 1]) + rest[1..][i..]
    ensures ScanOptions(opts, flags, kept, rest, valid, false, discarded).ws
            == kept + NonDashWords(rest[..i]) + rest[i + 1..]
  {
    ScanStep(opts, flags, kept, rest, valid, discarded);
    NonDashPrefix(rest, i);
    assert rest[1..][i..] == rest[i + 1..];
    assert kept + [rest[0]] + NonDashWords(rest[1..][..i - 1]) == kept + NonDashWords(rest[..i]);
  }

  /** One word of the scan outside global mode, when it is not "--". */
  lemma ScanStep(opts: map<seq<char>, seq<char>>, flags: map<seq<char>, int>, kept: seq<seq<char>>,
                 rest: seq<seq<char>>, valid: set<seq<char>>, discarded: bool)
    requires |rest| > 0 && rest[0] != "--"
    ensures IsDashWord(rest[0]) ==>
              var st := DashStep(opts, flags, rest[0], valid);
              ScanOptions(opts, flags, kept, rest, valid, false, discarded)
              == ScanOptions(st.0, st.1, kept, rest[1..], valid, false, discarded || st.2)
    ensures !IsDashWord(rest[0]) ==>
              ScanOptions(opts, flags, kept, rest, valid, false, discarded)
              == ScanOptions(opts, flags, kept + [rest[0]], rest[1..], valid, false, discarded)
  {
  }

  /** The non-dash words of a non-empty prefix: its first word when that is not a dash word, then those of the rest. */
  lemma NonDashPrefix(rest: seq<seq<char>>, i: nat)
    requires 0 < i <= |rest|
    ensures NonDashWords(rest[..i]) == (if IsDashWord(rest[0]) then [] else [rest[0]]) + NonDashWords(rest[1..][..i - 1])
  {
    assert rest[..i][0] == rest[0] && rest[..i][1..] == rest[1..][..i - 1];
  }

  /** In global mode the scan stops at the first word that is not an option: it and all after it are left. */
  lemma {:induction false} ScanGlobalStops(opts: map<seq<char>, seq<char>>, flags: map<seq<char>, int>, kept: seq<seq<char>>,
                                           rest: seq<seq<char>>, valid: set<seq<char>>, discarded: bool, i: nat)
    requires i < |rest| && !IsDashWord(rest[i])
    requires forall j :: 0 <= j < i ==> IsDashWord(rest[j]) && rest[j] != "--"
    ensures ScanOptions(opts, flags, kept, rest, valid, true, discarded).ws == kept + rest[i..]
    decreases i
  {
    if i > 0 {
      var w := rest[0];
      var tail := rest[1..];
      assert !IsDashWord(tail[i - 1]) && tail[i - 1..] == rest[i..];
      assert forall j :: 0 <= j < i - 1 ==> tail[j] == rest[j + 1];
      var st := DashStep(opts, flags, w, valid);
      ScanGlobalStops(st.0, st.1, kept, tail, valid, discarded || st.2, i - 1);
    }
  }

  /** Counts only go up, option names once set stay set, and a report is never withdrawn. */
  lemma {:induction false} ScanMonotone(opts: map<seq<char>, seq<char>>, flags: map<seq<char>, int>, kept: seq<seq<char>>,
                                        rest: seq<seq<char>>, valid: set<seq<char>>, global: bool, discarded: bool, k: seq<char>)
    ensures GetFlag(ScanOptions(opts, flags, kept, rest, valid, global, discarded).flags, k) >= GetFlag(flags, k)
    ensures k in opts ==> k in ScanOptions(opts, flags, kept, rest, valid, global, discarded).opts
    ensures discarded ==> ScanOptions(opts, flags, kept, rest, valid, global, discarded).discarded
    decreases |rest|
  {
    if |rest| > 0 {
      var w := rest[0];
      var tail := rest[1..];
      if IsDashWord(w) && w != "--" {
        var st := DashStep(opts, flags, w, valid);
        DashStepMonotone(opts, flags, w, valid, k);
        ScanMonotone(st.0, st.1, kept, tail, valid, global, discarded || st.2, k);
      } else if !IsDashWord(w) && !global {
        ScanMonotone(opts, flags, kept + [w], tail, valid, global, discarded, k);
      }
    }
  }

  /** The text of "--name=value" once its dashes are trimmed. */
  lemma OptionWordParts(name: seq<char>, value: seq<char>)
    requires |name| > 0 && name[0] != '-' && '=' !in name
    ensures OptionParts("--" + name + "=" + value) == (name, value)
  {
    var w := "--" + name + "=" + value;
    var x := name + "=" + value;
    assert w == "--" + x;
    LTrimPadding("--", '-', x);
    var p := FindChar(x, '=');
    assert x[|name|] == '=';
    assert forall k :: 0 <= k < |name| ==> x[k] == name[k];
    assert p.value == |name|;
    assert x[..|name|] == name && x[|name| + 1..] == value;
  }

  /** A word "--name=value" for a valid name stores the unquoted value under name and is removed. */
  lemma OptionWordStored(opts: map<seq<char>, seq<char>>, flags: map<seq<char>, int>, kept: seq<seq<char>>,
                         name: seq<char>, value: seq<char>, valid: set<seq<char>>, global: bool, discarded: bool)
    requires |name| > 0 && name[0] != '-' && '=' !in name && name in valid
    ensures ScanOptions(opts, flags, kept, ["--" + name + "=" + value], valid, global, discarded)
            == OptionScan(discarded, opts[name := Unquoted(value)], flags, kept)
  {
    var w := "--" + name + "=" + value;
    OptionWordParts(name, value);
    assert w[|name| + 2] == '=';
    assert w != "--" && IsDashWord(w) && w[1] == '-';
    assert ["--" + name + "=" + value][1..] == [];
  }

  /** A word "--name" for a valid name counts one more occurrence of that flag and is removed. */
  lemma LongFlagCounted(opts: map<seq<char>, seq<char>>, flags: map<seq<char>, int>, kept: seq<seq<char>>,
                        name: seq<char>, valid: set<seq<char>>, global: bool, discarded: bool)
    requires |name| > 0 && name[0] != '-' && '=' !in name && name in valid
    ensures ScanOptions(opts, flags, kept, ["--" + name], valid, global, discarded)
            == OptionScan(discarded, opts, Bump(flags, name), kept)
  {
    var w := "--" + name;
    LTrimPadding("--", '-', name);
    assert w[2] == name[0];
    assert '=' !in w by {
      forall k | 0 <= k < |w| ensures w[k] != '=' {
        if k >= 2 { assert w[k] == name[k - 2]; }
      }
    }
    assert w != "--" && IsDashWord(w) && w[1] == '-';
    assert [w][1..] == [];
  }
}
