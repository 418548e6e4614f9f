/**
 * Shared text helpers that mirror the C and C++ standard library calls the
 * program relies on: reading a C string past its end, `std::string::find`
 * and its relatives, `isdigit`/`isspace`, and decimal rendering as done by
 * `std::to_string`.
 *
 * A C++ `std::string` is modelled as a `seq<char>` holding one char per
 * byte.
 */
module Text {
  import opened Wrappers

  const NUL: char := 0 as char

  /** The byte a `const char*` walk sees at offset i: NUL past the end. */
  function At(s: seq<char>, i: int): char
  {
    if 0 <= i < |s| then s[i] else NUL
  }

  /** The C string `s.c_str()` denotes: everything before the first NUL. */
  function CStr(s: seq<char>): (r: seq<char>)
    ensures |r| <= |s| && r == s[..|r|]
    ensures NUL !in r
    ensures |r| < |s| ==> s[|r|] == NUL
  {
    if |s| == 0 then []
    else if s[0] == NUL then []
    else [s[0]] + CStr(s[1..])
  }

  /** A string without NUL is its own C string. */
  lemma {:induction false} CStrNoNul(s: seq<char>)
    requires NUL !in s
    ensures CStr(s) == s
    decreases |s|
  {
    if |s| > 0 {
      assert NUL !in s[1..];
      CStrNoNul(s[1..]);
    }
  }

  predicate IsDigit(c: char)
  {
    '0' <= c <= '9'
  }

  /** `isspace` in the C locale. */
  predicate IsSpace(c: char)
  {
    c == ' ' || c == '\t' || c == '\n' || c == '\r' || c == 11 as char || c == 12 as char
  }

  predicate AllDigits(s: seq<char>)
  {
    forall i :: 0 <= i < |s| ==> IsDigit(s[i])
  }

  function DigitValue(c: char): nat
    requires IsDigit(c)
  {
    (c as int) - ('0' as int)
  }

  /** The value of a run of decimal digits, most significant first. */
  function DigitsValue(s: seq<char>): nat
    requires AllDigits(s)
  {
    if |s| == 0 then 0 else 10 * DigitsValue(s[..|s| - 1]) + DigitValue(s[|s| - 1])
  }

  function DigitChar(d: nat): (c: char)
    requires d < 10
    ensures IsDigit(c) && DigitValue(c) == d
  {
    (('0' as int) + d) as char
  }

  /** Decimal rendering of a natural number without leading zeros ("0" for 0). */
  function NatToString(n: nat): (r: seq<char>)
    ensures |r| >= 1 && AllDigits(r)
    ensures DigitsValue(r) == n
    ensures n > 0 ==> r[0] != '0'
    ensures n < 10 ==> r == [DigitChar(n)]
  {
    if n < 10 then [DigitChar(n)]
    else
      var r := NatToString(n / 10) + [DigitChar(n % 10)];
      assert r[..|r| - 1] == NatToString(n / 10);
      r
  }

  lemma NatToStringInjective(a: nat, b: nat)
    requires NatToString(a) == NatToString(b)
    ensures a == b
  {
  }

  /** `std::to_string` on a signed integer. */
  function IntToString(i: int): (r: seq<char>)
    ensures i < 0 ==> r == "-" + NatToString(-i)
    ensures i >= 0 ==> r == NatToString(i)
  {
    if i < 0 then "-" + NatToString(-i) else NatToString(i)
  }

  predicate StartsWith(s: seq<char>, prefix: seq<char>)
  {
    |prefix| <= |s| && s[..|prefix|] == prefix
  }

  predicate OccursAt(s: seq<char>, pat: seq<char>, k: int)
  {
    0 <= k && k + |pat| <= |s| && s[k..k + |pat|] == pat
  }

  /** Character-by-character comparison of pat with s from k on. */
  function MatchesAt(s: seq<char>, pat: seq<char>, k: nat): bool
    decreases |pat|
  {
    if |pat| == 0 then k <= |s| else k < |s| && s[k] == pat[0] && MatchesAt(s, pat[1..], k + 1)
  }

  lemma {:induction false} MatchesAtIff(s: seq<char>, pat: seq<char>, k: nat)
    ensures MatchesAt(s, pat, k) <==> OccursAt(s, pat, k)
    decreases |pat|
  {
    if |pat| > 0 {
      MatchesAtIff(s, pat[1..], k + 1);
      if k + |pat| <= |s| {
        var w := s[k..k + |pat|];
        assert w[0] == s[k] && w[1..] == s[k + 1..k + 1 + |pat[1..]|];
        assert w == pat <==> w[0] == pat[0] && w[1..] == pat[1..] by {
          if w[0] == pat[0] && w[1..] == pat[1..] {
            assert w == [w[0]] + w[1..] && pat == [pat[0]] + pat[1..];
          }
        }
      }
    }
  }

  /** `s.find(pat, start)`: the first occurrence at or after start. */
  function Find(s: seq<char>, pat: seq<char>, start: nat): (r: Option<nat>)
    ensures r.Some? ==> start <= r.value && OccursAt(s, pat, r.value)
    ensures r.Some? ==> forall k :: start <= k < r.value ==> !OccursAt(s, pat, k)
    ensures r.None? ==> forall k :: start <= k ==> !OccursAt(s, pat, k)
    decreases |s| - start
  {
    MatchesAtIff(s, pat, start);
    if start + |pat| > |s| then None
    else if MatchesAt(s, pat, start) then Some(start)
    else Find(s, pat, start + 1)
  }

  predicate Contains(s: seq<char>, pat: seq<char>)
  {
    Find(s, pat, 0).Some?
  }

  lemma ContainsIff(s: seq<char>, pat: seq<char>)
    ensures Contains(s, pat) <==> exists k :: OccursAt(s, pat, k)
  {
  }

  /** `s.find(c)` for a single character. */
  function FindChar(s: seq<char>, c: char): (r: Option<nat>)
    ensures r.Some? ==> r.value < |s| && s[r.value] == c && c !in s[..r.value]
    ensures r.Some? ==> forall k :: 0 <= k < r.value ==> s[k] != c
    ensures r.None? <==> c !in s
    ensures r.None? ==> forall k :: 0 <= k < |s| ==> s[k] != c
  {
    if |s| == 0 then None
    else if s[0] == c then Some(0)
    else
      var t := FindChar(s[1..], c);
      if t.None? then None
      else
        assert s[..t.value + 1] == [s[0]] + s[1..][..t.value];
        Some(t.value + 1)
  }

  /** `s.find_last_of(c)` for a single character. */
  function FindLastChar(s: seq<char>, c: char): (r: Option<nat>)
    ensures r.Some? ==> r.value < |s| && s[r.value] == c && c !in s[r.value + 1..]
    ensures r.Some? ==> forall k :: r.value < k < |s| ==> s[k] != c
    ensures r.None? <==> c !in s
    ensures r.None? ==> forall k :: 0 <= k < |s| ==> s[k] != c
  {
    if |s| == 0 then None
    else if s[|s| - 1] == c then Some(|s| - 1)
    else
      var t := FindLastChar(s[..|s| - 1], c);
      if t.None? then
        assert s == s[..|s| - 1] + [s[|s| - 1]];
        None
      else
        assert s[t.value + 1..] == s[..|s| - 1][t.value + 1..] + [s[|s| - 1]];
        t
  }

  /** `s.find_first_not_of(c)`. */
  function FindFirstNot(s: seq<char>, c: char): (r: Option<nat>)
    ensures r.Some? ==> r.value < |s| && s[r.value] != c && forall k :: 0 <= k < r.value ==> s[k] == c
    ensures r.None? <==> forall k :: 0 <= k < |s| ==> s[k] == c
  {
    if |s| == 0 then None
    else if s[0] != c then Some(0)
    else
      var t := FindFirstNot(s[1..], c);
      if t.None? then None else Some(t.value + 1)
  }

  /** `s.find_last_not_of(c)`. */
  function FindLastNot(s: seq<char>, c: char): (r: Option<nat>)
    ensures r.Some? ==> r.value < |s| && s[r.value] != c && forall k :: r.value < k < |s| ==> s[k] == c
    ensures r.None? <==> forall k :: 0 <= k < |s| ==> s[k] == c
  {
    if |s| == 0 then None
    else if s[|s| - 1] != c then Some(|s| - 1)
    else FindLastNot(s[..|s| - 1], c)
  }

  /** One step of a loop that accumulates the front of a reference result. */
  lemma AccumulateStep<T>(acc: seq<T>, x: seq<T>, rest: seq<T>, whole: seq<T>, target: seq<T>)
    requires acc + whole == target && whole == x + rest
    ensures (acc + x) + rest == target
  {
  }

  /** Count of elements equal to true, as a fold `(args + ...)` over bools computes it. */
  function CountTrue(bs: seq<bool>): nat
  {
    if |bs| == 0 then 0 else (if bs[0] then 1 else 0) + CountTrue(bs[1..])
  }

  /** std::string's `<`: lexicographic by character, a proper prefix first. */
  predicate StringLess(a: string, b: string)
    decreases |a|
  {
    if a == [] then b != []
    else if b == [] then false
    else a[0] < b[0] || (a[0] == b[0] && StringLess(a[1..], b[1..]))
  }

  lemma {:induction false} StringLessIrreflexive(a: string)
    ensures !StringLess(a, a)
    decreases |a|
  {
    if a != [] {
      StringLessIrreflexive(a[1..]);
    }
  }

  lemma {:induction false} StringLessTransitive(a: string, b: string, c: string)
    requires StringLess(a, b) && StringLess(b, c)
    ensures StringLess(a, c)
    decreases |a|
  {
    if a != [] && b != [] && c != [] && a[0] == b[0] && b[0] == c[0] {
      StringLessTransitive(a[1..], b[1..], c[1..]);
    }
  }

  lemma {:induction false} StringLessTotal(a: string, b: string)
    requires a != b
    ensures StringLess(a, b) || StringLess(b, a)
    decreases |a|
  {
    if a != [] && b != [] && a[0] == b[0] {
      assert a == [a[0]] + a[1..] && b == [b[0]] + b[1..];
      StringLessTotal(a[1..], b[1..]);
    }
  }
}
