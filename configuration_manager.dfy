/**
 * The `megacmd.cfg` rewrites of configurationmanager.cpp and the `validatorULL`
 * closure of the configurators.
 *
 * The configuration file is modelled as the sequence of lines `getline`
 * yields; what is written back is again a sequence of lines, each of which
 * the source terminates with `endl`. The `const char*` arguments are C
 * strings, so they hold no NUL.
 */
module ConfigurationManager {
  import opened Wrappers
  import opened Text
  import CommonUtils

  // ---------------------------------------------------------------- lines and keys

  /** A line the rewrites look at: non-empty and not a '#' comment. */
  predicate Meaningful(line: seq<char>)
  {
    |line| > 0 && line[0] != '#'
  }

  /** The key of a `key=value` line: the text before the first '=', trailing spaces removed, read as a C string. */
  function Key(line: seq<char>): (r: Option<seq<char>>)
    ensures r.Some? <==> '=' in line
    ensures r.Some? ==> NUL !in r.value
  {
    match FindChar(line, '=')
    case None => None
    case Some(pos) => Some(CStr(CommonUtils.RTrimProperty(line[..pos], ' ')))
  }

  /** Everything after the first '='. */
  function ValueOf(line: seq<char>): seq<char>
    requires '=' in line
  {
    line[FindChar(line, '=').value + 1..]
  }

  /** A meaningful line whose key is `property` (the `strcmp` test). */
  predicate KeyIs(line: seq<char>, property: seq<char>)
  {
    Meaningful(line) && Key(line) == Some(property)
  }

  /** The lines `saveProperty` keeps: empty and comment lines are dropped. */
  function Filtered(lines: seq<seq<char>>): (r: seq<seq<char>>)
    ensures |r| <= |lines|
  {
    if lines == [] then []
    else (if Meaningful(lines[0]) then [lines[0]] else []) + Filtered(lines[1..])
  }

  lemma {:induction false} FilteredConcat(a: seq<seq<char>>, b: seq<seq<char>>)
    ensures Filtered(a + b) == Filtered(a) + Filtered(b)
  {
    if a != [] {
      var piece := if Meaningful(a[0]) then [a[0]] else [];
      assert (a + b)[0] == a[0] && (a + b)[1..] == a[1..] + b;
      assert Filtered(a + b) == piece + Filtered(a[1..] + b);
      FilteredConcat(a[1..], b);
      assert Filtered(a) == piece + Filtered(a[1..]);
    } else {
      assert a + b == b;
    }
  }

  /** Exactly the meaningful lines survive, in their order. */
  lemma {:induction false} FilteredMembers(lines: seq<seq<char>>)
    ensures forall l :: l in Filtered(lines) <==> l in lines && Meaningful(l)
  {
    if lines != [] {
      FilteredMembers(lines[1..]);
      assert lines == [lines[0]] + lines[1..];
    }
  }

  predicate NoKey(m: seq<seq<char>>, property: seq<char>)
  {
    forall k :: 0 <= k < |m| ==> !KeyIs(m[k], property)
  }

  /** j is the first line of m whose key is `property`. */
  predicate FirstKeyAt(m: seq<seq<char>>, property: seq<char>, j: int)
  {
    0 <= j < |m| && KeyIs(m[j], property) && forall k :: 0 <= k < j ==> !KeyIs(m[k], property)
  }

  lemma FirstKeyUnique(m: seq<seq<char>>, property: seq<char>, i: int, j: int)
    requires FirstKeyAt(m, property, i) && FirstKeyAt(m, property, j)
    ensures i == j
  {
  }

  /** Either no line has the key or exactly one index is the first that does. */
  lemma {:induction false} FirstKeyExists(m: seq<seq<char>>, property: seq<char>)
    ensures NoKey(m, property) || exists j :: FirstKeyAt(m, property, j)
  {
    if m != [] && !KeyIs(m[0], property) {
      FirstKeyExists(m[1..], property);
      if !NoKey(m[1..], property) {
        var j :| FirstKeyAt(m[1..], property, j);
        assert FirstKeyAt(m, property, j + 1);
      }
    } else if m != [] {
      assert FirstKeyAt(m, property, 0);
    }
  }

  // ---------------------------------------------------------------- saveProperty

  /**
   * What `saveProperty` promises: the meaningful lines, with the first one
   * keyed `property` replaced by "property=value" (its old value returned),
   * or with that line appended and "" returned when no line has the key.
   */
  ghost predicate Saved(lines: seq<seq<char>>, property: seq<char>, value: seq<char>,
                        written: seq<seq<char>>, prevValue: seq<char>)
  {
    var m, entry := Filtered(lines), property + "=" + value;
    (NoKey(m, property) ==> written == m + [entry] && prevValue == "") &&
    (forall j :: FirstKeyAt(m, property, j) ==> written == m[j := entry] && prevValue == ValueOf(m[j]))
  }

  /** The loop state of `saveProperty` after the lines m. */
  ghost predicate SavedSoFar(m: seq<seq<char>>, property: seq<char>, entry: seq<char>, found: bool, j: int,
                             formerlines: seq<seq<char>>, prevValue: seq<char>)
  {
    (!found ==> NoKey(m, property) && formerlines == m && prevValue == "") &&
    (found ==> FirstKeyAt(m, property, j) && formerlines == m[j := entry] && prevValue == ValueOf(m[j]))
  }

  lemma SavedSkip(m: seq<seq<char>>, property: seq<char>, entry: seq<char>, found: bool, j: int,
                  formerlines: seq<seq<char>>, prevValue: seq<char>, line: seq<char>)
    requires SavedSoFar(m, property, entry, found, j, formerlines, prevValue)
    requires Meaningful(line) && (found || !KeyIs(line, property))
    ensures SavedSoFar(m + [line], property, entry, found, j, formerlines + [line], prevValue)
  {
    if found {
      assert (m + [line])[j := entry] == m[j := entry] + [line];
    }
  }

  lemma SavedHit(m: seq<seq<char>>, property: seq<char>, entry: seq<char>,
                 formerlines: seq<seq<char>>, line: seq<char>)
    requires SavedSoFar(m, property, entry, false, 0, formerlines, "")
    requires KeyIs(line, property)
    ensures SavedSoFar(m + [line], property, entry, true, |m|, formerlines + [entry], ValueOf(line))
  {
    assert (m + [line])[|m| := entry] == m + [entry];
  }

  /** One round of the `saveProperty` loop. */
  method SaveLine(ghost m: seq<seq<char>>, property: seq<char>, entry: seq<char>, found: bool, ghost j: int,
                  formerlines: seq<seq<char>>, prevValue: seq<char>, line: seq<char>)
    returns (found': bool, ghost j': int, formerlines': seq<seq<char>>, prevValue': seq<char>)
    requires SavedSoFar(m, property, entry, found, j, formerlines, prevValue)
    ensures SavedSoFar(m + Filtered([line]), property, entry, found', j', formerlines', prevValue')
  {
    found', j', formerlines', prevValue' := found, j, formerlines, prevValue;
    assert [line][1..] == [];
    if |line| > 0 && line[0] != '#' {
      assert Filtered([line]) == [line];
      var pos := FindChar(line, '=');
      if pos.Some? {
        var key := CommonUtils.RTrimProperty(line[..pos.value], ' ');
        if CStr(key) == property && !found {
          SavedHit(m, property, entry, formerlines, line);
          formerlines' := formerlines + [entry];
          prevValue' := line[pos.value + 1..];
          found' := true;
          j' := |m|;
        } else {
          SavedSkip(m, property, entry, found, j, formerlines, prevValue, line);
          formerlines' := formerlines + [line];
        }
      } else {
        SavedSkip(m, property, entry, found, j, formerlines, prevValue, line);
        formerlines' := formerlines + [line];
      }
    } else {
      assert m + Filtered([line]) == m;
    }
  }

  /** `saveProperty` (src/configurationmanager.cpp:192-249) on the lines of megacmd.cfg. */
  method SaveProperty(lines: seq<seq<char>>, property: seq<char>, value: seq<char>)
    returns (written: seq<seq<char>>, prevValue: seq<char>)
    requires NUL !in property && NUL !in value
    ensures Saved(lines, property, value, written, prevValue)
  {
    var entry := property + "=" + value;
    var formerlines: seq<seq<char>> := [];
    var found := false;
    prevValue := "";
    ghost var j := 0;
    var i := 0;
    while i < |lines|
      invariant 0 <= i <= |lines|
      invariant SavedSoFar(Filtered(lines[..i]), property, entry, found, j, formerlines, prevValue)
    {
      var line := lines[i];
      assert lines[..i + 1] == lines[..i] + [line];
      FilteredConcat(lines[..i], [line]);
      found, j, formerlines, prevValue := SaveLine(Filtered(lines[..i]), property, entry, found, j, formerlines, prevValue, line);
      i := i + 1;
    }
    assert lines[..i] == lines;
    if !found {
      written := formerlines + [entry];
    } else {
      written := formerlines;
    }
    forall j' | FirstKeyAt(Filtered(lines), property, j')
      ensures written == Filtered(lines)[j' := entry] && prevValue == ValueOf(Filtered(lines)[j'])
    {
      FirstKeyUnique(Filtered(lines), property, j, j');
    }
  }

  // ---------------------------------------------------------------- getPropertyFromFile

  /**
   * `getPropertyFromFile` (src/megacmdcommonutils.cpp:1213-1241): the trimmed
   * value of the first meaningful line keyed `name` with a non-empty value; the
   * first meaningful line itself, trimmed, for an empty name; "" otherwise.
   */
  function PropertyOf(lines: seq<seq<char>>, name: seq<char>): (r: seq<char>)
  {
    if lines == [] then ""
    else
      var line := lines[0];
      if !Meaningful(line) then PropertyOf(lines[1..], name)
      else if |name| == 0 then CommonUtils.TrimProperty(line)
      else if HasValueFor(line, name) then CommonUtils.TrimProperty(ValueOf(line))
      else PropertyOf(lines[1..], name)
  }

  /** The line is `name=value` with something after the '='. */
  predicate HasValueFor(line: seq<char>, name: seq<char>)
  {
    Key(line) == Some(name) && FindChar(line, '=').value + 1 < |line|
  }

  lemma {:induction false} PropertyOfSkips(before: seq<seq<char>>, rest: seq<seq<char>>, name: seq<char>)
    requires |name| > 0 && forall k :: 0 <= k < |before| ==> !KeyIs(before[k], name)
    ensures PropertyOf(before + rest, name) == PropertyOf(rest, name)
  {
    if before != [] {
      assert (before + rest)[0] == before[0] && (before + rest)[1..] == before[1..] + rest;
      assert !KeyIs(before[0], name);
      assert !HasValueFor(before[0], name) || !Meaningful(before[0]);
      assert PropertyOf(before + rest, name) == PropertyOf(before[1..] + rest, name);
      PropertyOfSkips(before[1..], rest, name);
    } else {
      assert before + rest == rest;
    }
  }

  /** The line saveProperty writes is found again under its key. */
  lemma EntryRead(property: seq<char>, value: seq<char>, rest: seq<seq<char>>)
    requires NUL !in property && |property| > 0 && property[0] != '#' && '=' !in property
    requires property[|property| - 1] != ' ' && |value| > 0
    ensures var entry := property + "=" + value;
      KeyIs(entry, property) && PropertyOf([entry] + rest, property) == CommonUtils.TrimProperty(value)
  {
    var entry := property + "=" + value;
    assert entry[|property|] == '=';
    assert forall k :: 0 <= k < |property| ==> entry[k] == property[k];
    assert FindChar(entry, '=') == Some(|property|);
    assert entry[..|property|] == property;
    CommonUtils.RTrimPropertyPadding(property, ' ', []);
    assert property + [] == property;
    CStrNoNul(property);
    assert entry[|property| + 1..] == value;
  }

  /** saveProperty followed by a lookup of the same property gives back the value, trimmed. */
  lemma SavePropertyRoundTrip(lines: seq<seq<char>>, property: seq<char>, value: seq<char>,
                              written: seq<seq<char>>, prevValue: seq<char>)
    requires NUL !in property && |property| > 0 && property[0] != '#' && '=' !in property
    requires property[|property| - 1] != ' ' && |value| > 0
    requires Saved(lines, property, value, written, prevValue)
    ensures PropertyOf(written, property) == CommonUtils.TrimProperty(value)
  {
    var m := Filtered(lines);
    FirstKeyExists(m, property);
    if NoKey(m, property) {
      AppendedRead(m, property, value);
    } else {
      var j :| FirstKeyAt(m, property, j);
      ReplacedRead(m, property, value, j);
    }
  }

  lemma AppendedRead(m: seq<seq<char>>, property: seq<char>, value: seq<char>)
    requires NUL !in property && |property| > 0 && property[0] != '#' && '=' !in property
    requires property[|property| - 1] != ' ' && |value| > 0
    requires NoKey(m, property)
    ensures PropertyOf(m + [property + "=" + value], property) == CommonUtils.TrimProperty(value)
  {
    EntryRead(property, value, []);
    PropertyOfSkips(m, [property + "=" + value], property);
  }

  lemma UpdateSplit<T>(m: seq<T>, j: nat, x: T)
    requires j < |m|
    ensures m[j := x] == m[..j] + ([x] + m[j + 1..])
  {
  }

  lemma ReplacedRead(m: seq<seq<char>>, property: seq<char>, value: seq<char>, j: int)
    requires NUL !in property && |property| > 0 && property[0] != '#' && '=' !in property
    requires property[|property| - 1] != ' ' && |value| > 0
    requires FirstKeyAt(m, property, j)
    ensures PropertyOf(m[j := property + "=" + value], property) == CommonUtils.TrimProperty(value)
  {
    var entry := property + "=" + value;
    var before, after := m[..j], m[j + 1..];
    UpdateSplit(m, j, entry);
    EntryRead(property, value, after);
    assert forall k :: 0 <= k < |before| ==> !KeyIs(before[k], property) by {
      forall k | 0 <= k < |before| ensures !KeyIs(before[k], property) { assert before[k] == m[k]; }
    }
    PropertyOfSkips(before, [entry] + after, property);
  }

  /** The rewrite keeps no empty or comment line, and every other line is an input line or the new entry. */
  lemma SavedLines(lines: seq<seq<char>>, property: seq<char>, value: seq<char>,
                   written: seq<seq<char>>, prevValue: seq<char>)
    requires Saved(lines, property, value, written, prevValue)
    ensures forall l :: l in written ==> (l in lines && Meaningful(l)) || l == property + "=" + value
    ensures forall l :: l in lines && Meaningful(l) && !KeyIs(l, property) ==> l in written
  {
    var m, entry := Filtered(lines), property + "=" + value;
    FilteredMembers(lines);
    FirstKeyExists(m, property);
    if !NoKey(m, property) {
      var j :| FirstKeyAt(m, property, j);
      UpdatedMembers(m, j, entry);
    }
  }

  lemma UpdatedMembers<T>(m: seq<T>, j: nat, x: T)
    requires j < |m|
    ensures forall l :: l in m[j := x] ==> l in m || l == x
    ensures forall l :: l in m && l != m[j] ==> l in m[j := x]
  {
    forall l | l in m[j := x]
      ensures l in m || l == x
    {
      var k :| 0 <= k < |m| && m[j := x][k] == l;
      if k != j { assert l == m[k]; }
    }
    forall l | l in m && l != m[j]
      ensures l in m[j := x]
    {
      var k :| 0 <= k < |m| && m[k] == l;
      assert m[j := x][k] == l;
    }
  }

  // ---------------------------------------------------------------- clearConfigurationFile

  /** The keys `clearConfigurationFile` keeps (persistentmcmdconfigurationkeys). */
  const PERSISTENT_KEYS: seq<seq<char>> := ["autoupdate", "updaterregistered"]

  /** A line survives unless it is a meaningful key=value line with a key outside the persistent ones. */
  predicate KeptOnClear(line: seq<char>)
  {
    !(Meaningful(line) && '=' in line) || Key(line).value in PERSISTENT_KEYS
  }

  function Cleared(lines: seq<seq<char>>): (r: seq<seq<char>>)
  {
    if lines == [] then []
    else (if KeptOnClear(lines[0]) then [lines[0]] else []) + Cleared(lines[1..])
  }

  /** `clearConfigurationFile` (src/configurationmanager.cpp:873-918) on the lines of megacmd.cfg. */
  method ClearConfigurationFile(lines: seq<seq<char>>) returns (written: seq<seq<char>>)
    ensures written == Cleared(lines)
  {
    written := [];
    var i := 0;
    while i < |lines|
      invariant 0 <= i <= |lines|
      invariant written + Cleared(lines[i..]) == Cleared(lines)
    {
      assert lines[i..][1..] == lines[i + 1..];
      var kept := ClearLine(lines[i]);
      AccumulateStep(written, kept, Cleared(lines[i + 1..]), Cleared(lines[i..]), Cleared(lines));
      written := written + kept;
      i := i + 1;
    }
  }

  /** One line of the loop: kept as it is unless it sets a key outside the persistent ones. */
  method ClearLine(line: seq<char>) returns (kept: seq<seq<char>>)
    ensures kept == if KeptOnClear(line) then [line] else []
  {
    var pos := FindChar(line, '=');
    kept := [line];
    if |line| > 0 && line[0] != '#' && pos.Some? {
      var key := CommonUtils.RTrimProperty(line[..pos.value], ' ');
      kept := KeepIfPersistent(key, line);
    }
  }

  /** The loop over persistentmcmdconfigurationkeys: the line is written once per matching key. */
  method KeepIfPersistent(key: seq<char>, line: seq<char>) returns (kept: seq<seq<char>>)
    ensures kept == if CStr(key) in PERSISTENT_KEYS then [line] else []
  {
    kept := [];
    var k := 0;
    while k < |PERSISTENT_KEYS|
      invariant 0 <= k <= |PERSISTENT_KEYS|
      invariant kept == if CStr(key) in PERSISTENT_KEYS[..k] then [line] else []
    {
      assert PERSISTENT_KEYS[..k + 1] == PERSISTENT_KEYS[..k] + [PERSISTENT_KEYS[k]];
      if CStr(key) == PERSISTENT_KEYS[k] {
        kept := kept + [line];
      }
      k := k + 1;
    }
    assert PERSISTENT_KEYS[..k] == PERSISTENT_KEYS;
  }

  lemma {:induction false} ClearedMembers(lines: seq<seq<char>>)
    ensures forall l :: l in Cleared(lines) <==> l in lines && KeptOnClear(l)
  {
    if lines != [] {
      ClearedMembers(lines[1..]);
      assert lines == [lines[0]] + lines[1..];
    }
  }

  /** Clearing twice is clearing once. */
  lemma {:induction false} ClearedIdempotent(lines: seq<seq<char>>)
    ensures Cleared(Cleared(lines)) == Cleared(lines)
  {
    if lines != [] {
      ClearedIdempotent(lines[1..]);
      if KeptOnClear(lines[0]) {
        assert ([lines[0]] + Cleared(lines[1..]))[1..] == Cleared(lines[1..]);
      } else {
        assert [] + Cleared(lines[1..]) == Cleared(lines[1..]);
      }
    }
  }

  /** A persistent setting reads the same after clearing. */
  lemma {:induction false} ClearedKeepsPersistent(lines: seq<seq<char>>, name: seq<char>)
    requires name in PERSISTENT_KEYS
    ensures PropertyOf(Cleared(lines), name) == PropertyOf(lines, name)
  {
    if lines != [] {
      ClearedKeepsPersistent(lines[1..], name);
      var line := lines[0];
      if KeptOnClear(line) {
        assert ([line] + Cleared(lines[1..]))[1..] == Cleared(lines[1..]);
      } else {
        assert [] + Cleared(lines[1..]) == Cleared(lines[1..]);
        assert |name| > 0 by { assert name == PERSISTENT_KEYS[0] || name == PERSISTENT_KEYS[1]; }
        assert Key(line).value != name;
      }
    }
  }

  /** Every other setting is gone. */
  lemma {:induction false} ClearedDropsOthers(lines: seq<seq<char>>, name: seq<char>)
    requires |name| > 0 && name !in PERSISTENT_KEYS
    ensures PropertyOf(Cleared(lines), name) == ""
  {
    if lines != [] {
      ClearedDropsOthers(lines[1..], name);
      var line := lines[0];
      if KeptOnClear(line) {
        assert ([line] + Cleared(lines[1..]))[1..] == Cleared(lines[1..]);
        assert Meaningful(line) ==> !HasValueFor(line, name);
      } else {
        assert [] + Cleared(lines[1..]) == Cleared(lines[1..]);
      }
    }
  }

  // ---------------------------------------------------------------- validatorULL

  const ULL_LIMIT: nat := 0x1_0000_0000_0000_0000

  /**
   * `std::stoull(value)` (base 10): leading white space, an optional sign
   * (a '-' negates modulo 2^64, as strtoull does), at least one digit;
   * None where it throws (no digits, or out of range).
   */
  function Stoull(s: seq<char>): (r: Option<nat>)
    ensures r.Some? ==> r.value < ULL_LIMIT
  {
    var c := CStr(s);
    var i := CommonUtils.SkipSpaces(c, 0);
    var neg := i < |c| && c[i] == '-';
    var j := if i < |c| && (c[i] == '-' || c[i] == '+') then i + 1 else i;
    var e := CommonUtils.DigitRunEnd(c, j);
    if e == j then None
    else
      var v := DigitsValue(c[j..e]);
      if v >= ULL_LIMIT then None
      else if neg then Some((ULL_LIMIT - v) % ULL_LIMIT)
      else Some(v)
  }

  /** The closure `validatorULL(minOpt, maxOpt)` applied to a value. */
  function ValidatorULL(minOpt: Option<nat>, maxOpt: Option<nat>, value: seq<char>): (r: bool)
    ensures r ==> !(|value| > 0 && value[0] == '-')
    ensures r ==> Stoull(value).Some?
    ensures r ==> (maxOpt.Some? ==> Stoull(value).value <= maxOpt.value) && (minOpt.Some? ==> Stoull(value).value >= minOpt.value)
  {
    if |value| > 0 && value[0] == '-' then false
    else
      match Stoull(value)
      case None => false
      case Some(v) => !(maxOpt.Some? && v > maxOpt.value) && !(minOpt.Some? && v < minOpt.value)
  }

  /** The plain decimal rendering of n is read back as n. */
  lemma StoullDecimal(n: nat)
    requires n < ULL_LIMIT
    ensures Stoull(NatToString(n)) == Some(n)
  {
    var s := NatToString(n);
    assert NUL !in s by {
      forall k | 0 <= k < |s| ensures s[k] != NUL { assert IsDigit(s[k]); }
    }
    CStrNoNul(s);
    assert !IsSpace(s[0]) && s[0] != '-' && s[0] != '+' by { assert IsDigit(s[0]); }
    assert CommonUtils.SkipSpaces(s, 0) == 0;
    CommonUtils.DigitRunAll(s, 0);
    assert s[0..|s|] == s;
  }

  /** `exported_folders_sdks` accepts exactly the counts 0..20 written in decimal, and nothing negative. */
  lemma ExportedFoldersSdksBounds(n: nat, value: seq<char>)
    ensures n < ULL_LIMIT ==> (ValidatorULL(Some(0), Some(20), NatToString(n)) <==> n <= 20)
    ensures |value| > 0 && value[0] == '-' ==> !ValidatorULL(Some(0), Some(20), value)
    ensures ValidatorULL(Some(0), Some(20), value) ==> Stoull(value).value <= 20
  {
    if n < ULL_LIMIT {
      StoullDecimal(n);
    }
  }

  /** Without bounds any decimal below 2^64 passes, and text with no digits never does. */
  lemma ValidatorULLUnbounded(n: nat)
    requires n < ULL_LIMIT
    ensures ValidatorULL(None, None, NatToString(n))
    ensures !ValidatorULL(None, None, "")
  {
    StoullDecimal(n);
  }
}
