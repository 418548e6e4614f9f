/**
 * The `.megaignore` filter file (src/sync_ignore.cpp): a text file with one
 * filter per line, an optional UTF-8 byte-order mark, `#` comments and empty
 * lines. `MegaIgnoreFile` loads the filters into a std::set, appends new
 * filters, rewrites the file without some filters, and lists them.
 *
 * The file on disk is the field `file` (None when it cannot be opened); one
 * char stands for one byte. The std::set is the sorted sequence of its
 * elements (std::string's `<`), which is also its iteration order. The POSIX
 * build is modelled: the newline written is "\n" and no '\r' is stripped.
 */
module SyncIgnore {
  import opened Wrappers
  import opened Text

  /** The UTF-8 byte-order mark EF BB BF. */
  const BOM: string := [0xEF as char, 0xBB as char, 0xBF as char]

  // ---------------------------------------------------------------- reading lines

  /**
   * `checkBOMAndSkip` on the whole file: whether it starts with the BOM, and
   * the text `getline` reads afterwards. Reading three bytes from a shorter
   * file fails the stream, and `seekg` does not clear the failure, so nothing
   * is read after it.
   */
  function SkipBOM(s: string): (r: (bool, string))
    ensures r.0 <==> |s| >= 3 && s[..3] == BOM
    ensures r.0 ==> r.1 == s[3..]
    ensures !r.0 && |s| >= 3 ==> r.1 == s
    ensures |s| < 3 ==> r.1 == []
  {
    if |s| < 3 then (false, [])
    else if s[..3] == BOM then (true, s[3..])
    else (false, s)
  }

  /** One `getline`: the text up to the first '\n' and what follows that '\n'. */
  function NextLine(s: string): (r: (string, string))
    requires s != []
    ensures '\n' !in r.0 && |r.1| < |s|
  {
    match FindChar(s, '\n')
    case None => (s, [])
    case Some(i) => (s[..i], s[i + 1..])
  }

  /** The lines `for (getline ...)` yields: a final line without '\n' counts, an empty tail does not. */
  function Lines(s: string): (r: seq<string>)
    ensures forall k :: 0 <= k < |r| ==> '\n' !in r[k]
    decreases |s|
  {
    if s == [] then [] else [NextLine(s).0] + Lines(NextLine(s).1)
  }

  /** A line the loops keep: not empty and not a '#' comment. */
  predicate Meaningful(line: string)
  {
    line != [] && line[0] != '#'
  }

  /** The lines written back, each followed by the newline. */
  function JoinLines(ls: seq<string>): string
  {
    if ls == [] then [] else ls[0] + "\n" + JoinLines(ls[1..])
  }

  lemma NextLineOf(line: string, rest: string)
    requires '\n' !in line
    ensures NextLine(line + "\n" + rest) == (line, rest)
  {
    var s := line + "\n" + rest;
    assert s[|line|] == '\n' && s[..|line|] == line;
    var i := FindChar(s, '\n');
    assert forall k :: 0 <= k < |line| ==> s[k] == line[k];
    assert s[|line| + 1..] == rest;
  }

  lemma NextLineSplit(s: string)
    requires '\n' in s
    ensures s == NextLine(s).0 + "\n" + NextLine(s).1
  {
    var i := FindChar(s, '\n').value;
    assert s == s[..i] + [s[i]] + s[i + 1..];
  }

  /** Reading back what was written line by line gives the lines. */
  lemma {:induction false} LinesOfJoin(ls: seq<string>)
    requires forall k :: 0 <= k < |ls| ==> '\n' !in ls[k]
    ensures Lines(JoinLines(ls)) == ls
    decreases |ls|
  {
    if ls != [] {
      NextLineOf(ls[0], JoinLines(ls[1..]));
      LinesOfJoin(ls[1..]);
    }
  }

  lemma NextLineAppend(a: string, b: string)
    requires '\n' in a
    ensures NextLine(a + b) == (NextLine(a).0, NextLine(a).1 + b)
  {
    var (line, rest) := NextLine(a);
    NextLineSplit(a);
    assert a + b == line + "\n" + (rest + b);
    NextLineOf(line, rest + b);
  }

  lemma RestEndsLine(a: string)
    requires a != [] && a[|a| - 1] == '\n'
    ensures var rest := NextLine(a).1; rest == [] || rest[|rest| - 1] == '\n'
  {
    assert '\n' in a;
    NextLineSplit(a);
    var rest := NextLine(a).1;
    if rest != [] {
      assert rest[|rest| - 1] == a[|a| - 1];
    }
  }

  lemma LinesAppendStep(a: string, b: string)
    requires a != [] && a[|a| - 1] == '\n'
    requires Lines(NextLine(a).1 + b) == Lines(NextLine(a).1) + Lines(b)
    ensures Lines(a + b) == Lines(a) + Lines(b)
  {
    assert '\n' in a;
    NextLineAppend(a, b);
    assert Lines(a + b) == [NextLine(a).0] + Lines(NextLine(a).1 + b);
  }

  /** Text after a complete line reads as further lines. */
  lemma {:induction false} LinesAppend(a: string, b: string)
    requires a == [] || a[|a| - 1] == '\n'
    ensures Lines(a + b) == Lines(a) + Lines(b)
    decreases |a|
  {
    if a == [] {
      assert a + b == b;
    } else {
      RestEndsLine(a);
      LinesAppend(NextLine(a).1, b);
      LinesAppendStep(a, b);
    }
  }

  // ---------------------------------------------------------------- the filter set

  predicate Sorted(xs: seq<string>)
  {
    forall i, j :: 0 <= i < j < |xs| ==> StringLess(xs[i], xs[j])
  }

  /** std::set::insert on the sorted elements. */
  function Insert(xs: seq<string>, x: string): seq<string>
  {
    if xs == [] then [x]
    else if x == xs[0] then xs
    else if StringLess(x, xs[0]) then [x] + xs
    else [xs[0]] + Insert(xs[1..], x)
  }

  lemma {:induction false} InsertProperties(xs: seq<string>, x: string)
    requires Sorted(xs)
    ensures Sorted(Insert(xs, x))
    ensures forall y :: y in Insert(xs, x) <==> y in xs || y == x
    decreases |xs|
  {
    if xs != [] && x != xs[0] && !StringLess(x, xs[0]) {
      StringLessTotal(x, xs[0]);
      var tail := Insert(xs[1..], x);
      assert Sorted(xs[1..]) by {
        forall i, j | 0 <= i < j < |xs[1..]| ensures StringLess(xs[1..][i], xs[1..][j]) {
          assert xs[1..][i] == xs[i + 1] && xs[1..][j] == xs[j + 1];
        }
      }
      InsertProperties(xs[1..], x);
      forall y | y in tail ensures StringLess(xs[0], y) {
        if y != x {
          var k :| 0 <= k < |xs[1..]| && xs[1..][k] == y;
          assert xs[k + 1] == y;
        }
      }
      forall i, j | 0 <= i < j < |[xs[0]] + tail| ensures StringLess(([xs[0]] + tail)[i], ([xs[0]] + tail)[j]) {
        if i == 0 {
          assert ([xs[0]] + tail)[j] == tail[j - 1];
        } else {
          assert ([xs[0]] + tail)[i] == tail[i - 1] && ([xs[0]] + tail)[j] == tail[j - 1];
        }
      }
    } else if xs != [] && x != xs[0] {
      forall i, j | 0 <= i < j < |[x] + xs| ensures StringLess(([x] + xs)[i], ([x] + xs)[j]) {
        if i == 0 {
          assert ([x] + xs)[j] == xs[j - 1];
          if j > 1 { StringLessTransitive(x, xs[0], xs[j - 1]); }
        } else {
          assert ([x] + xs)[i] == xs[i - 1] && ([x] + xs)[j] == xs[j - 1];
        }
      }
    }
  }

  /** What the `loadFilters` loop has collected once it has read all of s, starting from acc. */
  function Collected(acc: seq<string>, s: string): seq<string>
    decreases |s|
  {
    if s == [] then acc
    else
      var (line, rest) := NextLine(s);
      Collected(if Meaningful(line) then Insert(acc, line) else acc, rest)
  }

  /** The loaded set is sorted and holds exactly the meaningful lines. */
  lemma {:induction false} CollectedProperties(acc: seq<string>, s: string)
    requires Sorted(acc)
    ensures Sorted(Collected(acc, s))
    ensures forall y :: y in Collected(acc, s) <==> y in acc || (y in Lines(s) && Meaningful(y))
    decreases |s|
  {
    if s != [] {
      var (line, rest) := NextLine(s);
      var acc' := if Meaningful(line) then Insert(acc, line) else acc;
      if Meaningful(line) { InsertProperties(acc, line); }
      CollectedProperties(acc', rest);
      assert Lines(s) == [line] + Lines(rest);
    }
  }

  /** What `removeFilters` writes after the BOM: every line not among the filters, in order. */
  function KeptText(s: string, filters: set<string>): string
    decreases |s|
  {
    if s == [] then []
    else
      var (line, rest) := NextLine(s);
      (if line in filters then [] else line + "\n") + KeptText(rest, filters)
  }

  /** The lines not among the filters, in order. */
  function Keep(ls: seq<string>, filters: set<string>): seq<string>
  {
    if ls == [] then [] else (if ls[0] in filters then [] else [ls[0]]) + Keep(ls[1..], filters)
  }

  lemma {:induction false} KeptTextLines(s: string, filters: set<string>)
    ensures KeptText(s, filters) == JoinLines(Keep(Lines(s), filters))
    decreases |s|
  {
    if s != [] {
      var (line, rest) := NextLine(s);
      KeptTextLines(rest, filters);
      assert Lines(s) == [line] + Lines(rest);
      assert Lines(s)[1..] == Lines(rest);
      assert Keep(Lines(s), filters) == (if line in filters then [] else [line]) + Keep(Lines(rest), filters);
      if line !in filters {
        assert JoinLines([line] + Keep(Lines(rest), filters)) == line + "\n" + JoinLines(Keep(Lines(rest), filters));
      } else {
        assert KeptText(s, filters) == KeptText(rest, filters);
        assert Keep(Lines(s), filters) == Keep(Lines(rest), filters);
      }
    }
  }

  lemma {:induction false} KeepMembers(ls: seq<string>, filters: set<string>)
    ensures forall y :: y in Keep(ls, filters) <==> y in ls && y !in filters
    decreases |ls|
  {
    if ls != [] {
      KeepMembers(ls[1..], filters);
      forall y ensures y in ls <==> y == ls[0] || y in ls[1..] {
        assert ls == [ls[0]] + ls[1..];
      }
    }
  }

  lemma {:induction false} KeepNoNewline(ls: seq<string>, filters: set<string>)
    requires forall k :: 0 <= k < |ls| ==> '\n' !in ls[k]
    ensures forall k :: 0 <= k < |Keep(ls, filters)| ==> '\n' !in Keep(ls, filters)[k]
    decreases |ls|
  {
    if ls != [] {
      KeepNoNewline(ls[1..], filters);
      var head := if ls[0] in filters then [] else [ls[0]];
      forall k | 0 <= k < |Keep(ls, filters)| ensures '\n' !in Keep(ls, filters)[k] {
        if k >= |head| { assert Keep(ls, filters)[k] == Keep(ls[1..], filters)[k - |head|]; }
      }
    }
  }

  // ---------------------------------------------------------------- isValidFilter

  /** The optional character class at p: skipped when the character belongs to it. */
  function SkipOptional(s: string, p: nat, cls: string): (r: nat)
    ensures r == p || (r == p + 1 && p < |s| && s[p] in cls)
  {
    if p < |s| && s[p] in cls then p + 1 else p
  }

  /** `isValidFilter`: a full match of [-+][adfs]?[Nnp]?[GgRr]?:\S+ (src/sync_ignore.cpp:79-83). */
  predicate IsValidFilter(s: string)
  {
    |s| > 0 && s[0] in "-+" &&
    var p := SkipOptional(s, SkipOptional(s, SkipOptional(s, 1, "adfs"), "Nnp"), "GgRr");
    p + 1 < |s| && s[p] == ':' && forall k :: p < k < |s| ==> !IsSpace(s[k])
  }

  /** A filter by its parts: class, optional target, type and strategy, and pattern. */
  datatype Filter = Filter(cls: char, target: Option<char>, kind: Option<char>, strategy: Option<char>, pattern: string)

  predicate OptionalIn(c: Option<char>, cls: string)
  {
    c.Some? ==> c.value in cls
  }

  predicate WellFormed(f: Filter)
  {
    f.cls in "-+" && OptionalIn(f.target, "adfs") && OptionalIn(f.kind, "Nnp") && OptionalIn(f.strategy, "GgRr") &&
    f.pattern != [] && forall k :: 0 <= k < |f.pattern| ==> !IsSpace(f.pattern[k])
  }

  function Opt(c: Option<char>): string
  {
    if c.Some? then [c.value] else []
  }

  /** The filter's text. */
  function Render(f: Filter): string
  {
    [f.cls] + Opt(f.target) + Opt(f.kind) + Opt(f.strategy) + ":" + f.pattern
  }

  /** The optional part at p of a valid filter. */
  function OptAt(s: string, p: nat, cls: string): Option<char>
  {
    if p < |s| && s[p] in cls then Some(s[p]) else None
  }

  /** The parts of a valid filter. */
  function Parse(s: string): Filter
    requires IsValidFilter(s)
  {
    var p1 := SkipOptional(s, 1, "adfs");
    var p2 := SkipOptional(s, p1, "Nnp");
    var p3 := SkipOptional(s, p2, "GgRr");
    Filter(s[0], OptAt(s, 1, "adfs"), OptAt(s, p1, "Nnp"), OptAt(s, p2, "GgRr"), s[p3 + 1..])
  }

  lemma OptAtSkip(s: string, p: nat, cls: string)
    requires p <= |s|
    ensures Opt(OptAt(s, p, cls)) == s[p..SkipOptional(s, p, cls)]
  {
  }

  lemma ParseRender(s: string)
    requires IsValidFilter(s)
    ensures WellFormed(Parse(s)) && Render(Parse(s)) == s
  {
    var p1 := SkipOptional(s, 1, "adfs");
    var p2 := SkipOptional(s, p1, "Nnp");
    var p3 := SkipOptional(s, p2, "GgRr");
    var f := Parse(s);
    OptAtSkip(s, 1, "adfs");
    OptAtSkip(s, p1, "Nnp");
    OptAtSkip(s, p2, "GgRr");
    assert s == [s[0]] + s[1..p1] + s[p1..p2] + s[p2..p3] + [s[p3]] + s[p3 + 1..];
    forall k | 0 <= k < |f.pattern| ensures !IsSpace(f.pattern[k]) {
      assert f.pattern[k] == s[p3 + 1 + k];
    }
  }

  lemma RenderValid(f: Filter)
    requires WellFormed(f)
    ensures IsValidFilter(Render(f))
  {
    var s := Render(f);
    var n := 1 + |Opt(f.target)| + |Opt(f.kind)| + |Opt(f.strategy)|;
    assert SkipOptional(s, 1, "adfs") == 1 + |Opt(f.target)|;
    assert SkipOptional(s, 1 + |Opt(f.target)|, "Nnp") == 1 + |Opt(f.target)| + |Opt(f.kind)|;
    assert SkipOptional(s, 1 + |Opt(f.target)| + |Opt(f.kind)|, "GgRr") == n;
    assert s[n] == ':';
    forall k | n < k < |s| ensures !IsSpace(s[k]) {
      assert s[k] == f.pattern[k - n - 1];
    }
  }

  /** A filter is valid exactly when it is the text of well-formed parts. */
  lemma ValidFilterIff(s: string)
    ensures IsValidFilter(s) <==> exists f :: WellFormed(f) && Render(f) == s
  {
    if IsValidFilter(s) {
      ParseRender(s);
    }
    if exists f :: WellFormed(f) && Render(f) == s {
      var f :| WellFormed(f) && Render(f) == s;
      RenderValid(f);
    }
  }

  // ---------------------------------------------------------------- MegaIgnoreFile

  /** The reading loop of `removeFilters`: newContents gets every line not among the filters, with a newline. */
  method KeepLines(body: string, removed: set<string>) returns (contents: string)
    ensures contents == KeptText(body, removed)
  {
    contents := [];
    var rest := body;
    while rest != []
      invariant contents + KeptText(rest, removed) == KeptText(body, removed)
      decreases |rest|
    {
      var (line, after) := NextLine(rest);
      var kept := if line in removed then [] else line + "\n";
      AccumulateStep(contents, kept, KeptText(after, removed), KeptText(rest, removed), KeptText(body, removed));
      contents := contents + kept;
      rest := after;
    }
  }

  /** The contents `load` sees: the file after its BOM. */
  function Body(file: Option<string>): string
  {
    if file.Some? then SkipBOM(file.value).1 else []
  }

  class MegaIgnoreFile {
    /** The ignore file on disk; None when it cannot be opened. */
    var file: Option<string>
    /** mFilters, in its (sorted) iteration order. */
    var filters: seq<string>
    var valid: bool

    /** The constructor: `load` on the given file (src/sync_ignore.cpp:85-102). */
    constructor (file: Option<string>)
      ensures this.file == file && valid == file.Some?
      ensures filters == Collected([], Body(file))
    {
      this.file := file;
      filters := [];
      valid := false;
      new;
      Load();
    }

    /** `load`: skip the BOM, load the filters and become valid; nothing changes when the file cannot be opened. */
    method Load()
      modifies this
      ensures file == old(file)
      ensures old(file).None? ==> filters == old(filters) && valid == old(valid)
      ensures old(file).Some? ==> filters == Collected([], Body(file)) && valid
    {
      if file.None? {
        return;
      }
      var (_, body) := SkipBOM(file.value);
      LoadFilters(body);
      valid := true;
    }

    /** `loadFilters` (src/sync_ignore.cpp:58-70): clear the set, then insert every meaningful line. */
    method LoadFilters(body: string)
      modifies this
      ensures filters == Collected([], body)
      ensures file == old(file) && valid == old(valid)
    {
      filters := [];
      var rest := body;
      while rest != []
        invariant Collected(filters, rest) == Collected([], body)
        invariant file == old(file) && valid == old(valid)
        decreases |rest|
      {
        var (line, after) := NextLine(rest);
        if Meaningful(line) {
          filters := Insert(filters, line);
        }
        rest := after;
      }
    }

    /** `addFilters` (src/sync_ignore.cpp:104-114): append each filter and a newline, then become invalid. */
    method AddFilters(added: seq<string>)
      requires valid && Sorted(added)
      modifies this
      ensures file == Some((if old(file).Some? then old(file).value else []) + JoinLines(added))
      ensures filters == old(filters) && !valid
    {
      var out := if file.Some? then file.value else [];
      var i := 0;
      while i < |added|
        invariant 0 <= i <= |added|
        invariant out + JoinLines(added[i..]) == (if file.Some? then file.value else []) + JoinLines(added)
        invariant file == old(file) && filters == old(filters)
      {
        assert added[i..][1..] == added[i + 1..];
        assert JoinLines(added[i..]) == added[i] + "\n" + JoinLines(added[i + 1..]);
        out := out + (added[i] + "\n");
        i := i + 1;
      }
      assert added[i..] == [] && out + [] == out;
      file := Some(out);
      valid := false;
    }

    /**
     * `removeFilters` (src/sync_ignore.cpp:116-139): rewrite the file with the
     * BOM it had and every line not among the filters, then become invalid.
     */
    method RemoveFilters(removed: set<string>)
      requires valid
      modifies this
      ensures var (hasBOM, body) := SkipBOM(if old(file).Some? then old(file).value else []);
        file == Some((if hasBOM then BOM else []) + KeptText(body, removed))
      ensures filters == old(filters) && !valid
    {
      var (hasBOM, body) := SkipBOM(if file.Some? then file.value else []);
      var contents := KeepLines(body, removed);
      file := Some((if hasBOM then BOM else []) + contents);
      valid := false;
    }

    /** `containsFilter` (src/sync_ignore.cpp:141-145). */
    function ContainsFilter(filter: string): (r: bool)
      requires valid
      reads this
      ensures r <==> filter in filters
    {
      filter in filters
    }

    /** `getFilterContents` (src/sync_ignore.cpp:147-157): the filters in set order, each followed by '\n'. */
    method GetFilterContents() returns (contents: string)
      requires valid
      ensures contents == JoinLines(filters)
    {
      contents := [];
      var i := 0;
      while i < |filters|
        invariant 0 <= i <= |filters|
        invariant contents + JoinLines(filters[i..]) == JoinLines(filters)
      {
        assert filters[i..][1..] == filters[i + 1..];
        assert JoinLines(filters[i..]) == filters[i] + "\n" + JoinLines(filters[i + 1..]);
        contents := contents + (filters[i] + "\n");
        i := i + 1;
      }
    }
  }

  // ---------------------------------------------------------------- properties

  /** A loaded filter set is sorted and holds exactly the non-empty, non-comment lines after the BOM. */
  lemma LoadedFilters(file: Option<string>)
    ensures Sorted(Collected([], Body(file)))
    ensures forall y :: y in Collected([], Body(file)) <==> y in Lines(Body(file)) && Meaningful(y)
  {
    CollectedProperties([], Body(file));
  }

  /** No loaded filter holds a newline, so listing the filters and reading the list back gives them again. */
  lemma FilterContentsRead(file: Option<string>)
    ensures Lines(JoinLines(Collected([], Body(file)))) == Collected([], Body(file))
  {
    var fs := Collected([], Body(file));
    CollectedProperties([], Body(file));
    forall k | 0 <= k < |fs| ensures '\n' !in fs[k] {
      assert fs[k] in fs;
      var j :| 0 <= j < |Lines(Body(file))| && Lines(Body(file))[j] == fs[k];
    }
    LinesOfJoin(fs);
  }

  /** Reloading after `removeFilters` gives the old filters minus the removed ones. */
  lemma RemoveThenLoad(body: string, removed: set<string>)
    ensures forall y :: y in Collected([], KeptText(body, removed)) <==>
              y in Lines(body) && Meaningful(y) && y !in removed
  {
    KeptTextLines(body, removed);
    KeepNoNewline(Lines(body), removed);
    LinesOfJoin(Keep(Lines(body), removed));
    KeepMembers(Lines(body), removed);
    CollectedProperties([], KeptText(body, removed));
  }

  /** The BOM `removeFilters` writes back is the one the file had. */
  lemma RemoveKeepsBOM(body: string, removed: set<string>)
    ensures SkipBOM(BOM + KeptText(body, removed)) == (true, KeptText(body, removed))
  {
    assert (BOM + KeptText(body, removed))[..3] == BOM;
    assert (BOM + KeptText(body, removed))[3..] == KeptText(body, removed);
  }

  /**
   * Reloading after `addFilters` on a file of at least three bytes that ends
   * with a newline gives the old filters plus the added meaningful ones.
   */
  lemma AddThenLoad(old_: string, added: seq<string>)
    requires |old_| >= 3 && old_[|old_| - 1] == '\n'
    requires forall k :: 0 <= k < |added| ==> '\n' !in added[k]
    ensures forall y :: y in Collected([], Body(Some(old_ + JoinLines(added)))) <==>
              y in Collected([], Body(Some(old_))) || (y in added && Meaningful(y))
  {
    var whole := old_ + JoinLines(added);
    assert whole[..3] == old_[..3];
    var body := SkipBOM(old_).1;
    assert Body(Some(whole)) == body + JoinLines(added) by {
      if old_[..3] == BOM {
        assert whole[3..] == old_[3..] + JoinLines(added);
      }
    }
    assert body == [] || body[|body| - 1] == '\n';
    LinesAppend(body, JoinLines(added));
    LinesOfJoin(added);
    CollectedProperties([], body);
    CollectedProperties([], body + JoinLines(added));
  }
}
