/**
 * The path splitter at the start of `MegaCmdExecuter::nodebypath`
 * (src/megacmdexecuter.cpp:261-353): a `do ... while (*ptr++)` walk over a C
 * string that cuts it into components at '/' and ':', lets '\' make the next
 * character literal, and skips the bytes of UTF-8 sequences announced by a
 * lead byte of 0xE0 and above. One char is one byte; a char of 128 and above
 * is a negative `char`.
 *
 * The walk is modelled twice, differing in one line: as written, the escape
 * branch steps past the escaped character and the loop condition steps once
 * more, so the character after an escaped one is never examined; corrected,
 * the loop resumes at that character. The rest of the model uses the
 * corrected walk.
 */
module NodePath {
  import opened Text

  /** The components, and whether a ':' made the path remote; Malformed is the NULL the splitter returns. */
  datatype Split = Malformed | Components(parts: seq<string>, remote: bool)

  /** The walk's variables: ptr, bptr, the multibyte counter l, the component under way s, the components c, remote. */
  datatype ScanState = ScanState(ptr: nat, bptr: nat, l: nat, s: string, c: seq<string>, remote: bool)

  datatype Next = Continue(st: ScanState) | Stop(result: Split)

  /** The counter a byte of 128 or more sets: 1 for 1110xxxx, 2 for 11110xxx, 3 for 111110xx, 4 for 1111110x, else 0. */
  function LeadSkip(b: int): nat
  {
    if b / 16 == 0xE then 1
    else if b / 8 == 0x1E then 2
    else if b / 4 == 0x3E then 3
    else if b / 2 == 0x7E then 4
    else 0
  }

  /** After the loop: leftover multibyte count returns NULL. */
  function Finish(c: seq<string>, remote: bool, l: nat): Split
  {
    if l != 0 then Malformed else Components(c, remote)
  }

  predicate Sane(p: string, st: ScanState)
  {
    st.bptr <= st.ptr <= |p|
  }

  /** One pass of the loop body followed by the `*ptr++` test. */
  function Step(p: string, st: ScanState, asWritten: bool): (r: Next)
    requires Sane(p, st)
    ensures r.Continue? ==> st.ptr < r.st.ptr && Sane(p, r.st)
  {
    var ch := At(p, st.ptr);
    if st.l != 0 then
      if ch == NUL then Stop(Finish(st.c, st.remote, st.l - 1))
      else Continue(st.(ptr := st.ptr + 1, l := st.l - 1))
    else if ch as int >= 128 then
      Continue(st.(ptr := st.ptr + 1, l := LeadSkip(ch as int)))
    else if ch == '\\' then
      var s1 := st.s + p[st.bptr..st.ptr];
      if At(p, st.ptr + 1) == NUL then Stop(Finish(st.c + [s1], st.remote, 0))
      else if asWritten then
        if At(p, st.ptr + 2) == NUL then Stop(Finish(st.c, st.remote, 0))
        else Continue(st.(ptr := st.ptr + 3, bptr := st.ptr + 1, s := s1))
      else Continue(st.(ptr := st.ptr + 2, bptr := st.ptr + 1, s := s1))
    else if ch == '/' || ch == ':' || ch == NUL then
      if ch == ':' && |st.c| > 0 then Stop(Malformed)
      else
        var c1 := st.c + [st.s + p[st.bptr..st.ptr]];
        var remote := st.remote || ch == ':';
        if ch == NUL then Stop(Finish(c1, remote, 0))
        else Continue(ScanState(st.ptr + 1, st.ptr + 1, 0, [], c1, remote))
    else Continue(st.(ptr := st.ptr + 1))
  }

  /** The walk from a state to its end. */
  function Scan(p: string, st: ScanState, asWritten: bool): Split
    requires Sane(p, st)
    decreases |p| - st.ptr
  {
    match Step(p, st, asWritten)
    case Stop(r) => r
    case Continue(st') => Scan(p, st', asWritten)
  }

  const START: ScanState := ScanState(0, 0, 0, [], [], false)

  /** The splitter as the source writes it. */
  function SplitAsWritten(p: string): Split
  {
    Scan(p, START, true)
  }

  /** The splitter with the escape resuming at the character after the escaped one. */
  function SplitPath(p: string): Split
  {
    Scan(p, START, false)
  }

  /** The loop of the splitter; `asWritten` selects the escape branch. */
  method SplitLoop(p: string, asWritten: bool) returns (r: Split)
    ensures r == Scan(p, START, asWritten)
  {
    var ptr, bptr, l, s, c, remote := 0, 0, 0, [], [], false;
    while true
      invariant bptr <= ptr <= |p|
      invariant Scan(p, ScanState(ptr, bptr, l, s, c, remote), asWritten) == Scan(p, START, asWritten)
      decreases |p| - ptr
    {
      ghost var next := Step(p, ScanState(ptr, bptr, l, s, c, remote), asWritten);
      var ch := At(p, ptr);
      if l != 0 {
        l := l - 1;
        if ch == NUL { return Finish(c, remote, l); }
        ptr := ptr + 1;
      } else if ch as int >= 128 {
        l := LeadSkip(ch as int);
        ptr := ptr + 1;
      } else if ch == '\\' {
        s := s + p[bptr..ptr];
        bptr := ptr + 1;
        if At(p, bptr) == NUL {
          return Finish(c + [s], remote, 0);
        }
        if asWritten {
          if At(p, ptr + 2) == NUL { return Finish(c, remote, 0); }
          ptr := ptr + 3;
        } else {
          ptr := ptr + 2;
        }
      } else if ch == '/' || ch == ':' || ch == NUL {
        if ch == ':' {
          if |c| > 0 { return Malformed; }
          remote := true;
        }
        c := c + [s + p[bptr..ptr]];
        s := [];
        bptr := ptr + 1;
        if ch == NUL { return Finish(c, remote, 0); }
        ptr := ptr + 1;
      } else {
        ptr := ptr + 1;
      }
      assert next == Continue(ScanState(ptr, bptr, l, s, c, remote));
    }
  }

  // ---------------------------------------------------------------- the walk depends on pending text only

  /** The state with the text between bptr and ptr moved into s. */
  function Norm(p: string, st: ScanState): ScanState
    requires Sane(p, st)
  {
    st.(bptr := st.ptr, s := st.s + p[st.bptr..st.ptr])
  }

  /** One step from st and from Norm(st) stops the same way or continues to states with the same pending text. */
  predicate StepAgrees(p: string, st: ScanState, asWritten: bool)
    requires Sane(p, st)
  {
    var a, b := Step(p, st, asWritten), Step(p, Norm(p, st), asWritten);
    (a.Stop? && b == a) || (a.Continue? && b.Continue? && Norm(p, a.st) == Norm(p, b.st))
  }

  /** Norm(st) and st have the same pending text, and so do their one-character extensions. */
  lemma NormPending(p: string, st: ScanState)
    requires Sane(p, st)
    ensures var n := Norm(p, st); n.s + p[n.bptr..n.ptr] == st.s + p[st.bptr..st.ptr]
    ensures st.ptr < |p| ==> var n := Norm(p, st);
      n.s + p[n.bptr..n.ptr + 1] == st.s + p[st.bptr..st.ptr + 1]
  {
    var n := Norm(p, st);
    assert p[n.bptr..n.ptr] == [];
    assert n.s + [] == n.s;
    if st.ptr < |p| {
      assert p[st.bptr..st.ptr + 1] == p[st.bptr..st.ptr] + p[st.ptr..st.ptr + 1];
    }
  }

  lemma StepNormCounting(p: string, st: ScanState, asWritten: bool)
    requires Sane(p, st) && st.l != 0
    ensures StepAgrees(p, st, asWritten)
  {
    NormPending(p, st);
  }

  lemma StepNormLead(p: string, st: ScanState, asWritten: bool)
    requires Sane(p, st) && st.l == 0 && At(p, st.ptr) as int >= 128
    ensures StepAgrees(p, st, asWritten)
  {
    NormPending(p, st);
  }

  lemma StepNormEscape(p: string, st: ScanState, asWritten: bool)
    requires Sane(p, st) && st.l == 0 && At(p, st.ptr) == '\\'
    ensures StepAgrees(p, st, asWritten)
  {
    NormPending(p, st);
  }

  lemma StepNormCut(p: string, st: ScanState, asWritten: bool)
    requires Sane(p, st) && st.l == 0 && (At(p, st.ptr) == '/' || At(p, st.ptr) == ':' || At(p, st.ptr) == NUL)
    ensures StepAgrees(p, st, asWritten)
  {
    NormPending(p, st);
  }

  lemma StepNormOther(p: string, st: ScanState, asWritten: bool)
    requires Sane(p, st) && st.l == 0
    requires var ch := At(p, st.ptr); ch as int < 128 && ch != '\\' && ch != '/' && ch != ':' && ch != NUL
    ensures StepAgrees(p, st, asWritten)
  {
    NormPending(p, st);
  }

  lemma StepNorm(p: string, st: ScanState, asWritten: bool)
    requires Sane(p, st)
    ensures StepAgrees(p, st, asWritten)
  {
    var ch := At(p, st.ptr);
    if st.l != 0 {
      StepNormCounting(p, st, asWritten);
    } else if ch as int >= 128 {
      StepNormLead(p, st, asWritten);
    } else if ch == '\\' {
      StepNormEscape(p, st, asWritten);
    } else if ch == '/' || ch == ':' || ch == NUL {
      StepNormCut(p, st, asWritten);
    } else {
      StepNormOther(p, st, asWritten);
    }
  }

  /** Only the pending text s + p[bptr..ptr] matters, not where it is kept. */
  lemma {:induction false} ScanNorm(p: string, st: ScanState, asWritten: bool)
    requires Sane(p, st)
    ensures Scan(p, st, asWritten) == Scan(p, Norm(p, st), asWritten)
    decreases |p| - st.ptr
  {
    StepNorm(p, st, asWritten);
    var a, b := Step(p, st, asWritten), Step(p, Norm(p, st), asWritten);
    if a.Continue? {
      ScanNorm(p, a.st, asWritten);
      ScanNorm(p, b.st, asWritten);
    }
  }

  /** The corrected walk from ptr at a component boundary: everything pending is in s. */
  function Canon(p: string, ptr: nat, s: string, c: seq<string>, remote: bool): Split
    requires ptr <= |p|
  {
    Scan(p, ScanState(ptr, ptr, 0, s, c, remote), false)
  }

  /** A character the walk takes as it is: not NUL, not a separator or '\', and not a lead of 0xE0 or above. */
  predicate Plain(ch: char)
  {
    ch != NUL && ch != '/' && ch != ':' && ch != '\\' && (ch as int < 128 || LeadSkip(ch as int) == 0)
  }

  lemma PlainStep(p: string, ptr: nat, s: string, c: seq<string>, remote: bool)
    requires ptr < |p| && Plain(p[ptr])
    ensures Canon(p, ptr, s, c, remote) == Canon(p, ptr + 1, s + [p[ptr]], c, remote)
  {
    assert p[ptr..ptr + 1] == [p[ptr]];
    var st := ScanState(ptr + 1, ptr, 0, s, c, remote);
    assert Norm(p, st) == ScanState(ptr + 1, ptr + 1, 0, s + [p[ptr]], c, remote);
    assert Step(p, ScanState(ptr, ptr, 0, s, c, remote), false) == Continue(st);
    ScanNorm(p, st, false);
  }

  lemma EscapeStep(p: string, ptr: nat, s: string, c: seq<string>, remote: bool)
    requires ptr + 1 < |p| && p[ptr] == '\\' && p[ptr + 1] != NUL
    ensures Canon(p, ptr, s, c, remote) == Canon(p, ptr + 2, s + [p[ptr + 1]], c, remote)
  {
    var st := ScanState(ptr + 2, ptr + 1, 0, s, c, remote);
    assert p[ptr..ptr] == [];
    assert Step(p, ScanState(ptr, ptr, 0, s, c, remote), false) == Continue(st);
    ScanNorm(p, st, false);
    assert p[ptr + 1..ptr + 2] == [p[ptr + 1]];
  }

  lemma SlashStep(p: string, ptr: nat, s: string, c: seq<string>, remote: bool)
    requires ptr < |p| && p[ptr] == '/'
    ensures Canon(p, ptr, s, c, remote) == Canon(p, ptr + 1, [], c + [s], remote)
  {
    assert p[ptr..ptr] == [];
    assert s + [] == s;
  }

  lemma ColonStep(p: string, ptr: nat, s: string, c: seq<string>, remote: bool)
    requires ptr < |p| && p[ptr] == ':'
    ensures Canon(p, ptr, s, c, remote) == if |c| > 0 then Malformed else Canon(p, ptr + 1, [], c + [s], true)
  {
    assert p[ptr..ptr] == [];
    assert s + [] == s;
  }

  lemma EndStep(p: string, s: string, c: seq<string>, remote: bool)
    ensures Canon(p, |p|, s, c, remote) == Components(c + [s], remote)
  {
    assert p[|p|..|p|] == [];
    assert s + [] == s;
  }

  lemma LeadSkipOf(b: int)
    ensures 0xE0 <= b < 0xF0 ==> LeadSkip(b) == 1
    ensures 0xF0 <= b < 0xF8 ==> LeadSkip(b) == 2
  {
  }

  /** A 3-byte lead takes itself and the next byte literally, whatever that byte is. */
  lemma ThreeByteLead(p: string, ptr: nat, s: string, c: seq<string>, remote: bool)
    requires ptr + 1 < |p| && 0xE0 <= p[ptr] as int < 0xF0 && p[ptr + 1] != NUL
    ensures Canon(p, ptr, s, c, remote) == Canon(p, ptr + 2, s + p[ptr..ptr + 2], c, remote)
  {
    var st0 := ScanState(ptr, ptr, 0, s, c, remote);
    var st1 := ScanState(ptr + 1, ptr, 1, s, c, remote);
    var st2 := ScanState(ptr + 2, ptr, 0, s, c, remote);
    LeadSkipOf(p[ptr] as int);
    assert Step(p, st0, false) == Continue(st1);
    assert Step(p, st1, false) == Continue(st2);
    assert Scan(p, st0, false) == Scan(p, st2, false);
    ScanNorm(p, st2, false);
  }

  /** A 4-byte lead takes itself and the next two bytes literally. */
  lemma FourByteLead(p: string, ptr: nat, s: string, c: seq<string>, remote: bool)
    requires ptr + 2 < |p| && 0xF0 <= p[ptr] as int < 0xF8 && p[ptr + 1] != NUL && p[ptr + 2] != NUL
    ensures Canon(p, ptr, s, c, remote) == Canon(p, ptr + 3, s + p[ptr..ptr + 3], c, remote)
  {
    var st0 := ScanState(ptr, ptr, 0, s, c, remote);
    var st1 := ScanState(ptr + 1, ptr, 2, s, c, remote);
    var st2 := ScanState(ptr + 2, ptr, 1, s, c, remote);
    var st3 := ScanState(ptr + 3, ptr, 0, s, c, remote);
    LeadSkipOf(p[ptr] as int);
    assert Step(p, st0, false) == Continue(st1);
    assert Step(p, st1, false) == Continue(st2);
    assert Step(p, st2, false) == Continue(st3);
    assert Scan(p, st0, false) == Scan(p, st1, false);
    assert Scan(p, st1, false) == Scan(p, st2, false);
    assert Scan(p, st2, false) == Scan(p, st3, false);
    ScanNorm(p, st3, false);
  }

  /** A path ending in a 4-byte lead leaves the counter at 1, so the splitter returns NULL. */
  lemma TruncatedLead(p: string, ptr: nat, s: string, c: seq<string>, remote: bool)
    requires ptr + 1 == |p| && 0xF0 <= p[ptr] as int < 0xF8
    ensures Canon(p, ptr, s, c, remote) == Malformed
  {
    var st1 := ScanState(ptr + 1, ptr, 2, s, c, remote);
    LeadSkipOf(p[ptr] as int);
    assert Step(p, ScanState(ptr, ptr, 0, s, c, remote), false) == Continue(st1);
    assert Step(p, st1, false) == Stop(Malformed);
    assert Scan(p, ScanState(ptr, ptr, 0, s, c, remote), false) == Scan(p, st1, false);
  }

  // ---------------------------------------------------------------- reference: splitting a simple path

  /** The pieces between '/' and ':' characters, empty ones included. */
  function Pieces(p: string): (r: seq<string>)
    ensures |r| > 0
  {
    if p == [] then [[]]
    else
      var rest := Pieces(p[1..]);
      if p[0] == '/' || p[0] == ':' then [[]] + rest else [[p[0]] + rest[0]] + rest[1..]
  }

  /** No ':' comes after a separator (or after the components already cut when `cut` holds). */
  predicate ColonsFirst(p: string, cut: bool)
  {
    p == [] || ((p[0] == ':' ==> !cut) && ColonsFirst(p[1..], cut || p[0] == '/' || p[0] == ':'))
  }

  predicate Simple(p: string)
  {
    forall k :: 0 <= k < |p| ==> Plain(p[k]) || p[k] == '/' || p[k] == ':'
  }

  lemma SimpleTail(q: string)
    requires q != [] && Simple(q)
    ensures Simple(q[1..])
  {
    var r := q[1..];
    forall k | 0 <= k < |r| ensures Plain(r[k]) || r[k] == '/' || r[k] == ':' {
      assert r[k] == q[k + 1];
    }
  }

  /** What the walk yields for the rest q of a simple path, given s, c and remote so far. */
  function SimpleResult(q: string, s: string, c: seq<string>, remote: bool): Split
  {
    var P := Pieces(q);
    if !ColonsFirst(q, |c| > 0) then Malformed else Components(c + [s + P[0]] + P[1..], remote || ':' in q)
  }

  lemma SimpleResultSlash(q: string, s: string, c: seq<string>, remote: bool)
    requires q != [] && q[0] == '/'
    ensures SimpleResult(q, s, c, remote) == SimpleResult(q[1..], [], c + [s], remote)
  {
    assert q == [q[0]] + q[1..];
    var P := Pieces(q[1..]);
    assert [] + P[0] == P[0];
    assert Pieces(q) == [[]] + P;
    assert Pieces(q)[0] == [] && Pieces(q)[1..] == P;
    assert s + [] == s;
    assert [P[0]] + P[1..] == P;
    assert c + [s] + [[] + P[0]] + P[1..] == c + [s] + P;
  }

  lemma SimpleResultColon(q: string, s: string, c: seq<string>, remote: bool)
    requires q != [] && q[0] == ':'
    ensures SimpleResult(q, s, c, remote) == if |c| > 0 then Malformed else SimpleResult(q[1..], [], c + [s], true)
  {
    assert q == [q[0]] + q[1..];
    var P := Pieces(q[1..]);
    assert [] + P[0] == P[0];
    assert Pieces(q) == [[]] + P;
    assert Pieces(q)[0] == [] && Pieces(q)[1..] == P;
    assert s + [] == s;
    assert [P[0]] + P[1..] == P;
    assert c + [s] + [[] + P[0]] + P[1..] == c + [s] + P;
  }

  lemma SimpleResultPlain(q: string, s: string, c: seq<string>, remote: bool)
    requires q != [] && q[0] != '/' && q[0] != ':'
    ensures SimpleResult(q, s, c, remote) == SimpleResult(q[1..], s + [q[0]], c, remote)
  {
    assert q == [q[0]] + q[1..];
    var P := Pieces(q[1..]);
    assert Pieces(q) == [[q[0]] + P[0]] + P[1..];
    assert s + ([q[0]] + P[0]) == s + [q[0]] + P[0];
  }

  lemma {:induction false} SimpleScan(p: string, ptr: nat, s: string, c: seq<string>, remote: bool)
    requires ptr <= |p| && Simple(p[ptr..])
    ensures Canon(p, ptr, s, c, remote) == SimpleResult(p[ptr..], s, c, remote)
    decreases |p| - ptr
  {
    var q := p[ptr..];
    if ptr == |p| {
      EndStep(p, s, c, remote);
      assert q == [];
      assert s + [] == s;
    } else {
      assert q[0] == p[ptr] && q[1..] == p[ptr + 1..];
      SimpleTail(q);
      if p[ptr] == '/' {
        SlashStep(p, ptr, s, c, remote);
        SimpleScan(p, ptr + 1, [], c + [s], remote);
        SimpleResultSlash(q, s, c, remote);
      } else if p[ptr] == ':' {
        ColonStep(p, ptr, s, c, remote);
        SimpleResultColon(q, s, c, remote);
        if |c| == 0 {
          SimpleScan(p, ptr + 1, [], c + [s], true);
        }
      } else {
        assert Plain(q[0]);
        PlainStep(p, ptr, s, c, remote);
        SimpleScan(p, ptr + 1, s + [p[ptr]], c, remote);
        SimpleResultPlain(q, s, c, remote);
      }
    }
  }

  /**
   * A path of plain characters, '/' and ':' splits into its pieces, remote
   * when it holds a ':', unless a ':' follows a separator, which returns NULL.
   */
  lemma SimpleSplit(p: string)
    requires Simple(p)
    ensures SplitPath(p) == if !ColonsFirst(p, false) then Malformed else Components(Pieces(p), ':' in p)
    ensures SplitAsWritten(p) == SplitPath(p)
  {
    assert p[0..] == p;
    SimpleScan(p, 0, [], [], false);
    var P := Pieces(p);
    assert [] + P[0] == P[0];
    assert [] + [P[0]] + P[1..] == P;
    SimpleSame(p, START);
  }

  /** Without a '\' both walks agree. */
  lemma {:induction false} SimpleSame(p: string, st: ScanState)
    requires Sane(p, st) && '\\' !in p
    ensures Scan(p, st, true) == Scan(p, st, false)
    decreases |p| - st.ptr
  {
    assert At(p, st.ptr) != '\\';
    if Step(p, st, true).Continue? {
      SimpleSame(p, Step(p, st, true).st);
    }
  }

  // ---------------------------------------------------------------- escaping round trip

  /** A name written for the splitter: '/', ':' and '\' preceded by '\'. */
  function Escape(x: string): string
  {
    if x == [] then []
    else (if x[0] == '/' || x[0] == ':' || x[0] == '\\' then ['\\', x[0]] else [x[0]]) + Escape(x[1..])
  }

  /** Characters a name may hold for the round trip: anything but NUL and leads of 0xE0 and above. */
  predicate Escapable(x: string)
  {
    forall k :: 0 <= k < |x| ==> x[k] != NUL && (x[k] as int < 128 || LeadSkip(x[k] as int) == 0)
  }

  /** The escaped names joined by '/'. */
  function JoinEscaped(cs: seq<string>): string
    requires |cs| > 0
  {
    if |cs| == 1 then Escape(cs[0]) else Escape(cs[0]) + "/" + JoinEscaped(cs[1..])
  }

  lemma ConsAppend(s: string, x: string)
    requires x != []
    ensures s + [x[0]] + x[1..] == s + x
  {
    assert [x[0]] + x[1..] == x;
  }

  lemma EscapableTail(x: string)
    requires x != [] && Escapable(x)
    ensures Escapable(x[1..])
  {
    var y := x[1..];
    forall k | 0 <= k < |y| ensures y[k] != NUL && (y[k] as int < 128 || LeadSkip(y[k] as int) == 0) {
      assert y[k] == x[k + 1];
    }
  }

  /** Where a text e + a + b sits in p from ptr on, the bytes of e come first and a + b after them. */
  lemma SliceAfter(p: string, ptr: nat, e: string, a: string, b: string)
    requires ptr <= |p| && p[ptr..] == (e + a) + b
    ensures ptr + |e| <= |p| && p[ptr + |e|..] == a + b
    ensures p[ptr..] == e + (a + b)
    ensures |e| > 0 ==> p[ptr] == e[0]
    ensures |e| > 1 ==> p[ptr + 1] == e[1]
  {
    assert (e + a) + b == e + (a + b);
    assert p[ptr + |e|..] == p[ptr..][|e|..];
    if |e| > 0 {
      assert p[ptr] == p[ptr..][0];
    }
    if |e| > 1 {
      assert p[ptr + 1] == p[ptr..][1];
    }
  }

  lemma SliceStep(p: string, m: nat, ch: char, rest: string)
    requires m <= |p| && p[m..] == [ch] + rest
    ensures m < |p| && p[m] == ch && p[m + 1..] == rest
  {
    assert p[m] == p[m..][0];
    assert p[m + 1..] == p[m..][1..];
  }

  /** The first character of an escaped name goes into s, one or two bytes on. */
  lemma EscapedHead(p: string, ptr: nat, x: string, tail: string, s: string, c: seq<string>, remote: bool) returns (n: nat)
    requires x != [] && Escapable(x) && ptr <= |p| && p[ptr..] == Escape(x) + tail
    ensures n == ptr + |Escape(x)| - |Escape(x[1..])| && n <= |p|
    ensures p[n..] == Escape(x[1..]) + tail
    ensures Canon(p, ptr, s, c, remote) == Canon(p, n, s + [x[0]], c, remote)
  {
    var e := if x[0] == '/' || x[0] == ':' || x[0] == '\\' then ['\\', x[0]] else [x[0]];
    assert Escape(x) == e + Escape(x[1..]);
    SliceAfter(p, ptr, e, Escape(x[1..]), tail);
    n := ptr + |e|;
    if |e| == 2 {
      EscapeStep(p, ptr, s, c, remote);
    } else {
      assert Plain(p[ptr]);
      PlainStep(p, ptr, s, c, remote);
    }
  }

  lemma {:induction false} EscapedWord(p: string, ptr: nat, x: string, tail: string, s: string, c: seq<string>, remote: bool)
    requires Escapable(x) && ptr <= |p| && p[ptr..] == Escape(x) + tail
    ensures ptr + |Escape(x)| <= |p|
    ensures Canon(p, ptr, s, c, remote) == Canon(p, ptr + |Escape(x)|, s + x, c, remote)
    decreases |x|
  {
    if x == [] {
      assert s + [] == s;
    } else {
      var n := EscapedHead(p, ptr, x, tail, s, c, remote);
      EscapableTail(x);
      EscapedWord(p, n, x[1..], tail, s + [x[0]], c, remote);
      ConsAppend(s, x);
    }
  }

  lemma EscapedLast(p: string, ptr: nat, x: string, c: seq<string>, remote: bool)
    requires Escapable(x) && ptr <= |p| && p[ptr..] == Escape(x)
    ensures Canon(p, ptr, [], c, remote) == Components(c + [x], remote)
  {
    assert p[ptr..] == Escape(x) + [];
    EscapedWord(p, ptr, x, [], [], c, remote);
    assert ptr + |Escape(x)| == |p|;
    assert [] + x == x;
    EndStep(p, x, c, remote);
  }

  lemma EscapedFirst(p: string, ptr: nat, x: string, rest: string, c: seq<string>, remote: bool) returns (q: nat)
    requires Escapable(x) && ptr <= |p| && p[ptr..] == Escape(x) + "/" + rest
    ensures q <= |p| && p[q..] == rest
    ensures Canon(p, ptr, [], c, remote) == Canon(p, q, [], c + [x], remote)
  {
    var tail := "/" + rest;
    SliceAfter(p, ptr, Escape(x), "/", rest);
    var m := ptr + |Escape(x)|;
    SliceStep(p, m, '/', rest);
    var empty: string := [];
    calc {
      Canon(p, ptr, empty, c, remote);
      { EscapedWord(p, ptr, x, tail, empty, c, remote); }
      Canon(p, m, empty + x, c, remote);
      { assert empty + x == x; }
      Canon(p, m, x, c, remote);
      { SlashStep(p, m, x, c, remote); }
      Canon(p, m + 1, [], c + [x], remote);
    }
    q := m + 1;
  }

  lemma {:induction false} EscapedJoin(p: string, ptr: nat, cs: seq<string>, c: seq<string>, remote: bool)
    requires |cs| > 0 && (forall k :: 0 <= k < |cs| ==> Escapable(cs[k]))
    requires ptr <= |p| && p[ptr..] == JoinEscaped(cs)
    ensures Canon(p, ptr, [], c, remote) == Components(c + cs, remote)
    decreases |cs|
  {
    if |cs| == 1 {
      EscapedLast(p, ptr, cs[0], c, remote);
      assert [cs[0]] == cs;
    } else {
      var q := EscapedFirst(p, ptr, cs[0], JoinEscaped(cs[1..]), c, remote);
      EscapedJoin(p, q, cs[1..], c + [cs[0]], remote);
      assert c + [cs[0]] + cs[1..] == c + cs;
    }
  }

  /** Names escaped and joined by '/' split back into the same names. */
  lemma SplitJoinEscaped(cs: seq<string>)
    requires |cs| > 0 && forall k :: 0 <= k < |cs| ==> Escapable(cs[k])
    ensures SplitPath(JoinEscaped(cs)) == Components(cs, false)
  {
    var p := JoinEscaped(cs);
    assert p[0..] == p;
    EscapedJoin(p, 0, cs, [], false);
    assert [] + cs == cs;
  }

  /** JoinEscaped puts one '/' between the first escaped name and the rest. */
  lemma JoinEscapedCons(x: string, cs: seq<string>)
    requires |cs| > 0
    ensures JoinEscaped([x] + cs) == Escape(x) + "/" + JoinEscaped(cs)
  {
    assert ([x] + cs)[1..] == cs;
  }

  /**
   * An escaped name, a ':' and escaped names joined by '/' split into all
   * the names, marked remote: the "user:share/path" form.
   */
  lemma SplitRemote(x: string, cs: seq<string>)
    requires Escapable(x) && |cs| > 0 && forall k :: 0 <= k < |cs| ==> Escapable(cs[k])
    ensures SplitPath(Escape(x) + ":" + JoinEscaped(cs)) == Components([x] + cs, true)
  {
    var J := JoinEscaped(cs);
    var p := Escape(x) + ":" + J;
    assert p[0..] == p;
    SliceAfter(p, 0, Escape(x), ":", J);
    EscapedWord(p, 0, x, ":" + J, [], [], false);
    var m := |Escape(x)|;
    SliceAfter(p, m, ":", J, []);
    assert J + [] == J;
    assert [] + x == x;
    assert SplitPath(p) == Canon(p, m, x, [], false);
    ColonStep(p, m, x, [], false);
    assert [] + [x] == [x];
    assert Canon(p, m, x, [], false) == Canon(p, m + 1, [], [x], true);
    EscapedJoin(p, m + 1, cs, [x], true);
  }

  /**
   * As written, the character after an escaped one is skipped. "a\:" is the
   * name "a:" escaped; the walk steps over the end of the string and yields
   * no component.
   */
  lemma EscapeDropsLast()
    ensures SplitAsWritten("a\\:") == Components([], false)
  {
    var p := "a\\:";
    var st1 := ScanState(1, 0, 0, [], [], false);
    assert Step(p, START, true) == Continue(st1);
    assert Step(p, st1, true) == Stop(Components([], false));
  }

  /** "a\//b" is the names "a/" and "b" escaped; as written the second '/' is skipped and the names run together. */
  lemma EscapeSwallowsSlash()
    ensures SplitAsWritten("a\\//b") == Components(["a//b"], false)
  {
    var q := "a\\//b";
    var t1 := ScanState(1, 0, 0, [], [], false);
    var t2 := ScanState(4, 2, 0, "a", [], false);
    var t3 := ScanState(5, 2, 0, "a", [], false);
    assert Step(q, START, true) == Continue(t1);
    assert q[0..1] == "a";
    assert Step(q, t1, true) == Continue(t2);
    assert Step(q, t2, true) == Continue(t3);
    assert q[2..5] == "//b";
    assert "a" + "//b" == "a//b";
    assert [] + ["a" + q[2..5]] == ["a//b"];
    assert Step(q, t3, true) == Stop(Components(["a//b"], false));
    assert Scan(q, START, true) == Scan(q, t1, true);
    assert Scan(q, t1, true) == Scan(q, t2, true);
  }

  /** The corrected walk gives both escaped paths back their names. */
  lemma EscapeCorrected()
    ensures SplitPath("a\\:") == Components(["a:"], false)
    ensures SplitPath("a\\//b") == Components(["a/", "b"], false)
  {
    EscapedNames(["a:"]);
    EscapedNames(["a/", "b"]);
  }

  lemma EscapedNames(cs: seq<string>)
    requires cs == ["a:"] || cs == ["a/", "b"]
    ensures SplitPath(JoinEscaped(cs)) == Components(cs, false)
    ensures cs == ["a:"] ==> JoinEscaped(cs) == "a\\:"
    ensures cs == ["a/", "b"] ==> JoinEscaped(cs) == "a\\//b"
  {
    forall k | 0 <= k < |cs| ensures Escapable(cs[k]) {
      var x := cs[k];
      assert forall j :: 0 <= j < |x| ==> x[j] as int < 128 && x[j] != NUL;
    }
    SplitJoinEscaped(cs);
    if cs == ["a:"] {
      assert Escape("a:") == "a" + Escape(":");
      assert Escape(":") == "\\:" + Escape([]);
    } else {
      assert Escape("a/") == "a" + Escape("/");
      assert Escape("/") == "\\/" + Escape([]);
      assert Escape("b") == "b" + Escape([]);
    }
  }
}
