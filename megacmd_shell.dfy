/**
 * The interactive shell of src/megacmdshell/megacmdshell.cpp: the state
 * messages it reads from the server, the prompt buffer, the prompt state
 * machine of `process_line`, the yes/no loop, `quote_detector` and the
 * history width.
 */
module MegaCmdShell {
  import opened Wrappers
  import opened Text
  import opened MegaCmdCodes
  import CommonUtils
  import MegaCmdServer

  // ---------------------------------------------------------------- state messages

  /** The byte that ends each state message. */
  const STATE_DELIM: char := 0x1F as char

  /** What `statechangehandle` does with one state message. */
  datatype StateEvent =
    | PromptChange(prompt: string)
    | Message(text: string)
    | ClientId(id: string)
    | Progress(received: string, total: string, title: string)
    | Ack
    | Unrecognized(state: string)

  /** The text before the first c, or all of s. */
  function UpTo(s: string, c: char): string
  {
    match FindChar(s, c)
    case None => s
    case Some(pos) => s[..pos]
  }

  /** `s.substr(s.find(c) + 1)`: the text after the first c, or all of s when there is none (npos + 1 wraps to 0). */
  function After(s: string, c: char): string
  {
    match FindChar(s, c)
    case None => s
    case Some(pos) => s[pos + 1..]
  }

  /** The fields of a "progress:" message: received, total and the optional title. */
  function ParseProgress(rest: string): (string, string, string)
  {
    var received := UpTo(rest, ':');
    var rest1 := After(rest, ':');
    var total := UpTo(rest1, ':');
    var title := if FindChar(rest1, ':').Some? then UpTo(After(rest1, ':'), ':') else "";
    (received, total, title)
  }

  function HandleState(newstate: string): StateEvent
  {
    if StartsWith(newstate, "prompt:") then PromptChange(newstate[7..])
    else if StartsWith(newstate, "message:") then Message(newstate[8..])
    else if StartsWith(newstate, "clientID:") then ClientId(newstate[9..])
    else if StartsWith(newstate, "progress:") then
      var p := ParseProgress(newstate[9..]);
      Progress(p.0, p.1, p.2)
    else if newstate == "ack" then Ack
    else Unrecognized(newstate)
  }

  /** The events of every 0x1F-terminated message, in order; an unterminated remainder is not handled. */
  function HandledEvents(s: string): seq<StateEvent>
    decreases |s|
  {
    match FindChar(s, STATE_DELIM)
    case None => []
    case Some(pos) => [HandleState(s[..pos])] + HandledEvents(s[pos + 1..])
  }

  method StateChangeHandle(statestring: string) returns (events: seq<StateEvent>)
    ensures events == HandledEvents(statestring)
  {
    events := [];
    var rest := statestring;
    var next := FindChar(rest, STATE_DELIM);
    while next.Some? && |rest| > 0
      invariant next == FindChar(rest, STATE_DELIM)
      invariant events + HandledEvents(rest) == HandledEvents(statestring)
      decreases |rest|
    {
      var newstate := rest[..next.value];
      ghost var old_rest := rest;
      rest := rest[next.value + 1..];
      assert HandledEvents(old_rest) == [HandleState(newstate)] + HandledEvents(rest);
      assert events + HandledEvents(old_rest) == (events + [HandleState(newstate)]) + HandledEvents(rest);
      next := FindChar(rest, STATE_DELIM);
      events := events + [HandleState(newstate)];
    }
  }

  /** What the server's listeners send: each message followed by 0x1F. */
  function Framed(ms: seq<string>): string
  {
    if ms == [] then [] else ms[0] + [STATE_DELIM] + Framed(ms[1..])
  }

  lemma FindCharAfter(x: string, c: char, y: string)
    requires c !in x
    ensures FindChar(x + [c] + y, c) == Some(|x|)
  {
    var s := x + [c] + y;
    assert s[|x|] == c;
    assert forall k :: 0 <= k < |x| ==> s[k] == x[k];
  }

  /**
   * Reading framed messages gives back one event per message, in order,
   * whatever unterminated text follows.
   */
  lemma {:induction false} FramedEvents(ms: seq<string>, remainder: string)
    requires forall i :: 0 <= i < |ms| ==> STATE_DELIM !in ms[i]
    requires STATE_DELIM !in remainder
    ensures |HandledEvents(Framed(ms) + remainder)| == |ms|
    ensures forall i :: 0 <= i < |ms| ==> HandledEvents(Framed(ms) + remainder)[i] == HandleState(ms[i])
    decreases |ms|
  {
    if ms == [] {
      assert Framed(ms) + remainder == remainder;
    } else {
      FrameStep(ms, remainder);
      FramedEvents(ms[1..], remainder);
    }
  }

  /** Reading peels off the first framed message. */
  lemma FrameStep(ms: seq<string>, remainder: string)
    requires ms != [] && STATE_DELIM !in ms[0]
    ensures HandledEvents(Framed(ms) + remainder) == [HandleState(ms[0])] + HandledEvents(Framed(ms[1..]) + remainder)
  {
    var tail := Framed(ms[1..]) + remainder;
    var s := ms[0] + [STATE_DELIM] + tail;
    assert Framed(ms) + remainder == s;
    FindCharAfter(ms[0], STATE_DELIM, tail);
    assert s[..|ms[0]|] == ms[0] && s[|ms[0]| + 1..] == tail;
  }

  lemma NoColonInNumber(i: int)
    ensures ':' !in IntToString(i)
  {
    var r := NatToString(if i < 0 then -i else i);
    assert forall k :: 0 <= k < |r| ==> IsDigit(r[k]);
  }

  /** Splitting at the first c of x + c + y, for a c-free x. */
  lemma FirstField(x: string, c: char, y: string)
    requires c !in x
    ensures UpTo(x + [c] + y, c) == x && After(x + [c] + y, c) == y
  {
    FindCharAfter(x, c, y);
    var s := x + [c] + y;
    assert s[..|x|] == x && s[|x| + 1..] == y;
  }

  /** The three fields of a progress message body come back as they were written. */
  lemma ProgressFields(a: string, b: string, title: string)
    requires ':' !in a && ':' !in b && ':' !in title
    ensures ParseProgress(a + ":" + b + (if |title| > 0 then ":" + title else "")) == (a, b, title)
  {
    var tail := if |title| > 0 then ":" + title else "";
    assert a + ":" + b + tail == a + [':'] + (b + tail);
    FirstField(a, ':', b + tail);
    if |title| > 0 {
      assert b + tail == b + [':'] + title;
      FirstField(b, ':', title);
    } else {
      assert b + tail == b;
    }
  }

  lemma ProgressPrefix(rest: string)
    ensures HandleState("progress:" + rest) == Progress(ParseProgress(rest).0, ParseProgress(rest).1, ParseProgress(rest).2)
  {
    var m := "progress:" + rest;
    assert !StartsWith(m, "prompt:") by { assert m[1] == 'r' && m[2] == 'o' && m[6] != ':'; }
    assert !StartsWith(m, "message:") by { assert m[0] == 'p'; }
    assert !StartsWith(m, "clientID:") by { assert m[0] == 'p'; }
    assert StartsWith(m, "progress:") && m[9..] == rest;
  }

  /** The shell reads back the numbers and title of the server's progress message, when the title has no ':'. */
  lemma ProgressRoundTrip(transferred: int, total: int, title: string)
    requires ':' !in title
    ensures HandleState(MegaCmdServer.ProgressMessage(transferred, total, title)) ==
            Progress(IntToString(transferred), IntToString(total), title)
  {
    var a := IntToString(transferred);
    var b := IntToString(total);
    NoColonInNumber(transferred);
    NoColonInNumber(total);
    var rest := a + ":" + b + (if |title| > 0 then ":" + title else "");
    assert MegaCmdServer.ProgressMessage(transferred, total, title) == "progress:" + rest;
    ProgressFields(a, b, title);
    ProgressPrefix(rest);
  }

  // ---------------------------------------------------------------- prompt buffer

  const PROMPT_MAX_SIZE: nat := 128

  /** The prompt `changeprompt` keeps: a long prompt loses its middle to "..". */
  function Truncated(p: string): string
  {
    if |p| < PROMPT_MAX_SIZE then p else p[..63] + ".." + p[|p| - 62..]
  }

  /** A kept prompt fits the buffer with its terminator, keeps the start and end of the prompt, and is kept as it is. */
  lemma TruncatedFits(p: string)
    ensures |Truncated(p)| < PROMPT_MAX_SIZE
    ensures |p| >= PROMPT_MAX_SIZE ==> |Truncated(p)| == 127 && Truncated(p)[..63] == p[..63] && Truncated(p)[65..] == p[|p| - 62..]
    ensures Truncated(Truncated(p)) == Truncated(p)
  {
    if |p| >= PROMPT_MAX_SIZE {
      var r := Truncated(p);
      assert r[..63] == p[..63];
      assert r[65..] == p[|p| - 62..];
    }
  }

  /** The 128 bytes of the buffer after a change to p. */
  function Layout(p: string): (r: seq<char>)
    ensures |r| == PROMPT_MAX_SIZE
  {
    if |p| < PROMPT_MAX_SIZE then p + seq(PROMPT_MAX_SIZE - |p|, _ => NUL)
    else Truncated(p) + [NUL]
  }

  /** The buffer position by position: a short prompt then NULs; a long one's first 63 characters, "..", its last 62 and a NUL. */
  lemma LayoutAt(p: string, k: nat)
    requires k < PROMPT_MAX_SIZE
    ensures |p| < PROMPT_MAX_SIZE ==> Layout(p)[k] == if k < |p| then p[k] else NUL
    ensures |p| >= PROMPT_MAX_SIZE ==>
              Layout(p)[k] == if k < 63 then p[k] else if k < 65 then '.' else if k < 127 then p[|p| - 62 + (k - 65)] else NUL
  {
    if |p| >= PROMPT_MAX_SIZE {
      var t := p[..63] + ".." + p[|p| - 62..];
      assert Layout(p) == t + [NUL];
      if k < 63 {
        assert t[k] == p[k];
      } else if 65 <= k < 127 {
        assert t[k] == p[|p| - 62..][k - 65];
      }
    }
  }

  /** A prompt shorter than the buffer is copied and padded with NUL to its end. */
  lemma ShortLayout(p: string, a: seq<char>)
    requires |p| < PROMPT_MAX_SIZE && |a| == PROMPT_MAX_SIZE
    ensures Copied(a, 0, p, PROMPT_MAX_SIZE) == Layout(p)
  {
    var r := Copied(a, 0, p, PROMPT_MAX_SIZE);
    forall k | 0 <= k < PROMPT_MAX_SIZE
      ensures r[k] == Layout(p)[k]
    {
      LayoutAt(p, k);
    }
  }

  /** The three copies and the dots of a long prompt write its layout, whatever the buffer held. */
  lemma LongLayout(p: string, a: seq<char>)
    requires |p| >= PROMPT_MAX_SIZE && |a| == PROMPT_MAX_SIZE
    ensures Copied(Copied(a, 0, p, 63)[63 := '.'][64 := '.'], 65, p[|p| - 62..], 62)[127 := NUL] == Layout(p)
  {
    var b := Copied(a, 0, p, 63)[63 := '.'][64 := '.'];
    var r := Copied(b, 65, p[|p| - 62..], 62)[127 := NUL];
    forall k | 0 <= k < PROMPT_MAX_SIZE
      ensures r[k] == Layout(p)[k]
    {
      LayoutAt(p, k);
    }
  }

  lemma CStrTerminated(t: string, rest: seq<char>)
    requires NUL !in t && (rest == [] || rest[0] == NUL)
    ensures CStr(t + rest) == t
  {
    var s := t + rest;
    var r := CStr(s);
    assert forall k :: 0 <= k < |t| ==> s[k] == t[k] && s[k] != NUL;
    assert |t| < |s| ==> s[|t|] == NUL;
  }

  /** The buffer read as a C string is the kept prompt. */
  lemma LayoutReads(p: string)
    requires NUL !in p
    ensures CStr(Layout(p)) == Truncated(p)
  {
    if |p| < PROMPT_MAX_SIZE {
      CStrTerminated(p, seq(PROMPT_MAX_SIZE - |p|, _ => NUL));
    } else {
      var t := Truncated(p);
      assert NUL !in t by {
        forall k | 0 <= k < |t| ensures t[k] != NUL {
          if k < 63 {
            assert t[k] == p[k];
          } else if k >= 65 {
            assert t[k] == p[|p| - 62 + (k - 65)];
          }
        }
      }
      CStrTerminated(t, [NUL]);
    }
  }

  /** The bytes after `strncpy(dst + off, src, n)`: src copied into the n bytes from off and padded with NUL, the rest as in a. */
  function Copied(a: seq<char>, off: nat, src: string, n: nat): (r: seq<char>)
    requires off + n <= |a|
    ensures |r| == |a|
    ensures forall k :: 0 <= k < |a| ==>
      r[k] == (if off <= k < off + n then (if k - off < |src| then src[k - off] else NUL) else a[k])
  {
    seq(|a|, k requires 0 <= k < |a| => if off <= k < off + n then (if k - off < |src| then src[k - off] else NUL) else a[k])
  }

  /** `strncpy(dst + off, src, n)` for a src without NUL: copy, then pad with NUL up to n bytes. */
  method Strncpy(dst: array<char>, off: nat, src: string, n: nat)
    requires off + n <= dst.Length
    modifies dst
    ensures dst[..] == Copied(old(dst[..]), off, src, n)
  {
    var i := 0;
    while i < n
      invariant 0 <= i <= n
      invariant forall k :: 0 <= k < dst.Length ==>
        dst[k] == (if off <= k < off + i then (if k - off < |src| then src[k - off] else NUL) else old(dst[k]))
    {
      dst[off + i] := if i < |src| then src[i] else NUL;
      i := i + 1;
    }
    assert dst[..] == Copied(old(dst[..]), off, src, n);
  }

  class PromptBuffer {
    var dynamicprompt: array<char>

    predicate Valid()
      reads this
    {
      dynamicprompt.Length == PROMPT_MAX_SIZE
    }

    /** The prompt the shell shows. */
    function Shown(): string
      reads this, dynamicprompt
    {
      CStr(dynamicprompt[..])
    }

    constructor ()
      ensures Valid() && fresh(dynamicprompt) && Shown() == []
    {
      dynamicprompt := new char[PROMPT_MAX_SIZE](_ => NUL);
    }

    /** `changeprompt(newprompt)`, without the redisplay. */
    method ChangePrompt(newprompt: string)
      requires Valid() && NUL !in newprompt
      modifies dynamicprompt
      ensures Valid()
      ensures if old(Shown()) != [] && newprompt == old(Shown()) then dynamicprompt[..] == old(dynamicprompt[..])
              else dynamicprompt[..] == Layout(newprompt)
      ensures Shown() == if old(Shown()) != [] && newprompt == old(Shown()) then old(Shown()) else Truncated(newprompt)
    {
      var current := CStr(dynamicprompt[..]);
      if |current| > 0 && newprompt == current {
        return;
      }
      Strncpy(dynamicprompt, 0, newprompt, PROMPT_MAX_SIZE);
      if |newprompt| >= PROMPT_MAX_SIZE {
        ghost var copied := dynamicprompt[..];
        Strncpy(dynamicprompt, 0, newprompt, PROMPT_MAX_SIZE / 2 - 1);
        dynamicprompt[PROMPT_MAX_SIZE / 2 - 1] := '.';
        dynamicprompt[PROMPT_MAX_SIZE / 2] := '.';
        ghost var dotted := dynamicprompt[..];
        assert dotted == Copied(copied, 0, newprompt, 63)[63 := '.'][64 := '.'];
        Strncpy(dynamicprompt, PROMPT_MAX_SIZE / 2 + 1, newprompt[|newprompt| - PROMPT_MAX_SIZE / 2 + 2..], PROMPT_MAX_SIZE / 2 - 2);
        dynamicprompt[PROMPT_MAX_SIZE - 1] := NUL;
        assert dynamicprompt[..] == Copied(dotted, 65, newprompt[|newprompt| - 62..], 62)[127 := NUL];
        LongLayout(newprompt, copied);
      } else {
        ShortLayout(newprompt, old(dynamicprompt[..]));
      }
      assert dynamicprompt[..] == Layout(newprompt);
      LayoutReads(newprompt);
    }
  }

  // ---------------------------------------------------------------- process_line

  /** The shell's globals that `process_line` reads and writes; sent lists the commands handed to the server. */
  datatype Shell = Shell(
    prompt: PromptType, loginname: string, oldpasswd: string, newpasswd: string,
    signingup: bool, signupline: string, confirminglink: bool, linktoconfirm: string,
    clientID: string, doExit: bool, sent: seq<string>, response: Option<bool>)

  function Lower(c: char): char
  {
    if 'A' <= c <= 'Z' then ((c as int) + 32) as char else c
  }

  /** `strcasecmp(a, b) == 0` for ASCII text. */
  predicate SameIgnoringCase(a: string, b: string)
  {
    |a| == |b| && forall k :: 0 <= k < |a| ==> Lower(a[k]) == Lower(b[k])
  }

  function Send(s: Shell, command: string): Shell
  {
    s.(sent := s.sent + [command])
  }

  /** `line` with " --clientID=<id>" after its first word, for get, put and reload. */
  function WithClientId(line: string, clientID: string): string
  {
    if |clientID| == 0 then line
    else
      match FindChar(line, ' ')
      case None => line + " --clientID=" + clientID
      case Some(pspace) => line[..pspace] + " --clientID=" + clientID + line[pspace..]
  }

  /** The width given to "transfers": (width - 46) / 2 in unsigned 32-bit arithmetic. */
  function PathDisplaySize(width: nat): int
    requires width < 0x1_0000_0000
  {
    (if width >= 46 then width - 46 else width - 46 + 0x1_0000_0000) / 2
  }

  function TransfersCommand(line: string, width: nat): string
    requires width < 0x1_0000_0000
  {
    if !Contains(line, "path-display-size") then
      "transfers --path-display-size=" + IntToString(PathDisplaySize(width)) + " " + (if |line| > 10 then line[10..] else "")
    else line
  }

  predicate HelpRequested(words: seq<string>)
  {
    exists i :: 1 <= i < |words| && words[i] == "--help"
  }

  /** The COMMAND prompt: exit, the password and login commands, and everything forwarded to the server. */
  function CommandLine(s: Shell, line: string, words: seq<string>, loggedIn: bool, width: nat): Shell
    requires width < 0x1_0000_0000
  {
    if words == [] then s
    else
      var w0 := words[0];
      var help := HelpRequested(words);
      if w0 == "exit" || w0 == "quit" then
        var s1 := if |words| == 1 then s.(doExit := true) else s;
        if |words| == 1 || words[1] != "--only-shell" then Send(s1, line) else s1.(doExit := true)
      else if w0 == "history" then s
      else if !help && w0 == "passwd" then
        if !loggedIn then s
        else if |CommonUtils.NonDashWords(words)| == 1 then s.(prompt := OldPassword)
        else Send(s, line)
      else if !help && w0 == "login" then
        if loggedIn then s
        else
          var ws := CommonUtils.NonDashWords(words);
          if |ws| == 2 && '@' in ws[1] then s.(loginname := ws[1], prompt := LoginPassword)
          else Send(s, line + (if |s.clientID| > 0 then " --clientID=" + s.clientID else ""))
      else if !help && w0 == "signup" then
        if loggedIn then s
        else
          var ws := CommonUtils.NonDashWords(words);
          if |ws| == 2 then s.(signupline := line, loginname := ws[1], signingup := true, prompt := NewPassword)
          else Send(s.(signupline := line), line)
      else if !help && w0 == "confirm" then
        var ws := CommonUtils.NonDashWords(words);
        if |ws| == 3 then s.(linktoconfirm := ws[1], loginname := ws[2], confirminglink := true, prompt := LoginPassword)
        else Send(s, line)
      else if w0 == "clear" then s
      else if w0 == "transfers" then Send(s, TransfersCommand(line, width))
      else if w0 == "get" || w0 == "put" || w0 == "reload" then Send(s, WithClientId(line, s.clientID))
      else Send(s, line)
  }

  /**
   * `process_line(line)`: words are the shell's split of line, loggedIn is
   * the server's answer to isserverloggedin and width the terminal width.
   */
  function ProcessLine(s: Shell, line: string, words: seq<string>, loggedIn: bool, width: nat): Shell
    requires width < 0x1_0000_0000
  {
    match s.prompt
    case AreYouSureToDelete =>
      if SameIgnoringCase(line, "yes") || SameIgnoringCase(line, "y") then s.(response := Some(true), prompt := Command)
      else if SameIgnoringCase(line, "no") || SameIgnoringCase(line, "n") then s.(response := Some(false), prompt := Command)
      else s
    case LoginPassword =>
      if |line| == 0 then s
      else if !s.confirminglink then
        Send(s, "login -v " + s.loginname + " " + line + (if |s.clientID| > 0 then " --clientID=" + s.clientID else "")).(prompt := Command)
      else
        Send(s, "confirm " + s.linktoconfirm + " " + s.loginname + " " + line).(confirminglink := false, prompt := Command)
    case OldPassword =>
      if |line| == 0 then s else s.(oldpasswd := line, prompt := NewPassword)
    case NewPassword =>
      if |line| == 0 then s else s.(newpasswd := line, prompt := PasswordConfirm)
    case PasswordConfirm =>
      if |line| == 0 then s
      else if line != s.newpasswd then s.(prompt := Command)
      else if s.signingup then
        var signup := s.signupline + " " + s.newpasswd;
        Send(s.(signupline := signup, signingup := false), signup).(prompt := Command)
      else Send(s, "passwd " + s.oldpasswd + " " + s.newpasswd).(prompt := Command)
    case Command => CommandLine(s, line, words, loggedIn, width)
  }

  /** While a password is being read, an empty line changes nothing. */
  lemma EmptyLineWaits(s: Shell, words: seq<string>, loggedIn: bool, width: nat)
    requires width < 0x1_0000_0000
    requires s.prompt in {LoginPassword, OldPassword, NewPassword, PasswordConfirm}
    ensures ProcessLine(s, "", words, loggedIn, width) == s
  {
  }

  /**
   * "passwd" while logged in, then the old password, the new one and the same
   * again, sends "passwd <old> <new>" once and returns to COMMAND.
   */
  lemma PasswordChange(s: Shell, oldpw: string, newpw: string, width: nat)
    requires width < 0x1_0000_0000 && s.prompt == Command && !s.signingup
    requires oldpw != [] && newpw != []
    ensures var s1 := ProcessLine(s, "passwd", ["passwd"], true, width);
      var s2 := ProcessLine(s1, oldpw, [], true, width);
      var s3 := ProcessLine(s2, newpw, [], true, width);
      var s4 := ProcessLine(s3, newpw, [], true, width);
      s1.prompt == OldPassword && s2.prompt == NewPassword && s3.prompt == PasswordConfirm &&
      s4.prompt == Command && s4.sent == s.sent + ["passwd " + oldpw + " " + newpw]
  {
    assert !HelpRequested(["passwd"]);
    assert CommonUtils.NonDashWords(["passwd"]) == ["passwd"] by {
      assert ["passwd"][1..] == [];
    }
  }

  /** A confirmation that differs from the new password returns to COMMAND and sends nothing. */
  lemma MismatchedConfirmation(s: Shell, line: string, words: seq<string>, loggedIn: bool, width: nat)
    requires width < 0x1_0000_0000 && s.prompt == PasswordConfirm && line != [] && line != s.newpasswd
    ensures var r := ProcessLine(s, line, words, loggedIn, width); r.prompt == Command && r.sent == s.sent
  {
  }

  /**
   * "exit" or "quit" alone exits and is forwarded; with "--only-shell" it
   * exits without forwarding; with any other word it is forwarded without
   * exiting.
   */
  lemma ExitHandling(s: Shell, line: string, words: seq<string>, loggedIn: bool, width: nat)
    requires width < 0x1_0000_0000 && s.prompt == Command && |words| > 0 && words[0] in {"exit", "quit"}
    ensures var r := ProcessLine(s, line, words, loggedIn, width);
      (|words| == 1 ==> r.doExit && r.sent == s.sent + [line]) &&
      (|words| > 1 && words[1] == "--only-shell" ==> r.doExit && r.sent == s.sent) &&
      (|words| > 1 && words[1] != "--only-shell" ==> r.doExit == s.doExit && r.sent == s.sent + [line])
  {
  }

  /** For get, put and reload the client id goes right after the command word. */
  lemma ClientIdAfterCommand(cmd: string, rest: string, clientID: string)
    requires ' ' !in cmd && clientID != []
    ensures WithClientId(cmd + " " + rest, clientID) == cmd + " --clientID=" + clientID + " " + rest
  {
    FindCharAfter(cmd, ' ', rest);
    var line := cmd + " " + rest;
    assert line == cmd + [' '] + rest;
    assert line[..|cmd|] == cmd && line[|cmd|..] == " " + rest;
  }

  // ---------------------------------------------------------------- yes/no loop

  predicate YesAnswer(r: string)
  {
    r == "yes" || r == "y" || r == "YES" || r == "Y"
  }

  predicate NoAnswer(r: string)
  {
    r == "no" || r == "n" || r == "NO" || r == "N"
  }

  /** The index and meaning of the first recognised answer. */
  function FirstAnswer(responses: seq<string>): (r: Option<(nat, bool)>)
    ensures r.Some? ==> r.value.0 < |responses| && (r.value.1 <==> YesAnswer(responses[r.value.0]))
    ensures r.Some? ==> YesAnswer(responses[r.value.0]) || NoAnswer(responses[r.value.0])
    ensures r.Some? ==> forall k :: 0 <= k < r.value.0 ==> !YesAnswer(responses[k]) && !NoAnswer(responses[k])
    ensures r.None? ==> forall k :: 0 <= k < |responses| ==> !YesAnswer(responses[k]) && !NoAnswer(responses[k])
  {
    if responses == [] then None
    else if YesAnswer(responses[0]) then Some((0, true))
    else if NoAnswer(responses[0]) then Some((0, false))
    else match FirstAnswer(responses[1..])
      case None => None
      case Some(a) => Some((a.0 + 1, a.1))
  }

  const RETRY_YES_NO: string := "Please enter [y]es/[n]o:"

  /**
   * `readconfirmationloop(question)` over the lines the user types; the
   * questions shown are returned too. The source asks until it gets an
   * answer; here the loop also ends, with none, when the lines run out.
   */
  method ReadConfirmationLoop(question: string, responses: seq<string>) returns (answer: Option<bool>, asked: seq<string>)
    ensures FirstAnswer(responses).Some? ==>
      answer == Some(FirstAnswer(responses).value.1) &&
      asked == [question] + seq(FirstAnswer(responses).value.0, _ => RETRY_YES_NO)
    ensures FirstAnswer(responses).None? ==> answer == None
  {
    var firstime := true;
    var i := 0;
    asked := [];
    while i < |responses|
      invariant 0 <= i <= |responses|
      invariant forall k :: 0 <= k < i ==> !YesAnswer(responses[k]) && !NoAnswer(responses[k])
      invariant firstime <==> i == 0
      invariant asked == if i == 0 then [] else [question] + seq(i - 1, _ => RETRY_YES_NO)
    {
      if firstime {
        asked := asked + [question];
      } else {
        asked := asked + [RETRY_YES_NO];
      }
      firstime := false;
      var response := responses[i];
      if YesAnswer(response) {
        return Some(true), asked;
      }
      if NoAnswer(response) {
        return Some(false), asked;
      }
      i := i + 1;
    }
    return None, asked;
  }

  // ---------------------------------------------------------------- quote_detector and history

  /** `quote_detector(line, index)`. */
  predicate QuoteDetector(line: string, index: nat)
    requires index <= |line|
  {
    index > 0 && line[index - 1] == '\\' && !QuoteDetector(line, index - 1)
  }

  /** The number of backslashes right before index. */
  function BackslashRun(line: string, index: nat): (n: nat)
    requires index <= |line|
    ensures n <= index
  {
    if index > 0 && line[index - 1] == '\\' then BackslashRun(line, index - 1) + 1 else 0
  }

  /** A character is escaped iff an odd number of backslashes precede it. */
  lemma {:induction false} QuoteDetectorOdd(line: string, index: nat)
    requires index <= |line|
    ensures QuoteDetector(line, index) <==> BackslashRun(line, index) % 2 == 1
    decreases index
  {
    if index > 0 && line[index - 1] == '\\' {
      QuoteDetectorOdd(line, index - 1);
    }
  }

  /** The loop of `printHistory` that sizes the number column. */
  method HistoryWidth(length: int) returns (offset: int)
    ensures length >= 0 ==> offset == |NatToString(length)|
    ensures length < 10 ==> offset == 1
  {
    offset := 1;
    var rest := length;
    while rest >= 10
      invariant rest >= 0 ==> length >= 0
      invariant length < 10 ==> rest == length && offset == 1
      invariant length >= 0 ==> rest >= 0 && offset + |NatToString(rest)| - 1 == |NatToString(length)|
      decreases rest
    {
      assert |NatToString(rest)| == |NatToString(rest / 10)| + 1;
      offset := offset + 1;
      rest := rest / 10;
    }
  }

  lemma {:induction false} DigitsMonotone(a: nat, b: nat)
    requires a <= b
    ensures |NatToString(a)| <= |NatToString(b)|
    decreases b
  {
    if a >= 10 {
      DigitsMonotone(a / 10, b / 10);
    }
  }

  /** Every history index fits the column printHistory sizes from the history length. */
  lemma HistoryIndexFits(length: nat, i: nat)
    requires i < length
    ensures |NatToString(i)| <= |NatToString(length)|
  {
    DigitsMonotone(i, length);
  }
}
