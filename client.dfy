/**
 * The command-line client of src/client/megacmdclient.cpp: making local
 * path arguments absolute before the command line goes to the server, and
 * quoting the arguments into one line. The working directory is a
 * parameter (None when getcwd fails).
 */
module MegaCmdClient {
  import opened Wrappers
  import opened Text
  import MegaCmdShell

  /** `getAbsPath` on POSIX. */
  function AbsPath(relativePath: string, cwd: Option<string>): (r: string)
    ensures relativePath == [] ==> r == []
    ensures |relativePath| > 0 && relativePath[0] == '/' ==> r == relativePath
    ensures |relativePath| > 0 && relativePath[0] != '/' && cwd.Some? ==> r == cwd.value + "/" + relativePath
    ensures cwd.None? ==> r == relativePath
  {
    if |relativePath| == 0 then relativePath
    else if relativePath[0] == '/' then relativePath
    else match cwd
      case None => relativePath
      case Some(c) => c + "/" + relativePath
  }

  /** A "real" argument: non-empty and not a flag. */
  predicate IsRealArg(a: string)
  {
    |a| > 0 && a[0] != '-'
  }

  function RealCount(args: seq<string>): (n: nat)
    ensures n <= |args|
  {
    if args == [] then 0 else RealCount(args[..|args| - 1]) + (if IsRealArg(args[|args| - 1]) then 1 else 0)
  }

  /** The position of the last real argument. */
  function LastReal(args: seq<string>): (r: Option<nat>)
    ensures r.Some? ==> r.value < |args| && IsRealArg(args[r.value])
    ensures r.Some? ==> forall k :: r.value < k < |args| ==> !IsRealArg(args[k])
    ensures r.None? ==> forall k :: 0 <= k < |args| ==> !IsRealArg(args[k])
  {
    if args == [] then None
    else if IsRealArg(args[|args| - 1]) then Some(|args| - 1)
    else
      var r := LastReal(args[..|args| - 1]);
      assert forall k :: 0 <= k < |args| - 1 ==> args[..|args| - 1][k] == args[k];
      r
  }

  predicate GetLike(cmd: string)
  {
    cmd == "get" || cmd == "preview" || cmd == "thumbnail"
  }

  /**
   * Whether argument j after the command is made absolute: for sync the
   * first real one when there are two or more, for lcd every real one, for
   * get, preview and thumbnail every real one after the first, for put the
   * first real one and every real one before the last.
   */
  predicate Absolutised(cmd: string, args: seq<string>, j: nat)
    requires j < |args|
  {
    IsRealArg(args[j]) &&
    if cmd == "sync" then RealCount(args) >= 2 && RealCount(args[..j]) == 0
    else if cmd == "lcd" then true
    else if GetLike(cmd) then RealCount(args[..j]) >= 1
    else if cmd == "put" then RealCount(args[..j]) == 0 || (LastReal(args).Some? && j < LastReal(args).value)
    else false
  }

  function Converted(cmd: string, args: seq<string>, n: nat, cwd: Option<string>): (r: seq<string>)
    requires n <= |args|
    ensures |r| == n
  {
    seq(n, j requires 0 <= j < n => if Absolutised(cmd, args, j) then AbsPath(args[j], cwd) else args[j])
  }

  /** The arguments `parseArgs` passes on: argv[1], then argv[2..] with some made absolute, then "." made absolute for a get with one real argument. */
  function ArgsOf(argv: seq<string>, cwd: Option<string>): seq<string>
  {
    if |argv| <= 1 then []
    else
      var args := argv[2..];
      [argv[1]] + Converted(argv[1], args, |args|, cwd) +
      (if GetLike(argv[1]) && RealCount(args) == 1 then [AbsPath(".", cwd)] else [])
  }

  /** One argument on the command line: in double quotes when it is empty or holds a space. */
  function QuotedArg(a: string): string
  {
    if Contains(a, " ") || |a| == 0 then "\"" + a + "\"" else a
  }

  /** The arguments quoted and joined by single spaces. */
  function JoinQuoted(args: seq<string>): string
  {
    if args == [] then ""
    else if |args| == 1 then QuotedArg(args[0])
    else JoinQuoted(args[..|args| - 1]) + " " + QuotedArg(args[|args| - 1])
  }

  lemma RealCountStep(args: seq<string>, i: nat)
    requires i < |args|
    ensures RealCount(args[..i + 1]) == RealCount(args[..i]) + (if IsRealArg(args[i]) then 1 else 0)
  {
    assert args[..i + 1][..i] == args[..i];
  }

  lemma LastRealStep(args: seq<string>, i: nat)
    requires i < |args|
    ensures LastReal(args[..i + 1]) == if IsRealArg(args[i]) then Some(i) else LastReal(args[..i])
  {
    assert args[..i + 1][..i] == args[..i];
  }

  lemma ConvertedStep(cmd: string, args: seq<string>, n: nat, cwd: Option<string>)
    requires n < |args|
    ensures Converted(cmd, args, n + 1, cwd) ==
      Converted(cmd, args, n, cwd) + [if Absolutised(cmd, args, n) then AbsPath(args[n], cwd) else args[n]]
  {
  }

  /** The loops of `parseArgs` that fill `absolutedargs`. */
  method AbsolutedArgs(argv: seq<string>, cwd: Option<string>) returns (absolutedargs: seq<string>)
    ensures absolutedargs == ArgsOf(argv, cwd)
  {
    absolutedargs := [];
    if |argv| <= 1 {
      return;
    }
    var cmd := argv[1];
    var rest: seq<string>;
    if cmd == "sync" {
      rest := SyncArgs(argv, cwd);
    } else if cmd == "lcd" {
      rest := LcdArgs(argv, cwd);
    } else if GetLike(cmd) {
      rest := GetArgs(argv, cwd);
    } else if cmd == "put" {
      rest := PutArgs(argv, cwd);
    } else {
      rest := OtherArgs(argv, cwd);
    }
    absolutedargs := [cmd] + rest;
  }

  method SyncArgs(argv: seq<string>, cwd: Option<string>) returns (out: seq<string>)
    requires |argv| >= 2 && argv[1] == "sync"
    ensures out == Converted(argv[1], argv[2..], |argv| - 2, cwd)
  {
    ghost var args := argv[2..];
    var totalRealArgs := CountReal(argv);
    var firstrealArg := true;
    out := [];
    var i := 2;
    while i < |argv|
      invariant 2 <= i <= |argv|
      invariant firstrealArg <==> (totalRealArgs < 2 || RealCount(args[..i - 2]) == 0)
      invariant out == Converted(argv[1], args, i - 2, cwd)
    {
      RealCountStep(args, i - 2);
      ConvertedStep(argv[1], args, i - 2, cwd);
      if IsRealArg(argv[i]) {
        if totalRealArgs >= 2 && firstrealArg {
          out := out + [AbsPath(argv[i], cwd)];
          firstrealArg := false;
        } else {
          out := out + [argv[i]];
        }
      } else {
        out := out + [argv[i]];
      }
      i := i + 1;
    }
  }

  method LcdArgs(argv: seq<string>, cwd: Option<string>) returns (out: seq<string>)
    requires |argv| >= 2 && argv[1] == "lcd"
    ensures out == Converted(argv[1], argv[2..], |argv| - 2, cwd)
  {
    ghost var args := argv[2..];
    out := [];
    var i := 2;
    while i < |argv|
      invariant 2 <= i <= |argv|
      invariant out == Converted(argv[1], args, i - 2, cwd)
    {
      ConvertedStep(argv[1], args, i - 2, cwd);
      if IsRealArg(argv[i]) {
        out := out + [AbsPath(argv[i], cwd)];
      } else {
        out := out + [argv[i]];
      }
      i := i + 1;
    }
  }

  method GetArgs(argv: seq<string>, cwd: Option<string>) returns (out: seq<string>)
    requires |argv| >= 2 && GetLike(argv[1])
    ensures out == Converted(argv[1], argv[2..], |argv| - 2, cwd) +
      (if RealCount(argv[2..]) == 1 then [AbsPath(".", cwd)] else [])
  {
    ghost var args := argv[2..];
    var totalRealArgs := 0;
    out := [];
    var i := 2;
    while i < |argv|
      invariant 2 <= i <= |argv|
      invariant totalRealArgs == RealCount(args[..i - 2])
      invariant out == Converted(argv[1], args, i - 2, cwd)
    {
      RealCountStep(args, i - 2);
      ConvertedStep(argv[1], args, i - 2, cwd);
      if IsRealArg(argv[i]) {
        totalRealArgs := totalRealArgs + 1;
        if totalRealArgs > 1 {
          out := out + [AbsPath(argv[i], cwd)];
        } else {
          out := out + [argv[i]];
        }
      } else {
        out := out + [argv[i]];
      }
      i := i + 1;
    }
    assert args[..|args|] == args;
    if totalRealArgs == 1 {
      out := out + [AbsPath(".", cwd)];
    }
  }

  method PutArgs(argv: seq<string>, cwd: Option<string>) returns (out: seq<string>)
    requires |argv| >= 2 && argv[1] == "put"
    ensures out == Converted(argv[1], argv[2..], |argv| - 2, cwd)
  {
    ghost var args := argv[2..];
    var lastRealArg := LastRealArg(argv);
    var firstRealArg := true;
    out := [];
    var i := 2;
    while i < |argv|
      invariant 2 <= i <= |argv|
      invariant firstRealArg <==> RealCount(args[..i - 2]) == 0
      invariant out == Converted(argv[1], args, i - 2, cwd)
    {
      RealCountStep(args, i - 2);
      ConvertedStep(argv[1], args, i - 2, cwd);
      if IsRealArg(argv[i]) {
        if firstRealArg || i < lastRealArg {
          out := out + [AbsPath(argv[i], cwd)];
          firstRealArg := false;
        } else {
          out := out + [argv[i]];
        }
      } else {
        out := out + [argv[i]];
      }
      i := i + 1;
    }
  }

  method OtherArgs(argv: seq<string>, cwd: Option<string>) returns (out: seq<string>)
    requires |argv| >= 2 && !(argv[1] in {"sync", "lcd", "put"}) && !GetLike(argv[1])
    ensures out == Converted(argv[1], argv[2..], |argv| - 2, cwd)
  {
    ghost var args := argv[2..];
    out := [];
    var i := 2;
    while i < |argv|
      invariant 2 <= i <= |argv|
      invariant out == Converted(argv[1], args, i - 2, cwd)
    {
      ConvertedStep(argv[1], args, i - 2, cwd);
      out := out + [argv[i]];
      i := i + 1;
    }
  }

  /** The counting loop of the sync branch. */
  method CountReal(argv: seq<string>) returns (totalRealArgs: nat)
    requires |argv| >= 2
    ensures totalRealArgs == RealCount(argv[2..])
  {
    ghost var args := argv[2..];
    totalRealArgs := 0;
    var i := 2;
    while i < |argv|
      invariant 2 <= i <= |argv|
      invariant totalRealArgs == RealCount(args[..i - 2])
    {
      RealCountStep(args, i - 2);
      if IsRealArg(argv[i]) {
        totalRealArgs := totalRealArgs + 1;
      }
      i := i + 1;
    }
    assert args[..|args|] == args;
  }

  /** The loop of the put branch that finds `lastRealArg` (an index into argv, 0 when there is none). */
  method LastRealArg(argv: seq<string>) returns (lastRealArg: nat)
    requires |argv| >= 2
    ensures lastRealArg == match LastReal(argv[2..]) case None => 0 case Some(j) => j + 2
  {
    ghost var args := argv[2..];
    lastRealArg := 0;
    var i := 2;
    while i < |argv|
      invariant 2 <= i <= |argv|
      invariant lastRealArg == match LastReal(args[..i - 2]) case None => 0 case Some(j) => j + 2
    {
      LastRealStep(args, i - 2);
      if IsRealArg(argv[i]) {
        lastRealArg := i;
      }
      i := i + 1;
    }
    assert args[..|args|] == args;
  }

  /** The final loop of `parseArgs`. */
  method JoinArgs(absolutedargs: seq<string>) returns (toret: string)
    ensures toret == JoinQuoted(absolutedargs)
  {
    toret := "";
    var i := 0;
    while i < |absolutedargs|
      invariant 0 <= i <= |absolutedargs|
      invariant toret == JoinQuoted(absolutedargs[..i]) + (if 0 < i < |absolutedargs| then " " else "")
    {
      var a := absolutedargs[i];
      assert absolutedargs[..i + 1][..i] == absolutedargs[..i];
      toret := toret + QuotedArg(a);
      if i != |absolutedargs| - 1 {
        toret := toret + " ";
      }
      i := i + 1;
    }
    assert absolutedargs[..|absolutedargs|] == absolutedargs;
  }

  /** `parseArgs(argc, argv)`. */
  method ParseArgs(argv: seq<string>, cwd: Option<string>) returns (toret: string)
    ensures toret == JoinQuoted(ArgsOf(argv, cwd))
  {
    var absolutedargs := AbsolutedArgs(argv, cwd);
    toret := JoinArgs(absolutedargs);
  }

  // ---------------------------------------------------------------- properties

  lemma RealCountMono(args: seq<string>, i: nat, j: nat)
    requires i <= j <= |args|
    ensures RealCount(args[..i]) <= RealCount(args[..j])
    decreases j - i
  {
    if i < j {
      RealCountStep(args, j - 1);
      RealCountMono(args, i, j - 1);
    }
  }

  lemma {:induction false} RealCountPositive(args: seq<string>, j: nat, n: nat)
    requires j < n <= |args| && IsRealArg(args[j])
    ensures RealCount(args[..n]) >= 1
    decreases n
  {
    RealCountStep(args, n - 1);
    if j < n - 1 {
      RealCountPositive(args, j, n - 1);
    }
  }

  /** A sync with two or more real arguments makes exactly one absolute: the first real one. */
  lemma SyncOnlyFirst(args: seq<string>, j1: nat, j2: nat)
    requires j1 < |args| && j2 < |args|
    requires Absolutised("sync", args, j1) && Absolutised("sync", args, j2)
    ensures j1 == j2
  {
    if j1 < j2 {
      RealCountPositive(args, j1, j2);
    } else if j2 < j1 {
      RealCountPositive(args, j2, j1);
    }
  }

  /** Put never makes its last real argument absolute unless it is also the first. */
  lemma PutKeepsLast(args: seq<string>)
    requires LastReal(args).Some? && RealCount(args[..LastReal(args).value]) >= 1
    ensures !Absolutised("put", args, LastReal(args).value)
  {
  }

  /** Get, preview and thumbnail never make their first real argument absolute, and add "." only when there is exactly one real argument. */
  lemma GetKeepsFirst(cmd: string, args: seq<string>, j: nat)
    requires GetLike(cmd) && j < |args| && RealCount(args[..j]) == 0
    ensures !Absolutised(cmd, args, j)
  {
  }

  /** Commands other than sync, lcd, get, preview, thumbnail and put pass their arguments through unchanged. */
  lemma OthersUnchanged(argv: seq<string>, cwd: Option<string>)
    requires |argv| >= 2 && !(argv[1] in {"sync", "lcd", "put"}) && !GetLike(argv[1])
    ensures ArgsOf(argv, cwd) == argv[1..]
  {
    var args := argv[2..];
    assert Converted(argv[1], args, |args|, cwd) == args;
  }

  /** Without a working directory nothing changes except that get may gain ".". */
  lemma NoCwdJustCopies(argv: seq<string>)
    requires |argv| >= 2
    ensures ArgsOf(argv, None)[..|argv| - 1] == argv[1..]
  {
    var args := argv[2..];
    assert Converted(argv[1], args, |args|, None) == args;
  }

  /** The joined line has one quoted or bare argument per element, separated by spaces. */
  lemma JoinQuotedLength(args: seq<string>)
    requires args != []
    ensures |JoinQuoted(args)| >= |args| - 1 + |args|
  {
    if |args| > 1 {
      JoinQuotedLength(args[..|args| - 1]);
    }
  }

  /** With no argument that needs quoting, the line is the arguments joined by spaces. */
  lemma {:induction false} JoinPlain(args: seq<string>, a: string)
    requires !Contains(a, " ") && |a| > 0
    ensures JoinQuoted([a]) == a
    ensures args != [] ==> JoinQuoted(args + [a]) == JoinQuoted(args) + " " + a
  {
    if args != [] {
      assert (args + [a])[..|args|] == args;
    }
  }

  // ---------------------------------------------------------------- confirmation

  /**
   * The client's `readconfirmationloop`: the same answers as the shell's, but
   * each prompt is written to the console followed by a space, and a line is
   * read after it. The source asks until it gets an answer; here the loop
   * also ends, with none, when the lines run out.
   */
  method ReadConfirmationLoop(question: string, responses: seq<string>) returns (answer: Option<bool>, shown: seq<string>)
    ensures MegaCmdShell.FirstAnswer(responses).Some? ==>
      answer == Some(MegaCmdShell.FirstAnswer(responses).value.1) &&
      shown == [question + " "] + seq(MegaCmdShell.FirstAnswer(responses).value.0, _ => MegaCmdShell.RETRY_YES_NO + " ")
    ensures MegaCmdShell.FirstAnswer(responses).None? ==>
      answer == None && shown == if responses == [] then [] else [question + " "] + seq(|responses| - 1, _ => MegaCmdShell.RETRY_YES_NO + " ")
  {
    var firstime := true;
    var i := 0;
    shown := [];
    while i < |responses|
      invariant 0 <= i <= |responses|
      invariant forall k :: 0 <= k < i ==> !MegaCmdShell.YesAnswer(responses[k]) && !MegaCmdShell.NoAnswer(responses[k])
      invariant firstime <==> i == 0
      invariant shown == if i == 0 then [] else [question + " "] + seq(i - 1, _ => MegaCmdShell.RETRY_YES_NO + " ")
    {
      if firstime {
        shown := shown + [question + " "];
      } else {
        shown := shown + [MegaCmdShell.RETRY_YES_NO + " "];
      }
      firstime := false;
      var response := responses[i];
      if MegaCmdShell.YesAnswer(response) {
        return Some(true), shown;
      }
      if MegaCmdShell.NoAnswer(response) {
        return Some(false), shown;
      }
      i := i + 1;
    }
    answer := None;
  }
}
