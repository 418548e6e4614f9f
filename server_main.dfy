/**
 * The argument handling of src/megacmd_server_main.cpp: removing a flag,
 * removing a flag with its value, and choosing the SDK and MEGAcmd log
 * levels from the flags and the MEGACMD_LOGLEVEL environment variable.
 */
module ServerMain {
  import opened Wrappers
  import MegaCmdUtils

  // ---------------------------------------------------------------- flags

  /** The last index below `bound` holding `what`. */
  function LastIndexBelow(args: seq<string>, what: string, bound: nat): (r: Option<nat>)
    requires bound <= |args|
    ensures r.Some? ==> r.value < bound && args[r.value] == what &&
                        forall k :: r.value < k < bound ==> args[k] != what
    ensures r.None? ==> forall k :: 0 <= k < bound ==> args[k] != what
  {
    if bound == 0 then None
    else if args[bound - 1] == what then Some(bound - 1)
    else LastIndexBelow(args, what, bound - 1)
  }

  /** The sequence with the count elements from k on removed. */
  function RemoveAt(args: seq<string>, k: nat, count: nat): seq<string>
    requires k + count <= |args|
  {
    args[..k] + args[k + count..]
  }

  /** The arguments once the last occurrence of what, if there is one, has been erased. */
  function Extracted(args: seq<string>, what: string): (r: seq<string>)
    ensures multiset(r) == multiset(args) - multiset{what}
  {
    if what in args then
      var k := LastIndexBelow(args, what, |args|).value;
      ExtractArgRemovesOne(args, what, k);
      RemoveAt(args, k, 1)
    else args
  }

  /**
   * `extractarg`: scanning from the end, the last occurrence of the flag is
   * erased and true returned; otherwise the arguments are left as they are.
   */
  method ExtractArg(args: seq<string>, what: string) returns (found: bool, rest: seq<string>)
    ensures found <==> what in args
    ensures found ==> var k := LastIndexBelow(args, what, |args|).value; rest == RemoveAt(args, k, 1)
    ensures !found ==> rest == args
    ensures rest == Extracted(args, what)
  {
    var i := |args|;
    while i > 0
      invariant 0 <= i <= |args|
      invariant LastIndexBelow(args, what, |args|) == LastIndexBelow(args, what, i)
    {
      i := i - 1;
      if args[i] == what {
        return true, args[..i] + args[i + 1..];
      }
    }
    return false, args;
  }

  /** Removing the last occurrence leaves one occurrence fewer. */
  lemma ExtractArgRemovesOne(args: seq<string>, what: string, k: nat)
    requires LastIndexBelow(args, what, |args|) == Some(k)
    ensures multiset(RemoveAt(args, k, 1)) == multiset(args) - multiset{what}
    ensures forall j :: k <= j < |args| - 1 ==> RemoveAt(args, k, 1)[j] != what
  {
    assert args == args[..k] + [args[k]] + args[k + 1..];
  }

  /**
   * `extractargparam`: the loop starts one before the last position, so a
   * flag in the last position is never taken. The last earlier occurrence is
   * erased with the argument after it, which is returned.
   */
  method ExtractArgParam(args: seq<string>, what: string) returns (param: Option<string>, rest: seq<string>)
    ensures |args| < 2 ==> param.None? && rest == args
    ensures |args| >= 2 ==>
              var m := LastIndexBelow(args, what, |args| - 1);
              (m.None? ==> param.None? && rest == args) &&
              (m.Some? ==> param == Some(args[m.value + 1]) && rest == RemoveAt(args, m.value, 2))
  {
    if |args| < 2 {
      return None, args;
    }
    var i := |args| - 1;
    while i > 0
      invariant 0 <= i <= |args| - 1
      invariant LastIndexBelow(args, what, |args| - 1) == LastIndexBelow(args, what, i)
    {
      i := i - 1;
      if args[i] == what {
        return Some(args[i + 1]), args[..i] + args[i + 2..];
      }
    }
    return None, args;
  }

  /** A flag given only as the final argument has no value and is not taken. */
  lemma FinalFlagIgnored(args: seq<string>, what: string)
    requires |args| >= 1 && args[|args| - 1] == what
    requires forall k :: 0 <= k < |args| - 1 ==> args[k] != what
    ensures |args| >= 2 ==> LastIndexBelow(args, what, |args| - 1).None?
  {
  }

  // ---------------------------------------------------------------- log levels

  /** The switches `getLogLevels` reads, after the environment has been folded in. */
  datatype Switches = Switches(debug: bool, debugfull: bool, verbose: bool, verbosefull: bool)

  /** The environment value's contribution: exactly one of the four names sets its switch. */
  function WithEnv(s: Switches, env: Option<string>): Switches
  {
    if env.None? then s
    else Switches(s.debug || env.value == "DEBUG", s.debugfull || env.value == "FULLDEBUG",
                  s.verbose || env.value == "VERBOSE", s.verbosefull || env.value == "FULLVERBOSE")
  }

  /** The levels (sdk, cmd) the switches give, each later switch overriding the earlier ones. */
  function Levels(s: Switches, debugBuild: bool): (int, int)
  {
    var sdk0 := if debugBuild then MegaCmdUtils.LOG_LEVEL_DEBUG else MegaCmdUtils.LOG_LEVEL_ERROR;
    var cmd0 := if debugBuild then MegaCmdUtils.LOG_LEVEL_DEBUG else MegaCmdUtils.LOG_LEVEL_INFO;
    var cmd1 := if s.debug then MegaCmdUtils.LOG_LEVEL_DEBUG else cmd0;
    var sdk2 := if s.debugfull then MegaCmdUtils.LOG_LEVEL_DEBUG else sdk0;
    var cmd2 := if s.debugfull then MegaCmdUtils.LOG_LEVEL_DEBUG else cmd1;
    var cmd3 := if s.verbose then MegaCmdUtils.LOG_LEVEL_MAX else cmd2;
    var sdk4 := if s.verbosefull then MegaCmdUtils.LOG_LEVEL_MAX else sdk2;
    var cmd4 := if s.verbosefull then MegaCmdUtils.LOG_LEVEL_MAX else cmd3;
    (sdk4, cmd4)
  }

  /** The levels in closed form: defaults, then whichever switch comes last in the order debug, debug-full, verbose, verbose-full. */
  lemma LevelsPrecedence(s: Switches, debugBuild: bool)
    ensures s == Switches(false, false, false, false) ==>
      Levels(s, debugBuild) == if debugBuild then (MegaCmdUtils.LOG_LEVEL_DEBUG, MegaCmdUtils.LOG_LEVEL_DEBUG)
                               else (MegaCmdUtils.LOG_LEVEL_ERROR, MegaCmdUtils.LOG_LEVEL_INFO)
    ensures s.verbosefull ==> Levels(s, debugBuild) == (MegaCmdUtils.LOG_LEVEL_MAX, MegaCmdUtils.LOG_LEVEL_MAX)
    ensures s.verbose ==> Levels(s, debugBuild).1 == MegaCmdUtils.LOG_LEVEL_MAX
    ensures s.debugfull && !s.verbosefull ==> Levels(s, debugBuild).0 == MegaCmdUtils.LOG_LEVEL_DEBUG
    ensures (s.debug || s.debugfull) && !s.verbose && !s.verbosefull ==> Levels(s, debugBuild).1 == MegaCmdUtils.LOG_LEVEL_DEBUG
    ensures !s.debugfull && !s.verbosefull ==> Levels(s, debugBuild).0 == Levels(Switches(false, false, false, false), debugBuild).0
  {
  }

  /** Both levels are always valid log levels, and the switches never lower a level below the build's default. */
  lemma LevelsInRange(s: Switches, debugBuild: bool)
    ensures var (sdk, cmd) := Levels(s, debugBuild);
      MegaCmdUtils.LOG_LEVEL_ERROR <= sdk <= MegaCmdUtils.LOG_LEVEL_MAX &&
      MegaCmdUtils.LOG_LEVEL_INFO <= cmd <= MegaCmdUtils.LOG_LEVEL_MAX &&
      sdk >= Levels(Switches(false, false, false, false), debugBuild).0 &&
      cmd >= Levels(Switches(false, false, false, false), debugBuild).1
  {
  }

  /** Which of the four log flags are among the arguments. */
  function LogFlagsIn(args: seq<string>): Switches
  {
    Switches("--debug" in args, "--debug-full" in args, "--verbose" in args, "--verbose-full" in args)
  }

  /** The arguments once the last occurrence of each log flag present has been erased, in extraction order. */
  function ExtractedLogFlags(args: seq<string>): (r: seq<string>)
    ensures multiset(r) == multiset(args) - multiset{"--debug", "--debug-full", "--verbose", "--verbose-full"}
  {
    RemoveFourFlags(multiset(args), "--debug", "--debug-full", "--verbose", "--verbose-full");
    Extracted(Extracted(Extracted(Extracted(args, "--debug"), "--debug-full"), "--verbose"), "--verbose-full")
  }

  /**
   * The four `extractarg` calls of `getLogLevels`, in order: each says
   * whether its flag was present, and the arguments lose the last occurrence
   * of each flag present.
   */
  method ExtractLogFlags(args: seq<string>) returns (s: Switches, rest: seq<string>)
    ensures s == LogFlagsIn(args)
    ensures rest == ExtractedLogFlags(args)
    ensures |rest| <= |args|
    ensures forall a :: a in rest ==> a in args
  {
    var debug, debugfull, verbose, verbosefull: bool;
    var r1, r2, r3: seq<string>;
    debug, r1 := ExtractArg(args, "--debug");
    debugfull, r2 := ExtractArg(r1, "--debug-full");
    verbose, r3 := ExtractArg(r2, "--verbose");
    verbosefull, rest := ExtractArg(r3, "--verbose-full");
    KeepsOthers(args, "--debug", r1, "--debug-full");
    KeepsOthers(args, "--debug", r1, "--verbose");
    KeepsOthers(args, "--debug", r1, "--verbose-full");
    KeepsOthers(r1, "--debug-full", r2, "--verbose");
    KeepsOthers(r1, "--debug-full", r2, "--verbose-full");
    KeepsOthers(r2, "--verbose", r3, "--verbose-full");
    Shrinks(args, "--debug", r1);
    Shrinks(r1, "--debug-full", r2);
    Shrinks(r2, "--verbose", r3);
    Shrinks(r3, "--verbose-full", rest);
    s := Switches(debug, debugfull, verbose, verbosefull);
  }

  /**
   * `getLogLevels`: the four flags are extracted from the arguments in order,
   * the environment variable may add one more switch, and the levels follow.
   * debugBuild stands for a non-Windows DEBUG build.
   */
  method GetLogLevels(args: seq<string>, env: Option<string>, debugBuild: bool)
    returns (sdkLogLevel: int, cmdLogLevel: int, rest: seq<string>)
    ensures (sdkLogLevel, cmdLogLevel) == Levels(WithEnv(LogFlagsIn(args), env), debugBuild)
    ensures rest == ExtractedLogFlags(args)
    ensures multiset(rest) == multiset(args) - multiset{"--debug", "--debug-full", "--verbose", "--verbose-full"}
  {
    var s;
    s, rest := ExtractLogFlags(args);
    var debug, debugfull, verbose, verbosefull := s.debug, s.debugfull, s.verbose, s.verbosefull;

    if env.Some? {
      debug := debug || env.value == "DEBUG";
      debugfull := debugfull || env.value == "FULLDEBUG";
      verbose := verbose || env.value == "VERBOSE";
      verbosefull := verbosefull || env.value == "FULLVERBOSE";
    }
    sdkLogLevel, cmdLogLevel := ApplySwitches(Switches(debug, debugfull, verbose, verbosefull), debugBuild);
  }

  /** The defaults of `getLogLevels`, then one override per switch that is on, in the source's order. */
  method ApplySwitches(s: Switches, debugBuild: bool) returns (sdkLogLevel: int, cmdLogLevel: int)
    ensures (sdkLogLevel, cmdLogLevel) == Levels(s, debugBuild)
  {
    sdkLogLevel := if debugBuild then MegaCmdUtils.LOG_LEVEL_DEBUG else MegaCmdUtils.LOG_LEVEL_ERROR;
    cmdLogLevel := if debugBuild then MegaCmdUtils.LOG_LEVEL_DEBUG else MegaCmdUtils.LOG_LEVEL_INFO;
    if s.debug {
      cmdLogLevel := MegaCmdUtils.LOG_LEVEL_DEBUG;
    }
    if s.debugfull {
      sdkLogLevel := MegaCmdUtils.LOG_LEVEL_DEBUG;
      cmdLogLevel := MegaCmdUtils.LOG_LEVEL_DEBUG;
    }
    if s.verbose {
      cmdLogLevel := MegaCmdUtils.LOG_LEVEL_MAX;
    }
    if s.verbosefull {
      sdkLogLevel := MegaCmdUtils.LOG_LEVEL_MAX;
      cmdLogLevel := MegaCmdUtils.LOG_LEVEL_MAX;
    }
  }

  /** Removing one copy of each of four distinct flags in turn is removing the four at once. */
  lemma RemoveFourFlags(m: multiset<string>, a: string, b: string, c: string, d: string)
    requires a != b && a != c && a != d && b != c && b != d && c != d
    ensures m - multiset{a} - multiset{b} - multiset{c} - multiset{d} == m - multiset{a, b, c, d}
  {
    var lhs := m - multiset{a} - multiset{b} - multiset{c} - multiset{d};
    var rhs := m - multiset{a, b, c, d};
    forall x
      ensures lhs[x] == rhs[x]
    {
    }
  }

  /** Extracting one flag leaves the presence of any other flag as it was. */
  lemma KeepsOthers(args: seq<string>, what: string, rest: seq<string>, other: string)
    requires what != other
    requires what in args ==> rest == RemoveAt(args, LastIndexBelow(args, what, |args|).value, 1)
    requires what !in args ==> rest == args
    ensures other in rest <==> other in args
  {
    if what in args {
      var k := LastIndexBelow(args, what, |args|).value;
      assert args == args[..k] + [args[k]] + args[k + 1..];
    }
  }

  /** Extracting a flag removes at most one argument and adds none. */
  lemma Shrinks(args: seq<string>, what: string, rest: seq<string>)
    requires what in args ==> rest == RemoveAt(args, LastIndexBelow(args, what, |args|).value, 1)
    requires what !in args ==> rest == args
    ensures |rest| <= |args| && forall a :: a in rest ==> a in args
  {
    if what in args {
      var k := LastIndexBelow(args, what, |args|).value;
      assert args == args[..k] + [args[k]] + args[k + 1..];
    }
  }
}
