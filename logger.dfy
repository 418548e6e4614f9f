/**
 * The per-thread tables and the log filter of src/megacmdlogger.cpp.
 * Threads are numbered; an output stream is named by a number. The
 * message lines are kept as records, not rendered.
 */
module MegaCmdLogger {
  import opened Wrappers
  import opened Text
  import MegaCmdUtils

  // ---------------------------------------------------------------- per-thread tables

  /** A map lookup with the default the getters return for a thread never set. */
  function LookupOr<V>(m: map<nat, V>, thread: nat, default: V): V
  {
    if thread in m then m[thread] else default
  }

  /** A thread that was never set reads the default. */
  lemma UnsetReadsDefault<V>(m: map<nat, V>, thread: nat, default: V)
    requires thread !in m
    ensures LookupOr(m, thread, default) == default
  {
  }

  /** Setting a thread's entry is read back by that thread and by no other. */
  lemma SetThenGet<V>(m: map<nat, V>, thread: nat, v: V, other: nat, default: V)
    ensures LookupOr(m[thread := v], thread, default) == v
    ensures other != thread ==> LookupOr(m[thread := v], other, default) == LookupOr(m, other, default)
  {
  }

  class ThreadTables {
    var outstreams: map<nat, nat>
    var threadLogLevel: map<nat, int>
    var threadoutCode: map<nat, int>
    var threadpetition: map<nat, nat>
    var threadIsCmdShell: map<nat, bool>

    constructor ()
      ensures outstreams == map[] && threadLogLevel == map[] && threadoutCode == map[]
      ensures threadpetition == map[] && threadIsCmdShell == map[]
    {
      outstreams := map[];
      threadLogLevel := map[];
      threadoutCode := map[];
      threadpetition := map[];
      threadIsCmdShell := map[];
    }

    /** `getCurrentOutCode`: 0 (OK) by default. */
    function CurrentOutCode(thread: nat): int
      reads this
    {
      LookupOr(threadoutCode, thread, 0)
    }

    /** `getCurrentPetition`: none by default. */
    function CurrentPetition(thread: nat): Option<nat>
      reads this
    {
      if thread in threadpetition then Some(threadpetition[thread]) else None
    }

    /** `getCurrentThreadLogLevel`: -1 by default. */
    function CurrentThreadLogLevel(thread: nat): int
      reads this
    {
      LookupOr(threadLogLevel, thread, -1)
    }

    /** `getCurrentThreadIsCmdShell`: false by default. */
    function CurrentThreadIsCmdShell(thread: nat): bool
      reads this
    {
      LookupOr(threadIsCmdShell, thread, false)
    }

    /** `getCurrentOut`: the thread's stream, or None for standard output. */
    function CurrentOut(thread: nat): Option<nat>
      reads this
    {
      if thread in outstreams then Some(outstreams[thread]) else None
    }

    /** `interactiveThread`. */
    predicate InteractiveThread(thread: nat)
      reads this
    {
      CurrentThreadIsCmdShell(thread) || thread !in outstreams
    }

    method SetCurrentThreadLogLevel(thread: nat, level: int)
      modifies this
      ensures threadLogLevel == old(threadLogLevel)[thread := level]
      ensures outstreams == old(outstreams) && threadoutCode == old(threadoutCode)
      ensures threadpetition == old(threadpetition) && threadIsCmdShell == old(threadIsCmdShell)
    {
      threadLogLevel := threadLogLevel[thread := level];
    }

    method SetCurrentThreadOutStream(thread: nat, s: nat)
      modifies this
      ensures outstreams == old(outstreams)[thread := s]
      ensures threadLogLevel == old(threadLogLevel) && threadoutCode == old(threadoutCode)
      ensures threadpetition == old(threadpetition) && threadIsCmdShell == old(threadIsCmdShell)
    {
      outstreams := outstreams[thread := s];
    }

    method SetCurrentThreadIsCmdShell(thread: nat, isit: bool)
      modifies this
      ensures threadIsCmdShell == old(threadIsCmdShell)[thread := isit]
      ensures outstreams == old(outstreams) && threadLogLevel == old(threadLogLevel)
      ensures threadoutCode == old(threadoutCode) && threadpetition == old(threadpetition)
    {
      threadIsCmdShell := threadIsCmdShell[thread := isit];
    }

    method SetCurrentOutCode(thread: nat, outCode: int)
      modifies this
      ensures threadoutCode == old(threadoutCode)[thread := outCode]
      ensures outstreams == old(outstreams) && threadLogLevel == old(threadLogLevel)
      ensures threadpetition == old(threadpetition) && threadIsCmdShell == old(threadIsCmdShell)
    {
      threadoutCode := threadoutCode[thread := outCode];
    }

    method SetCurrentPetition(thread: nat, petition: nat)
      modifies this
      ensures threadpetition == old(threadpetition)[thread := petition]
      ensures outstreams == old(outstreams) && threadLogLevel == old(threadLogLevel)
      ensures threadoutCode == old(threadoutCode) && threadIsCmdShell == old(threadIsCmdShell)
    {
      threadpetition := threadpetition[thread := petition];
    }
  }

  /** A thread is interactive iff it is a cmd shell or has no stream of its own. */
  lemma InteractiveIff(t: ThreadTables, thread: nat)
    ensures t.InteractiveThread(thread) <==> LookupOr(t.threadIsCmdShell, thread, false) || t.CurrentOut(thread).None?
  {
  }

  // ---------------------------------------------------------------- the filter

  /** One line written by `MegaCMDLogger::log`. */
  datatype LogLine = LogLine(api: bool, level: int, time: string, message: string)

  /** The lines written to the logger's output and to the thread's stream. */
  datatype Written = Written(output: seq<LogLine>, threadOut: seq<LogLine>)

  /** The level the thread's stream filters by: its own, or the logger's when below 0. */
  function EffectiveLevel(threadLevel: int, loggerLevel: int): (r: int)
    ensures threadLevel >= 0 ==> r == threadLevel
    ensures threadLevel < 0 ==> r == loggerLevel
  {
    if threadLevel < 0 then loggerLevel else threadLevel
  }

  predicate RetryNoise(message: string)
  {
    message == "Request (RETRY_PENDING_CONNECTIONS) starting" || message == "Request (RETRY_PENDING_CONNECTIONS) finished"
  }

  /**
   * `MegaCMDLogger::log(time, loglevel, source, message)`: threadLevel is the
   * current thread's level and sameStream whether the thread's stream is the
   * logger's own output.
   */
  function Log(cmdLoggerLevel: int, apiLoggerLevel: int, threadLevel: int, sameStream: bool,
               time: string, loglevel: int, source: string, message: string): Written
  {
    if Contains(source, "megacmd") then
      var line := LogLine(false, loglevel, time, message);
      Written(if loglevel <= cmdLoggerLevel then [line] else [],
              if loglevel <= EffectiveLevel(threadLevel, cmdLoggerLevel) && !sameStream then [line] else [])
    else
      var line := LogLine(true, loglevel, time, message);
      if loglevel <= apiLoggerLevel && apiLoggerLevel <= MegaCmdUtils.LOG_LEVEL_DEBUG && RetryNoise(message) then
        Written([], [])
      else
        Written(if loglevel <= apiLoggerLevel then [line] else [],
                if loglevel <= EffectiveLevel(threadLevel, apiLoggerLevel) && !sameStream then [line] else [])
  }

  /** A megacmd message reaches the output iff its level is within the cmd level, and the thread's stream iff within the thread's level. */
  lemma CmdMessageFilter(cmdLevel: int, apiLevel: int, threadLevel: int, sameStream: bool,
                         time: string, loglevel: int, source: string, message: string)
    requires Contains(source, "megacmd")
    ensures var w := Log(cmdLevel, apiLevel, threadLevel, sameStream, time, loglevel, source, message);
      (w.output != [] <==> loglevel <= cmdLevel) &&
      (w.threadOut != [] <==> !sameStream && loglevel <= (if threadLevel < 0 then cmdLevel else threadLevel)) &&
      (forall l :: l in w.output + w.threadOut ==> l == LogLine(false, loglevel, time, message))
  {
  }

  /** The retry-connection noise of the SDK is written nowhere while the API level is at most DEBUG. */
  lemma RetryNoiseDropped(cmdLevel: int, apiLevel: int, threadLevel: int, sameStream: bool,
                          time: string, loglevel: int, source: string, message: string)
    requires !Contains(source, "megacmd") && RetryNoise(message)
    requires loglevel <= apiLevel <= MegaCmdUtils.LOG_LEVEL_DEBUG
    ensures Log(cmdLevel, apiLevel, threadLevel, sameStream, time, loglevel, source, message) == Written([], [])
  {
  }

  /** Any other SDK message is filtered by the API level, and by the thread's level falling back to it. */
  lemma ApiMessageFilter(cmdLevel: int, apiLevel: int, threadLevel: int, sameStream: bool,
                         time: string, loglevel: int, source: string, message: string)
    requires !Contains(source, "megacmd") && !RetryNoise(message)
    ensures var w := Log(cmdLevel, apiLevel, threadLevel, sameStream, time, loglevel, source, message);
      (w.output != [] <==> loglevel <= apiLevel) &&
      (w.threadOut != [] <==> !sameStream && loglevel <= (if threadLevel < 0 then apiLevel else threadLevel))
  {
  }

  /** `getMaxLogLevel`. */
  function MaxLogLevel(threadLevel: int, cmdLoggerLevel: int, apiLoggerLevel: int): (r: int)
    ensures r >= threadLevel && r >= cmdLoggerLevel && r >= apiLoggerLevel
    ensures r == threadLevel || r == cmdLoggerLevel || r == apiLoggerLevel
  {
    var m := if threadLevel > cmdLoggerLevel then threadLevel else cmdLoggerLevel;
    if m > apiLoggerLevel then m else apiLoggerLevel
  }

  /** No message above the maximum level is written anywhere. */
  lemma AboveMaxWritesNothing(cmdLevel: int, apiLevel: int, threadLevel: int, sameStream: bool,
                              time: string, loglevel: int, source: string, message: string)
    requires loglevel > MaxLogLevel(threadLevel, cmdLevel, apiLevel)
    ensures Log(cmdLevel, apiLevel, threadLevel, sameStream, time, loglevel, source, message) == Written([], [])
  {
  }
}
