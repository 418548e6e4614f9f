/**
 * The shell's side of src/megacmdshell/megacmdshellcommunications.cpp that
 * is not socket I/O: the yes/no/all/none loop, the "\u" unescaper of the
 * Windows build, the 30-second deferral of re-registration and the
 * once-only readiness promise.
 */
module ShellCommunications {
  import opened Wrappers
  import opened Text
  import opened Utf8
  import ShellUtf8

  // ---------------------------------------------------------------- yes/no/all/none

  const MCMDCONFIRM_NO: int := 0
  const MCMDCONFIRM_YES: int := 1
  const MCMDCONFIRM_ALL: int := 2
  const MCMDCONFIRM_NONE: int := 3

  const RETRY_ALL_NONE: string := "Please enter [y]es/[n]o/[a]ll/none:"

  /** The code a typed answer stands for, if any. */
  function AnswerCode(response: string): (r: Option<int>)
    ensures r.Some? ==> r.value in {MCMDCONFIRM_NO, MCMDCONFIRM_YES, MCMDCONFIRM_ALL, MCMDCONFIRM_NONE}
  {
    if response in {"yes", "y", "YES", "Y", "Yes"} then Some(MCMDCONFIRM_YES)
    else if response in {"no", "n", "NO", "N", "No"} then Some(MCMDCONFIRM_NO)
    else if response in {"All", "ALL", "a", "A", "all"} then Some(MCMDCONFIRM_ALL)
    else if response in {"none", "NONE", "None"} then Some(MCMDCONFIRM_NONE)
    else None
  }

  /** Each spelling the loop accepts, and nothing else, gives its code. */
  lemma AnswerSpellings(response: string)
    ensures AnswerCode(response) == Some(MCMDCONFIRM_YES) <==> response in {"yes", "y", "YES", "Y", "Yes"}
    ensures AnswerCode(response) == Some(MCMDCONFIRM_NO) <==> response in {"no", "n", "NO", "N", "No"}
    ensures AnswerCode(response) == Some(MCMDCONFIRM_ALL) <==> response in {"All", "ALL", "a", "A", "all"}
    ensures AnswerCode(response) == Some(MCMDCONFIRM_NONE) <==> response in {"none", "NONE", "None"}
  {
  }

  /** The position and code of the first recognised answer. */
  function FirstCode(responses: seq<string>): (r: Option<(nat, int)>)
    ensures r.Some? ==> r.value.0 < |responses| && AnswerCode(responses[r.value.0]) == Some(r.value.1)
    ensures r.Some? ==> forall k :: 0 <= k < r.value.0 ==> AnswerCode(responses[k]).None?
    ensures r.None? ==> forall k :: 0 <= k < |responses| ==> AnswerCode(responses[k]).None?
  {
    if responses == [] then None
    else if AnswerCode(responses[0]).Some? then Some((0, AnswerCode(responses[0]).value))
    else match FirstCode(responses[1..])
      case None => None
      case Some(a) => Some((a.0 + 1, a.1))
  }

  /**
   * `readconfirmationloop(question, readresponse)` over the lines typed in
   * answer; the questions shown are returned too. The source asks until it
   * gets an answer; here the loop also ends, with none, when the lines run out.
   */
  method ReadConfirmationLoop(question: string, responses: seq<string>) returns (code: Option<int>, asked: seq<string>)
    ensures FirstCode(responses).Some? ==>
      code == Some(FirstCode(responses).value.1) &&
      asked == [question] + seq(FirstCode(responses).value.0, _ => RETRY_ALL_NONE)
    ensures FirstCode(responses).None? ==> code == None && |asked| == |responses|
  {
    var firstime := true;
    var i := 0;
    asked := [];
    while i < |responses|
      invariant 0 <= i <= |responses|
      invariant forall k :: 0 <= k < i ==> AnswerCode(responses[k]).None?
      invariant firstime <==> i == 0
      invariant asked == if i == 0 then [] else [question] + seq(i - 1, _ => RETRY_ALL_NONE)
    {
      if firstime {
        asked := asked + [question];
      } else {
        asked := asked + [RETRY_ALL_NONE];
      }
      firstime := false;
      var response := responses[i];
      var answer := AnswerCode(response);
      if answer.Some? {
        return answer, asked;
      }
      i := i + 1;
    }
    return None, asked;
  }

  // ---------------------------------------------------------------- \u escapes

  predicate IsHexDigit(c: char)
  {
    '0' <= c <= '9' || 'a' <= c <= 'f' || 'A' <= c <= 'F'
  }

  function HexDigitValue(c: char): (v: nat)
    requires IsHexDigit(c)
    ensures v < 16
  {
    if '0' <= c <= '9' then c as int - '0' as int
    else if 'a' <= c <= 'f' then c as int - 'a' as int + 10
    else c as int - 'A' as int + 10
  }

  predicate AllHex(s: string)
  {
    forall k :: 0 <= k < |s| ==> IsHexDigit(s[k])
  }

  function Pow16(n: nat): nat
  {
    if n == 0 then 1 else 16 * Pow16(n - 1)
  }

  /** The number a run of hex digits spells, most significant first. */
  function HexValue(s: string): (v: nat)
    requires AllHex(s)
    ensures v < Pow16(|s|)
  {
    if s == [] then 0 else 16 * HexValue(s[..|s| - 1]) + HexDigitValue(s[|s| - 1])
  }

  /** `find_first_not_of(hex digits, from)`: the first non-hex position at or after from. */
  function HexRunEnd(s: string, from: nat): (r: Option<nat>)
    ensures r.Some? ==> from <= r.value < |s| && !IsHexDigit(s[r.value]) && AllHex(s[from..r.value])
    ensures r.None? ==> forall k :: from <= k < |s| ==> IsHexDigit(s[k])
    decreases |s| - from
  {
    if from >= |s| then None
    else if !IsHexDigit(s[from]) then Some(from)
    else
      var r := HexRunEnd(s, from + 1);
      if r.Some? then
        assert s[from..r.value] == [s[from]] + s[from + 1..r.value];
        r
      else r
  }

  /** What `to_utf8` returns, as written (see ShellUtf8.ToUtf8AsWritten). */
  function EncodedAsWritten(cp: bv32): (r: seq<byte>)
    ensures |r| == EncodedCount(cp)
  {
    if cp < 0x80 then [(cp | 0x80) as byte] else Utf8Encode(cp)
  }

  function BytesAsChars(b: seq<byte>): (r: string)
    ensures |r| == |b|
  {
    seq(|b|, k requires 0 <= k < |b| => b[k] as char)
  }

  /** The text that replaces the escape "\u" + tmp. */
  function Replacement(tmp: string): (u: string)
    requires AllHex(tmp) && 0 < |tmp| && HexValue(tmp) < 0x1_0000_0000
    ensures |u| < 2 + |tmp|
  {
    EncodedShort(tmp);
    BytesAsChars(EncodedAsWritten(HexValue(tmp) as bv32))
  }

  /** One round of the do-while loop of `unescapeutf16escapedseqs`: the rewritten string and the next search position, or none when the loop breaks. */
  function NextStep(str: string, start: nat): (r: Option<(string, nat)>)
    requires start <= |str|
    ensures r.Some? ==> r.value.1 <= |r.value.0| <= |str| && |r.value.0| - r.value.1 < |str| - start
  {
    match Find(str, "\\u", start)
    case None => None
    case Some(i) =>
      match HexRunEnd(str, i + 2)
      case None => None
      case Some(endIdx) =>
        var tmp := str[i + 2..endIdx];
        if |tmp| > 0 && HexValue(tmp) < 0x1_0000_0000 then
          var u := Replacement(tmp);
          Some((str[..i] + u + str[endIdx..], i + |u|))
        else Some((str, i + 2))
  }

  /** The result of the loop from position start on. */
  function Unescaped(str: string, start: nat): string
    requires start <= |str|
    decreases |str| - start
  {
    match NextStep(str, start)
    case None => str
    case Some(next) => Unescaped(next.0, next.1)
  }

  /** No code point takes more bytes than its escape has characters. */
  lemma EncodedShort(tmp: string)
    requires AllHex(tmp) && 0 < |tmp| && HexValue(tmp) < 0x1_0000_0000
    ensures EncodedCount(HexValue(tmp) as bv32) < 2 + |tmp|
  {
    var v := HexValue(tmp);
    if |tmp| == 1 {
      SmallCount(v);
    } else if |tmp| == 2 {
      assert Pow16(2) == 256;
      SmallCount(v);
    } else {
      CountAtMostFour(v as bv32);
    }
  }

  lemma CountAtMostFour(cp: bv32)
    ensures EncodedCount(cp) <= 4
  {
  }

  lemma SmallCount(v: nat)
    requires v < 256
    ensures EncodedCount(v as bv32) <= 2
    ensures v < 16 ==> EncodedCount(v as bv32) == 1
  {
  }

  /** The `to_utf8` call of the loop, on the value of the escape's digits. */
  method EncodeEscape(tmp: string) returns (utf8: string)
    requires AllHex(tmp) && 0 < |tmp| && HexValue(tmp) < 0x1_0000_0000
    ensures utf8 == Replacement(tmp)
  {
    var cp: bv32 := HexValue(tmp) as bv32;
    var bytes := ShellUtf8.ToUtf8AsWritten(cp);
    AsWrittenAgrees(cp, bytes);
    utf8 := BytesAsChars(bytes);
  }

  lemma AsWrittenAgrees(cp: bv32, bytes: seq<byte>)
    requires cp < 0x80 ==> bytes == [(cp | 0x80) as byte]
    requires cp >= 0x80 ==> bytes == Utf8Encode(cp)
    ensures bytes == EncodedAsWritten(cp)
  {
  }

  method UnescapeUtf16EscapedSeqs(what: string) returns (str: string)
    ensures str == Unescaped(what, 0)
  {
    str := what;
    var startIdx: nat := 0;
    while true
      invariant startIdx <= |str|
      invariant Unescaped(str, startIdx) == Unescaped(what, 0)
      decreases |str| - startIdx
    {
      var found := Find(str, "\\u", startIdx);
      if found.None? {
        break;
      }
      var i := found.value;
      var endIdx := HexRunEnd(str, i + 2);
      if endIdx.None? {
        break;
      }
      var tmp := str[i + 2..endIdx.value];
      if |tmp| > 0 && HexValue(tmp) < 0x1_0000_0000 {
        var utf8 := EncodeEscape(tmp);
        str := str[..i] + utf8 + str[endIdx.value..];
        startIdx := i + |utf8|;
      } else {
        startIdx := i + 2;
      }
    }
  }

  /** A string without "\u" from start on is returned as it is. */
  lemma NoEscapeUnchanged(str: string, start: nat)
    requires start <= |str| && Find(str, "\\u", start).None?
    ensures Unescaped(str, start) == str
  {
  }

  /** An escape whose hex digits run to the end of the string stops the rewriting. */
  lemma TrailingEscapeUntouched(p: string, digits: string)
    requires !Contains(p, "\\u") && AllHex(digits)
    ensures Unescaped(p + "\\u" + digits, 0) == p + "\\u" + digits
  {
    var s := p + "\\u" + digits;
    forall k | 0 <= k < |p| ensures !OccursAt(s, "\\u", k) {
      if k + 1 < |p| {
        assert s[k..k + 2] == p[k..k + 2];
        assert !OccursAt(p, "\\u", k);
      } else {
        assert s[k + 1] == '\\' && s[k..k + 2][1] == s[k + 1];
      }
    }
    assert OccursAt(s, "\\u", |p|) by { assert s[|p|..|p| + 2] == "\\u"; }
    assert Find(s, "\\u", 0) == Some(|p|) by {
      FindFirst(s, "\\u", 0, |p|);
    }
    assert forall k :: |p| + 2 <= k < |s| ==> s[k] == digits[k - |p| - 2];
  }

  lemma FindFirst(s: string, pat: string, start: nat, i: nat)
    requires start <= i && OccursAt(s, pat, i)
    requires forall k :: start <= k < i ==> !OccursAt(s, pat, k)
    ensures Find(s, pat, start) == Some(i)
  {
    var r := Find(s, pat, start);
    assert r.Some?;
  }

  /** Unescaping never makes a string longer. */
  lemma {:induction false} UnescapedNoLonger(str: string, start: nat)
    requires start <= |str|
    ensures |Unescaped(str, start)| <= |str|
    decreases |str| - start
  {
    match NextStep(str, start)
    case None =>
    case Some(next) => UnescapedNoLonger(next.0, next.1);
  }

  // ---------------------------------------------------------------- registration

  /** The registration fields of MegaCmdShellCommunications; times are in milliseconds of the steady clock. */
  datatype Registration = Registration(
    stopListener: bool, updating: bool, lastFailedRegistration: Option<int>,
    registerRequired: bool, listenerRunning: bool, promiseAttended: bool, promiseValue: Option<bool>)

  const REGISTER_DEFERRAL_MS: int := 30000

  /** `markServerReadyOrRegistrationFailed`: only the first call fulfils the promise. */
  function MarkReadyOf(s: Registration, readyOrFailed: bool): Registration
  {
    if !s.promiseAttended then s.(promiseAttended := true, promiseValue := Some(readyOrFailed)) else s
  }

  lemma PromiseOnce(s: Registration, a: bool, b: bool)
    requires !s.promiseAttended
    ensures MarkReadyOf(MarkReadyOf(s, a), b).promiseValue == Some(a)
    ensures MarkReadyOf(MarkReadyOf(s, a), b) == MarkReadyOf(s, a)
  {
  }

  /** `setForRegisterAgain(dontWait)`. */
  function SetForRegisterAgainOf(s: Registration, dontWait: bool, now: int): Registration
  {
    s.(registerRequired := true, lastFailedRegistration := if dontWait then None else Some(now))
  }

  predicate Deferred(s: Registration, now: int)
  {
    s.lastFailedRegistration.Some? && now - s.lastFailedRegistration.value < REGISTER_DEFERRAL_MS
  }

  /**
   * `registerForStateChanges`: implOk is whether registerForStateChangesImpl
   * obtained a socket; the failed-registration mark is taken to fulfil the
   * promise with false.
   */
  function RegisterOf(s: Registration, now: int, implOk: bool): (Registration, bool)
  {
    if s.stopListener || s.updating then (s, false)
    else if Deferred(s, now) then (s, false)
    else
      var s1 := if s.listenerRunning then s.(stopListener := true) else s;
      if !implOk then (MarkReadyOf(s1, false), false)
      else (s1.(registerRequired := false, stopListener := false, listenerRunning := true), true)
  }

  /** Within 30 s of a failed registration nothing is attempted and nothing changes. */
  lemma RegistrationDeferred(s: Registration, now: int, implOk: bool)
    requires s.lastFailedRegistration.Some? && now < s.lastFailedRegistration.value + REGISTER_DEFERRAL_MS
    ensures RegisterOf(s, now, implOk) == (s, false)
  {
  }

  /** A registration is attempted iff the listener is not stopping, the server is not updating and no deferral is running; success clears registerRequired. */
  lemma RegistrationAttempted(s: Registration, now: int, implOk: bool)
    ensures RegisterOf(s, now, implOk).1 <==> !s.stopListener && !s.updating && !Deferred(s, now) && implOk
    ensures RegisterOf(s, now, implOk).1 ==> !RegisterOf(s, now, implOk).0.registerRequired
  {
  }

  /** `setForRegisterAgain(true)` lifts the deferral at once; without it the next 30 s are deferred. */
  lemma RegisterAgainNoWait(s: Registration, now: int, later: int)
    ensures !Deferred(SetForRegisterAgainOf(s, true, now), later)
    ensures later - now < REGISTER_DEFERRAL_MS ==> Deferred(SetForRegisterAgainOf(s, false, now), later)
    ensures SetForRegisterAgainOf(s, true, now).registerRequired
  {
  }

  class ShellCommunications {
    var stopListener: bool
    var updating: bool
    var lastFailedRegistration: Option<int>
    var registerRequired: bool
    var listenerRunning: bool
    var promiseAttended: bool
    var promiseValue: Option<bool>

    function Snapshot(): Registration
      reads this
    {
      Registration(stopListener, updating, lastFailedRegistration, registerRequired, listenerRunning, promiseAttended, promiseValue)
    }

    constructor ()
      ensures Snapshot() == Registration(false, false, None, false, false, false, None)
    {
      stopListener := false;
      updating := false;
      lastFailedRegistration := None;
      registerRequired := false;
      listenerRunning := false;
      promiseAttended := false;
      promiseValue := None;
    }

    method MarkServerReadyOrRegistrationFailed(readyOrFailed: bool)
      modifies this
      ensures Snapshot() == MarkReadyOf(old(Snapshot()), readyOrFailed)
    {
      if !promiseAttended {
        promiseAttended := true;
        promiseValue := Some(readyOrFailed);
      }
    }

    method SetForRegisterAgain(dontWait: bool, now: int)
      modifies this
      ensures Snapshot() == SetForRegisterAgainOf(old(Snapshot()), dontWait, now)
    {
      registerRequired := true;
      if dontWait {
        lastFailedRegistration := None;
      } else {
        lastFailedRegistration := Some(now);
      }
    }

    method MarkServerIsUpdating()
      modifies this
      ensures Snapshot() == old(Snapshot()).(updating := true)
    {
      updating := true;
    }

    method UnmarkServerIsUpdating()
      modifies this
      ensures Snapshot() == old(Snapshot()).(updating := false)
    {
      updating := false;
    }

    method RegisterForStateChanges(now: int, implOk: bool) returns (ok: bool)
      modifies this
      ensures (Snapshot(), ok) == RegisterOf(old(Snapshot()), now, implOk)
    {
      if stopListener || updating {
        return false;
      }
      if lastFailedRegistration.Some? && now - lastFailedRegistration.value < REGISTER_DEFERRAL_MS {
        return false;
      }
      if listenerRunning {
        stopListener := true;
      }
      if !implOk {
        MarkServerReadyOrRegistrationFailed(false);
        return false;
      }
      registerRequired := false;
      stopListener := false;
      listenerRunning := true;
      return true;
    }
  }
}
