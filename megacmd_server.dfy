/**
 * Server-side helpers of src/megacmd.cpp: space escaping, the greeting and
 * delayed-broadcast queues, the progress message, flag and value
 * completion texts, the bare-command test and the valid-command switch.
 */
module MegaCmdServer {
  import opened Wrappers
  import opened Text
  import opened CommonUtils
  import CommonWords

  // ---------------------------------------------------------------- escaping

  /** Where `pat` first occurs, when no earlier position holds it. */
  lemma FindFirstAt(m: seq<char>, pat: seq<char>, k: nat)
    requires OccursAt(m, pat, k) && forall j :: 0 <= j < k ==> !OccursAt(m, pat, j)
    ensures Find(m, pat, 0) == Some(k)
  {
  }

  lemma PairAbsent(s: seq<char>, c: char, e: char)
    requires c !in s
    ensures !Contains(s, [e, c])
  {
    forall k | 0 <= k && k + 2 <= |s| ensures !OccursAt(s, [e, c], k) {
      assert s[k..k + 2][1] == s[k + 1];
    }
  }

  /** In a + "ec" + tail with no c in a, the first "ec" is the one after a. */
  lemma FirstPair(a: seq<char>, c: char, e: char, tail: seq<char>)
    requires c != e && c !in a
    ensures Find(a + [e, c] + tail, [e, c], 0) == Some(|a|)
  {
    var pat := [e, c];
    var m := a + pat + tail;
    var k := |a|;
    assert m[k..k + 2] == pat;
    forall j | 0 <= j < k ensures !OccursAt(m, pat, j) {
      assert m[j..j + 2][1] == m[j + 1];
      if j + 1 < k {
        assert m[j + 1] == a[j + 1];
      }
    }
    FindFirstAt(m, pat, k);
  }

  /**
   * Rewriting every c as "ec" and then every "ec" back as c gives the
   * string back: each "ec" of the escaped text is one that was inserted.
   */
  lemma {:induction false} UnescapeEscaped(s: seq<char>, c: char, e: char)
    requires c != e
    ensures ReplacedAll(MapChars(s, c, [e, c]), [e, c], [c]) == s
    decreases |s|
  {
    var pat := [e, c];
    if c !in s {
      NoCharMap(s, c, pat);
      PairAbsent(s, c, e);
      ReplaceAllAbsent(s, pat, [c]);
    } else {
      var k := FindChar(s, c).value;
      UnescapeEscaped(s[k + 1..], c, e);
      UnescapeFirst(s, c, e, k);
    }
  }

  /** The round trip of s from that of the text after its first c. */
  lemma UnescapeFirst(s: seq<char>, c: char, e: char, k: nat)
    requires c != e && k < |s| && s[k] == c && c !in s[..k]
    requires ReplacedAll(MapChars(s[k + 1..], c, [e, c]), [e, c], [c]) == s[k + 1..]
    ensures ReplacedAll(MapChars(s, c, [e, c]), [e, c], [c]) == s
  {
    var pat := [e, c];
    var a := s[..k];
    var tail := MapChars(s[k + 1..], c, pat);
    calc {
      ReplacedAll(MapChars(s, c, pat), pat, [c]);
      { MapCharsAt(s, c, pat, k); }
      ReplacedAll(a + pat + tail, pat, [c]);
      { FirstPair(a, c, e, tail); ReplaceAtFirst(a, pat, tail, [c]); }
      a + [c] + ReplacedAll(tail, pat, [c]);
      a + [c] + s[k + 1..];
      { assert s == s[..k] + [s[k]] + s[k + 1..]; }
      s;
    }
  }

  /** When the first occurrence of pat in a + pat + tail is the one after a, replacing starts there. */
  lemma ReplaceAtFirst(a: seq<char>, pat: seq<char>, tail: seq<char>, to: seq<char>)
    requires |pat| > 0 && Find(a + pat + tail, pat, 0) == Some(|a|)
    ensures ReplacedAll(a + pat + tail, pat, to) == a + to + ReplacedAll(tail, pat, to)
  {
    var m := a + pat + tail;
    assert m[..|a|] == a;
    assert m[|a| + |pat|..] == tail;
  }

  /** `escapeEspace`: every space becomes "\ ". */
  function EscapeSpace(s: string): string
  {
    ReplacedAll(s, " ", "\\ ")
  }

  /** `unescapeEspace`: every "\ " becomes a space. */
  function UnescapeSpace(s: string): string
  {
    ReplacedAll(s, "\\ ", " ")
  }

  lemma EscapeSpaceRoundTrip(s: string)
    ensures UnescapeSpace(EscapeSpace(s)) == s
  {
    ReplaceAllSingleChar(s, ' ', "\\ ");
    UnescapeEscaped(s, ' ', '\\');
  }

  // ---------------------------------------------------------------- greeting and broadcast queues

  /** Which entries an erase loop takes out. */
  datatype Rule = EqualTo(msj: string) | Containing(toMatch: string)

  predicate Matches(rule: Rule, x: string)
  {
    match rule
    case EqualTo(msj) => x == msj
    case Containing(toMatch) => Contains(x, toMatch)
  }

  /** The entries that survive the erase loop, in their order. */
  function Kept(q: seq<string>, rule: Rule): seq<string>
  {
    if q == [] then []
    else
      var last := q[|q| - 1];
      Kept(q[..|q| - 1], rule) + (if Matches(rule, last) then [] else [last])
  }

  /** Exactly the entries the rule does not match survive. */
  lemma {:induction false} KeptMembers(q: seq<string>, rule: Rule)
    ensures |Kept(q, rule)| <= |q|
    ensures forall x :: x in Kept(q, rule) <==> x in q && !Matches(rule, x)
    decreases |q|
  {
    if q != [] {
      var last := q[|q| - 1];
      assert q == q[..|q| - 1] + [last];
      KeptMembers(q[..|q| - 1], rule);
    }
  }

  lemma {:induction false} KeptAppend(a: seq<string>, b: seq<string>, rule: Rule)
    ensures Kept(a + b, rule) == Kept(a, rule) + Kept(b, rule)
    decreases |b|
  {
    if b == [] {
      assert a + b == a;
    } else {
      var b0 := b[..|b| - 1];
      assert (a + b)[..|a + b| - 1] == a + b0;
      KeptAppend(a, b0, rule);
    }
  }

  /** Entries the rule does not match are all kept, in their order. */
  lemma {:induction false} KeptNoMatch(q: seq<string>, rule: Rule)
    requires forall i :: 0 <= i < |q| ==> !Matches(rule, q[i])
    ensures Kept(q, rule) == q
    decreases |q|
  {
    if q != [] {
      KeptNoMatch(q[..|q| - 1], rule);
    }
  }

  lemma KeptIdempotent(q: seq<string>, rule: Rule)
    ensures Kept(Kept(q, rule), rule) == Kept(q, rule)
  {
    var r := Kept(q, rule);
    KeptMembers(q, rule);
    forall i | 0 <= i < |r| ensures !Matches(rule, r[i]) {
      assert r[i] in r;
    }
    KeptNoMatch(r, rule);
  }

  /** The "erase while iterating" loop of the remove functions. */
  method EraseMatching(q: seq<string>, rule: Rule) returns (r: seq<string>)
    ensures r == Kept(q, rule)
  {
    r := q;
    var i := 0;
    ghost var j := 0;
    while i < |r|
      invariant 0 <= i <= |r| && 0 <= j <= |q|
      invariant r[..i] == Kept(q[..j], rule) && r[i..] == q[j..]
      decreases |r| - i
    {
      assert r[i] == q[j];
      assert q[..j + 1][..j] == q[..j];
      if Matches(rule, r[i]) {
        r := r[..i] + r[i + 1..];
      } else {
        i := i + 1;
      }
      j := j + 1;
    }
    assert q[..j] == q;
  }

  /** The server's queues of pending messages and its current command set. */
  class Greetings {
    var first: seq<string>
    var all: seq<string>
    var delayed: seq<string>
    var validCommands: seq<string>

    constructor ()
      ensures first == [] && all == [] && delayed == []
    {
      first := [];
      all := [];
      delayed := [];
      validCommands := [];
    }

    method AppendGreetingStatusFirstListener(msj: string)
      modifies this
      ensures first == [msj] + old(first) && all == old(all) && delayed == old(delayed) && validCommands == old(validCommands)
    {
      first := [msj] + first;
    }

    method AppendGreetingStatusAllListener(msj: string)
      modifies this
      ensures all == [msj] + old(all) && first == old(first) && delayed == old(delayed) && validCommands == old(validCommands)
    {
      all := [msj] + all;
    }

    method ClearGreetingStatusFirstListener()
      modifies this
      ensures first == [] && all == old(all) && delayed == old(delayed) && validCommands == old(validCommands)
    {
      first := [];
    }

    method ClearGreetingStatusAllListener()
      modifies this
      ensures all == [] && first == old(first) && delayed == old(delayed) && validCommands == old(validCommands)
    {
      all := [];
    }

    method RemoveGreetingStatusFirstListener(msj: string)
      modifies this
      ensures first == Kept(old(first), EqualTo(msj))
      ensures all == old(all) && delayed == old(delayed) && validCommands == old(validCommands)
    {
      first := EraseMatching(first, EqualTo(msj));
    }

    method RemoveGreetingStatusAllListener(msj: string)
      modifies this
      ensures all == Kept(old(all), EqualTo(msj))
      ensures first == old(first) && delayed == old(delayed) && validCommands == old(validCommands)
    {
      all := EraseMatching(all, EqualTo(msj));
    }

    method RemoveGreetingMatching(toMatch: string)
      modifies this
      ensures all == Kept(old(all), Containing(toMatch))
      ensures first == old(first) && delayed == old(delayed) && validCommands == old(validCommands)
    {
      all := EraseMatching(all, Containing(toMatch));
    }

    /** The queueing half of `broadcastDelayedMessage`. */
    method QueueDelayedBroadcast(message: string)
      modifies this
      ensures delayed == old(delayed) + [message]
      ensures first == old(first) && all == old(all) && validCommands == old(validCommands)
    {
      delayed := delayed + [message];
    }

    method RemoveDelayedBroadcastMatching(toMatch: string)
      modifies this
      ensures delayed == Kept(old(delayed), Containing(toMatch))
      ensures first == old(first) && all == old(all) && validCommands == old(validCommands)
    {
      delayed := EraseMatching(delayed, Containing(toMatch));
    }

    /**
     * `broadcastMessage`: informed is whether some listener received the
     * message; when none did and keepIfNoListeners is set, the message waits
     * for the first client.
     */
    method BroadcastMessage(message: string, keepIfNoListeners: bool, informed: bool)
      modifies this
      ensures first == if message != [] && !informed && keepIfNoListeners then ["message:" + message] + old(first) else old(first)
      ensures all == old(all) && delayed == old(delayed) && validCommands == old(validCommands)
    {
      if |message| > 0 {
        var s := "message:" + message;
        if !informed && keepIfNoListeners {
          AppendGreetingStatusFirstListener(s);
        }
      }
    }

    /** `updatevalidCommands`: while logging in at startup or blocked only the login commands are valid. */
    method UpdateValidCommands(loginInAtStartup: bool, blocked: bool, loginInValidCommands: seq<string>, allValidCommands: seq<string>)
      modifies this
      ensures validCommands == if loginInAtStartup || blocked then loginInValidCommands else allValidCommands
      ensures first == old(first) && all == old(all) && delayed == old(delayed)
    {
      if loginInAtStartup || blocked {
        validCommands := loginInValidCommands;
      } else {
        validCommands := allValidCommands;
      }
    }
  }

  // ---------------------------------------------------------------- progress

  /** The state message `informProgressUpdate` sends. */
  function ProgressMessage(transferred: int, total: int, title: string): (r: string)
    ensures StartsWith(r, "progress:")
  {
    "progress:" + IntToString(transferred) + ":" + IntToString(total) + (if |title| > 0 then ":" + title else "")
  }

  // ---------------------------------------------------------------- completion

  /** One entry of the flag completion list: "-x" or "--name", with '=' when the flag takes a value. */
  function FlagText(param: string, takesValue: bool): (r: string)
    ensures |r| > |param| && r[0] == '-'
  {
    (if |param| > 1 then "--" + param else "-" + param) + (if takesValue then "=" else "")
  }

  /** Reads a completion entry back as its flag name and whether it takes a value. */
  function FlagName(text: string): (string, bool)
  {
    var takesValue := |text| > 0 && text[|text| - 1] == '=';
    var body := if takesValue then text[..|text| - 1] else text;
    var name := if |body| > 2 && body[..2] == "--" then body[2..] else if |body| > 0 then body[1..] else body;
    (name, takesValue)
  }

  lemma FlagRoundTrip(param: string, takesValue: bool)
    requires param != [] && param[|param| - 1] != '='
    ensures FlagName(FlagText(param, takesValue)) == (param, takesValue)
  {
    var text := FlagText(param, takesValue);
    var body := if |param| > 1 then "--" + param else "-" + param;
    assert body[|body| - 1] == param[|param| - 1];
    if takesValue {
      assert text[..|text| - 1] == body;
    } else {
      assert text == body;
    }
    if |param| > 1 {
      assert body[..2] == "--" && body[2..] == param;
    } else {
      assert body[1..] == param;
    }
  }

  function FlagTexts(params: seq<string>, takesValue: bool): (r: seq<string>)
    ensures |r| == |params| && forall k :: 0 <= k < |params| ==> r[k] == FlagText(params[k], takesValue)
  {
    if params == [] then [] else FlagTexts(params[..|params| - 1], takesValue) + [FlagText(params[|params| - 1], takesValue)]
  }

  /** The loops of `flags_completion` over the valid flags, then the options taking a value. */
  method FlagsCompletion(params: seq<string>, optValues: seq<string>) returns (validparams: seq<string>)
    ensures validparams == FlagTexts(params, false) + FlagTexts(optValues, true)
  {
    validparams := [];
    var i := 0;
    while i < |params|
      invariant 0 <= i <= |params| && validparams == FlagTexts(params[..i], false)
    {
      assert params[..i + 1][..i] == params[..i];
      validparams := validparams + [FlagText(params[i], false)];
      i := i + 1;
    }
    assert params[..i] == params;
    ghost var flags := validparams;
    i := 0;
    while i < |optValues|
      invariant 0 <= i <= |optValues| && validparams == flags + FlagTexts(optValues[..i], true)
    {
      assert optValues[..i + 1][..i] == optValues[..i];
      validparams := validparams + [FlagText(optValues[i], true)];
      i := i + 1;
    }
    assert optValues[..i] == optValues;
  }

  /** Which completion `getCompletionFunction` picks before it looks at the command. */
  datatype Completer = FlagsValueCompletion | FlagsNameCompletion | ByCommand

  function CompletionFor(words: seq<string>): (c: Completer)
    requires |words| > 0
    ensures c != ByCommand <==> |words| > 1 && |words[|words| - 1]| > 0 && words[|words| - 1][0] == '-'
    ensures c == FlagsValueCompletion ==> '=' in words[|words| - 1]
    ensures c == FlagsNameCompletion ==> '=' !in words[|words| - 1]
  {
    if |words| > 1 then
      var lastword := words[|words| - 1];
      if |lastword| > 0 && lastword[0] == '-' then
        if FindLastChar(lastword, '=').Some? then FlagsValueCompletion else FlagsNameCompletion
      else ByCommand
    else ByCommand
  }

  /** The text handed to the completion function: past the first '=' of a long option when suppressflag is set. */
  function CompletionText(lastword: string, suppressflag: bool): string
  {
    if suppressflag && |lastword| > 3 && lastword[0] == '-' && lastword[1] == '-' && FindChar(lastword, '=').Some? then
      lastword[FindChar(lastword, '=').value + 1..]
    else lastword
  }

  /**
   * Completing "--name=v" picks value completion and completes v: the
   * entries of `flags_completion` with a value lead to value completion.
   */
  lemma ValueCompletionOfFlag(words: seq<string>, name: string, v: string)
    requires |words| > 0 && |name| > 1 && '=' !in name
    ensures var w := words + [FlagText(name, true) + v];
      CompletionFor(w) == FlagsValueCompletion && CompletionText(w[|w| - 1], true) == v
  {
    var w := words + [FlagText(name, true) + v];
    var last := FlagText(name, true) + v;
    assert w[|w| - 1] == last;
    assert last == "--" + name + "=" + v;
    assert last[|name| + 2] == '=';
    assert forall j :: 2 <= j < |name| + 2 ==> last[j] == name[j - 2];
    assert FindChar(last, '=').value == |name| + 2;
    assert last[|name| + 3..] == v;
  }

  predicate HasAnyOf(v: string, separators: string)
  {
    exists k :: 0 <= k < |v| && v[k] in separators
  }

  /** A completion value as `getListOfCompletionValues` emits it: quoted, with inner quotes escaped, iff it holds a separator. */
  function QuoteValue(v: string, separators: string): string
  {
    if HasAnyOf(v, separators) then "\"" + ReplacedAll(v, "\"", "\\\"") + "\"" else v
  }

  /** Reads a quoted value back. */
  function UnquoteValue(q: string): string
  {
    if |q| >= 2 && q[0] == '"' && q[|q| - 1] == '"' then ReplacedAll(q[1..|q| - 1], "\\\"", "\"") else q
  }

  lemma QuoteRoundTrip(v: string, separators: string)
    requires HasAnyOf(v, separators) || |v| < 2 || v[0] != '"' || v[|v| - 1] != '"'
    ensures UnquoteValue(QuoteValue(v, separators)) == v
  {
    if HasAnyOf(v, separators) {
      ReplaceAllSingleChar(v, '"', "\\\"");
      var inner := ReplacedAll(v, "\"", "\\\"");
      var q := "\"" + inner + "\"";
      assert q[1..|q| - 1] == inner;
      UnescapeEscaped(v, '"', '\\');
    }
  }

  /** One step of the value loop: a separator before every value but the first non-empty text. */
  function AddValue(acc: string, v: string, separator: char, separators: string): string
  {
    (if |acc| > 0 then acc + [separator] else acc) + QuoteValue(v, separators)
  }

  function JoinValues(values: seq<string>, separator: char, separators: string): string
  {
    if |values| == 0 then []
    else AddValue(JoinValues(values[..|values| - 1], separator, separators), values[|values| - 1], separator, separators)
  }

  /**
   * The value loop of `getListOfCompletionValues`; values are the texts the
   * completion function returns for states 0, 1, ... before it returns none,
   * and nothing is completed for a single word.
   */
  method ListOfCompletionValues(words: seq<string>, values: seq<string>, separator: char, separators: string) returns (r: string)
    ensures r == if |words| > 1 then JoinValues(values, separator, separators) else []
  {
    r := [];
    if |words| > 1 {
      var state := 0;
      while state < |values|
        invariant 0 <= state <= |values| && r == JoinValues(values[..state], separator, separators)
      {
        JoinStep(values, state, separator, separators);
        ghost var acc := r;
        if |r| > 0 {
          r := r + [separator];
        }
        r := r + QuoteValue(values[state], separators);
        assert r == AddValue(acc, values[state], separator, separators);
        state := state + 1;
      }
      assert values[..state] == values;
    }
  }

  /** Joining one more value adds it, after a separator when text came before. */
  lemma JoinStep(values: seq<string>, i: nat, separator: char, separators: string)
    requires i < |values|
    ensures JoinValues(values[..i + 1], separator, separators) ==
            AddValue(JoinValues(values[..i], separator, separators), values[i], separator, separators)
  {
    assert values[..i + 1][..i] == values[..i];
  }

  /** A value without separators joins as it is; one with a separator goes between quotes. */
  lemma JoinTwoValues(a: string, b: string, separator: char, separators: string)
    requires a != [] && !HasAnyOf(a, separators)
    ensures JoinValues([a, b], separator, separators) == a + [separator] + QuoteValue(b, separators)
  {
    assert [a, b][..1] == [a];
    assert [a][..0] == [];
    assert JoinValues([], separator, separators) == [];
    assert QuoteValue(a, separators) == a;
    assert JoinValues([a], separator, separators) == a;
  }

  // ---------------------------------------------------------------- bare commands

  /** Words a bare command may carry: empty ones and the client's width and id flags. */
  predicate Ignorable(w: string)
  {
    w == [] || StartsWith(w, "--client-width") || StartsWith(w, "--clientID")
  }

  /** `isBareCommand(l, command)`: the command alone, perhaps with client flags after it. */
  predicate IsBareCommandOf(what: string, command: string, escape: bool)
  {
    what == command || what == "X" + command ||
    ((StartsWith(what, command + " ") || StartsWith(what, "X" + command + " ")) &&
     var words := CommonWords.Words(what, escape, false);
     forall i :: 1 <= i < |words| ==> Ignorable(words[i]))
  }

  method IsBareCommand(what: string, command: string, escape: bool) returns (r: bool)
    ensures r == IsBareCommandOf(what, command, escape)
  {
    var xcommand := "X" + command;
    if what == command || what == xcommand {
      return true;
    }
    if !StartsWith(what, command + " ") && !StartsWith(what, xcommand + " ") {
      return false;
    }
    var words := CommonWords.GetListOfWords(what, escape, false);
    var i := 1;
    while i < |words|
      invariant 1 <= i <= |words| || |words| <= 1
      invariant forall k :: 1 <= k < i && k < |words| ==> Ignorable(words[k])
    {
      if words[i] == [] {
        i := i + 1;
        continue;
      }
      if words[i] == "--help" {
        assert !Ignorable(words[i]);
        return false;
      }
      if StartsWith(words[i], "--client-width") || StartsWith(words[i], "--clientID") {
        i := i + 1;
        continue;
      }
      return false;
    }
    return true;
  }

  /** "--help" after the command makes it not bare, and client flags alone keep it bare. */
  lemma BareCommandWords(what: string, command: string, escape: bool)
    requires what != command && what != "X" + command && StartsWith(what, command + " ")
    ensures var words := CommonWords.Words(what, escape, false);
      (exists i :: 1 <= i < |words| && words[i] == "--help") ==> !IsBareCommandOf(what, command, escape)
    ensures var words := CommonWords.Words(what, escape, false);
      (forall i :: 1 <= i < |words| ==> words[i] == [] || StartsWith(words[i], "--clientID")) ==>
        IsBareCommandOf(what, command, escape)
  {
    var words := CommonWords.Words(what, escape, false);
    if exists i :: 1 <= i < |words| && words[i] == "--help" {
      var i :| 1 <= i < |words| && words[i] == "--help";
      assert !StartsWith(words[i], "--client-width") && !StartsWith(words[i], "--clientID");
    }
  }
}
