/**
 * The executer's queue of folders waiting for a yes/no answer before they are
 * removed (src/megacmdexecuter.cpp:2107-2255), with the console prompt it
 * drives (src/megacmd.cpp:286-312).
 */
module DeleteQueue {
  import opened MegaCmdCodes

  /** A node handed to deleteNode: its handle, its name and whether it is a file. */
  datatype Target = Target(handle: nat, name: string, isFile: bool)

  /** The question asked before a folder is removed. */
  function Question(name: string): (q: string)
    ensures |q| == |name| + 36
    ensures q[..23] == "Are you sure to delete " && q[23..23 + |name|] == name
  {
    "Are you sure to delete " + name + " ? (Yes/No): "
  }

  /**
   * What the model observes of the executer: the queue, the prompt kind, the
   * console echo flag, the texts the prompt printed, the handles sent to
   * the removal request in order, and the current out code.
   */
  datatype State = State(queue: seq<Target>, prompt: PromptType, echo: bool,
                         output: seq<string>, removed: seq<nat>, outCode: int)

  function Handles(q: seq<Target>): (hs: seq<nat>)
    ensures |hs| == |q| && forall i :: 0 <= i < |q| ==> hs[i] == q[i].handle
  {
    if q == [] then [] else [q[0].handle] + Handles(q[1..])
  }

  predicate Distinct(q: seq<Target>)
  {
    forall i, j :: 0 <= i < j < |q| ==> q[i].handle != q[j].handle
  }

  /** No handle is queued twice, and a non-empty queue keeps the console asking. */
  predicate Valid(s: State)
  {
    Distinct(s.queue) && (s.queue != [] ==> s.prompt == AreYouSureToDelete)
  }

  /** `setprompt`: COMMAND turns echo on; any other kind prints its text (or the default one) and turns echo off. */
  function SetPromptOf(s: State, p: PromptType, arg: string): (r: State)
    ensures r.prompt == p && r.echo == (p == Command)
    ensures r.output == if p == Command then s.output else s.output + [if arg != [] then arg else DefaultPrompt(p)]
    ensures r.queue == s.queue && r.removed == s.removed && r.outCode == s.outCode
  {
    if p == Command then s.(prompt := p, echo := true)
    else s.(prompt := p, output := s.output + [if |arg| > 0 then arg else DefaultPrompt(p)], echo := false)
  }

  predicate Queued(q: seq<Target>, h: nat)
  {
    exists i :: 0 <= i < |q| && q[i].handle == h
  }

  /**
   * `deleteNode(node, recursive, force)`; cmdShell and interactive are the
   * calling thread's flags and confirmed is the answer askforConfirmation
   * would give.
   */
  function DeleteNodeOf(s: State, t: Target, recursive: bool, force: bool,
                        cmdShell: bool, interactive: bool, confirmed: bool): State
  {
    if !t.isFile && !recursive then s.(outCode := MCMD_INVALIDTYPE)
    else if !cmdShell && interactive && !force && !t.isFile then
      if Queued(s.queue, t.handle) then s
      else
        var s1 := s.(queue := s.queue + [t]);
        if s1.prompt != AreYouSureToDelete then SetPromptOf(s1, AreYouSureToDelete, Question(t.name)) else s1
    else if !force && !t.isFile then
      if confirmed then s.(removed := s.removed + [t.handle]) else s
    else s.(removed := s.removed + [t.handle])
  }

  /** The prompt after the queue changed: ask about the new front, or go back to COMMAND. */
  function AfterPop(s: State): State
  {
    if s.queue != [] then SetPromptOf(s, AreYouSureToDelete, Question(s.queue[0].name))
    else SetPromptOf(s, Command, "")
  }

  /** `confirmDelete`: remove the front node, then re-prompt. */
  function ConfirmDeleteOf(s: State): State
  {
    var s1 := if s.queue != [] then s.(queue := s.queue[1..], removed := s.removed + [s.queue[0].handle]) else s;
    AfterPop(s1)
  }

  /** `discardDelete`: drop the front node without removing it, then re-prompt. */
  function DiscardDeleteOf(s: State): State
  {
    var s1 := if s.queue != [] then s.(queue := s.queue[1..]) else s;
    AfterPop(s1)
  }

  class Executer {
    var queue: seq<Target>
    var prompt: PromptType
    var echo: bool
    var output: seq<string>
    var removed: seq<nat>
    var outCode: int

    function Snapshot(): State
      reads this
    {
      State(queue, prompt, echo, output, removed, outCode)
    }

    constructor ()
      ensures Snapshot() == State([], Command, true, [], [], MCMD_OK)
    {
      queue := [];
      prompt := Command;
      echo := true;
      output := [];
      removed := [];
      outCode := MCMD_OK;
    }

    method SetPrompt(p: PromptType, arg: string)
      modifies this
      ensures Snapshot() == SetPromptOf(old(Snapshot()), p, arg)
    {
      prompt := p;
      if p == Command {
        echo := true;
      } else {
        if |arg| > 0 {
          output := output + [arg];
        } else {
          output := output + [DefaultPrompt(p)];
        }
        echo := false;
      }
    }

    /** `doDeleteNode`: the removal request for the node. */
    method DoDeleteNode(t: Target)
      modifies this
      ensures Snapshot() == old(Snapshot()).(removed := old(removed) + [t.handle])
    {
      removed := removed + [t.handle];
    }

    method DeleteNode(t: Target, recursive: bool, force: bool, cmdShell: bool, interactive: bool, confirmed: bool)
      modifies this
      ensures Snapshot() == DeleteNodeOf(old(Snapshot()), t, recursive, force, cmdShell, interactive, confirmed)
    {
      if !t.isFile && !recursive {
        outCode := MCMD_INVALIDTYPE;
      } else if !cmdShell && interactive && !force && !t.isFile {
        var alreadythere := false;
        var i := 0;
        while i < |queue|
          invariant 0 <= i <= |queue|
          invariant alreadythere <==> exists k :: 0 <= k < i && queue[k].handle == t.handle
        {
          if queue[i].handle == t.handle {
            alreadythere := true;
          }
          i := i + 1;
        }
        if !alreadythere {
          queue := queue + [t];
          if prompt != AreYouSureToDelete {
            SetPrompt(AreYouSureToDelete, Question(t.name));
          }
        }
      } else if !force && !t.isFile {
        if confirmed {
          DoDeleteNode(t);
        }
      } else {
        DoDeleteNode(t);
      }
    }

    method Reprompt()
      modifies this
      ensures Snapshot() == AfterPop(old(Snapshot()))
    {
      if |queue| > 0 {
        SetPrompt(AreYouSureToDelete, Question(queue[0].name));
      } else {
        SetPrompt(Command, "");
      }
    }

    method ConfirmDelete()
      modifies this
      ensures Snapshot() == ConfirmDeleteOf(old(Snapshot()))
    {
      if |queue| > 0 {
        var front := queue[0];
        queue := queue[1..];
        DoDeleteNode(front);
      }
      Reprompt();
    }

    method DiscardDelete()
      modifies this
      ensures Snapshot() == DiscardDeleteOf(old(Snapshot()))
    {
      if |queue| > 0 {
        queue := queue[1..];
      }
      Reprompt();
    }
  }

  // ---------------------------------------------------------------- properties

  /** A folder without -r is refused with MCMD_INVALIDTYPE and nothing else changes. */
  lemma FolderNeedsRecursive(s: State, t: Target, force: bool, cmdShell: bool, interactive: bool, confirmed: bool)
    requires !t.isFile
    ensures var r := DeleteNodeOf(s, t, false, force, cmdShell, interactive, confirmed);
      r.outCode == MCMD_INVALIDTYPE && r.queue == s.queue && r.removed == s.removed && r.prompt == s.prompt
  {
  }

  lemma DistinctAppend(q: seq<Target>, t: Target)
    requires Distinct(q) && !Queued(q, t.handle)
    ensures Distinct(q + [t])
  {
    forall i, j | 0 <= i < j < |q + [t]| ensures (q + [t])[i].handle != (q + [t])[j].handle {
      if j == |q| {
        assert (q + [t])[i] == q[i];
      } else {
        assert (q + [t])[i] == q[i] && (q + [t])[j] == q[j];
      }
    }
  }

  /**
   * In an interactive thread without -f, a folder is queued once: after the
   * call its handle is queued, the queue grew by at most this node, and
   * nothing was removed; every other mode leaves the queue alone.
   */
  lemma DeleteNodeQueues(s: State, t: Target, recursive: bool, force: bool, cmdShell: bool, interactive: bool, confirmed: bool)
    requires Valid(s)
    ensures var r := DeleteNodeOf(s, t, recursive, force, cmdShell, interactive, confirmed);
      Valid(r) &&
      (recursive && !cmdShell && interactive && !force && !t.isFile ==>
        Queued(r.queue, t.handle) && r.removed == s.removed &&
        r.queue == (if Queued(s.queue, t.handle) then s.queue else s.queue + [t])) &&
      (!(recursive && !cmdShell && interactive && !force && !t.isFile) ==> r.queue == s.queue)
  {
    var r := DeleteNodeOf(s, t, recursive, force, cmdShell, interactive, confirmed);
    if recursive && !cmdShell && interactive && !force && !t.isFile && !Queued(s.queue, t.handle) {
      DistinctAppend(s.queue, t);
      assert (s.queue + [t])[|s.queue|] == t;
    }
  }

  /** Without -f, a folder outside an interactive thread is removed exactly when the answer is yes. */
  lemma DeleteNodeAsks(s: State, t: Target, cmdShell: bool, interactive: bool, confirmed: bool)
    requires !t.isFile && (cmdShell || !interactive)
    ensures var r := DeleteNodeOf(s, t, true, false, cmdShell, interactive, confirmed);
      r.removed == (if confirmed then s.removed + [t.handle] else s.removed) && r.queue == s.queue
  {
  }

  lemma DistinctTail(q: seq<Target>)
    requires Distinct(q) && q != []
    ensures Distinct(q[1..])
  {
    forall i, j | 0 <= i < j < |q[1..]| ensures q[1..][i].handle != q[1..][j].handle {
      assert q[1..][i] == q[i + 1] && q[1..][j] == q[j + 1];
    }
  }

  /**
   * `confirmDelete` removes the front node and asks about the next one, or
   * returns the prompt to COMMAND when the queue empties.
   */
  lemma ConfirmPopsFront(s: State)
    requires Valid(s) && s.queue != []
    ensures var r := ConfirmDeleteOf(s);
      Valid(r) && r.queue == s.queue[1..] && r.removed == s.removed + [s.queue[0].handle] &&
      (r.queue == [] ==> r.prompt == Command && r.echo) &&
      (r.queue != [] ==> r.prompt == AreYouSureToDelete && r.output == s.output + [Question(s.queue[1].name)])
  {
    DistinctTail(s.queue);
  }

  /** `discardDelete` drops the front node without removing anything, and re-prompts the same way. */
  lemma DiscardPopsFront(s: State)
    requires Valid(s) && s.queue != []
    ensures var r := DiscardDeleteOf(s);
      Valid(r) && r.queue == s.queue[1..] && r.removed == s.removed &&
      (r.queue == [] ==> r.prompt == Command && r.echo) &&
      (r.queue != [] ==> r.prompt == AreYouSureToDelete && r.output == s.output + [Question(s.queue[1].name)])
  {
    DistinctTail(s.queue);
  }

  /** n confirmations in a row. */
  function ConfirmTimes(s: State, n: nat): State
    decreases n
  {
    if n == 0 then s else ConfirmTimes(ConfirmDeleteOf(s), n - 1)
  }

  lemma ConfirmShape(s: State)
    requires s.queue != []
    ensures var r := ConfirmDeleteOf(s);
      r.queue == s.queue[1..] && r.removed == s.removed + [s.queue[0].handle] &&
      (r.queue == [] ==> r.prompt == Command)
  {
  }

  lemma RemovedAssoc(a: seq<nat>, h: nat, b: seq<nat>, c: seq<nat>)
    requires c == [h] + b
    ensures a + [h] + b == a + c
  {
  }

  /**
   * Answering yes to every question removes the queued folders in the order
   * they were queued and leaves the console at the COMMAND prompt.
   */
  lemma {:induction false} ConfirmAllDrains(s: State)
    requires s.queue != []
    ensures var r := ConfirmTimes(s, |s.queue|);
      r.queue == [] && r.prompt == Command && r.removed == s.removed + Handles(s.queue)
    decreases |s.queue|
  {
    var q := s.queue;
    var s1 := ConfirmDeleteOf(s);
    ConfirmShape(s);
    assert Handles(q) == [q[0].handle] + Handles(q[1..]);
    assert ConfirmTimes(s, |q|) == ConfirmTimes(s1, |q| - 1);
    if |q| > 1 {
      ConfirmAllDrains(s1);
      RemovedAssoc(s.removed, q[0].handle, Handles(q[1..]), Handles(q));
    } else {
      assert q[1..] == [];
    }
  }
}
