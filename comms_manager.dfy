/**
 * The state-listener registry of src/comunicationsmanager.cpp: shells that
 * registered for state changes, informed of every state message (terminated
 * by 0x1F) and dropped when informing them fails. Whether informing a
 * listener fails is the set `failing` of listener ids; the base class
 * never fails, which is the empty set.
 */
module ComunicationsManager {
  import opened Wrappers
  import MegaCmdShell

  const MAXCMDSTATELISTENERS: nat := 300

  /** A registered `CmdPetition`: an identity for the object and its clientID. */
  datatype Petition = Petition(id: nat, clientID: int)

  /** Whether a loop with this client filter informs p: all listeners, or those with the given clientID. */
  predicate Targeted(p: Petition, only: Option<int>)
  {
    only.None? || p.clientID == only.value
  }

  predicate Dropped(p: Petition, only: Option<int>, failing: set<nat>)
  {
    Targeted(p, only) && p.id in failing
  }

  /** The listeners left after one inform loop. */
  function Survivors(q: seq<Petition>, only: Option<int>, failing: set<nat>): seq<Petition>
  {
    if q == [] then []
    else
      var last := q[|q| - 1];
      Survivors(q[..|q| - 1], only, failing) + (if Dropped(last, only, failing) then [] else [last])
  }

  /** The (listener, message) pairs one inform loop sends, in order. */
  function Informed(q: seq<Petition>, only: Option<int>, msg: string): seq<(nat, string)>
  {
    if q == [] then []
    else
      var last := q[|q| - 1];
      Informed(q[..|q| - 1], only, msg) + (if Targeted(last, only) then [(last.id, msg)] else [])
  }

  /** The ids one inform loop deletes, in order. */
  function Deleted(q: seq<Petition>, only: Option<int>, failing: set<nat>): seq<nat>
  {
    if q == [] then []
    else
      var last := q[|q| - 1];
      Deleted(q[..|q| - 1], only, failing) + (if Dropped(last, only, failing) then [last.id] else [])
  }

  datatype Registry = Registry(listeners: seq<Petition>, sent: seq<(nat, string)>, deleted: seq<nat>)

  /** `informStateListeners` / `informStateListenerByClientId` on a registry. */
  function InformOf(r: Registry, s: string, only: Option<int>, failing: set<nat>): Registry
  {
    var msg := s + [MegaCmdShell.STATE_DELIM];
    Registry(Survivors(r.listeners, only, failing),
             r.sent + Informed(r.listeners, only, msg),
             r.deleted + Deleted(r.listeners, only, failing))
  }

  /** `registerStateListener`: append, and send "ack" to all once the list has grown past the limit to a multiple of 10. */
  function RegisterOf(r: Registry, p: Petition, failing: set<nat>): Registry
  {
    var r1 := r.(listeners := r.listeners + [p]);
    if |r1.listeners| > MAXCMDSTATELISTENERS && |r1.listeners| % 10 == 0 then InformOf(r1, "ack", None, failing) else r1
  }

  // ---------------------------------------------------------------- properties of the spec

  /** Exactly the listeners that were not dropped survive, in order. */
  lemma {:induction false} SurvivorMembers(q: seq<Petition>, only: Option<int>, failing: set<nat>)
    ensures |Survivors(q, only, failing)| <= |q|
    ensures forall p :: p in Survivors(q, only, failing) <==> p in q && !Dropped(p, only, failing)
    decreases |q|
  {
    if q != [] {
      assert q == q[..|q| - 1] + [q[|q| - 1]];
      SurvivorMembers(q[..|q| - 1], only, failing);
    }
  }

  /** When nobody fails, as with the base class, the list is unchanged. */
  lemma {:induction false} NoFailureKeepsAll(q: seq<Petition>, only: Option<int>)
    ensures Survivors(q, only, {}) == q
    ensures Deleted(q, only, {}) == []
    decreases |q|
  {
    if q != [] {
      NoFailureKeepsAll(q[..|q| - 1], only);
    }
  }

  /** Informing by clientID neither informs nor removes listeners of another client. */
  lemma {:induction false} OtherClientsUntouched(q: seq<Petition>, c: int, failing: set<nat>)
    ensures forall p :: p in q && p.clientID != c ==> p in Survivors(q, Some(c), failing)
    ensures forall k :: 0 <= k < |Informed(q, Some(c), [])| ==> Informed(q, Some(c), [])[k].0 in IdsOf(q, c)
    decreases |q|
  {
    SurvivorMembers(q, Some(c), failing);
    InformedIds(q, c, []);
  }

  function IdsOf(q: seq<Petition>, c: int): set<nat>
  {
    set p | p in q && p.clientID == c :: p.id
  }

  lemma {:induction false} InformedIds(q: seq<Petition>, c: int, msg: string)
    ensures forall k :: 0 <= k < |Informed(q, Some(c), msg)| ==> Informed(q, Some(c), msg)[k].0 in IdsOf(q, c)
    decreases |q|
  {
    if q != [] {
      var init := q[..|q| - 1];
      InformedIds(init, c, msg);
      assert forall p :: p in init ==> p in q;
      assert IdsOf(init, c) <= IdsOf(q, c);
    }
  }

  /** Every listener is informed once, in order, when no client filter applies. */
  lemma {:induction false} InformedAll(q: seq<Petition>, msg: string)
    ensures |Informed(q, None, msg)| == |q|
    ensures forall k :: 0 <= k < |q| ==> Informed(q, None, msg)[k] == (q[k].id, msg)
    decreases |q|
  {
    if q != [] {
      InformedAll(q[..|q| - 1], msg);
    }
  }

  /** The shell reads the informed message back as exactly the one state message. */
  lemma ShellReadsMessage(s: string)
    requires MegaCmdShell.STATE_DELIM !in s
    ensures MegaCmdShell.HandledEvents(s + [MegaCmdShell.STATE_DELIM]) == [MegaCmdShell.HandleState(s)]
  {
    MegaCmdShell.FramedEvents([s], []);
    assert MegaCmdShell.Framed([s]) + [] == s + [MegaCmdShell.STATE_DELIM] by {
      assert MegaCmdShell.Framed([s][1..]) == [];
    }
  }

  /** The ack sent when the list grows large reaches every listener, the new one included. */
  lemma AckReachesAll(r: Registry, p: Petition, failing: set<nat>)
    requires |r.listeners| + 1 > MAXCMDSTATELISTENERS && (|r.listeners| + 1) % 10 == 0
    ensures var r2 := RegisterOf(r, p, failing);
      r2.sent == r.sent + Informed(r.listeners + [p], None, "ack" + [MegaCmdShell.STATE_DELIM]) &&
      (p.id !in failing ==> p in r2.listeners)
  {
    SurvivorMembers(r.listeners + [p], None, failing);
  }

  /** Below the limit registering only appends. */
  lemma RegisterAppends(r: Registry, p: Petition, failing: set<nat>)
    requires |r.listeners| < MAXCMDSTATELISTENERS
    ensures RegisterOf(r, p, failing) == r.(listeners := r.listeners + [p])
  {
  }

  /** The three spec functions over one more listener. */
  lemma SpecStep(q: seq<Petition>, j: nat, only: Option<int>, failing: set<nat>, msg: string)
    requires j < |q|
    ensures Survivors(q[..j + 1], only, failing) == Survivors(q[..j], only, failing) + (if Dropped(q[j], only, failing) then [] else [q[j]])
    ensures Informed(q[..j + 1], only, msg) == Informed(q[..j], only, msg) + (if Targeted(q[j], only) then [(q[j].id, msg)] else [])
    ensures Deleted(q[..j + 1], only, failing) == Deleted(q[..j], only, failing) + (if Dropped(q[j], only, failing) then [q[j].id] else [])
  {
    assert q[..j + 1][..j] == q[..j];
  }

  function Ids(q: seq<Petition>): (r: seq<nat>)
    ensures |r| == |q|
  {
    if q == [] then [] else Ids(q[..|q| - 1]) + [q[|q| - 1].id]
  }

  /** The loop of the inform functions, on the vector and on logs of what was sent and deleted. */
  method EraseFailing(q: seq<Petition>, sent0: seq<(nat, string)>, deleted0: seq<nat>, msg: string, only: Option<int>, failing: set<nat>)
    returns (ls: seq<Petition>, sent: seq<(nat, string)>, deleted: seq<nat>)
    ensures ls == Survivors(q, only, failing)
    ensures sent == sent0 + Informed(q, only, msg)
    ensures deleted == deleted0 + Deleted(q, only, failing)
  {
    ls, sent, deleted := q, sent0, deleted0;
    var i := 0;
    ghost var j := 0;
    while i < |ls|
      invariant Scanned(q, ls, i, j, sent, deleted, sent0, deleted0, msg, only, failing)
      decreases |ls| - i
    {
      var it := ls[i];
      if Targeted(it, only) && it.id in failing {
        ScanDrop(q, ls, i, j, sent, deleted, sent0, deleted0, msg, only, failing);
        sent := sent + [(it.id, msg)];
        deleted := deleted + [it.id];
        ls := ls[..i] + ls[i + 1..];
      } else {
        ScanKeep(q, ls, i, j, sent, deleted, sent0, deleted0, msg, only, failing);
        if Targeted(it, only) {
          sent := sent + [(it.id, msg)];
        }
        i := i + 1;
      }
      j := j + 1;
    }
    assert ls[..i] == ls;
    assert q[..j] == q;
  }

  /**
   * The state of that loop after j petitions of q were looked at: the i kept
   * so far are the survivors of those j, the rest of the vector is the rest
   * of q, and the logs hold what those j caused.
   */
  ghost predicate Scanned(q: seq<Petition>, ls: seq<Petition>, i: int, j: int, sent: seq<(nat, string)>, deleted: seq<nat>,
                          sent0: seq<(nat, string)>, deleted0: seq<nat>, msg: string, only: Option<int>, failing: set<nat>)
  {
    0 <= i <= |ls| && 0 <= j <= |q|
    && ls[..i] == Survivors(q[..j], only, failing)
    && ls[i..] == q[j..]
    && sent == sent0 + Informed(q[..j], only, msg)
    && deleted == deleted0 + Deleted(q[..j], only, failing)
  }

  /** A failing targeted petition is informed, logged as deleted and erased. */
  lemma ScanDrop(q: seq<Petition>, ls: seq<Petition>, i: int, j: int, sent: seq<(nat, string)>, deleted: seq<nat>,
                 sent0: seq<(nat, string)>, deleted0: seq<nat>, msg: string, only: Option<int>, failing: set<nat>)
    requires Scanned(q, ls, i, j, sent, deleted, sent0, deleted0, msg, only, failing) && i < |ls|
    requires Dropped(ls[i], only, failing)
    ensures Scanned(q, ls[..i] + ls[i + 1..], i, j + 1, sent + [(ls[i].id, msg)], deleted + [ls[i].id],
                    sent0, deleted0, msg, only, failing)
  {
    assert ls[i] == ls[i..][0] == q[j..][0] == q[j];
    assert ls[i + 1..] == ls[i..][1..] == q[j..][1..] == q[j + 1..];
    SpecStep(q, j, only, failing, msg);
    var next := ls[..i] + ls[i + 1..];
    assert next[..i] == ls[..i] && next[i..] == ls[i + 1..];
  }

  /** Any other petition stays, and is informed when targeted. */
  lemma ScanKeep(q: seq<Petition>, ls: seq<Petition>, i: int, j: int, sent: seq<(nat, string)>, deleted: seq<nat>,
                 sent0: seq<(nat, string)>, deleted0: seq<nat>, msg: string, only: Option<int>, failing: set<nat>)
    requires Scanned(q, ls, i, j, sent, deleted, sent0, deleted0, msg, only, failing) && i < |ls|
    requires !Dropped(ls[i], only, failing)
    ensures Scanned(q, ls, i + 1, j + 1, sent + (if Targeted(ls[i], only) then [(ls[i].id, msg)] else []), deleted,
                    sent0, deleted0, msg, only, failing)
  {
    assert ls[i] == ls[i..][0] == q[j..][0] == q[j];
    assert ls[i + 1..] == ls[i..][1..] == q[j..][1..] == q[j + 1..];
    SpecStep(q, j, only, failing, msg);
    assert ls[..i + 1] == ls[..i] + [ls[i]];
  }

  // ---------------------------------------------------------------- the class

  class ComunicationsManager {
    var stateListenersPetitions: seq<Petition>
    var sent: seq<(nat, string)>
    var deleted: seq<nat>

    function Snapshot(): Registry
      reads this
    {
      Registry(stateListenersPetitions, sent, deleted)
    }

    constructor ()
      ensures Snapshot() == Registry([], [], [])
    {
      stateListenersPetitions := [];
      sent := [];
      deleted := [];
    }

    /** The erase-while-iterating loop shared by both inform functions. */
    method InformLoop(msg: string, only: Option<int>, failing: set<nat>)
      modifies this
      ensures stateListenersPetitions == Survivors(old(stateListenersPetitions), only, failing)
      ensures sent == old(sent) + Informed(old(stateListenersPetitions), only, msg)
      ensures deleted == old(deleted) + Deleted(old(stateListenersPetitions), only, failing)
    {
      var ls, snt, del := EraseFailing(stateListenersPetitions, sent, deleted, msg, only, failing);
      stateListenersPetitions, sent, deleted := ls, snt, del;
    }

    /** `informStateListeners(s)`; returns s with 0x1F appended, as the reference parameter becomes. */
    method InformStateListeners(s: string, failing: set<nat>) returns (msg: string)
      modifies this
      ensures msg == s + [MegaCmdShell.STATE_DELIM]
      ensures Snapshot() == InformOf(old(Snapshot()), s, None, failing)
    {
      msg := s + [MegaCmdShell.STATE_DELIM];
      InformLoop(msg, None, failing);
    }

    /** `informStateListenerByClientId(s, clientID)`. */
    method InformStateListenerByClientId(s: string, clientID: int, failing: set<nat>) returns (msg: string)
      modifies this
      ensures msg == s + [MegaCmdShell.STATE_DELIM]
      ensures Snapshot() == InformOf(old(Snapshot()), s, Some(clientID), failing)
    {
      msg := s + [MegaCmdShell.STATE_DELIM];
      InformLoop(msg, Some(clientID), failing);
    }

    method RegisterStateListener(inf: Petition, failing: set<nat>)
      modifies this
      ensures Snapshot() == RegisterOf(old(Snapshot()), inf, failing)
    {
      stateListenersPetitions := stateListenersPetitions + [inf];
      if |stateListenersPetitions| > MAXCMDSTATELISTENERS && |stateListenersPetitions| % 10 == 0 {
        var sack := InformStateListeners("ack", failing);
      }
    }

    /** The destructor: every listener is deleted and the list emptied. */
    method Destroy()
      modifies this
      ensures stateListenersPetitions == [] && sent == old(sent)
      ensures deleted == old(deleted) + Ids(old(stateListenersPetitions))
    {
      ghost var q := stateListenersPetitions;
      ghost var d := 0;
      while |stateListenersPetitions| > 0
        invariant 0 <= d <= |q|
        invariant stateListenersPetitions == q[d..]
        invariant deleted == old(deleted) + Ids(q[..d])
        invariant sent == old(sent)
        decreases |stateListenersPetitions|
      {
        assert q[..d + 1][..d] == q[..d];
        deleted := deleted + [stateListenersPetitions[0].id];
        stateListenersPetitions := stateListenersPetitions[1..];
        d := d + 1;
      }
      assert q[..d] == q;
    }
  }
}
