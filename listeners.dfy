/**
 * The global listeners of src/listeners.cpp: the buffer of completed
 * transfers, the node-update counters and the overquota bookkeeping of
 * the sandbox. The SDK's transfers and nodes are reduced to the fields
 * those listeners read.
 */
module MegaCmdListeners {
  import opened Wrappers
  import MegaCmdUtils

  // ---------------------------------------------------------------- completed transfers

  const MAXCOMPLETEDTRANSFERSBUFFER: nat := 10000

  /** A finished transfer, kept only by its tag and the handle of its node. */
  datatype Transfer = Transfer(tag: int, nodeHandle: nat)

  datatype Completed = Completed(transfers: seq<Transfer>, pathsByHandle: map<nat, string>)

  /**
   * `onTransferFinish`: the transfer goes to the front, its node's path (when
   * the node is known) is recorded, and past the limit the oldest transfer is
   * dropped together with the path recorded under its handle.
   */
  function FinishOf(c: Completed, t: Transfer, nodePath: Option<string>): Completed
  {
    var transfers := [t] + c.transfers;
    var paths := if nodePath.Some? then c.pathsByHandle[t.nodeHandle := nodePath.value] else c.pathsByHandle;
    if |transfers| > MAXCOMPLETEDTRANSFERSBUFFER then
      Completed(transfers[..|transfers| - 1], paths - {transfers[|transfers| - 1].nodeHandle})
    else
      Completed(transfers, paths)
  }

  /** The newest transfer is first; below the limit nothing is lost, at the limit exactly the oldest goes. */
  lemma FinishNewestFirst(c: Completed, t: Transfer, nodePath: Option<string>)
    requires |c.transfers| <= MAXCOMPLETEDTRANSFERSBUFFER
    ensures var r := FinishOf(c, t, nodePath);
      |r.transfers| <= MAXCOMPLETEDTRANSFERSBUFFER && r.transfers[0] == t &&
      (|c.transfers| < MAXCOMPLETEDTRANSFERSBUFFER ==> r.transfers == [t] + c.transfers) &&
      (|c.transfers| == MAXCOMPLETEDTRANSFERSBUFFER ==> r.transfers == [t] + c.transfers[..|c.transfers| - 1])
  {
    var r := FinishOf(c, t, nodePath);
    if |c.transfers| == MAXCOMPLETEDTRANSFERSBUFFER {
      assert ([t] + c.transfers)[..|c.transfers|] == [t] + c.transfers[..|c.transfers| - 1];
    }
  }

  /** An eviction removes the evicted transfer's handle from the path map. */
  lemma EvictionForgetsPath(c: Completed, t: Transfer, nodePath: Option<string>)
    requires |c.transfers| == MAXCOMPLETEDTRANSFERSBUFFER
    ensures c.transfers[|c.transfers| - 1].nodeHandle !in FinishOf(c, t, nodePath).pathsByHandle
  {
  }

  /** Without an eviction the new node's path is recorded and no other path changes. */
  lemma FinishRecordsPath(c: Completed, t: Transfer, p: string, h: nat)
    requires |c.transfers| < MAXCOMPLETEDTRANSFERSBUFFER
    ensures FinishOf(c, t, Some(p)).pathsByHandle[t.nodeHandle] == p
    ensures h != t.nodeHandle ==>
      (h in FinishOf(c, t, Some(p)).pathsByHandle <==> h in c.pathsByHandle) &&
      (h in c.pathsByHandle ==> FinishOf(c, t, Some(p)).pathsByHandle[h] == c.pathsByHandle[h])
  {
  }

  class GlobalTransferListener {
    var completedTransfers: seq<Transfer>
    var completedPathsByHandle: map<nat, string>

    predicate Valid()
      reads this
    {
      |completedTransfers| <= MAXCOMPLETEDTRANSFERSBUFFER
    }

    function Snapshot(): Completed
      reads this
    {
      Completed(completedTransfers, completedPathsByHandle)
    }

    constructor ()
      ensures Valid() && completedTransfers == [] && completedPathsByHandle == map[]
    {
      completedTransfers := [];
      completedPathsByHandle := map[];
    }

    /** `onTransferFinish`: nodePath is the path the SDK reports for the node, when it knows it. */
    method OnTransferFinish(t: Transfer, nodePath: Option<string>)
      requires Valid()
      modifies this
      ensures Valid()
      ensures Snapshot() == FinishOf(old(Snapshot()), t, nodePath)
      ensures completedTransfers[0] == t
    {
      FinishNewestFirst(Snapshot(), t, nodePath);
      completedTransfers := [t] + completedTransfers;
      if nodePath.Some? {
        completedPathsByHandle := completedPathsByHandle[t.nodeHandle := nodePath.value];
      }
      if |completedTransfers| > MAXCOMPLETEDTRANSFERSBUFFER {
        var todelete := completedTransfers[|completedTransfers| - 1];
        completedPathsByHandle := completedPathsByHandle - {todelete.nodeHandle};
        completedTransfers := completedTransfers[..|completedTransfers| - 1];
      }
    }
  }

  // ---------------------------------------------------------------- node updates

  datatype NodeKind = FileNode | FolderNode | OtherNode

  datatype UpdatedNode = UpdatedNode(kind: NodeKind, removed: bool)

  /** The four counters `onNodesUpdate` keeps. */
  datatype Counts = Counts(nfolders: nat, nfiles: nat, rfolders: nat, rfiles: nat)

  function Total(c: Counts): nat
  {
    c.nfolders + c.nfiles + c.rfolders + c.rfiles
  }

  /** The counter one node increments, as a change to the counts. */
  function Bump(c: Counts, n: UpdatedNode): Counts
  {
    match n.kind
    case FolderNode => if n.removed then c.(rfolders := c.rfolders + 1) else c.(nfolders := c.nfolders + 1)
    case FileNode => if n.removed then c.(rfiles := c.rfiles + 1) else c.(nfiles := c.nfiles + 1)
    case OtherNode => c
  }

  /** The counters after the nodes of a list, taken in order. */
  function CountOf(nodes: seq<UpdatedNode>): Counts
  {
    if |nodes| == 0 then Counts(0, 0, 0, 0) else Bump(CountOf(nodes[..|nodes| - 1]), nodes[|nodes| - 1])
  }

  /** How many of the nodes are files or folders. */
  function Countable(nodes: seq<UpdatedNode>): nat
  {
    if |nodes| == 0 then 0 else Countable(nodes[1..]) + (if nodes[0].kind == OtherNode then 0 else 1)
  }

  /** Each file or folder moves exactly one counter by one; any other node moves none. */
  lemma BumpOne(c: Counts, n: UpdatedNode)
    ensures Total(Bump(c, n)) == Total(c) + (if n.kind == OtherNode then 0 else 1)
    ensures n.kind == FolderNode && !n.removed ==> Bump(c, n) == c.(nfolders := c.nfolders + 1)
    ensures n.kind == FolderNode && n.removed ==> Bump(c, n) == c.(rfolders := c.rfolders + 1)
    ensures n.kind == FileNode && !n.removed ==> Bump(c, n) == c.(nfiles := c.nfiles + 1)
    ensures n.kind == FileNode && n.removed ==> Bump(c, n) == c.(rfiles := c.rfiles + 1)
  {
  }

  lemma CountableSnoc(nodes: seq<UpdatedNode>, n: UpdatedNode)
    ensures Countable(nodes + [n]) == Countable(nodes) + (if n.kind == OtherNode then 0 else 1)
  {
    if |nodes| > 0 {
      assert (nodes + [n])[1..] == nodes[1..] + [n];
      CountableSnoc(nodes[1..], n);
    }
  }

  /** The counters together count every file and folder of the list, once. */
  lemma {:induction false} CountTotal(nodes: seq<UpdatedNode>)
    ensures Total(CountOf(nodes)) == Countable(nodes)
  {
    if |nodes| > 0 {
      var init := nodes[..|nodes| - 1];
      CountTotal(init);
      BumpOne(CountOf(init), nodes[|nodes| - 1]);
      assert nodes == init + [nodes[|nodes| - 1]];
      CountableSnoc(init, nodes[|nodes| - 1]);
    }
  }

  /**
   * `onNodesUpdate`. A listed update counts its nodes. A missing list (the
   * initial load) counts the whole account, given here as the folder and file
   * totals of its trees, and only when the log level is at least INFO.
   */
  method OnNodesUpdate(nodes: Option<seq<UpdatedNode>>, maxLogLevel: int, treeFolders: nat, treeFiles: nat)
    returns (c: Counts)
    ensures nodes.Some? ==> c == CountOf(nodes.value) && Total(c) == Countable(nodes.value)
    ensures nodes.None? && maxLogLevel >= MegaCmdUtils.LOG_LEVEL_INFO ==> c == Counts(treeFolders, treeFiles, 0, 0)
    ensures nodes.None? && maxLogLevel < MegaCmdUtils.LOG_LEVEL_INFO ==> c == Counts(0, 0, 0, 0)
  {
    var nfolders, nfiles, rfolders, rfiles := 0, 0, 0, 0;
    if nodes.Some? {
      var ns := nodes.value;
      var i := 0;
      while i < |ns|
        invariant 0 <= i <= |ns|
        invariant Counts(nfolders, nfiles, rfolders, rfiles) == CountOf(ns[..i])
      {
        assert ns[..i + 1][..i] == ns[..i];
        var n := ns[i];
        if n.kind == FolderNode {
          if n.removed {
            rfolders := rfolders + 1;
          } else {
            nfolders := nfolders + 1;
          }
        } else if n.kind == FileNode {
          if n.removed {
            rfiles := rfiles + 1;
          } else {
            nfiles := nfiles + 1;
          }
        }
        i := i + 1;
      }
      assert ns[..|ns|] == ns;
      CountTotal(ns);
    } else if maxLogLevel >= MegaCmdUtils.LOG_LEVEL_INFO {
      nfolders := nfolders + treeFolders;
      nfiles := nfiles + treeFiles;
    }
    c := Counts(nfolders, nfiles, rfolders, rfiles);
  }

  // ---------------------------------------------------------------- overquota

  /** The SDK's code for an exceeded transfer quota. */
  const API_EOVERQUOTA: int := -17

  /** An error delivered with a temporary transfer failure. */
  datatype TransferError = TransferError(code: int, value: int)

  /** The part of `MegaCmdSandbox` the listeners write. */
  class QuotaState {
    var overquota: bool
    var temporalbandwidth: int
    var timeOfOverquota: int
    var secondsOverQuota: int

    /** The sandbox starts not over quota, with the clock reading at creation. */
    constructor (now: int)
      ensures !overquota && temporalbandwidth == 0 && timeOfOverquota == now && secondsOverQuota == 0
    {
      overquota := false;
      temporalbandwidth := 0;
      timeOfOverquota := now;
      secondsOverQuota := 0;
    }

    /**
     * `MegaCmdGlobalListener::onAccountUpdate`: the bandwidth figure is
     * always dropped so that it is queried again; the overquota flag is
     * cleared only when the SDK reports no overquota delay.
     */
    method OnAccountUpdate(bandwidthOverquotaDelay: int)
      modifies this
      ensures temporalbandwidth == 0
      ensures overquota == (old(overquota) && bandwidthOverquotaDelay != 0)
      ensures timeOfOverquota == old(timeOfOverquota) && secondsOverQuota == old(secondsOverQuota)
    {
      if bandwidthOverquotaDelay == 0 {
        overquota := false;
      }
      temporalbandwidth := 0;
    }

    /**
     * `onTransferTemporaryError`: only EOVERQUOTA changes anything; it sets
     * the flag, the time it happened and how long it lasts.
     */
    method OnTransferTemporaryError(e: Option<TransferError>, now: int)
      modifies this
      ensures e.Some? && e.value.code == API_EOVERQUOTA ==>
        overquota && timeOfOverquota == now && secondsOverQuota == e.value.value
      ensures !(e.Some? && e.value.code == API_EOVERQUOTA) ==>
        overquota == old(overquota) && timeOfOverquota == old(timeOfOverquota) && secondsOverQuota == old(secondsOverQuota)
      ensures temporalbandwidth == old(temporalbandwidth)
    {
      if e.Some? && e.value.code == API_EOVERQUOTA {
        overquota := true;
        timeOfOverquota := now;
        secondsOverQuota := e.value.value;
      }
    }
  }
}
