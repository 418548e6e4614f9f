/**
 * The stalled-sync bookkeeping of src/stalled_issues.cpp and its newer twin
 * src/sync_issues.cpp: the SDK reports that syncs are stalled, the manager
 * asks for the list of stalls, and the list is stored with ids 1..n.
 * A stall is reduced to its reason and its first cloud and local paths.
 */
module StallIssues {
  import opened Wrappers

  /** The reasons of `MegaSyncStall`, and any other code the SDK may add. */
  datatype StallReason =
    | NoReason | FileIssue | MoveOrRenameCannotOccur | DeleteOrMoveWaitingOnScanning
    | DeleteWaitingOnMoves | UploadIssue | DownloadIssue | CannotCreateFolder
    | CannotPerformDeletion | SyncItemExceedsSupportedTreeDepth | FolderMatchedAgainstFile
    | LocalAndRemoteChangedSinceLastSyncedState | LocalAndRemotePreviouslyUnsyncedDiffer
    | NamesWouldClashWhenSynced
    | OtherReason(code: int)

  /** A stall as the SDK reports it: its reason and its first cloud and local path, either possibly null. */
  datatype Stall = Stall(reason: StallReason, cloudPath: Option<string>, localPath: Option<string>)

  /** An issue as stored: its 1-based id and the stall. */
  datatype Issue = Issue(id: nat, stall: Stall)

  /** `getSyncWaitReasonStr`. */
  function ReasonStr(reason: StallReason): (r: string)
    ensures r == "<unsupported>" <==> reason.OtherReason?
  {
    match reason
    case NoReason => "No reason"
    case FileIssue => "File issue"
    case MoveOrRenameCannotOccur => "Move/Rename cannot occur"
    case DeleteOrMoveWaitingOnScanning => "Delete waiting on scanning"
    case DeleteWaitingOnMoves => "Delete waiting on move"
    case UploadIssue => "Upload issue"
    case DownloadIssue => "Download issue"
    case CannotCreateFolder => "Cannot create folder"
    case CannotPerformDeletion => "Cannot delete"
    case SyncItemExceedsSupportedTreeDepth => "Supported tree depth exceeded"
    case FolderMatchedAgainstFile => "Folder matched against file"
    case LocalAndRemoteChangedSinceLastSyncedState => "Local and remote differ"
    case LocalAndRemotePreviouslyUnsyncedDiffer => "Local and remote differ"
    case NamesWouldClashWhenSynced => "Name clash"
    case OtherReason(_) => "<unsupported>"
  }

  /** Two known reasons read the same only when both are the "Local and remote differ" pair. */
  lemma ReasonStrNearlyInjective(a: StallReason, b: StallReason)
    requires !a.OtherReason? && !b.OtherReason? && a != b
    ensures ReasonStr(a) == ReasonStr(b) <==>
      {a, b} == {LocalAndRemoteChangedSinceLastSyncedState, LocalAndRemotePreviouslyUnsyncedDiffer}
  {
  }

  /**
   * `getMainPath` (the same in both files): a non-empty cloud path, marked
   * with a leading "/"; otherwise the local path; otherwise "".
   */
  function MainPath(s: Stall): (r: string)
    ensures s.cloudPath.Some? && s.cloudPath.value != "" ==> r == "/" + s.cloudPath.value
    ensures (s.cloudPath.None? || s.cloudPath.value == "") && s.localPath.Some? ==> r == s.localPath.value
    ensures (s.cloudPath.None? || s.cloudPath.value == "") && s.localPath.None? ==> r == ""
  {
    if s.cloudPath.Some? && s.cloudPath.value != "" then "/" + s.cloudPath.value
    else if s.localPath.Some? then s.localPath.value
    else ""
  }

  /** The cloud path wins over the local one whenever it is non-empty; the result is empty only when no path is. */
  lemma MainPathPrefersCloud(s: Stall)
    ensures MainPath(s) == "" <==> (s.cloudPath.None? || s.cloudPath.value == "") && (s.localPath.None? || s.localPath.value == "")
    ensures s.cloudPath.Some? && s.cloudPath.value != "" ==> MainPath(s)[0] == '/' && MainPath(s)[1..] == s.cloudPath.value
  {
  }

  /** Whether the stalled state is news: the flag flipped, or it is still stalled and the SDK says the stalls changed. */
  predicate StallNews(remembered: bool, syncStalled: bool, syncStalledChanged: bool)
  {
    syncStalled != remembered || (syncStalled && syncStalledChanged)
  }

  /** A stall report repeated without a change is not news; a flip always is. */
  lemma StallNewsCases(remembered: bool, syncStalled: bool, syncStalledChanged: bool)
    ensures syncStalled != remembered ==> StallNews(remembered, syncStalled, syncStalledChanged)
    ensures !syncStalled && !remembered ==> !StallNews(remembered, syncStalled, syncStalledChanged)
    ensures syncStalled && remembered ==> (StallNews(remembered, syncStalled, syncStalledChanged) <==> syncStalledChanged)
  {
  }

  /** The list `populate…` builds: the i-th stall gets id i+1. */
  method NumberStalls(stalls: seq<Stall>) returns (issues: seq<Issue>)
    ensures |issues| == |stalls|
    ensures forall i :: 0 <= i < |issues| ==> issues[i] == Issue(i + 1, stalls[i])
  {
    issues := [];
    var i := 0;
    while i < |stalls|
      invariant 0 <= i <= |stalls| && |issues| == i
      invariant forall k :: 0 <= k < i ==> issues[k] == Issue(k + 1, stalls[k])
    {
      issues := issues + [Issue(i + 1, stalls[i])];
      i := i + 1;
    }
  }

  /** Numbered ids are distinct and increasing, so an id names one issue. */
  lemma NumberedIdsDistinct(issues: seq<Issue>, stalls: seq<Stall>, i: int, j: int)
    requires |issues| == |stalls|
    requires forall k :: 0 <= k < |issues| ==> issues[k] == Issue(k + 1, stalls[k])
    requires 0 <= i < j < |issues|
    ensures 1 <= issues[i].id < issues[j].id <= |issues|
  {
  }

  /** `StalledIssuesManager` of src/stalled_issues.cpp. */
  class StalledIssuesManager {
    var syncStalled: bool
    var stalledIssues: seq<Issue>

    constructor ()
      ensures !syncStalled && stalledIssues == []
    {
      syncStalled := false;
      stalledIssues := [];
    }

    /**
     * `onGlobalSyncStateChanged`: asks for the stall list only when the
     * stalled state is news, and remembers the new flag either way.
     */
    method OnGlobalSyncStateChanged(apiStalled: bool, apiStalledChanged: bool) returns (requestList: bool)
      modifies this
      ensures requestList == StallNews(old(syncStalled), apiStalled, apiStalledChanged)
      ensures syncStalled == apiStalled && stalledIssues == old(stalledIssues)
    {
      requestList := syncStalled != apiStalled || (apiStalled && apiStalledChanged);
      syncStalled := apiStalled;
    }

    /** `populateStalledIssues`: replaces the stored list. */
    method PopulateStalledIssues(stalls: seq<Stall>)
      modifies this
      ensures |stalledIssues| == |stalls|
      ensures forall i :: 0 <= i < |stalls| ==> stalledIssues[i] == Issue(i + 1, stalls[i])
      ensures syncStalled == old(syncStalled)
    {
      stalledIssues := NumberStalls(stalls);
    }

    /** `onRequestFinish`: a null list is ignored. */
    method OnRequestFinish(stalls: Option<seq<Stall>>)
      modifies this
      ensures stalls.None? ==> stalledIssues == old(stalledIssues)
      ensures stalls.Some? ==>
                |stalledIssues| == |stalls.value| &&
                forall i :: 0 <= i < |stalls.value| ==> stalledIssues[i] == Issue(i + 1, stalls.value[i])
      ensures syncStalled == old(syncStalled)
    {
      if stalls.None? {
        return;
      }
      PopulateStalledIssues(stalls.value);
    }
  }

  /**
   * `SyncIssuesManager` of src/sync_issues.cpp, with its global listener's
   * remembered flag. The listener's callback asks for the stall list, and the
   * request listener's callback populates the issues.
   */
  class SyncIssuesManager {
    var listenerSyncStalled: bool
    var syncIssues: seq<Issue>

    constructor ()
      ensures !listenerSyncStalled && syncIssues == []
    {
      listenerSyncStalled := false;
      syncIssues := [];
    }

    /**
     * `SyncIssuesGlobalListener::onGlobalSyncStateChanged`: nothing happens
     * while the SDK scans or waits; otherwise the callback fires on news, and
     * the flag is remembered only when it fired.
     */
    method OnGlobalSyncStateChanged(scanning: bool, waiting: bool, apiStalled: bool, apiStalledChanged: bool)
      returns (callbackFired: bool)
      modifies this
      ensures callbackFired == (!scanning && !waiting && StallNews(old(listenerSyncStalled), apiStalled, apiStalledChanged))
      ensures listenerSyncStalled == (if callbackFired then apiStalled else old(listenerSyncStalled))
      ensures syncIssues == old(syncIssues)
    {
      callbackFired := false;
      if scanning || waiting {
        return;
      }
      var changed := apiStalled != listenerSyncStalled || (apiStalled && apiStalledChanged);
      if !changed {
        return;
      }
      callbackFired := true;
      listenerSyncStalled := apiStalled;
    }

    /** `populateSyncIssues`. */
    method PopulateSyncIssues(stalls: seq<Stall>)
      modifies this
      ensures |syncIssues| == |stalls|
      ensures forall i :: 0 <= i < |stalls| ==> syncIssues[i] == Issue(i + 1, stalls[i])
      ensures listenerSyncStalled == old(listenerSyncStalled)
    {
      syncIssues := NumberStalls(stalls);
    }

    /** `SyncIssuesRequestListener::onRequestFinish`: a null list is ignored. */
    method OnRequestFinish(stalls: Option<seq<Stall>>)
      modifies this
      ensures stalls.None? ==> syncIssues == old(syncIssues)
      ensures stalls.Some? ==>
                |syncIssues| == |stalls.value| &&
                forall i :: 0 <= i < |stalls.value| ==> syncIssues[i] == Issue(i + 1, stalls.value[i])
      ensures listenerSyncStalled == old(listenerSyncStalled)
    {
      if stalls.None? {
        return;
      }
      PopulateSyncIssues(stalls.value);
    }
  }

  /**
   * The newer listener differs from the older manager in one way: a report
   * that arrives while scanning or waiting is neither acted on nor remembered,
   * so once scanning ends the same flip is still news.
   */
  lemma ScanningDefersNews(remembered: bool, apiStalled: bool, apiStalledChanged: bool)
    requires apiStalled != remembered
    ensures StallNews(remembered, apiStalled, apiStalledChanged)
    ensures !StallNews(apiStalled, apiStalled, false)
  {
  }
}
