/**
 * The sync command helpers of src/sync_command.cpp: the trailing separator
 * rule, the ERROR column of a sync line, how a sync is looked up from the
 * text the user typed, what `addSync` refuses before asking the SDK, and
 * which request and message `modifySync` produces.
 */
module SyncCommand {
  import opened Wrappers
  import opened Text
  import MegaCmdUtils
  import MegaCmdCodes

  // ---------------------------------------------------------------- paths

  predicate IsSeparator(c: char)
  {
    c == '/' || c == '\\'
  }

  /** `withoutTrailingSeparator`: at most one '/' or '\' is dropped from the end. */
  function WithoutTrailingSeparator(str: string): (r: string)
    ensures |str| > 0 && IsSeparator(str[|str| - 1]) ==> r + [str[|str| - 1]] == str
    ensures !(|str| > 0 && IsSeparator(str[|str| - 1])) ==> r == str
  {
    if |str| > 0 && IsSeparator(str[|str| - 1]) then str[..|str| - 1] else str
  }

  /** The result is a prefix of the path, shorter by at most one character, and only a separator is lost. */
  lemma AtMostOneSeparator(str: string)
    ensures var r := WithoutTrailingSeparator(str);
      r <= str && |str| - 1 <= |r| && (|r| < |str| ==> IsSeparator(str[|r|]))
  {
  }

  /** One call does not strip a doubled separator: "p//" becomes "p/", and only a second call gives "p". */
  lemma DoubledSeparatorKeepsOne(p: string, c: char, d: char)
    requires IsSeparator(c) && IsSeparator(d)
    ensures WithoutTrailingSeparator(p + [c, d]) == p + [c]
    ensures WithoutTrailingSeparator(WithoutTrailingSeparator(p + [c, d])) == p
  {
    assert (p + [c, d])[..|p| + 1] == p + [c];
    assert (p + [c])[..|p|] == p;
  }

  // ---------------------------------------------------------------- the ERROR column

  /** The unsigned issue count read back as the `int` parameter of `printSingleSync`. */
  function AsInt32(n: nat): (r: int)
    requires n < 0x1_0000_0000
    ensures n < 0x8000_0000 ==> r == n
    ensures n >= 0x8000_0000 ==> r < 0
  {
    if n < 0x8000_0000 then n else n - 0x1_0000_0000
  }

  /**
   * The ERROR cell of a sync line: the sync's own error code text when it has
   * an error, otherwise "NO" or the number of its sync issues.
   */
  function ErrorColumn(syncError: int, megaSyncErrorCode: string, syncIssueCount: nat): (r: string)
    requires syncIssueCount < 0x1_0000_0000
  {
    if syncError != 0 then megaSyncErrorCode
    else if AsInt32(syncIssueCount) > 0 then "Sync Issues (" + IntToString(AsInt32(syncIssueCount)) + ")"
    else "NO"
  }

  /** A sync in error shows its code; otherwise "NO" exactly when there are no issues (within the signed range), and the count otherwise. */
  lemma ErrorColumnCases(syncError: int, code: string, count: nat)
    requires count < 0x8000_0000
    ensures syncError != 0 ==> ErrorColumn(syncError, code, count) == code
    ensures syncError == 0 && count == 0 ==> ErrorColumn(syncError, code, count) == "NO"
    ensures syncError == 0 && count > 0 ==> ErrorColumn(syncError, code, count) == "Sync Issues (" + NatToString(count) + ")"
  {
  }

  /** An issue count past the signed range reads as negative, and the column then shows "NO". */
  lemma HugeCountShowsNo(count: nat)
    requires 0x8000_0000 <= count < 0x1_0000_0000
    ensures ErrorColumn(0, "", count) == "NO"
  {
  }

  // ---------------------------------------------------------------- getSync

  /** A configured sync: its backup id and local folder. */
  datatype Sync = Sync(backupId: nat, localFolder: string)

  /** `getSyncByBackupId`: the first sync with the id. */
  function ById(syncs: seq<Sync>, id: nat): (r: Option<Sync>)
    ensures r.Some? ==> r.value in syncs && r.value.backupId == id
    ensures r.None? ==> forall s :: s in syncs ==> s.backupId != id
  {
    if |syncs| == 0 then None else if syncs[0].backupId == id then Some(syncs[0]) else ById(syncs[1..], id)
  }

  /** `getSyncByPath`: the first sync with the local folder. */
  function ByPath(syncs: seq<Sync>, path: string): (r: Option<Sync>)
    ensures r.Some? ==> r.value in syncs && r.value.localFolder == path
    ensures r.None? ==> forall s :: s in syncs ==> s.localFolder != path
  {
    if |syncs| == 0 then None else if syncs[0].localFolder == path then Some(syncs[0]) else ByPath(syncs[1..], path)
  }

  /**
   * `getSync(pathOrId)`: decodedId is what the text decodes to as a base64 backup
   * id (None when it is not one); the id is tried first, then the path.
   */
  function GetSync(syncs: seq<Sync>, pathOrId: string, decodedId: Option<nat>): Option<Sync>
  {
    var byId := if decodedId.Some? then ById(syncs, decodedId.value) else None;
    if byId.Some? then byId else ByPath(syncs, pathOrId)
  }

  /** A matching backup id wins over a matching path; the path is used only when no sync has the id. */
  lemma GetSyncOrder(syncs: seq<Sync>, pathOrId: string, decodedId: Option<nat>)
    ensures var r := GetSync(syncs, pathOrId, decodedId);
      (decodedId.Some? && (exists s :: s in syncs && s.backupId == decodedId.value) ==>
         r.Some? && r.value.backupId == decodedId.value) &&
      ((decodedId.None? || forall s :: s in syncs ==> s.backupId != decodedId.value) ==>
         r == ByPath(syncs, pathOrId)) &&
      (r.None? <==> (decodedId.None? || forall s :: s in syncs ==> s.backupId != decodedId.value) &&
                    forall s :: s in syncs ==> s.localFolder != pathOrId)
  {
  }

  // ---------------------------------------------------------------- addSync

  datatype NodeKind = FileNode | FolderNode

  /** What `addSync` does first: refuse with an out code, or ask the SDK for a two-way sync of the node. */
  datatype AddStep = Refused(outCode: int) | RequestTwoWay(localPath: string, handle: nat)

  function AddSync(localPath: string, kind: NodeKind, access: int, handle: nat): (r: AddStep)
    ensures r.Refused? <==> kind == FileNode || access < MegaCmdUtils.ACCESS_FULL
    ensures r.Refused? ==> r.outCode == MegaCmdCodes.MCMD_NOTPERMITTED
    ensures r.RequestTwoWay? ==> r == RequestTwoWay(localPath, handle)
  {
    if kind == FileNode then Refused(MegaCmdCodes.MCMD_NOTPERMITTED)
    else if access < MegaCmdUtils.ACCESS_FULL then Refused(MegaCmdCodes.MCMD_NOTPERMITTED)
    else RequestTwoWay(localPath, handle)
  }

  /** Only a folder with full or owner access is ever synced. */
  lemma AddSyncNeedsFullFolder(localPath: string, kind: NodeKind, access: int, handle: nat)
    requires AddSync(localPath, kind, access, handle).RequestTwoWay?
    ensures kind == FolderNode && (access == MegaCmdUtils.ACCESS_FULL || access >= MegaCmdUtils.ACCESS_OWNER)
  {
  }

  // ---------------------------------------------------------------- modifySync

  datatype ModifyOpts = Stop | Resume | Remove

  datatype RunState = RunStateRunning | RunStateSuspended

  /** The request `modifySync` sends for a sync's backup id. */
  datatype SyncRequest = RemoveSync(backupId: nat) | SetSyncRunState(backupId: nat, state: RunState)

  function ModifyRequest(opts: ModifyOpts, backupId: nat): (r: SyncRequest)
    ensures r.backupId == backupId
    ensures r.RemoveSync? <==> opts == Remove
    ensures opts == Stop ==> r == SetSyncRunState(backupId, RunStateSuspended)
    ensures opts == Resume ==> r == SetSyncRunState(backupId, RunStateRunning)
  {
    if opts == Remove then RemoveSync(backupId)
    else SetSyncRunState(backupId, if opts == Stop then RunStateSuspended else RunStateRunning)
  }

  /** Where a line of `modifySync` goes. */
  datatype Channel = Out | InfoLog | ErrorLog

  datatype Report = Report(channel: Channel, text: string)

  /**
   * The line `modifySync` writes once the request finishes: errorStr is the
   * request's error text ("" on success) and syncId the sync's base64 id.
   */
  function ModifyReport(opts: ModifyOpts, errorStr: string, syncId: string, localFolder: string, remoteFolder: string): Report
  {
    if opts == Remove then
      if errorStr == "" then Report(Out, "Sync removed: " + localFolder + " to " + remoteFolder + "\n")
      else Report(ErrorLog, "Failed to remove sync " + syncId + " (error: " + errorStr + ")")
    else if errorStr == "" then
      Report(InfoLog, "Sync " + (if opts == Stop then "disabled" else "re-enabled") + ": " + localFolder + " to " + remoteFolder)
    else
      Report(ErrorLog, "Failed to " + (if opts == Stop then "disable" else "re-enable") + " sync " + syncId + " (error: " + errorStr + ")")
  }

  /** A failure always goes to the error log and names the sync and the error; only a removal reports on the output. */
  lemma ModifyReportChannels(opts: ModifyOpts, errorStr: string, syncId: string, l: string, rm: string)
    ensures var r := ModifyReport(opts, errorStr, syncId, l, rm);
      (errorStr != "" <==> r.channel == ErrorLog) &&
      (r.channel == Out <==> opts == Remove && errorStr == "")
  {
  }
}
