/**
 * The FUSE mount helpers of src/megacmd_fuse.cpp: the default mount name,
 * the flags a new mount gets, which changes are remembered, mount lookup by
 * name or path, and how a configuration delta changes a mount's flags.
 * The SDK's mount list is a sequence of records.
 */
module FuseMounts {
  import opened Wrappers

  // ---------------------------------------------------------------- names and flags

  datatype NodeKind = FileNode | FolderNode | RootNode | RubbishNode | VaultNode | UnknownNode

  /** `getDefaultNodeName`. */
  function DefaultNodeName(kind: NodeKind, nodeName: string): (r: string)
    ensures kind == FileNode || kind == FolderNode ==> r == nodeName
    ensures kind == RootNode ==> r == "MEGA"
    ensures kind == RubbishNode ==> r == "MEGA Rubbish"
    ensures kind == VaultNode ==> r == "MEGA Vault"
    ensures kind == UnknownNode ==> r == "<unknown>"
  {
    match kind
    case FileNode => nodeName
    case FolderNode => nodeName
    case RootNode => "MEGA"
    case RubbishNode => "MEGA Rubbish"
    case VaultNode => "MEGA Vault"
    case UnknownNode => "<unknown>"
  }

  /** A mount as the SDK lists it. */
  datatype MountRecord = MountRecord(handle: nat, path: string, name: string,
                                     readOnly: bool, enableAtStartup: bool, persistent: bool)

  /** A mount object whose flags are set in place. */
  class Mount {
    var handle: nat
    var path: string
    var name: string
    var readOnly: bool
    var enableAtStartup: bool
    var persistent: bool

    function Record(): MountRecord
      reads this
    {
      MountRecord(handle, path, name, readOnly, enableAtStartup, persistent)
    }

    /** `MegaMount::create`: a mount with no name and every flag clear. */
    constructor ()
      ensures Record() == MountRecord(0, "", "", false, false, false)
    {
      handle, path, name := 0, "", "";
      readOnly, enableAtStartup, persistent := false, false, false;
    }

    /** Startup mounting only makes sense for a mount that is remembered. */
    predicate StartupConsistent()
      reads this
    {
      enableAtStartup ==> persistent
    }

    /**
     * `changeConfig`: every flag present in the delta is overwritten, every
     * absent flag is kept. The delta must set something and must not ask for
     * startup mounting of a mount it makes transient.
     */
    method ChangeConfig(delta: ConfigDelta)
      requires IsAnyFlagSet(delta) && !IsPersistentStartupInvalid(delta)
      modifies this
      ensures enableAtStartup == (if delta.enableAtStartup.Some? then delta.enableAtStartup.value else old(enableAtStartup))
      ensures persistent == (if delta.persistent.Some? then delta.persistent.value else old(persistent))
      ensures readOnly == (if delta.readOnly.Some? then delta.readOnly.value else old(readOnly))
      ensures name == (if delta.name.Some? then delta.name.value else old(name))
      ensures handle == old(handle) && path == old(path)
    {
      if delta.enableAtStartup.Some? {
        enableAtStartup := delta.enableAtStartup.value;
      }
      if delta.persistent.Some? {
        persistent := delta.persistent.value;
      }
      if delta.readOnly.Some? {
        readOnly := delta.readOnly.value;
      }
      if delta.name.Some? {
        name := delta.name.value;
      }
    }
  }

  /**
   * `createMount`: an empty name defaults from the node; the mount is
   * remembered unless transient and mounted at startup unless transient or
   * disabled.
   */
  method CreateMount(localPath: string, nodeHandle: nat, kind: NodeKind, nodeName: string,
                     disabled: bool, transient: bool, readOnly: bool, name: string) returns (m: Mount)
    ensures fresh(m)
    ensures m.Record() == MountRecord(nodeHandle, localPath, if name == "" then DefaultNodeName(kind, nodeName) else name,
                                      readOnly, !transient && !disabled, !transient)
    ensures m.StartupConsistent()
  {
    m := new Mount();
    m.handle := nodeHandle;
    m.path := localPath;
    var n := name;
    if n == "" {
      n := DefaultNodeName(kind, nodeName);
    }
    m.name := n;
    m.readOnly := readOnly;
    m.enableAtStartup := !transient && !disabled;
    m.persistent := !transient;
  }

  /** `shouldRememberChange`: only a persistent mount remembers, and only a change not made temporarily. */
  function ShouldRememberChange(persistent: bool, temporarily: bool): (r: bool)
    ensures r <==> persistent && !temporarily
  {
    if !persistent then false else !temporarily
  }

  // ---------------------------------------------------------------- configuration deltas

  /** The flags a `fuse-config` call names; absent ones are left alone. */
  datatype ConfigDelta = ConfigDelta(enableAtStartup: Option<bool>, persistent: Option<bool>,
                                     readOnly: Option<bool>, name: Option<string>)

  /** `isAnyFlagSet`. */
  predicate IsAnyFlagSet(d: ConfigDelta)
  {
    d.enableAtStartup.Some? || d.persistent.Some? || d.readOnly.Some? || d.name.Some?
  }

  /** `isPersistentStartupInvalid`. */
  predicate IsPersistentStartupInvalid(d: ConfigDelta)
  {
    var enableAtStartup := d.enableAtStartup.Some? && d.enableAtStartup.value;
    var transient := d.persistent.Some? && !d.persistent.value;
    enableAtStartup && transient
  }

  /** The delta predicates in terms of the fields: invalid iff startup is set true and persistence set false; empty iff no field is present. */
  lemma DeltaPredicates(d: ConfigDelta)
    ensures IsPersistentStartupInvalid(d) <==> d.enableAtStartup == Some(true) && d.persistent == Some(false)
    ensures !IsAnyFlagSet(d) <==> d == ConfigDelta(None, None, None, None)
  {
  }

  /**
   * The validity check looks only at the delta: any delta that turns on
   * startup mounting without naming persistence passes it, and applied to any
   * transient mount leaves startup on for a mount that is not remembered.
   * Whether the SDK then accepts the flags is outside this model.
   */
  method StartupOnTransientMount(m: Mount, delta: ConfigDelta)
    requires !m.persistent && delta.enableAtStartup == Some(true) && delta.persistent.None?
    modifies m
    ensures IsAnyFlagSet(delta) && !IsPersistentStartupInvalid(delta)
    ensures m.enableAtStartup && !m.persistent && !m.StartupConsistent()
  {
    m.ChangeConfig(delta);
  }

  // ---------------------------------------------------------------- lookups

  /** The listed mounts at a path, in list order. */
  function PathMatches(ms: seq<MountRecord>, path: string): seq<MountRecord>
  {
    if |ms| == 0 then []
    else PathMatches(ms[..|ms| - 1], path) + (if ms[|ms| - 1].path == path then [ms[|ms| - 1]] else [])
  }

  /** Every match is a listed mount at the path. */
  lemma {:induction false} PathMatchesSound(ms: seq<MountRecord>, path: string, m: MountRecord)
    requires m in PathMatches(ms, path)
    ensures m in ms && m.path == path
  {
    var last := ms[|ms| - 1];
    if m in PathMatches(ms[..|ms| - 1], path) {
      PathMatchesSound(ms[..|ms| - 1], path, m);
      assert ms == ms[..|ms| - 1] + [last];
    }
  }

  /** Extending the list keeps the earlier matches as a prefix. */
  lemma {:induction false} PathMatchesPrefix(ms: seq<MountRecord>, path: string, i: nat)
    requires i <= |ms|
    ensures PathMatches(ms[..i], path) <= PathMatches(ms, path)
    decreases |ms| - i
  {
    if i < |ms| {
      PathMatchesPrefix(ms, path, i + 1);
      assert ms[..i + 1][..i] == ms[..i];
    } else {
      assert ms[..i] == ms;
    }
  }

  /** One more listed mount adds itself to the matches when it is at the path. */
  lemma PathMatchesStep(ms: seq<MountRecord>, path: string, i: nat)
    requires i < |ms|
    ensures PathMatches(ms[..i + 1], path) == PathMatches(ms[..i], path) + (if ms[i].path == path then [ms[i]] else [])
  {
    assert ms[..i + 1][..i] == ms[..i];
  }

  /** Every mount at the path is among the matches. */
  lemma {:induction false} PathMatchesComplete(ms: seq<MountRecord>, path: string, m: MountRecord)
    requires m in ms && m.path == path
    ensures m in PathMatches(ms, path)
  {
    var last := ms[|ms| - 1];
    if m != last {
      assert m in ms[..|ms| - 1] by {
        assert ms == ms[..|ms| - 1] + [last];
      }
      PathMatchesComplete(ms[..|ms| - 1], path, m);
    }
  }

  /**
   * `getMountByPath`: the mount at the path when exactly one is listed; a
   * second match sets clash and finds nothing. A missing list finds nothing.
   */
  method GetMountByPath(mounts: Option<seq<MountRecord>>, path: string) returns (found: Option<MountRecord>, clash: bool)
    ensures mounts.None? ==> found.None? && !clash
    ensures mounts.Some? ==> (clash <==> |PathMatches(mounts.value, path)| >= 2)
    ensures mounts.Some? && |PathMatches(mounts.value, path)| == 1 ==> found == Some(PathMatches(mounts.value, path)[0])
    ensures mounts.Some? && |PathMatches(mounts.value, path)| != 1 ==> found.None?
  {
    clash := false;
    found := None;
    if mounts.None? {
      return;
    }
    var ms := mounts.value;
    var i := 0;
    while i < |ms|
      invariant 0 <= i <= |ms|
      invariant |PathMatches(ms[..i], path)| <= 1
      invariant found == (if |PathMatches(ms[..i], path)| == 0 then None else Some(PathMatches(ms[..i], path)[0]))
    {
      PathMatchesStep(ms, path, i);
      if ms[i].path == path {
        if found.None? {
          found := Some(ms[i]);
        } else {
          PathMatchesPrefix(ms, path, i + 1);
          clash := true;
          found := None;
          return;
        }
      }
      i := i + 1;
    }
    assert ms[..i] == ms;
  }

  /** `getMountInfo(name)`: the first mount with the name. */
  function ByName(ms: seq<MountRecord>, name: string): (r: Option<MountRecord>)
    ensures r.Some? ==> r.value in ms && r.value.name == name
    ensures r.None? ==> forall m :: m in ms ==> m.name != name
  {
    if |ms| == 0 then None else if ms[0].name == name then Some(ms[0]) else ByName(ms[1..], name)
  }

  datatype MountLookup = Found(mount: MountRecord) | Clash | NoMount

  /** `getMountByNameOrPath`: the name is tried first, then the path; a clash and a miss are told apart. */
  method GetMountByNameOrPath(mounts: Option<seq<MountRecord>>, identifier: string) returns (r: MountLookup)
    ensures mounts.Some? && ByName(mounts.value, identifier).Some? ==> r == Found(ByName(mounts.value, identifier).value)
    ensures r.Found? ==> mounts.Some? && r.mount in mounts.value && (r.mount.name == identifier || r.mount.path == identifier)
    ensures r.Clash? <==> mounts.Some? && ByName(mounts.value, identifier).None? && |PathMatches(mounts.value, identifier)| >= 2
    ensures r.NoMount? ==> mounts.None? || forall m :: m in mounts.value ==> m.name != identifier && m.path != identifier
  {
    if mounts.Some? {
      var byName := ByName(mounts.value, identifier);
      if byName.Some? {
        return Found(byName.value);
      }
    }
    var found, clash := GetMountByPath(mounts, identifier);
    if clash {
      r := Clash;
    } else if found.Some? {
      PathMatchesSound(mounts.value, identifier, found.value);
      r := Found(found.value);
    } else {
      r := NoMount;
      if mounts.Some? {
        forall m | m in mounts.value
          ensures m.name != identifier && m.path != identifier
        {
          if m.path == identifier {
            PathMatchesComplete(mounts.value, identifier, m);
          }
        }
      }
    }
  }
}
