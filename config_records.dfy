/**
 * The binary `syncs` and `backups` files of configurationmanager.cpp:
 * `saveSyncs` writes one record per configured sync, `loadsyncs` reads them
 * back into a map keyed by local path, and `loadbackups` reads the backup
 * records with its length filter.
 *
 * A file is a sequence of bytes; reading keeps the bytes not read yet (the
 * ifstream's remaining input). Fixed-size fields are the raw little-endian
 * bytes of the value (long long and MegaHandle 8 bytes, int 4, size_t 8),
 * signed values in two's complement. The map being saved is given as the
 * sequence of its entries in iteration order.
 */
module ConfigurationRecords {
  import opened Wrappers
  import opened TransferManager

  /** The legacy format's implicit version, and the threshold above which a record carries a fingerprint after its version. */
  const LEGACY_VERSION: int := 90500

  // ---------------------------------------------------------------- fixed-size fields

  /** The raw bytes of a signed value of w bytes. */
  function Unsigned(v: int, w: nat): (u: nat)
    ensures u < Pow256(w)
  {
    v % Pow256(w)
  }

  /** The signed value w raw bytes hold. */
  function Signed(u: nat, w: nat): int
  {
    if 2 * u >= Pow256(w) then u - Pow256(w) else u
  }

  predicate InRange(v: int, w: nat)
  {
    var p: int := Pow256(w);
    -p <= 2 * v < p
  }

  lemma SignedOfUnsigned(v: int, w: nat)
    requires InRange(v, w)
    ensures Signed(Unsigned(v, w), w) == v
  {
    var p: int := Pow256(w);
    if v < 0 {
      ModShift(v, p);
    } else {
      ModSmall(v, p);
    }
  }

  lemma ModSmall(x: int, p: int)
    requires 0 <= x < p
    ensures x % p == x
  {
  }

  lemma ModShift(x: int, p: int)
    requires -p <= x < 0
    ensures x % p == x + p
  {
    assert x == (-1) * p + (x + p);
  }

  /** `fi.read` of w bytes: the value and what follows, or None when fewer remain. */
  function ReadRaw(s: seq<byte>, w: nat): (r: Option<(nat, seq<byte>)>)
    ensures r.Some? ==> |r.value.1| == |s| - w
  {
    if |s| < w then None else Some((Value(s[..w]), s[w..]))
  }

  lemma ReadRawOf(v: nat, w: nat, rest: seq<byte>)
    requires v < Pow256(w)
    ensures ReadRaw(Raw(v, w) + rest, w) == Some((v, rest))
  {
    var s := Raw(v, w) + rest;
    assert s[..w] == Raw(v, w) && s[w..] == rest;
    ValueOfRaw(v, w);
  }

  /** `fi.read` of n characters into a string. */
  function ReadBytes(s: seq<byte>, n: nat): (r: Option<(seq<byte>, seq<byte>)>)
  {
    if |s| < n then None else Some((s[..n], s[n..]))
  }

  lemma ReadBytesOf(x: seq<byte>, rest: seq<byte>)
    ensures ReadBytes(x + rest, |x|) == Some((x, rest))
  {
    assert (x + rest)[..|x|] == x && (x + rest)[|x|..] == rest;
  }

  // ---------------------------------------------------------------- syncs

  /** The persisted part of a sync_struct. */
  datatype SyncConfig = SyncConfig(fingerprint: int, handle: nat, localpath: seq<byte>)

  /** A record the format can hold. */
  predicate Storable(s: SyncConfig)
  {
    InRange(s.fingerprint, 8) && s.handle < Pow256(8) && |s.localpath| < Pow256(SIZE_T)
  }

  /**
   * One `saveSyncs` record in front of `rest`: control value, version,
   * fingerprint, handle, path length and path bytes.
   */
  function EncodedSyncThen(s: SyncConfig, control: int, version: int, rest: seq<byte>): seq<byte>
  {
    Raw(Unsigned(control, 8), 8) + (Raw(Unsigned(version, 4), 4) + (Raw(Unsigned(s.fingerprint, 8), 8) +
      (Raw(s.handle, 8) + (Raw(|s.localpath|, SIZE_T) + (s.localpath + rest)))))
  }

  function EncodedSync(s: SyncConfig, control: int, version: int): seq<byte>
  {
    EncodedSyncThen(s, control, version, [])
  }

  lemma EncodedSyncAppend(s: SyncConfig, control: int, version: int, rest: seq<byte>)
    ensures EncodedSync(s, control, version) + rest == EncodedSyncThen(s, control, version, rest)
  {
    assert s.localpath + [] == s.localpath;
  }

  /** The whole `syncs` file `saveSyncs` writes for the entries in map order. */
  function EncodedSyncs(syncs: seq<SyncConfig>, control: int, version: int): seq<byte>
  {
    if syncs == [] then [] else EncodedSyncThen(syncs[0], control, version, EncodedSyncs(syncs[1..], control, version))
  }

  /** `saveSyncs` (src/configurationmanager.cpp:315-361): one record per sync, in map order. */
  method SaveSyncs(syncs: seq<SyncConfig>, control: int, version: int) returns (file: seq<byte>)
    ensures file == EncodedSyncs(syncs, control, version)
  {
    file := [];
    var i := 0;
    while i < |syncs|
      invariant 0 <= i <= |syncs|
      invariant file + EncodedSyncs(syncs[i..], control, version) == EncodedSyncs(syncs, control, version)
    {
      var s := syncs[i];
      assert syncs[i..][1..] == syncs[i + 1..];
      EncodedSyncAppend(s, control, version, EncodedSyncs(syncs[i + 1..], control, version));
      var record := WriteSync(s, control, version);
      AppendRecord(file, record, EncodedSyncs(syncs[i + 1..], control, version), EncodedSyncs(syncs, control, version));
      file := file + record;
      i := i + 1;
    }
  }

  lemma AppendRecord(file: seq<byte>, record: seq<byte>, rest: seq<byte>, whole: seq<byte>)
    requires file + (record + rest) == whole
    ensures (file + record) + rest == whole
  {
  }

  /** The writes of one record. */
  method WriteSync(s: SyncConfig, control: int, version: int) returns (out: seq<byte>)
    ensures out == EncodedSync(s, control, version)
  {
    out := Raw(Unsigned(control, 8), 8);
    out := out + Raw(Unsigned(version, 4), 4);
    out := out + Raw(Unsigned(s.fingerprint, 8), 8);
    out := out + Raw(s.handle, 8);
    out := out + Raw(|s.localpath|, SIZE_T);
    out := out + s.localpath;
  }

  /**
   * One `loadsyncs` record: a first long long, which is the control value
   * of a versioned record and the fingerprint of a legacy one; the version
   * (90500 for legacy records); the fingerprint again when the version
   * exceeds 90500; handle, path length and path. None when the input ends
   * inside the record.
   */
  function ReadSync(s: seq<byte>, control: int): (r: Option<(SyncConfig, int, seq<byte>)>)
    ensures r.Some? ==> |r.value.2| < |s|
  {
    match ReadRaw(s, 8)
    case None => None
    case Some((first, s1)) =>
      var versioned := Signed(first, 8) == control;
      var v := if versioned then ReadRaw(s1, 4) else Some((Unsigned(LEGACY_VERSION, 4), s1));
      match v
      case None => None
      case Some((uv, s2)) =>
        var version := if versioned then Signed(uv, 4) else LEGACY_VERSION;
        var f := if version > LEGACY_VERSION then ReadRaw(s2, 8) else Some((first, s2));
        match f
        case None => None
        case Some((fp, s3)) =>
          match ReadRaw(s3, 8)
          case None => None
          case Some((handle, s4)) =>
            match ReadRaw(s4, SIZE_T)
            case None => None
            case Some((len, s5)) =>
              match ReadBytes(s5, len)
              case None => None
              case Some((path, s6)) => Some((SyncConfig(Signed(fp, 8), handle, path), version, s6))
  }

  /** Map insertion in record order: a later record for the same path replaces the earlier one. */
  function Loaded(m: map<seq<byte>, SyncConfig>, syncs: seq<SyncConfig>): map<seq<byte>, SyncConfig>
    decreases |syncs|
  {
    if syncs == [] then m else Loaded(m[syncs[0].localpath := syncs[0]], syncs[1..])
  }

  /** What the `loadsyncs` loop ends with: the map, whether a re-save is due, and whether the input ended inside a record. */
  datatype LoadResult = LoadResult(syncs: map<seq<byte>, SyncConfig>, resave: bool, truncated: bool)

  function LoadSyncsFrom(s: seq<byte>, control: int, current: int, m: map<seq<byte>, SyncConfig>, resave: bool): LoadResult
    decreases |s|
  {
    if s == [] then LoadResult(m, resave, false)
    else
      match ReadSync(s, control)
      case None => LoadResult(m, resave, true)
      case Some((sync, version, rest)) =>
        LoadSyncsFrom(rest, control, current, m[sync.localpath := sync], resave || version != current)
  }

  /**
   * `loadsyncs` (src/configurationmanager.cpp:522-595) over the bytes of
   * the `syncs` file, with the running version `current`; `resave` is when
   * it calls saveSyncs again.
   */
  method LoadSyncs(file: seq<byte>, control: int, current: int) returns (r: LoadResult)
    ensures r == LoadSyncsFrom(file, control, current, map[], false)
  {
    var rest := file;
    var m: map<seq<byte>, SyncConfig> := map[];
    var resave := false;
    r := LoadResult(m, resave, false);
    while rest != []
      invariant LoadSyncsFrom(rest, control, current, m, resave) == LoadSyncsFrom(file, control, current, map[], false)
      decreases |rest|
    {
      var record := ReadSync(rest, control);
      if record.None? {
        return LoadResult(m, resave, true);
      }
      var (sync, version, after) := record.value;
      m := m[sync.localpath := sync];
      if version != current {
        resave := true;
      }
      rest := after;
    }
    r := LoadResult(m, resave, false);
  }

  /** A record saved with a version above 90500 reads back field for field. */
  lemma ReadSyncOf(s: SyncConfig, control: int, version: int, rest: seq<byte>)
    requires Storable(s) && InRange(control, 8) && InRange(version, 4) && version > LEGACY_VERSION
    ensures ReadSync(EncodedSyncThen(s, control, version, rest), control) == Some((s, version, rest))
  {
    var tail4 := Raw(|s.localpath|, SIZE_T) + (s.localpath + rest);
    var tail3 := Raw(s.handle, 8) + tail4;
    var tail2 := Raw(Unsigned(s.fingerprint, 8), 8) + tail3;
    var tail1 := Raw(Unsigned(version, 4), 4) + tail2;
    ReadRawOf(Unsigned(control, 8), 8, tail1);
    SignedOfUnsigned(control, 8);
    ReadRawOf(Unsigned(version, 4), 4, tail2);
    SignedOfUnsigned(version, 4);
    ReadRawOf(Unsigned(s.fingerprint, 8), 8, tail3);
    SignedOfUnsigned(s.fingerprint, 8);
    ReadRawOf(s.handle, 8, tail4);
    ReadRawOf(|s.localpath|, SIZE_T, s.localpath + rest);
    ReadBytesOf(s.localpath, rest);
  }

  /**
   * With a version of 90500 or less the fingerprint is not read again, so
   * the record is misread: the saved fingerprint becomes the handle.
   */
  lemma ReadSyncOldVersion(s: SyncConfig, control: int, version: int, rest: seq<byte>)
    requires Storable(s) && InRange(control, 8) && InRange(version, 4) && version <= LEGACY_VERSION
    ensures var r := ReadSync(EncodedSyncThen(s, control, version, rest), control);
      r.Some? ==> r.value.0.handle == Unsigned(s.fingerprint, 8) && r.value.0.fingerprint == control
  {
    var tail4 := Raw(|s.localpath|, SIZE_T) + (s.localpath + rest);
    var tail3 := Raw(s.handle, 8) + tail4;
    var tail2 := Raw(Unsigned(s.fingerprint, 8), 8) + tail3;
    var tail1 := Raw(Unsigned(version, 4), 4) + tail2;
    ReadRawOf(Unsigned(control, 8), 8, tail1);
    SignedOfUnsigned(control, 8);
    ReadRawOf(Unsigned(version, 4), 4, tail2);
    SignedOfUnsigned(version, 4);
    ReadRawOf(Unsigned(s.fingerprint, 8), 8, tail3);
  }

  lemma EncodedSyncLonger(s: SyncConfig, control: int, version: int, rest: seq<byte>)
    ensures |rest| < |EncodedSyncThen(s, control, version, rest)|
  {
  }

  /** `loadsyncs` reads back what `saveSyncs` wrote, re-saving exactly when the version differs from the running one. */
  lemma {:induction false} LoadSyncsRoundTrip(syncs: seq<SyncConfig>, control: int, version: int, current: int,
                                               m: map<seq<byte>, SyncConfig>, resave: bool)
    requires forall k :: 0 <= k < |syncs| ==> Storable(syncs[k])
    requires InRange(control, 8) && InRange(version, 4) && version > LEGACY_VERSION
    ensures LoadSyncsFrom(EncodedSyncs(syncs, control, version), control, current, m, resave) ==
            LoadResult(Loaded(m, syncs), resave || (syncs != [] && version != current), false)
    decreases |syncs|
  {
    if syncs != [] {
      var rest := EncodedSyncs(syncs[1..], control, version);
      ReadSyncOf(syncs[0], control, version, rest);
      EncodedSyncLonger(syncs[0], control, version, rest);
      LoadSyncsRoundTrip(syncs[1..], control, version, current, m[syncs[0].localpath := syncs[0]], resave || version != current);
    }
  }

  /** The last record for a path is the one the map holds. */
  lemma {:induction false} LoadedLastWins(m: map<seq<byte>, SyncConfig>, syncs: seq<SyncConfig>, k: nat)
    requires k < |syncs|
    requires forall j :: k < j < |syncs| ==> syncs[j].localpath != syncs[k].localpath
    ensures syncs[k].localpath in Loaded(m, syncs) && Loaded(m, syncs)[syncs[k].localpath] == syncs[k]
    decreases |syncs|
  {
    var m' := m[syncs[0].localpath := syncs[0]];
    if k > 0 {
      forall j | k - 1 < j < |syncs| - 1
        ensures syncs[1..][j].localpath != syncs[1..][k - 1].localpath
      {
        assert syncs[1..][j] == syncs[j + 1];
      }
      LoadedLastWins(m', syncs[1..], k - 1);
    } else {
      LoadedUntouched(m', syncs[1..], syncs[0].localpath);
    }
  }

  /** A path no record names keeps what the map held. */
  lemma {:induction false} LoadedUntouched(m: map<seq<byte>, SyncConfig>, syncs: seq<SyncConfig>, p: seq<byte>)
    requires forall k :: 0 <= k < |syncs| ==> syncs[k].localpath != p
    ensures p in Loaded(m, syncs) <==> p in m
    ensures p in m ==> Loaded(m, syncs)[p] == m[p]
    decreases |syncs|
  {
    if syncs != [] {
      forall k | 0 <= k < |syncs[1..]|
        ensures syncs[1..][k].localpath != p
      {
        assert syncs[1..][k] == syncs[k + 1];
      }
      LoadedUntouched(m[syncs[0].localpath := syncs[0]], syncs[1..], p);
    }
  }

  /** Every record's path is in the map. */
  lemma {:induction false} LoadedHasAll(m: map<seq<byte>, SyncConfig>, syncs: seq<SyncConfig>, k: nat)
    requires k < |syncs|
    ensures syncs[k].localpath in Loaded(m, syncs)
    decreases |syncs|
  {
    var m' := m[syncs[0].localpath := syncs[0]];
    if k > 0 {
      assert syncs[1..][k - 1] == syncs[k];
      LoadedHasAll(m', syncs[1..], k - 1);
    } else {
      LoadedKeeps(m', syncs[1..], syncs[0].localpath);
    }
  }

  /** Loading never removes a path. */
  lemma {:induction false} LoadedKeeps(m: map<seq<byte>, SyncConfig>, syncs: seq<SyncConfig>, p: seq<byte>)
    requires p in m
    ensures p in Loaded(m, syncs)
    decreases |syncs|
  {
    if syncs != [] {
      LoadedKeeps(m[syncs[0].localpath := syncs[0]], syncs[1..], p);
    }
  }

  // ---------------------------------------------------------------- backups

  /** The persisted part of a backup_struct, with the id and tag set on load. */
  datatype BackupConfig = BackupConfig(handle: nat, localpath: seq<byte>, numBackups: int, period: int,
                                       speriod: seq<byte>, id: int, tag: int)

  /** One `saveBackups` record (src/configurationmanager.cpp:363-416) in front of `rest`. */
  function EncodedBackupThen(b: BackupConfig, version: int, rest: seq<byte>): seq<byte>
  {
    Raw(Unsigned(version, 4), 4) + (Raw(b.handle, 8) + (Raw(|b.localpath|, SIZE_T) + (b.localpath +
      (Raw(Unsigned(b.numBackups, 4), 4) + (Raw(Unsigned(b.period, 8), 8) +
      (Raw(|b.speriod|, SIZE_T) + (b.speriod + rest)))))))
  }

  function EncodedBackups(backups: seq<BackupConfig>, version: int): seq<byte>
  {
    if backups == [] then [] else EncodedBackupThen(backups[0], version, EncodedBackups(backups[1..], version))
  }

  /** The writes of one backup record. */
  method WriteBackup(b: BackupConfig, version: int) returns (out: seq<byte>)
    ensures out == EncodedBackupThen(b, version, [])
  {
    out := Raw(Unsigned(version, 4), 4);
    out := out + Raw(b.handle, 8);
    out := out + Raw(|b.localpath|, SIZE_T);
    out := out + b.localpath;
    out := out + Raw(Unsigned(b.numBackups, 4), 4);
    out := out + Raw(Unsigned(b.period, 8), 8);
    out := out + Raw(|b.speriod|, SIZE_T);
    out := out + b.speriod;
    assert b.speriod + [] == b.speriod;
  }

  lemma EncodedBackupAppend(b: BackupConfig, version: int, rest: seq<byte>)
    ensures EncodedBackupThen(b, version, []) + rest == EncodedBackupThen(b, version, rest)
  {
    assert b.speriod + [] == b.speriod;
  }

  /** `saveBackups` (src/configurationmanager.cpp:363-416): one record per backup, in map order. */
  method SaveBackups(backups: seq<BackupConfig>, version: int) returns (file: seq<byte>)
    ensures file == EncodedBackups(backups, version)
  {
    file := [];
    var i := 0;
    while i < |backups|
      invariant 0 <= i <= |backups|
      invariant file + EncodedBackups(backups[i..], version) == EncodedBackups(backups, version)
    {
      assert backups[i..][1..] == backups[i + 1..];
      EncodedBackupAppend(backups[i], version, EncodedBackups(backups[i + 1..], version));
      var record := WriteBackup(backups[i], version);
      AppendRecord(file, record, EncodedBackups(backups[i + 1..], version), EncodedBackups(backups, version));
      file := file + record;
      i := i + 1;
    }
  }

  /**
   * One `loadbackups` record: version, handle and path length are read; a
   * path length of 0 or above pathMax (PATH_MAX) is refused and nothing more
   * of the record is consumed. Otherwise the path, numBackups, period and the
   * period text follow, the text only when its length is in 1..pathMax, and
   * the record is kept with id and tag -1.
   */
  function ReadBackup(s: seq<byte>, pathMax: nat): (r: Option<(Option<BackupConfig>, seq<byte>)>)
    ensures r.Some? ==> |r.value.1| < |s|
    ensures r.Some? && r.value.0.Some? ==>
      0 < |r.value.0.value.localpath| <= pathMax && r.value.0.value.id == -1 && r.value.0.value.tag == -1
  {
    match ReadRaw(s, 4)
    case None => None
    case Some((_, s1)) =>
      match ReadRaw(s1, 8)
      case None => None
      case Some((handle, s2)) =>
        match ReadRaw(s2, SIZE_T)
        case None => None
        case Some((len, s3)) =>
          if !(0 < len <= pathMax) then Some((None, s3))
          else
            match ReadBytes(s3, len)
            case None => None
            case Some((path, s4)) =>
              match ReadRaw(s4, 4)
              case None => None
              case Some((num, s5)) =>
                match ReadRaw(s5, 8)
                case None => None
                case Some((period, s6)) =>
                  match ReadRaw(s6, SIZE_T)
                  case None => None
                  case Some((plen, s7)) =>
                    var text := if 0 < plen <= pathMax then ReadBytes(s7, plen) else Some(([], s7));
                    match text
                    case None => None
                    case Some((speriod, s8)) =>
                      Some((Some(BackupConfig(handle, path, Signed(num, 4), Signed(period, 8), speriod, -1, -1)), s8))
  }

  predicate BackupStorable(b: BackupConfig, pathMax: nat)
  {
    b.handle < Pow256(8) && InRange(b.numBackups, 4) && InRange(b.period, 8) &&
    0 < |b.localpath| <= pathMax && |b.speriod| <= pathMax && pathMax < Pow256(SIZE_T)
  }

  /** A backup with a path of 1..pathMax bytes and a period text of at most pathMax reads back, with id and tag reset. */
  lemma ReadBackupOf(b: BackupConfig, version: int, pathMax: nat, rest: seq<byte>)
    requires BackupStorable(b, pathMax) && InRange(version, 4)
    ensures ReadBackup(EncodedBackupThen(b, version, rest), pathMax) == Some((Some(b.(id := -1, tag := -1)), rest))
  {
    var t7 := b.speriod + rest;
    var t6 := Raw(|b.speriod|, SIZE_T) + t7;
    var t5 := Raw(Unsigned(b.period, 8), 8) + t6;
    var t4 := Raw(Unsigned(b.numBackups, 4), 4) + t5;
    var t3 := b.localpath + t4;
    var t2 := Raw(|b.localpath|, SIZE_T) + t3;
    var t1 := Raw(b.handle, 8) + t2;
    ReadRawOf(Unsigned(version, 4), 4, t1);
    ReadRawOf(b.handle, 8, t2);
    ReadRawOf(|b.localpath|, SIZE_T, t3);
    ReadBytesOf(b.localpath, t4);
    ReadRawOf(Unsigned(b.numBackups, 4), 4, t5);
    SignedOfUnsigned(b.numBackups, 4);
    ReadRawOf(Unsigned(b.period, 8), 8, t6);
    SignedOfUnsigned(b.period, 8);
    ReadRawOf(|b.speriod|, SIZE_T, t7);
    ReadBytesOf(b.speriod, rest);
    if |b.speriod| == 0 {
      assert t7 == rest;
    }
  }

  /** A record with an empty or over-long path is dropped, and reading resumes right after its length field. */
  lemma ReadBackupRefused(b: BackupConfig, version: int, pathMax: nat, rest: seq<byte>)
    requires b.handle < Pow256(8) && InRange(version, 4) && |b.localpath| < Pow256(SIZE_T)
    requires |b.localpath| == 0 || |b.localpath| > pathMax
    ensures var r := ReadBackup(EncodedBackupThen(b, version, rest), pathMax);
      r.Some? && r.value.0.None? &&
      r.value.1 == b.localpath + (Raw(Unsigned(b.numBackups, 4), 4) + (Raw(Unsigned(b.period, 8), 8) +
        (Raw(|b.speriod|, SIZE_T) + (b.speriod + rest))))
  {
    var t3 := b.localpath + (Raw(Unsigned(b.numBackups, 4), 4) + (Raw(Unsigned(b.period, 8), 8) +
      (Raw(|b.speriod|, SIZE_T) + (b.speriod + rest))));
    var t2 := Raw(|b.localpath|, SIZE_T) + t3;
    var t1 := Raw(b.handle, 8) + t2;
    ReadRawOf(Unsigned(version, 4), 4, t1);
    ReadRawOf(b.handle, 8, t2);
    ReadRawOf(|b.localpath|, SIZE_T, t3);
  }

  /** What the `loadbackups` loop ends with. */
  datatype BackupsResult = BackupsResult(backups: map<seq<byte>, BackupConfig>, truncated: bool)

  function LoadBackupsFrom(s: seq<byte>, pathMax: nat, m: map<seq<byte>, BackupConfig>): BackupsResult
    decreases |s|
  {
    if s == [] then BackupsResult(m, false)
    else
      match ReadBackup(s, pathMax)
      case None => BackupsResult(m, true)
      case Some((record, rest)) =>
        var m' := if record.Some? then m[record.value.localpath := record.value] else m;
        LoadBackupsFrom(rest, pathMax, m')
  }

  /** `loadbackups` (src/configurationmanager.cpp:598-668) over the bytes of the `backups` file. */
  method LoadBackups(file: seq<byte>, pathMax: nat) returns (r: BackupsResult)
    ensures r == LoadBackupsFrom(file, pathMax, map[])
  {
    var rest := file;
    var m: map<seq<byte>, BackupConfig> := map[];
    while rest != []
      invariant LoadBackupsFrom(rest, pathMax, m) == LoadBackupsFrom(file, pathMax, map[])
      decreases |rest|
    {
      var record := ReadBackup(rest, pathMax);
      if record.None? {
        return BackupsResult(m, true);
      }
      var (backup, after) := record.value;
      if backup.Some? {
        m := m[backup.value.localpath := backup.value];
      }
      rest := after;
    }
    r := BackupsResult(m, false);
  }

  /** The map `loadbackups` builds from records it keeps: by path, later replacing earlier, id and tag reset. */
  function LoadedBackups(m: map<seq<byte>, BackupConfig>, backups: seq<BackupConfig>): map<seq<byte>, BackupConfig>
    decreases |backups|
  {
    if backups == [] then m
    else LoadedBackups(m[backups[0].localpath := backups[0].(id := -1, tag := -1)], backups[1..])
  }

  lemma EncodedBackupLonger(b: BackupConfig, version: int, rest: seq<byte>)
    ensures |rest| < |EncodedBackupThen(b, version, rest)|
  {
  }

  /** `loadbackups` reads back what `saveBackups` wrote when every path has 1..pathMax bytes and every period text at most pathMax. */
  lemma {:induction false} LoadBackupsRoundTrip(backups: seq<BackupConfig>, version: int, pathMax: nat,
                                                m: map<seq<byte>, BackupConfig>)
    requires forall k :: 0 <= k < |backups| ==> BackupStorable(backups[k], pathMax)
    requires InRange(version, 4)
    ensures LoadBackupsFrom(EncodedBackups(backups, version), pathMax, m) == BackupsResult(LoadedBackups(m, backups), false)
    decreases |backups|
  {
    if backups != [] {
      var rest := EncodedBackups(backups[1..], version);
      ReadBackupOf(backups[0], version, pathMax, rest);
      EncodedBackupLonger(backups[0], version, rest);
      LoadBackupsRoundTrip(backups[1..], version, pathMax, m[backups[0].localpath := backups[0].(id := -1, tag := -1)]);
    }
  }

  /** Every backup held has a path of 1..pathMax bytes and id and tag -1. */
  predicate Filtered(m: map<seq<byte>, BackupConfig>, pathMax: nat)
  {
    forall p :: p in m ==> 0 < |m[p].localpath| <= pathMax && m[p].id == -1 && m[p].tag == -1
  }

  /** `loadbackups` only ever stores filtered records. */
  lemma {:induction false} LoadedBackupsFiltered(s: seq<byte>, pathMax: nat, m: map<seq<byte>, BackupConfig>)
    requires Filtered(m, pathMax)
    ensures Filtered(LoadBackupsFrom(s, pathMax, m).backups, pathMax)
    decreases |s|
  {
    if s != [] {
      var r := ReadBackup(s, pathMax);
      if r.Some? {
        var (record, rest) := r.value;
        var m' := if record.Some? then m[record.value.localpath := record.value] else m;
        assert LoadBackupsFrom(s, pathMax, m) == LoadBackupsFrom(rest, pathMax, m');
        LoadedBackupsFiltered(rest, pathMax, m');
      }
    }
  }
}
