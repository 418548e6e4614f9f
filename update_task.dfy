/**
 * The updater's reading of a signed update manifest
 * (src/updater/UpdateTask.cpp:689-775 and 1007-1017).
 *
 * The manifest is a text file of lines: the version code, the signature of
 * the whole update, then for each file its download URL, its local path and
 * its own signature. The file is a byte sequence with a read position; the
 * installed-file test, the current version and the signature check are
 * parameters. Text is bytes, as a C `char` buffer is.
 */
module Updater {
  import opened Wrappers
  import opened Base64

  const NEWLINE: byte := 0x0A

  /** `fgets` into `char line[4096]` stores at most 4095 bytes and a NUL. */
  const LINE_BUFFER: nat := 4096

  // ---------------------------------------------------------------- readNextLine

  /** The offset of the first newline at or after i, or |s|. */
  function NewlineFrom(s: seq<byte>, i: nat): (j: nat)
    requires i <= |s|
    ensures i <= j <= |s|
    decreases |s| - i
  {
    if i == |s| || s[i] == NEWLINE then i else NewlineFrom(s, i + 1)
  }

  /** The offset of the first NUL or newline in [i, end), or end: where `strcspn` and the C string stop. */
  function TextEnd(s: seq<byte>, i: nat, end: nat): (j: nat)
    requires i <= end <= |s|
    ensures i <= j <= end
    decreases end - i
  {
    if i == end || s[i] == 0 || s[i] == NEWLINE then i else TextEnd(s, i + 1, end)
  }

  /** No NUL and no newline lies before TextEnd. */
  lemma {:induction false} TextEndClean(s: seq<byte>, i: nat, end: nat)
    requires i <= end <= |s|
    ensures forall k :: i <= k < TextEnd(s, i, end) ==> s[k] != 0 && s[k] != NEWLINE
    decreases end - i
  {
    if i < end && s[i] != 0 && s[i] != NEWLINE {
      TextEndClean(s, i + 1, end);
    }
  }

  /** How many bytes one `fgets(line, 4096, fd)` consumes from s: through the newline, at most 4095. */
  function ChunkLength(s: seq<byte>): (n: nat)
    requires s != []
    ensures 0 < n <= LINE_BUFFER - 1 && n <= |s|
  {
    var e := NewlineFrom(s, 0);
    var upto := if e < |s| then e + 1 else |s|;
    if upto < LINE_BUFFER - 1 then upto else LINE_BUFFER - 1
  }

  /**
   * `readNextLine` on the unread bytes s of the file: the line and the bytes
   * left unread. At end of file `fgets` fails and the line is empty;
   * otherwise the chunk is cut at its newline, and the string ends at the
   * first NUL.
   */
  function NextLine(s: seq<byte>): (r: (seq<byte>, seq<byte>))
    ensures |r.1| <= |s|
    ensures r.0 != [] ==> |r.1| < |s|
  {
    if s == [] then ([], [])
    else
      var n := ChunkLength(s);
      (s[..TextEnd(s, 0, n)], s[n..])
  }

  /** A line as the generator writes it: non-empty, shorter than the buffer, no NUL and no newline. */
  predicate CleanLine(l: seq<byte>)
  {
    0 < |l| < LINE_BUFFER - 1 && forall k :: 0 <= k < |l| ==> l[k] != 0 && l[k] != NEWLINE
  }

  /** Lines written one after another, each followed by a newline. */
  function Lines(ls: seq<seq<byte>>): seq<byte>
  {
    if ls == [] then [] else ls[0] + [NEWLINE] + Lines(ls[1..])
  }

  /** What a line read never holds, and that only end of file consumes nothing. */
  lemma NextLineShape(s: seq<byte>)
    ensures var (line, rest) := NextLine(s);
      |line| < LINE_BUFFER && (forall k :: 0 <= k < |line| ==> line[k] != 0 && line[k] != NEWLINE)
      && (rest == s <==> s == []) && (s == [] ==> line == [])
  {
    if s != [] {
      TextEndClean(s, 0, ChunkLength(s));
    }
  }

  /** A clean line followed by a newline is read back whole, and what follows the newline is left. */
  lemma NextLineOf(l: seq<byte>, r: seq<byte>)
    requires CleanLine(l)
    ensures NextLine(l + [NEWLINE] + r) == (l, r)
  {
    var s := l + [NEWLINE] + r;
    forall k | 0 <= k < |l|
      ensures s[k] != NEWLINE && s[k] != 0
    {
      assert s[k] == l[k];
    }
    assert s[|l|] == NEWLINE;
    NewlineFromAt(s, 0, |l|);
    TextEndAt(s, 0, |l| + 1, |l|);
    assert s[..|l|] == l;
    assert s[|l| + 1..] == r;
  }

  lemma {:induction false} NewlineFromAt(s: seq<byte>, i: nat, j: nat)
    requires i <= j < |s| && s[j] == NEWLINE
    requires forall k :: i <= k < j ==> s[k] != NEWLINE
    ensures NewlineFrom(s, i) == j
    decreases j - i
  {
    if i < j {
      NewlineFromAt(s, i + 1, j);
    }
  }

  lemma {:induction false} TextEndAt(s: seq<byte>, i: nat, end: nat, j: nat)
    requires i <= j < end <= |s| && (s[j] == 0 || s[j] == NEWLINE)
    requires forall k :: i <= k < j ==> s[k] != 0 && s[k] != NEWLINE
    ensures TextEnd(s, i, end) == j
    decreases j - i
  {
    if i < j {
      TextEndAt(s, i + 1, end, j);
    }
  }

  /** Reading a sequence of clean lines yields the first, leaving the others; no lines read as end of file. */
  lemma NextOfLines(ls: seq<seq<byte>>)
    requires ls != [] ==> CleanLine(ls[0])
    ensures ls == [] ==> NextLine(Lines(ls)) == ([], [])
    ensures ls != [] ==> NextLine(Lines(ls)) == (ls[0], Lines(ls[1..]))
  {
    if ls != [] {
      NextLineOf(ls[0], Lines(ls[1..]));
    }
  }

  /** The open update file, as the bytes its `FILE*` has not read yet. */
  class LineFile {
    var unread: seq<byte>

    constructor(data: seq<byte>)
      ensures unread == data
    {
      unread := data;
    }
  }

  // ---------------------------------------------------------------- the manifest's file list

  /** `MEGA_TO_NATIVE_SEPARATORS` of the POSIX build: every '\' becomes '/'. */
  function NativeSeparators(p: seq<byte>): (r: seq<byte>)
    ensures |r| == |p| && forall k :: 0 <= k < |r| ==> r[k] == (if p[k] == 0x5C then 0x2F else p[k])
  {
    seq(|p|, k requires 0 <= k < |p| => if p[k] == 0x5C then 0x2F else p[k])
  }

  /**
   * What the loop over (url, path, signature) triples leaves: the files to
   * download (paths in native form), the bytes added to the signature,
   * whether it ended at an empty url rather than at an empty path or
   * signature, and the bytes left unread.
   */
  datatype Scan = Scan(urls: seq<seq<byte>>, paths: seq<seq<byte>>, sigs: seq<seq<byte>>,
                       signed: seq<byte>, complete: bool, rest: seq<byte>)

  type Installed = (seq<byte>, seq<byte>) -> bool

  function ScanTriples(s: seq<byte>, installed: Installed): (sc: Scan)
    decreases |s|
  {
    var (url, s1) := NextLine(s);
    if url == [] then Scan([], [], [], [], true, s1)
    else
      var (path, s2) := NextLine(s1);
      if path == [] then Scan([], [], [], [], false, s2)
      else
        var (sig, s3) := NextLine(s2);
        if sig == [] then Scan([], [], [], [], false, s3)
        else
          var more := ScanTriples(s3, installed);
          var native := NativeSeparators(path);
          var signed := url + path + sig + more.signed;
          if installed(native, sig) then more.(signed := signed)
          else Scan([url] + more.urls, [native] + more.paths, [sig] + more.sigs, signed, more.complete, more.rest)
  }

  /** The outcome of processUpdateFile: the new version when it was set, the scan when it ran. */
  datatype Outcome = Outcome(ok: bool, version: Option<int>, scan: Option<Scan>, signed: Option<seq<byte>>,
                             rest: seq<byte>)

  type SignatureCheck = (seq<byte>, seq<byte>) -> bool

  /**
   * `processUpdateFile` on the unread bytes s, with `pending` downloads
   * already queued, the current version (-1 when it could not be read), the
   * installed-file test and the signature check over the signed bytes.
   */
  function Process(s: seq<byte>, currentVersion: int, pending: nat, installed: Installed,
                   sigOk: SignatureCheck): (o: Outcome)
  {
    var (version, s1) := NextLine(s);
    if version == [] || currentVersion == -1 then Outcome(false, None, None, None, s1)
    else
      var v := Atoi(version);
      if v <= currentVersion then Outcome(false, Some(v), None, None, s1)
      else
        var (signature, s2) := NextLine(s1);
        if signature == [] then Outcome(false, Some(v), None, None, s2)
        else
          var sc := ScanTriples(s2, installed);
          var signed := version + sc.signed;
          var ok := sc.complete && pending + |sc.urls| > 0 && sigOk(signed, signature);
          Outcome(ok, Some(v), Some(sc), Some(signed), sc.rest)
  }

  // ---------------------------------------------------------------- atoi

  predicate IsBlank(c: byte)
  {
    c == 0x20 || (0x09 <= c <= 0x0D)
  }

  predicate IsDigitByte(c: byte)
  {
    0x30 <= c <= 0x39
  }

  function SkipBlanks(s: seq<byte>, i: nat): (j: nat)
    requires i <= |s|
    ensures i <= j <= |s|
    decreases |s| - i
  {
    if i < |s| && IsBlank(s[i]) then SkipBlanks(s, i + 1) else i
  }

  /** The value of the digits from i on, read up to the first non-digit, with `acc` the value so far. */
  function DigitsFrom(s: seq<byte>, i: nat, acc: nat): (v: nat)
    requires i <= |s|
    ensures acc <= v
    decreases |s| - i
  {
    if i < |s| && IsDigitByte(s[i]) then DigitsFrom(s, i + 1, acc * 10 + (s[i] - 0x30) as int) else acc
  }

  /**
   * `atoi`: leading blanks, an optional sign, then decimal digits; 0 when
   * there are none. The value is not reduced to the int range.
   */
  function Atoi(s: seq<byte>): int
  {
    var i := SkipBlanks(s, 0);
    var neg := i < |s| && s[i] == 0x2D;
    var j := if i < |s| && (s[i] == 0x2D || s[i] == 0x2B) then i + 1 else i;
    var v: int := DigitsFrom(s, j, 0);
    if neg then -v else v
  }

  /** Text whose first byte is not a digit, a sign or a blank reads as 0. */
  lemma AtoiNoDigits(s: seq<byte>)
    requires s != [] && !IsDigitByte(s[0]) && !IsBlank(s[0]) && s[0] != 0x2D && s[0] != 0x2B
    ensures Atoi(s) == 0
  {
  }

  // ---------------------------------------------------------------- the task

  /** The updater's state touched by processUpdateFile. */
  class UpdateTask {
    var updateVersion: int
    var downloadURLs: seq<seq<byte>>
    var localPaths: seq<seq<byte>>
    var fileSignatures: seq<seq<byte>>
    /** The bytes given to the signature checker since `initSignature`. */
    var signedData: seq<byte>

    constructor()
      ensures downloadURLs == [] && localPaths == [] && fileSignatures == [] && signedData == []
    {
      updateVersion := 0;
      downloadURLs, localPaths, fileSignatures := [], [], [];
      signedData := [];
    }

    /** `readNextLine`: the next line of fd without its newline, "" at end of file. */
    method ReadNextLine(fd: LineFile) returns (line: seq<byte>)
      modifies fd
      ensures (line, fd.unread) == NextLine(old(fd.unread))
    {
      var s := fd.unread;
      if s == [] {
        return [];
      }
      var n := ChunkLength(s);
      line := s[..TextEnd(s, 0, n)];
      fd.unread := s[n..];
    }

    /**
     * `processUpdateFile`: reads the version, refuses an update that is not
     * newer, reads the update signature, then the file triples, queueing the
     * files not yet installed, and finally checks the signature over the
     * version and every triple in file order.
     */
    method ProcessUpdateFile(fd: LineFile, currentVersion: int, installed: Installed, sigOk: SignatureCheck)
      returns (ok: bool)
      modifies this, fd
      ensures var o := Process(old(fd.unread), currentVersion, |old(downloadURLs)|, installed, sigOk);
        ok == o.ok && fd.unread == o.rest
        && updateVersion == (if o.version.Some? then o.version.value else old(updateVersion))
        && signedData == (if o.signed.Some? then o.signed.value else old(signedData))
        && (o.scan.None? ==> downloadURLs == old(downloadURLs) && localPaths == old(localPaths)
                             && fileSignatures == old(fileSignatures))
        && (o.scan.Some? ==> downloadURLs == old(downloadURLs) + o.scan.value.urls
                             && localPaths == old(localPaths) + o.scan.value.paths
                             && fileSignatures == old(fileSignatures) + o.scan.value.sigs)
    {
      var version := ReadNextLine(fd);
      if version == [] {
        return false;
      }
      if currentVersion == -1 {
        return false;
      }
      updateVersion := Atoi(version);
      if updateVersion <= currentVersion {
        return false;
      }
      var updateSignature := ReadNextLine(fd);
      if updateSignature == [] {
        return false;
      }
      signedData := [];
      signedData := signedData + version;
      assert signedData == version;
      var complete := ReadFileList(fd, installed);
      if !complete {
        return false;
      }
      if |downloadURLs| == 0 {
        return false;
      }
      ok := sigOk(signedData, updateSignature);
    }

    /**
     * The `while (true)` loop of processUpdateFile: reads (url, path,
     * signature) triples up to an empty url, signing each triple and queueing
     * the files not installed; false when a path or signature line is empty.
     */
    method ReadFileList(fd: LineFile, installed: Installed) returns (complete: bool)
      modifies this, fd
      ensures var sc := ScanTriples(old(fd.unread), installed);
        complete == sc.complete && fd.unread == sc.rest
        && downloadURLs == old(downloadURLs) + sc.urls && localPaths == old(localPaths) + sc.paths
        && fileSignatures == old(fileSignatures) + sc.sigs && signedData == old(signedData) + sc.signed
        && updateVersion == old(updateVersion)
    {
      ghost var target := ScanTriples(fd.unread, installed);
      ghost var u0, l0, s0, d0 := downloadURLs, localPaths, fileSignatures, signedData;
      assert u0 + [] == u0 && l0 + [] == l0 && s0 + [] == s0 && d0 + [] == d0;
      while true
        invariant updateVersion == old(updateVersion)
        invariant Tracks(ScanTriples(fd.unread, installed), target, u0, l0, s0, d0)
        decreases |fd.unread|
      {
        ghost var sc := ScanTriples(fd.unread, installed);
        ghost var u, l, g, d := downloadURLs, localPaths, fileSignatures, signedData;
        var more;
        more, complete := ReadEntry(fd, installed);
        if !more {
          assert u + [] == u && l + [] == l && g + [] == g && d + [] == d;
          return;
        }
        TrackedCompose(ScanTriples(fd.unread, installed), sc, target, u0, l0, s0, d0, u, l, g, d,
                       downloadURLs, localPaths, fileSignatures, signedData);
      }
    }

    /**
     * One round of that loop: `more` is false when the loop ends, and then
     * `complete` tells an empty url from an empty path or signature; otherwise
     * one triple was signed and, unless installed, queued.
     */
    method ReadEntry(fd: LineFile, installed: Installed) returns (more: bool, complete: bool)
      modifies this, fd
      ensures var sc := ScanTriples(old(fd.unread), installed);
        updateVersion == old(updateVersion)
        && (!more ==> sc.urls == [] && sc.paths == [] && sc.sigs == [] && sc.signed == []
                      && complete == sc.complete && fd.unread == sc.rest
                      && downloadURLs == old(downloadURLs) && localPaths == old(localPaths)
                      && fileSignatures == old(fileSignatures) && signedData == old(signedData))
        && (more ==> |fd.unread| < |old(fd.unread)|
                     && Tracked(ScanTriples(fd.unread, installed), sc, old(downloadURLs), old(localPaths),
                                old(fileSignatures), old(signedData), downloadURLs, localPaths, fileSignatures,
                                signedData))
    {
      ghost var s := fd.unread;
      var url := ReadNextLine(fd);
      if url == [] {
        ScanUrlEnd(s, fd.unread, installed);
        return false, true;
      }
      ghost var s1 := fd.unread;
      var localPath := ReadNextLine(fd);
      if localPath == [] {
        ScanPathEnd(s, url, s1, fd.unread, installed);
        return false, false;
      }
      ghost var s2 := fd.unread;
      var fileSignature := ReadNextLine(fd);
      if fileSignature == [] {
        ScanSignatureEnd(s, url, s1, localPath, s2, fd.unread, installed);
        return false, false;
      }
      ScanTripleStep(s, url, s1, localPath, s2, fileSignature, fd.unread, installed);
      RecordEntry(url, localPath, fileSignature, s, fd.unread, installed);
      more, complete := true, true;
    }

    /**
     * The body of the triple loop once a url, path and signature were read
     * from s, leaving s3: all three are signed, and the file is queued
     * (target in native form) unless it is already installed.
     */
    method RecordEntry(url: seq<byte>, localPath: seq<byte>, fileSignature: seq<byte>, ghost s: seq<byte>,
                       ghost s3: seq<byte>, installed: Installed)
      requires |s3| < |s| && ScanTriple(s, url, localPath, fileSignature, s3, installed)
      modifies this
      ensures updateVersion == old(updateVersion)
      ensures Tracked(ScanTriples(s3, installed), ScanTriples(s, installed), old(downloadURLs), old(localPaths),
                      old(fileSignatures), old(signedData), downloadURLs, localPaths, fileSignatures, signedData)
    {
      ghost var u, l, g, d := downloadURLs, localPaths, fileSignatures, signedData;
      TracksStep(s, url, localPath, fileSignature, s3, installed, ScanTriples(s, installed), u, l, g, d, u, l, g, d);
      signedData := signedData + url;
      signedData := signedData + localPath;
      signedData := signedData + fileSignature;
      var native := NativeSeparators(localPath);
      if installed(native, fileSignature) {
        return;
      }
      downloadURLs := downloadURLs + [url];
      localPaths := localPaths + [native];
      fileSignatures := fileSignatures + [fileSignature];
    }

    /** The loop invariant: what is queued and signed so far, followed by what the rest of the file adds, is the whole scan. */
    ghost predicate Tracks(sc: Scan, target: Scan, u0: seq<seq<byte>>, l0: seq<seq<byte>>, s0: seq<seq<byte>>,
                           d0: seq<byte>)
      reads this
    {
      Tracked(sc, target, u0, l0, s0, d0, downloadURLs, localPaths, fileSignatures, signedData)
    }
  }

  ghost predicate Tracked(sc: Scan, target: Scan, u0: seq<seq<byte>>, l0: seq<seq<byte>>, s0: seq<seq<byte>>,
                          d0: seq<byte>, urls: seq<seq<byte>>, paths: seq<seq<byte>>, sigs: seq<seq<byte>>,
                          signed: seq<byte>)
  {
    urls + sc.urls == u0 + target.urls && paths + sc.paths == l0 + target.paths
    && sigs + sc.sigs == s0 + target.sigs && signed + sc.signed == d0 + target.signed
    && sc.complete == target.complete && sc.rest == target.rest
  }

  lemma TrackedCompose(sc2: Scan, sc: Scan, target: Scan, u0: seq<seq<byte>>, l0: seq<seq<byte>>,
                       s0: seq<seq<byte>>, d0: seq<byte>, u: seq<seq<byte>>, l: seq<seq<byte>>, g: seq<seq<byte>>,
                       d: seq<byte>, u': seq<seq<byte>>, l': seq<seq<byte>>, g': seq<seq<byte>>, d': seq<byte>)
    requires Tracked(sc, target, u0, l0, s0, d0, u, l, g, d) && Tracked(sc2, sc, u, l, g, d, u', l', g', d')
    ensures Tracked(sc2, target, u0, l0, s0, d0, u', l', g', d')
  {
  }

  /** The invariant of the triple loop is kept by one complete triple, queued or skipped. */
  lemma TracksStep(s: seq<byte>, url: seq<byte>, path: seq<byte>, sig: seq<byte>, s3: seq<byte>,
                   installed: Installed, target: Scan, u0: seq<seq<byte>>, l0: seq<seq<byte>>, s0: seq<seq<byte>>,
                   d0: seq<byte>, urls: seq<seq<byte>>, paths: seq<seq<byte>>, sigs: seq<seq<byte>>,
                   signed: seq<byte>)
    requires |s3| < |s| && ScanTriple(s, url, path, sig, s3, installed)
    requires Tracked(ScanTriples(s, installed), target, u0, l0, s0, d0, urls, paths, sigs, signed)
    ensures var native := NativeSeparators(path);
      var signed' := signed + url + path + sig;
      if installed(native, sig) then
        Tracked(ScanTriples(s3, installed), target, u0, l0, s0, d0, urls, paths, sigs, signed')
      else
        Tracked(ScanTriples(s3, installed), target, u0, l0, s0, d0, urls + [url], paths + [native],
                sigs + [sig], signed')
  {
    var more := ScanTriples(s3, installed);
    SignedStep(signed, url, path, sig, more.signed);
    PushStep(urls, url, more.urls);
    PushStep(paths, NativeSeparators(path), more.paths);
    PushStep(sigs, sig, more.sigs);
  }

  lemma PushStep<T>(a: seq<T>, x: T, b: seq<T>)
    ensures (a + [x]) + b == a + ([x] + b)
  {
  }

  lemma SignedStep(before: seq<byte>, url: seq<byte>, path: seq<byte>, sig: seq<byte>, rest: seq<byte>)
    ensures before + url + path + sig + rest == before + (url + path + sig + rest)
  {
  }

  lemma ScanUrlEnd(s: seq<byte>, s1: seq<byte>, installed: Installed)
    requires NextLine(s) == ([], s1)
    ensures ScanTriples(s, installed) == Scan([], [], [], [], true, s1)
  {
  }

  lemma ScanPathEnd(s: seq<byte>, url: seq<byte>, s1: seq<byte>, s2: seq<byte>, installed: Installed)
    requires url != [] && NextLine(s) == (url, s1) && NextLine(s1) == ([], s2)
    ensures ScanTriples(s, installed) == Scan([], [], [], [], false, s2)
  {
  }

  lemma ScanSignatureEnd(s: seq<byte>, url: seq<byte>, s1: seq<byte>, path: seq<byte>, s2: seq<byte>,
                         s3: seq<byte>, installed: Installed)
    requires url != [] && NextLine(s) == (url, s1) && path != [] && NextLine(s1) == (path, s2)
    requires NextLine(s2) == ([], s3)
    ensures ScanTriples(s, installed) == Scan([], [], [], [], false, s3)
  {
  }

  lemma ScanTripleStep(s: seq<byte>, url: seq<byte>, s1: seq<byte>, path: seq<byte>, s2: seq<byte>,
                       sig: seq<byte>, s3: seq<byte>, installed: Installed)
    requires url != [] && NextLine(s) == (url, s1) && path != [] && NextLine(s1) == (path, s2)
    requires sig != [] && NextLine(s2) == (sig, s3)
    ensures |s3| < |s| && ScanTriple(s, url, path, sig, s3, installed)
  {
  }

  /** The scan of s after a complete triple in front of s3. */
  ghost predicate ScanTriple(s: seq<byte>, url: seq<byte>, path: seq<byte>, sig: seq<byte>, s3: seq<byte>,
                             installed: Installed)
    requires |s3| < |s|
  {
    var more := ScanTriples(s3, installed);
    var native := NativeSeparators(path);
    var sc := ScanTriples(s, installed);
    sc.signed == url + path + sig + more.signed && sc.complete == more.complete && sc.rest == more.rest
    && (installed(native, sig) ==> sc.urls == more.urls && sc.paths == more.paths && sc.sigs == more.sigs)
    && (!installed(native, sig) ==> sc.urls == [url] + more.urls && sc.paths == [native] + more.paths
                                    && sc.sigs == [sig] + more.sigs)
  }

  // ---------------------------------------------------------------- properties

  /** Every queued file has a non-empty url, path and signature, and is not installed. */
  ghost predicate WellQueued(urls: seq<seq<byte>>, paths: seq<seq<byte>>, sigs: seq<seq<byte>>, installed: Installed)
  {
    |urls| == |paths| == |sigs|
    && forall i :: 0 <= i < |urls| ==> urls[i] != [] && paths[i] != [] && sigs[i] != [] && !installed(paths[i], sigs[i])
  }

  lemma WellQueuedCons(url: seq<byte>, path: seq<byte>, sig: seq<byte>, urls: seq<seq<byte>>,
                       paths: seq<seq<byte>>, sigs: seq<seq<byte>>, installed: Installed)
    requires WellQueued(urls, paths, sigs, installed)
    requires url != [] && path != [] && sig != [] && !installed(path, sig)
    ensures WellQueued([url] + urls, [path] + paths, [sig] + sigs, installed)
  {
    var u, p, g := [url] + urls, [path] + paths, [sig] + sigs;
    forall i | 0 <= i < |u|
      ensures u[i] != [] && p[i] != [] && g[i] != [] && !installed(p[i], g[i])
    {
      if i > 0 {
        assert u[i] == urls[i - 1] && p[i] == paths[i - 1] && g[i] == sigs[i - 1];
      }
    }
  }

  /** A queued file always has a non-empty url, path and signature, and is not installed. */
  lemma {:induction false} ScanEntries(s: seq<byte>, installed: Installed)
    ensures var sc := ScanTriples(s, installed); WellQueued(sc.urls, sc.paths, sc.sigs, installed)
    decreases |s|
  {
    var (url, s1) := NextLine(s);
    if url == [] {
      ScanUrlEnd(s, s1, installed);
      return;
    }
    var (path, s2) := NextLine(s1);
    if path == [] {
      ScanPathEnd(s, url, s1, s2, installed);
      return;
    }
    var (sig, s3) := NextLine(s2);
    if sig == [] {
      ScanSignatureEnd(s, url, s1, path, s2, s3, installed);
      return;
    }
    ScanTripleStep(s, url, s1, path, s2, sig, s3, installed);
    ScanEntries(s3, installed);
    var more := ScanTriples(s3, installed);
    var native := NativeSeparators(path);
    if !installed(native, sig) {
      WellQueuedCons(url, native, sig, more.urls, more.paths, more.sigs, installed);
    }
  }

  /** One file of a manifest: its download URL, target path and Base64 signature. */
  datatype Entry = Entry(url: seq<byte>, target: seq<byte>, signature: seq<byte>)

  /** The manifest lines for the files, three per file in the order url, target, signature. */
  function EntryLines(es: seq<Entry>): (ls: seq<seq<byte>>)
    ensures |ls| == 3 * |es|
  {
    if es == [] then [] else [es[0].url, es[0].target, es[0].signature] + EntryLines(es[1..])
  }

  /** The bytes signed for the files: url, target and signature of each file in turn. */
  function SignedFiles(es: seq<Entry>): seq<byte>
  {
    if es == [] then [] else es[0].url + es[0].target + es[0].signature + SignedFiles(es[1..])
  }

  predicate CleanEntry(e: Entry)
  {
    CleanLine(e.url) && CleanLine(e.target) && CleanLine(e.signature)
  }

  predicate CleanEntries(es: seq<Entry>)
  {
    forall i :: 0 <= i < |es| ==> CleanEntry(es[i])
  }

  /** The files not yet installed, in manifest order, with the target in native form. */
  function Pending(es: seq<Entry>, installed: Installed): (r: seq<Entry>)
  {
    if es == [] then []
    else
      var e := es[0];
      var native := NativeSeparators(e.target);
      if installed(native, e.signature) then Pending(es[1..], installed)
      else [Entry(e.url, native, e.signature)] + Pending(es[1..], installed)
  }

  function Urls(es: seq<Entry>): (r: seq<seq<byte>>)
    ensures |r| == |es|
  {
    if es == [] then [] else [es[0].url] + Urls(es[1..])
  }

  function Targets(es: seq<Entry>): (r: seq<seq<byte>>)
    ensures |r| == |es|
  {
    if es == [] then [] else [es[0].target] + Targets(es[1..])
  }

  function Signatures(es: seq<Entry>): (r: seq<seq<byte>>)
    ensures |r| == |es|
  {
    if es == [] then [] else [es[0].signature] + Signatures(es[1..])
  }

  /** Reading the three lines of a clean file entry in front of the lines ls. */
  lemma NextOfEntry(e: Entry, ls: seq<seq<byte>>)
    requires CleanEntry(e)
    ensures var s := Lines([e.url, e.target, e.signature] + ls);
      NextLine(s) == (e.url, Lines([e.target, e.signature] + ls))
      && NextLine(Lines([e.target, e.signature] + ls)) == (e.target, Lines([e.signature] + ls))
      && NextLine(Lines([e.signature] + ls)) == (e.signature, Lines(ls))
  {
    var ls0 := [e.url, e.target, e.signature] + ls;
    assert ls0[1..] == [e.target, e.signature] + ls;
    NextOfLines(ls0);
    var ls1 := [e.target, e.signature] + ls;
    assert ls1[1..] == [e.signature] + ls;
    NextOfLines(ls1);
    var ls2 := [e.signature] + ls;
    assert ls2[1..] == ls;
    NextOfLines(ls2);
  }

  lemma CleanTail(es: seq<Entry>)
    requires es != [] && CleanEntries(es)
    ensures CleanEntry(es[0]) && CleanEntries(es[1..])
  {
    assert CleanEntry(es[0]);
    forall i | 0 <= i < |es[1..]|
      ensures CleanEntry(es[1..][i])
    {
      assert es[1..][i] == es[i + 1];
    }
  }

  /** The scan of the data left after the first file, as a property of the first file alone. */
  lemma PendingStep(es: seq<Entry>, installed: Installed)
    requires es != []
    ensures var e := es[0];
      var native := NativeSeparators(e.target);
      var pend := Pending(es, installed);
      var more := Pending(es[1..], installed);
      (installed(native, e.signature) ==> pend == more)
      && (!installed(native, e.signature) ==>
            Urls(pend) == [e.url] + Urls(more) && Targets(pend) == [native] + Targets(more)
            && Signatures(pend) == [e.signature] + Signatures(more))
  {
    var e := es[0];
    var native := NativeSeparators(e.target);
    var more := Pending(es[1..], installed);
    if !installed(native, e.signature) {
      var ne := Entry(e.url, native, e.signature);
      assert Pending(es, installed) == [ne] + more;
      assert ([ne] + more)[1..] == more;
    }
  }

  /**
   * The triple loop over well-formed manifest lines followed by end of file:
   * it queues exactly the files not installed, in order, signs every triple
   * in order, completes, and reads everything.
   */
  lemma {:induction false} ScanOfEntries(es: seq<Entry>, installed: Installed)
    requires CleanEntries(es)
    ensures var sc := ScanTriples(Lines(EntryLines(es)), installed);
      var pend := Pending(es, installed);
      sc.urls == Urls(pend) && sc.paths == Targets(pend) && sc.sigs == Signatures(pend)
      && sc.signed == SignedFiles(es) && sc.complete && sc.rest == []
    decreases es
  {
    var s := Lines(EntryLines(es));
    if es == [] {
      NextOfLines([]);
      ScanUrlEnd(s, [], installed);
    } else {
      var e := es[0];
      CleanTail(es);
      var more := EntryLines(es[1..]);
      assert EntryLines(es) == [e.url, e.target, e.signature] + more;
      NextOfEntry(e, more);
      ScanTripleStep(s, e.url, Lines([e.target, e.signature] + more), e.target, Lines([e.signature] + more),
                     e.signature, Lines(more), installed);
      ScanOfEntries(es[1..], installed);
      PendingStep(es, installed);
    }
  }

  /** The manifest as the generator prints it: version, update signature, then the file triples. */
  function Manifest(version: seq<byte>, signature: seq<byte>, es: seq<Entry>): seq<byte>
  {
    Lines([version, signature] + EntryLines(es))
  }

  /**
   * Reading a well-formed manifest: the signed data is the version followed
   * by every triple in file order, the queued files are those not installed,
   * and it is accepted exactly when the version is newer than a known current
   * one, something is left to download and the signature check passes.
   */
  lemma ManifestAccepted(version: seq<byte>, signature: seq<byte>, es: seq<Entry>, currentVersion: int,
                         pending: nat, installed: Installed, sigOk: SignatureCheck)
    requires CleanLine(version) && CleanLine(signature) && CleanEntries(es)
    ensures var o := Process(Manifest(version, signature, es), currentVersion, pending, installed, sigOk);
      var pend := Pending(es, installed);
      var accepted := currentVersion != -1 && Atoi(version) > currentVersion;
      (currentVersion != -1 ==> o.version == Some(Atoi(version)))
      && (accepted ==> o.signed == Some(version + SignedFiles(es)) && o.rest == []
                       && o.scan.Some? && o.scan.value.urls == Urls(pend) && o.scan.value.paths == Targets(pend)
                       && o.scan.value.sigs == Signatures(pend))
      && (o.ok <==> accepted && pending + |pend| > 0 && sigOk(version + SignedFiles(es), signature))
  {
    ProcessOfHeader(version, signature, EntryLines(es), currentVersion, pending, installed, sigOk);
    ScanOfEntries(es, installed);
  }

  /** Process on a file whose first two lines are a clean version and signature: the scan of what follows. */
  lemma ProcessOfHeader(version: seq<byte>, signature: seq<byte>, ls: seq<seq<byte>>, currentVersion: int,
                        pending: nat, installed: Installed, sigOk: SignatureCheck)
    requires CleanLine(version) && CleanLine(signature)
    ensures var o := Process(Lines([version, signature] + ls), currentVersion, pending, installed, sigOk);
      var sc := ScanTriples(Lines(ls), installed);
      if currentVersion == -1 then o == Outcome(false, None, None, None, Lines([signature] + ls))
      else if Atoi(version) <= currentVersion then o == Outcome(false, Some(Atoi(version)), None, None, Lines([signature] + ls))
      else o == Outcome(sc.complete && pending + |sc.urls| > 0 && sigOk(version + sc.signed, signature),
                        Some(Atoi(version)), Some(sc), Some(version + sc.signed), sc.rest)
  {
    var all := [version, signature] + ls;
    NextOfLines(all);
    assert all[1..] == [signature] + ls;
    NextOfLines(all[1..]);
    assert all[1..][1..] == ls;
  }

  /** A manifest whose last file lacks its signature line is refused. */
  lemma TruncatedManifestRejected(version: seq<byte>, signature: seq<byte>, es: seq<Entry>, url: seq<byte>,
                                  target: seq<byte>, currentVersion: int, pending: nat, installed: Installed,
                                  sigOk: SignatureCheck)
    requires CleanLine(version) && CleanLine(signature) && CleanEntries(es) && CleanLine(url) && CleanLine(target)
    ensures !Process(Lines([version, signature] + EntryLines(es) + [url, target]), currentVersion, pending,
                     installed, sigOk).ok
  {
    assert [version, signature] + EntryLines(es) + [url, target] == [version, signature] + (EntryLines(es) + [url, target]);
    ProcessOfHeader(version, signature, EntryLines(es) + [url, target], currentVersion, pending, installed, sigOk);
    TruncatedScan(es, url, target, installed);
  }

  lemma {:induction false} TruncatedScan(es: seq<Entry>, url: seq<byte>, target: seq<byte>, installed: Installed)
    requires CleanEntries(es) && CleanLine(url) && CleanLine(target)
    ensures !ScanTriples(Lines(EntryLines(es) + [url, target]), installed).complete
    decreases es
  {
    var ls := EntryLines(es) + [url, target];
    var s := Lines(ls);
    if es == [] {
      assert ls == [url, target];
      NextOfLines(ls);
      NextOfLines(ls[1..]);
      assert ls[1..][1..] == [];
      NextOfLines(ls[1..][1..]);
      ScanSignatureEnd(s, url, Lines(ls[1..]), target, Lines([]), [], installed);
    } else {
      var e := es[0];
      CleanTail(es);
      var more := EntryLines(es[1..]) + [url, target];
      assert ls == [e.url, e.target, e.signature] + more;
      NextOfEntry(e, more);
      ScanTripleStep(s, e.url, Lines([e.target, e.signature] + more), e.target, Lines([e.signature] + more),
                     e.signature, Lines(more), installed);
      TruncatedScan(es[1..], url, target, installed);
    }
  }

  /** The refusals before the file list: an empty version line, an unknown current version, an update that is not newer. */
  lemma EarlyRejections(s: seq<byte>, currentVersion: int, pending: nat, installed: Installed, sigOk: SignatureCheck)
    ensures var version := NextLine(s).0;
      var o := Process(s, currentVersion, pending, installed, sigOk);
      (version == [] || currentVersion == -1 || Atoi(version) <= currentVersion) ==> !o.ok && o.scan.None?
    ensures var o := Process(s, currentVersion, pending, installed, sigOk);
      o.ok ==> o.scan.Some? && o.scan.value.complete && pending + |o.scan.value.urls| > 0
               && sigOk(o.signed.value, NextLine(NextLine(s).1).0)
  {
  }
}
