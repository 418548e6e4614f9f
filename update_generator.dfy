/**
 * The update manifest generator (src/updategenerator/MEGAUpdateGenerator.cpp):
 * it signs every file of an update folder, hashes the version and the file
 * triples with the private key, and prints the manifest the updater reads.
 * Key generation, hashing and RSA signing are oracles.
 */
module UpdateGenerator {
  import opened Wrappers
  import opened Base64
  import Updater

  const SIGNATURE_LENGTH: nat := 512

  /** The bytes of an ASCII string. */
  function Ascii(s: string): (r: seq<byte>)
    ensures |r| == |s|
  {
    seq(|s|, i requires 0 <= i < |s| => (s[i] as int % 256) as byte)
  }

  /** A platform's download base URL, the file names in the update folder and their install targets. */
  datatype Table = Table(baseUrl: seq<byte>, files: seq<seq<byte>>, targets: seq<seq<byte>>)

  /** `numFiles` counts the update files; each one needs a target path. */
  predicate Shaped(t: Table)
  {
    |t.files| <= |t.targets|
  }

  const WIN_TABLE: Table :=
    Table(Ascii("http://g.static.mega.co.nz/upd/wcmd/"),
          [Ascii("api-ms-win-core-console-l1-1-0.dll"), Ascii("MEGAcmd.exe"), Ascii("MEGAcmdupdater.exe"),
           Ascii("....")],
          [Ascii("api-ms-win-core-console-l1-1-0.dll"), Ascii("MEGAcmd.exe"), Ascii("MEGAcmdupdater.exe"),
           Ascii("....")])

  const OSX_TABLE: Table :=
    Table(Ascii("http://g.static.mega.co.nz/upd/mcmd/MEGAcmd.app/"),
          [Ascii("Contents/...")],
          [Ascii("Contents/........."), Ascii("Contents/.........")])

  lemma SourceTablesShaped()
    ensures Shaped(WIN_TABLE) && |WIN_TABLE.files| == 4
    ensures Shaped(OSX_TABLE) && |OSX_TABLE.files| == 1
  {
  }

  /**
   * `HashSignature::get`: the signature of the hashed data under the key,
   * written to a buffer of the given length; it never writes more than that.
   */
  type Signer = f: (seq<byte>, seq<byte>, nat) -> seq<byte> | forall k, d, n :: |f(k, d, n)| <= n
    witness (k: seq<byte>, d: seq<byte>, n: nat) => []

  /** A file of the update folder: it cannot be opened or read, or its contents. */
  datatype FileData = Unreadable | Contents(bytes: seq<byte>)

  type FileSystem = seq<byte> -> FileData

  /** The signature right-aligned in n bytes, zeros in front. */
  function LeftPad(s: seq<byte>, n: nat): (r: seq<byte>)
    requires |s| <= n
  {
    seq(n - |s|, _ => 0 as byte) + s
  }

  /** The padded form is n bytes long, holds zeros up to the signature and the signature unchanged after them. */
  lemma LeftPadParts(s: seq<byte>, n: nat)
    requires |s| <= n
    ensures |LeftPad(s, n)| == n && LeftPad(s, n)[n - |s|..] == s
    ensures forall k :: 0 <= k < n - |s| ==> LeftPad(s, n)[k] == 0
    ensures |s| == n ==> LeftPad(s, n) == s
  {
  }

  /**
   * The padding loop of `signFile` and `main`: the signature's first size
   * bytes are moved to the end of the buffer, downwards so none is
   * overwritten before it is read, and the front is zeroed.
   */
  method PadSignature(signature: array<byte>, size: nat)
    requires size <= signature.Length
    modifies signature
    ensures signature[..] == LeftPad(old(signature[..size]), signature.Length)
  {
    ghost var orig := signature[..];
    var padding := signature.Length - size;
    var i := signature.Length - 1;
    while i >= 0
      invariant -1 <= i < signature.Length
      invariant forall k :: i < k < signature.Length && k >= padding ==> signature[k] == orig[k - padding]
      invariant forall k :: i < k < padding ==> signature[k] == 0
      invariant forall k :: 0 <= k <= i ==> signature[k] == orig[k]
    {
      if i >= padding {
        signature[i] := signature[i - padding];
      } else {
        signature[i] := 0;
      }
      i := i - 1;
    }
    PaddedIs(signature, orig, size);
  }

  /** A buffer holding zeros in front and then the first size bytes of orig holds orig's prefix left-padded. */
  lemma PaddedIs(a: array<byte>, orig: seq<byte>, size: nat)
    requires a.Length == |orig| && size <= a.Length
    requires forall k :: 0 <= k < a.Length && k >= a.Length - size ==> a[k] == orig[k - (a.Length - size)]
    requires forall k :: 0 <= k < a.Length - size ==> a[k] == 0
    ensures a[..] == LeftPad(orig[..size], a.Length)
  {
    var r := LeftPad(orig[..size], a.Length);
    LeftPadParts(orig[..size], a.Length);
    forall k | 0 <= k < a.Length
      ensures a[..][k] == r[k]
    {
      if k >= a.Length - size {
        assert r[k] == r[a.Length - size..][k - (a.Length - size)];
      }
    }
  }

  /** `HashSignature::get` into the buffer: the signature is stored at its front, the rest is left alone. */
  method Get(signer: Signer, key: seq<byte>, data: seq<byte>, signature: array<byte>) returns (size: nat)
    modifies signature
    ensures size == |signer(key, data, signature.Length)| <= signature.Length
    ensures signature[..size] == signer(key, data, signature.Length)
    ensures forall k :: size <= k < signature.Length ==> signature[k] == old(signature[k])
  {
    var sig := signer(key, data, signature.Length);
    forall k | 0 <= k < |sig| {
      signature[k] := sig[k];
    }
    size := |sig|;
  }

  /**
   * `signFile`: 0 when the file cannot be read; otherwise the signature of
   * its contents, left-padded to the whole buffer, whose length it returns.
   * A signature of length 0 is padded to a buffer of zeros like any other.
   */
  method SignFile(file: FileData, key: seq<byte>, signer: Signer, signature: array<byte>) returns (size: nat)
    modifies signature
    ensures file.Unreadable? ==> size == 0 && signature[..] == old(signature[..])
    ensures file.Contents? ==>
              size == signature.Length
              && signature[..] == LeftPad(signer(key, file.bytes, signature.Length), signature.Length)
  {
    if file.Unreadable? {
      return 0;
    }
    size := Get(signer, key, file.bytes, signature);
    ghost var sig := signer(key, file.bytes, signature.Length);
    if size < signature.Length {
      PadSignature(signature, size);
      size := signature.Length;
    } else {
      assert signature[..] == signature[..size];
      LeftPadParts(sig, signature.Length);
    }
  }

  // ---------------------------------------------------------------- main

  /** The key file: whether the stream went bad, and its text (empty when it could not be opened). */
  datatype KeyFile = KeyFile(bad: bool, text: seq<byte>)

  const NEWLINE: byte := 0x0A
  const SLASH: byte := 0x2F

  /** `std::getline`: the text up to the first newline, and what follows that newline. */
  function GetLine(s: seq<byte>): (r: (seq<byte>, seq<byte>))
    ensures |r.0| <= |s|
    decreases |s|
  {
    if s == [] then ([], [])
    else if s[0] == NEWLINE then ([], s[1..])
    else var (l, rest) := GetLine(s[1..]); ([s[0]] + l, rest)
  }

  /** getline splits the text at its first newline, or takes all of it. */
  lemma {:induction false} GetLineSplits(s: seq<byte>)
    ensures NEWLINE !in GetLine(s).0
    ensures s == GetLine(s).0 + [NEWLINE] + GetLine(s).1 || (s == GetLine(s).0 && GetLine(s).1 == [])
    decreases |s|
  {
    if s != [] && s[0] != NEWLINE {
      GetLineSplits(s[1..]);
      var (l, rest) := GetLine(s[1..]);
      assert GetLine(s) == ([s[0]] + l, rest);
      assert s == [s[0]] + s[1..];
    }
  }

  /** The public and private key lines of the key file. */
  function KeyLines(text: seq<byte>): (seq<byte>, seq<byte>)
  {
    var (pubk, rest) := GetLine(text);
    (pubk, GetLine(rest).0)
  }

  /** The update folder with '/' appended unless it already ends in one. */
  function FolderPath(folder: seq<byte>): (r: seq<byte>)
    ensures r != [] && r[|r| - 1] == SLASH
  {
    if folder != [] && folder[|folder| - 1] == SLASH then folder else folder + [SLASH]
  }

  /** File i of the table can be opened and read in the update folder. */
  predicate Readable(t: Table, folder: seq<byte>, fs: FileSystem, i: nat)
    requires i < |t.files|
  {
    fs(folder + t.files[i]).Contents?
  }

  predicate AllReadable(t: Table, folder: seq<byte>, fs: FileSystem)
  {
    forall i :: 0 <= i < |t.files| ==> Readable(t, folder, fs, i)
  }

  /** The Base64 file signature: the signature of the contents, padded to 512 bytes and encoded. */
  function FileSignature(key: seq<byte>, contents: seq<byte>, signer: Signer): seq<byte>
  {
    Encode(LeftPad(signer(key, contents, SIGNATURE_LENGTH), SIGNATURE_LENGTH))
  }

  /** The manifest entry of file i: url under the base URL, target path, Base64 signature. */
  function EntryOf(t: Table, folder: seq<byte>, fs: FileSystem, key: seq<byte>, signer: Signer, i: nat): Updater.Entry
    requires Shaped(t) && i < |t.files| && Readable(t, folder, fs, i)
  {
    Updater.Entry(t.baseUrl + t.files[i], t.targets[i], FileSignature(key, fs(folder + t.files[i]).bytes, signer))
  }

  /** The manifest entries of all files, in table order. */
  function Entries(t: Table, folder: seq<byte>, fs: FileSystem, key: seq<byte>, signer: Signer): (es: seq<Updater.Entry>)
    requires Shaped(t) && AllReadable(t, folder, fs)
    ensures |es| == |t.files|
    ensures forall i :: 0 <= i < |es| ==> es[i] == EntryOf(t, folder, fs, key, signer, i)
  {
    seq(|t.files|, i requires 0 <= i < |t.files| => EntryOf(t, folder, fs, key, signer, i))
  }

  lemma SignedFilesAppend(es: seq<Updater.Entry>, e: Updater.Entry)
    ensures Updater.SignedFiles(es + [e]) == Updater.SignedFiles(es) + e.url + e.target + e.signature
    decreases |es|
  {
    if es != [] {
      assert (es + [e])[1..] == es[1..] + [e];
      SignedFilesAppend(es[1..], e);
    } else {
      assert [e][1..] == [];
    }
  }

  lemma EntryLinesAppend(es: seq<Updater.Entry>, e: Updater.Entry)
    ensures Updater.EntryLines(es + [e]) == Updater.EntryLines(es) + [e.url, e.target, e.signature]
    decreases |es|
  {
    if es != [] {
      assert (es + [e])[1..] == es[1..] + [e];
      EntryLinesAppend(es[1..], e);
    } else {
      assert [e][1..] == [];
    }
  }

  /**
   * The signing loop of `main`: each file is signed, its signature encoded,
   * its url formed and the three added to the hash; 4 stops it at the first
   * file that cannot be read.
   */
  method SignFiles(t: Table, folder: seq<byte>, fs: FileSystem, key: seq<byte>, signer: Signer, version: seq<byte>,
                   signature: array<byte>)
    returns (ok: bool, downloadURLs: seq<seq<byte>>, signatures: seq<seq<byte>>, hashed: seq<byte>)
    requires Shaped(t) && signature.Length == SIGNATURE_LENGTH
    modifies signature
    ensures ok <==> AllReadable(t, folder, fs)
    ensures ok ==> var es := Entries(t, folder, fs, key, signer);
      |downloadURLs| == |signatures| == |es|
      && (forall i :: 0 <= i < |es| ==> downloadURLs[i] == es[i].url && signatures[i] == es[i].signature)
      && hashed == version + Updater.SignedFiles(es)
  {
    downloadURLs, signatures, hashed := [], [], version;
    ghost var done: seq<Updater.Entry> := [];
    var i := 0;
    while i < |t.files|
      invariant i <= |t.files| && SignedPrefix(t, folder, fs, key, signer, version, i, done, downloadURLs, signatures, hashed)
    {
      var signed, fileUrl, s := SignEntry(t, folder, fs, key, signer, i, signature);
      if !signed {
        return false, downloadURLs, signatures, hashed;
      }
      PrefixStep(t, folder, fs, key, signer, version, i, done, downloadURLs, signatures, hashed, fileUrl, s);
      downloadURLs := downloadURLs + [fileUrl];
      signatures := signatures + [s];
      hashed := hashed + fileUrl + t.targets[i] + s;
      done := done + [EntryOf(t, folder, fs, key, signer, i)];
      i := i + 1;
    }
    ok := true;
    assert done == Entries(t, folder, fs, key, signer);
  }

  /**
   * The signing loop's invariant after i files: all were readable, and the
   * urls, signatures and hashed bytes are those of their entries.
   */
  ghost predicate SignedPrefix(t: Table, folder: seq<byte>, fs: FileSystem, key: seq<byte>, signer: Signer,
                               version: seq<byte>, i: nat, done: seq<Updater.Entry>, urls: seq<seq<byte>>,
                               sigs: seq<seq<byte>>, hashed: seq<byte>)
  {
    Shaped(t) && i <= |t.files| && |done| == |urls| == |sigs| == i
    && (forall j :: 0 <= j < i ==> Readable(t, folder, fs, j) && done[j] == EntryOf(t, folder, fs, key, signer, j))
    && (forall j :: 0 <= j < i ==> urls[j] == done[j].url && sigs[j] == done[j].signature)
    && hashed == version + Updater.SignedFiles(done)
  }

  lemma PrefixStep(t: Table, folder: seq<byte>, fs: FileSystem, key: seq<byte>, signer: Signer, version: seq<byte>,
                   i: nat, done: seq<Updater.Entry>, urls: seq<seq<byte>>, sigs: seq<seq<byte>>, hashed: seq<byte>,
                   url: seq<byte>, s: seq<byte>)
    requires SignedPrefix(t, folder, fs, key, signer, version, i, done, urls, sigs, hashed)
    requires i < |t.files| && Readable(t, folder, fs, i)
    requires url == EntryOf(t, folder, fs, key, signer, i).url && s == EntryOf(t, folder, fs, key, signer, i).signature
    ensures SignedPrefix(t, folder, fs, key, signer, version, i + 1, done + [EntryOf(t, folder, fs, key, signer, i)],
                         urls + [url], sigs + [s], hashed + url + t.targets[i] + s)
  {
    var e := EntryOf(t, folder, fs, key, signer, i);
    var done', urls', sigs' := done + [e], urls + [url], sigs + [s];
    forall j | 0 <= j < i + 1
      ensures Readable(t, folder, fs, j) && done'[j] == EntryOf(t, folder, fs, key, signer, j)
      ensures urls'[j] == done'[j].url && sigs'[j] == done'[j].signature
    {
      if j < i {
        assert done'[j] == done[j] && urls'[j] == urls[j] && sigs'[j] == sigs[j];
      }
    }
    SignedFilesAppend(done, e);
    HashedStep(version, Updater.SignedFiles(done), url, t.targets[i], s);
  }

  lemma HashedStep(version: seq<byte>, files: seq<byte>, url: seq<byte>, target: seq<byte>, s: seq<byte>)
    ensures version + files + url + target + s == version + (files + url + target + s)
  {
  }

  /** One round of the signing loop: the signature and url of file i, unless it cannot be read. */
  method SignEntry(t: Table, folder: seq<byte>, fs: FileSystem, key: seq<byte>, signer: Signer, i: nat,
                   signature: array<byte>)
    returns (ok: bool, fileUrl: seq<byte>, s: seq<byte>)
    requires Shaped(t) && i < |t.files| && signature.Length == SIGNATURE_LENGTH
    modifies signature
    ensures ok <==> Readable(t, folder, fs, i)
    ensures ok ==> fileUrl == EntryOf(t, folder, fs, key, signer, i).url
                   && s == EntryOf(t, folder, fs, key, signer, i).signature
  {
    var filePath := folder + t.files[i];
    var size := SignFile(fs(filePath), key, signer, signature);
    if size == 0 {
      return false, [], [];
    }
    assert signature[..size] == signature[..];
    s := BtoaString(signature[..size]);
    fileUrl := t.baseUrl + t.files[i];
    ok := true;
  }

  /** The printing loop of `main`: version, update signature, then url, target and signature of each file. */
  method PrintManifest(version: seq<byte>, updateSignature: seq<byte>, downloadURLs: seq<seq<byte>>,
                       targets: seq<seq<byte>>, signatures: seq<seq<byte>>, ghost es: seq<Updater.Entry>)
    returns (out: seq<seq<byte>>)
    requires |downloadURLs| == |signatures| == |es| <= |targets|
    requires forall i :: 0 <= i < |es| ==>
               downloadURLs[i] == es[i].url && targets[i] == es[i].target && signatures[i] == es[i].signature
    ensures out == [version, updateSignature] + Updater.EntryLines(es)
  {
    out := [version, updateSignature];
    var i := 0;
    while i < |downloadURLs|
      invariant 0 <= i <= |es| && out == [version, updateSignature] + Updater.EntryLines(es[..i])
    {
      EntryLinesAppend(es[..i], es[i]);
      assert es[..i + 1] == es[..i] + [es[i]];
      out := out + [downloadURLs[i], targets[i], signatures[i]];
      i := i + 1;
    }
    assert es[..i] == es;
  }

  const G_FLAG: seq<byte> := [0x2D, 0x67]
  const S_FLAG: seq<byte> := [0x2D, 0x73]
  const WIN: seq<byte> := [0x77, 0x69, 0x6E]
  const OSX: seq<byte> := [0x6F, 0x73, 0x78]

  /** `main -s <win|osx> <folder> <keyfile> <version>`. */
  predicate SignCommand(argv: seq<seq<byte>>)
  {
    |argv| == 6 && argv[1] == S_FLAG && (argv[2] == WIN || argv[2] == OSX)
  }

  function TableFor(argv: seq<seq<byte>>): Table
    requires SignCommand(argv)
  {
    if argv[2] == WIN then WIN_TABLE else OSX_TABLE
  }

  /** The private key bytes: the Base64 text of the key file's second line, decoded. */
  function PrivateKey(keyFile: KeyFile): seq<byte>
  {
    Decode(KeyLines(keyFile.text).1)
  }

  /** The key file is readable and has both keys, and the version code is not 0. */
  predicate KeysAndVersionOk(argv: seq<seq<byte>>, keyFile: KeyFile)
    requires SignCommand(argv)
  {
    !keyFile.bad && KeyLines(keyFile.text).0 != [] && KeyLines(keyFile.text).1 != [] && Updater.Atoi(argv[5]) != 0
  }

  /** The bytes the update signature covers: the version, then url, target and signature of every file. */
  function Hashed(version: seq<byte>, es: seq<Updater.Entry>): seq<byte>
  {
    version + Updater.SignedFiles(es)
  }

  /**
   * `main`. The generated key pair (already serialized), the key file, the
   * update folder's files and the signer are parameters; the result is the
   * exit code and the lines written to standard output.
   */
  method Generate(argv: seq<seq<byte>>, pubks: seq<byte>, privks: seq<byte>, keyFile: KeyFile, fs: FileSystem,
    signer: Signer)
    returns (code: int, out: seq<seq<byte>>)
    ensures |argv| == 2 && argv[1] == G_FLAG ==> code == 0 && out == [Encode(pubks), Encode(privks)]
    ensures !(|argv| == 2 && argv[1] == G_FLAG) && !SignCommand(argv) ==> code == 1 && out == []
    ensures SignCommand(argv) ==>
      var (pubk, privk) := KeyLines(keyFile.text);
      (keyFile.bad ==> code == 2 && out == [])
      && (!keyFile.bad && (pubk == [] || privk == []) ==> code == 3 && out == [])
      && (!keyFile.bad && pubk != [] && privk != [] && Updater.Atoi(argv[5]) == 0 ==> code == 5 && out == [])
      && (KeysAndVersionOk(argv, keyFile) ==>
            var t := TableFor(argv);
            var folder := FolderPath(argv[3]);
            var key := PrivateKey(keyFile);
            Shaped(t)
            && (!AllReadable(t, folder, fs) ==> code == 4 && out == [])
            && (AllReadable(t, folder, fs) ==>
                  var es := Entries(t, folder, fs, key, signer);
                  var sig := signer(key, Hashed(argv[5], es), SIGNATURE_LENGTH);
                  (sig == [] ==> code == 6 && out == [])
                  && (sig != [] ==>
                        code == 0
                        && out == [argv[5], Encode(LeftPad(sig, SIGNATURE_LENGTH))] + Updater.EntryLines(es))))
  {
    out := [];
    if |argv| == 2 && argv[1] == G_FLAG {
      var pubkstr := BtoaString(pubks);
      var privkstr := BtoaString(privks);
      return 0, [pubkstr, privkstr];
    }
    if !SignCommand(argv) {
      return 1, [];
    }
    var win := argv[2] == WIN;
    var updateFolder := argv[3];
    if updateFolder == [] || updateFolder[|updateFolder| - 1] != SLASH {
      updateFolder := updateFolder + [SLASH];
    }
    if keyFile.bad {
      return 2, [];
    }
    var (pubk, rest) := GetLine(keyFile.text);
    var (privk, _) := GetLine(rest);
    if pubk == [] || privk == [] {
      return 3, [];
    }
    if Updater.Atoi(argv[5]) == 0 {
      return 5, [];
    }
    var privksBuffer := new byte[|privk| / 4 * 3 + 3];
    DecodeBound(privk);
    var n := Atob(privk, privksBuffer, privksBuffer.Length);
    var key := privksBuffer[..n];
    assert key == PrivateKey(keyFile);
    var t := if win then WIN_TABLE else OSX_TABLE;
    SourceTablesShaped();
    code, out := SignUpdate(t, updateFolder, fs, key, signer, argv[5]);
  }

  /**
   * The rest of `main -s`: sign the files (4 at the first unreadable one),
   * sign the hashed data (6 for an empty signature), print the manifest (0).
   */
  method SignUpdate(t: Table, folder: seq<byte>, fs: FileSystem, key: seq<byte>, signer: Signer, version: seq<byte>)
    returns (code: int, out: seq<seq<byte>>)
    requires Shaped(t)
    ensures !AllReadable(t, folder, fs) ==> code == 4 && out == []
    ensures AllReadable(t, folder, fs) ==>
      var es := Entries(t, folder, fs, key, signer);
      var sig := signer(key, Hashed(version, es), SIGNATURE_LENGTH);
      (sig == [] ==> code == 6 && out == [])
      && (sig != [] ==> code == 0 && out == [version, Encode(LeftPad(sig, SIGNATURE_LENGTH))] + Updater.EntryLines(es))
  {
    var signature := new byte[SIGNATURE_LENGTH];
    var ok, downloadURLs, signatures, hashed := SignFiles(t, folder, fs, key, signer, version, signature);
    if !ok {
      return 4, [];
    }
    ghost var es := Entries(t, folder, fs, key, signer);
    var signed, updateFileSignature := UpdateSignature(key, signer, hashed, signature);
    if !signed {
      return 6, [];
    }
    code := 0;
    out := PrintManifest(version, updateFileSignature, downloadURLs, t.targets, signatures, es);
  }

  /** The update signature: nothing when the signer returns none, otherwise padded to 512 bytes and encoded. */
  method UpdateSignature(key: seq<byte>, signer: Signer, hashed: seq<byte>, signature: array<byte>)
    returns (ok: bool, updateFileSignature: seq<byte>)
    requires signature.Length == SIGNATURE_LENGTH
    modifies signature
    ensures ok <==> signer(key, hashed, SIGNATURE_LENGTH) != []
    ensures ok ==> updateFileSignature == Encode(LeftPad(signer(key, hashed, SIGNATURE_LENGTH), SIGNATURE_LENGTH))
  {
    var size := Get(signer, key, hashed, signature);
    if size == 0 {
      return false, [];
    }
    ghost var sig := signer(key, hashed, SIGNATURE_LENGTH);
    if size < signature.Length {
      PadSignature(signature, size);
      size := signature.Length;
    } else {
      assert signature[..] == signature[..size];
      LeftPadParts(sig, SIGNATURE_LENGTH);
    }
    assert signature[..size] == signature[..];
    updateFileSignature := BtoaString(signature[..size]);
    ok := true;
  }

  // ---------------------------------------------------------------- generator and updater agree

  /** Every url and target path of the table is a line the updater reads back whole. */
  predicate CleanTable(t: Table)
    requires Shaped(t)
  {
    forall i :: 0 <= i < |t.files| ==> Updater.CleanLine(t.baseUrl + t.files[i]) && Updater.CleanLine(t.targets[i])
  }

  /** A Base64-encoded 512-byte signature is a clean line: 683 URL-safe characters. */
  lemma SignatureLine(x: seq<byte>)
    requires |x| == SIGNATURE_LENGTH
    ensures Updater.CleanLine(Encode(x))
  {
    EncodeLength(x);
    EncodeAlphabet(x);
  }

  lemma CleanGenerated(t: Table, folder: seq<byte>, fs: FileSystem, key: seq<byte>, signer: Signer)
    requires Shaped(t) && AllReadable(t, folder, fs) && CleanTable(t)
    ensures Updater.CleanEntries(Entries(t, folder, fs, key, signer))
  {
    var es := Entries(t, folder, fs, key, signer);
    forall i | 0 <= i < |es|
      ensures Updater.CleanEntry(es[i])
    {
      assert Readable(t, folder, fs, i);
      SignatureLine(LeftPad(signer(key, fs(folder + t.files[i]).bytes, SIGNATURE_LENGTH), SIGNATURE_LENGTH));
    }
  }

  /**
   * Reading back what the generator prints: the updater signs exactly the
   * bytes the generator hashed (the version, then url, target and Base64
   * signature of each file), queues the files not yet installed, and accepts
   * exactly when the version is newer, something is left to download and the
   * update signature checks out over those bytes.
   */
  lemma GeneratedManifestRead(version: seq<byte>, rawSignature: seq<byte>, t: Table, folder: seq<byte>,
                              fs: FileSystem, key: seq<byte>, signer: Signer, currentVersion: int, pending: nat,
                              installed: Updater.Installed, sigOk: Updater.SignatureCheck)
    requires Shaped(t) && AllReadable(t, folder, fs) && CleanTable(t)
    requires Updater.CleanLine(version) && |rawSignature| <= SIGNATURE_LENGTH
    ensures var es := Entries(t, folder, fs, key, signer);
      var updateSignature := Encode(LeftPad(rawSignature, SIGNATURE_LENGTH));
      var o := Updater.Process(Updater.Lines([version, updateSignature] + Updater.EntryLines(es)), currentVersion,
                               pending, installed, sigOk);
      var pend := Updater.Pending(es, installed);
      var accepted := currentVersion != -1 && Updater.Atoi(version) > currentVersion;
      (accepted ==> o.signed == Some(Hashed(version, es)) && o.rest == [] && o.scan.Some?
                    && o.scan.value.urls == Updater.Urls(pend) && o.scan.value.paths == Updater.Targets(pend)
                    && o.scan.value.sigs == Updater.Signatures(pend))
      && (o.ok <==> accepted && pending + |pend| > 0 && sigOk(Hashed(version, es), updateSignature))
  {
    var es := Entries(t, folder, fs, key, signer);
    CleanGenerated(t, folder, fs, key, signer);
    LeftPadParts(rawSignature, SIGNATURE_LENGTH);
    SignatureLine(LeftPad(rawSignature, SIGNATURE_LENGTH));
    Updater.ManifestAccepted(version, Encode(LeftPad(rawSignature, SIGNATURE_LENGTH)), es, currentVersion, pending,
                             installed, sigOk);
  }
}
