/**
 * The binary field serialiser of megacmdtransfermanager.cpp/.h (ParamWriter
 * appends raw fields to a string, ParamReader walks a cursor over one) and
 * the DownloadId key with its object ids.
 *
 * Fixed-size values are written as their sizeof(T) raw bytes; the model
 * takes them little-endian, as on the x86-64 and ARM64 targets, with
 * size_t 8 bytes and bool 1 byte.
 */
module TransferManager {
  import opened Wrappers
  import opened Text
  import CommonUtils

  /** One char of the serialised std::string, as an unsigned byte. */
  newtype byte = x: int | 0 <= x < 256

  const SIZE_T: nat := 8

  function Pow256(w: nat): (r: nat)
    ensures r >= 1
  {
    if w == 0 then 1 else 256 * Pow256(w - 1)
  }

  /** The w raw bytes of v, least significant first (v modulo 256^w, as a T holds it). */
  function Raw(v: nat, w: nat): (r: seq<byte>)
    ensures |r| == w
  {
    if w == 0 then [] else [(v % 256) as byte] + Raw(v / 256, w - 1)
  }

  /** The value whose raw bytes are s. */
  function Value(s: seq<byte>): nat
  {
    if s == [] then 0 else s[0] as int + 256 * Value(s[1..])
  }

  lemma {:induction false} ValueBound(s: seq<byte>)
    ensures Value(s) < Pow256(|s|)
  {
    if s != [] {
      ValueBound(s[1..]);
    }
  }

  lemma DivBound(v: nat, w: nat)
    requires w > 0 && v < Pow256(w)
    ensures v / 256 < Pow256(w - 1) && v == v % 256 + 256 * (v / 256)
  {
  }

  /** memcpy into a value gives back what was written. */
  lemma {:induction false} ValueOfRaw(v: nat, w: nat)
    requires v < Pow256(w)
    ensures Value(Raw(v, w)) == v
  {
    if w > 0 {
      DivBound(v, w);
      ValueOfRaw(v / 256, w - 1);
      var r := Raw(v, w);
      assert r[0] == (v % 256) as byte && r[1..] == Raw(v / 256, w - 1);
    }
  }

  /** And every w bytes are the raw bytes of exactly one value. */
  lemma {:induction false} RawOfValue(s: seq<byte>)
    ensures Value(s) < Pow256(|s|) && Raw(Value(s), |s|) == s
  {
    ValueBound(s);
    if s != [] {
      RawOfValue(s[1..]);
      var v, x, y := Value(s), s[0] as int, Value(s[1..]);
      assert v == x + 256 * y;
      DivModByte(x, y);
      assert (x as byte) == s[0];
      assert Raw(v, |s|) == [(v % 256) as byte] + Raw(v / 256, |s| - 1);
      assert s == [s[0]] + s[1..];
    }
  }

  lemma DivModByte(x: nat, y: nat)
    requires x < 256
    ensures (x + 256 * y) % 256 == x && (x + 256 * y) / 256 == y
  {
  }

  function BoolByte(b: bool): byte
  {
    if b then 1 else 0
  }

  /** The bytes of a C string: up to its first NUL. */
  function CBytes(s: seq<byte>): (r: seq<byte>)
    ensures |r| <= |s|
  {
    if s == [] || s[0] == 0 then [] else [s[0]] + CBytes(s[1..])
  }

  /** CBytes is the prefix before the first NUL, or all of s when it has none. */
  lemma {:induction false} CBytesIs(s: seq<byte>)
    ensures var r := CBytes(s); 0 !in r && r == s[..|r|] && (|r| < |s| ==> s[|r|] == 0)
  {
    if s != [] && s[0] != 0 {
      CBytesIs(s[1..]);
      assert s == [s[0]] + s[1..];
    }
  }

  /** A field of a serialised record: a raw value, a sized std::string, or a possibly null C string. */
  datatype Field = RawField(v: nat, width: nat) | StringField(s: seq<byte>) | CStringField(c: Option<seq<byte>>)

  predicate FieldOk(f: Field)
  {
    match f
    case RawField(v, w) => v < Pow256(w)
    case StringField(s) => |s| < Pow256(SIZE_T)
    case CStringField(_) => true
  }

  /** `<<` for std::string: the size as a size_t, then the bytes. */
  function EncodedString(s: seq<byte>): (r: seq<byte>)
    ensures |r| == SIZE_T + |s|
  {
    Raw(|s|, SIZE_T) + s
  }

  /** `<<` for a C string: the null flag, then for a non-null string its bytes and a NUL. */
  function EncodedCString(c: Option<seq<byte>>): seq<byte>
  {
    match c
    case None => [BoolByte(true)]
    case Some(s) => [BoolByte(false)] + CBytes(s) + [0]
  }

  function EncodedField(f: Field): seq<byte>
  {
    match f
    case RawField(v, w) => Raw(v, w)
    case StringField(s) => EncodedString(s)
    case CStringField(c) => EncodedCString(c)
  }

  function EncodedFields(fs: seq<Field>): seq<byte>
  {
    if fs == [] then [] else EncodedField(fs[0]) + EncodedFields(fs[1..])
  }

  /** `<<` for a MegaTransfer*: the null flag, then for a transfer each of its fields in order. */
  function EncodedTransfer(t: Option<seq<Field>>): seq<byte>
  {
    match t
    case None => [BoolByte(true)]
    case Some(fs) => [BoolByte(false)] + EncodedFields(fs)
  }

  lemma EncodedFieldsAppend(fs: seq<Field>, f: Field)
    ensures EncodedFields(fs + [f]) == EncodedFields(fs) + EncodedField(f)
    decreases |fs|
  {
    if fs != [] {
      assert (fs + [f])[1..] == fs[1..] + [f];
      EncodedFieldsAppend(fs[1..], f);
    } else {
      assert [f][1..] == [];
    }
  }

  lemma AppendedField(start: seq<byte>, before: seq<byte>, after: seq<byte>, fs: seq<Field>, i: nat)
    requires i < |fs| && before == start + EncodedFields(fs[..i]) && after == before + EncodedField(fs[i])
    ensures after == start + EncodedFields(fs[..i + 1])
  {
    var pre, f := fs[..i], fs[i];
    assert fs[..i + 1] == pre + [f];
    EncodedFieldsAppend(pre, f);
    Associated(start, EncodedFields(pre), EncodedField(f));
  }

  lemma Associated(a: seq<byte>, b: seq<byte>, c: seq<byte>)
    ensures (a + b) + c == a + (b + c)
  {
  }

  /** ParamWriter over the string it appends to. */
  class ParamWriter {
    var out: seq<byte>

    constructor(where: seq<byte>)
      ensures out == where
    {
      out := where;
    }

    /** The templated `<<`: sizeof(T) raw bytes. */
    method WriteRaw(v: nat, width: nat)
      modifies this
      ensures out == old(out) + Raw(v, width)
    {
      out := out + Raw(v, width);
    }

    method WriteBool(b: bool)
      modifies this
      ensures out == old(out) + [BoolByte(b)]
    {
      WriteRaw(if b then 1 else 0, 1);
    }

    /** `write`: the first size bytes of the buffer. */
    method Write(buffer: seq<byte>, size: nat)
      requires size <= |buffer|
      modifies this
      ensures out == old(out) + buffer[..size]
    {
      out := out + buffer[..size];
    }

    method WriteString(s: seq<byte>)
      modifies this
      ensures out == old(out) + EncodedString(s)
    {
      WriteRaw(|s|, SIZE_T);
      Write(s, |s|);
      assert s[..|s|] == s;
    }

    method WriteCString(c: Option<seq<byte>>)
      modifies this
      ensures out == old(out) + EncodedCString(c)
    {
      ghost var start := out;
      WriteBool(c.None?);
      if c.Some? {
        var bytes := CBytes(c.value);
        out := out + bytes + [0];
        assert out == start + ([BoolByte(false)] + bytes + [0]);
      }
    }

    method WriteField(f: Field)
        modifies this
      ensures out == old(out) + EncodedField(f)
    {
      match f
      case RawField(v, w) => WriteRaw(v, w);
      case StringField(s) => WriteString(s);
      case CStringField(c) => WriteCString(c);
    }

    /** The getters of a transfer streamed one after another. */
    method WriteFields(fs: seq<Field>)
        modifies this
      ensures out == old(out) + EncodedFields(fs)
    {
      ghost var start := out;
      var i := 0;
      while i < |fs|
        invariant 0 <= i <= |fs| && out == start + EncodedFields(fs[..i])
      {
        ghost var before := out;
        WriteField(fs[i]);
        AppendedField(start, before, out, fs, i);
        i := i + 1;
      }
      assert fs[..i] == fs;
    }

    /** `<<` for a MegaTransfer*: the fields are the transfer's getters in their fixed order. */
    method WriteTransfer(t: Option<seq<Field>>)
        modifies this
      ensures out == old(out) + EncodedTransfer(t)
    {
      WriteBool(t.None?);
      if t.Some? {
        WriteFields(t.value);
      }
    }
  }

  // ---------------------------------------------------------------- reading

  /** Where advanceString leaves the cursor: just after the first NUL from p on, or at the end. */
  function StringEnd(buf: seq<byte>, p: nat): (q: nat)
    requires p <= |buf|
    ensures p <= q <= |buf|
    decreases |buf| - p
  {
    if p == |buf| then p else if buf[p] == 0 then p + 1 else StringEnd(buf, p + 1)
  }

  lemma {:induction false} StringEndIs(buf: seq<byte>, p: nat)
    requires p <= |buf|
    ensures var q := StringEnd(buf, p);
      (q == |buf| && 0 !in buf[p..]) || (p < q && buf[q - 1] == 0 && 0 !in buf[p..q - 1])
    decreases |buf| - p
  {
    if p < |buf| && buf[p] != 0 {
      StringEndIs(buf, p + 1);
      var q := StringEnd(buf, p + 1);
      assert buf[p..] == [buf[p]] + buf[p + 1..];
      if p + 1 < q {
        assert buf[p..q - 1] == [buf[p]] + buf[p + 1..q - 1];
      }
    }
  }

  /** The templated `>>`: a value and the new cursor; both unchanged when fewer than w bytes remain. */
  function ReadRawAt(buf: seq<byte>, p: nat, w: nat, o: nat): (r: (nat, nat))
    requires p <= |buf|
    ensures r.1 <= |buf|
  {
    if p + w <= |buf| then (Value(buf[p..p + w]), p + w) else (o, p)
  }

  /**
   * `>>` for bool. When no byte is left the local flag stays uninitialised:
   * `unset` is its indeterminate value.
   */
  function ReadBoolAt(buf: seq<byte>, p: nat, unset: bool): (r: (bool, nat))
    requires p <= |buf|
    ensures r.1 <= |buf|
  {
    if p + 1 <= |buf| then (buf[p] != 0, p + 1) else (unset, p)
  }

  /**
   * `>>` for std::string: the size, then that many bytes if they remain,
   * else o untouched. `unset` is the indeterminate size when fewer than
   * sizeof(size_t) bytes remain.
   */
  function ReadStringAt(buf: seq<byte>, p: nat, o: seq<byte>, unset: nat): (r: (seq<byte>, nat))
    requires p <= |buf|
    ensures r.1 <= |buf|
  {
    var (size, p1) := ReadRawAt(buf, p, SIZE_T, unset);
    if p1 + size <= |buf| then (buf[p1..p1 + size], p1 + size) else (o, p1)
  }

  /** `>>` for a C string: null, or the bytes up to the NUL (strdup), then advanceString. */
  function ReadCStringAt(buf: seq<byte>, p: nat, unset: bool): (r: (Option<seq<byte>>, nat))
    requires p <= |buf|
    ensures r.1 <= |buf|
  {
    var (isNull, p1) := ReadBoolAt(buf, p, unset);
    if isNull then (None, p1) else (Some(CBytes(buf[p1..])), StringEnd(buf, p1))
  }

  /** ParamReader over a serialised string, with the cursor mP as an offset from mStart. */
  class ParamReader {
    const buf: seq<byte>
    var p: nat

    constructor(params: seq<byte>)
      ensures buf == params && p == 0
    {
      buf := params;
      p := 0;
    }

    predicate Valid()
      reads this
    {
      p <= |buf|
    }

    /** `sizeRead`: the bytes consumed since construction. */
    function SizeRead(): (n: nat)
      reads this
      requires Valid()
      ensures n <= |buf|
    {
      p
    }

    /** `advance`; the source asserts the cursor stays within the buffer. */
    method Advance(size: nat)
      requires Valid() && p + size <= |buf|
      modifies this
      ensures Valid() && p == old(p) + size
    {
      p := p + size;
    }

    method AdvanceString()
      requires Valid()
      modifies this
      ensures Valid() && p == StringEnd(buf, old(p))
    {
      while p < |buf| && buf[p] != 0
        invariant p <= |buf| && StringEnd(buf, p) == StringEnd(buf, old(p))
        decreases |buf| - p
      {
        p := p + 1;
      }
      if p < |buf| {
        p := p + 1;
      }
    }

    method ReadRaw(w: nat, o: nat) returns (v: nat)
      requires Valid()
      modifies this
      ensures Valid() && (v, p) == ReadRawAt(buf, old(p), w, o)
    {
      v := o;
      if p + w <= |buf| {
        v := Value(buf[p..p + w]);
        Advance(w);
      }
    }

    method ReadBool(unset: bool) returns (b: bool)
      requires Valid()
      modifies this
      ensures Valid() && (b, p) == ReadBoolAt(buf, old(p), unset)
    {
      b := unset;
      if p + 1 <= |buf| {
        b := buf[p] != 0;
        Advance(1);
      }
    }

    method ReadString(o: seq<byte>, unset: nat) returns (s: seq<byte>)
      requires Valid()
      modifies this
      ensures Valid() && (s, p) == ReadStringAt(buf, old(p), o, unset)
    {
      var size := ReadRaw(SIZE_T, unset);
      s := o;
      if p + size <= |buf| {
        s := buf[p..p + size];
        Advance(size);
      }
    }

    method ReadCString(unset: bool) returns (c: Option<seq<byte>>)
      requires Valid()
      modifies this
      ensures Valid() && (c, p) == ReadCStringAt(buf, old(p), unset)
    {
      var isNull := ReadBool(unset);
      if isNull {
        return None;
      }
      c := Some(CBytes(buf[p..]));
      AdvanceString();
    }

    /** `>>` for a MegaTransfer*: null on the flag or at the end, else the nested parse and exactly what it consumed. */
    /**
     * `parse` stands for the nested MegaTransferHeldInString parse: the
     * transfer and how many bytes it consumed, never more than it was given.
     */
    method ReadTransfer<T>(parse: seq<byte> -> (T, nat), unset: bool) returns (t: Option<T>)
      requires Valid() && forall s :: parse(s).1 <= |s|
      modifies this
      ensures Valid()
      ensures var (isNull, p1) := ReadBoolAt(buf, old(p), unset);
        if isNull || p1 == |buf| then t == None && p == p1
        else t == Some(parse(buf[p1..]).0) && p == p1 + parse(buf[p1..]).1
    {
      var isNull := ReadBool(unset);
      if isNull {
        return None;
      }
      if p < |buf| {
        var (transfer, sizeRead) := parse(buf[p..]);
        Advance(sizeRead);
        return Some(transfer);
      }
      return None;
    }
  }

  // ---------------------------------------------------------------- round trips

  lemma SliceOf(pre: seq<byte>, x: seq<byte>, post: seq<byte>)
    ensures (pre + x + post)[|pre|..|pre| + |x|] == x
    ensures (pre + x + post)[|pre| + |x|..] == post
  {
  }

  /** A raw value reads back and consumes its width. */
  lemma RawRoundTrip(pre: seq<byte>, v: nat, w: nat, post: seq<byte>, o: nat)
    requires v < Pow256(w)
    ensures ReadRawAt(pre + Raw(v, w) + post, |pre|, w, o) == (v, |pre| + w)
  {
    SliceOf(pre, Raw(v, w), post);
    ValueOfRaw(v, w);
  }

  /** A string written as (size, bytes) reads back equal and consumes sizeof(size_t) plus its length. */
  lemma StringRoundTrip(pre: seq<byte>, s: seq<byte>, post: seq<byte>, o: seq<byte>, unset: nat)
    requires |s| < Pow256(SIZE_T)
    ensures ReadStringAt(pre + EncodedString(s) + post, |pre|, o, unset) == (s, |pre| + SIZE_T + |s|)
  {
    var buf := pre + EncodedString(s) + post;
    assert buf == pre + Raw(|s|, SIZE_T) + (s + post);
    RawRoundTrip(pre, |s|, SIZE_T, s + post, unset);
    assert buf == (pre + Raw(|s|, SIZE_T)) + s + post;
    SliceOf(pre + Raw(|s|, SIZE_T), s, post);
  }

  /** A declared size beyond the remaining bytes leaves the string untouched, the size itself consumed. */
  lemma OversizedString(buf: seq<byte>, p: nat, o: seq<byte>, unset: nat)
    requires p + SIZE_T <= |buf| && p + SIZE_T + Value(buf[p..p + SIZE_T]) > |buf|
    ensures ReadStringAt(buf, p, o, unset) == (o, p + SIZE_T)
  {
  }

  /** A C string without NULs reads back equal; the null flag, its bytes and the NUL are consumed. */
  lemma CStringRoundTrip(pre: seq<byte>, s: seq<byte>, post: seq<byte>, unset: bool)
    requires 0 !in s
    ensures ReadCStringAt(pre + EncodedCString(Some(s)) + post, |pre|, unset) == (Some(s), |pre| + 1 + |s| + 1)
  {
    var buf := pre + EncodedCString(Some(s)) + post;
    CBytesClean(s);
    var p1 := |pre| + 1;
    assert buf[|pre|] == 0;
    assert buf[p1..] == s + ([0] + post);
    CBytesStop(s, [0] + post);
    assert buf[p1..p1 + |s|] == s && buf[p1 + |s|] == 0;
    StringEndAtNul(buf, p1, s);
    assert ReadBoolAt(buf, |pre|, unset) == (false, p1);
  }

  /** A null C string is the flag alone and reads back as null. */
  lemma NullRoundTrip(pre: seq<byte>, post: seq<byte>, unset: bool)
    ensures ReadCStringAt(pre + EncodedCString(None) + post, |pre|, unset) == (None, |pre| + 1)
  {
    assert (pre + EncodedCString(None) + post)[|pre|] == 1;
  }

  lemma {:induction false} CBytesClean(s: seq<byte>)
    requires 0 !in s
    ensures CBytes(s) == s
  {
    if s != [] {
      CBytesClean(s[1..]);
    }
  }

  lemma {:induction false} CBytesStop(s: seq<byte>, rest: seq<byte>)
    requires 0 !in s && rest != [] && rest[0] == 0
    ensures CBytes(s + rest) == s
  {
    if s != [] {
      assert (s + rest)[1..] == s[1..] + rest;
      CBytesStop(s[1..], rest);
    }
  }

  lemma {:induction false} StringEndAtNul(buf: seq<byte>, p: nat, s: seq<byte>)
    requires p + |s| < |buf| && buf[p..p + |s|] == s && 0 !in s && buf[p + |s|] == 0
    ensures StringEnd(buf, p) == p + |s| + 1
    decreases |s|
  {
    if s != [] {
      assert buf[p] == s[0];
      assert buf[p + 1..p + 1 + |s[1..]|] == s[1..];
      StringEndAtNul(buf, p + 1, s[1..]);
    }
  }

  /** Reading one field back with the `>>` of its kind; `shape` gives the kind and width. */
  function ReadFieldAt(buf: seq<byte>, p: nat, shape: Field): (r: (Field, nat))
    requires p <= |buf|
    ensures r.1 <= |buf|
  {
    match shape
    case RawField(_, w) => var r := ReadRawAt(buf, p, w, 0); (RawField(r.0, w), r.1)
    case StringField(_) => var r := ReadStringAt(buf, p, [], 0); (StringField(r.0), r.1)
    case CStringField(_) => var r := ReadCStringAt(buf, p, true); (CStringField(r.0), r.1)
  }

  /** A field within its type's range (and a C string without an embedded NUL) reads back as written. */
  predicate Representable(f: Field)
  {
    FieldOk(f) && (f.CStringField? && f.c.Some? ==> 0 !in f.c.value)
  }

  lemma FieldRoundTrip(pre: seq<byte>, f: Field, post: seq<byte>)
    requires Representable(f)
    ensures ReadFieldAt(pre + EncodedField(f) + post, |pre|, f) == (f, |pre| + |EncodedField(f)|)
  {
    match f
    case RawField(v, w) => RawFieldRoundTrip(pre, v, w, post);
    case StringField(x) => StringFieldRoundTrip(pre, x, post);
    case CStringField(c) => CStringFieldRoundTrip(pre, c, post);
  }

  lemma RawFieldRoundTrip(pre: seq<byte>, v: nat, w: nat, post: seq<byte>)
    requires v < Pow256(w)
    ensures ReadFieldAt(pre + Raw(v, w) + post, |pre|, RawField(v, w)) == (RawField(v, w), |pre| + w)
  {
    RawRoundTrip(pre, v, w, post, 0);
  }

  lemma StringFieldRoundTrip(pre: seq<byte>, x: seq<byte>, post: seq<byte>)
    requires |x| < Pow256(SIZE_T)
    ensures ReadFieldAt(pre + EncodedString(x) + post, |pre|, StringField(x)) == (StringField(x), |pre| + |EncodedString(x)|)
  {
    StringRoundTrip(pre, x, post, [], 0);
  }

  lemma CStringFieldRoundTrip(pre: seq<byte>, c: Option<seq<byte>>, post: seq<byte>)
    requires c.Some? ==> 0 !in c.value
    ensures ReadFieldAt(pre + EncodedCString(c) + post, |pre|, CStringField(c)) == (CStringField(c), |pre| + |EncodedCString(c)|)
  {
    if c.Some? {
      CStringRoundTrip(pre, c.value, post, true);
      CBytesClean(c.value);
    } else {
      NullRoundTrip(pre, post, true);
    }
  }

  // ---------------------------------------------------------------- DownloadId

  /** A download's key: transfer tag and the path it was started with. */
  datatype DownloadId = DownloadId(tag: int, path: string)

  /** The default constructor. */
  const DEFAULT_DOWNLOAD_ID: DownloadId := DownloadId(-1, "")

  /** `operator<`: std::tie(mTag, mPath) compared lexicographically. */
  predicate IdLess(a: DownloadId, b: DownloadId)
  {
    a.tag < b.tag || (a.tag == b.tag && StringLess(a.path, b.path))
  }

  /** DownloadId's order is a strict total order, so it keys std::map correctly. */
  lemma IdLessStrictTotal(a: DownloadId, b: DownloadId, c: DownloadId)
    ensures !IdLess(a, a)
    ensures IdLess(a, b) && IdLess(b, c) ==> IdLess(a, c)
    ensures a != b ==> IdLess(a, b) || IdLess(b, a)
    ensures IdLess(a, b) ==> !IdLess(b, a)
  {
    StringLessIrreflexive(a.path);
    if IdLess(a, b) && IdLess(b, c) && a.tag == b.tag && b.tag == c.tag {
      StringLessTransitive(a.path, b.path, c.path);
    }
    if a != b && a.tag == b.tag {
      StringLessTotal(a.path, b.path);
    }
    if IdLess(a, b) && IdLess(b, a) {
      StringLessTransitive(a.path, b.path, a.path);
    }
  }

  /**
   * `getObjectID`: "O:" and the link's handle for a public link with a
   * handle, else "O:" and the path. `linkHandle` is getPublicLinkHandlev2.
   */
  function GetObjectID(id: DownloadId, linkHandle: string -> string): (r: string)
    ensures StartsWith(r, "O:")
    ensures CommonUtils.IsPublicLink(id.path) && linkHandle(id.path) != [] ==> r[2..] == linkHandle(id.path)
    ensures !(CommonUtils.IsPublicLink(id.path) && linkHandle(id.path) != []) ==> r[2..] == id.path
  {
    if CommonUtils.IsPublicLink(id.path) && linkHandle(id.path) != [] then "O:" + linkHandle(id.path)
    else "O:" + id.path
  }

  /** `isObjectID`: `what.find("O:") == 0`. */
  predicate IsObjectID(what: string)
  {
    Find(what, "O:", 0) == Some(0)
  }

  lemma IsObjectIDIff(what: string)
    ensures IsObjectID(what) <==> StartsWith(what, "O:")
  {
    MatchesAtIff(what, "O:", 0);
  }

  /** Every object id is recognised as one. */
  lemma ObjectIDRecognised(id: DownloadId, linkHandle: string -> string)
    ensures IsObjectID(GetObjectID(id, linkHandle))
  {
    IsObjectIDIff(GetObjectID(id, linkHandle));
  }
}
