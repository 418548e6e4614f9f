/**
 * The updater's Base64 codec (src/updater/UpdateTask.cpp:1331-1481): the
 * URL-safe alphabet of section 5 of RFC 4648, written without '=' padding.
 *
 * The encoder writes through a running index into a caller's character
 * buffer and NUL-terminates it; the decoder writes at most `blen` bytes into a
 * caller's byte buffer and stops at the first character outside the
 * alphabet. Both are methods over arrays, proved against the reference
 * functions Encode and Decode, whose properties are lemmas. Text is a
 * sequence of bytes, as a C `char` buffer is.
 */
module Base64 {
  import opened Text
  type byte = bv8

  /** The byte a `const char*` walk sees at offset i: NUL past the end. */
  function ByteAt(s: seq<byte>, i: int): byte
  {
    if 0 <= i < |s| then s[i] else 0
  }

  /** The URL-safe alphabet of section 5 of RFC 4648: A-Z, a-z, 0-9, '-' and '_'. */
  predicate IsUrlChar(x: byte)
  {
    (0x41 <= x <= 0x5A) || (0x61 <= x <= 0x7A) || (0x30 <= x <= 0x39) || x == 0x2D || x == 0x5F
  }

  /** `Base64::to64`: the character for the six low bits of c. */
  function To64(c0: byte): (r: byte)
    ensures IsUrlChar(r)
  {
    var c := c0 & 63;
    if c < 26 then c + 0x41
    else if c < 52 then c - 26 + 0x61
    else if c < 62 then c - 52 + 0x30
    else if c == 62 then 0x2D
    else 0x5F
  }

  /** `Base64::from64`: the six-bit value of a character, 255 outside the alphabet. */
  function From64(c: byte): (r: byte)
    ensures r == 255 || r < 64
  {
    if 0x41 <= c <= 0x5A then c - 0x41
    else if 0x61 <= c <= 0x7A then c - 0x61 + 26
    else if 0x30 <= c <= 0x39 then c - 0x30 + 52
    else if c == 0x2D || c == 0x2B then 62
    else if c == 0x5F || c == 0x2F then 63
    else 255
  }

  /** The ends of each range of the table: 0 is 'A', 25 'Z', 26 'a', 51 'z', 52 '0', 61 '9', 62 '-', 63 '_'. */
  lemma To64Table()
    ensures To64(0) == 'A' as byte && To64(25) == 'Z' as byte
    ensures To64(26) == 'a' as byte && To64(51) == 'z' as byte
    ensures To64(52) == '0' as byte && To64(61) == '9' as byte
    ensures To64(62) == '-' as byte && To64(63) == '_' as byte
  {
  }

  /** from64 inverts to64 on the six-bit values. */
  lemma From64To64(c: byte)
    ensures From64(To64(c)) == c & 63
  {
  }

  /** to64 inverts from64 on the URL-safe alphabet. */
  lemma To64From64(c: byte)
    requires IsUrlChar(c)
    ensures From64(c) < 64 && To64(From64(c)) == c
  {
  }

  /** from64 also reads the standard alphabet's '+' and '/', and 255 marks everything else. */
  lemma From64Extra(c: byte)
    ensures From64('+' as byte) == 62 && From64('/' as byte) == 63
    ensures From64(c) == 255 <==> !IsUrlChar(c) && c != '+' as byte && c != '/' as byte
  {
  }

  // ---------------------------------------------------------------- encoding

  /** The four characters btoa writes for a group of bytes x0 x1 x2 (missing bytes read as 0). */
  function Char0(x0: byte): byte { To64(x0 >> 2) }
  function Char1(x0: byte, x1: byte): byte { To64((x0 << 4) | (x1 >> 4)) }
  function Char2(x1: byte, x2: byte): byte { To64((x1 << 2) | (x2 >> 6)) }
  function Char3(x2: byte): byte { To64(x2) }

  /** The length of the unpadded encoding of n bytes. */
  function EncodedLength(n: nat): nat
  {
    4 * (n / 3) + (if n % 3 == 0 then 0 else n % 3 + 1)
  }

  /** The two to four characters btoa writes for the first one to three bytes of t. */
  function Group(t: seq<byte>): (g: seq<byte>)
    requires |t| > 0
    ensures |g| == (if |t| >= 3 then 4 else |t| + 1)
  {
    if |t| == 1 then [Char0(t[0]), Char1(t[0], 0)]
    else if |t| == 2 then [Char0(t[0]), Char1(t[0], t[1]), Char2(t[1], 0)]
    else [Char0(t[0]), Char1(t[0], t[1]), Char2(t[1], t[2]), Char3(t[2])]
  }

  /** The text btoa writes for b: one group per three bytes, a final partial group of two or three characters. */
  function Encode(b: seq<byte>): seq<byte>
  {
    if |b| == 0 then [] else if |b| < 3 then Group(b) else Group(b) + Encode(b[3..])
  }

  lemma EncodedLengthStep(n: nat)
    requires n >= 3
    ensures EncodedLength(n) == 4 + EncodedLength(n - 3)
  {
  }

  lemma {:induction false} EncodeLength(b: seq<byte>)
    ensures |Encode(b)| == EncodedLength(|b|)
    decreases |b|
  {
    if |b| >= 3 {
      EncodeLength(b[3..]);
    }
  }

  /** Every character written is in the URL-safe alphabet: no '=' padding, no NUL. */
  lemma {:induction false} EncodeAlphabet(b: seq<byte>)
    ensures forall k :: 0 <= k < |Encode(b)| ==> IsUrlChar(Encode(b)[k])
    ensures '=' as byte !in Encode(b) && 0 !in Encode(b)
    decreases |b|
  {
    var e := Encode(b);
    if |b| >= 3 {
      EncodeAlphabet(b[3..]);
      assert forall k :: 4 <= k < |e| ==> e[k] == Encode(b[3..])[k - 4];
    }
  }

  /**
   * One pass of the body of btoa's loop: writes the group for the bytes at
   * the front of rest, stopping after two or three characters when fewer than
   * three bytes remain.
   */
  method PutGroup(rest: seq<byte>, a: array<byte>, p0: int, ghost done: seq<byte>) returns (p: int)
    requires |rest| > 0 && 0 <= p0 && p0 + |Group(rest)| <= a.Length && a[..p0] == done
    modifies a
    ensures p == p0 + |Group(rest)|
    ensures a[..p] == done + Group(rest)
    ensures forall k :: p <= k < a.Length ==> a[k] == old(a[k])
  {
    var blen := |rest|;
    p := p0;
    a[p] := Char0(rest[0]);
    p := p + 1;
    a[p] := Char1(rest[0], if blen > 1 then rest[1] else 0);
    p := p + 1;
    if blen < 2 {
      return;
    }
    a[p] := Char2(rest[1], if blen > 2 then rest[2] else 0);
    p := p + 1;
    if blen < 3 {
      return;
    }
    a[p] := Char3(rest[2]);
    p := p + 1;
  }

  /**
   * `Base64::btoa(const byte*, int, char*)`: writes the encoding of b into a
   * and a NUL after it, returning the number of characters.
   */
  method Btoa(b: seq<byte>, a: array<byte>) returns (p: int)
    requires a.Length > EncodedLength(|b|)
    modifies a
    ensures p == EncodedLength(|b|)
    ensures a[..p] == Encode(b) && a[p] == 0
    ensures forall k :: p < k < a.Length ==> a[k] == old(a[k])
  {
    p := 0;
    var blen := |b|;
    var rest := b;
    while true
      invariant blen == |rest| && p + EncodedLength(|rest|) == EncodedLength(|b|)
      invariant a[..p] + Encode(rest) == Encode(b)
      invariant forall k :: p <= k < a.Length ==> a[k] == old(a[k])
      decreases blen
    {
      if blen <= 0 {
        break;
      }
      ghost var done := a[..p];
      p := PutGroup(rest, a, p, done);
      if blen < 3 {
        break;
      }
      AccumulateStep(done, Group(rest), Encode(rest[3..]), Encode(rest), Encode(b));
      EncodedLengthStep(blen);
      blen := blen - 3;
      rest := rest[3..];
    }
    a[p] := 0;
  }

  /** `Base64::btoa(const string&, string&)`: the buffer of 4n/3 + 4 characters always suffices. */
  method BtoaString(input: seq<byte>) returns (out: seq<byte>)
    ensures out == Encode(input)
  {
    var a := new byte[|input| * 4 / 3 + 4];
    var p := Btoa(input, a);
    out := a[..p];
  }

  // ---------------------------------------------------------------- decoding

  /** How many of the next four characters are in the alphabet before the first one that is not. */
  function QuadLength(s: seq<byte>): (i: nat)
    ensures i <= 4 && i <= |s|
  {
    if From64(ByteAt(s, 0)) == 255 then 0
    else if From64(ByteAt(s, 1)) == 255 then 1
    else if From64(ByteAt(s, 2)) == 255 then 2
    else if From64(ByteAt(s, 3)) == 255 then 3
    else 4
  }

  /** The six-bit values of the next four characters (255 for those outside the alphabet). */
  function Sextets(s: seq<byte>): (c: seq<byte>)
    ensures |c| == 4
  {
    [From64(ByteAt(s, 0)), From64(ByteAt(s, 1)), From64(ByteAt(s, 2)), From64(ByteAt(s, 3))]
  }

  /** The three bytes atob assembles from four six-bit values. */
  function Byte1(c0: byte, c1: byte): byte { (c0 << 2) | ((c1 & 0x30) >> 4) }
  function Byte2(c1: byte, c2: byte): byte { (c1 << 4) | ((c2 & 0x3c) >> 2) }
  function Byte3(c2: byte, c3: byte): byte { (c2 << 6) | c3 }

  /**
   * The bytes a group of i alphabet characters with values c yields: one byte
   * for i = 1 or 2, two for i = 3, three for i = 4. For i < 4 the 255 that
   * stopped the group is c[i] and takes part in the last byte.
   */
  function QuadOut(c: seq<byte>, i: nat): (r: seq<byte>)
    requires |c| == 4 && i <= 4
    ensures |r| == (if i == 0 then 0 else if i < 3 then 1 else i - 1)
  {
    if i == 0 then []
    else if i < 3 then [Byte1(c[0], c[1])]
    else if i < 4 then [Byte1(c[0], c[1]), Byte2(c[1], c[2])]
    else [Byte1(c[0], c[1]), Byte2(c[1], c[2]), Byte3(c[2], c[3])]
  }

  /** QuadOut reads only the values up to the one that stopped the group. */
  lemma QuadOutAgree(c: seq<byte>, d: seq<byte>, i: nat)
    requires |c| == 4 && |d| == 4 && i <= 4
    requires forall k :: 0 <= k < 4 && k <= i ==> c[k] == d[k]
    ensures QuadOut(c, i) == QuadOut(d, i)
  {
  }

  /** The bytes atob produces from a C string when the buffer is large enough. */
  function Decode(s: seq<byte>): seq<byte>
    decreases |s|
  {
    var i := QuadLength(s);
    if i < 4 then QuadOut(Sextets(s), i) else QuadOut(Sextets(s), i) + Decode(s[4..])
  }

  /** The first group of Decode(s) and what follows it. */
  lemma DecodeStep(s: seq<byte>)
    ensures QuadLength(s) < 4 ==> Decode(s) == QuadOut(Sextets(s), QuadLength(s))
    ensures QuadLength(s) == 4 ==> Decode(s) == QuadOut(Sextets(s), 4) + Decode(s[4..])
  {
  }

  lemma {:induction false} DecodeBound(s: seq<byte>)
    ensures 4 * |Decode(s)| <= 3 * |s| + 4
    decreases |s|
  {
    if QuadLength(s) == 4 {
      DecodeBound(s[4..]);
    }
  }

  /** Decoding stops at the first character outside the alphabet: what follows it is never read. */
  lemma {:induction false} DecodeStops(v: seq<byte>, c: byte, w: seq<byte>)
    requires forall k :: 0 <= k < |v| ==> From64(v[k]) != 255
    requires From64(c) == 255
    ensures Decode(v + [c] + w) == Decode(v)
    decreases |v|
  {
    var s := v + [c] + w;
    assert forall k :: 0 <= k <= |v| ==> From64(ByteAt(s, k)) == From64(ByteAt(v, k));
    QuadOutAgree(Sextets(s), Sextets(v), QuadLength(v));
    if |v| >= 4 {
      assert s[4..] == v[4..] + [c] + w;
      DecodeStops(v[4..], c, w);
    }
  }

  /** The bit identities behind the round trip, one group of one to three bytes at a time. */
  lemma GroupBits(b0: byte, b1: byte, b2: byte)
    ensures From64(Char0(b0)) < 64 && From64(Char1(b0, b1)) < 64
    ensures From64(Char2(b1, b2)) < 64 && From64(Char3(b2)) < 64
    ensures Byte1(From64(Char0(b0)), From64(Char1(b0, b1))) == b0
    ensures Byte2(From64(Char1(b0, b1)), From64(Char2(b1, b2))) == b1
    ensures Byte3(From64(Char2(b1, b2)), From64(Char3(b2))) == b2
  {
    From64To64(b0 >> 2);
    From64To64((b0 << 4) | (b1 >> 4));
    From64To64((b1 << 2) | (b2 >> 6));
    From64To64(b2);
  }

  /** A full group of four characters decodes to its three bytes, then decoding goes on. */
  lemma DecodeGroup(b: seq<byte>, t: seq<byte>)
    requires |b| >= 3
    ensures Decode(Group(b) + t) == b[..3] + Decode(t)
  {
    GroupBits(b[0], b[1], b[2]);
    var s := Group(b) + t;
    assert s[..4] == Group(b) && s[4..] == t;
    assert b[..3] == [b[0], b[1], b[2]];
  }

  /** The two and three characters of a final partial group decode to its one or two bytes. */
  lemma DecodeTail(b: seq<byte>)
    requires 1 <= |b| <= 2
    ensures Decode(Group(b)) == b
  {
    if |b| == 1 {
      GroupBits(b[0], 0, 0);
      assert b == [b[0]];
    } else {
      GroupBits(b[0], b[1], 0);
      assert b == [b[0], b[1]];
    }
  }

  /** atob(btoa(b)) == b: the encoding followed by its NUL decodes to the original bytes. */
  lemma {:induction false} DecodeEncode(b: seq<byte>)
    ensures Decode(Encode(b)) == b
    decreases |b|
  {
    if 1 <= |b| <= 2 {
      DecodeTail(b);
    } else if |b| >= 3 {
      DecodeGroup(b, Encode(b[3..]));
      DecodeEncode(b[3..]);
      assert b == b[..3] + b[3..];
    }
  }

  function Min(x: int, y: int): int { if x < y then x else y }
  function Max(x: int, y: int): int { if x < y then y else x }

  /** The inner loop of atob: reads up to four values into c, storing the 255 that stops it. */
  method ReadQuad(s: seq<byte>, c0: seq<byte>) returns (c: seq<byte>, i: nat)
    requires |c0| == 4
    ensures |c| == 4 && i == QuadLength(s)
    ensures QuadOut(c, i) == QuadOut(Sextets(s), i)
  {
    c := c0;
    i := 0;
    while i < 4
      invariant i <= 4 && |c| == 4
      invariant forall k :: 0 <= k < i ==> c[k] == From64(ByteAt(s, k)) && c[k] != 255
    {
      c := c[i := From64(ByteAt(s, i))];
      if c[i] == 255 {
        break;
      }
      i := i + 1;
    }
    QuadOutAgree(c, Sextets(s), i);
  }

  /**
   * The rest of one pass of atob's loop: stores the bytes of a group of i
   * values while p stays below blen; more is whether the loop goes on.
   */
  method PutQuad(c: seq<byte>, i: nat, b: array<byte>, p0: int, blen: int, ghost done: seq<byte>) returns (p: int, more: bool)
    requires |c| == 4 && i <= 4 && 0 <= p0 <= b.Length && blen <= b.Length && b[..p0] == done
    modifies b
    ensures p == p0 + (if p0 >= blen then 0 else Min(|QuadOut(c, i)|, blen - p0))
    ensures b[..p] == done + QuadOut(c, i)[..p - p0]
    ensures forall k :: p <= k < b.Length ==> b[k] == old(b[k])
    ensures more <==> i == 4 && p0 + 3 <= blen
  {
    p := p0;
    more := false;
    if p >= blen || i == 0 {
      return;
    }
    b[p] := Byte1(c[0], c[1]);
    p := p + 1;
    if p >= blen || i < 3 {
      return;
    }
    b[p] := Byte2(c[1], c[2]);
    p := p + 1;
    if p >= blen || i < 4 {
      return;
    }
    b[p] := Byte3(c[2], c[3]);
    p := p + 1;
    more := true;
  }

  /** Where atob returns: either the decoded bytes ran out or the buffer is full. */
  lemma AtobStop(full: seq<byte>, done: seq<byte>, d: seq<byte>, q: seq<byte>, i: nat, p: int, blen: int)
    requires |done| <= Max(blen, 0) && done + d == full
    requires i <= 4 && |q| <= |d| && d[..|q|] == q && (i < 4 ==> d == q)
    requires p == |done| + (if |done| >= blen then 0 else Min(|q|, blen - |done|))
    requires !(i == 4 && |done| + 3 <= blen) && (i == 4 ==> |q| == 3)
    ensures p == Min(|full|, Max(blen, 0))
    ensures full[..p] == done + q[..p - |done|]
  {
    assert full[..p] == done + d[..p - |done|];
  }

  /**
   * `Base64::atob(const char*, byte*, int)`: writes the first min(|Decode(s)|, blen)
   * decoded bytes into b and nothing else.
   */
  method Atob(s: seq<byte>, b: array<byte>, blen: int) returns (p: int)
    requires blen <= b.Length
    modifies b
    ensures p == Min(|Decode(s)|, Max(blen, 0))
    ensures b[..p] == Decode(s)[..p]
    ensures forall k :: p <= k < b.Length ==> b[k] == old(b[k])
  {
    ghost var full := Decode(s);
    var c: seq<byte> := [0, 0, 0, 0];
    p := 0;
    var rest := s;
    while true
      invariant 0 <= p <= Max(blen, 0) && |c| == 4
      invariant b[..p] + Decode(rest) == full
      invariant forall k :: p <= k < b.Length ==> b[k] == old(b[k])
      decreases |rest|
    {
      var i;
      c, i := ReadQuad(rest, c);
      ghost var done := b[..p];
      ghost var d := Decode(rest);
      DecodeStep(rest);
      var more;
      p, more := PutQuad(c, i, b, p, blen, done);
      if !more {
        AtobStop(full, done, d, QuadOut(c, i), i, p, blen);
        return;
      }
      assert QuadOut(c, 4)[..3] == QuadOut(c, 4);
      AccumulateStep(done, QuadOut(c, 4), Decode(rest[4..]), d, full);
      rest := rest[4..];
    }
  }

  /** `Base64::atob(const string&, string&)`: the buffer of 3n/4 + 3 bytes never truncates. */
  method AtobString(input: seq<byte>) returns (out: seq<byte>)
    ensures out == Decode(input)
  {
    var buf := new byte[|input| * 3 / 4 + 3];
    DecodeBound(input);
    var p := Atob(input, buf, buf.Length);
    out := buf[..p];
  }

  /** The string round trip of the two wrappers. */
  method RoundTrip(b: seq<byte>) returns (back: seq<byte>)
    ensures back == b
  {
    var text := BtoaString(b);
    back := AtobString(text);
    DecodeEncode(b);
  }
}
