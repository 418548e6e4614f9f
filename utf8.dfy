/**
 * UTF-8: the validator `isValidUtf8` (src/megacmd_utf8.cpp) and the shell's
 * code point encoder `to_utf8` (src/megacmdshell/megacmdshellcommunications.cpp).
 *
 * The reference definitions are the byte-range grammar of section 4 of
 * RFC 3629 (`Utf8Valid`) and the encoding table of its section 3
 * (`Utf8Encode`, with the decoding `Utf8Decode` as its inverse).
 */
module Utf8 {
  type byte = bv8

  /** UTF8-tail = %x80-BF. */
  predicate IsTail(b: byte)
  {
    0x80 <= b <= 0xBF
  }

  /**
   * The length of the character at the front of s under the grammar of
   * section 4 of RFC 3629, or 0 when s does not start with a well-formed
   * character.
   */
  function FirstCharLength(s: seq<byte>): (n: nat)
    requires |s| > 0
    ensures n <= 4 && n <= |s|
  {
    var b := s[0];
    if b <= 0x7F then 1
    else if 0xC2 <= b <= 0xDF then
      if |s| >= 2 && IsTail(s[1]) then 2 else 0
    else if b == 0xE0 then
      if |s| >= 3 && 0xA0 <= s[1] <= 0xBF && IsTail(s[2]) then 3 else 0
    else if (0xE1 <= b <= 0xEC) || (0xEE <= b <= 0xEF) then
      if |s| >= 3 && IsTail(s[1]) && IsTail(s[2]) then 3 else 0
    else if b == 0xED then
      if |s| >= 3 && 0x80 <= s[1] <= 0x9F && IsTail(s[2]) then 3 else 0
    else if b == 0xF0 then
      if |s| >= 4 && 0x90 <= s[1] <= 0xBF && IsTail(s[2]) && IsTail(s[3]) then 4 else 0
    else if 0xF1 <= b <= 0xF3 then
      if |s| >= 4 && IsTail(s[1]) && IsTail(s[2]) && IsTail(s[3]) then 4 else 0
    else if b == 0xF4 then
      if |s| >= 4 && 0x80 <= s[1] <= 0x8F && IsTail(s[2]) && IsTail(s[3]) then 4 else 0
    else 0
  }

  /** UTF8-octets = *UTF8-char. */
  predicate Utf8Valid(s: seq<byte>)
    decreases |s|
  {
    |s| == 0 || (FirstCharLength(s) > 0 && Utf8Valid(s[FirstCharLength(s)..]))
  }

  /** The continuation-byte test of the validator: the top two bits are 10. */
  predicate Check10(b: byte)
  {
    b & 0xc0 == 0x80
  }

  /** How many bytes the validator consumes at the front of data (0: reject), written with its bit tests. */
  function ValidatorStep(data: seq<byte>): (n: nat)
    requires |data| > 0
  {
    var lead := data[0];
    if lead < 0x80 then 1
    else if lead & 0xe0 == 0xc0 then
      if lead > 0xc1 && |data| >= 2 && Check10(data[1]) then 2 else 0
    else if lead & 0xf0 == 0xe0 then
      if |data| >= 3 && Check10(data[1]) && Check10(data[2])
         && ((lead as bv32) << 8) | (data[1] as bv32) > 0xe09f
         && (lead != 0xed || data[1] < 0xa0)
      then 3 else 0
    else if lead & 0xf8 == 0xf0 then
      if |data| >= 4 && Check10(data[1]) && Check10(data[2]) && Check10(data[3])
         && ((lead as bv32) << 8) | (data[1] as bv32) > 0xf08f
         && ((lead as bv32) << 8) | (data[1] as bv32) < 0xf490
      then 4 else 0
    else 0
  }

  /** The validator's bit tests accept exactly the characters of the RFC 3629 grammar. */
  lemma ValidatorStepIsGrammar(data: seq<byte>)
    requires |data| > 0
    ensures ValidatorStep(data) == FirstCharLength(data)
  {
  }

  /**
   * `isValidUtf8`: the loop advancing data and decreasing size. disabled
   * stands for the MEGACMD_DISABLE_UTF8_VALIDATIONS environment variable.
   */
  method IsValidUtf8(data: seq<byte>, disabled: bool) returns (b: bool)
    ensures b == (disabled || Utf8Valid(data))
  {
    if disabled {
      return true;
    }
    var i := 0;
    while i < |data|
      invariant 0 <= i <= |data|
      invariant Utf8Valid(data[i..]) == Utf8Valid(data)
      decreases |data| - i
    {
      var rest := data[i..];
      ValidatorStepIsGrammar(rest);
      var lead := data[i];
      var size := |data| - i;
      if lead < 0x80 {
        i := i + 1;
        assert data[i..] == rest[1..];
        continue;
      } else if lead & 0xe0 == 0xc0 {
        if lead > 0xc1 && size >= 2 && Check10(data[i + 1]) {
          i := i + 2;
          assert data[i..] == rest[2..];
          continue;
        }
      } else if lead & 0xf0 == 0xe0 {
        if size >= 3 && Check10(data[i + 1]) && Check10(data[i + 2]) {
          var secondByte := data[i + 1];
          if ((lead as bv32) << 8) | (secondByte as bv32) > 0xe09f && (lead != 0xed || secondByte < 0xa0) {
            i := i + 3;
            assert data[i..] == rest[3..];
            continue;
          }
        }
      } else if lead & 0xf8 == 0xf0 {
        if size >= 4 && Check10(data[i + 1]) && Check10(data[i + 2]) && Check10(data[i + 3]) {
          var firstHalf := ((lead as bv32) << 8) | (data[i + 1] as bv32);
          if firstHalf > 0xf08f && firstHalf < 0xf490 {
            i := i + 4;
            assert data[i..] == rest[4..];
            continue;
          }
        }
      }
      return false;
    }
    return true;
  }

  /** ASCII-only data is always valid. */
  lemma {:induction false} AsciiValid(s: seq<byte>)
    requires forall k :: 0 <= k < |s| ==> s[k] < 0x80
    ensures Utf8Valid(s)
    decreases |s|
  {
    if |s| > 0 {
      AsciiValid(s[1..]);
    }
  }

  /** Valid data splits after any well-formed character: the whole is valid iff the rest is. */
  lemma ValidAfterChar(s: seq<byte>)
    requires |s| > 0 && FirstCharLength(s) > 0
    ensures Utf8Valid(s) <==> Utf8Valid(s[FirstCharLength(s)..])
  {
  }

  /** The overlong two-byte leads C0 and C1 are rejected wherever they start a character. */
  lemma OverlongLeadRejected(s: seq<byte>)
    requires |s| > 0 && (s[0] == 0xC0 || s[0] == 0xC1)
    ensures !Utf8Valid(s)
  {
  }

  /** A three-byte form of a code point below U+0800 (E0 followed by 80-9F) is rejected. */
  lemma OverlongThreeByteRejected(s: seq<byte>)
    requires |s| >= 2 && s[0] == 0xE0 && s[1] < 0xA0
    ensures !Utf8Valid(s)
  {
  }

  /** The surrogates U+D800..U+DFFF (ED followed by A0-BF) are rejected. */
  lemma SurrogateRejected(s: seq<byte>)
    requires |s| >= 2 && s[0] == 0xED && s[1] >= 0xA0
    ensures !Utf8Valid(s)
  {
  }

  /** Four-byte forms below U+10000 or above U+10FFFF, and leads F5 and above, are rejected. */
  lemma FourByteOutOfRangeRejected(s: seq<byte>)
    requires |s| >= 2
    requires (s[0] == 0xF0 && s[1] < 0x90) || (s[0] == 0xF4 && s[1] >= 0x90) || s[0] >= 0xF5
    ensures !Utf8Valid(s)
  {
  }

  /** A stray continuation byte as a lead is rejected. */
  lemma StrayContinuationRejected(s: seq<byte>)
    requires |s| > 0 && IsTail(s[0])
    ensures !Utf8Valid(s)
  {
  }

  /** A multi-byte lead followed by too few bytes, or by a byte that is not 10xxxxxx, is rejected. */
  lemma TruncatedOrBadContinuationRejected(s: seq<byte>, need: nat)
    requires |s| > 0 && 2 <= need <= 4
    requires (need == 2 && s[0] & 0xe0 == 0xc0) || (need == 3 && s[0] & 0xf0 == 0xe0) || (need == 4 && s[0] & 0xf8 == 0xf0)
    requires |s| < need || exists k :: 1 <= k < need && !Check10(s[k])
    ensures !Utf8Valid(s)
  {
    ValidatorStepIsGrammar(s);
  }

  // ---------------------------------------------------------------------
  // Encoding (section 3 of RFC 3629) and decoding

  /** A Unicode scalar value: at most U+10FFFF and not a surrogate. */
  predicate IsScalar(cp: bv32)
  {
    cp <= 0x10FFFF && !(0xD800 <= cp <= 0xDFFF)
  }

  /** The byte sequence section 3 of RFC 3629 gives for cp; empty above U+10FFFF. */
  function Utf8Encode(cp: bv32): (r: seq<byte>)
    ensures cp < 0x80 ==> |r| == 1
    ensures 0x80 <= cp < 0x800 ==> |r| == 2
    ensures 0x800 <= cp < 0x10000 ==> |r| == 3
    ensures 0x10000 <= cp <= 0x10FFFF ==> |r| == 4
    ensures cp > 0x10FFFF ==> r == []
  {
    if cp < 0x80 then [cp as byte]
    else if cp < 0x800 then
      [(0xC0 | (cp >> 6)) as byte, (0x80 | (cp & 0x3F)) as byte]
    else if cp < 0x10000 then
      [(0xE0 | (cp >> 12)) as byte, (0x80 | ((cp >> 6) & 0x3F)) as byte, (0x80 | (cp & 0x3F)) as byte]
    else if cp <= 0x10FFFF then
      [(0xF0 | (cp >> 18)) as byte, (0x80 | ((cp >> 12) & 0x3F)) as byte,
       (0x80 | ((cp >> 6) & 0x3F)) as byte, (0x80 | (cp & 0x3F)) as byte]
    else []
  }

  /** The six low bits of a continuation byte. */
  function Low6(b: byte): bv32
  {
    (b & 0x3F) as bv32
  }

  /** The code point a well-formed character of 1 to 4 bytes denotes. */
  function Utf8Decode(s: seq<byte>): bv32
    requires 1 <= |s| <= 4
  {
    if |s| == 1 then s[0] as bv32
    else if |s| == 2 then ((s[0] & 0x1F) as bv32 << 6) | Low6(s[1])
    else if |s| == 3 then ((s[0] & 0x0F) as bv32 << 12) | (Low6(s[1]) << 6) | Low6(s[2])
    else ((s[0] & 0x07) as bv32 << 18) | (Low6(s[1]) << 12) | (Low6(s[2]) << 6) | Low6(s[3])
  }

  /** Decoding inverts encoding on every code point up to U+10FFFF. */
  lemma DecodeEncode(cp: bv32)
    requires cp <= 0x10FFFF
    ensures Utf8Decode(Utf8Encode(cp)) == cp
  {
    if cp < 0x80 {
    } else if cp < 0x800 {
      DecodeTwo(cp, Utf8Encode(cp));
    } else if cp < 0x10000 {
      DecodeThree(cp, Utf8Encode(cp));
    } else {
      DecodeFour(cp, Utf8Encode(cp));
    }
  }

  lemma DecodeTwo(cp: bv32, r: seq<byte>)
    requires 0x80 <= cp < 0x800 && r == [(0xC0 | (cp >> 6)) as byte, (0x80 | (cp & 0x3F)) as byte]
    ensures Utf8Decode(r) == cp
  {
    TwoBits(cp, r[0], r[1]);
  }

  lemma TwoBits(cp: bv32, a: byte, b: byte)
    requires 0x80 <= cp < 0x800 && a == (0xC0 | (cp >> 6)) as byte && b == (0x80 | (cp & 0x3F)) as byte
    ensures ((a & 0x1F) as bv32 << 6) | Low6(b) == cp
  {
  }

  lemma DecodeThree(cp: bv32, r: seq<byte>)
    requires 0x800 <= cp < 0x10000
    requires r == [(0xE0 | (cp >> 12)) as byte, (0x80 | ((cp >> 6) & 0x3F)) as byte, (0x80 | (cp & 0x3F)) as byte]
    ensures Utf8Decode(r) == cp
  {
    ThreeBits(cp, r[0], r[1], r[2]);
  }

  lemma ThreeBits(cp: bv32, a: byte, b: byte, c: byte)
    requires 0x800 <= cp < 0x10000
    requires a == (0xE0 | (cp >> 12)) as byte && b == (0x80 | ((cp >> 6) & 0x3F)) as byte && c == (0x80 | (cp & 0x3F)) as byte
    ensures ((a & 0x0F) as bv32 << 12) | (Low6(b) << 6) | Low6(c) == cp
  {
  }

  lemma DecodeFour(cp: bv32, r: seq<byte>)
    requires 0x10000 <= cp <= 0x10FFFF
    requires r == [(0xF0 | (cp >> 18)) as byte, (0x80 | ((cp >> 12) & 0x3F)) as byte,
                   (0x80 | ((cp >> 6) & 0x3F)) as byte, (0x80 | (cp & 0x3F)) as byte]
    ensures Utf8Decode(r) == cp
  {
    FourBits(cp, r[0], r[1], r[2], r[3]);
  }

  lemma FourBits(cp: bv32, a: byte, b: byte, c: byte, d: byte)
    requires 0x10000 <= cp <= 0x10FFFF
    requires a == (0xF0 | (cp >> 18)) as byte && b == (0x80 | ((cp >> 12) & 0x3F)) as byte
    requires c == (0x80 | ((cp >> 6) & 0x3F)) as byte && d == (0x80 | (cp & 0x3F)) as byte
    ensures ((a & 0x07) as bv32 << 18) | (Low6(b) << 12) | (Low6(c) << 6) | Low6(d) == cp
  {
  }

  /** The encoding of a scalar value is one well-formed character, so valid on its own. */
  lemma EncodeWellFormed(cp: bv32)
    requires IsScalar(cp)
    ensures FirstCharLength(Utf8Encode(cp)) == |Utf8Encode(cp)|
    ensures Utf8Valid(Utf8Encode(cp))
  {
    var r := Utf8Encode(cp);
    assert r[|r|..] == [];
  }

  /** A surrogate has an encoding the validator rejects. */
  lemma SurrogateEncodingRejected(cp: bv32)
    requires 0xD800 <= cp <= 0xDFFF
    ensures !Utf8Valid(Utf8Encode(cp))
  {
  }

  /** Every well-formed character is the encoding of the scalar value it decodes to. */
  lemma EncodeDecode(s: seq<byte>)
    requires |s| > 0 && FirstCharLength(s) > 0
    ensures IsScalar(Utf8Decode(s[..FirstCharLength(s)]))
    ensures Utf8Encode(Utf8Decode(s[..FirstCharLength(s)])) == s[..FirstCharLength(s)]
  {
    var n := FirstCharLength(s);
    var c := s[..n];
    if n == 1 {
      assert c == [s[0]];
    } else if n == 2 {
      assert c == [s[0], s[1]];
      TwoBack(s[0], s[1]);
      EncodeTwo(Utf8Decode(c), s[0], s[1]);
    } else if n == 3 {
      assert c == [s[0], s[1], s[2]];
      ThreeBack(s[0], s[1], s[2]);
      EncodeThree(Utf8Decode(c), s[0], s[1], s[2]);
    } else {
      assert c == [s[0], s[1], s[2], s[3]];
      FourBack(s[0], s[1], s[2], s[3]);
      EncodeFour(Utf8Decode(c), s[0], s[1], s[2], s[3]);
    }
  }

  lemma EncodeTwo(cp: bv32, a: byte, b: byte)
    requires 0x80 <= cp < 0x800 && a == (0xC0 | (cp >> 6)) as byte && b == (0x80 | (cp & 0x3F)) as byte
    ensures Utf8Encode(cp) == [a, b]
  {
  }

  lemma EncodeThree(cp: bv32, a: byte, b: byte, c: byte)
    requires 0x800 <= cp < 0x10000
    requires a == (0xE0 | (cp >> 12)) as byte && b == (0x80 | ((cp >> 6) & 0x3F)) as byte && c == (0x80 | (cp & 0x3F)) as byte
    ensures Utf8Encode(cp) == [a, b, c]
  {
  }

  lemma EncodeFour(cp: bv32, a: byte, b: byte, c: byte, d: byte)
    requires 0x10000 <= cp <= 0x10FFFF
    requires a == (0xF0 | (cp >> 18)) as byte && b == (0x80 | ((cp >> 12) & 0x3F)) as byte
    requires c == (0x80 | ((cp >> 6) & 0x3F)) as byte && d == (0x80 | (cp & 0x3F)) as byte
    ensures Utf8Encode(cp) == [a, b, c, d]
  {
  }

  lemma TwoBack(a: byte, b: byte)
    requires 0xC2 <= a <= 0xDF && IsTail(b)
    ensures var cp := ((a & 0x1F) as bv32 << 6) | Low6(b);
      0x80 <= cp < 0x800 && a == (0xC0 | (cp >> 6)) as byte && b == (0x80 | (cp & 0x3F)) as byte
  {
  }

  lemma ThreeBack(a: byte, b: byte, c: byte)
    requires 0xE0 <= a <= 0xEF && IsTail(b) && IsTail(c)
    requires a == 0xE0 ==> b >= 0xA0
    requires a == 0xED ==> b <= 0x9F
    ensures var cp := ((a & 0x0F) as bv32 << 12) | (Low6(b) << 6) | Low6(c);
      0x800 <= cp < 0x10000 && !(0xD800 <= cp <= 0xDFFF)
      && a == (0xE0 | (cp >> 12)) as byte && b == (0x80 | ((cp >> 6) & 0x3F)) as byte && c == (0x80 | (cp & 0x3F)) as byte
  {
  }

  lemma FourBack(a: byte, b: byte, c: byte, d: byte)
    requires 0xF0 <= a <= 0xF4 && IsTail(b) && IsTail(c) && IsTail(d)
    requires a == 0xF0 ==> b >= 0x90
    requires a == 0xF4 ==> b <= 0x8F
    ensures var cp := ((a & 0x07) as bv32 << 18) | (Low6(b) << 12) | (Low6(c) << 6) | Low6(d);
      0x10000 <= cp <= 0x10FFFF
      && a == (0xF0 | (cp >> 18)) as byte && b == (0x80 | ((cp >> 12) & 0x3F)) as byte
      && c == (0x80 | ((cp >> 6) & 0x3F)) as byte && d == (0x80 | (cp & 0x3F)) as byte
  {
  }

  /**
   * The number of bytes `to_utf8` allocates: 1, 2, 3 or 4 by the thresholds
   * 0x80, 0x800 and 0x10000 and the limit 0x10FFFF; 0 means the empty result.
   */
  function EncodedCount(cp: bv32): (count: nat)
    ensures count == |Utf8Encode(cp)|
  {
    if cp < 0x0080 then 1
    else if cp < 0x0800 then 2
    else if cp < 0x10000 then 3
    else if cp <= 0x10FFFF then 4
    else 0
  }

}
