/**
 * The shell's code point encoder `to_utf8`
 * (src/megacmdshell/megacmdshellcommunications.cpp:281-315), compiled only on
 * Windows, checked against the RFC 3629 encoding of the Utf8 module.
 */
module ShellUtf8 {
  import opened Utf8

  /** A continuation byte 10xxxxxx carrying the six low bits of x. */
  function Cont(x: bv32): byte
  {
    (0x80 | (x & 0x3F)) as byte
  }

  /** The bits 7, 6, ... 8-j that j rounds of the lead loop OR in. */
  function LeadBits(j: bv32): bv32
    requires j <= 4
  {
    if j == 0 then 0 else if j == 1 then 0x80 else if j == 2 then 0xC0 else if j == 3 then 0xE0 else 0xF0
  }

  /** The same mask for a byte count. */
  function LeadMask(count: nat): bv32
    requires count <= 4
  {
    if count == 0 then 0 else if count == 1 then 0x80 else if count == 2 then 0xC0 else if count == 3 then 0xE0 else 0xF0
  }

  /** x shifted right by 6·m bits, one group at a time. */
  function Shr6(x: bv32, m: nat): bv32
  {
    if m == 0 then x else Shr6(x, m - 1) >> 6
  }

  lemma Shr6Step(x: bv32, m: nat)
    ensures Shr6(x, m + 1) == Shr6(x, m) >> 6
  {
  }

  /** The continuation bytes for the m lowest six-bit groups of x, highest group first. */
  function Groups(x: bv32, m: nat): (r: seq<byte>)
    ensures |r| == m
  {
    if m == 0 then [] else [Cont(Shr6(x, m - 1))] + Groups(x, m - 1)
  }

  /**
   * The continuation loop of `to_utf8`: bytes count-1 down to 1 receive the
   * six-bit groups of cp0 from the lowest up; cp is left shifted by the bits used.
   */
  method ContinuationBytes(cp0: bv32, count: nat) returns (result: seq<byte>, cp: bv32)
    requires 1 <= count <= 4
    ensures |result| == count && result[1..] == Groups(cp0, count - 1)
    ensures cp == Shr6(cp0, count - 1)
  {
    cp := cp0;
    result := seq(count, _ => 0);
    var i := count - 1;
    ghost var m := 0;
    while i > 0
      invariant 0 <= i < count && |result| == count && m == count - 1 - i
      invariant cp == Shr6(cp0, m)
      invariant result[i + 1..] == Groups(cp0, m)
    {
      ghost var prev := result;
      result := result[i := Cont(cp)];
      assert result[i..] == [Cont(cp)] + prev[i + 1..];
      Shr6Step(cp0, m);
      cp := cp >> 6;
      i := i - 1;
      m := m + 1;
    }
  }

  /**
   * The lead loop of `to_utf8`: round i ORs in bit 7-i. The loop counter is
   * the C++ `int`, a 32-bit value here.
   */
  method LeadLoop(cp0: bv32, count: nat) returns (cp: bv32)
    requires count <= 4
    ensures cp == cp0 | LeadMask(count)
  {
    var n: bv32 := count as bv32;
    assert LeadBits(n) == LeadMask(count);
    cp := cp0;
    var i: bv32 := 0;
    while i < n
      invariant i <= n
      invariant cp == cp0 | LeadBits(i)
      decreases n - i
    {
      cp := cp | (1 << (7 - i));
      i := i + 1;
    }
  }

  /**
   * `to_utf8` as written: the lead loop also runs for a one-byte result, so
   * bit 7 is set on every ASCII code point.
   */
  method ToUtf8AsWritten(cp0: bv32) returns (result: seq<byte>)
    ensures cp0 < 0x80 ==> result == [(cp0 | 0x80) as byte]
    ensures cp0 >= 0x80 ==> result == Utf8Encode(cp0)
  {
    var count := EncodedCount(cp0);
    if count == 0 {
      return [];
    }
    var cp;
    result, cp := ContinuationBytes(cp0, count);
    cp := LeadLoop(cp, count);
    var r := result[0 := (cp & 0xFF) as byte];
    Finish(cp0, count, result, r, cp, true);
    result := r;
  }

  /**
   * `to_utf8` with the lead loop run only for multi-byte results: exactly the
   * encoding of section 3 of RFC 3629, and "" above U+10FFFF.
   */
  method ToUtf8(cp0: bv32) returns (result: seq<byte>)
    ensures result == Utf8Encode(cp0)
  {
    var count := EncodedCount(cp0);
    if count == 0 {
      return [];
    }
    var cp;
    result, cp := ContinuationBytes(cp0, count);
    if count > 1 {
      cp := LeadLoop(cp, count);
    }
    var r := result[0 := (cp & 0xFF) as byte];
    Finish(cp0, count, result, r, cp, count > 1);
    result := r;
  }

  /** The continuation groups for one, two and three groups written out. */
  lemma GroupsOne(x: bv32)
    ensures Groups(x, 1) == [Cont(Shr6(x, 0))]
  {
  }

  lemma GroupsTwo(x: bv32)
    ensures Groups(x, 2) == [Cont(Shr6(x, 1)), Cont(Shr6(x, 0))]
  {
    GroupsOne(x);
  }

  lemma GroupsThree(x: bv32)
    ensures Groups(x, 3) == [Cont(Shr6(x, 2)), Cont(Shr6(x, 1)), Cont(Shr6(x, 0))]
  {
    GroupsTwo(x);
  }

  /** What the two loops and the final store leave, for each byte count. */
  lemma Finish(cp0: bv32, count: nat, cont: seq<byte>, r: seq<byte>, cp: bv32, lead: bool)
    requires 1 <= count <= 4 && count == EncodedCount(cp0) && |cont| == count
    requires cont[1..] == Groups(cp0, count - 1)
    requires lead ==> cp == Shr6(cp0, count - 1) | LeadMask(count)
    requires !lead ==> count == 1 && cp == cp0
    requires r == cont[0 := (cp & 0xFF) as byte]
    ensures cp0 < 0x80 && lead ==> r == [(cp0 | 0x80) as byte]
    ensures cp0 < 0x80 && !lead ==> r == [cp0 as byte]
    ensures cp0 >= 0x80 ==> r == Utf8Encode(cp0)
  {
    if count == 1 {
      if lead {
        LeadOne(cp0);
      }
      assert r == [r[0]];
    } else if count == 2 {
      assert r[1..] == cont[1..];
      AssembledTwo(cp0, r);
    } else if count == 3 {
      assert r[1..] == cont[1..];
      AssembledThree(cp0, r);
    } else {
      assert r[1..] == cont[1..];
      AssembledFour(cp0, r);
    }
  }

  lemma LeadOne(cp0: bv32)
    requires cp0 < 0x80
    ensures (Shr6(cp0, 0) | LeadMask(1)) & 0xFF == cp0 | 0x80
  {
  }

  /** The bytes left by the two loops are those of the encoding (two to four bytes). */
  lemma AssembledTwo(cp0: bv32, result: seq<byte>)
    requires 0x80 <= cp0 < 0x800 && |result| == 2
    requires result[1..] == Groups(cp0, 1) && result[0] == ((Shr6(cp0, 1) | LeadMask(2)) & 0xFF) as byte
    ensures result == Utf8Encode(cp0)
  {
    GroupsOne(cp0);
    assert result == [result[0]] + result[1..];
    LeadTwo(cp0, result[0], result[1]);
    EncodeTwo(cp0, result[0], result[1]);
  }

  lemma AssembledThree(cp0: bv32, result: seq<byte>)
    requires 0x800 <= cp0 < 0x10000 && |result| == 3
    requires result[1..] == Groups(cp0, 2)
    requires result[0] == ((Shr6(cp0, 2) | LeadMask(3)) & 0xFF) as byte
    ensures result == Utf8Encode(cp0)
  {
    GroupsTwo(cp0);
    assert result == [result[0]] + result[1..];
    LeadThree(cp0, result[0], result[1], result[2]);
    EncodeThree(cp0, result[0], result[1], result[2]);
  }

  lemma AssembledFour(cp0: bv32, result: seq<byte>)
    requires 0x10000 <= cp0 <= 0x10FFFF && |result| == 4
    requires result[1..] == Groups(cp0, 3)
    requires result[0] == ((Shr6(cp0, 3) | LeadMask(4)) & 0xFF) as byte
    ensures result == Utf8Encode(cp0)
  {
    GroupsThree(cp0);
    assert result == [result[0]] + result[1..];
    LeadFour(cp0, result[0], result[1], result[2], result[3]);
    EncodeFour(cp0, result[0], result[1], result[2], result[3]);
  }

  lemma LeadTwo(cp0: bv32, a: byte, b: byte)
    requires 0x80 <= cp0 < 0x800
    requires a == ((Shr6(cp0, 1) | LeadMask(2)) & 0xFF) as byte && b == Cont(Shr6(cp0, 0))
    ensures a == (0xC0 | (cp0 >> 6)) as byte && b == (0x80 | (cp0 & 0x3F)) as byte
  {
    Shr6Step(cp0, 0);
  }

  lemma LeadThree(cp0: bv32, a: byte, b: byte, c: byte)
    requires 0x800 <= cp0 < 0x10000
    requires a == ((Shr6(cp0, 2) | LeadMask(3)) & 0xFF) as byte && b == Cont(Shr6(cp0, 1)) && c == Cont(Shr6(cp0, 0))
    ensures a == (0xE0 | (cp0 >> 12)) as byte && b == (0x80 | ((cp0 >> 6) & 0x3F)) as byte && c == (0x80 | (cp0 & 0x3F)) as byte
  {
    Shr6Step(cp0, 0);
    Shr6Step(cp0, 1);
  }

  lemma LeadFour(cp0: bv32, a: byte, b: byte, c: byte, d: byte)
    requires 0x10000 <= cp0 <= 0x10FFFF
    requires a == ((Shr6(cp0, 3) | LeadMask(4)) & 0xFF) as byte
    requires b == Cont(Shr6(cp0, 2)) && c == Cont(Shr6(cp0, 1)) && d == Cont(Shr6(cp0, 0))
    ensures a == (0xF0 | (cp0 >> 18)) as byte && b == (0x80 | ((cp0 >> 12) & 0x3F)) as byte
    ensures c == (0x80 | ((cp0 >> 6) & 0x3F)) as byte && d == (0x80 | (cp0 & 0x3F)) as byte
  {
    Shr6Step(cp0, 0);
    Shr6Step(cp0, 1);
    Shr6Step(cp0, 2);
  }

  /** The deviation: for 'A' (U+0041) the code as written emits the single byte C1, which no valid UTF-8 contains. */
  lemma ToUtf8AsciiFinding()
    ensures (0x41 as bv32 | 0x80) as byte == 0xC1
    ensures !Utf8Valid([0xC1])
    ensures Utf8Encode(0x41) == [0x41] && Utf8Valid(Utf8Encode(0x41))
  {
    OverlongLeadRejected([0xC1]);
    AsciiValid([0x41]);
  }
}
