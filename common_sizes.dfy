/**
 * Display widths and size strings of src/megacmdcommonutils.cpp:
 * `getstringutf8size` (how many terminal columns a UTF-8 string takes),
 * `getFixLengthString` (pad or middle-elide to a column width),
 * `textToSize` (parse "1m12k3B") and the unit choice of `sizeToText`.
 *
 * A `std::string` is a `seq<char>` whose chars stand for bytes; `Byte`
 * reads one as `unsigned char`.  The unsigned C++ arithmetic of
 * `getFixLengthString` is written out: `unsigned int` wraps modulo 2^32 and
 * `size_t` modulo 2^64, and `std::string::insert` throws `out_of_range`
 * (modelled as `None`) when a position lies past the end.
 */
module CommonSizes {
  import opened Wrappers
  import opened Text

  // ---------------------------------------------------------------------
  // getstringutf8size (src/megacmdcommonutils.cpp:591-616)

  function Byte(c: char): nat
  {
    (c as int) % 256
  }

  function AddWidth(n: nat, rest: Option<nat>): Option<nat>
  {
    match rest
    case None => None
    case Some(m) => Some(n + m)
  }

  /**
   * E2 87 B5, E2 87 93 and E2 87 91 (three arrow glyphs) are the three-byte
   * characters taken to be one column wide; `strncmp` needs all three bytes.
   */
  predicate KnownNarrowGlyph(s: seq<char>, i: nat)
  {
    i + 3 <= |s| && Byte(s[i]) == 0xE2 && Byte(s[i + 1]) == 0x87
    && (Byte(s[i + 2]) == 0xB5 || Byte(s[i + 2]) == 0x93 || Byte(s[i + 2]) == 0x91)
  }

  /**
   * Columns taken by s[i..], reading one character per lead byte: ASCII and
   * two- and four-byte leads count 1, three-byte leads count 2 except the
   * known narrow glyphs; None when a lead byte is a continuation byte or
   * 0xF8 and above.
   */
  function WidthFrom(s: seq<char>, i: nat): Option<nat>
    decreases |s| - i
  {
    if i >= |s| then Some(0)
    else
      var c := Byte(s[i]);
      if c <= 127 then AddWidth(1, WidthFrom(s, i + 1))
      else if 0xC0 <= c <= 0xDF then AddWidth(1, WidthFrom(s, i + 2))
      else if 0xE0 <= c <= 0xEF then AddWidth(if KnownNarrowGlyph(s, i) then 1 else 2, WidthFrom(s, i + 3))
      else if 0xF0 <= c <= 0xF7 then AddWidth(1, WidthFrom(s, i + 4))
      else None
  }

  /** What `getstringutf8size` returns: the width, or 0 for invalid UTF-8. */
  function Utf8Size(s: seq<char>): nat
  {
    WidthFrom(s, 0).GetOr(0)
  }

  /** The loop of `getstringutf8size`. */
  method GetStringUtf8Size(str: seq<char>) returns (size: nat)
    ensures size == Utf8Size(str)
  {
    var q: nat := 0;
    var i: nat := 0;
    var ix := |str|;
    while i < ix
      invariant i <= ix + 3
      invariant WidthFrom(str, 0) == AddWidth(q, WidthFrom(str, i))
      decreases ix + 3 - i
    {
      var c := Byte(str[i]);
      if c <= 127 {
      } else if 0xC0 <= c <= 0xDF {
        i := i + 1;
      } else if 0xE0 <= c <= 0xEF {
        if !KnownNarrowGlyph(str, i) {
          q := q + 1;
        }
        i := i + 2;
      } else if 0xF0 <= c <= 0xF7 {
        i := i + 3;
      } else {
        return 0;
      }
      i := i + 1;
      q := q + 1;
    }
    size := q;
  }

  predicate IsAscii(s: seq<char>)
  {
    forall k :: 0 <= k < |s| ==> s[k] as int < 128
  }

  lemma {:induction false} AsciiWidthFrom(s: seq<char>, i: nat)
    requires IsAscii(s) && i <= |s|
    ensures WidthFrom(s, i) == Some(|s| - i)
    decreases |s| - i
  {
    if i < |s| {
      AsciiWidthFrom(s, i + 1);
    }
  }

  /** Pure ASCII text is one column per byte. */
  lemma AsciiWidth(s: seq<char>)
    requires IsAscii(s)
    ensures Utf8Size(s) == |s|
  {
    AsciiWidthFrom(s, 0);
  }

  /** A stray continuation byte or a byte from 0xF8 up where a character should start makes the width 0. */
  lemma InvalidLeadWidth(s: seq<char>, i: nat)
    requires i < |s| && (0x80 <= Byte(s[i]) <= 0xBF || Byte(s[i]) >= 0xF8)
    ensures WidthFrom(s, i).None?
  {
  }

  lemma InvalidLeadAfterAscii(a: seq<char>, c: char, b: seq<char>)
    requires IsAscii(a) && (0x80 <= Byte(c) <= 0xBF || Byte(c) >= 0xF8)
    ensures Utf8Size(a + [c] + b) == 0
  {
    var s := a + [c] + b;
    forall k | 0 <= k < |a|
      ensures Byte(s[k]) <= 127
    {
      assert s[k] == a[k];
    }
    AsciiPrefixWidth(s, 0, |a|);
    InvalidLeadWidth(s, |a|);
  }

  lemma {:induction false} AsciiPrefixWidth(s: seq<char>, i: nat, n: nat)
    requires i <= n <= |s| && forall k :: i <= k < n ==> Byte(s[k]) <= 127
    ensures WidthFrom(s, i) == AddWidth(n - i, WidthFrom(s, n))
    decreases n - i
  {
    if i < n {
      AsciiPrefixWidth(s, i + 1, n);
    }
  }

  /** A three-byte character counts two columns unless it is one of the known narrow glyphs. */
  lemma ThreeByteWidth(s: seq<char>, i: nat)
    requires i < |s| && 0xE0 <= Byte(s[i]) <= 0xEF
    ensures WidthFrom(s, i) == AddWidth(if KnownNarrowGlyph(s, i) then 1 else 2, WidthFrom(s, i + 3))
  {
  }

  // ---------------------------------------------------------------------
  // getFixLengthString (src/megacmdcommonutils.cpp:618-644)

  const U32: int := 0x1_0000_0000
  const U64: int := 0x1_0000_0000_0000_0000

  type uint32 = x: int | 0 <= x < U32

  /** Subtraction on `unsigned int`, wrapping. */
  function SubU32(a: int, b: int): nat
  {
    (a - b) % U32
  }

  /** Subtraction on `size_t`, wrapping. */
  function SubSize(a: int, b: int): nat
  {
    (a - b) % U64
  }

  function Repeat(c: char, n: nat): (r: seq<char>)
    ensures |r| == n && forall k :: 0 <= k < n ==> r[k] == c
  {
    if n == 0 then [] else Repeat(c, n - 1) + [c]
  }

  /** `s.insert(pos, n, c)`. */
  function InsertFill(s: seq<char>, pos: nat, n: nat, c: char): Option<seq<char>>
  {
    if pos > |s| then None else Some(s[..pos] + Repeat(c, n) + s[pos..])
  }

  /** `s.insert(pos, str, subpos, sublen)`: the count is cut to what str holds after subpos. */
  function InsertSub(s: seq<char>, pos: nat, str: seq<char>, subpos: nat, sublen: nat): Option<seq<char>>
  {
    if pos > |s| || subpos > |str| then None
    else
      var m := if sublen <= |str| - subpos then sublen else |str| - subpos;
      Some(s[..pos] + str[subpos..subpos + m] + s[pos..])
  }

  function InsertFillOpt(s: Option<seq<char>>, pos: nat, n: nat, c: char): Option<seq<char>>
  {
    match s
    case None => None
    case Some(t) => InsertFill(t, pos, n, c)
  }

  function InsertSubOpt(s: Option<seq<char>>, pos: nat, str: seq<char>, subpos: nat, sublen: nat): Option<seq<char>>
  {
    match s
    case None => None
    case Some(t) => InsertSub(t, pos, str, subpos, sublen)
  }

  /**
   * `getFixLengthString(origin, size, delim, alignedright)`; None when one of
   * its `insert` calls throws `std::out_of_range`.
   */
  function FixLengthString(origin: seq<char>, size: uint32, delim: char, alignedright: bool): Option<seq<char>>
  {
    var printable := Utf8Size(origin);
    var bytes := |origin|;
    if printable <= size then
      if alignedright then
        InsertSubOpt(InsertFill([], 0, size - printable, delim), SubSize(size, bytes), origin, 0, bytes)
      else
        InsertFillOpt(InsertSub([], 0, origin, 0, bytes), bytes, size - printable, delim)
    else
      var half := ((size + 1) % U32) / 2;
      var head := SubU32(half, 2);
      var t1 := InsertSub([], 0, origin, 0, head);
      var t2 := if size > 3 then InsertFillOpt(t1, head, 3, '.') else t1;
      if size > 1 then
        InsertSubOpt(t2, (half + 1) % U32, origin, (SubSize(bytes, size / 2) + 1) % U64, SubU32(size / 2, 1))
      else t2
  }

  /** Inserting at the end of s appends. */
  lemma InsertAtEnd(s: seq<char>, piece: seq<char>)
    ensures s[..|s|] + piece + s[|s|..] == s + piece
  {
    assert s[..|s|] == s && s[|s|..] == [];
  }

  lemma FillAtEnd(s: seq<char>, n: nat, c: char)
    ensures InsertFill(s, |s|, n, c) == Some(s + Repeat(c, n))
  {
    InsertAtEnd(s, Repeat(c, n));
  }

  /** Inserting the rest of str from subpos at the end of s appends that rest. */
  lemma SubAtEnd(s: seq<char>, str: seq<char>, subpos: nat, sublen: nat)
    requires subpos <= |str| && sublen >= |str| - subpos
    ensures InsertSub(s, |s|, str, subpos, sublen) == Some(s + str[subpos..])
  {
    assert str[subpos..subpos + (|str| - subpos)] == str[subpos..];
    InsertAtEnd(s, str[subpos..]);
  }

  /** Inserting the first n characters of str into an empty string. */
  lemma SubIntoEmpty(str: seq<char>, n: nat)
    ensures InsertSub([], 0, str, 0, n) == Some(if n <= |str| then str[..n] else str)
  {
    var e: seq<char> := [];
    var m := if n <= |str| then n else |str|;
    assert str[0..m] == (if n <= |str| then str[..n] else str);
    assert InsertSub(e, 0, str, 0, n) == Some(e[..0] + str[0..m] + e[0..]);
    assert e[..0] + str[0..m] + e[0..] == str[0..m];
  }

  /** Inserting nothing (from the end of str) leaves s as it is. */
  lemma SubNothing(s: seq<char>, pos: nat, str: seq<char>, sublen: nat)
    requires pos <= |s|
    ensures InsertSub(s, pos, str, |str|, sublen) == Some(s)
  {
    assert str[|str|..|str|] == [];
    assert s[..pos] + [] + s[pos..] == s;
  }

  /** ASCII text that fits is padded on the chosen side to exactly size characters. */
  lemma FixLengthFits(origin: seq<char>, size: uint32, delim: char, alignedright: bool)
    requires IsAscii(origin) && |origin| <= size
    ensures FixLengthString(origin, size, delim, alignedright)
            == Some(if alignedright then Repeat(delim, size - |origin|) + origin
                    else origin + Repeat(delim, size - |origin|))
    ensures |FixLengthString(origin, size, delim, alignedright).value| == size
  {
    AsciiWidth(origin);
    var pad := Repeat(delim, size - |origin|);
    if alignedright {
      assert SubSize(size, |origin|) == size - |origin|;
      FillAtEnd([], size - |origin|, delim);
      assert [] + pad == pad;
      SubAtEnd(pad, origin, 0, |origin|);
      assert origin[0..] == origin;
    } else {
      SubIntoEmpty(origin, |origin|);
      assert origin[..|origin|] == origin;
      FillAtEnd(origin, size - |origin|, delim);
    }
  }

  lemma Dots()
    ensures Repeat('.', 3) == "..."
  {
    assert Repeat('.', 1) == ".";
    assert Repeat('.', 2) == "..";
  }

  lemma HalvesSum(n: nat)
    ensures (n + 1) / 2 + n / 2 == n
  {
    if n % 2 == 0 {
      assert n == 2 * (n / 2);
    } else {
      assert n == 2 * (n / 2) + 1;
    }
  }

  /**
   * ASCII text longer than a width above 3 keeps its first (size+1)/2-2 and
   * last size/2-1 characters around "...": exactly size characters.
   */
  lemma FixLengthElided(origin: seq<char>, size: uint32, delim: char, alignedright: bool)
    requires IsAscii(origin) && |origin| > size > 3 && |origin| < U32
    ensures FixLengthString(origin, size, delim, alignedright)
            == Some(origin[..(size + 1) / 2 - 2] + "..." + origin[|origin| - (size / 2 - 1)..])
    ensures |FixLengthString(origin, size, delim, alignedright).value| == size
  {
    AsciiWidth(origin);
    HalvesSum(size);
    var half := (size + 1) / 2;
    assert half == ((size + 1) % U32) / 2;
    var head := half - 2;
    assert SubU32(half, 2) == head;
    var b := |origin|;
    var t1 := origin[..head];
    SubIntoEmpty(origin, head);
    var t2 := t1 + "...";
    Dots();
    FillAtEnd(t1, 3, '.');
    var subpos := b - (size / 2 - 1);
    assert (SubSize(b, size / 2) + 1) % U64 == subpos;
    assert (half + 1) % U32 == |t2|;
    SubAtEnd(t2, origin, subpos, SubU32(size / 2, 1));
  }

  /** Width 3 leaves no room for "..." and a tail: too long text makes an insert throw. */
  lemma FixLengthThreeThrows(origin: seq<char>, delim: char, alignedright: bool)
    requires Utf8Size(origin) > 3
    ensures FixLengthString(origin, 3, delim, alignedright).None?
  {
    SubIntoEmpty(origin, 0);
  }

  /** Widths 0, 1 and 2 return too long ASCII text unchanged. */
  lemma FixLengthTiny(origin: seq<char>, size: uint32, delim: char, alignedright: bool)
    requires IsAscii(origin) && size <= 2 && |origin| > size && |origin| + 2 <= U32
    ensures FixLengthString(origin, size, delim, alignedright) == Some(origin)
  {
    AsciiWidth(origin);
    var half := ((size + 1) % U32) / 2;
    assert half == (size + 1) / 2 <= 1;
    var head := SubU32(half, 2);
    assert head == U32 + half - 2 >= |origin|;
    SubIntoEmpty(origin, head);
    assert origin[..|origin|] == origin;
    assert InsertSub([], 0, origin, 0, head) == Some(origin);
    if size == 2 {
      assert (SubSize(|origin|, 1) + 1) % U64 == |origin|;
      assert SubU32(size / 2, 1) == 0 && (half + 1) % U32 == 2;
      SubNothing(origin, 2, origin, 0);
    }
  }

  // ---------------------------------------------------------------------
  // textToSize (src/megacmdcommonutils.cpp:1029-1087)

  const Tera: nat := 1099511627776
  /** The factor src/megacmdcommonutils.cpp:1068 uses for 't'/'T': 1024^5, not 1024^4. */
  const TeraAsWritten: nat := 1125899906842624

  /** The factor of a unit letter; tera is the factor given to 't'/'T'. */
  function UnitScale(c: char, tera: nat): Option<nat>
  {
    if c == 'b' || c == 'B' then Some(1)
    else if c == 'k' || c == 'K' then Some(1024)
    else if c == 'm' || c == 'M' then Some(1048576)
    else if c == 'g' || c == 'G' then Some(1073741824)
    else if c == 't' || c == 'T' then Some(tera)
    else None
  }

  /**
   * The scan of `textToSize` from i, with the current number starting at
   * last and sum added up so far. Any non-digit that is not a unit letter
   * ('.' included) gives -1, and so does a digit in the last position.
   */
  function ScanSize(t: seq<char>, i: nat, last: nat, sum: int, tera: nat): int
    requires last <= i <= |t| && AllDigits(t[last..i])
    decreases |t| - i
  {
    if i == |t| then sum
    else if IsDigit(t[i]) then
      if i + 1 == |t| then -1
      else
        assert t[last..i + 1] == t[last..i] + [t[i]];
        ScanSize(t, i + 1, last, sum, tera)
    else
      match UnitScale(t[i], tera)
      case None => -1
      case Some(m) => ScanSize(t, i + 1, i + 1, sum + m * DigitsValue(t[last..i]), tera)
  }

  /** `textToSize` as written, with 1024^5 for terabytes. */
  function TextToSizeAsWritten(text: seq<char>): int
  {
    var t := CStr(text);
    ScanSize(t, 0, 0, 0, TeraAsWritten)
  }

  /** `textToSize` with terabytes at 1024^4, the factor `sizeToText` divides by for "TB". */
  function TextToSize(text: seq<char>): int
  {
    var t := CStr(text);
    ScanSize(t, 0, 0, 0, Tera)
  }

  /** The loop of `textToSize` (with the terabyte factor corrected). */
  method ParseSize(text: seq<char>) returns (sizeinbytes: int)
    ensures sizeinbytes == TextToSize(text)
  {
    var t := CStr(text);
    sizeinbytes := 0;
    var ptr: nat := 0;
    var last: nat := 0;
    while ptr < |t|
      invariant last <= ptr <= |t| && AllDigits(t[last..ptr])
      invariant ScanSize(t, ptr, last, sizeinbytes, Tera) == TextToSize(text)
      decreases |t| - ptr
    {
      if !IsDigit(t[ptr]) {
        var scale := UnitScale(t[ptr], Tera);
        if scale.None? {
          return -1;
        }
        sizeinbytes := sizeinbytes + scale.value * DigitsValue(t[last..ptr]);
        last := ptr + 1;
      }
      var prev := ptr;
      ptr := ptr + 1;
      if ptr == |t| && IsDigit(t[prev]) {
        return -1;
      }
      assert t[last..ptr] == if last == ptr then [] else t[last..prev] + [t[prev]];
    }
  }

  /** A character that makes `textToSize` fail: neither a digit nor a unit letter. */
  predicate Rejected(c: char)
  {
    !IsDigit(c) && UnitScale(c, Tera).None?
  }

  lemma {:induction false} ScanFails(t: seq<char>, i: nat, last: nat, sum: int, tera: nat)
    requires last <= i <= |t| && AllDigits(t[last..i])
    requires (exists k :: i <= k < |t| && Rejected(t[k])) || (i < |t| && IsDigit(t[|t| - 1]))
    ensures ScanSize(t, i, last, sum, tera) == -1
    decreases |t| - i
  {
    if IsDigit(t[i]) {
      if i + 1 < |t| {
        assert t[last..i + 1] == t[last..i] + [t[i]];
        ScanFails(t, i + 1, last, sum, tera);
      }
    } else if UnitScale(t[i], tera).Some? {
      assert !Rejected(t[i]);
      ScanFails(t, i + 1, i + 1, sum + UnitScale(t[i], tera).value * DigitsValue(t[last..i]), tera);
    }
  }

  lemma {:induction false} ScanSucceeds(t: seq<char>, i: nat, last: nat, sum: int, tera: nat)
    requires last <= i <= |t| && AllDigits(t[last..i]) && sum >= 0
    requires forall k :: i <= k < |t| ==> !Rejected(t[k])
    requires i == |t| || !IsDigit(t[|t| - 1])
    ensures ScanSize(t, i, last, sum, tera) >= 0
    decreases |t| - i
  {
    if i < |t| {
      if IsDigit(t[i]) {
        assert t[last..i + 1] == t[last..i] + [t[i]];
        ScanSucceeds(t, i + 1, last, sum, tera);
      } else {
        ScanSucceeds(t, i + 1, i + 1, sum + UnitScale(t[i], tera).value * DigitsValue(t[last..i]), tera);
      }
    }
  }

  /**
   * `textToSize` fails (returns -1) exactly when the text holds a character
   * that is neither a digit nor a unit letter, or ends in a digit.
   */
  lemma TextToSizeFails(text: seq<char>)
    ensures var t := CStr(text);
            TextToSize(text) == -1 <==>
              (exists k :: 0 <= k < |t| && Rejected(t[k])) || (|t| > 0 && IsDigit(t[|t| - 1]))
    ensures TextToSize(text) >= -1
  {
    var t := CStr(text);
    assert t[0..0] == [];
    if (exists k :: 0 <= k < |t| && Rejected(t[k])) || (|t| > 0 && IsDigit(t[|t| - 1])) {
      ScanFails(t, 0, 0, 0, Tera);
    } else {
      ScanSucceeds(t, 0, 0, 0, Tera);
    }
  }

  /** Size units, as a user writes them. */
  datatype Unit = Bytes | Kilo | Mega | Giga | Terabytes

  function Letter(u: Unit): char
  {
    match u
    case Bytes => 'B'
    case Kilo => 'K'
    case Mega => 'M'
    case Giga => 'G'
    case Terabytes => 'T'
  }

  function Scale(u: Unit): nat
  {
    match u
    case Bytes => 1
    case Kilo => 1024
    case Mega => 1048576
    case Giga => 1073741824
    case Terabytes => Tera
  }

  /** A size text built from (amount, unit) components, such as "1M12K3B". */
  function Render(cs: seq<(nat, Unit)>): seq<char>
  {
    if |cs| == 0 then [] else NatToString(cs[0].0) + [Letter(cs[0].1)] + Render(cs[1..])
  }

  function Total(cs: seq<(nat, Unit)>): nat
  {
    if |cs| == 0 then 0 else cs[0].0 * Scale(cs[0].1) + Total(cs[1..])
  }

  lemma {:induction false} ScanDigits(t: seq<char>, last: nat, i: nat, j: nat, sum: int, tera: nat)
    requires last <= i <= j < |t| && AllDigits(t[last..j])
    ensures AllDigits(t[last..i])
    ensures ScanSize(t, i, last, sum, tera) == ScanSize(t, j, last, sum, tera)
    decreases j - i
  {
    assert t[last..i] == t[last..j][..i - last];
    if i < j {
      assert t[i] == t[last..j][i - last];
      ScanDigits(t, last, i + 1, j, sum, tera);
    }
  }

  lemma {:induction false} ScanRendered(t: seq<char>, i: nat, cs: seq<(nat, Unit)>, sum: int)
    requires i <= |t| && t[i..] == Render(cs)
    ensures ScanSize(t, i, i, sum, Tera) == sum + Total(cs)
    decreases |cs|
  {
    assert t[i..i] == [];
    if |cs| > 0 {
      var n, u := cs[0].0, cs[0].1;
      var m := Scale(u);
      assert Total(cs) == n * m + Total(cs[1..]);
      var j := i + |NatToString(n)|;
      PartsAt(t, i, NatToString(n), Letter(u), Render(cs[1..]));
      assert UnitScale(t[j], Tera) == Some(m);
      ScanDigits(t, i, i, j, sum, Tera);
      ScanUnit(t, i, j, sum, n, Tera, m);
      ScanRendered(t, j + 1, cs[1..], sum + n * m);
    }
  }

  /** Where the parts of d + [c] + rest lie in a text holding it from i on. */
  lemma PartsAt(t: seq<char>, i: nat, d: seq<char>, c: char, rest: seq<char>)
    requires i <= |t| && t[i..] == d + [c] + rest
    ensures i + |d| < |t| && t[i..i + |d|] == d && t[i + |d|] == c && t[i + |d| + 1..] == rest
  {
    assert t[i..i + |d|] == t[i..][..|d|];
    assert t[i + |d|] == t[i..][|d|];
    assert t[i + |d| + 1..] == t[i..][|d| + 1..];
  }

  /** A unit letter of scale m after the digits of n adds n times m. */
  lemma ScanUnit(t: seq<char>, i: nat, j: nat, sum: int, n: nat, tera: nat, m: nat)
    requires i <= j < |t| && t[i..j] == NatToString(n) && UnitScale(t[j], tera) == Some(m)
    ensures AllDigits(t[i..j])
    ensures ScanSize(t, j, i, sum, tera) == ScanSize(t, j + 1, j + 1, sum + n * m, tera)
  {
    assert DigitsValue(t[i..j]) == n;
    assert m * n == n * m;
  }

  lemma {:induction false} RenderNoNul(cs: seq<(nat, Unit)>)
    ensures NUL !in Render(cs)
    decreases |cs|
  {
    if |cs| > 0 {
      RenderNoNul(cs[1..]);
      var d := NatToString(cs[0].0);
      assert forall k :: 0 <= k < |d| ==> IsDigit(d[k]);
    }
  }

  /** Parsing a text built from components gives their scaled sum. */
  lemma TextToSizeOfRendered(cs: seq<(nat, Unit)>)
    ensures TextToSize(Render(cs)) == Total(cs)
  {
    var t := Render(cs);
    RenderNoNul(cs);
    CStrNoNul(t);
    assert t[0..] == t;
    ScanRendered(t, 0, cs, 0);
  }

  // ---------------------------------------------------------------------
  // The unit sizeToText picks (src/megacmdcommonutils.cpp:988-1027)

  /** The divisor and the unit name `sizeToText` uses for a human-readable size. */
  function HumanUnit(totalSize: int, equalizeUnitsLength: bool): (r: (nat, seq<char>))
    ensures r.0 == 1 || totalSize > 2 * r.0
    ensures r.1 == "TB" <==> r.0 == Tera
  {
    if totalSize > Tera * 2 then (Tera, "TB")
    else if totalSize > 1073741824 * 2 then (1073741824, "GB")
    else if totalSize > 1048576 * 2 then (1048576, "MB")
    else if totalSize > 1024 * 2 then (1024, "KB")
    else (1, if equalizeUnitsLength then " B" else "B")
  }

  /** Anything over two terabytes is shown in terabytes. */
  lemma HumanTera(x: int)
    requires x > 2 * Tera
    ensures HumanUnit(x, false) == (Tera, "TB")
  {
  }

  /**
   * "nT" parsed as written is shown back by `sizeToText` as 1024*n "TB";
   * with the corrected factor it is shown as n "TB".
   */
  lemma TeraFinding(n: nat)
    requires n >= 3
    ensures var text := NatToString(n) + "T";
            TextToSizeAsWritten(text) == 1024 * n * Tera
            && TextToSize(text) == n * Tera
            && HumanUnit(TextToSize(text), false) == (Tera, "TB")
            && HumanUnit(TextToSizeAsWritten(text), false) == (Tera, "TB")
  {
    var cs := [(n, Terabytes)];
    var text := NatToString(n) + "T";
    assert Render(cs) == text;
    TextToSizeOfRendered(cs);
    assert Total(cs) == n * Tera;
    assert n * Tera >= 3 * Tera && 1024 * n * Tera >= 3 * Tera;
    HumanTera(n * Tera);
    HumanTera(1024 * n * Tera);
    assert TextToSizeAsWritten(text) == 1024 * n * Tera by {
      RenderNoNul(cs);
      CStrNoNul(text);
      var d := NatToString(n);
      var j := |d|;
      assert text[0..j] == d && text[j] == 'T';
      ScanDigits(text, 0, 0, j, 0, TeraAsWritten);
      ScanUnit(text, 0, j, 0, n, TeraAsWritten, TeraAsWritten);
    }
  }
}
