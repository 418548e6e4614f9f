/**
 * The in-memory message buffer of the rotating file logger and its
 * numbered archive rotation (src/megacmd_rotating_logger.cpp).
 *
 * A MemoryBlock owns a fixed char buffer that always holds a C string; the
 * MessageBuffer owns a list of blocks and appends to the last one. The
 * file system the archive engine renames and unlinks in is a map from
 * file name to contents.
 */
module RotatingLogger {
  import opened Text

  // ---------------------------------------------------------------- MemoryBlock

  /** What a block holds: its text, its capacity and whether its allocation failed. */
  datatype BlockView = BlockView(data: seq<char>, capacity: nat, outOfMemory: bool)

  /** `canAppendData`: the last byte is reserved for the terminating NUL. */
  predicate CanAppend(b: BlockView, dataSize: nat)
  {
    !b.outOfMemory && |b.data| + dataSize < b.capacity
  }

  /** `isNearCapacity`: less than an eighth of the capacity is left. */
  predicate NearCapacity(b: BlockView)
  {
    |b.data| + b.capacity / 8 > b.capacity
  }

  class MemoryBlock {
    /** mBuffer; empty when the allocation failed. */
    const buffer: array<char>
    var size: nat
    const capacity: nat
    const outOfMemory: bool

    ghost predicate Valid()
      reads this, buffer
    {
      if outOfMemory then buffer.Length == 0 && size == 0
      else buffer.Length == capacity && size < capacity && buffer[size] == NUL
    }

    function View(): (v: BlockView)
      reads this, buffer
      requires Valid()
      ensures |v.data| == size && v.capacity == capacity && v.outOfMemory == outOfMemory
    {
      BlockView(buffer[..size], capacity, outOfMemory)
    }

    /**
     * `new char[capacity]()`: a zeroed buffer, or none when the allocation
     * fails (`allocationFails` stands for that outcome). The source asserts a
     * positive capacity.
     */
    constructor(capacity: nat, allocationFails: bool)
      requires capacity > 0
      ensures Valid() && fresh(buffer)
      ensures View() == BlockView([], capacity, allocationFails)
    {
      this.capacity := capacity;
      this.outOfMemory := allocationFails;
      this.size := 0;
      if allocationFails {
        this.buffer := new char[0];
      } else {
        this.buffer := new char[capacity](_ => NUL);
      }
    }

    function CanAppendData(dataSize: nat): (r: bool)
      reads this, buffer
      requires Valid()
      ensures r <==> CanAppend(View(), dataSize)
    {
      !outOfMemory && size + dataSize < capacity
    }

    function IsNearCapacity(): (r: bool)
      reads this, buffer
      requires Valid()
      ensures r <==> NearCapacity(View())
    {
      size + capacity / 8 > capacity
    }

    /** `appendData`: memcpy after the text, then a new terminating NUL; the source asserts room and non-empty data. */
    method AppendData(data: seq<char>)
      requires Valid() && CanAppend(View(), |data|) && |data| > 0
      modifies this, buffer
      ensures Valid()
      ensures View() == old(View()).(data := old(View()).data + data)
    {
      forall k | 0 <= k < |data| {
        buffer[size + k] := data[k];
      }
      buffer[size + |data|] := NUL;
      size := size + |data|;
      assert buffer[..size] == old(buffer[..size]) + data;
    }
  }

  // ---------------------------------------------------------------- MessageBuffer

  /** The text the blocks hold, in order. */
  function Buffered(vs: seq<BlockView>): seq<char>
  {
    if vs == [] then [] else Buffered(vs[..|vs| - 1]) + vs[|vs| - 1].data
  }

  /** Every block keeps a byte for its NUL. */
  predicate Bounded(vs: seq<BlockView>)
  {
    forall i :: 0 <= i < |vs| ==> |vs[i].data| < vs[i].capacity || vs[i].outOfMemory
  }

  /**
   * `append` on the block list: a new block (which may itself fail to
   * allocate) is opened when there is none or the last cannot take the
   * data; the data goes into the last block if it fits there, and is
   * dropped otherwise.
   */
  function Appended(vs: seq<BlockView>, data: seq<char>, blockCapacity: nat, allocationFails: bool): (r: seq<BlockView>)
  {
    if vs != [] && CanAppend(vs[|vs| - 1], |data|) then
      vs[..|vs| - 1] + [vs[|vs| - 1].(data := vs[|vs| - 1].data + data)]
    else
      var empty := BlockView([], blockCapacity, allocationFails);
      if CanAppend(empty, |data|) then vs + [empty.(data := data)] else vs + [empty]
  }

  lemma BufferedAppend(vs: seq<BlockView>, v: BlockView)
    ensures Buffered(vs + [v]) == Buffered(vs) + v.data
  {
    assert (vs + [v])[..|vs|] == vs;
  }

  /**
   * Data fitting an empty block (and, for a fresh block, an allocation that
   * succeeds) is appended to the buffered text; otherwise the text is
   * unchanged. Either way at most one block is added and every block keeps
   * room for its NUL.
   */
  lemma AppendedBuffered(vs: seq<BlockView>, data: seq<char>, blockCapacity: nat, allocationFails: bool)
    requires Bounded(vs) && blockCapacity > 0
    ensures var r := Appended(vs, data, blockCapacity, allocationFails);
      var fits := (vs != [] && CanAppend(vs[|vs| - 1], |data|)) || (!allocationFails && |data| < blockCapacity);
      Bounded(r) && |vs| <= |r| <= |vs| + 1 && (vs != [] ==> r[..|vs| - 1] == vs[..|vs| - 1]) &&
      Buffered(r) == (if fits then Buffered(vs) + data else Buffered(vs))
  {
    if vs != [] && CanAppend(vs[|vs| - 1], |data|) {
      AppendedToLast(vs, data, blockCapacity, allocationFails);
    } else {
      AppendedToNew(vs, data, blockCapacity, allocationFails);
    }
  }

  /** The shape of `Appended` when a new block must be opened. */
  lemma AppendedToNewShape(vs: seq<BlockView>, data: seq<char>, blockCapacity: nat, allocationFails: bool)
    requires !(vs != [] && CanAppend(vs[|vs| - 1], |data|))
    ensures var empty := BlockView([], blockCapacity, allocationFails);
      Appended(vs, data, blockCapacity, allocationFails) ==
        if CanAppend(empty, |data|) then vs + [empty.(data := data)] else vs + [empty]
  {
  }

  lemma Regroup(vs: seq<BlockView>, v: BlockView, data: seq<char>)
    requires v.data == []
    ensures (vs + [v])[..|vs|] + [v.(data := v.data + data)] == vs + [v.(data := data)]
  {
    assert (vs + [v])[..|vs|] == vs;
    assert v.data + data == data;
  }

  lemma AppendedToLast(vs: seq<BlockView>, data: seq<char>, blockCapacity: nat, allocationFails: bool)
    requires Bounded(vs) && vs != [] && CanAppend(vs[|vs| - 1], |data|)
    ensures var r := Appended(vs, data, blockCapacity, allocationFails);
      Bounded(r) && |r| == |vs| && r[..|vs| - 1] == vs[..|vs| - 1] && Buffered(r) == Buffered(vs) + data
  {
    var last := vs[|vs| - 1];
    var front := vs[..|vs| - 1];
    var r := front + [last.(data := last.data + data)];
    assert Appended(vs, data, blockCapacity, allocationFails) == r;
    assert vs == front + [last];
    BufferedAppend(front, last);
    BufferedAppend(front, last.(data := last.data + data));
    assert r[..|vs| - 1] == front;
  }

  lemma AppendedToNew(vs: seq<BlockView>, data: seq<char>, blockCapacity: nat, allocationFails: bool)
    requires Bounded(vs) && blockCapacity > 0 && !(vs != [] && CanAppend(vs[|vs| - 1], |data|))
    ensures var r := Appended(vs, data, blockCapacity, allocationFails);
      var fits := !allocationFails && |data| < blockCapacity;
      Bounded(r) && |r| == |vs| + 1 && r[..|vs|] == vs &&
      Buffered(r) == (if fits then Buffered(vs) + data else Buffered(vs))
  {
    var empty := BlockView([], blockCapacity, allocationFails);
    AppendedToNewShape(vs, data, blockCapacity, allocationFails);
    BufferedAppend(vs, empty);
    BufferedAppend(vs, empty.(data := data));
    assert (vs + [empty])[..|vs|] == vs && (vs + [empty.(data := data)])[..|vs|] == vs;
  }

  ghost function Views(bs: seq<MemoryBlock>): (vs: seq<BlockView>)
    reads set b | b in bs, set b | b in bs :: b.buffer
    requires forall b :: b in bs ==> b.Valid()
    ensures |vs| == |bs|
  {
    if bs == [] then [] else Views(bs[..|bs| - 1]) + [bs[|bs| - 1].View()]
  }

  lemma {:induction false} ViewsAt(bs: seq<MemoryBlock>, i: nat)
    requires forall b :: b in bs ==> b.Valid()
    requires i < |bs|
    ensures Views(bs)[i] == bs[i].View()
    decreases |bs|
  {
    if i < |bs| - 1 {
      ViewsAt(bs[..|bs| - 1], i);
    }
  }

  /** Every live block keeps room for its NUL. */
  lemma {:induction false} ViewsBounded(bs: seq<MemoryBlock>)
    requires forall b :: b in bs ==> b.Valid()
    ensures Bounded(Views(bs))
  {
    forall i | 0 <= i < |bs|
      ensures |Views(bs)[i].data| < Views(bs)[i].capacity || Views(bs)[i].outOfMemory
    {
      ViewsAt(bs, i);
      assert bs[i] in bs;
    }
  }

  class MessageBuffer {
    const blockCapacity: nat
    var list: seq<MemoryBlock>

    /** The blocks are live, distinct objects with distinct buffers. */
    ghost predicate Valid()
      reads this, set b | b in list, set b | b in list :: b.buffer
    {
      (forall b :: b in list ==> b.Valid()) &&
      (forall i, j :: 0 <= i < j < |list| ==> list[i] != list[j] && list[i].buffer != list[j].buffer)
    }

    ghost function Blocks(): seq<BlockView>
      reads this, set b | b in list, set b | b in list :: b.buffer
      requires Valid()
    {
      Views(list)
    }

    constructor(defaultBlockCapacity: nat)
      ensures Valid() && blockCapacity == defaultBlockCapacity && list == []
    {
      blockCapacity := defaultBlockCapacity;
      list := [];
    }

    /** The last block and its buffer: all `append` writes besides the list. */
    ghost function LastFrame(): set<object>
      reads this
    {
      if list == [] then {} else {list[|list| - 1], list[|list| - 1].buffer}
    }

    /** `append`; `allocationFails` is the outcome of allocating a new block, should one be opened. */
    method Append(data: seq<char>, allocationFails: bool)
      requires Valid() && |data| > 0 && blockCapacity > 0
      modifies this, LastFrame()
      ensures Valid()
      ensures Blocks() == Appended(old(Blocks()), data, blockCapacity, allocationFails)
    {
      var n := |list|;
      if n > 0 { ViewsAt(list, n - 1); }
      if n > 0 && list[n - 1].CanAppendData(|data|) {
        FillLast(data);
      } else {
        AppendToNewBlock(data, allocationFails);
      }
    }

    /** The branch of `append` that opens a new block first. */
    method AppendToNewBlock(data: seq<char>, allocationFails: bool)
      requires Valid() && |data| > 0 && blockCapacity > 0
      requires var vs := Blocks(); !(vs != [] && CanAppend(vs[|vs| - 1], |data|))
      modifies this
      ensures Valid()
      ensures Blocks() == Appended(old(Blocks()), data, blockCapacity, allocationFails)
    {
      ghost var vs := Blocks();
      var b := new MemoryBlock(blockCapacity, allocationFails);
      OpenBlock(b);
      AppendedToNewShape(vs, data, blockCapacity, allocationFails);
      if b.CanAppendData(|data|) {
        assert Blocks() == vs + [BlockView([], blockCapacity, allocationFails)];
        FillLast(data);
        Regroup(vs, BlockView([], blockCapacity, allocationFails), data);
      }
    }

    method OpenBlock(b: MemoryBlock)
      requires Valid() && b.Valid() && forall x :: x in list ==> x != b && x.buffer != b.buffer
      modifies this
      ensures Valid() && list == old(list) + [b]
      ensures Blocks() == old(Blocks()) + [b.View()]
    {
      list := list + [b];
      assert list[..|list| - 1] == old(list);
    }

    method FillLast(data: seq<char>)
      requires Valid() && list != [] && |data| > 0 && CanAppend(list[|list| - 1].View(), |data|)
      modifies list[|list| - 1], list[|list| - 1].buffer
      ensures Valid()
      ensures Blocks() == old(Blocks()[..|list| - 1]) + [old(list[|list| - 1].View()).(data := old(list[|list| - 1].View()).data + data)]
    {
      var last := list[|list| - 1];
      ghost var front := list[..|list| - 1];
      assert list == front + [last];
      ghost var before := Views(front);
      assert Blocks() == before + [last.View()];
      last.AppendData(data);
      assert forall b :: b in front ==> b != last && b.buffer != last.buffer;
      assert Views(front) == before;
    }

    /** `popMemoryBlockList`: all blocks, in order, leaving the buffer empty. */
    method PopMemoryBlockList() returns (r: seq<MemoryBlock>)
      requires Valid()
      modifies this
      ensures r == old(list) && list == [] && Valid()
    {
      r := list;
      list := [];
    }

    function IsEmpty(): (r: bool)
      reads this
      ensures r <==> list == []
    {
      list == []
    }

    function IsNearLastBlockCapacity(): (r: bool)
      reads this, set b | b in list, set b | b in list :: b.buffer
      requires Valid()
      ensures r <==> list != [] && NearCapacity(list[|list| - 1].View())
    {
      list != [] && list[|list| - 1].IsNearCapacity()
    }
  }

  // ---------------------------------------------------------------- archives

  datatype ArchiveType = Numbered | Timestamp

  datatype Config = Config(maxBaseFileSize: nat, archiveType: ArchiveType, maxArchiveAge: nat, maxArchivesToKeep: int)

  /** The default configuration: 50 MiB files, numbered archives, a month of age, 50 archives. */
  const DEFAULT_CONFIG: Config := Config(50 * 1024 * 1024, Numbered, 30 * 86400, 50)

  /** `shouldRotateFile`. */
  predicate ShouldRotateFile(config: Config, fileSize: nat)
  {
    fileSize > config.maxBaseFileSize
  }

  lemma DefaultRotation(fileSize: nat)
    ensures ShouldRotateFile(DEFAULT_CONFIG, fileSize) <==> fileSize > 52428800
    ensures DEFAULT_CONFIG.maxArchivesToKeep == 50 && DEFAULT_CONFIG.archiveType == Numbered
  {
  }

  /**
   * `getFilePath`, below the directory: the base name for 0, "base.1" for
   * the first rotated file, and "base.i" with the archive extension after.
   */
  function FileName(base: string, archiveExt: string, i: nat): (r: string)
    ensures i == 0 ==> r == base
    ensures i == 1 ==> r == base + ".1"
    ensures i >= 2 ==> r == base + "." + NatToString(i) + archiveExt
  {
    if i == 0 then base
    else if i == 1 then base + "." + NatToString(1)
    else base + "." + NatToString(i) + archiveExt
  }

  /** Different indices name different files (unless the archive extension starts with a digit). */
  lemma FileNameInjective(base: string, archiveExt: string, i: nat, j: nat)
    requires archiveExt == [] || !IsDigit(archiveExt[0])
    requires FileName(base, archiveExt, i) == FileName(base, archiveExt, j)
    ensures i == j
  {
    var a, b := FileName(base, archiveExt, i), FileName(base, archiveExt, j);
    if i != 0 && j != 0 {
      var ti := NatToString(i) + (if i == 1 then "" else archiveExt);
      var tj := NatToString(j) + (if j == 1 then "" else archiveExt);
      assert a == base + "." + ti && b == base + "." + tj;
      assert a[|base| + 1..] == ti && b[|base| + 1..] == tj;
      DigitsPrefix(i, archiveExt);
      DigitsPrefix(j, archiveExt);
      SplitDigits(NatToString(i), if i == 1 then "" else archiveExt, NatToString(j), if j == 1 then "" else archiveExt);
      NatToStringInjective(i, j);
    }
  }

  lemma DigitsPrefix(i: nat, ext: string)
    ensures AllDigits(NatToString(i)) && |NatToString(i)| > 0
  {
  }

  /** The length of the run of decimal digits s starts with. */
  function DigitRun(s: string): (n: nat)
    ensures n <= |s|
  {
    if s == [] || !IsDigit(s[0]) then 0 else 1 + DigitRun(s[1..])
  }

  lemma {:induction false} DigitRunOf(d: string, e: string)
    requires AllDigits(d) && (e == [] || !IsDigit(e[0]))
    ensures DigitRun(d + e) == |d|
    decreases |d|
  {
    if d != [] {
      assert (d + e)[0] == d[0] && (d + e)[1..] == d[1..] + e;
      DigitRunOf(d[1..], e);
    } else {
      assert d + e == e;
    }
  }

  /** Two digit runs followed by extensions without a digit at their start split the same way only if equal. */
  lemma SplitDigits(d1: string, e1: string, d2: string, e2: string)
    requires AllDigits(d1) && AllDigits(d2) && d1 + e1 == d2 + e2
    requires e1 == [] || !IsDigit(e1[0])
    requires e2 == [] || !IsDigit(e2[0])
    ensures d1 == d2
  {
    DigitRunOf(d1, e1);
    DigitRunOf(d2, e2);
    assert d1 == (d1 + e1)[..|d1|] && d2 == (d2 + e2)[..|d2|];
  }

  /** Whether a name holds the same file before and after. */
  ghost predicate Same<T>(fs0: map<string, T>, fs: map<string, T>, n: string)
  {
    (n in fs <==> n in fs0) && (n in fs ==> fs[n] == fs0[n])
  }

  /** Whether file k now holds what file k-1 held (and exists exactly when that one did). */
  ghost predicate Shifted<T>(fs0: map<string, T>, fs: map<string, T>, base: string, ext: string, k: nat)
    requires k >= 1
  {
    var n, m := FileName(base, ext, k), FileName(base, ext, k - 1);
    (n in fs <==> m in fs0) && (n in fs ==> fs[n] == fs0[m])
  }

  /** The names of files 0 .. maxFilesToKeep-1. */
  function NumberedNames(base: string, ext: string, maxFilesToKeep: nat): (names: set<string>)
  {
    set k | 0 <= k < maxFilesToKeep :: FileName(base, ext, k)
  }

  /** The rotation loop has handled the files above i. */
  ghost predicate RotatedAbove<T>(fs0: map<string, T>, fs: map<string, T>, base: string, ext: string, maxFilesToKeep: nat, i: int)
  {
    -1 <= i < maxFilesToKeep &&
    (forall k :: i + 2 <= k < maxFilesToKeep ==> Shifted(fs0, fs, base, ext, k)) &&
    (i + 1 < maxFilesToKeep ==> FileName(base, ext, i + 1) !in fs) &&
    (forall k :: 0 <= k <= i ==> Same(fs0, fs, FileName(base, ext, k))) &&
    (forall n :: n !in NumberedNames(base, ext, maxFilesToKeep) ==> Same(fs0, fs, n))
  }

  lemma FileNameDistinct(base: string, ext: string, i: nat, j: nat)
    requires ext == [] || !IsDigit(ext[0])
    requires i != j
    ensures FileName(base, ext, i) != FileName(base, ext, j)
  {
    if FileName(base, ext, i) == FileName(base, ext, j) {
      FileNameInjective(base, ext, i, j);
    }
  }

  /** Names i and i+1 differ from every other numbered name. */
  lemma NeighboursDistinct(base: string, ext: string, maxFilesToKeep: nat, i: nat)
    requires ext == [] || !IsDigit(ext[0])
    ensures forall k :: 0 <= k < maxFilesToKeep && k != i ==> FileName(base, ext, k) != FileName(base, ext, i)
    ensures forall k :: 0 <= k < maxFilesToKeep && k != i + 1 ==> FileName(base, ext, k) != FileName(base, ext, i + 1)
  {
    forall k | 0 <= k < maxFilesToKeep && k != i
      ensures FileName(base, ext, k) != FileName(base, ext, i)
    {
      FileNameDistinct(base, ext, k, i);
    }
    forall k | 0 <= k < maxFilesToKeep && k != i + 1
      ensures FileName(base, ext, k) != FileName(base, ext, i + 1)
    {
      FileNameDistinct(base, ext, k, i + 1);
    }
  }

  /** A missing file i: nothing to do. */
  lemma RotateSkip<T>(fs0: map<string, T>, fs: map<string, T>, base: string, ext: string, maxFilesToKeep: nat, i: nat)
    requires i < maxFilesToKeep && RotatedAbove(fs0, fs, base, ext, maxFilesToKeep, i)
    requires FileName(base, ext, i) !in fs
    ensures RotatedAbove(fs0, fs, base, ext, maxFilesToKeep, i - 1)
  {
  }

  /** The oldest file is deleted. */
  lemma RotateDelete<T>(fs0: map<string, T>, fs: map<string, T>, base: string, ext: string, maxFilesToKeep: nat, i: nat)
    requires ext == [] || !IsDigit(ext[0])
    requires i == maxFilesToKeep - 1 && RotatedAbove(fs0, fs, base, ext, maxFilesToKeep, i)
    ensures RotatedAbove(fs0, fs - {FileName(base, ext, i)}, base, ext, maxFilesToKeep, i - 1)
  {
    NeighboursDistinct(base, ext, maxFilesToKeep, i);
    assert FileName(base, ext, i) in NumberedNames(base, ext, maxFilesToKeep);
  }

  /** File i is renamed to i+1. */
  lemma RotateRename<T>(fs0: map<string, T>, fs: map<string, T>, base: string, ext: string, maxFilesToKeep: nat, i: nat)
    requires ext == [] || !IsDigit(ext[0])
    requires i + 1 < maxFilesToKeep && RotatedAbove(fs0, fs, base, ext, maxFilesToKeep, i)
    requires FileName(base, ext, i) in fs
    ensures var n, m := FileName(base, ext, i), FileName(base, ext, i + 1);
      RotatedAbove(fs0, fs[m := fs[n]] - {n}, base, ext, maxFilesToKeep, i - 1)
  {
    var n, m := FileName(base, ext, i), FileName(base, ext, i + 1);
    var fs' := fs[m := fs[n]] - {n};
    NeighboursDistinct(base, ext, maxFilesToKeep, i);
    assert n != m;
    forall k | i + 1 <= k < maxFilesToKeep
      ensures Shifted(fs0, fs', base, ext, k)
    {
      if k > i + 1 {
        assert Shifted(fs0, fs, base, ext, k);
      } else {
        assert Same(fs0, fs, n);
      }
    }
    forall k | 0 <= k <= i - 1
      ensures Same(fs0, fs', FileName(base, ext, k))
    {
      assert Same(fs0, fs, FileName(base, ext, k));
    }
    assert n in NumberedNames(base, ext, maxFilesToKeep);
    assert m in NumberedNames(base, ext, maxFilesToKeep);
    forall x | x !in NumberedNames(base, ext, maxFilesToKeep)
      ensures Same(fs0, fs', x)
    {
      assert Same(fs0, fs, x);
    }
  }

  /**
   * `rotateFiles` of the numbered archive engine: i runs from
   * maxFilesToKeep-1 down to 0. Afterwards every file k >= 1 holds what
   * file k-1 held, file 0 is gone, the oldest is dropped and no other file
   * is touched. The source asserts maxFilesToKeep >= 0 and uses "" as the
   * archive extension.
   */
  method RotateFiles<T>(fs0: map<string, T>, base: string, ext: string, maxFilesToKeep: int) returns (fs: map<string, T>)
    requires maxFilesToKeep >= 0 && (ext == [] || !IsDigit(ext[0]))
    ensures forall k :: 1 <= k < maxFilesToKeep ==> Shifted(fs0, fs, base, ext, k)
    ensures maxFilesToKeep > 0 ==> FileName(base, ext, 0) !in fs
    ensures forall n :: n !in NumberedNames(base, ext, maxFilesToKeep) ==> Same(fs0, fs, n)
  {
    fs := fs0;
    var i := maxFilesToKeep - 1;
    while i >= 0
      invariant RotatedAbove(fs0, fs, base, ext, maxFilesToKeep, i)
      decreases i + 1
    {
      var oldFilePath := FileName(base, ext, i);
      if oldFilePath !in fs {
        RotateSkip(fs0, fs, base, ext, maxFilesToKeep, i);
      } else if i == maxFilesToKeep - 1 {
        RotateDelete(fs0, fs, base, ext, maxFilesToKeep, i);
        fs := fs - {oldFilePath};
      } else {
        RotateRename(fs0, fs, base, ext, maxFilesToKeep, i);
        var newFilePath := FileName(base, ext, i + 1);
        fs := fs[newFilePath := fs[oldFilePath]] - {oldFilePath};
      }
      i := i - 1;
    }
  }
}
