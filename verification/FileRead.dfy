/** Reading files and symbolic links through the mounted file system, and what a read returns. */
module FileRead {
  import opened Bits
  import opened Outcomes
  import opened Streams
  import opened Image
  import opened Superblock
  import opened Inodes
  import opened BlockMap
  import opened RawIters
  import opened MappedRead
  import opened Operations

  const FUSE_ROOT_ID: u64 := 1

  /** `as u64` of a signed value. */
  function AsU64(x: int): u64 {
    x % U64_RANGE
  }

  function NidToIno(sb: SuperBlock, nid: u64): Outcome<u64> {
    if nid == AsU64(sb.rootNid) then Ok(FUSE_ROOT_ID)
    else if nid + FUSE_ROOT_ID >= U64_RANGE then Fault  // the addition overflows
    else Ok(nid + FUSE_ROOT_ID)
  }

  function InoToNid(sb: SuperBlock, ino: u64): Outcome<u64> {
    if ino == FUSE_ROOT_ID then Ok(AsU64(sb.rootNid))
    else if ino == 0 then Fault  // the subtraction underflows
    else Ok(ino - FUSE_ROOT_ID)
  }

  /** Inode numbers round-trip if and only if they are the root, or neither zero, which is reported as the
      root, nor the largest, where the addition overflows. */
  lemma InoRoundTripIff(sb: SuperBlock, nid: u64)
    ensures NidToIno(sb, nid).Ok? && InoToNid(sb, NidToIno(sb, nid).value) == Ok(nid) <==>
              nid == Wrapped(sb.rootNid) || 0 < nid < 0xFFFF_FFFF_FFFF_FFFF
  {
  }

  /** The unsigned reading of a signed number: negative ones count from 2^64 down. */
  function Wrapped(x: i64): u64 {
    if x >= 0 then x else x + 0x1_0000_0000_0000_0000
  }

  lemma Unsigned(x: i64)
    ensures AsU64(x) == Wrapped(x)
  {
  }

  /** Number 1 is the root, 0 is no inode, and every other number is one above the inode's. */
  lemma NumbersShifted(sb: SuperBlock, ino: u64)
    ensures InoToNid(sb, ino) ==
              if ino == 0 then Fault else if ino == 1 then Ok(Wrapped(sb.rootNid)) else Ok(ino - 1)
  {
  }

  // What a read takes from a run

  /** Taking buffers until `size` bytes are there: at least one buffer is taken if there is one. */
  ghost function ReadRun(run: Stream<seq<byte>>, size: nat): Outcome<seq<byte>>
    decreases |run.items|
  {
    if run.items == [] then
      if run.end.Ok? then Ok([]) else run.end.PropagateFailure()
    else
      var n := Min(|run.items[0]|, size);
      if size == n then Ok(run.items[0][..n])
      else
        var rest :- ReadRun(Stream(run.items[1..], run.end), size - n);
        Ok(run.items[0][..n] + rest)
  }

  lemma {:induction false} ReadRunFlat(run: Stream<seq<byte>>, size: nat)
    ensures var all := Concat(run.items);
            ReadRun(run, size) ==
              if run.items != [] && size <= |all| then Ok(all[..size])
              else if run.end.Ok? then Ok(all)
              else run.end.PropagateFailure()
    decreases |run.items|
  {
    if run.items != [] {
      var first, rest := run.items[0], Stream(run.items[1..], run.end);
      var all, more := Concat(run.items), Concat(rest.items);
      assert all == first + more;
      if size > |first| {
        ReadRunFlat(rest, size - |first|);
        assert first[..|first|] == first;
        if size <= |all| {
          assert all[..size] == first + more[..size - |first|];
        }
      } else {
        assert all[..size] == first[..size];
      }
    }
  }

  /** The first byte in [from, to) that is not mapped, or `to`. */
  ghost function FirstUnmapped(fs: FileSystem, inode: Inode, from: nat, to: nat): (i: nat)
    requires from <= to
    ensures from <= i <= to
    ensures forall k :: from <= k < i ==> Mapped(fs, inode, k)
    ensures i < to ==> !Mapped(fs, inode, i)
    decreases if from <= to then to - from else 0
  {
    if from == to || !Mapped(fs, inode, from) then from else FirstUnmapped(fs, inode, from + 1, to)
  }

  /** Where a read of `size` bytes ends. */
  ghost function ReadEnd(fs: FileSystem, inode: Inode, offset: nat, size: nat): (end: nat)
    ensures offset <= end
  {
    if offset < inode.info.FileSize() then Min(offset + size, Max(offset, LogicalEnd(fs, inode))) else offset
  }

  function Max(a: nat, b: nat): nat {
    if a < b then b else a
  }

  /** Where a read stops asking for the mapping: inside the file it maps at least one byte. */
  ghost function ProbeEnd(fs: FileSystem, inode: Inode, offset: nat, size: nat): (end: nat)
    ensures ReadEnd(fs, inode, offset, size) <= end
  {
    if offset < inode.info.FileSize() then Max(ReadEnd(fs, inode, offset, size), offset + 1) else offset
  }

  /** What a read should return: the logical bytes of its window, or the failure of the first byte
      that is not mapped. */
  ghost function ReadWindow(fs: FileSystem, inode: Inode, offset: nat, size: nat): Outcome<seq<byte>> {
    var probe := ProbeEnd(fs, inode, offset, size);
    var bad := FirstUnmapped(fs, inode, offset, probe);
    if bad < probe then Translate(fs, inode, bad).PropagateFailure()
    else Ok(Logical(fs, inode, offset, ReadEnd(fs, inode, offset, size) - offset))
  }

  /** The first unmapped byte is determined by being unmapped after mapped bytes. */
  lemma FirstUnmappedIs(fs: FileSystem, inode: Inode, from: nat, to: nat, i: nat)
    requires from <= i <= to && (i < to ==> !Mapped(fs, inode, i))
    requires forall k :: from <= k < i ==> Mapped(fs, inode, k)
    ensures FirstUnmapped(fs, inode, from, to) == i
  {
    var j := FirstUnmapped(fs, inode, from, to);
    assert !(j < i);
    assert !(i < j);
  }

  /** A run from an offset inside the file that yields something yields at least one byte. */
  lemma RunNotEmpty(fs: FileSystem, inode: Inode, offset: nat)
    requires MapRun(fs, inode, offset).items != []
    ensures |Concat(MapRun(fs, inode, offset).items)| > 0
  {
    hide MapAt, BufferLen;
    BufferNotEmpty(fs, inode, offset);
    var run := MapRun(fs, inode, offset);
    assert Concat(run.items) == run.items[0] + Concat(run.items[1..]);
  }

  /** Reads return the exact window. */
  lemma ReadsWindow(fs: FileSystem, inode: Inode, offset: nat, size: nat)
    requires BlocksFit(fs, inode)
    ensures ReadRun(MapRun(fs, inode, offset), size) == ReadWindow(fs, inode, offset, size)
  {
    hide MapRun, Translate, LogicalEnd, BlocksFit;
    var run := MapRun(fs, inode, offset);
    var all := Concat(run.items);
    var probe := ProbeEnd(fs, inode, offset, size);
    RunDelivers(fs, inode, offset);
    ReadRunFlat(run, size);
    if run.items != [] {
      RunNotEmpty(fs, inode, offset);
    }
    EndNotBelowSize(fs, inode);
    if run.end.Ok? || (run.items != [] && size <= |all|) {
      FirstUnmappedIs(fs, inode, offset, probe, probe);
      var n := ReadEnd(fs, inode, offset, size) - offset;
      LogicalSplit(fs, inode, offset, n, |all| - n);
      assert all[..n] == Logical(fs, inode, offset, n);
    } else {
      FirstUnmappedIs(fs, inode, offset, probe, offset + |all|);
    }
  }

  lemma EndNotBelowSize(fs: FileSystem, inode: Inode)
    ensures inode.info.FileSize() <= LogicalEnd(fs, inode)
  {
  }

  /** One read after the other. */
  function Joined(first: Outcome<seq<byte>>, second: Outcome<seq<byte>>): Outcome<seq<byte>> {
    if !first.Ok? then first else if !second.Ok? then second else Ok(first.value + second.value)
  }

  /** The first read asks for a byte that is not mapped; or the second asks for something, unless it starts at
      the end of the file or at a mapped byte, and does not start in the overshoot of indexed chunks after a
      read from inside the file. */
  ghost predicate SplitsAt(fs: FileSystem, inode: Inode, offset: nat, a: nat, b: nat) {
    var size := inode.info.FileSize();
    || (exists i :: offset <= i < ProbeEnd(fs, inode, offset, a) && !Mapped(fs, inode, i))
    || (&& (b > 0 || offset + a >= size || Mapped(fs, inode, offset + a))
        && (b == 0 || offset >= size || offset + a < size || offset + a >= LogicalEnd(fs, inode)))
  }

  /** A longer read is two shorter ones, one after the other, exactly then. */
  lemma ReadSplitIff(fs: FileSystem, inode: Inode, offset: nat, a: nat, b: nat)
    ensures ReadWindow(fs, inode, offset, a + b) ==
              Joined(ReadWindow(fs, inode, offset, a), ReadWindow(fs, inode, offset + a, b)) <==>
            SplitsAt(fs, inode, offset, a, b)
  {
    hide Mapped, Indexed, Logical, FirstUnmapped, LogicalEnd, ReadWindow, Translate;
    EndNotBelowSize(fs, inode);
    var p, p1 := ProbeEnd(fs, inode, offset, a + b), ProbeEnd(fs, inode, offset, a);
    var p2 := ProbeEnd(fs, inode, offset + a, b);
    var u1, u2 := FirstUnmapped(fs, inode, offset, p1), FirstUnmapped(fs, inode, offset + a, p2);
    if u1 < p1 {
      WindowFails(fs, inode, offset, a, u1);
      WindowFails(fs, inode, offset, a + b, u1);
    } else {
      WindowWhole(fs, inode, offset, a);
      if u2 < p2 {
        WindowFails(fs, inode, offset + a, b, u2);
        if b > 0 {
          WindowFails(fs, inode, offset, a + b, u2);
        } else {
          WindowWhole(fs, inode, offset, a + b);
        }
      } else {
        WindowWhole(fs, inode, offset + a, b);
        SplitWhole(fs, inode, offset, a, b);
      }
    }
  }

  lemma WindowFails(fs: FileSystem, inode: Inode, offset: nat, size: nat, bad: nat)
    requires offset <= bad < ProbeEnd(fs, inode, offset, size) && !Mapped(fs, inode, bad)
    requires forall i :: offset <= i < bad ==> Mapped(fs, inode, i)
    ensures !Translate(fs, inode, bad).Ok?
    ensures ReadWindow(fs, inode, offset, size) == Translate(fs, inode, bad).PropagateFailure()
  {
    hide Translate, Logical, LogicalEnd;
    FirstUnmappedIs(fs, inode, offset, ProbeEnd(fs, inode, offset, size), bad);
  }

  lemma WindowWhole(fs: FileSystem, inode: Inode, offset: nat, size: nat)
    requires forall i :: offset <= i < ProbeEnd(fs, inode, offset, size) ==> Mapped(fs, inode, i)
    ensures ReadWindow(fs, inode, offset, size) ==
              Ok(Logical(fs, inode, offset, ReadEnd(fs, inode, offset, size) - offset))
  {
    hide Translate, Logical, LogicalEnd, Mapped;
  }

  /** Both shorter reads succeed: the longer one is theirs joined unless the second asks for bytes in the
      overshoot and gets none. */
  lemma SplitWhole(fs: FileSystem, inode: Inode, offset: nat, a: nat, b: nat)
    requires forall i :: offset <= i < ProbeEnd(fs, inode, offset, a) ==> Mapped(fs, inode, i)
    requires forall i :: offset + a <= i < ProbeEnd(fs, inode, offset + a, b) ==> Mapped(fs, inode, i)
    ensures var n, n1, n2 := ReadEnd(fs, inode, offset, a + b) - offset, ReadEnd(fs, inode, offset, a) - offset,
                             ReadEnd(fs, inode, offset + a, b) - (offset + a);
            var joined := Logical(fs, inode, offset, n1) + Logical(fs, inode, offset + a, n2);
            ReadWindow(fs, inode, offset, a + b) == Ok(joined) <==>
              (b == 0 || offset >= inode.info.FileSize() || offset + a < inode.info.FileSize()
               || offset + a >= LogicalEnd(fs, inode))
  {
    hide Mapped, Indexed, Logical, FirstUnmapped, LogicalEnd, ReadWindow, Translate;
    EndNotBelowSize(fs, inode);
    var p := ProbeEnd(fs, inode, offset, a + b);
    var n1 := ReadEnd(fs, inode, offset, a) - offset;
    LogicalSplit(fs, inode, offset, n1, ReadEnd(fs, inode, offset, a + b) - offset - n1);
    var u := FirstUnmapped(fs, inode, offset, p);
    if u < p {
      WindowFails(fs, inode, offset, a + b, u);
    } else {
      WindowWhole(fs, inode, offset, a + b);
    }
  }

  /** Iteration reaches the end of the file exactly when every byte is mapped. */
  lemma DeliveredIff(fs: FileSystem, inode: Inode, offset: nat)
    requires BlocksFit(fs, inode) && offset < inode.info.FileSize()
    ensures MapRun(fs, inode, offset).end.Ok? <==>
              forall i :: offset <= i < inode.info.FileSize() ==> Mapped(fs, inode, i)
  {
    hide MapRun, LogicalEnd, BlocksFit, Translate;
    RunDelivers(fs, inode, offset);
    EndNotBelowSize(fs, inode);
    var run := MapRun(fs, inode, offset);
    var n := |Concat(run.items)|;
    if !run.end.Ok? {
      assert !Mapped(fs, inode, offset + n);
    }
  }

  /** A flat file with a raw block address is always delivered to its end: the error past the last
      block of the flat mapping is never reached. */
  lemma FlatDelivered(fs: FileSystem, inode: Inode, offset: nat)
    requires BlocksFit(fs, inode) && inode.info.Layout() in {FlatPlain, FlatInline} && SpecOf(inode.info).RawBlk?
    ensures MapRun(fs, inode, offset).end.Ok?
  {
    hide MapRun, LogicalEnd, BlocksFit, MetaEnd, InTail, LayoutOf;
    RunDelivers(fs, inode, offset);
    var run := MapRun(fs, inode, offset);
    var i := offset + |Concat(run.items)|;
    assert Translate(fs, inode, i).Ok?;
  }

  /** Iterating over indexed chunks covers the file and the rest of its last block, nothing more. */
  lemma IndexedCoverage(fs: FileSystem, inode: Inode, offset: nat)
    requires Indexed(inode) && offset < inode.info.FileSize()
    requires forall i :: offset <= i < inode.info.FileSize() ==> Mapped(fs, inode, i)
    ensures var all, size := Concat(MapRun(fs, inode, offset).items), inode.info.FileSize();
            && size <= offset + |all| < size + Blksz(fs.sb)
            && all == Logical(fs, inode, offset, |all|)
            && all[..size - offset] == Logical(fs, inode, offset, size - offset)
    ensures offset + |Concat(MapRun(fs, inode, offset).items)| == BlockCeil(fs.sb, inode.info.FileSize())
  {
    hide MapRun, Translate, BlockCeil, Blksz, Low, Pow2;
    assert BlocksFit(fs, inode);
    DeliveredIff(fs, inode, offset);
    RunDelivers(fs, inode, offset);
    var all, n := Concat(MapRun(fs, inode, offset).items), inode.info.FileSize() - offset;
    LogicalSplit(fs, inode, offset, n, |all| - n);
  }

  // The calls

  class ErofsFuse {
    const fs: FileSystem
    const collection: InodeCollection

    constructor (fs: FileSystem)
      ensures this.fs == fs && fresh(collection) && collection.inodes == map[]
    {
      this.fs := fs;
      collection := new InodeCollection();
    }

    /** The first `size` bytes of the file from an offset; a negative one counts from 2^64 down. */
    method TryRead(ino: u64, offset: i64, size: u32) returns (r: Outcome<seq<byte>>)
      requires Consistent(fs, collection.inodes)
      modifies collection
      ensures Consistent(fs, collection.inodes)
      ensures r == ReadFile(fs, ino, if offset >= 0 then offset else offset + 0x1_0000_0000_0000_0000, size)
    {
      hide FreshInode, MapRun, AsU64;
      Unsigned(offset);
      var nid := InoToNid(fs.sb, ino);
      if !nid.Ok? {
        return Fault;
      }
      var inode := collection.Iget(fs, nid.value);
      if !inode.Ok? {
        return inode.PropagateFailure();
      }
      var mapIter := new MapIter(fs, inode.value, AsU64(offset));
      var iter := new TempBufferMapIter(mapIter);
      var result: seq<byte>, left: nat := [], size;
      ghost var run := MapRun(fs, inode.value, AsU64(offset));
      assert ReadRun(run, size).Ok? ==> [] + ReadRun(run, size).value == ReadRun(run, size).value;
      while true
        invariant Consistent(fs, collection.inodes)
        invariant mapIter.inode == inode.value && mapIter.len == inode.value.info.FileSize()
        invariant mapIter.fs == fs && fresh(mapIter)
        invariant ReadRun(run, size) == Prefixed(result, ReadRun(MapRun(fs, inode.value, mapIter.offset), left))
        decreases if mapIter.offset < mapIter.len then mapIter.len - mapIter.offset else 0
      {
        var step := iter.Next();
        if step.None? {
          break;
        }
        if !step.value.Ok? {
          return step.value.PropagateFailure();
        }
        var data := step.value.value;
        ReadCons(data, MapRun(fs, inode.value, mapIter.offset), left, result);
        var nsize := Min(|data|, left);
        result := result + data[..nsize];
        left := left - nsize;
        if left == 0 {
          return Ok(result);
        }
      }
      assert result + [] == result;
      r := Ok(result);
    }

    /** The whole file and a NUL. */
    method TryReadLink(ino: u64) returns (r: Outcome<seq<byte>>)
      requires Consistent(fs, collection.inodes)
      modifies collection
      ensures Consistent(fs, collection.inodes)
      ensures r == ReadLink(fs, ino)
    {
      hide FreshInode, MapRun;
      var nid := InoToNid(fs.sb, ino);
      if !nid.Ok? {
        return Fault;
      }
      var inode := collection.Iget(fs, nid.value);
      if !inode.Ok? {
        return inode.PropagateFailure();
      }
      var mapIter := new MapIter(fs, inode.value, 0);
      var iter := new TempBufferMapIter(mapIter);
      var symlink: seq<byte> := [];
      ghost var run := MapRun(fs, inode.value, 0);
      while true
        invariant Consistent(fs, collection.inodes)
        invariant mapIter.inode == inode.value && mapIter.len == inode.value.info.FileSize()
        invariant mapIter.fs == fs && fresh(mapIter)
        invariant run.end == MapRun(fs, inode.value, mapIter.offset).end
        invariant Concat(run.items) == symlink + Concat(MapRun(fs, inode.value, mapIter.offset).items)
        decreases if mapIter.offset < mapIter.len then mapIter.len - mapIter.offset else 0
      {
        var step := iter.Next();
        if step.None? {
          break;
        }
        if !step.value.Ok? {
          return step.value.PropagateFailure();
        }
        ConcatFirst(step.value.value, MapRun(fs, inode.value, mapIter.offset).items);
        symlink := symlink + step.value.value;
      }
      assert symlink + [] == symlink;
      r := Ok(symlink + [0]);
    }
  }

  ghost function ReadFile(fs: FileSystem, ino: u64, offset: u64, size: u32): Outcome<seq<byte>> {
    var nid :- InoToNid(fs.sb, ino);
    var inode :- FreshInode(fs, nid);
    ReadRun(MapRun(fs, inode, offset), size)
  }

  ghost function ReadLink(fs: FileSystem, ino: u64): Outcome<seq<byte>> {
    var nid :- InoToNid(fs.sb, ino);
    var inode :- FreshInode(fs, nid);
    var run := MapRun(fs, inode, 0);
    if run.end.Ok? then Ok(Concat(run.items) + [0]) else run.end.PropagateFailure()
  }

  function Prefixed(s: seq<byte>, r: Outcome<seq<byte>>): Outcome<seq<byte>> {
    if r.Ok? then Ok(s + r.value) else r
  }

  lemma ReadCons(data: seq<byte>, rest: Stream<seq<byte>>, left: nat, result: seq<byte>)
    ensures var n := Min(|data|, left);
            Prefixed(result, ReadRun(Cons(data, rest), left)) ==
              if left == n then Ok(result + data[..n]) else Prefixed(result + data[..n], ReadRun(rest, left - n))
  {
    var n := Min(|data|, left);
    assert Cons(data, rest).items[1..] == rest.items;
    if left != n {
      var tail := ReadRun(rest, left - n);
      if tail.Ok? {
        assert result + (data[..n] + tail.value) == result + data[..n] + tail.value;
      }
    }
  }

  /** A read of a file answers with the exact window of its logical bytes. */
  lemma ReadFileExact(fs: FileSystem, ino: u64, offset: u64, size: u32, inode: Inode)
    requires InoToNid(fs.sb, ino) == Ok(inode.nid) && FreshInode(fs, inode.nid) == Ok(inode) && BlocksFit(fs, inode)
    ensures ReadFile(fs, ino, offset, size) == ReadWindow(fs, inode, offset, size)
  {
    hide MapRun, Translate, FreshInode;
    ReadsWindow(fs, inode, offset, size);
  }

  /** Two reads of a file one after the other are one read of both lengths exactly where the window splits. */
  lemma ReadFileSplitIff(fs: FileSystem, ino: u64, offset: u64, a: u32, b: u32, inode: Inode)
    requires InoToNid(fs.sb, ino) == Ok(inode.nid) && FreshInode(fs, inode.nid) == Ok(inode) && BlocksFit(fs, inode)
    requires offset + a < U64_RANGE && a + b < U32_RANGE
    ensures ReadFile(fs, ino, offset, a + b) ==
              Joined(ReadFile(fs, ino, offset, a), ReadFile(fs, ino, offset + a, b)) <==>
            SplitsAt(fs, inode, offset, a, b)
  {
    hide ReadFile, ReadWindow, FreshInode, BlocksFit, SplitsAt;
    ReadFileExact(fs, ino, offset, a + b, inode);
    ReadFileExact(fs, ino, offset, a, inode);
    ReadFileExact(fs, ino, offset + a, b, inode);
    ReadSplitIff(fs, inode, offset, a, b);
  }

  /** If the rest of the file is mapped, so is the overshoot of indexed chunks. */
  lemma RestMapped(fs: FileSystem, inode: Inode, offset: nat)
    requires BlocksFit(fs, inode) && offset < inode.info.FileSize()
    requires forall i :: offset <= i < inode.info.FileSize() ==> Mapped(fs, inode, i)
    ensures forall i :: offset <= i < LogicalEnd(fs, inode) ==> Mapped(fs, inode, i)
  {
    hide MapRun, Mapped, LogicalEnd, BlocksFit;
    DeliveredIff(fs, inode, offset);
    RunDelivers(fs, inode, offset);
  }

  /** The window is the next `size` bytes, cut at the logical end of the file, if and only if every byte the
      read asks for is mapped; in particular if the rest of the file is. */
  lemma WindowIsLogical(fs: FileSystem, inode: Inode, offset: nat, size: nat)
    requires BlocksFit(fs, inode)
    ensures ReadWindow(fs, inode, offset, size) ==
              Ok(Logical(fs, inode, offset, ReadEnd(fs, inode, offset, size) - offset))
       <==> forall i :: offset <= i < ProbeEnd(fs, inode, offset, size) ==> Mapped(fs, inode, i)
    ensures (forall i :: offset <= i < inode.info.FileSize() ==> Mapped(fs, inode, i)) ==>
              forall i :: offset <= i < ProbeEnd(fs, inode, offset, size) ==> Mapped(fs, inode, i)
  {
    hide Mapped, Indexed, BlocksFit, LogicalEnd, Logical, FirstUnmapped;
    EndNotBelowSize(fs, inode);
    if offset < inode.info.FileSize() && forall i :: offset <= i < inode.info.FileSize() ==> Mapped(fs, inode, i) {
      RestMapped(fs, inode, offset);
    }
  }

  /** A link reads back as all its logical bytes and a NUL if and only if all bytes of the file are mapped. */
  lemma ReadLinkExact(fs: FileSystem, ino: u64, inode: Inode)
    requires InoToNid(fs.sb, ino) == Ok(inode.nid) && FreshInode(fs, inode.nid) == Ok(inode) && BlocksFit(fs, inode)
    ensures ReadLink(fs, ino) == Ok(Logical(fs, inode, 0, LogicalEnd(fs, inode)) + [0]) <==>
              forall i :: 0 <= i < inode.info.FileSize() ==> Mapped(fs, inode, i)
  {
    hide MapRun, Mapped, FreshInode, BlocksFit, Indexed;
    RunDelivers(fs, inode, 0);
    if inode.info.FileSize() > 0 {
      DeliveredIff(fs, inode, 0);
    } else {
      LowZero(fs.sb.blkszbits);
      var run := MapRun(fs, inode, 0);
      assert run.end.Ok?;
    }
  }
}
