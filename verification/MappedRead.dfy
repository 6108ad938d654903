/** What mapped iteration delivers: the logical bytes of the file, up to its end or to the first
    byte that is not mapped. */
module MappedRead {
  import opened Bits
  import opened Outcomes
  import Streams
  import opened Image
  import opened Superblock
  import opened Inodes
  import opened BlockMap
  import opened RawIters

  /** Byte i of the file, through the per-byte translation. */
  ghost function ByteAt(fs: FileSystem, inode: Inode, i: nat): byte {
    var place := Translate(fs, inode, i);
    if place.Ok? then fs.backend(place.value.dev, place.value.addr) else 0
  }

  ghost function Logical(fs: FileSystem, inode: Inode, from: nat, n: nat): (s: seq<byte>)
    ensures |s| == n && forall k :: 0 <= k < n ==> s[k] == ByteAt(fs, inode, from + k)
  {
    seq<byte>(n, k requires 0 <= k < n => ByteAt(fs, inode, from + k))
  }

  lemma LogicalSplit(fs: FileSystem, inode: Inode, from: nat, m: nat, n: nat)
    ensures Logical(fs, inode, from, m + n) == Logical(fs, inode, from, m) + Logical(fs, inode, from + m, n)
  {
  }

  /** Where iteration stops: the file size, rounded up to a block for indexed chunks. */
  function LogicalEnd(fs: FileSystem, inode: Inode): nat {
    if Indexed(inode) then BlockCeil(fs.sb, inode.info.FileSize()) else inode.info.FileSize()
  }

  predicate Mapped(fs: FileSystem, inode: Inode, i: nat) {
    Translate(fs, inode, i).Ok?
  }

  /** A run from `offset` delivers exactly the logical bytes up to where it stops; it stops at the
      end of the file, or at the first unmapped byte with that byte's failure. */
  ghost predicate Delivers(fs: FileSystem, inode: Inode, offset: nat, run: Streams.Stream<seq<byte>>) {
    var n := |Concat(run.items)|;
    && Concat(run.items) == Logical(fs, inode, offset, n)
    && (forall i :: offset <= i < offset + n ==> Mapped(fs, inode, i))
    && match run.end
       case Ok(_) => n == if offset < inode.info.FileSize() then LogicalEnd(fs, inode) - offset else 0
       case failure =>
         && offset + n < inode.info.FileSize()
         && Translate(fs, inode, offset + n) == failure.PropagateFailure()
  }

  lemma {:induction false} LowLow(x: nat, m: nat, n: nat)
    requires n <= m
    ensures Low(Low(x, m), n) == Low(x, n)
    decreases n
  {
    if n > 0 {
      LowLow(x / 2, m - 1, n - 1);
    }
  }

  /** The tail of an inline file does not cross a block of the image. */
  predicate TailInBlock(fs: FileSystem, inode: Inode) {
    inode.info.Layout() == FlatInline && inode.info.FileSize() > 0 ==>
      Low(MetaEnd(fs, inode), fs.sb.blkszbits) + Low(inode.info.FileSize() - 1, fs.sb.blkszbits) < Blksz(fs.sb)
  }

  lemma {:induction false} ChunkRest(x: nat, m: nat, n: nat)
    requires n <= m
    ensures Pow2(m) - Low(x, m) >= Pow2(n) - Low(x, n)
    decreases n
  {
    if n > 0 {
      ChunkRest(x / 2, m - 1, n - 1);
    }
  }

  lemma OffsetInBlock(sb: SuperBlock, blk: u32, off: nat, start: nat)
    requires start == BlkPos(sb, blk) + off
    ensures BlkAccess(sb, start).len == Blksz(sb) - Low(off, sb.blkszbits)
  {
    AddBlocks(off, sb.blkszbits, blk);
  }

  lemma ChunkCut(fs: FileSystem, inode: Inode, offset: nat)
    requires offset < inode.info.FileSize() && inode.info.Layout() == ChunkBased && MapAt(fs, inode, offset).Ok?
    ensures var n := BufferLen(fs.sb, MapAt(fs, inode, offset).value);
            if Indexed(inode) then offset + n == BlockEnd(fs.sb, offset)
            else offset + n == Min(inode.info.FileSize(), BlockEnd(fs.sb, offset))
  {
    hide And, LE, Shl, Shr, Low, Pow2, MetaEnd, LayoutOf;
    var chunkFormat := SpecOf(inode.info).chunkFormat;
    var bits := ChunkBits(chunkFormat) + fs.sb.blkszbits;
    var accessor := ChunkAccess(fs.sb, ChunkBits(chunkFormat), offset);
    ChunkRest(offset, bits, fs.sb.blkszbits);
    LowLow(offset, bits, fs.sb.blkszbits);
    var m := MapAt(fs, inode, offset).value;
    var blkaddr: u32 :| m.physical.start == BlkPos(fs.sb, blkaddr) + accessor.off;
    OffsetInBlock(fs.sb, blkaddr, accessor.off, m.physical.start);
    assert m.physical.len == if Indexed(inode) then accessor.len else Min(accessor.len, inode.info.FileSize() - offset);
  }

  lemma FlatCut(fs: FileSystem, inode: Inode, offset: nat)
    requires offset < inode.info.FileSize() && BlocksFit(fs, inode) && MapAt(fs, inode, offset).Ok?
    requires inode.info.Layout() in {FlatPlain, FlatInline} && TailInBlock(fs, inode)
    ensures offset + BufferLen(fs.sb, MapAt(fs, inode, offset).value)
         == Min(inode.info.FileSize(), BlockEnd(fs.sb, offset))
  {
    hide And, LE, Shl, Shr, Low, Pow2, MetaEnd, LayoutOf;
    var sb, size := fs.sb, inode.info.FileSize();
    var m := MapAt(fs, inode, offset).value;
    var blkaddr := SpecOf(inode.info).blkaddr;
    var tail := BlkRoundUp(sb, size) - 1;
    BlockCount(sb, size);
    TailIff(sb, size, offset, size - 1);
    ToNextBlock(offset, sb.blkszbits);
    if m.mapType == Normal {
      OffsetInBlock(sb, blkaddr, offset, m.physical.start);
      if offset < BlkPos(sb, tail) {
        BlockEndsBelow(offset, sb.blkszbits, tail);
      }
    } else {
      TailIff(sb, size, offset, offset);
      WithinBlock(MetaEnd(fs, inode), sb.blkszbits, Low(offset, sb.blkszbits));
    }
  }

  /** Away from a tail that crosses a block of the image, buffers end at logical block boundaries. */
  lemma BufferCut(fs: FileSystem, inode: Inode, offset: nat)
    requires offset < inode.info.FileSize() && BlocksFit(fs, inode) && MapAt(fs, inode, offset).Ok?
    requires TailInBlock(fs, inode)
    ensures offset + BufferLen(fs.sb, MapAt(fs, inode, offset).value)
         == Min(LogicalEnd(fs, inode), BlockEnd(fs.sb, offset))
  {
    match inode.info.Layout()
    case ChunkBased => ChunkCut(fs, inode, offset); IndexedEnd(fs, inode, offset);
    case FlatInline => FlatCut(fs, inode, offset);
    case FlatPlain => FlatCut(fs, inode, offset);
    case _ =>
  }

  /** The buffer at an offset ends at the next logical block boundary, or at the end. */
  predicate CutAtBlock(fs: FileSystem, inode: Inode, offset: nat) {
    MapAt(fs, inode, offset).Ok? ==>
      offset + BufferLen(fs.sb, MapAt(fs, inode, offset).value) == Min(LogicalEnd(fs, inode), BlockEnd(fs.sb, offset))
  }

  /** Buffers end at logical block boundaries from every offset if and only if an inline tail does not cross
      a block of the image. */
  lemma BufferCutIff(fs: FileSystem, inode: Inode)
    requires BlocksFit(fs, inode) && (inode.info.Layout() == FlatInline ==> SpecOf(inode.info).RawBlk?)
    ensures TailInBlock(fs, inode) <==>
              forall offset: nat :: offset < inode.info.FileSize() ==> CutAtBlock(fs, inode, offset)
  {
    if TailInBlock(fs, inode) {
      hide TailInBlock, MapAt, LogicalEnd, BlockEnd, BufferLen, BlocksFit;
      forall offset: nat | offset < inode.info.FileSize()
        ensures CutAtBlock(fs, inode, offset)
      {
        if MapAt(fs, inode, offset).Ok? {
          BufferCut(fs, inode, offset);
        }
      }
    } else {
      var offset := TailCrosses(fs, inode);
    }
  }

  /** A tail that crosses a block of the image is delivered in two buffers. */
  lemma TailCrosses(fs: FileSystem, inode: Inode) returns (offset: nat)
    requires BlocksFit(fs, inode) && SpecOf(inode.info).RawBlk? && !TailInBlock(fs, inode)
    ensures offset < inode.info.FileSize() && !CutAtBlock(fs, inode, offset)
  {
    hide And, LE, Shl, Shr, Low, Pow2, MetaEnd, LayoutOf;
    var sb, size := fs.sb, inode.info.FileSize();
    var n := sb.blkszbits;
    BlockCount(sb, size);
    var last := BlkRoundUp(sb, size) - 1;
    offset := BlkPos(sb, last);
    CutUnique(offset, n, last, 0);
    ShlNext(last, n);
    CutUnique(size - 1, n, last, size - 1 - offset);
    assert MapAt(fs, inode, offset).value.physical == Segment(MetaEnd(fs, inode), size - offset);
  }

  lemma IndexedEnd(fs: FileSystem, inode: Inode, offset: nat)
    requires offset < inode.info.FileSize()
    ensures BlockEnd(fs.sb, offset) <= BlockCeil(fs.sb, inode.info.FileSize())
    ensures BlockEnd(fs.sb, offset) >= inode.info.FileSize() ==>
              BlockEnd(fs.sb, offset) == BlockCeil(fs.sb, inode.info.FileSize())
  {
    var n, size := fs.sb.blkszbits, inode.info.FileSize();
    Cut(size, n);
    ToNextBlock(offset, n);
    if Low(size, n) == 0 {
      BlockEndsBelow(offset, n, Shr(size, n));
    } else {
      ToNextBlock(size, n);
      BlockEndsBelow(offset, n, Shr(size, n) + 1);
      if BlockEnd(fs.sb, offset) > size {
        BlockEndsBelow(size, n, Shr(offset, n) + 1);
      }
    }
  }

  /** A step stays below the logical end, and reaches it as soon as it leaves the file. */
  lemma StepReaches(fs: FileSystem, inode: Inode, offset: nat)
    requires offset < inode.info.FileSize() && BlocksFit(fs, inode) && MapAt(fs, inode, offset).Ok?
    ensures var next := offset + BufferLen(fs.sb, MapAt(fs, inode, offset).value);
            next <= LogicalEnd(fs, inode) && (next >= inode.info.FileSize() ==> next == LogicalEnd(fs, inode))
  {
    hide And, LE, MetaEnd, LayoutOf, ChunkMap, FlatMap;
    if Indexed(inode) {
      ChunkCut(fs, inode, offset);
      IndexedEnd(fs, inode, offset);
    } else {
      MapAgrees(fs, inode, offset);
      assert Describes(fs, inode, offset, MapAt(fs, inode, offset).value);
    }
  }

  lemma BufferIsLogical(fs: FileSystem, inode: Inode, offset: nat)
    requires offset < inode.info.FileSize() && BlocksFit(fs, inode) && MapAt(fs, inode, offset).Ok?
    ensures var m := MapAt(fs, inode, offset).value;
            var n := BufferLen(fs.sb, m);
            && Fetch(fs.backend, m.deviceId, m.physical.start, n) == Logical(fs, inode, offset, n)
            && forall i :: offset <= i < offset + n ==> Mapped(fs, inode, i)
  {
    hide MapAt, Translate, Indexed;
    MapAgrees(fs, inode, offset);
    var m := MapAt(fs, inode, offset).value;
    assert Describes(fs, inode, offset, m);
    var n := BufferLen(fs.sb, m);
    forall k | 0 <= k < n
      ensures Fetch(fs.backend, m.deviceId, m.physical.start, n)[k] == Logical(fs, inode, offset, n)[k]
    {
      assert Translate(fs, inode, offset + k) == Ok(Place(m.deviceId, m.physical.start + k));
    }
  }

  /** Mapped iteration preserves content, from any offset and for every layout. */
  lemma {:induction false} RunDelivers(fs: FileSystem, inode: Inode, offset: nat)
    requires BlocksFit(fs, inode)
    ensures Delivers(fs, inode, offset, MapRun(fs, inode, offset))
    decreases if offset < inode.info.FileSize() then inode.info.FileSize() - offset else 0
  {
    hide MapAt, Translate, LogicalEnd, BufferLen;
    if offset < inode.info.FileSize() {
      var run := MapRun(fs, inode, offset);
      if MapAt(fs, inode, offset).Ok? {
        var n := BufferLen(fs.sb, MapAt(fs, inode, offset).value);
        BufferNotEmpty(fs, inode, offset);
        BufferIsLogical(fs, inode, offset);
        StepReaches(fs, inode, offset);
        RunDelivers(fs, inode, offset + n);
        var rest := MapRun(fs, inode, offset + n);
        ConcatFirst(run.items[0], rest.items);
        LogicalSplit(fs, inode, offset, n, |Concat(rest.items)|);
      } else {
        MapAgrees(fs, inode, offset);
      }
    }
  }
}
