/** Address mapping: from an offset in a file to a segment of the image, for the flat and the
    chunk-based layouts, and its agreement with an independent per-byte translation. */
module BlockMap {
  import opened Bits
  import opened Outcomes
  import opened Image
  import opened Superblock
  import opened Inodes

  datatype Segment = Segment(start: nat, len: nat)

  datatype MapType = Meta | Normal

  datatype Map = Map(logical: Segment, physical: Segment, deviceId: u16, algorithmFormat: u16, mapType: MapType)

  /** The first byte after the inode and its inline attributes. */
  function MetaEnd(fs: FileSystem, inode: Inode): nat {
    Iloc(fs.sb, inode.nid) + inode.info.InodeSize() + inode.info.XattrSize()
  }

  function FlatMap(fs: FileSystem, inode: Inode, offset: nat, inline: bool): Outcome<Map> {
    var sb, size := fs.sb, inode.info.FileSize();
    var nblocks := BlkRoundUp(sb, size);
    match SpecOf(inode.info)
    case RawBlk(blkaddr) =>
      if inline && nblocks == 0 then
        Fault  // nblocks - 1 underflows
      else
        var lastblk := if inline then nblocks - 1 else nblocks;
        if offset < BlkPos(sb, lastblk) then
          var end := Min(size, BlkPos(sb, lastblk));
          if end < offset then
            Fault  // the length underflows
          else
            Ok(Map(Segment(offset, end - offset), Segment(BlkPos(sb, blkaddr) + offset, end - offset), 0, 0, Normal))
        else if inline then
          if size < offset then
            Fault  // the length underflows
          else
            var start := MetaEnd(fs, inode) + BlkAccess(sb, offset).off;
            Ok(Map(Segment(offset, size - offset), Segment(start, size - offset), 0, 0, Meta))
        else
          Err(EUCLEAN)
    case _ => Err(EUCLEAN)
  }

  datatype ChunkIndex = ChunkIndex(deviceId: u16, blkaddr: u32)

  function ChunkIndexFrom(u: seq<byte>): ChunkIndex
    requires |u| == 8
  {
    ChunkIndex(U16(u[2..4]), U32(u[4..8]))
  }

  function ChunkMap(fs: FileSystem, inode: Inode, offset: nat): Outcome<Map> {
    var sb, size := fs.sb, inode.info.FileSize();
    match SpecOf(inode.info)
    case Chunk(chunkFormat) =>
      var accessor := ChunkAccess(sb, ChunkBits(chunkFormat), offset);
      var start := accessor.base + accessor.off;
      if IsChunkIndex(chunkFormat) then
        var pos := RoundUp(MetaEnd(fs, inode) + 8 * accessor.nr, 8);
        var chunkIndex := ChunkIndexFrom(Fetch(fs.backend, 0, pos, 8));
        if chunkIndex.blkaddr == 0xFFFF_FFFF then
          Err(EUCLEAN)
        else
          Ok(Map(Segment(start, accessor.len), Segment(BlkPos(sb, chunkIndex.blkaddr) + accessor.off, accessor.len),
                 And(chunkIndex.deviceId, fs.deviceMask), 0, Normal))
      else
        var pos := RoundUp(MetaEnd(fs, inode) + 4 * accessor.nr, 4);
        var blkaddr := U32(Fetch(fs.backend, 0, pos, 4));
        if size < offset then
          Fault  // the length underflows
        else if blkaddr == 0xFFFF_FFFF then
          Err(EUCLEAN)
        else
          var len := Min(accessor.len, size - offset);
          Ok(Map(Segment(start, len), Segment(BlkPos(sb, blkaddr) + accessor.off, len), 0, 0, Normal))
    case _ => Err(EUCLEAN)
  }

  function MapAt(fs: FileSystem, inode: Inode, offset: nat): Outcome<Map> {
    match inode.info.Layout()
    case FlatInline => FlatMap(fs, inode, offset, true)
    case FlatPlain => FlatMap(fs, inode, offset, false)
    case ChunkBased => ChunkMap(fs, inode, offset)
    case _ => Fault  // compressed layouts are not implemented
  }

  // The per-byte translation

  datatype Place = Place(dev: nat, addr: nat)

  /** Entry number `nr` of the chunk table: an array of units after the inode, aligned to its unit.
      Entries without an index are plain block addresses on the first device. */
  function ChunkEntry(fs: FileSystem, inode: Inode, nr: nat, indexed: bool): ChunkIndex {
    if indexed then
      var entry := ChunkIndexFrom(Fetch(fs.backend, 0, RoundUp(MetaEnd(fs, inode), 8) + 8 * nr, 8));
      entry.(deviceId := And(entry.deviceId, fs.deviceMask))
    else
      ChunkIndex(0, U32(Fetch(fs.backend, 0, RoundUp(MetaEnd(fs, inode), 4) + 4 * nr, 4)))
  }

  function EntryPlace(sb: SuperBlock, entry: ChunkIndex, off: nat): Outcome<Place> {
    if entry.blkaddr == 0xFFFF_FFFF then Err(EUCLEAN) else Ok(Place(entry.deviceId, BlkPos(sb, entry.blkaddr) + off))
  }

  /** Where byte i of a file lives, one byte at a time. */
  function Translate(fs: FileSystem, inode: Inode, i: nat): Outcome<Place> {
    match (inode.info.Layout(), SpecOf(inode.info))
    case (FlatPlain, RawBlk(blkaddr)) =>
      Ok(Place(0, BlkPos(fs.sb, blkaddr) + i))
    case (FlatInline, RawBlk(blkaddr)) =>
      if InTail(fs.sb, inode.info.FileSize(), i) then Ok(Place(0, MetaEnd(fs, inode) + Low(i, fs.sb.blkszbits)))
      else Ok(Place(0, BlkPos(fs.sb, blkaddr) + i))
    case (ChunkBased, Chunk(chunkFormat)) =>
      var bits := ChunkBits(chunkFormat) + fs.sb.blkszbits;
      EntryPlace(fs.sb, ChunkEntry(fs, inode, Shr(i, bits), IsChunkIndex(chunkFormat)), Low(i, bits))
    case (CompressedFull, _) => Fault
    case (CompressedCompact, _) => Fault
    case (UnknownLayout, _) => Fault
    case _ => Err(EUCLEAN)
  }

  /** The block of byte i is the last block of the file: the next block starts at or after the end. */
  predicate InTail(sb: SuperBlock, size: nat, i: nat) {
    size <= Shl(Shr(i, sb.blkszbits) + 1, sb.blkszbits)
  }

  /** Flat layouts count their blocks in 32 bits. */
  predicate BlocksFit(fs: FileSystem, inode: Inode) {
    inode.info.Layout() in {FlatPlain, FlatInline} ==>
      Shr(inode.info.FileSize() + Blksz(fs.sb) - 1, fs.sb.blkszbits) < U32_RANGE
  }

  predicate Indexed(inode: Inode) {
    inode.info.Layout() == ChunkBased && SpecOf(inode.info).Chunk? && IsChunkIndex(SpecOf(inode.info).chunkFormat)
  }

  /** The segment `m` describes the bytes of the file from `offset` on, each where Translate puts it. */
  ghost predicate Describes(fs: FileSystem, inode: Inode, offset: nat, m: Map) {
    && m.logical == Segment(offset, m.physical.len)
    && m.physical.len > 0
    && (!Indexed(inode) ==> offset + m.physical.len <= inode.info.FileSize())
    && forall i :: offset <= i < offset + m.physical.len ==>
      Translate(fs, inode, i) == Ok(Place(m.deviceId, m.physical.start + (i - offset)))
  }

  ghost predicate MapsRight(fs: FileSystem, inode: Inode, offset: nat) {
    match MapAt(fs, inode, offset)
    case Ok(m) => Describes(fs, inode, offset, m)
    case failure => Translate(fs, inode, offset) == failure.PropagateFailure()
  }

  lemma CeilBlocks(size: nat, n: nat, blocks: nat)
    requires size > 0 && blocks == Shr(size + Pow2(n) - 1, n)
    ensures blocks > 0 && Shl(blocks - 1, n) < size <= Shl(blocks, n)
  {
    CeilShr(size, n);
    ShlAdd(0, 0, n);
    Cut(size, n);
    ShlNext(Shr(size, n), n);
    ShlNext(blocks - 1, n);
  }

  /** The block count of a file, when it fits 32 bits, is the number of blocks its bytes touch. */
  lemma BlockCount(sb: SuperBlock, size: nat)
    requires size > 0 && Shr(size + Blksz(sb) - 1, sb.blkszbits) < U32_RANGE
    ensures BlkRoundUp(sb, size) == Shr(size + Blksz(sb) - 1, sb.blkszbits) > 0
    ensures BlkPos(sb, BlkRoundUp(sb, size) - 1) < size <= BlkPos(sb, BlkRoundUp(sb, size))
  {
    CeilBlocks(size, sb.blkszbits, Shr(size + Blksz(sb) - 1, sb.blkszbits));
  }

  lemma TailBlock(size: nat, n: nat, last: nat, offset: nat, i: nat)
    requires Shl(last, n) < size <= Shl(last + 1, n) && offset <= i < size
    ensures size <= Shl(Shr(i, n) + 1, n) <==> Shl(last, n) <= i
    ensures Shl(last, n) <= offset ==> Low(i, n) == Low(offset, n) + (i - offset)
  {
    BelowBlock(i, n, last);
    BelowBlock(i, n, last + 1);
    BelowBlock(offset, n, last);
    BelowBlock(offset, n, last + 1);
    if Shr(i, n) < last {
      ShlMonotone(Shr(i, n) + 1, last, n);
    }
    Cut(i, n);
    Cut(offset, n);
  }

  /** Byte i is in the tail block exactly when it is not below the start of the last block. */
  lemma TailIff(sb: SuperBlock, size: nat, offset: nat, i: nat)
    requires offset <= i < size && Shr(size + Blksz(sb) - 1, sb.blkszbits) < U32_RANGE
    ensures BlkRoundUp(sb, size) > 0
    ensures var tail := BlkPos(sb, BlkRoundUp(sb, size) - 1);
            && (InTail(sb, size, i) <==> tail <= i)
            && (tail <= offset ==> Low(i, sb.blkszbits) == Low(offset, sb.blkszbits) + (i - offset))
  {
    BlockCount(sb, size);
    TailBlock(size, sb.blkszbits, BlkRoundUp(sb, size) - 1, offset, i);
  }

  lemma PlainMapsRight(fs: FileSystem, inode: Inode, offset: nat)
    requires offset < inode.info.FileSize() && BlocksFit(fs, inode)
    requires inode.info.Layout() == FlatPlain
    ensures MapsRight(fs, inode, offset)
  {
    BlockCount(fs.sb, inode.info.FileSize());
  }

  lemma InlineMapsRight(fs: FileSystem, inode: Inode, offset: nat)
    requires offset < inode.info.FileSize() && BlocksFit(fs, inode)
    requires inode.info.Layout() == FlatInline
    ensures MapsRight(fs, inode, offset)
  {
    hide And, LE, Shl, Shr, Low, Pow2, MetaEnd, LayoutOf;
    var size := inode.info.FileSize();
    BlockCount(fs.sb, size);
    TailIff(fs.sb, size, offset, offset);
    if MapAt(fs, inode, offset).Ok? {
      var m := MapAt(fs, inode, offset).value;
      forall i | offset <= i < offset + m.physical.len
        ensures Translate(fs, inode, i) == Ok(Place(m.deviceId, m.physical.start + (i - offset)))
      {
        TailIff(fs.sb, size, offset, i);
      }
    }
  }

  lemma ChunkMapsRight(fs: FileSystem, inode: Inode, offset: nat)
    requires offset < inode.info.FileSize()
    requires inode.info.Layout() == ChunkBased
    ensures MapsRight(fs, inode, offset)
  {
    hide And, LE, Shl, Shr, Low, Pow2, MetaEnd, LayoutOf;
    ChunkStart(fs, inode, offset);
    var r := MapAt(fs, inode, offset);
    if r.Ok? {
      forall i | offset <= i < offset + r.value.physical.len
        ensures Translate(fs, inode, i) == Moved(Translate(fs, inode, offset), i - offset)
      {
        SameChunk(fs, inode, offset, i);
      }
    }
  }

  /** The segment `m` starts where Translate puts its first byte and stays in the chunk and the file. */
  ghost predicate StartsRight(fs: FileSystem, inode: Inode, offset: nat, m: Map) {
    && SpecOf(inode.info).Chunk?
    && Translate(fs, inode, offset) == Ok(Place(m.deviceId, m.physical.start))
    && m.logical == Segment(offset, m.physical.len) && m.physical.len > 0
    && InChunk(fs, inode, offset, m.physical.len - 1)
    && (Indexed(inode) || offset + m.physical.len <= inode.info.FileSize())
  }

  ghost predicate InChunk(fs: FileSystem, inode: Inode, offset: nat, k: nat) {
    && SpecOf(inode.info).Chunk?
    && var bits := ChunkBits(SpecOf(inode.info).chunkFormat) + fs.sb.blkszbits;
       Low(offset, bits) + k < Pow2(bits)
  }

  lemma ChunkStart(fs: FileSystem, inode: Inode, offset: nat)
    requires offset < inode.info.FileSize() && inode.info.Layout() == ChunkBased
    ensures match MapAt(fs, inode, offset)
            case Ok(m) => StartsRight(fs, inode, offset, m)
            case failure => Translate(fs, inode, offset) == failure.PropagateFailure()
  {
    hide And, LE, Shl, Shr, Low, Pow2, MetaEnd, LayoutOf, RoundUp, U16, U32, Fetch, NewAccessor;
    match SpecOf(inode.info)
    case Chunk(chunkFormat) =>
      var nr := ChunkAccess(fs.sb, ChunkBits(chunkFormat), offset).nr;
      TableRounding(MetaEnd(fs, inode), nr);
    case _ =>
  }

  function Moved(place: Outcome<Place>, k: nat): Outcome<Place> {
    if place.Ok? then Ok(Place(place.value.dev, place.value.addr + k)) else place
  }

  /** Bytes of one chunk lie next to each other. */
  lemma SameChunk(fs: FileSystem, inode: Inode, offset: nat, i: nat)
    requires inode.info.Layout() == ChunkBased
    requires offset <= i && InChunk(fs, inode, offset, i - offset)
    ensures Translate(fs, inode, i) == Moved(Translate(fs, inode, offset), i - offset)
  {
    hide And, LE, MetaEnd, LayoutOf, Low, Shr, Shl, Pow2, Fetch, RoundUp;
    WithinBlock(offset, ChunkBits(SpecOf(inode.info).chunkFormat) + fs.sb.blkszbits, i - offset);
  }

  /** Rounding up after adding whole entries is rounding the table base first. */
  lemma TableRounding(base: nat, nr: nat)
    ensures RoundUp(base + 8 * nr, 8) == RoundUp(base, 8) + 8 * nr
    ensures RoundUp(base + 4 * nr, 4) == RoundUp(base, 4) + 4 * nr
  {
  }

  /** The mapping of any offset below the file size is the per-byte translation, for the whole
      segment it returns; and it fails exactly when, and as, the translation of that byte fails. */
  lemma MapAgrees(fs: FileSystem, inode: Inode, offset: nat)
    requires offset < inode.info.FileSize() && BlocksFit(fs, inode)
    ensures MapsRight(fs, inode, offset)
  {
    match inode.info.Layout()
    case FlatInline => InlineMapsRight(fs, inode, offset);
    case FlatPlain => PlainMapsRight(fs, inode, offset);
    case ChunkBased => ChunkMapsRight(fs, inode, offset);
    case _ =>
  }

  /** Mapping further into a mapped segment gives the rest of the same place. */
  lemma MapContinues(fs: FileSystem, inode: Inode, offset: nat, k: nat)
    requires BlocksFit(fs, inode) && MapAt(fs, inode, offset).Ok?
    requires k < MapAt(fs, inode, offset).value.physical.len && offset + k < inode.info.FileSize()
    ensures MapAt(fs, inode, offset + k).Ok?
    ensures var m, m' := MapAt(fs, inode, offset).value, MapAt(fs, inode, offset + k).value;
            m'.physical.start == m.physical.start + k && m'.deviceId == m.deviceId
  {
    assert offset < inode.info.FileSize();
    MapAgrees(fs, inode, offset);
    MapAgrees(fs, inode, offset + k);
    assert Describes(fs, inode, offset, MapAt(fs, inode, offset).value);
    assert Translate(fs, inode, offset + k).Ok?;
    assert MapAt(fs, inode, offset + k).Ok?;
    assert Describes(fs, inode, offset + k, MapAt(fs, inode, offset + k).value);
  }

  /** A flat file is mapped right everywhere exactly when its block count fits 32 bits; beyond that
      the truncated count ends a plain file early and puts the tail of an inline one too soon. */
  lemma FlatMapsRightIff(fs: FileSystem, inode: Inode)
    requires inode.info.Layout() in {FlatPlain, FlatInline} && SpecOf(inode.info).RawBlk?
    ensures BlocksFit(fs, inode) <==>
              forall offset: nat :: offset < inode.info.FileSize() ==> MapsRight(fs, inode, offset)
  {
    if BlocksFit(fs, inode) {
      forall offset: nat | offset < inode.info.FileSize()
        ensures MapsRight(fs, inode, offset)
      {
        MapAgrees(fs, inode, offset);
      }
    } else {
      var offset := TooManyBlocks(fs, inode);
    }
  }

  lemma TooManyBlocks(fs: FileSystem, inode: Inode) returns (offset: nat)
    requires inode.info.Layout() in {FlatPlain, FlatInline} && SpecOf(inode.info).RawBlk?
    requires !BlocksFit(fs, inode)
    ensures offset < inode.info.FileSize() && !MapsRight(fs, inode, offset)
  {
    hide And, LE, MetaEnd, LayoutOf, Shl, Shr, Low, Pow2;
    var n, size, truncated := fs.sb.blkszbits, inode.info.FileSize(), BlkRoundUp(fs.sb, inode.info.FileSize());
    Truncation(size, n, Shr(size + Blksz(fs.sb) - 1, n), truncated);
    if inode.info.Layout() == FlatPlain {
      offset := BlkPos(fs.sb, truncated);
    } else if truncated == 0 {
      offset := 0;
    } else {
      offset := BlkPos(fs.sb, truncated - 1);
      ShlMonotone(truncated - 1, truncated, n);
      TailTooSoon(fs, inode, offset);
    }
  }

  /** A tail mapping more than a block before the last byte puts that byte in the wrong place. */
  lemma TailTooSoon(fs: FileSystem, inode: Inode, offset: nat)
    requires inode.info.Layout() == FlatInline && SpecOf(inode.info).RawBlk?
    requires MapAt(fs, inode, offset).Ok? && Low(offset, fs.sb.blkszbits) == 0
    requires MapAt(fs, inode, offset).value.mapType == Meta
    requires offset + Blksz(fs.sb) < inode.info.FileSize()
    requires InTail(fs.sb, inode.info.FileSize(), inode.info.FileSize() - 1)
    ensures !MapsRight(fs, inode, offset)
  {
    hide And, LE, MetaEnd, LayoutOf, Shl, Shr, Low, Pow2;
    var m, last := MapAt(fs, inode, offset).value, inode.info.FileSize() - 1;
    assert Translate(fs, inode, last) == Ok(Place(0, MetaEnd(fs, inode) + Low(last, fs.sb.blkszbits)));
    assert last - offset > Low(last, fs.sb.blkszbits);
    assert offset <= last < offset + m.physical.len;
  }

  lemma Truncation(size: nat, n: nat, blocks: nat, truncated: nat)
    requires blocks == Shr(size + Pow2(n) - 1, n) && truncated + U32_RANGE <= blocks
    ensures size > 0 && Shl(truncated, n) + Pow2(n) < size
    ensures size <= Shl(Shr(size - 1, n) + 1, n)
    ensures truncated > 0 ==> Low(Shl(truncated - 1, n), n) == 0
  {
    if size == 0 {
      ShlAdd(0, 0, n);
      CutUnique(Pow2(n) - 1, n, 0, Pow2(n) - 1);
      assert false;
    }
    CeilBlocks(size, n, blocks);
    ShlMonotone(truncated, blocks - 2, n);
    ShlNext(blocks - 2, n);
    TailBlock(size, n, blocks - 1, size - 1, size - 1);
    if truncated > 0 {
      CutUnique(Shl(truncated - 1, n), n, truncated - 1, 0);
    }
  }

  /** Whenever the end of the inode and the file size together stay 2^49 below the 64-bit range, every address
      the mapping computes fits it, so the unbounded sums of this model are the program's own. */
  lemma AddressesFit(fs: FileSystem, inode: Inode, offset: nat)
    requires MetaEnd(fs, inode) + inode.info.FileSize() + 0x2_0000_0000_0000 <= U64_RANGE
    requires offset < inode.info.FileSize()
    ensures inode.info.FileSize() + Blksz(fs.sb) - 1 < U64_RANGE
    ensures forall bits: nat :: bits >= 4 ==> MetaEnd(fs, inode) + 8 * Shr(offset, bits) + 7 < U64_RANGE
    ensures MapAt(fs, inode, offset).Ok? ==>
              var m := MapAt(fs, inode, offset).value;
              m.logical.start + m.logical.len < U64_RANGE && m.physical.start + m.physical.len < U64_RANGE
  {
    hide And, LE, Shl, Low, Pow2, MetaEnd, LayoutOf;
    forall bits: nat | bits >= 4
      ensures 8 * Shr(offset, bits) <= offset
    {
      Cut(offset, bits);
      ShlFour(Shr(offset, bits), bits - 4);
      ShlWider(Shr(offset, bits), 0, bits - 4);
      ShlNone(Shr(offset, bits));
    }
    match SpecOf(inode.info)
    case RawBlk(blkaddr) =>
      BlkPosBound(fs.sb, blkaddr);
    case Chunk(chunkFormat) =>
      var accessor := ChunkAccess(fs.sb, ChunkBits(chunkFormat), offset);
      var end := MetaEnd(fs, inode);
      BlkPosBound(fs.sb, ChunkIndexFrom(Fetch(fs.backend, 0, RoundUp(end + 8 * accessor.nr, 8), 8)).blkaddr);
      BlkPosBound(fs.sb, U32(Fetch(fs.backend, 0, RoundUp(end + 4 * accessor.nr, 4), 4)));
      ChunkSizeBound(fs.sb, ChunkBits(chunkFormat));
    case _ =>
  }

  lemma ShlNone(x: nat)
    ensures Shl(x, 0) == x
  {
  }

  /** In particular for inode numbers below 2^58 and files below 2^62 bytes. */
  lemma OrdinaryFits(fs: FileSystem, inode: Inode)
    requires inode.nid < 0x400_0000_0000_0000 && inode.info.FileSize() < 0x4000_0000_0000_0000
    ensures MetaEnd(fs, inode) + inode.info.FileSize() + 0x2_0000_0000_0000 <= U64_RANGE
  {
    MetaEndBound(fs, inode);
  }

  lemma BlkPosBound(sb: SuperBlock, blk: u32)
    ensures BlkPos(sb, blk) < 0x1_0000_0000_0000
  {
    ShlBound(blk, sb.blkszbits);
  }

  lemma ChunkSizeBound(sb: SuperBlock, chunkbits: nat)
    requires chunkbits <= 31
    ensures Pow2(chunkbits + sb.blkszbits) <= 0x8000_0000_0000
  {
    assert Pow2(15) == 0x8000;
    Pow2Sixteen(15);
    Pow2Sixteen(31);
    Pow2Monotone(chunkbits + sb.blkszbits, 47);
  }

  lemma MetaEndBound(fs: FileSystem, inode: Inode)
    requires inode.nid < 0x400_0000_0000_0000
    ensures MetaEnd(fs, inode) < 0x8001_0000_0010_0000
  {
    NidOffset(inode.nid);
    BlkPosBound(fs.sb, fs.sb.metaBlkaddr);
    var shifted := 32 * inode.nid;
    assert shifted < U64_RANGE;
  }
}
