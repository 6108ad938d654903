/** On-disk inodes: the two header layouts, the format bits, and what the data field means. */
module Inodes {
  import opened Bits
  import opened Outcomes
  import opened Image
  import opened Superblock

  datatype Version = Compat | ExtendedVersion | UnknownVersion

  datatype Layout = FlatPlain | CompressedFull | FlatInline | CompressedCompact | ChunkBased | UnknownLayout

  function VersionOf(format: u16): Version {
    match And(Shr(format, 0), 0x1)
    case 0 => Compat
    case 1 => ExtendedVersion
    case _ => UnknownVersion
  }

  function LayoutOf(format: u16): Layout {
    match And(Shr(format, 1), 0x7)
    case 0 => FlatPlain
    case 1 => CompressedFull
    case 2 => FlatInline
    case 3 => CompressedCompact
    case 4 => ChunkBased
    case _ => UnknownLayout
  }

  type Word = s: seq<byte> | |s| == 4 witness [0, 0, 0, 0]

  datatype InodeInfo =
    | Extended(format: u16, xattrIcount: u16, mode: u16, size: u64, u: Word)
    | Compact(format: u16, xattrIcount: u16, mode: u16, compactSize: u32, u: Word)
  {
    function FileSize(): u64 {
      if Extended? then size else compactSize
    }

    function InodeSize(): nat {
      if Extended? then 64 else 32
    }

    /** The size of the inline attribute region; a compact inode always reports none. */
    function XattrSize(): nat {
      if Compact? || xattrIcount == 0 then 0 else 12 + 4 * (xattrIcount - 1)
    }

    function Layout(): Layout {
      LayoutOf(format)
    }
  }

  datatype Spec = Chunk(chunkFormat: u16) | RawBlk(blkaddr: u32) | CompressedBlocks(blocks: u32) | UnknownSpec

  predicate IsChunkIndex(chunkFormat: u16) {
    And(chunkFormat, 0x20) != 0
  }

  function ChunkBits(chunkFormat: u16): (r: nat)
    ensures r <= 31
  {
    And(chunkFormat, 0x1f)
  }

  function SpecFrom(u: Word, layout: Layout): Spec {
    match layout
    case FlatInline => RawBlk(U32(u))
    case FlatPlain => RawBlk(U32(u))
    case CompressedFull => CompressedBlocks(U32(u))
    case CompressedCompact => CompressedBlocks(U32(u))
    case ChunkBased => Chunk(U16(u[0..2]))
    case UnknownLayout => UnknownSpec
  }

  /** Only directories, regular files and symbolic links carry data. */
  function SpecOf(info: InodeInfo): Spec {
    var kind := And(info.mode, 0xF000);
    if kind == 0x4000 || kind == 0x8000 || kind == 0xA000 then SpecFrom(info.u, info.Layout()) else UnknownSpec
  }

  /** An inode in memory, with the shared attribute indexes read when it was loaded. */
  datatype Inode = Inode(info: InodeInfo, nameFilter: u32, sharedIndexes: seq<u32>, nid: u64)

  datatype FileSystem = FileSystem(
    sb: SuperBlock,
    backend: Backend,
    infixes: seq<Infix>,
    deviceMask: u16)

  /** An attribute name infix: the prefix number in the first byte, the text in the rest. */
  type Infix = s: seq<byte> | |s| > 0 witness [0]

  /** The inode stored in a 64-byte slot of the image. */
  function DecodeInode(slot: seq<byte>): Outcome<InodeInfo>
    requires |slot| == 64
  {
    var format, icount, mode, u := U16(slot[0..2]), U16(slot[2..4]), U16(slot[4..6]), slot[16..20];
    match VersionOf(format)
    case Compat => Ok(Compact(format, icount, mode, U32(slot[8..12]), u))
    case ExtendedVersion => Ok(Extended(format, icount, mode, U64(slot[8..16]), u))
    case UnknownVersion => Err(EOPNOTSUPP)
  }

  /** The slot of a nid, read in one piece. */
  function InodeAt(fs: FileSystem, nid: u64): Outcome<InodeInfo> {
    DecodeInode(Fetch(fs.backend, 0, Iloc(fs.sb, nid), 64))
  }

  /** Inodes are decoded from a 64-byte buffer filled in stages: the first half, then as much of
      the second half as the block holds, then the rest from the next block. */
  method ReadInodeInfo(fs: FileSystem, nid: u64) returns (r: Outcome<InodeInfo>)
    ensures r == InodeAt(fs, nid)
  {
    var sb := fs.sb;
    var offset := Iloc(sb, nid);
    var accessor := BlkAccess(sb, offset);
    var buf := new byte[64](_ => 0);
    Fill(fs.backend, buf, 0, 32, 0, offset);
    ghost var slot := Fetch(fs.backend, 0, offset, 64);
    assert buf[..32] == slot[..32];
    var format := U16(buf[0..2]);
    assert buf[0..2] == slot[0..2] && buf[2..4] == slot[2..4] && buf[4..6] == slot[4..6];
    assert buf[8..12] == slot[8..12] && buf[16..20] == slot[16..20] && buf[8..16] == slot[8..16];
    match VersionOf(format)
    case Compat =>
      return Ok(Compact(format, U16(buf[2..4]), U16(buf[4..6]), U32(buf[8..12]), buf[16..20]));
    case UnknownVersion =>
      return Err(EOPNOTSUPP);
    case ExtendedVersion =>
      var gotten := Min(Blksz(sb) - accessor.off + 32, 64);
      Fill(fs.backend, buf, 32, Min(32 + gotten, 64), 0, offset + 32);
      if gotten < 32 {
        assert false;  // the third stage, from the next block, is never taken
      }
      assert buf[..] == slot;
      return Ok(Extended(format, U16(buf[2..4]), U16(buf[4..6]), U64(buf[8..16]), buf[16..20]));
  }
}
