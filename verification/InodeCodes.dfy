/** The fields of an on-disk inode by their positions and codes. */
module InodeCodes {
  import opened Bits
  import opened Outcomes
  import opened Inodes

  // Codes

  /** Even formats are compact, odd ones extended, and there is no third kind. */
  lemma VersionCode(format: u16)
    ensures VersionOf(format) == if format % 2 == 0 then Compat else ExtendedVersion
  {
    hide And;
    assert Pow2(1) == 2;
    ShiftsAreArithmetic(format, 1);
    assert Shr(format, 0) == format;
  }

  lemma LayoutCode(format: u16)
    ensures var code := format / 2 % 8;
            LayoutOf(format) ==
              if code == 0 then FlatPlain
              else if code == 1 then CompressedFull
              else if code == 2 then FlatInline
              else if code == 3 then CompressedCompact
              else if code == 4 then ChunkBased
              else UnknownLayout
  {
    hide And;
    assert Pow2(1) == 2 && Pow2(3) == 8;
    ShiftsAreArithmetic(format, 1);
    ShiftsAreArithmetic(format / 2, 3);
  }

  /** Directories, regular files and symbolic links. */
  predicate CarriesData(mode: u16) {
    mode / 4096 == 4 || mode / 4096 == 8 || mode / 4096 == 10
  }

  /** What the data field means, from the kind in the high bits of the mode and the layout code. */
  lemma SpecCode(info: InodeInfo)
    ensures var code := info.format / 2 % 8;
            SpecOf(info) ==
              if !CarriesData(info.mode) then UnknownSpec
              else if code == 0 || code == 2 then RawBlk(Number(info.u))
              else if code == 1 || code == 3 then CompressedBlocks(Number(info.u))
              else if code == 4 then Chunk(Number(info.u[..2]))
              else UnknownSpec
  {
    hide And, LayoutOf, LE;
    KindCode(info.mode);
    LayoutCode(info.format);
    LittleEndian(info.u);
    LittleEndian(info.u[..2]);
    assert info.u[0..2] == info.u[..2];
  }

  lemma KindCode(mode: u16)
    ensures And(mode, 0xF000) == 4096 * (mode / 4096)
  {
    hide And, Shl, Shr;
    Powers();
    ShlIsProduct(15, 12);
    AndShifted(mode, 15, 12);
    ShiftsAreArithmetic(mode, 12);
    ShiftsAreArithmetic(mode / 4096, 4);
    ShlIsProduct(mode / 4096, 12);
  }

  lemma Powers()
    ensures Pow2(4) == 16 && Pow2(5) == 32 && Pow2(7) == 128 && Pow2(12) == 4096
  {
  }

  /** The chunk bits and the index bit of a chunk format. */
  lemma ChunkCode(chunkFormat: u16)
    ensures ChunkBits(chunkFormat) == chunkFormat % 32
    ensures IsChunkIndex(chunkFormat) <==> chunkFormat / 32 % 2 == 1
  {
    hide And, Shr;
    Powers();
    ShiftsAreArithmetic(chunkFormat, 5);
    AndBit(chunkFormat, 5);
  }

  /** The length of the header of an inode. */
  function HeaderLen(info: InodeInfo): nat {
    if info.format % 2 == 0 then 32 else 64
  }

  /** The length of the attribute region behind it. */
  function RegionLen(info: InodeInfo): nat {
    if info.format % 2 == 0 || info.xattrIcount == 0 then 0 else 12 + 4 * (info.xattrIcount - 1)
  }

  function SizeField(info: InodeInfo): nat {
    match info
    case Compact(_, _, _, size, _) => size
    case Extended(_, _, _, size, _) => size
  }

  // Encoding

  /** The bytes of the fields that are not modelled: the link count or padding at 6, the reserved bytes at 12
      of a compact inode, and everything from 20 on. */
  datatype Others = Others(links: seq<byte>, reserved: seq<byte>, rest: seq<byte>)

  /** An inode that an encoder can store: its format says which kind it is. */
  predicate Encodable(info: InodeInfo, others: Others) {
    && (info.Compact? <==> info.format % 2 == 0)
    && |others.links| == 2 && |others.reserved| == 4
    && |others.rest| == if info.Compact? then 12 else 44
  }

  function EncodeInode(info: InodeInfo, others: Others): (s: seq<byte>)
    requires Encodable(info, others)
    ensures |s| == HeaderLen(info)
  {
    match info
    case Compact(format, icount, mode, size, u) =>
      ToLE(format, 2) + ToLE(icount, 2) + ToLE(mode, 2) + others.links + ToLE(size, 4) + others.reserved
        + u + others.rest
    case Extended(format, icount, mode, size, u) =>
      ToLE(format, 2) + ToLE(icount, 2) + ToLE(mode, 2) + others.links + ToLE(size, 8) + u + others.rest
  }

  /** Decoding inverts encoding, for every inode of either kind and whatever follows it. */
  lemma InodeRoundTrip(info: InodeInfo, others: Others, slot: seq<byte>)
    requires Encodable(info, others) && |slot| == 64 && EncodeInode(info, others) <= slot
    ensures DecodeInode(slot) == Ok(info)
  {
    hide LE, VersionOf, ToLE;
    VersionCode(info.format);
    Ranges();
    LERoundTrip(info.format, 2);
    LERoundTrip(info.xattrIcount, 2);
    LERoundTrip(info.mode, 2);
    SlotParts(info, others, slot);
    LERoundTrip(SizeField(info), if info.Compact? then 4 else 8);
  }

  lemma Ranges()
    ensures Pow256(2) == U16_RANGE && Pow256(4) == U32_RANGE && Pow256(8) == U64_RANGE
  {
  }

  lemma SlotParts(info: InodeInfo, others: Others, slot: seq<byte>)
    requires Encodable(info, others) && |slot| == 64 && EncodeInode(info, others) <= slot
    ensures slot[0..2] == ToLE(info.format, 2) && slot[2..4] == ToLE(info.xattrIcount, 2)
    ensures slot[4..6] == ToLE(info.mode, 2) && slot[16..20] == info.u
    ensures info.Compact? ==> slot[8..12] == ToLE(SizeField(info), 4)
    ensures info.Extended? ==> slot[8..16] == ToLE(SizeField(info), 8)
  {
    hide ToLE;
    var s := EncodeInode(info, others);
    assert slot[..|s|] == s;
    assert s[0..2] == ToLE(info.format, 2) && s[2..4] == ToLE(info.xattrIcount, 2);
    assert s[4..6] == ToLE(info.mode, 2) && s[16..20] == info.u;
    assert forall i, j :: 0 <= i <= j <= |s| ==> slot[i..j] == s[i..j];
    if info.Compact? {
      assert s[8..12] == ToLE(SizeField(info), 4);
    } else {
      assert s[8..16] == ToLE(SizeField(info), 8);
    }
  }
}
