/** Files as an encoder stores them, byte by byte on the image, and what reading them delivers. */
module StoredFiles {
  import opened Bits
  import opened Outcomes
  import opened Streams
  import opened Image
  import opened Superblock
  import opened Inodes
  import opened BlockMap
  import opened RawIters
  import opened MappedRead
  import opened InodeCodes
  import FileRead

  /** The bytes at an address of a device. */
  ghost predicate Holds(be: Backend, dev: nat, addr: nat, bytes: seq<byte>) {
    Fetch(be, dev, addr, |bytes|) == bytes
  }

  lemma HeldByte(be: Backend, dev: nat, addr: nat, bytes: seq<byte>, i: nat)
    requires Holds(be, dev, addr, bytes) && i < |bytes|
    ensures be(dev, addr + i) == bytes[i]
  {
  }

  /** Where an inode is. */
  function InodeAddress(sb: SuperBlock, nid: u64): nat {
    Shl(sb.metaBlkaddr, sb.blkszbits) + 32 * nid % 0x1_0000_0000_0000_0000
  }

  /** The inode, its attribute region, and what follows them. */
  ghost predicate InodeStored(fs: FileSystem, inode: Inode, others: Others, attrs: seq<byte>, after: seq<byte>) {
    && Encodable(inode.info, others) && |attrs| == RegionLen(inode.info)
    && Holds(fs.backend, 0, InodeAddress(fs.sb, inode.nid), EncodeInode(inode.info, others) + attrs + after)
  }

  function DataAddress(fs: FileSystem, inode: Inode): nat {
    InodeAddress(fs.sb, inode.nid) + HeaderLen(inode.info) + RegionLen(inode.info)
  }

  /** A stored inode is the one that is read, and what follows it starts behind its attributes. */
  lemma StoredInodeRead(fs: FileSystem, inode: Inode, others: Others, attrs: seq<byte>, after: seq<byte>)
    requires InodeStored(fs, inode, others, attrs, after)
    ensures InodeAt(fs, inode.nid) == Ok(inode.info)
    ensures MetaEnd(fs, inode) == DataAddress(fs, inode)
    ensures Holds(fs.backend, 0, DataAddress(fs, inode), after)
  {
    hide DecodeInode, EncodeInode, Shl;
    var addr, s := InodeAddress(fs.sb, inode.nid), EncodeInode(inode.info, others);
    var all := s + attrs + after;
    assert all[|s| + |attrs|..] == after && all[..|s|] == s;
    FetchSlice(fs.backend, 0, addr, |all|, |s| + |attrs|, |all|);
    FetchSlice(fs.backend, 0, addr, |all|, 0, |s|);
    FetchSlice(fs.backend, 0, addr, 64, 0, |s|);
    assert Fetch(fs.backend, 0, addr, 64)[..|s|] == s;
    InodeRoundTrip(inode.info, others, Fetch(fs.backend, 0, addr, 64));
  }

  // Flat layouts

  /** A file delivered whole and without a failure. */
  ghost predicate DeliversAll(fs: FileSystem, inode: Inode, data: seq<byte>) {
    var run := MapRun(fs, inode, 0);
    run.end.Ok? && |Concat(run.items)| >= |data| && Concat(run.items)[..|data|] == data
  }

  lemma DeliversIs(fs: FileSystem, inode: Inode, data: seq<byte>)
    requires BlocksFit(fs, inode) && inode.info.FileSize() == |data|
    requires forall i :: 0 <= i < |data| ==> Mapped(fs, inode, i) && ByteAt(fs, inode, i) == data[i]
    ensures DeliversAll(fs, inode, data) && |Concat(MapRun(fs, inode, 0).items)| <= LogicalEnd(fs, inode)
  {
    hide MapRun, Mapped, BlocksFit, ByteAt, Indexed;
    RunDelivers(fs, inode, 0);
    if data != [] {
      FileRead.DeliveredIff(fs, inode, 0);
    }
    FileRead.EndNotBelowSize(fs, inode);
    assert Concat(MapRun(fs, inode, 0).items)[..|data|] == data;
  }

  /** Block number `last` is the last of a file of that size, and the count of its blocks fits 32 bits. */
  predicate LastBlock(sb: SuperBlock, size: nat, last: nat) {
    Shl(last, sb.blkszbits) < size <= Shl(last + 1, sb.blkszbits) && last + 1 < 0x1_0000_0000
  }

  lemma LastBlockIs(sb: SuperBlock, size: nat, last: nat)
    requires LastBlock(sb, size, last)
    ensures Shr(size + Blksz(sb) - 1, sb.blkszbits) == BlkRoundUp(sb, size) == last + 1
  {
    hide Shl, Shr, Low, Pow2;
    var n := sb.blkszbits;
    ShlNext(last, n);
    var x := size + Blksz(sb) - 1;
    CutUnique(x, n, last + 1, x - Shl(last + 1, n));
  }

  /** A plain file is delivered from its blocks. */
  lemma PlainStored(fs: FileSystem, inode: Inode, others: Others, attrs: seq<byte>, data: seq<byte>, last: nat)
    requires InodeStored(fs, inode, others, attrs, [])
    requires inode.info.format / 2 % 8 == 0 && CarriesData(inode.info.mode) && SizeField(inode.info) == |data|
    requires LastBlock(fs.sb, |data|, last)
    requires Holds(fs.backend, 0, Shl(Number(inode.info.u), fs.sb.blkszbits), data)
    ensures InodeAt(fs, inode.nid) == Ok(inode.info) && DeliversAll(fs, inode, data)
    ensures Concat(MapRun(fs, inode, 0).items) == data
  {
    hide Shl, Shr, Low, Pow2, And, LE, MapRun, DecodeInode, LayoutOf, SpecOf;
    StoredInodeRead(fs, inode, others, attrs, []);
    LayoutCode(inode.info.format);
    SpecCode(inode.info);
    LastBlockIs(fs.sb, |data|, last);
    forall i | 0 <= i < |data|
      ensures Mapped(fs, inode, i) && ByteAt(fs, inode, i) == data[i]
    {
      HeldByte(fs.backend, 0, Shl(Number(inode.info.u), fs.sb.blkszbits), data, i);
    }
    DeliversIs(fs, inode, data);
  }

  /** An inline file is delivered from its blocks, and its tail from behind the attributes of its inode. */
  lemma InlineStored(fs: FileSystem, inode: Inode, others: Others, attrs: seq<byte>, data: seq<byte>, last: nat)
    requires LastBlock(fs.sb, |data|, last)
    requires InodeStored(fs, inode, others, attrs, data[Shl(last, fs.sb.blkszbits)..])
    requires inode.info.format / 2 % 8 == 2 && CarriesData(inode.info.mode) && SizeField(inode.info) == |data|
    requires Holds(fs.backend, 0, Shl(Number(inode.info.u), fs.sb.blkszbits), data[..Shl(last, fs.sb.blkszbits)])
    ensures InodeAt(fs, inode.nid) == Ok(inode.info) && DeliversAll(fs, inode, data)
    ensures Concat(MapRun(fs, inode, 0).items) == data
  {
    hide Shl, Shr, Low, Pow2, And, LE, MapRun, DecodeInode, LayoutOf, SpecOf, MetaEnd, Holds, InTail;
    var n, cut := fs.sb.blkszbits, Shl(last, fs.sb.blkszbits);
    StoredInodeRead(fs, inode, others, attrs, data[cut..]);
    LayoutCode(inode.info.format);
    SpecCode(inode.info);
    LastBlockIs(fs.sb, |data|, last);
    forall i | 0 <= i < |data|
      ensures Mapped(fs, inode, i) && ByteAt(fs, inode, i) == data[i]
    {
      TailIff(fs.sb, |data|, i, i);
      if i < cut {
        HeldByte(fs.backend, 0, Shl(Number(inode.info.u), n), data[..cut], i);
      } else {
        ShlNext(last, n);
        CutUnique(i, n, last, i - cut);
        HeldByte(fs.backend, 0, DataAddress(fs, inode), data[cut..], i - cut);
      }
    }
    DeliversIs(fs, inode, data);
  }

  // Chunks

  /** The chunk format of an inode, and the bits of the size of its chunks. */
  function Format(info: InodeInfo): u16 {
    Number(info.u[..2])
  }

  function SizeBits(sb: SuperBlock, info: InodeInfo): nat {
    Format(info) % 32 + sb.blkszbits
  }

  /** An entry of a chunk table: with the index bit eight bytes, the device at 2 and the block at 4, else four
      bytes, the block. */
  datatype TableEntry = TableEntry(advise: seq<byte>, dev: u16, blk: u32)

  ghost predicate EntryStored(fs: FileSystem, inode: Inode, nr: nat, e: TableEntry) {
    var end := DataAddress(fs, inode);
    if Format(inode.info) / 32 % 2 == 1 then
      && |e.advise| == 2
      && Holds(fs.backend, 0, (end + 7) / 8 * 8 + 8 * nr, e.advise + ToLE(e.dev, 2) + ToLE(e.blk, 4))
    else
      Holds(fs.backend, 0, (end + 3) / 4 * 4 + 4 * nr, ToLE(e.blk, 4))
  }

  /** The device an entry names: plain entries name the first. */
  function EntryDevice(fs: FileSystem, inode: Inode, e: TableEntry): nat {
    if Format(inode.info) / 32 % 2 == 1 then And(e.dev, fs.deviceMask) else 0
  }

  /** A chunk-based inode whose header and attributes are stored. */
  ghost predicate ChunkInode(fs: FileSystem, inode: Inode, others: Others, attrs: seq<byte>) {
    && InodeStored(fs, inode, others, attrs, [])
    && inode.info.format / 2 % 8 == 4 && CarriesData(inode.info.mode)
  }

  lemma EntryDecodes(e: TableEntry, bytes: seq<byte>)
    requires |e.advise| == 2 && bytes == e.advise + ToLE(e.dev, 2) + ToLE(e.blk, 4)
    ensures ChunkIndexFrom(bytes) == ChunkIndex(e.dev, e.blk)
  {
    hide LE, ToLE;
    Ranges();
    LERoundTrip(e.dev, 2);
    LERoundTrip(e.blk, 4);
    assert bytes[2..4] == ToLE(e.dev, 2) && bytes[4..8] == ToLE(e.blk, 4);
  }

  /** Every byte of chunk nr is where entry nr says; a chunk without a block is a hole, which is refused. */
  lemma ChunkByte(fs: FileSystem, inode: Inode, others: Others, attrs: seq<byte>, nr: nat, e: TableEntry, i: nat)
    requires ChunkInode(fs, inode, others, attrs) && EntryStored(fs, inode, nr, e)
    requires Shl(nr, SizeBits(fs.sb, inode.info)) <= i < Shl(nr + 1, SizeBits(fs.sb, inode.info))
    ensures Translate(fs, inode, i) ==
              if e.blk == 0xFFFF_FFFF then Err(EUCLEAN)
              else Ok(Place(EntryDevice(fs, inode, e),
                            Shl(e.blk, fs.sb.blkszbits) + (i - Shl(nr, SizeBits(fs.sb, inode.info)))))
  {
    hide Shl, Shr, Low, Pow2, And, LE, ToLE, DecodeInode, LayoutOf, SpecOf, MetaEnd, ChunkBits, IsChunkIndex,
      ChunkIndexFrom, DataAddress, Fetch;
    var bits := SizeBits(fs.sb, inode.info);
    StoredInodeRead(fs, inode, others, attrs, []);
    LayoutCode(inode.info.format);
    SpecCode(inode.info);
    ChunkCode(Format(inode.info));
    ShlNext(nr, bits);
    CutUnique(i, bits, nr, i - Shl(nr, bits));
    if Format(inode.info) / 32 % 2 == 1 {
      EntryDecodes(e, e.advise + ToLE(e.dev, 2) + ToLE(e.blk, 4));
    } else {
      Ranges();
      LERoundTrip(e.blk, 4);
    }
  }

  /** Mapping an offset of chunk nr gives its place, or refuses a hole. */
  lemma ChunkMapped(fs: FileSystem, inode: Inode, others: Others, attrs: seq<byte>, nr: nat, e: TableEntry, i: nat)
    requires ChunkInode(fs, inode, others, attrs) && EntryStored(fs, inode, nr, e)
    requires Shl(nr, SizeBits(fs.sb, inode.info)) <= i < Shl(nr + 1, SizeBits(fs.sb, inode.info))
    requires i < SizeField(inode.info)
    ensures var m := MapAt(fs, inode, i);
            if e.blk == 0xFFFF_FFFF then m == Err(EUCLEAN)
            else
              && m.Ok? && m.value.deviceId == EntryDevice(fs, inode, e)
              && m.value.physical.start == Shl(e.blk, fs.sb.blkszbits) + (i - Shl(nr, SizeBits(fs.sb, inode.info)))
  {
    hide Shl, MapAt, Translate, DecodeInode, LayoutOf, SpecOf, EntryStored;
    LayoutCode(inode.info.format);
    ChunkByte(fs, inode, others, attrs, nr, e, i);
    MapAgrees(fs, inode, i);
  }

  /** The data of chunk nr of a file. */
  function ChunkData(bits: nat, data: seq<byte>, nr: nat): seq<byte> {
    var lo, hi := Shl(nr, bits), Shl(nr + 1, bits);
    if lo > |data| || lo > hi then [] else data[lo..Min(hi, |data|)]
  }

  /** A file of chunks is delivered from the blocks its table names, in any order and on any devices. */
  lemma ChunksStored(fs: FileSystem, inode: Inode, others: Others, attrs: seq<byte>, table: seq<TableEntry>,
                     data: seq<byte>)
    requires ChunkInode(fs, inode, others, attrs) && SizeField(inode.info) == |data|
    requires |data| <= Shl(|table|, SizeBits(fs.sb, inode.info))
    requires forall nr :: 0 <= nr < |table| ==>
               && EntryStored(fs, inode, nr, table[nr]) && table[nr].blk != 0xFFFF_FFFF
               && Holds(fs.backend, EntryDevice(fs, inode, table[nr]), Shl(table[nr].blk, fs.sb.blkszbits),
                        ChunkData(SizeBits(fs.sb, inode.info), data, nr))
    ensures InodeAt(fs, inode.nid) == Ok(inode.info) && DeliversAll(fs, inode, data)
  {
    hide Shl, Shr, Low, Pow2, And, LE, MapRun, DecodeInode, LayoutOf, SpecOf, Translate, Holds, EntryStored, Format,
      SizeBits, EntryDevice;
    var bits := SizeBits(fs.sb, inode.info);
    StoredInodeRead(fs, inode, others, attrs, []);
    LayoutCode(inode.info.format);
    forall i | 0 <= i < |data|
      ensures Mapped(fs, inode, i) && ByteAt(fs, inode, i) == data[i]
    {
      var nr := Shr(i, bits);
      BelowBlock(i, bits, |table|);
      BelowBlock(i, bits, nr + 1);
      Cut(i, bits);
      ChunkByte(fs, inode, others, attrs, nr, table[nr], i);
      HeldByte(fs.backend, EntryDevice(fs, inode, table[nr]), Shl(table[nr].blk, fs.sb.blkszbits),
               ChunkData(bits, data, nr), i - Shl(nr, bits));
    }
    DeliversIs(fs, inode, data);
  }
}
