/** Images on which get_xattr and list_xattrs go astray: one inode with two shared attributes and an inline
    region that starts twelve bytes before the end of a 512-byte block. */
module XattrImages {
  import opened Bits
  import opened Outcomes
  import opened Image
  import opened Superblock
  import opened Inodes
  import opened RawIters
  import opened Cursor
  import opened XattrSpec
  import opened XattrSearch
  import opened XattrList
  import opened XattrAstray
  import Operations

  /** An inline region of whole words that fits the attribute count of the image. */
  type Region = s: seq<byte> | 0 < |s| <= 100 && |s| % 4 == 0 witness [0, 0, 0, 0]

  const NID: u64 := 13

  /** The inode, the attribute summary and the two shared indexes in front of the region. */
  function Front(region: Region): (s: seq<byte>)
    ensures |s| == 84
  {
    [1, 0, 3 + |region| / 4, 0, 0, 0x80] + Zeros(58) + [7, 0, 0, 0, 2] + Zeros(7) + Zeros(8)
  }

  function Zeros(n: nat): (s: seq<byte>)
    ensures |s| == n && forall i :: 0 <= i < n ==> s[i] == 0
  {
    seq(n, _ => 0)
  }

  /** Inode 13 is at 416 and its region at 500; the shared attributes are at 4096, where everything is zero. */
  function RegionFs(region: Region): FileSystem {
    var bytes := Front(region) + region;
    var backend := (dev, addr) => if 416 <= addr < 416 + |bytes| then bytes[addr - 416] else 0;
    FileSystem(SuperBlock(9, 0, 0, 8), backend, [], 0)
  }

  function RegionInode(region: Region): Inode {
    Inode(Extended(1, 3 + |region| / 4, 0x8000, 0, [0, 0, 0, 0]), 7, [0, 0], NID)
  }

  lemma {:induction false} LEByte(s: seq<byte>)
    requires s != [] && forall i :: 0 < i < |s| ==> s[i] == 0
    ensures LE(s) == s[0]
  {
    if |s| > 1 {
      LEByte(s[1..]);
    }
  }

  lemma Mode()
    ensures U16([0, 0x80]) == 0x8000
  {
    assert [0, 0x80][1..] == [0x80];
    LEByte([0x80]);
  }

  lemma Place(region: Region)
    ensures Iloc(RegionFs(region).sb, NID) == 416 && BlkPos(RegionFs(region).sb, 8) == 4096
    ensures Blksz(RegionFs(region).sb) == 512
  {
    hide Shl, Pow2;
    ShlZero(9);
    ShlIsProduct(8, 9);
    SmallPow();
  }

  lemma SmallPow()
    ensures Pow2(9) == 512
  {
  }

  /** The inode is what a fresh read of the image gives. */
  lemma RegionRead(region: Region)
    ensures Operations.FreshInode(RegionFs(region), NID) == Ok(RegionInode(region))
  {
    hide Iloc, LE, WordsOf, DecodeInode;
    Place(region);
    SlotDecodes(region);
    SharedRead(region);
  }

  lemma FrontByte(region: Region, addr: nat)
    requires 416 <= addr < 500
    ensures RegionFs(region).backend(0, addr) == Front(region)[addr - 416]
  {
    hide Front;
  }

  lemma FrontParts(region: Region)
    ensures var front := Front(region);
            && front[0..2] == [1, 0] && front[2..4] == [3 + |region| / 4, 0] && front[4..6] == [0, 0x80]
            && front[8..16] == Zeros(8) && front[16..20] == [0, 0, 0, 0]
  {
    var front := Front(region);
    assert front[0] == 1 && front[1] == 0 && front[2] == 3 + |region| / 4 && front[3] == 0;
    assert front[4] == 0 && front[5] == 0x80 && forall i :: 6 <= i < 64 ==> front[i] == 0;
  }

  lemma SlotBytes(region: Region)
    ensures var slot := Fetch(RegionFs(region).backend, 0, 416, 64);
            && slot[0..2] == [1, 0] && slot[2..4] == [3 + |region| / 4, 0] && slot[4..6] == [0, 0x80]
            && slot[8..16] == Zeros(8) && slot[16..20] == [0, 0, 0, 0]
  {
    hide Front, RegionFs, Zeros;
    var slot, front := Fetch(RegionFs(region).backend, 0, 416, 64), Front(region);
    forall i | 0 <= i < 64
      ensures slot[i] == front[i]
    {
      FrontByte(region, 416 + i);
    }
    FrontParts(region);
    assert slot[0..2] == front[0..2] && slot[2..4] == front[2..4] && slot[4..6] == front[4..6];
    assert slot[8..16] == front[8..16] && slot[16..20] == front[16..20];
  }

  lemma SlotDecodes(region: Region)
    ensures DecodeInode(Fetch(RegionFs(region).backend, 0, 416, 64)) == Ok(RegionInode(region).info)
  {
    hide LE, RegionFs, And, Shr;
    SlotBytes(region);
    LEByte([1, 0]);
    LEByte([3 + |region| / 4, 0]);
    Mode();
    LEByte(Zeros(8));
    ExtendedFormat();
    var slot := Fetch(RegionFs(region).backend, 0, 416, 64);
    assert U16(slot[0..2]) == 1 && U16(slot[2..4]) == 3 + |region| / 4 && U64(slot[8..16]) == 0;
  }

  lemma ExtendedFormat()
    ensures VersionOf(1) == ExtendedVersion
  {
    assert Shr(1, 0) == 1 && And(1, 1) == 1;
  }

  lemma SharedRead(region: Region)
    ensures SharedEntriesAt(RegionFs(region), NID, RegionInode(region).info) == SharedEntries(7, [0, 0])
  {
    hide Iloc, LE, RegionFs, Front;
    Place(region);
    SummaryBytes(region);
    LEByte(Zeros(4));
    LEByte([7, 0, 0, 0]);
    TableSize(2);
    var table := Fetch(RegionFs(region).backend, 0, 492, 8);
    assert table[..4] == Zeros(4) && table[4..] == Zeros(4);
    assert WordsOf(table[4..]) == [0] by {
      assert table[4..][..4] == Zeros(4) && table[4..][4..] == [];
    }
  }

  lemma SummaryBytes(region: Region)
    ensures var summary := Fetch(RegionFs(region).backend, 0, 480, 12);
            summary[0..4] == [7, 0, 0, 0] && summary[4] == 2
    ensures Fetch(RegionFs(region).backend, 0, 492, 8) == Zeros(8)
  {
    hide RegionFs;
    forall addr | 480 <= addr < 500
      ensures RegionFs(region).backend(0, addr) == Front(region)[addr - 416]
    {
      FrontByte(region, addr);
    }
  }

  /** The cursor over the inline region of the image. */
  lemma RegionCursor(region: Region)
    ensures HasInline(RegionInode(region))
    ensures var c := InlineCursor(RegionFs(region), RegionInode(region));
            && BeforeEnd(RegionFs(region).sb, c) && c.pos == 500 && c.left == |region|
            && Remaining(RegionFs(region).backend, c) == region
  {
    hide Iloc, ChunkLen, Low, Front;
    Place(region);
    SmallLow();
    var c := InlineCursor(RegionFs(region), RegionInode(region));
    assert Remaining(RegionFs(region).backend, c) == region;
  }

  lemma SmallLow()
    ensures Low(500, 9) == 500
  {
    SmallPow();
    LowIsSmall(500, 9);
  }

  /** The shared attributes of the image have prefix number 0, no name and no value. */
  lemma RegionShared(region: Region)
    ensures AllStored(RegionFs(region), [0, 0]) == [Stored(Some((0, [])), []), Stored(Some((0, [])), [])]
    ensures SharedNames(RegionFs(region), [0, 0]) == Ok([0, 0])
  {
    hide BlkPos, LE, EntryId, FullName, HeaderFrom, Front;
    Place(region);
    NothingNamed(RegionFs(region).infixes);
    var h := HeaderFrom(Fetch(RegionFs(region).backend, 0, 4096, 4));
    ZeroHeader(region);
    assert [0, 0][1..] == [0] && [0][1..] == [];
    assert Fetch(RegionFs(region).backend, 0, 4100, 0) == [];
    assert SharedNames(RegionFs(region), []) == Ok([]);
    assert [0] + [] == [0] && [0] + [0] == [0, 0];
    var one: seq<u32> := [0];
    assert one[1..] == [];
    assert SharedNames(RegionFs(region), one) == Ok([0]);
  }

  lemma ZeroHeader(region: Region)
    ensures HeaderFrom(Fetch(RegionFs(region).backend, 0, 4096, 4)) == EntryHeader(0, 0, 0)
  {
    hide Front;
    HeaderIs(Fetch(RegionFs(region).backend, 0, 4096, 4));
  }

  lemma NothingNamed(ifs: seq<Infix>)
    ensures EntryId(ifs, 0, []) == Some((0, [])) && FullName(ifs, 0, []) == Ok([0])
  {
    hide And, Ascii, IsLong;
    ShortName(0);
    assert NameIndex(0) == 0 < |PREFIXES|;
    assert PREFIXES[0] + [] + [0] == [0];
  }

  // The failures

  /** get_xattr finds an attribute that is not stored, in the value of another. */
  lemma ImageImpostor(region: Region)
    requires region == EncodeAll([RawEntry(1, [97, 98, 99, 100], [0, 2, 0, 0], [])]) && |region| == 12
    ensures var fs, inode := RegionFs(region), RegionInode(region);
            && Operations.FreshInode(fs, NID) == Ok(inode)
            && GetXattrSpec(fs, inode, [], 2, None) == Ok([])
            && FirstMatch(StoredAll(fs.infixes, [RawEntry(1, [97, 98, 99, 100], [0, 2, 0, 0], [])])
                            + AllStored(fs, inode.sharedIndexes), [], 2, None) == Err(ENODATA)
  {
    hide RegionFs, InlineCursor, InlineSearch, SharedSearch, FirstMatch, StoredAll, EncodeAll, AllStored, Remaining,
      Low, ChunkLen;
    var fs, c := RegionFs(region), InlineCursor(RegionFs(region), RegionInode(region));
    var es: seq<Entry> := [RawEntry(1, [97, 98, 99, 100], [0, 2, 0, 0], [])];
    RegionRead(region);
    RegionCursor(region);
    TwelveLeft(fs.sb, c);
    ImpostorFound(fs, c);
    RegionShared(region);
    NotShared([], 2);
    FirstMatchJoin(StoredAll(fs.infixes, es), AllStored(fs, [0, 0]), [], 2, None);
  }

  lemma NotShared(name: seq<byte>, index: nat)
    requires index != 0
    ensures FirstMatch([Stored(Some((0, [])), []), Stored(Some((0, [])), [])], name, index, None) == Err(ENODATA)
  {
    var none := Stored(Some((0, [])), []);
    assert [none, none][1..] == [none] && [none][1..] == [];
    assert FirstMatch([], name, index, None) == Err(ENODATA);
    assert FirstMatch([none], name, index, None) == Err(ENODATA);
  }

  /** get_xattr does not find an attribute that is stored, behind a value that crosses the block end. */
  lemma ImageMisses(region: Region, es: seq<Entry>, name: seq<byte>)
    requires es == [Crossing(), Missed()] && name == Missed().suffix && region == EncodeAll(es)
    ensures var fs, inode := RegionFs(region), RegionInode(region);
            && Operations.FreshInode(fs, NID) == Ok(inode)
            && GetXattrSpec(fs, inode, name, 1, None) == Err(ENODATA)
            && FirstMatch(StoredAll(fs.infixes, es) + AllStored(fs, inode.sharedIndexes), name, 1, None) == Ok([])
  {
    hide RegionFs, InlineCursor, InlineSearch, SharedSearch, FirstMatch, StoredAll, EncodeAll, AllStored, Remaining,
      Low, ChunkLen, CrossingBytes, InStep, Crossing, Missed;
    var fs, c := RegionFs(region), InlineCursor(RegionFs(region), RegionInode(region));
    RegionRead(region);
    RegionCursor(region);
    CrossingEncoded();
    SkipMisses(fs, c);
    RegionShared(region);
    NotShared(name, 1);
    SharedSearchExact(fs, [0, 0], name, 1, None);
    FirstMatchJoin(StoredAll(fs.infixes, es), AllStored(fs, [0, 0]), name, 1, None);
  }

  /** list_xattrs lists an attribute that is not stored, in a value that crosses the block end. */
  lemma ImagePhantom(region: Region, room: nat)
    requires region == EncodeAll([Phantom()]) && room >= 18
    ensures var fs, inode := RegionFs(region), RegionInode(region);
            && Operations.FreshInode(fs, NID) == Ok(inode)
            && ListXattrsSpec(fs, inode, room) ==
                 Ok(FullName([], 1, Phantom().suffix).value + FullName([], 1, []).value + [0, 0])
            && AllNames(fs, inode, [Phantom()]) == Ok(FullName([], 1, Phantom().suffix).value + [0, 0])
  {
    hide InlineCursor, InlineList, SharedList, SharedNames, EncodeAll, Remaining, Low, ChunkLen, FullName, Front,
      SkipsExactly;
    var fs, c := RegionFs(region), InlineCursor(RegionFs(region), RegionInode(region));
    RegionRead(region);
    RegionCursor(region);
    PhantomListed(fs, c, room);
    UserNames(fs.infixes);
    RegionShared(region);
    SharedListExact(fs, [0, 0], room - 16);
  }
}
