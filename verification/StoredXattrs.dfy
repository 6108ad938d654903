/** Attributes as an encoder stores them, byte by byte on the image: where they are, and what they are called. */
module StoredXattrs {
  import opened Bits
  import opened Outcomes
  import opened Image
  import opened Superblock
  import opened Inodes
  import opened RawIters
  import opened Cursor
  import opened XattrSpec
  import opened XattrSearch
  import opened XattrList
  import opened InodeCodes
  import opened StoredFiles

  // Names

  /** The bytes of the seven prefixes. */
  function PrefixBytes(k: nat): seq<byte>
    requires k < 7
  {
    match k
    case 1 => [117, 115, 101, 114, 46]
    case 2 =>
      [115, 121, 115, 116, 101, 109, 46, 112, 111, 115, 105, 120, 95, 97, 99, 108, 95, 97, 99, 99, 101, 115, 115]
    case 3 =>
      [115, 121, 115, 116, 101, 109, 46, 112, 111, 115, 105, 120, 95, 97, 99, 108, 95, 100, 101, 102, 97, 117, 108, 116]
    case 4 => [116, 114, 117, 115, 116, 101, 100, 46]
    case 6 => [115, 101, 99, 117, 114, 105, 116, 121, 46]
    case _ => []
  }

  lemma PrefixesAre(k: nat)
    requires k < 7
    ensures |PREFIXES| == 7 && PREFIXES[k] == PrefixBytes(k)
  {
    hide Ascii, PrefixBytes;
    EmptyPrefixes();
    ShortPrefixes();
    AccessPrefix();
    DefaultPrefix();
  }

  lemma EmptyPrefixes()
    ensures PrefixBytes(0) == [] && PrefixBytes(5) == []
  {
  }

  lemma ShortPrefixes()
    ensures PrefixBytes(1) == Ascii("user.") && PrefixBytes(4) == Ascii("trusted.")
    ensures PrefixBytes(6) == Ascii("security.")
  {
  }

  lemma AccessPrefix()
    ensures PrefixBytes(2) == Ascii("system.posix_acl_access")
  {
  }

  lemma DefaultPrefix()
    ensures PrefixBytes(3) == Ascii("system.posix_acl_default")
  {
  }

  /** Numbers below 128 are prefix numbers; 128 + k is infix k. */
  lemma NameIndexCode(k: byte)
    ensures k < 128 ==> !IsLong(k) && NameIndex(k) == k
    ensures k >= 128 ==> IsLong(k) && NameIndex(k) == k - 128
  {
    hide And, Shr;
    Powers();
    AndBit(k, 7);
    ShiftsAreArithmetic(k, 7);
  }

  /** An entry with a prefix number is called by it and its suffix, and printed with the prefix. */
  lemma ShortNamed(ifs: seq<Infix>, k: byte, suffix: seq<byte>)
    requires k < 128
    ensures EntryId(ifs, k, suffix) == if k < 7 then Some((k as nat, suffix)) else None
    ensures k < 7 ==> FullName(ifs, k, suffix) == Ok(PrefixBytes(k) + suffix + [0])
    ensures k >= 7 ==> FullName(ifs, k, suffix) == Fault
  {
    hide IsLong, NameIndex, Ascii;
    NameIndexCode(k);
    PrefixesAre(if k < 7 then k else 0);
  }

  /** An entry with infix k is called by the prefix number in its first byte, its text and the suffix, and printed
      with that prefix; an infix that is not there ends a listing with ENODATA. */
  lemma LongNamed(ifs: seq<Infix>, k: nat, suffix: seq<byte>)
    requires k < 128
    ensures var there := k < |ifs| && ifs[k][0] < 7;
            && EntryId(ifs, 128 + k, suffix) == (if there then Some((ifs[k][0] as nat, ifs[k][1..] + suffix)) else None)
            && FullName(ifs, 128 + k, suffix) ==
               if k >= |ifs| then Err(ENODATA)
               else if ifs[k][0] >= 7 then Fault
               else Ok(PrefixBytes(ifs[k][0]) + ifs[k][1..] + suffix + [0])
  {
    hide IsLong, NameIndex, Ascii;
    NameIndexCode(128 + k);
    PrefixesAre(if k < |ifs| && ifs[k][0] < 7 then ifs[k][0] else 0);
  }

  // Shared entries

  /** A shared attribute is stored in units of four bytes from the attribute area on. */
  lemma SharedStored(fs: FileSystem, entryIndex: u32, e: Entry)
    requires Holds(fs.backend, 0, Shl(fs.sb.xattrBlkaddr, fs.sb.blkszbits) + 4 * entryIndex, e.Encode())
    ensures StoredAt(fs, entryIndex) == e.AsStored(fs.infixes)
  {
    hide Shl, HeaderFrom, EntryId, RawEntry.HeaderBytes;
    var pos, s := Shl(fs.sb.xattrBlkaddr, fs.sb.blkszbits) + 4 * entryIndex, e.Encode();
    HeaderRoundTrip(e);
    BodyFacts(e);
    FetchSlice(fs.backend, 0, pos, |s|, 0, 4);
    FetchSlice(fs.backend, 0, pos, |s|, 4, 4 + |e.suffix|);
    FetchSlice(fs.backend, 0, pos, |s|, 4 + |e.suffix|, 4 + |e.suffix| + |e.value|);
    assert s[4..4 + |e.suffix|] == e.suffix;
    assert s[4 + |e.suffix|..4 + |e.suffix| + |e.value|] == e.value;
  }

  // Inline entries

  /** Where the inline entries of an extended inode start, behind its header, the summary and the shared indexes,
      and how long they are. */
  function EntriesAt(fs: FileSystem, inode: Inode): nat {
    InodeAddress(fs.sb, inode.nid) + 64 + 12 + 4 * |inode.sharedIndexes|
  }

  function EntriesLen(inode: Inode): int {
    4 * (inode.info.xattrIcount - 1) - 4 * |inode.sharedIndexes|
  }

  /** A cursor at the start of the entries, with the rest of its block in the buffer. */
  function EntriesCursor(fs: FileSystem, inode: Inode): (c: Cur)
    requires EntriesLen(inode) >= 0
    ensures WfCur(fs.sb, c) && c.pos == EntriesAt(fs, inode) && c.left == EntriesLen(inode)
  {
    hide Low, ChunkLen;
    var pos, len := EntriesAt(fs, inode), EntriesLen(inode);
    Cur(pos, len, Min(len, Blksz(fs.sb) - Low(pos, fs.sb.blkszbits)))
  }

  /** An extended inode with attributes whose shared indexes fit, and whose inline entries are stored. */
  ghost predicate EntriesStored(fs: FileSystem, inode: Inode, es: seq<Entry>) {
    && inode.info.Extended? && inode.info.xattrIcount > 0
    && EntriesLen(inode) == |EncodeAll(es)|
    && Holds(fs.backend, 0, EntriesAt(fs, inode), EncodeAll(es))
  }

  lemma EntriesAreInline(fs: FileSystem, inode: Inode, es: seq<Entry>)
    requires EntriesStored(fs, inode, es)
    ensures Remaining(fs.backend, EntriesCursor(fs, inode)) == EncodeAll(es)
    ensures HasInline(inode) <==> es != []
    ensures HasInline(inode) ==> InlineCursor(fs, inode) == EntriesCursor(fs, inode)
  {
    hide Shl, EncodeAll, Low, ChunkLen;
    EncodedLen(es);
  }

  lemma EncodedLen(es: seq<Entry>)
    ensures EncodeAll(es) == [] <==> es == []
  {
  }

  /** get_xattr answers with the first match among the stored inline and then the shared entries, if before it
      the inline entries are kept in step with. */
  lemma GetStored(fs: FileSystem, inode: Inode, es: seq<Entry>, name: seq<byte>, index: nat, room: Option<nat>)
    requires EntriesStored(fs, inode, es)
    requires InStep(fs.sb, fs.infixes, EntriesCursor(fs, inode), es, name, index)
    ensures GetXattrSpec(fs, inode, name, index, room) ==
              FirstMatch(StoredAll(fs.infixes, es) + AllStored(fs, inode.sharedIndexes), name, index, room)
  {
    hide EntriesStored, EntriesCursor, InlineCursor, HasInline, InStep, Remaining, FirstMatch, AllStored, EncodeAll;
    EntriesAreInline(fs, inode, es);
    if es == [] {
      GetXattrShared(fs, inode, name, index, room);
      NoneStored(fs.infixes);
      assert [] + AllStored(fs, inode.sharedIndexes) == AllStored(fs, inode.sharedIndexes);
    } else {
      GetXattrExact(fs, inode, es, name, index, room);
    }
  }

  /** list_xattrs prints the names of the stored inline entries and then of the shared ones, if every inline value
      is skipped exactly. */
  lemma ListStored(fs: FileSystem, inode: Inode, es: seq<Entry>, room: nat)
    requires EntriesStored(fs, inode, es) && SkipsExactly(fs.sb, EntriesCursor(fs, inode), es)
    ensures PrintsWhole(ListXattrsSpec(fs, inode, room), AllNames(fs, inode, es), room)
  {
    hide EntriesStored, EntriesCursor, InlineCursor, HasInline, SkipsExactly, Remaining, EncodeAll, AllNames,
      ListXattrsSpec, PrintsWhole;
    EntriesAreInline(fs, inode, es);
    ListXattrsExact(fs, inode, es, room);
  }

  /** Without an inline region, or with shared indexes that fill it or do not fit it, only the shared entries are
      searched and listed. */
  lemma OnlyShared(fs: FileSystem, inode: Inode, name: seq<byte>, index: nat, room: Option<nat>, cap: nat)
    requires inode.info.Extended? ==> inode.info.xattrIcount == 0 || EntriesLen(inode) <= 0
    ensures GetXattrSpec(fs, inode, name, index, room) ==
              FirstMatch(AllStored(fs, inode.sharedIndexes), name, index, room)
    ensures PrintsWhole(ListXattrsSpec(fs, inode, cap), SharedNames(fs, inode.sharedIndexes), cap)
  {
    hide FirstMatch, AllStored, SharedNames, SharedList, ListXattrsSpec;
    GetXattrShared(fs, inode, name, index, room);
    ListXattrsExact(fs, inode, [], cap);
    SharedOnly(fs, inode);
  }

  lemma SharedOnly(fs: FileSystem, inode: Inode)
    ensures AllNames(fs, inode, []) == SharedNames(fs, inode.sharedIndexes)
  {
    hide SharedNames;
    assert Names(fs.infixes, []) == Ok([]);
    var shared := SharedNames(fs, inode.sharedIndexes);
    assert shared.Ok? ==> [] + shared.value == shared.value;
  }
}
