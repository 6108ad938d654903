/** Concrete attribute regions on which searching and listing go astray. */
module XattrAstray {
  import opened Bits
  import opened Outcomes
  import Image
  import opened Superblock
  import opened Inodes
  import opened RawIters
  import opened Cursor
  import opened XattrSpec
  import opened XattrSearch
  import opened XattrList

  // Searching

  /** An attribute `user.abcd` whose value is the word 00 02 00 00 makes the inline loop find an empty
      `system.posix_acl_access` that is not there. */
  lemma ImpostorFound(fs: FileSystem, c: Cur)
    requires OneBlock(fs.sb, c)
    requires Remaining(fs.backend, c) == EncodeAll([RawEntry(1, [97, 98, 99, 100], [0, 2, 0, 0], [])])
    ensures InlineSearch(fs, c, [], 2, None) == Ok([])
    ensures FirstMatch(StoredAll(fs.infixes, [RawEntry(1, [97, 98, 99, 100], [0, 2, 0, 0], [])]), [], 2, None) ==
              Err(ENODATA)
  {
    hide Remaining, ChunkLen, Low, InlineSearch, Advance, HeaderFrom, Guard;
    var e := RawEntry(1, [97, 98, 99, 100], [0, 2, 0, 0], []);
    assert e.Body() == [97, 98, 99, 100, 0, 2, 0, 0];
    assert EncodeAll([e]) == e.Encode();
    ShortName(1);
    HeaderRoundTrip(e);
    var c1, c2, c3 := Advance(fs.sb, c, 4), Advance(fs.sb, c, 8), Advance(fs.sb, c, 12);
    OneBlockAdvance(fs, c, 4);
    OneBlockAdvance(fs, c, 8);
    OneBlockAdvance(fs, c, 12);
    assert Remaining(fs.backend, c)[..4] == e.HeaderBytes();
    assert Remaining(fs.backend, c1)[..4] == [97, 98, 99, 100];
    assert Remaining(fs.backend, c2)[..4] == [0, 2, 0, 0];
    OneBlockAdvance(fs, c1, 4);
    OneBlockAdvance(fs, c2, 4);
    ImpostorGuards(fs.infixes, e);
    QueryFound(fs, c3, EntryHeader(0, 2, 0), [], 2, None);
    SearchStep(fs, c, [], 2, None, Rejected(c1));
    SearchStep(fs, c1, [], 2, None, Rejected(c2));
    SearchStep(fs, c2, [], 2, None, Answer(Ok([])));
  }

  /** The value of `user.aaaa` crosses a block end and ends in the word 04 01 00 00. Twelve bytes before the
      block end, the search for `user.bbbb`, stored right behind it, lands on that word and misses it. */
  lemma SkipMisses(fs: FileSystem, c: Cur)
    requires Straddles(fs, c)
    ensures Misses(fs, c, [Crossing(), Missed()], Missed().suffix)
  {
    hide Remaining, Low, TraceSearch, ExpectedTrace, InStep, InlineSearch, FirstMatch, StoredAll, EncodeAll, QueryCur,
      Crossing, Missed, CrossingBytes, ChunkLen, RawEntry.Encode, RawEntry.Wf, RawEntry.Body;
    CrossingEncoded();
    MissedStored(fs.infixes);
    SearchLands(fs, c);
    SearchAstray(fs, c);
    InlineSearchIff(fs, c, [Crossing(), Missed()], Missed().suffix, 1, None);
  }

  /** The entries are stored, user.`name` is one of them, and the inline loop, out of step with them, misses it. */
  ghost predicate Misses(fs: FileSystem, c: Cur, es: seq<Entry>, name: seq<byte>) {
    && WfCur(fs.sb, c) && Remaining(fs.backend, c) == EncodeAll(es)
    && InlineSearch(fs, c, name, 1, None) == Err(ENODATA)
    && FirstMatch(StoredAll(fs.infixes, es), name, 1, None) == Ok([])
    && !InStep(fs.sb, fs.infixes, c, es, name, 1)
  }

  /** Twelve bytes before a block end. */
  predicate BeforeEnd(sb: SuperBlock, c: Cur) {
    WfCur(sb, c) && Low(c.pos, sb.blkszbits) == Blksz(sb) - 12
  }

  ghost predicate Straddles(fs: FileSystem, c: Cur) {
    && BeforeEnd(fs.sb, c) && c.left == 28
    && Remaining(fs.backend, c) == CrossingBytes()
  }

  function CrossingBytes(): (s: seq<byte>)
    ensures |s| == 28
    ensures s[..4] == [4, 1, 12, 0] && s[4..8] == [97, 97, 97, 97]
    ensures s[16..20] == [4, 1, 0, 0] && s[20..24] == [4, 1, 0, 0] && s[24..28] == [98, 98, 98, 98]
  {
    [4, 1, 12, 0] + [97, 97, 97, 97] + [9, 9, 9, 9, 9, 9, 9, 9] + [4, 1, 0, 0] + [4, 1, 0, 0] + [98, 98, 98, 98]
  }

  function Crossing(): (e: Entry)
    ensures e.nameIndex == 1 && e.suffix == [97, 97, 97, 97]
  {
    hide BodySize;
    RawEntry(1, [97, 97, 97, 97], [9, 9, 9, 9, 9, 9, 9, 9, 4, 1, 0, 0], [])
  }

  function Missed(): (e: Entry)
    ensures e.nameIndex == 1 && e.suffix == [98, 98, 98, 98] && e.value == []
  {
    hide BodySize;
    RawEntry(1, [98, 98, 98, 98], [], [])
  }

  lemma CrossingBytesAre()
    ensures Crossing().Encode() == [4, 1, 12, 0] + [97, 97, 97, 97] + [9, 9, 9, 9, 9, 9, 9, 9] + [4, 1, 0, 0]
  {
    hide ToLE, RawEntry.Wf, RawEntry.HeaderBytes;
    ShortValue(Crossing());
    assert Crossing().Body() == [97, 97, 97, 97] + [9, 9, 9, 9, 9, 9, 9, 9] + [4, 1, 0, 0];
  }

  lemma MissedBytesAre()
    ensures Missed().Encode() == [4, 1, 0, 0] + [98, 98, 98, 98]
  {
    hide ToLE, RawEntry.Wf, RawEntry.HeaderBytes;
    ShortValue(Missed());
    assert Missed().Body() == [98, 98, 98, 98];
  }

  /** The header of an entry whose value is shorter than 256 bytes. */
  lemma ShortValue(e: Entry)
    requires |e.value| < 256
    ensures e.HeaderBytes() == [|e.suffix|, e.nameIndex, |e.value|, 0]
  {
    ShortWord(|e.value|);
  }

  lemma ShortWord(v: byte)
    ensures ToLE(v, 2) == [v, 0]
  {
    assert ToLE(v / 256, 1) == [0];
  }

  lemma CrossingEncoded()
    ensures EncodeAll([Crossing(), Missed()]) == CrossingBytes()
  {
    hide Crossing, Missed, RawEntry.Encode, RawEntry.Wf;
    CrossingBytesAre();
    MissedBytesAre();
    assert EncodeAll([Missed()]) == Missed().Encode() + [];
    assert [Crossing(), Missed()][1..] == [Missed()];
  }

  lemma MissedStored(ifs: seq<Infix>)
    ensures FirstMatch(StoredAll(ifs, [Crossing(), Missed()]), Missed().suffix, 1, None) == Ok([])
  {
    hide EntryId, Crossing, Missed, RawEntry.Encode, RawEntry.Wf;
    ShortId(ifs, Crossing().suffix);
    ShortId(ifs, Missed().suffix);
    assert [Crossing(), Missed()][1..] == [Missed()];
    assert StoredAll(ifs, [Missed()]) == [Missed().AsStored(ifs)];
    assert Crossing().suffix[0] != Missed().suffix[0];
  }

  lemma ShortId(ifs: seq<Infix>, suffix: seq<byte>)
    ensures EntryId(ifs, 1, suffix) == Some((1, suffix))
  {
    hide And, Ascii, IsLong;
    ShortName(1);
    assert NameIndex(1) == 1 < |PREFIXES|;
  }

  lemma SearchStep(fs: FileSystem, c: Cur, name: seq<byte>, index: nat, room: Option<nat>, r: QueryResult)
    requires WfCur(fs.sb, c) && c.left >= 4
    requires r == QueryCur(fs, Advance(fs.sb, c, 4), HeaderFrom(Remaining(fs.backend, c)[..4]), name, index, room)
    ensures InlineSearch(fs, c, name, index, room) ==
              if r.Answer? then r.value else InlineSearch(fs, r.c, name, index, room)
  {
    hide QueryCur, HeaderFrom, Remaining, Advance;
  }

  lemma TwelveLeft(sb: SuperBlock, c: Cur)
    requires BeforeEnd(sb, c) && c.left >= 12
    ensures c.dlen == 12
  {
    hide Low, ChunkLen;
  }

  lemma FirstDiffers(a: seq<byte>, b: seq<byte>)
    requires a != [] && b != [] && a[0] != b[0]
    ensures Common(a, b) == 0
  {
  }

  /** The comparison stops with eight bytes of the block left, four of them of the body. */
  lemma LandsCmp(fs: FileSystem, c: Cur)
    requires Straddles(fs, c)
    ensures var c1 := Advance(fs.sb, c, 4);
            WfCur(fs.sb, c1) && c1.dlen == 8 && CmpOutcome(fs.sb, fs.backend, c1, Missed().suffix) == NotEqual(4)
  {
    hide Crossing, Missed, RawEntry.Encode, RawEntry.Wf, Remaining, Low, ChunkLen, Advance, CmpOutcome,
      CrossingBytes, Common;
    var name, c1 := Missed().suffix, Advance(fs.sb, c, 4);
    TwelveLeft(fs.sb, c);
    FirstDiffers([97, 97, 97, 97], name);
    AdvanceDrops(fs.sb, fs.backend, c, 4);
    WithinBlock(c.pos, fs.sb.blkszbits, 4);
    assert Remaining(fs.backend, c1)[..4] == CrossingBytes()[4..8];
    CmpWithSuffix(fs, c1, [97, 97, 97, 97], name);
  }

  /** The search goes on from another place. */
  ghost predicate Lands(fs: FileSystem, c: Cur, c': Cur, name: seq<byte>) {
    && WfCur(fs.sb, c) && WfCur(fs.sb, c')
    && InlineSearch(fs, c, name, 1, None) == InlineSearch(fs, c', name, 1, None)
  }

  /** The first step skips twice what is left of the block, and lands inside the value. */
  lemma SearchLands(fs: FileSystem, c: Cur)
    requires Straddles(fs, c)
    ensures Lands(fs, c, CursorAt(fs.sb, c.pos + 16, 12), Missed().suffix)
  {
    hide Crossing, Missed, RawEntry.Encode, RawEntry.Wf, Remaining, Low, ChunkLen, Guard, HeaderFrom, InlineSearch,
      CmpOutcome, CrossingBytes, QueryCur, SkipCur, BodySize, Advance, CursorAt;
    var name, c1 := Missed().suffix, Advance(fs.sb, c, 4);
    HeaderIs(CrossingBytes()[..4]);
    GuardShort(fs.infixes, EntryHeader(4, 1, 12));
    LandsCmp(fs, c);
    assert name[0..] == name;
    QuerySteps(fs, c1, EntryHeader(4, 1, 12), name, 1, None);
    AdvanceAdvance(fs.sb, c, 4, 4);
    SkipOverEnd(fs.sb, c);
    SearchStep(fs, c, name, 1, None, Rejected(CursorAt(fs.sb, c.pos + 16, 12)));
  }

  /** What is left where the skip lands, and it is in one block. */
  lemma AstrayBytes(fs: FileSystem, c: Cur)
    requires Straddles(fs, c)
    ensures var c1 := CursorAt(fs.sb, c.pos + 16, 12);
            && OneBlock(fs.sb, c1) && c1.left == 12 && Remaining(fs.backend, c1)[..4] == [4, 1, 0, 0]
            && Remaining(fs.backend, c1)[4..8] == [4, 1, 0, 0] && Remaining(fs.backend, c1)[8..12] == [98, 98, 98, 98]
  {
    hide Remaining, Low, CrossingBytes;
    var c1 := CursorAt(fs.sb, c.pos + 16, 12);
    ToNextBlock(c.pos, fs.sb.blkszbits);
    WithinBlock(c.pos + 12, fs.sb.blkszbits, 4);
    SameBytes(fs.backend, c1, c, 16);
    var r := Remaining(fs.backend, c1);
    assert r == CrossingBytes()[16..];
    assert r[..4] == CrossingBytes()[16..20] && r[4..8] == CrossingBytes()[20..24];
    assert r[8..12] == CrossingBytes()[24..28];
  }

  /** From there the loop reads the last word of the value as a header, compares the header of the next
      entry with the name, and takes the suffix of that entry for a header. */
  lemma SearchAstray(fs: FileSystem, c: Cur)
    requires Straddles(fs, c)
    ensures InlineSearch(fs, CursorAt(fs.sb, c.pos + 16, 12), Missed().suffix, 1, None) == Err(ENODATA)
  {
    hide Crossing, Missed, RawEntry.Encode, RawEntry.Wf, Remaining, Low, ChunkLen, Guard, HeaderFrom, InlineSearch,
      CmpOutcome, CrossingBytes, Advance, CursorAt;
    var name, c1 := Missed().suffix, CursorAt(fs.sb, c.pos + 16, 12);
    AstrayBytes(fs, c);
    OneBlockAdvance(fs, c1, 4);
    OneBlockAdvance(fs, c1, 8);
    var c2, c3, r := Advance(fs.sb, c1, 4), Advance(fs.sb, c1, 8), Remaining(fs.backend, c1);
    OneBlockAdvance(fs, c2, 4);
    OneBlockAdvance(fs, c3, 4);
    assert r[4..][..4] == r[4..8] && r[8..][..4] == r[8..12];
    CmpWithSuffix(fs, c2, [4, 1, 0, 0], name);
    OneBlockCmp(fs, c2, name);
    HeaderIs(r[..4]);
    GuardShort(fs.infixes, EntryHeader(4, 1, 0));
    HeaderStarts(r[8..12]);
    assert Guard(fs.infixes, HeaderFrom(r[8..12]), name, 1).None?;
    assert name[0..] == name;
    SearchStep(fs, c1, name, 1, None, Rejected(c3));
    SearchStep(fs, c3, name, 1, None, Rejected(Advance(fs.sb, c3, 4)));
    SearchEmpty(fs, Advance(fs.sb, c3, 4), name, 1, None);
  }

  lemma SearchEmpty(fs: FileSystem, c: Cur, name: seq<byte>, index: nat, room: Option<nat>)
    requires WfCur(fs.sb, c) && c.left == 0
    ensures InlineSearch(fs, c, name, index, room) == Err(ENODATA)
  {
  }

  lemma SameBytes(be: Image.Backend, c: Cur, c': Cur, n: nat)
    requires n <= c'.left && c.pos == c'.pos + n && c.left == c'.left - n
    ensures Remaining(be, c) == Remaining(be, c')[n..]
  {
    Image.FetchSlice(be, 0, c'.pos, c'.left, n, c'.left);
  }

  lemma GuardShort(ifs: seq<Infix>, h: EntryHeader)
    requires h.suffixLen == 4 && h.nameIndex == 1
    ensures Guard(ifs, h, Missed().suffix, 1) == Some(0)
  {
    hide And, Ascii, IsLong;
    ShortName(1);
    assert NameIndex(1) == 1 < |PREFIXES|;
  }

  lemma HeaderStarts(b: seq<byte>)
    requires |b| == 4
    ensures HeaderFrom(b).suffixLen == b[0] && HeaderFrom(b).nameIndex == b[1]
  {
  }

  lemma HeaderIs(b: seq<byte>)
    requires |b| == 4 && b[3] == 0
    ensures HeaderFrom(b) == EntryHeader(b[0], b[1], b[2])
  {
    assert b[2..4][1..] == [0] && [0][1..] == [];
    assert LE([0]) == 0;
  }

  lemma ImpostorGuards(infixes: seq<Infix>, e: RawEntry)
    requires e == RawEntry(1, [97, 98, 99, 100], [0, 2, 0, 0], [])
    ensures Guard(infixes, e.Header(), [], 2) == None
    ensures Guard(infixes, HeaderFrom([97, 98, 99, 100]), [], 2) == None
    ensures HeaderFrom([0, 2, 0, 0]) == EntryHeader(0, 2, 0)
    ensures Guard(infixes, EntryHeader(0, 2, 0), [], 2) == Some(0)
  {
    ShortName(1);
    ShortName(2);
    ShortName(98);
  }

  /** Name indexes below 128 are not long. */
  lemma ShortName(i: byte)
    requires i < 128
    ensures !IsLong(i)
  {
    assert Pow2(7) == 128;
    AndAbove(i, 7);
  }

  // Listing

  /** The value of this entry crosses a block end and ends in the word 00 01 00 00. */
  function Phantom(): Entry {
    RawEntry(1, [97, 97, 97, 97], [9, 9, 9, 9, 9, 9, 9, 9, 0, 1, 0, 0], [])
  }

  /** Twelve bytes before a block end, listing `user.aaaa` also lists an attribute `user.` that is not
      there: the skip lands on the last word of the value. */
  lemma PhantomListed(fs: FileSystem, c: Cur, room: nat)
    requires BeforeEnd(fs.sb, c) && Remaining(fs.backend, c) == EncodeAll([Phantom()]) && room >= 16
    ensures Names(fs.infixes, [Phantom()]) == FullName(fs.infixes, 1, Phantom().suffix)
    ensures InlineList(fs, c, room) ==
              Ok(FullName(fs.infixes, 1, Phantom().suffix).value + FullName(fs.infixes, 1, []).value)
    ensures !SkipsExactly(fs.sb, c, [Phantom()])
  {
    hide Remaining, Low, ChunkLen, ListEntry, Advance, SkipCur, InlineList;
    var e, c1 := Phantom(), CursorAt(fs.sb, c.pos + 16, 4);
    assert [e][1..] == [];
    assert EncodeAll([e]) == e.Encode() + [];
    UserNames(fs.infixes);
    SkipOverEnd(fs.sb, c);
    ListEntryExact(fs, c, [e], room);
    PhantomEntry(fs, c, room - 10);
    var c2 := Advance(fs.sb, c1, 4);
    var first, second := FullName(fs.infixes, 1, e.suffix).value, FullName(fs.infixes, 1, []).value;
    ListStep(fs, c, room, first, c1);
    ListStep(fs, c1, room - 10, second, c2);
    ListEnd(fs, c2, room - 16);
    assert first + (second + []) == first + second;
  }

  lemma UserNames(ifs: seq<Infix>)
    ensures FullName(ifs, 1, Phantom().suffix).Ok? && |FullName(ifs, 1, Phantom().suffix).value| == 10
    ensures FullName(ifs, 1, []).Ok? && |FullName(ifs, 1, []).value| == 6
    ensures KeyPrefix(ifs, 1).Ok? && |KeyPrefix(ifs, 1).value| == 5
    ensures Names(ifs, [Phantom()]) == FullName(ifs, 1, Phantom().suffix)
  {
    hide And, Ascii, IsLong;
    ShortName(1);
    assert NameIndex(1) == 1 < |PREFIXES|;
    assert [Phantom()][1..] == [] && Names(ifs, []) == Ok([]);
    assert PREFIXES[1] + Phantom().suffix + [0] + [] == PREFIXES[1] + Phantom().suffix + [0];
  }

  /** Skipping twelve bytes with four left in the block drops eight. */
  lemma SkipOverEnd(sb: SuperBlock, c: Cur)
    requires BeforeEnd(sb, c) && c.left > 16
    ensures Advance(sb, c, 8).dlen == 4
    ensures SkipCur(sb, Advance(sb, c, 8), 12) == Ok(CursorAt(sb, c.pos + 16, c.left - 16))
  {
    hide Low, ChunkLen, Advance;
    TwelveLeft(sb, c);
    WithinBlock(c.pos, sb.blkszbits, 8);
  }

  /** The word where the skip lands is listed as an entry without suffix and value. */
  lemma PhantomEntry(fs: FileSystem, c: Cur, room: nat)
    requires BeforeEnd(fs.sb, c) && Remaining(fs.backend, c) == EncodeAll([Phantom()]) && room >= 6
    ensures var c1 := CursorAt(fs.sb, c.pos + 16, 4);
            c.left == 20 && ListEntry(fs, c1, room) == Ok((FullName(fs.infixes, 1, []).value, Advance(fs.sb, c1, 4)))
  {
    hide Remaining, Low, ChunkLen, Advance, HeaderFrom, KeyPrefix;
    var c1 := CursorAt(fs.sb, c.pos + 16, 4);
    UserNames(fs.infixes);
    SameBytes(fs.backend, c1, c, 16);
    assert EncodeAll([Phantom()]) == Phantom().Encode() + [];
    assert Phantom().Encode()[16..] == Phantom().Body()[12..] == [0, 1, 0, 0];
    var b := Remaining(fs.backend, c1);
    assert b[..4] == [0, 1, 0, 0];
    HeaderIs(b[..4]);
  }

  lemma ListStep(fs: FileSystem, c: Cur, room: nat, key: seq<byte>, c': Cur)
    requires WfCur(fs.sb, c) && c.left > 0 && ListEntry(fs, c, room) == Ok((key, c'))
    ensures InlineList(fs, c, room) ==
              var rest := InlineList(fs, c', room - |key|);
              if rest.Ok? then Ok(key + rest.value) else rest
  {
    hide ListEntry;
  }

  lemma ListEnd(fs: FileSystem, c: Cur, room: nat)
    requires WfCur(fs.sb, c) && c.left == 0
    ensures InlineList(fs, c, room) == Ok([])
  {
  }
}
