/** Extended attributes on the flat cursor: entry headers, name prefixes and infixes, and what
    searching and listing do to a flat cursor. */
module XattrSpec {
  import opened Bits
  import opened Outcomes
  import opened Image
  import opened Superblock
  import opened Inodes
  import RawIters
  import opened Cursor

  datatype EntryHeader = EntryHeader(suffixLen: byte, nameIndex: byte, valueLen: u16)

  function HeaderFrom(b: seq<byte>): EntryHeader
    requires |b| == 4
  {
    EntryHeader(b[0], b[1], U16(b[2..4]))
  }

  const LONG_PREFIX: nat := 0x80
  const LONG_MASK: nat := 0x7f

  predicate IsLong(nameIndex: byte) {
    And(nameIndex, LONG_PREFIX) != 0
  }

  function NameIndex(nameIndex: byte): nat {
    if IsLong(nameIndex) then And(nameIndex, LONG_MASK) else nameIndex
  }

  function Ascii(s: string): (b: seq<byte>)
    ensures |b| == |s|
  {
    seq<byte>(|s|, i requires 0 <= i < |s| => s[i] as int % 256)
  }

  const PREFIXES: seq<seq<byte>> := [
    [],
    Ascii("user."),
    Ascii("system.posix_acl_access"),
    Ascii("system.posix_acl_default"),
    Ascii("trusted."),
    [],
    Ascii("security.")]

  /** The bytes between one header and the next. */
  function BodySize(h: EntryHeader): (n: nat)
    ensures h.suffixLen + h.valueLen <= n < h.suffixLen + h.valueLen + 4 && n % 4 == 0
  {
    RoundUp(h.suffixLen + h.valueLen, 4)
  }

  // Identity of an entry

  /** What an entry is called: its prefix number, and its infix followed by its suffix. */
  function EntryId(ifs: seq<Infix>, nameIndex: byte, suffix: seq<byte>): Option<(nat, seq<byte>)> {
    var i := NameIndex(nameIndex);
    if IsLong(nameIndex) then
      if i < |ifs| && ifs[i][0] < |PREFIXES| then Some((ifs[i][0], ifs[i][1..] + suffix)) else None
    else
      if i < |PREFIXES| then Some((i, suffix)) else None
  }

  /** The checks made on a header before its suffix is compared: the length of the infix if they pass. */
  function Guard(ifs: seq<Infix>, h: EntryHeader, name: seq<byte>, index: nat): (r: Option<nat>)
    ensures r.Some? ==> r.value + h.suffixLen == |name|
  {
    var i := NameIndex(h.nameIndex);
    if IsLong(h.nameIndex) then
      if i >= |ifs| then None
      else
        var infix := ifs[i];
        var ilen := |infix| - 1;
        if infix[0] >= |PREFIXES| then None
        else if index != infix[0] || |name| != ilen + h.suffixLen || name[..ilen] != infix[1..] then None
        else Some(ilen)
    else
      if i >= |PREFIXES| || i != index || h.suffixLen != |name| then None else Some(0)
  }

  /** The header checks and the comparison of the suffix together decide the identity. */
  lemma GuardDecides(ifs: seq<Infix>, h: EntryHeader, suffix: seq<byte>, name: seq<byte>, index: nat)
    requires |suffix| == h.suffixLen
    ensures EntryId(ifs, h.nameIndex, suffix) == Some((index, name)) <==>
              var ilen := Guard(ifs, h, name, index); ilen.Some? && name[ilen.value..] == suffix
  {
    hide And;
    var i := NameIndex(h.nameIndex);
    if IsLong(h.nameIndex) && i < |ifs| {
      var ilen := |ifs[i]| - 1;
      assert (ifs[i][1..] + suffix)[..ilen] == ifs[i][1..] && (ifs[i][1..] + suffix)[ilen..] == suffix;
      if ilen <= |name| {
        assert name == name[..ilen] + name[ilen..];
      }
    } else {
      assert name[0..] == name;
    }
  }

  // Searching

  datatype QueryResult = Answer(value: Outcome<seq<byte>>) | Rejected(c: Cur)

  /** Querying one entry whose header has just been read. A header that fails the checks is rejected
      without passing the body of the entry. */
  function QueryCur(fs: FileSystem, c: Cur, h: EntryHeader, name: seq<byte>, index: nat,
                    room: Option<nat>): (r: QueryResult)
    requires WfCur(fs.sb, c)
    ensures r.Rejected? ==> WfCur(fs.sb, r.c) && r.c.left <= c.left
    ensures r.Answer? ==> r.value != Err(ENODATA)
  {
    match Guard(fs.infixes, h, name, index)
    case None => Rejected(c)
    case Some(ilen) =>
      var s := name[ilen..];
      match CmpOutcome(fs.sb, fs.backend, c, s)
      case CmpFault => Answer(Fault)
      case Equal =>
        CmpExact(fs.sb, fs.backend, c, s);
        var c' := Advance(fs.sb, c, |s|);
        if room.Some? && room.value < h.valueLen then Answer(Err(ERANGE))
        else if c'.left < h.valueLen then Answer(Fault)
        else Answer(Ok(Remaining(fs.backend, c')[..h.valueLen]))
      case NotEqual(k) =>
        CmpStopsAtBuffer(fs.sb, fs.backend, c, s, k);
        var c' := Advance(fs.sb, c, k);
        var skipped := SkipCur(fs.sb, c', BodySize(h) - k);
        if skipped.Ok? then Rejected(skipped.value) else Answer(Fault)
  }

  /** The steps of a query after the header checks. */
  lemma QuerySteps(fs: FileSystem, c: Cur, h: EntryHeader, name: seq<byte>, index: nat, room: Option<nat>)
    requires WfCur(fs.sb, c)
    ensures var r, ilen := QueryCur(fs, c, h, name, index, room), Guard(fs.infixes, h, name, index);
            if ilen.None? then r == Rejected(c)
            else
              var s := name[ilen.value..];
              var cmp := CmpOutcome(fs.sb, fs.backend, c, s);
              && (cmp.CmpFault? ==> r == Answer(Fault))
              && (cmp.Equal? ==>
                    |s| <= c.left &&
                    r == Answer(if room.Some? && room.value < h.valueLen then Err(ERANGE)
                                else if c.left - |s| < h.valueLen then Fault
                                else Ok(Remaining(fs.backend, Advance(fs.sb, c, |s|))[..h.valueLen])))
              && (cmp.NotEqual? ==>
                    cmp.passed <= c.left && cmp.passed <= BodySize(h) &&
                    var skipped := SkipCur(fs.sb, Advance(fs.sb, c, cmp.passed), BodySize(h) - cmp.passed);
                    r == if skipped.Ok? then Rejected(skipped.value) else Answer(Fault))
  {
    hide Remaining, Advance, Guard, CmpOutcome, SkipCur, BodySize, WfCur;
    var ilen := Guard(fs.infixes, h, name, index);
    if ilen.Some? {
      var s := name[ilen.value..];
      CmpExact(fs.sb, fs.backend, c, s);
      var cmp := CmpOutcome(fs.sb, fs.backend, c, s);
      if cmp.NotEqual? {
        CmpStopsAtBuffer(fs.sb, fs.backend, c, s, cmp.passed);
      }
    }
  }

  /** The loop over the inline entries. */
  function InlineSearch(fs: FileSystem, c: Cur, name: seq<byte>, index: nat, room: Option<nat>): Outcome<seq<byte>>
    requires WfCur(fs.sb, c)
    decreases c.left
  {
    if c.left == 0 then Err(ENODATA)
    else if c.left < 4 then Fault
    else
      match QueryCur(fs, Advance(fs.sb, c, 4), HeaderFrom(Remaining(fs.backend, c)[..4]), name, index, room)
      case Answer(value) => value
      case Rejected(c') => InlineSearch(fs, c', name, index, room)
  }

  /** A fresh cursor at an address. */
  function CursorAt(sb: SuperBlock, pos: nat, left: nat): (c: Cur)
    ensures WfCur(sb, c)
  {
    Cur(pos, left, RawIters.ChunkLen(sb, pos, left))
  }

  function SharedCursor(fs: FileSystem, sharedIndex: u32): (c: Cur)
    ensures WfCur(fs.sb, c) && c.left == U64_RANGE - 1
  {
    CursorAt(fs.sb, BlkPos(fs.sb, fs.sb.xattrBlkaddr) + (sharedIndex as nat) * 4, U64_RANGE - 1)
  }

  function QuerySharedSpec(fs: FileSystem, entryIndex: u32, name: seq<byte>, index: nat,
                           room: Option<nat>): (r: QueryResult)
    ensures r.Answer? ==> r.value != Err(ENODATA)
  {
    var c := SharedCursor(fs, entryIndex);
    QueryCur(fs, Advance(fs.sb, c, 4), HeaderFrom(Remaining(fs.backend, c)[..4]), name, index, room)
  }

  /** The loop over the shared entries, each with a cursor of its own. */
  function SharedSearch(fs: FileSystem, indexes: seq<u32>, name: seq<byte>, index: nat,
                        room: Option<nat>): Outcome<seq<byte>> {
    if indexes == [] then Err(ENODATA)
    else
      match QuerySharedSpec(fs, indexes[0], name, index, room)
      case Answer(value) => value
      case Rejected(_) => SharedSearch(fs, indexes[1..], name, index, room)
  }

  /** The size of the summary and the shared indexes in front of the inline entries. */
  function InlineHeaderSize(inode: Inode): nat {
    12 + 4 * |inode.sharedIndexes|
  }

  predicate HasInline(inode: Inode) {
    InlineHeaderSize(inode) < inode.info.XattrSize()
  }

  function InlineCursor(fs: FileSystem, inode: Inode): (c: Cur)
    requires HasInline(inode)
    ensures WfCur(fs.sb, c)
  {
    CursorAt(fs.sb, Iloc(fs.sb, inode.nid) + inode.info.InodeSize() + InlineHeaderSize(inode),
             inode.info.XattrSize() - InlineHeaderSize(inode))
  }

  function GetXattrSpec(fs: FileSystem, inode: Inode, name: seq<byte>, index: nat,
                        room: Option<nat>): Outcome<seq<byte>> {
    var inlined := if HasInline(inode) then InlineSearch(fs, InlineCursor(fs, inode), name, index, room)
                   else Err(ENODATA);
    if inlined == Err(ENODATA) then SharedSearch(fs, inode.sharedIndexes, name, index, room) else inlined
  }

  // Listing

  /** The prefix and infix of a printed name. */
  function KeyPrefix(ifs: seq<Infix>, nameIndex: byte): Outcome<seq<byte>> {
    var i := NameIndex(nameIndex);
    if IsLong(nameIndex) then
      if i >= |ifs| then Err(ENODATA)
      else if ifs[i][0] >= |PREFIXES| then Fault
      else Ok(PREFIXES[ifs[i][0]] + ifs[i][1..])
    else
      if i >= |PREFIXES| then Fault else Ok(PREFIXES[i])
  }

  /** Printing the name of an entry whose header has just been read, into `room` bytes. */
  function KeyCur(fs: FileSystem, c: Cur, h: EntryHeader, room: nat): (r: Outcome<seq<byte>>)
    ensures r.Ok? ==> |r.value| <= room && h.suffixLen <= c.left
  {
    var prefix :- KeyPrefix(fs.infixes, h.nameIndex);
    if room < |prefix| + h.suffixLen + 1 || c.left < h.suffixLen then Fault
    else Ok(prefix + Remaining(fs.backend, c)[..h.suffixLen] + [0])
  }

  /** Printing the next inline entry and skipping its value: the name, and where that leaves the cursor. */
  function ListEntry(fs: FileSystem, c: Cur, room: nat): (r: Outcome<(seq<byte>, Cur)>)
    requires WfCur(fs.sb, c)
    ensures r.Ok? ==> |r.value.0| <= room && r.value.1.left < c.left && WfCur(fs.sb, r.value.1)
  {
    if c.left < 4 then Fault
    else
      var h := HeaderFrom(Remaining(fs.backend, c)[..4]);
      var c1 := Advance(fs.sb, c, 4);
      var key :- KeyCur(fs, c1, h, room);
      var c2 := Advance(fs.sb, c1, h.suffixLen);
      var c3 :- SkipCur(fs.sb, c2, BodySize(h) - h.suffixLen);
      Ok((key, c3))
  }

  /** The steps of printing an inline entry, and which failure is reported. */
  lemma ListEntrySteps(fs: FileSystem, c: Cur, room: nat)
    requires WfCur(fs.sb, c)
    ensures c.left < 4 ==> ListEntry(fs, c, room) == Fault
    ensures c.left >= 4 ==>
              var h, c1 := HeaderFrom(Remaining(fs.backend, c)[..4]), Advance(fs.sb, c, 4);
              var key := KeyCur(fs, c1, h, room);
              if !key.Ok? then ListEntry(fs, c, room) == key.PropagateFailure()
              else
                var skipped := SkipCur(fs.sb, Advance(fs.sb, c1, h.suffixLen), BodySize(h) - h.suffixLen);
                ListEntry(fs, c, room) == if skipped.Ok? then Ok((key.value, skipped.value)) else Fault
  {
    hide Remaining, Advance, KeyCur, SkipCur, HeaderFrom, BodySize, WfCur;
  }

  /** The loop over the inline entries. */
  function InlineList(fs: FileSystem, c: Cur, room: nat): (r: Outcome<seq<byte>>)
    requires WfCur(fs.sb, c)
    ensures r.Ok? ==> |r.value| <= room
    decreases c.left
  {
    if c.left == 0 then Ok([])
    else
      var (key, c') :- ListEntry(fs, c, room);
      var rest :- InlineList(fs, c', room - |key|);
      Ok(key + rest)
  }

  function SharedKey(fs: FileSystem, entryIndex: u32, room: nat): (r: Outcome<seq<byte>>)
    ensures r.Ok? ==> |r.value| <= room
  {
    var c := SharedCursor(fs, entryIndex);
    KeyCur(fs, Advance(fs.sb, c, 4), HeaderFrom(Remaining(fs.backend, c)[..4]), room)
  }

  function SharedList(fs: FileSystem, indexes: seq<u32>, room: nat): (r: Outcome<seq<byte>>)
    ensures r.Ok? ==> |r.value| <= room
  {
    if indexes == [] then Ok([])
    else
      var key :- SharedKey(fs, indexes[0], room);
      var rest :- SharedList(fs, indexes[1..], room - |key|);
      Ok(key + rest)
  }

  function ListXattrsSpec(fs: FileSystem, inode: Inode, room: nat): (r: Outcome<seq<byte>>)
    ensures r.Ok? ==> |r.value| <= room
  {
    var inlined :- if HasInline(inode) then InlineList(fs, InlineCursor(fs, inode), room) else Ok([]);
    var shared :- SharedList(fs, inode.sharedIndexes, room - |inlined|);
    Ok(inlined + shared)
  }

  // The shared index table

  /** The little-endian 32-bit words of a byte string; a rest of fewer than four bytes is dropped. */
  function WordsOf(bytes: seq<byte>): (w: seq<u32>)
    ensures |w| == |bytes| / 4
  {
    if |bytes| < 4 then [] else [U32(bytes[..4])] + WordsOf(bytes[4..])
  }

  /** Decoding words piece by piece is decoding them at once when the pieces hold whole words. */
  lemma {:induction false} WordsAppend(a: seq<byte>, b: seq<byte>)
    requires |a| % 4 == 0
    ensures WordsOf(a + b) == WordsOf(a) + WordsOf(b)
  {
    if a == [] {
      assert a + b == b;
    } else {
      WordsAppend(a[4..], b);
      assert (a + b)[..4] == a[..4] && (a + b)[4..] == a[4..] + b;
    }
  }

  datatype SharedEntries = SharedEntries(nameFilter: u32, indexes: seq<u32>)

  /** The length of the table in bytes: the count is shifted in eight bits. */
  function SharedTableSize(sharedCount: byte): nat {
    Shl(sharedCount, 2) % 256
  }

  lemma TableSize(sharedCount: byte)
    ensures SharedTableSize(sharedCount) == 4 * (sharedCount % 64)
    ensures SharedTableSize(sharedCount) % 4 == 0
  {
    assert Shl(sharedCount, 2) == 2 * Shl(sharedCount, 1) && Shl(sharedCount, 1) == 2 * sharedCount;
    var q, r := sharedCount / 64, sharedCount % 64;
    DivModUnique(4 * sharedCount, 256, q, 4 * r);
  }

  function SharedEntriesAt(fs: FileSystem, nid: u64, info: InodeInfo): SharedEntries {
    if info.XattrSize() == 0 then SharedEntries(0, [])
    else
      var offset := Iloc(fs.sb, nid) + info.InodeSize();
      var summary := Fetch(fs.backend, 0, offset, 12);
      SharedEntries(U32(summary[0..4]), WordsOf(Fetch(fs.backend, 0, offset + 12, SharedTableSize(summary[4]))))
  }

  /** A compact inode, and one without attributes, has no table: nothing is read. */
  lemma NoTable(fs: FileSystem, nid: u64, info: InodeInfo)
    requires info.Compact? || info.xattrIcount == 0
    ensures SharedEntriesAt(fs, nid, info) == SharedEntries(0, [])
  {
  }

  /** The table is read whole only while it has fewer than 64 entries: the count is taken modulo 64. */
  lemma SharedCountModulo64(fs: FileSystem, nid: u64, info: InodeInfo)
    requires info.XattrSize() != 0
    ensures var offset := Iloc(fs.sb, nid) + info.InodeSize();
            var count := Fetch(fs.backend, 0, offset, 12)[4];
            var indexes := SharedEntriesAt(fs, nid, info).indexes;
            && SharedEntriesAt(fs, nid, info).nameFilter == U32(Fetch(fs.backend, 0, offset, 4))
            && |indexes| == count % 64
            && (|indexes| == count <==> count < 64)
            && forall k :: 0 <= k < |indexes| ==> indexes[k] == U32(Fetch(fs.backend, 0, offset + 12 + 4 * k, 4))
  {
    var offset := Iloc(fs.sb, nid) + info.InodeSize();
    var count := Fetch(fs.backend, 0, offset, 12)[4];
    assert Fetch(fs.backend, 0, offset, 12)[0..4] == Fetch(fs.backend, 0, offset, 4);
    TableSize(count);
    var table := Fetch(fs.backend, 0, offset + 12, SharedTableSize(count));
    forall k | 0 <= k < |WordsOf(table)|
      ensures WordsOf(table)[k] == U32(Fetch(fs.backend, 0, offset + 12 + 4 * k, 4))
    {
      WordAt(table, k);
      assert table[4 * k..4 * k + 4] == Fetch(fs.backend, 0, offset + 12 + 4 * k, 4);
    }
  }

  lemma {:induction false} WordAt(bytes: seq<byte>, k: nat)
    requires 4 * k + 4 <= |bytes|
    ensures WordsOf(bytes)[k] == U32(bytes[4 * k..4 * k + 4])
  {
    if k > 0 {
      WordAt(bytes[4..], k - 1);
      var j := 4 * k - 4;
      assert bytes[4..][j..j + 4] == bytes[j + 4..j + 8];
    }
  }

  lemma BufferOfWords(bs: nat, offset: nat, low: nat, len: nat, a: nat, b: nat, c: nat, d: nat)
    requires bs == 512 * c && low + 512 * b == offset == 4 * a && len == 4 * d && low < bs
    ensures Min(len, bs - low) % 4 == 0
  {
    assert bs - low == 4 * (128 * c - a + 128 * b);
  }

  lemma AddWords(offset: nat, len: nat, n: nat)
    requires offset % 4 == 0 && len % 4 == 0 && n % 4 == 0 && n <= len
    ensures (offset + n) % 4 == 0 && (len - n) % 4 == 0
  {
  }

  /** Buffers of a range that starts and ends at multiples of four hold whole words. */
  lemma WholeWords(sb: SuperBlock, be: Backend, offset: nat, len: nat)
    requires offset % 4 == 0 && len % 4 == 0
    ensures var n := RawIters.ChunkLen(sb, offset, len);
            && n % 4 == 0 && (offset + n) % 4 == 0 && (len - n) % 4 == 0
            && WordsOf(Fetch(be, 0, offset, len)) ==
               WordsOf(Fetch(be, 0, offset, n)) + WordsOf(Fetch(be, 0, offset + n, len - n))
  {
    hide Low, Shl, Shr, Pow2, WordsOf;
    var n := RawIters.ChunkLen(sb, offset, len);
    Cut(offset, sb.blkszbits);
    ShlMultiple(Shr(offset, sb.blkszbits), sb.blkszbits);
    var start, bs := Shl(Shr(offset, sb.blkszbits), sb.blkszbits), Blksz(sb);
    assert start == 512 * (start / 512) && bs == 512 * (bs / 512);
    assert offset == 4 * (offset / 4) && len == 4 * (len / 4);
    BufferOfWords(bs, offset, Low(offset, sb.blkszbits), len, offset / 4, start / 512, bs / 512, len / 4);
    AddWords(offset, len, n);
    FetchSplit(be, 0, offset, n, len - n);
    WordsAppend(Fetch(be, 0, offset, n), Fetch(be, 0, offset + n, len - n));
  }
}
