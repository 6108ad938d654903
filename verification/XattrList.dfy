/** What attribute listing prints: the full names of the inline and of the shared entries, in order. */
module XattrList {
  import opened Bits
  import opened Outcomes
  import opened Image
  import opened Superblock
  import opened Inodes
  import opened RawIters
  import opened Cursor
  import opened XattrSpec
  import opened XattrSearch

  /** The full name of an entry: prefix, infix, suffix and a NUL. */
  function FullName(ifs: seq<Infix>, nameIndex: byte, suffix: seq<byte>): Outcome<seq<byte>> {
    var prefix :- KeyPrefix(ifs, nameIndex);
    Ok(prefix + suffix + [0])
  }

  /** A printed name is the text of its prefix number followed by the name that get_xattr takes. */
  lemma FullNameIsId(ifs: seq<Infix>, nameIndex: byte, suffix: seq<byte>)
    ensures FullName(ifs, nameIndex, suffix).Ok? <==> EntryId(ifs, nameIndex, suffix).Some?
    ensures EntryId(ifs, nameIndex, suffix).Some? ==>
              var (index, name) := EntryId(ifs, nameIndex, suffix).value;
              FullName(ifs, nameIndex, suffix).value == PREFIXES[index] + name + [0]
  {
    hide And;
    var i := NameIndex(nameIndex);
    if IsLong(nameIndex) && i < |ifs| && ifs[i][0] < |PREFIXES| {
      assert PREFIXES[ifs[i][0]] + ifs[i][1..] + suffix + [0] == PREFIXES[ifs[i][0]] + (ifs[i][1..] + suffix) + [0];
    }
  }

  /** The names of stored entries, in order, or the failure of the first that has none. */
  function Names(ifs: seq<Infix>, es: seq<Entry>): Outcome<seq<byte>> {
    if es == [] then Ok([])
    else
      var name :- FullName(ifs, es[0].nameIndex, es[0].suffix);
      var rest :- Names(ifs, es[1..]);
      Ok(name + rest)
  }

  /** Every value is skipped exactly. */
  predicate SkipsExactly(sb: SuperBlock, c: Cur, es: seq<Entry>)
    requires c.left == |EncodeAll(es)|
    decreases |es|
  {
    es == [] ||
    (&& Skippable(Advance(sb, c, 4 + |es[0].suffix|), |es[0].Body()| - |es[0].suffix|)
     && SkipsExactly(sb, Advance(sb, c, 4 + |es[0].Body()|), es[1..]))
  }

  /** In one block every value is. */
  lemma {:induction false} OneBlockSkips(fs: FileSystem, c: Cur, es: seq<Entry>)
    requires OneBlock(fs.sb, c) && c.left == |EncodeAll(es)|
    ensures SkipsExactly(fs.sb, c, es)
    decreases |es|
  {
    hide ChunkLen, Low, RawEntry.HeaderBytes, Remaining;
    if es != [] {
      OneBlockAdvance(fs, c, 4 + |es[0].suffix|);
      OneBlockAdvance(fs, c, 4 + |es[0].Body()|);
      OneBlockSkips(fs, Advance(fs.sb, c, 4 + |es[0].Body()|), es[1..]);
    }
  }

  /** The cursor after skipping the value of the next entry. */
  function AfterSkip(sb: SuperBlock, c: Cur, e: Entry): Outcome<Cur>
    requires WfCur(sb, c) && c.left >= 4 + |e.Body()|
  {
    SkipCur(sb, Advance(sb, c, 4 + |e.suffix|), |e.Body()| - |e.suffix|)
  }

  /** The entry is passed if and only if its value is skipped exactly. */
  lemma SkipLeads(fs: FileSystem, c: Cur, es: seq<Entry>)
    requires WfCur(fs.sb, c) && es != [] && Remaining(fs.backend, c) == EncodeAll(es)
    ensures var next, after := Advance(fs.sb, c, 4 + |es[0].Body()|), AfterSkip(fs.sb, c, es[0]);
            && WfCur(fs.sb, next) && Remaining(fs.backend, next) == EncodeAll(es[1..])
            && (after.Ok? ==> after.value.pos + after.value.left == next.pos + next.left)
            && (after.Ok? && after.value.pos == next.pos <==>
                  Skippable(Advance(fs.sb, c, 4 + |es[0].suffix|), |es[0].Body()| - |es[0].suffix|))
  {
    hide ChunkLen, Low, Remaining, Advance, SkipCur, Skippable, RawEntry.HeaderBytes;
    var e := es[0];
    var size := 4 + |e.Body()|;
    BodyFacts(e);
    SkipExact(fs.sb, Advance(fs.sb, c, 4 + |e.suffix|), |e.Body()| - |e.suffix|);
    AdvanceDrops(fs.sb, fs.backend, c, size);
    assert EncodeAll(es)[size..] == EncodeAll(es[1..]);
  }

  /** Printing one entry and skipping its value. */
  lemma ListEntryExact(fs: FileSystem, c: Cur, es: seq<Entry>, room: nat)
    requires WfCur(fs.sb, c) && es != [] && Remaining(fs.backend, c) == EncodeAll(es)
    ensures var name, r := FullName(fs.infixes, es[0].nameIndex, es[0].suffix), ListEntry(fs, c, room);
            && (r.Ok? <==> name.Ok? && |name.value| <= room && AfterSkip(fs.sb, c, es[0]).Ok?)
            && (r.Ok? ==> r.value == (name.value, AfterSkip(fs.sb, c, es[0]).value))
  {
    hide ChunkLen, Low, KeyPrefix, HeaderFrom, Remaining, Advance, SkipCur, ListEntry;
    var e, r := es[0], Remaining(fs.backend, c);
    BodyFacts(e);
    ListEntrySteps(fs, c, room);
    HeaderRoundTrip(e);
    assert r[..4] == e.Encode()[..4];
    assert r[4..4 + |e.suffix|] == e.suffix;
    AdvanceDrops(fs.sb, fs.backend, c, 4);
    assert Remaining(fs.backend, Advance(fs.sb, c, 4))[..|e.suffix|] == e.suffix;
    AdvanceAdvance(fs.sb, c, 4, |e.suffix|);
  }

  // The run of the inline loop

  /** Where the loop reads headers, and whether it comes to the end of the region. */
  datatype Run = Run(headers: seq<nat>, finished: bool)

  function ListRun(fs: FileSystem, c: Cur, room: nat): (r: Run)
    requires WfCur(fs.sb, c)
    ensures if c.left == 0 then r == Run([], true) else r.headers != [] && r.headers[0] == c.pos
    decreases c.left
  {
    hide ListEntry;
    if c.left == 0 then Run([], true)
    else
      match ListEntry(fs, c, room)
      case Ok((key, c')) =>
        var rest := ListRun(fs, c', room - |key|);
        Run([c.pos] + rest.headers, rest.finished)
      case _ => Run([c.pos], false)
  }

  /** The addresses of the headers of stored entries. */
  function HeadersOf(es: seq<Entry>, pos: nat): (headers: seq<nat>)
    ensures if es == [] then headers == [] else headers != [] && headers[0] == pos
  {
    if es == [] then [] else [pos] + HeadersOf(es[1..], pos + 4 + |es[0].Body()|)
  }

  /** The run that comes to the end of the region is the one that prints a list. */
  lemma {:induction false} RunFinishes(fs: FileSystem, c: Cur, room: nat)
    requires WfCur(fs.sb, c)
    ensures ListRun(fs, c, room).finished <==> InlineList(fs, c, room).Ok?
    decreases c.left
  {
    hide ListEntry;
    if c.left > 0 && ListEntry(fs, c, room).Ok? {
      var (key, c') := ListEntry(fs, c, room).value;
      RunFinishes(fs, c', room - |key|);
    }
  }

  /** The loop depends on where the cursor stands, not on what its buffer holds. */
  lemma ListSame(fs: FileSystem, c: Cur, c': Cur, room: nat)
    requires WfCur(fs.sb, c) && WfCur(fs.sb, c') && c.pos == c'.pos && c.left == c'.left
    ensures ListRun(fs, c, room) == ListRun(fs, c', room) && InlineList(fs, c, room) == InlineList(fs, c', room)
  {
    hide ListEntry, WfCur;
    if c.left > 0 {
      EntrySame(fs, c, c', room);
    }
  }

  lemma EntrySame(fs: FileSystem, c: Cur, c': Cur, room: nat)
    requires WfCur(fs.sb, c) && WfCur(fs.sb, c') && c.pos == c'.pos && c.left == c'.left > 0
    ensures ListEntry(fs, c, room) == ListEntry(fs, c', room)
  {
    hide KeyCur, SkipCur, HeaderFrom, BodySize, ChunkLen, Low;
  }

  /** The inline loop of list_xattrs reads exactly the headers of the stored entries and ends with the
      region if and only if every value is skipped exactly, given that all names exist and fit. */
  lemma {:induction false} ListRunIff(fs: FileSystem, c: Cur, es: seq<Entry>, room: nat)
    requires WfCur(fs.sb, c) && Remaining(fs.backend, c) == EncodeAll(es)
    requires Names(fs.infixes, es).Ok? && |Names(fs.infixes, es).value| <= room
    ensures ListRun(fs, c, room) == Run(HeadersOf(es, c.pos), true) <==> SkipsExactly(fs.sb, c, es)
    decreases |es|
  {
    hide ListEntry, FullName, ChunkLen, Low, Advance, SkipCur, Skippable, WfCur, Remaining, InlineList,
      RawEntry.Body, RawEntry.Encode;
    if es != [] {
      SkipLeads(fs, c, es);
      ListEntryExact(fs, c, es, room);
      var next, after := Advance(fs.sb, c, 4 + |es[0].Body()|), AfterSkip(fs.sb, c, es[0]);
      var left := room - |FullName(fs.infixes, es[0].nameIndex, es[0].suffix).value|;
      ListRunIff(fs, next, es[1..], left);
      if after.Ok? {
        var rest := ListRun(fs, after.value, left);
        assert ([c.pos] + rest.headers)[1..] == rest.headers;
        assert HeadersOf(es, c.pos)[1..] == HeadersOf(es[1..], next.pos);
        if after.value.pos == next.pos {
          ListSame(fs, after.value, next, left);
        }
      }
    }
  }

  /** A list is printed in full if it has names for all its entries and fits; otherwise it fails. */
  ghost predicate PrintsWhole(printed: Outcome<seq<byte>>, names: Outcome<seq<byte>>, room: nat) {
    if names.Ok? && |names.value| <= room then printed == names else !printed.Ok?
  }

  /** The inline loop prints exactly the names of the entries, if they fit, whenever every value is
      skipped exactly; in particular for a region within one block. */
  lemma {:induction false} InlineListExact(fs: FileSystem, c: Cur, es: seq<Entry>, room: nat)
    requires WfCur(fs.sb, c) && Remaining(fs.backend, c) == EncodeAll(es) && SkipsExactly(fs.sb, c, es)
    ensures PrintsWhole(InlineList(fs, c, room), Names(fs.infixes, es), room)
    decreases |es|
  {
    hide ListEntry, FullName, ChunkLen, Low, Advance, SkipCur, Skippable, WfCur, Remaining, RawEntry.Body,
      RawEntry.Encode;
    if es != [] {
      SkipLeads(fs, c, es);
      ListEntryExact(fs, c, es, room);
      var name := FullName(fs.infixes, es[0].nameIndex, es[0].suffix);
      if name.Ok? && |name.value| <= room {
        var next := Advance(fs.sb, c, 4 + |es[0].Body()|);
        ListSame(fs, AfterSkip(fs.sb, c, es[0]).value, next, room - |name.value|);
        InlineListExact(fs, next, es[1..], room - |name.value|);
      }
    }
  }

  // Shared entries

  /** The names of the shared entries, each read in one piece. */
  function SharedNames(fs: FileSystem, indexes: seq<u32>): Outcome<seq<byte>> {
    if indexes == [] then Ok([])
    else
      var pos := BlkPos(fs.sb, fs.sb.xattrBlkaddr) + (indexes[0] as nat) * 4;
      var h := HeaderFrom(Fetch(fs.backend, 0, pos, 4));
      var name :- FullName(fs.infixes, h.nameIndex, Fetch(fs.backend, 0, pos + 4, h.suffixLen));
      var rest :- SharedNames(fs, indexes[1..]);
      Ok(name + rest)
  }

  lemma SharedKeyExact(fs: FileSystem, entryIndex: u32, room: nat)
    ensures var pos := BlkPos(fs.sb, fs.sb.xattrBlkaddr) + (entryIndex as nat) * 4;
            var h := HeaderFrom(Fetch(fs.backend, 0, pos, 4));
            var name := FullName(fs.infixes, h.nameIndex, Fetch(fs.backend, 0, pos + 4, h.suffixLen));
            var r := SharedKey(fs, entryIndex, room);
            (r.Ok? <==> name.Ok? && |name.value| <= room) && (r.Ok? ==> r.value == name.value)
  {
    hide ChunkLen, Low, KeyPrefix, HeaderFrom, Advance;
    var c := SharedCursor(fs, entryIndex);
    var h := HeaderFrom(Fetch(fs.backend, 0, c.pos, 4));
    FetchSlice(fs.backend, 0, c.pos, c.left, 0, 4);
    AdvanceDrops(fs.sb, fs.backend, c, 4);
    FetchSlice(fs.backend, 0, c.pos + 4, c.left - 4, 0, h.suffixLen);
  }

  /** The shared loop prints exactly the names of the shared entries, if they fit. */
  lemma {:induction false} SharedListExact(fs: FileSystem, indexes: seq<u32>, room: nat)
    ensures PrintsWhole(SharedList(fs, indexes, room), SharedNames(fs, indexes), room)
  {
    hide SharedKey, FullName, HeaderFrom, BlkPos;
    if indexes != [] {
      SharedKeyExact(fs, indexes[0], room);
      var pos := BlkPos(fs.sb, fs.sb.xattrBlkaddr) + (indexes[0] as nat) * 4;
      var h := HeaderFrom(Fetch(fs.backend, 0, pos, 4));
      var name := FullName(fs.infixes, h.nameIndex, Fetch(fs.backend, 0, pos + 4, h.suffixLen));
      if name.Ok? && |name.value| <= room {
        SharedListExact(fs, indexes[1..], room - |name.value|);
      }
    }
  }

  /** The names of the inline entries, then of the shared ones. */
  function AllNames(fs: FileSystem, inode: Inode, es: seq<Entry>): Outcome<seq<byte>> {
    var inlined :- Names(fs.infixes, es);
    var shared :- SharedNames(fs, inode.sharedIndexes);
    Ok(inlined + shared)
  }

  /** list_xattrs prints what was stored, in order, exactly when the whole list fits the buffer. */
  lemma ListXattrsExact(fs: FileSystem, inode: Inode, es: seq<Entry>, room: nat)
    requires if HasInline(inode) then Remaining(fs.backend, InlineCursor(fs, inode)) == EncodeAll(es)
             else es == []
    requires HasInline(inode) ==> SkipsExactly(fs.sb, InlineCursor(fs, inode), es)
    ensures PrintsWhole(ListXattrsSpec(fs, inode, room), AllNames(fs, inode, es), room)
  {
    hide Remaining, InlineList, SharedList, SharedNames, InlineCursor, SkipsExactly;
    var inlined := Names(fs.infixes, es);
    if HasInline(inode) {
      InlineListExact(fs, InlineCursor(fs, inode), es, room);
    }
    if inlined.Ok? && |inlined.value| <= room {
      SharedListExact(fs, inode.sharedIndexes, room - |inlined.value|);
    }
  }

  /** Every attribute that list_xattrs prints can be read by get_xattr, inline and shared, unless the
      inline search for it leaves the entries. */
  lemma ListedIsFound(fs: FileSystem, inode: Inode, es: seq<Entry>, k: nat, room: nat)
    requires if HasInline(inode) then Remaining(fs.backend, InlineCursor(fs, inode)) == EncodeAll(es)
             else es == []
    requires HasInline(inode) ==> SkipsExactly(fs.sb, InlineCursor(fs, inode), es)
    requires ListXattrsSpec(fs, inode, room).Ok?
    requires k < |StoredAll(fs.infixes, es) + AllStored(fs, inode.sharedIndexes)|
    ensures var id := (StoredAll(fs.infixes, es) + AllStored(fs, inode.sharedIndexes))[k].id;
            id.Some? && ((HasInline(inode) ==> FoundInStep(fs, inode, es, id.value)) ==>
                           GetXattrSpec(fs, inode, id.value.1, id.value.0, None).Ok?)
  {
    hide StoredAt, StoredAll, Names, SharedNames, ListXattrsSpec, InlineCursor, Remaining, EncodeAll, SkipsExactly,
      InStep, GetXattrSpec, FirstMatch, FullName;
    var front := StoredAll(fs.infixes, es);
    var all := front + AllStored(fs, inode.sharedIndexes);
    ListXattrsExact(fs, inode, es, room);
    if k < |front| {
      NamesHaveInlineIds(fs.infixes, es, k);
    } else {
      NamesHaveIds(fs, inode.sharedIndexes, k - |front|);
    }
    var (index, name) := all[k].id.value;
    SomeMatch(all, name, index, k);
    if HasInline(inode) {
      if InStep(fs.sb, fs.infixes, InlineCursor(fs, inode), es, name, index) {
        GetXattrExact(fs, inode, es, name, index, None);
      }
    } else {
      GetXattrShared(fs, inode, name, index, None);
      NoneStored(fs.infixes);
      assert all == AllStored(fs, inode.sharedIndexes);
    }
  }

  ghost predicate FoundInStep(fs: FileSystem, inode: Inode, es: seq<Entry>, id: (nat, seq<byte>))
    requires HasInline(inode) && Remaining(fs.backend, InlineCursor(fs, inode)) == EncodeAll(es)
  {
    InStep(fs.sb, fs.infixes, InlineCursor(fs, inode), es, id.1, id.0)
  }

  lemma NoneStored(ifs: seq<Infix>)
    ensures StoredAll(ifs, []) == []
  {
  }

  lemma {:induction false} NamesHaveInlineIds(ifs: seq<Infix>, es: seq<Entry>, k: nat)
    requires Names(ifs, es).Ok? && k < |StoredAll(ifs, es)|
    ensures StoredAll(ifs, es)[k].id.Some?
  {
    hide EntryId, FullName;
    FullNameIsId(ifs, es[0].nameIndex, es[0].suffix);
    if k > 0 {
      NamesHaveInlineIds(ifs, es[1..], k - 1);
    }
  }

  lemma {:induction false} NamesHaveIds(fs: FileSystem, indexes: seq<u32>, k: nat)
    requires SharedNames(fs, indexes).Ok? && k < |indexes|
    ensures StoredAt(fs, indexes[k]).id.Some?
  {
    var pos := BlkPos(fs.sb, fs.sb.xattrBlkaddr) + (indexes[0] as nat) * 4;
    var h := HeaderFrom(Fetch(fs.backend, 0, pos, 4));
    FullNameIsId(fs.infixes, h.nameIndex, Fetch(fs.backend, 0, pos + 4, h.suffixLen));
    if k > 0 {
      NamesHaveIds(fs, indexes[1..], k - 1);
    }
  }

  lemma {:induction false} SomeMatch(entries: seq<Stored>, name: seq<byte>, index: nat, k: nat)
    requires k < |entries| && entries[k].id == Some((index, name))
    ensures FirstMatch(entries, name, index, None).Ok?
  {
    if entries[0].id != Some((index, name)) {
      SomeMatch(entries[1..], name, index, k - 1);
    }
  }
}
