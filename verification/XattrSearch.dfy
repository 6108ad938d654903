/** What attribute search finds. Shared entries are searched exactly. The inline loop does not pass
    the body of an entry whose header fails the checks, so it reads every word of that body as a
    header, and its skip past an entry that passes them may land elsewhere. It is exact if and only if
    none of those words passes, and every skip is exact. */
module XattrSearch {
  import opened Bits
  import opened Outcomes
  import opened Image
  import opened Superblock
  import opened Inodes
  import opened RawIters
  import opened Cursor
  import opened XattrSpec

  /** An attribute as stored: its identity, if it has one, and its value. */
  datatype Stored = Stored(id: Option<(nat, seq<byte>)>, value: seq<byte>)

  /** The value of the first attribute with the given identity. */
  function FirstMatch(entries: seq<Stored>, name: seq<byte>, index: nat, room: Option<nat>): Outcome<seq<byte>> {
    if entries == [] then Err(ENODATA)
    else if entries[0].id == Some((index, name)) then
      if room.Some? && room.value < |entries[0].value| then Err(ERANGE) else Ok(entries[0].value)
    else FirstMatch(entries[1..], name, index, room)
  }

  lemma {:induction false} FirstMatchIs(entries: seq<Stored>, name: seq<byte>, index: nat, room: Option<nat>)
    ensures FirstMatch(entries, name, index, room) == Err(ENODATA) <==>
              forall e :: e in entries ==> e.id != Some((index, name))
    ensures forall i :: 0 <= i < |entries| && entries[i].id == Some((index, name))
                        && (forall j :: 0 <= j < i ==> entries[j].id != Some((index, name))) ==>
              FirstMatch(entries, name, index, room) ==
                if room.Some? && room.value < |entries[i].value| then Err(ERANGE) else Ok(entries[i].value)
  {
    if entries != [] {
      var rest := entries[1..];
      FirstMatchIs(rest, name, index, room);
      assert entries == [entries[0]] + rest;
      forall i | 0 <= i < |entries| && entries[i].id == Some((index, name))
                 && (forall j :: 0 <= j < i ==> entries[j].id != Some((index, name)))
        ensures FirstMatch(entries, name, index, room) ==
                  if room.Some? && room.value < |entries[i].value| then Err(ERANGE) else Ok(entries[i].value)
      {
        if i > 0 {
          assert rest[i - 1] == entries[i] && forall j :: 0 <= j < i - 1 ==> rest[j] == entries[j + 1];
        }
      }
    }
  }

  // Querying one entry

  /** An entry with the queried identity answers with its value. */
  lemma QueryFound(fs: FileSystem, c: Cur, h: EntryHeader, name: seq<byte>, index: nat, room: Option<nat>)
    requires WfCur(fs.sb, c) && h.suffixLen + h.valueLen <= c.left
    requires EntryId(fs.infixes, h.nameIndex, Remaining(fs.backend, c)[..h.suffixLen]) == Some((index, name))
    ensures QueryCur(fs, c, h, name, index, room) ==
              Answer(if room.Some? && room.value < h.valueLen then Err(ERANGE)
                     else Ok(Remaining(fs.backend, c)[h.suffixLen..h.suffixLen + h.valueLen]))
  {
    hide EntryId, Guard, ChunkLen, Low, BodySize, CmpOutcome, SkipCur;
    var suffix := Remaining(fs.backend, c)[..h.suffixLen];
    GuardDecides(fs.infixes, h, suffix, name, index);
    CmpExact(fs.sb, fs.backend, c, suffix);
    FetchSlice(fs.backend, 0, c.pos, c.left, h.suffixLen, h.suffixLen + h.valueLen);
    FetchSlice(fs.backend, 0, c.pos + h.suffixLen, c.left - h.suffixLen, 0, h.valueLen);
  }

  /** An entry with another identity does not answer, unless skipping its value faults. */
  lemma QueryNotFound(fs: FileSystem, c: Cur, h: EntryHeader, name: seq<byte>, index: nat, room: Option<nat>)
    requires WfCur(fs.sb, c) && h.suffixLen <= c.left
    requires EntryId(fs.infixes, h.nameIndex, Remaining(fs.backend, c)[..h.suffixLen]) != Some((index, name))
    ensures var ilen := Guard(fs.infixes, h, name, index);
            if ilen.None? then QueryCur(fs, c, h, name, index, room) == Rejected(c)
            else
              var cmp := CmpOutcome(fs.sb, fs.backend, c, name[ilen.value..]);
              && cmp.NotEqual? && 0 < cmp.passed <= h.suffixLen
              && var skipped := SkipCur(fs.sb, Advance(fs.sb, c, cmp.passed), BodySize(h) - cmp.passed);
                 QueryCur(fs, c, h, name, index, room) == if skipped.Ok? then Rejected(skipped.value) else Answer(Fault)
  {
    hide EntryId, Guard, CmpOutcome, Low, ChunkLen, BodySize, Advance;
    var suffix := Remaining(fs.backend, c)[..h.suffixLen];
    GuardDecides(fs.infixes, h, suffix, name, index);
    var ilen := Guard(fs.infixes, h, name, index);
    if ilen.Some? {
      var s := name[ilen.value..];
      CmpExact(fs.sb, fs.backend, c, s);
      var cmp := CmpOutcome(fs.sb, fs.backend, c, s);
      if cmp.NotEqual? {
        CmpStopsAtBuffer(fs.sb, fs.backend, c, s, cmp.passed);
      }
    }
  }

  // Shared entries

  /** The shared entry with a given index, read in one piece. */
  function StoredAt(fs: FileSystem, entryIndex: u32): Stored {
    var pos := BlkPos(fs.sb, fs.sb.xattrBlkaddr) + (entryIndex as nat) * 4;
    var h := HeaderFrom(Fetch(fs.backend, 0, pos, 4));
    Stored(EntryId(fs.infixes, h.nameIndex, Fetch(fs.backend, 0, pos + 4, h.suffixLen)),
           Fetch(fs.backend, 0, pos + 4 + h.suffixLen, h.valueLen))
  }

  function AllStored(fs: FileSystem, indexes: seq<u32>): (s: seq<Stored>)
    ensures |s| == |indexes|
  {
    seq(|indexes|, i requires 0 <= i < |indexes| => StoredAt(fs, indexes[i]))
  }

  lemma SharedEntryExact(fs: FileSystem, entryIndex: u32, name: seq<byte>, index: nat, room: Option<nat>)
    ensures var e := StoredAt(fs, entryIndex);
            var r := QuerySharedSpec(fs, entryIndex, name, index, room);
            if e.id == Some((index, name)) then
              r == Answer(if room.Some? && room.value < |e.value| then Err(ERANGE) else Ok(e.value))
            else r.Rejected?
  {
    hide EntryId, Guard, ChunkLen, Low, QueryCur, CmpOutcome;
    var c := SharedCursor(fs, entryIndex);
    var c1 := Advance(fs.sb, c, 4);
    FetchSlice(fs.backend, 0, c.pos, c.left, 0, 4);
    var h := HeaderFrom(Fetch(fs.backend, 0, c.pos, 4));
    var suffix := Fetch(fs.backend, 0, c1.pos, h.suffixLen);
    FetchSlice(fs.backend, 0, c1.pos, c1.left, 0, h.suffixLen);
    FetchSlice(fs.backend, 0, c1.pos, c1.left, h.suffixLen, h.suffixLen + h.valueLen);
    if EntryId(fs.infixes, h.nameIndex, suffix) == Some((index, name)) {
      QueryFound(fs, c1, h, name, index, room);
    } else {
      QueryNotFound(fs, c1, h, name, index, room);
    }
  }

  /** Searching the shared entries finds the first with the queried identity, however headers, names
      and values lie across blocks. */
  lemma {:induction false} SharedSearchExact(fs: FileSystem, indexes: seq<u32>, name: seq<byte>, index: nat,
                                             room: Option<nat>)
    ensures SharedSearch(fs, indexes, name, index, room) == FirstMatch(AllStored(fs, indexes), name, index, room)
  {
    hide QuerySharedSpec, StoredAt;
    if indexes != [] {
      SharedEntryExact(fs, indexes[0], name, index, room);
      SharedSearchExact(fs, indexes[1..], name, index, room);
      assert AllStored(fs, indexes)[1..] == AllStored(fs, indexes[1..]);
    }
  }

  /** Without inline entries, get_xattr is exact. */
  lemma GetXattrShared(fs: FileSystem, inode: Inode, name: seq<byte>, index: nat, room: Option<nat>)
    requires !HasInline(inode)
    ensures GetXattrSpec(fs, inode, name, index, room) ==
              FirstMatch(AllStored(fs, inode.sharedIndexes), name, index, room)
  {
    SharedSearchExact(fs, inode.sharedIndexes, name, index, room);
  }

  /** A compact inode shows no attributes, whatever its attribute count says. */
  lemma CompactHasNone(fs: FileSystem, inode: Inode, name: seq<byte>, index: nat, room: Option<nat>, cap: nat)
    requires inode.info.Compact? && inode.sharedIndexes == SharedEntriesAt(fs, inode.nid, inode.info).indexes
    ensures GetXattrSpec(fs, inode, name, index, room) == Err(ENODATA)
    ensures ListXattrsSpec(fs, inode, cap) == Ok([])
  {
  }

  // Inline entries, as an encoder stores them

  datatype RawEntry = RawEntry(nameIndex: byte, suffix: seq<byte>, value: seq<byte>, pad: seq<byte>) {

    predicate Wf() {
      |suffix| < 256 && |value| < U16_RANGE && |pad| == BodySize(Header()) - |suffix| - |value|
    }

    function Header(): EntryHeader
      requires |suffix| < 256 && |value| < U16_RANGE
    {
      EntryHeader(|suffix|, nameIndex, |value|)
    }

    function Body(): seq<byte> {
      suffix + value + pad
    }

    function Encode(): (s: seq<byte>)
      requires Wf()
      ensures |s| == 4 + |Body()| && s[..4] == HeaderBytes() && s[4..] == Body()
    {
      HeaderBytes() + Body()
    }

    function HeaderBytes(): seq<byte>
      requires Wf()
    {
      [|suffix|, nameIndex] + ToLE(|value|, 2)
    }

    function AsStored(ifs: seq<Infix>): Stored {
      Stored(EntryId(ifs, nameIndex, suffix), value)
    }
  }

  type Entry = e: RawEntry | e.Wf() witness RawEntry(0, [], [], [])

  function EncodeAll(es: seq<Entry>): seq<byte>
  {
    if es == [] then [] else es[0].Encode() + EncodeAll(es[1..])
  }

  function StoredAll(ifs: seq<Infix>, es: seq<Entry>): seq<Stored> {
    if es == [] then [] else [es[0].AsStored(ifs)] + StoredAll(ifs, es[1..])
  }

  lemma HeaderRoundTrip(e: Entry)
    ensures HeaderFrom(e.HeaderBytes()) == e.Header()
  {
    assert Pow256(2) == U16_RANGE;
    LERoundTrip(|e.value|, 2);
    assert e.HeaderBytes()[2..4] == ToLE(|e.value|, 2);
  }

  // Passing an entry

  /** Comparing the rest of a name with the suffix of an entry, and skipping the rest of the body, passes
      exactly the body. */
  predicate PassedExactly(sb: SuperBlock, c: Cur, e: Entry, s: seq<byte>)
    requires |s| == |e.suffix|
  {
    var k := CmpStop(sb, c, |s|, Common(e.suffix, s));
    Skippable(Advance(sb, c, k), |e.Body()| - k)
  }

  /** The header checks pass, and so does the body. */
  predicate PassesChecked(fs: FileSystem, c: Cur, h: EntryHeader, name: seq<byte>, index: nat)
    requires BodySize(h) <= c.left
  {
    var ilen := Guard(fs.infixes, h, name, index);
    if ilen.None? then BodySize(h) == 0
    else
      var cmp := CmpOutcome(fs.sb, fs.backend, c, name[ilen.value..]);
      cmp.NotEqual? && Skippable(Advance(fs.sb, c, cmp.passed), BodySize(h) - cmp.passed)
  }

  /** The exact effect of a rejected query: the body of an entry is passed if and only if its header fails
      the checks and it has none, or its header passes them and the skip after the comparison is exact. */
  lemma RejectedExact(fs: FileSystem, c: Cur, h: EntryHeader, name: seq<byte>, index: nat, room: Option<nat>)
    requires WfCur(fs.sb, c) && BodySize(h) <= c.left
    ensures var r := QueryCur(fs, c, h, name, index, room);
            r.Rejected? && r.c.pos == c.pos + BodySize(h) <==> PassesChecked(fs, c, h, name, index)
    ensures var r := QueryCur(fs, c, h, name, index, room);
            r.Rejected? ==> r.c.pos + r.c.left == c.pos + c.left
  {
    hide Guard, Remaining, CmpOutcome, ChunkLen, Low, Advance, SkipCur, BodySize, Skippable, WfCur;
    var ilen := Guard(fs.infixes, h, name, index);
    if ilen.Some? {
      var s := name[ilen.value..];
      var cmp := CmpOutcome(fs.sb, fs.backend, c, s);
      if cmp.NotEqual? {
        CmpStopsAtBuffer(fs.sb, fs.backend, c, s, cmp.passed);
        SkipExact(fs.sb, Advance(fs.sb, c, cmp.passed), BodySize(h) - cmp.passed);
      }
    }
  }

  /** Comparing with the suffix that is next stops behind the first difference. */
  lemma CmpWithSuffix(fs: FileSystem, c: Cur, suffix: seq<byte>, s: seq<byte>)
    requires |suffix| == |s| <= c.left && Remaining(fs.backend, c)[..|s|] == suffix && suffix != s
    ensures CmpOutcome(fs.sb, fs.backend, c, s) == NotEqual(CmpStop(fs.sb, c, |s|, Common(suffix, s)))
  {
    hide Remaining, CmpStop;
    var r, m := Remaining(fs.backend, c), Common(suffix, s);
    CommonAtLeast(suffix, s, m);
    CommonAtLeast(suffix, s, |s|);
    assert suffix[..|s|] == suffix && s[..|s|] == s;
    CommonAtLeast(suffix, s, m + 1);
    assert suffix[..m + 1] == suffix[..m] + [suffix[m]] && s[..m + 1] == s[..m] + [s[m]];
    assert r[..m] == r[..|s|][..m] && r[m] == r[..|s|][m];
    CommonIs(r, s, m);
  }

  // A region within one block

  predicate OneBlock(sb: SuperBlock, c: Cur) {
    WfCur(sb, c) && c.dlen == c.left
  }

  lemma OneBlockAdvance(fs: FileSystem, c: Cur, n: nat)
    requires OneBlock(fs.sb, c) && n <= c.left
    ensures var c' := Advance(fs.sb, c, n);
            c' == Cur(c.pos + n, c.left - n, c.left - n) && OneBlock(fs.sb, c')
            && Remaining(fs.backend, c') == Remaining(fs.backend, c)[n..]
  {
    hide ChunkLen, Low;
    FetchSlice(fs.backend, 0, c.pos, c.left, n, c.left);
  }

  /** In one block a failed comparison passes all that was compared. */
  lemma OneBlockCmp(fs: FileSystem, c: Cur, s: seq<byte>)
    requires OneBlock(fs.sb, c)
    ensures var r := CmpOutcome(fs.sb, fs.backend, c, s); r.NotEqual? ==> r.passed == Min(|s|, c.left)
  {
    hide Remaining, Low;
    var m := Common(Remaining(fs.backend, c), s);
    if m < c.left {
      WithinBlock(c.pos, fs.sb.blkszbits, m);
    }
  }

  /** In one block every body is passed exactly. */
  lemma OneBlockPasses(fs: FileSystem, c: Cur, e: Entry, s: seq<byte>)
    requires OneBlock(fs.sb, c) && |e.Body()| <= c.left && |s| == |e.suffix|
    ensures PassedExactly(fs.sb, c, e, s)
  {
    hide Advance, BlockEnd, Common, BodySize;
    OneBlockAdvance(fs, c, CmpStop(fs.sb, c, |s|, Common(e.suffix, s)));
  }

  // The run of the inline loop

  /** Where the loop reads headers, and how it ends. */
  datatype Trace = Trace(headers: seq<nat>, result: Outcome<seq<byte>>)

  function Prepend(headers: seq<nat>, t: Trace): Trace {
    Trace(headers + t.headers, t.result)
  }

  function TraceSearch(fs: FileSystem, c: Cur, name: seq<byte>, index: nat, room: Option<nat>): (t: Trace)
    requires WfCur(fs.sb, c)
    ensures t.headers != [] ==> t.headers[0] == c.pos
    ensures t.result == InlineSearch(fs, c, name, index, room)
    decreases c.left
  {
    if c.left == 0 then Trace([], Err(ENODATA))
    else if c.left < 4 then Trace([], Fault)
    else
      match QueryCur(fs, Advance(fs.sb, c, 4), HeaderFrom(Remaining(fs.backend, c)[..4]), name, index, room)
      case Answer(value) => Trace([c.pos], value)
      case Rejected(c') => Prepend([c.pos], TraceSearch(fs, c', name, index, room))
  }

  /** A rest that cannot hold a header ends the loop with a fault. */
  lemma ShortRest(fs: FileSystem, c: Cur, name: seq<byte>, index: nat, room: Option<nat>)
    requires WfCur(fs.sb, c) && 0 < c.left < 4
    ensures InlineSearch(fs, c, name, index, room) == Fault && InlineList(fs, c, |name|) == Fault
  {
  }

  /** The addresses of the words of a body. */
  function WordsFrom(pos: nat, n: nat): (w: seq<nat>)
    ensures w != [] ==> w[0] == pos
    decreases n
  {
    if n < 4 then [] else [pos] + WordsFrom(pos + 4, n - 4)
  }

  /** The run that reads each entry's header up to the first match, and the words of the bodies of
      those whose header fails the checks, and answers with the first match. */
  function ExpectedTrace(ifs: seq<Infix>, es: seq<Entry>, pos: nat, name: seq<byte>, index: nat,
                         room: Option<nat>): (t: Trace)
    ensures es == [] ==> t == Trace([], Err(ENODATA))
    ensures es != [] ==> t.headers != [] && t.headers[0] == pos
    ensures t.result == FirstMatch(StoredAll(ifs, es), name, index, room)
  {
    if es == [] then Trace([], Err(ENODATA))
    else
      var e := es[0];
      if EntryId(ifs, e.nameIndex, e.suffix) == Some((index, name)) then
        Trace([pos], if room.Some? && room.value < |e.value| then Err(ERANGE) else Ok(e.value))
      else
        var words := if Guard(ifs, e.Header(), name, index).None? then WordsFrom(pos + 4, |e.Body()|) else [];
        Prepend([pos] + words, ExpectedTrace(ifs, es[1..], pos + 4 + |e.Body()|, name, index, room))
  }

  /** No word of a body passes the header checks. */
  predicate Quiet(ifs: seq<Infix>, body: seq<byte>, name: seq<byte>, index: nat) {
    |body| < 4 || (Guard(ifs, HeaderFrom(body[..4]), name, index).None? && Quiet(ifs, body[4..], name, index))
  }

  /** Before the first match, every entry that passes the header checks is passed exactly, and every
      other one has a quiet body. */
  predicate InStep(sb: SuperBlock, ifs: seq<Infix>, c: Cur, es: seq<Entry>, name: seq<byte>, index: nat)
    requires c.left == |EncodeAll(es)|
    decreases |es|
  {
    es == []
    || EntryId(ifs, es[0].nameIndex, es[0].suffix) == Some((index, name))
    || (var c1 := Advance(sb, c, 4);
        && (match Guard(ifs, es[0].Header(), name, index)
            case None => Quiet(ifs, es[0].Body(), name, index)
            case Some(ilen) => PassedExactly(sb, c1, es[0], name[ilen..]))
        && InStep(sb, ifs, Advance(sb, c1, |es[0].Body()|), es[1..], name, index))
  }

  /** A rejected query that passed the header checks moves the cursor. */
  lemma ImpostorMoves(fs: FileSystem, c: Cur, h: EntryHeader, name: seq<byte>, index: nat, room: Option<nat>)
    requires WfCur(fs.sb, c) && Guard(fs.infixes, h, name, index).Some?
    requires QueryCur(fs, c, h, name, index, room).Rejected?
    ensures c.left > 0 && QueryCur(fs, c, h, name, index, room).c.pos > c.pos
  {
    hide Guard, Remaining, CmpOutcome, ChunkLen, Low, Advance;
    var s := name[Guard(fs.infixes, h, name, index).value..];
    var r := CmpOutcome(fs.sb, fs.backend, c, s);
    assert r.NotEqual?;
    CmpStopsAtBuffer(fs.sb, fs.backend, c, s, r.passed);
  }

  /** The run depends on where the cursor stands, not on what its buffer holds. */
  lemma TraceSame(fs: FileSystem, c: Cur, c': Cur, name: seq<byte>, index: nat, room: Option<nat>)
    requires WfCur(fs.sb, c) && WfCur(fs.sb, c') && c.pos == c'.pos && c.left == c'.left
    ensures TraceSearch(fs, c, name, index, room) == TraceSearch(fs, c', name, index, room)
  {
    hide QueryCur, HeaderFrom, ChunkLen, Low, InlineSearch;
  }

  /** One word of a body: read as a header, it either is passed alone or leads the run astray. */
  lemma WordTrace(fs: FileSystem, c: Cur, name: seq<byte>, index: nat, room: Option<nat>, t: Trace)
    requires WfCur(fs.sb, c) && c.left >= 4
    requires if t.headers == [] then t.result == Err(ENODATA) && c.left == 4 else t.headers[0] == c.pos + 4
    ensures TraceSearch(fs, c, name, index, room) == Prepend([c.pos], t) <==>
              && Guard(fs.infixes, HeaderFrom(Remaining(fs.backend, c)[..4]), name, index).None?
              && TraceSearch(fs, Advance(fs.sb, c, 4), name, index, room) == t
  {
    hide Guard, Remaining, ChunkLen, Low, CmpOutcome, HeaderFrom, Advance, SkipCur;
    var c1, h := Advance(fs.sb, c, 4), HeaderFrom(Remaining(fs.backend, c)[..4]);
    var run := TraceSearch(fs, c, name, index, room);
    if Guard(fs.infixes, h, name, index).None? {
      var next := TraceSearch(fs, c1, name, index, room);
      assert run == Prepend([c.pos], next);
      assert next.headers == run.headers[1..] && t.headers == Prepend([c.pos], t).headers[1..];
    } else {
      match QueryCur(fs, c1, h, name, index, room)
      case Answer(value) =>
        assert |run.headers| == 1;
      case Rejected(c2) =>
        ImpostorMoves(fs, c1, h, name, index, room);
        assert t.headers != [];
        assert Prepend([c.pos], t).headers[1] == c.pos + 4;
    }
  }

  /** A body is passed word by word if and only if it is quiet. */
  lemma {:induction false} BodyTrace(fs: FileSystem, c: Cur, body: seq<byte>, words: nat,
                                     name: seq<byte>, index: nat, room: Option<nat>, t: Trace)
    requires WfCur(fs.sb, c) && |body| == 4 * words && |body| <= c.left && Remaining(fs.backend, c)[..|body|] == body
    requires if t.headers == [] then t.result == Err(ENODATA) && c.left == |body| else t.headers[0] == c.pos + |body|
    ensures TraceSearch(fs, c, name, index, room) == Prepend(WordsFrom(c.pos, |body|), t) <==>
              && Quiet(fs.infixes, body, name, index)
              && TraceSearch(fs, Advance(fs.sb, c, |body|), name, index, room) == t
    decreases words
  {
    hide Guard, Remaining, ChunkLen, Low, TraceSearch, HeaderFrom, U16, Advance, WfCur;
    if body == [] {
      assert Prepend([], t) == t;
    } else {
      var c1, rest, later := Advance(fs.sb, c, 4), body[4..], WordsFrom(c.pos + 4, |body| - 4);
      AdvanceDrops(fs.sb, fs.backend, c, 4);
      assert Remaining(fs.backend, c)[..4] == body[..4];
      assert Remaining(fs.backend, c1)[..|rest|] == rest;
      WordTrace(fs, c, name, index, room, Prepend(later, t));
      BodyTrace(fs, c1, rest, words - 1, name, index, room, t);
      if rest != [] {
        AdvanceAdvance(fs.sb, c, 4, |rest|);
      }
      PrependPrepend([c.pos], later, t);
    }
  }

  lemma NextEntry(fs: FileSystem, c: Cur, es: seq<Entry>)
    requires WfCur(fs.sb, c) && es != [] && Remaining(fs.backend, c) == EncodeAll(es)
    ensures AtEntry(fs, c, es[0])
    ensures var c1 := Advance(fs.sb, c, 4);
            var c2 := Advance(fs.sb, c1, |es[0].Body()|);
            && WfCur(fs.sb, c2) && c2.pos == c.pos + 4 + |es[0].Body()|
            && Remaining(fs.backend, c2) == EncodeAll(es[1..])
            && (es[1..] == [] ==> c1.left == |es[0].Body()|)
  {
    hide Remaining, ChunkLen, Low, HeaderFrom, RawEntry.HeaderBytes, RawEntry.Body, Advance;
    var e := es[0];
    HeaderRoundTrip(e);
    AdvanceDrops(fs.sb, fs.backend, c, 4);
    AdvanceDrops(fs.sb, fs.backend, Advance(fs.sb, c, 4), |e.Body()|);
    assert EncodeAll(es)[..4] == e.Encode()[..4];
    assert EncodeAll(es)[4..] == e.Body() + EncodeAll(es[1..]);
  }

  /** The inline loop of get_xattr keeps to the entries, and answers with the first match, if and only if
      before it every entry that passes the header checks is passed exactly and no word of the body of any
      other passes them; wherever the region lies. */
  lemma {:induction false} InlineSearchIff(fs: FileSystem, c: Cur, es: seq<Entry>,
                                           name: seq<byte>, index: nat, room: Option<nat>)
    requires WfCur(fs.sb, c) && Remaining(fs.backend, c) == EncodeAll(es)
    ensures TraceSearch(fs, c, name, index, room) == ExpectedTrace(fs.infixes, es, c.pos, name, index, room)
       <==> InStep(fs.sb, fs.infixes, c, es, name, index)
    decreases |es|
  {
    hide Guard, Remaining, ChunkLen, Low, HeaderFrom, EntryId, Quiet, WordsFrom, QueryCur, RawEntry.Body,
      RawEntry.Encode, TraceSearch, Advance, FirstMatch, StoredAll, BodySize, PassedExactly, WfCur, AtEntry;
    if es == [] {
      TraceEmpty(fs, c, name, index, room);
    } else {
      var e := es[0];
      var c1 := Advance(fs.sb, c, 4);
      var c2 := Advance(fs.sb, c1, |e.Body()|);
      NextEntry(fs, c, es);
      if EntryId(fs.infixes, e.nameIndex, e.suffix) == Some((index, name)) {
        TraceFound(fs, c, e, name, index, room);
      } else {
        hide EncodeAll;
        var rest := ExpectedTrace(fs.infixes, es[1..], c2.pos, name, index, room);
        InlineSearchIff(fs, c2, es[1..], name, index, room);
        if Guard(fs.infixes, e.Header(), name, index).Some? {
          TraceChecked(fs, c, e, name, index, room, rest);
          assert [c.pos] + [] == [c.pos];
        } else {
          TraceFailing(fs, c, e, name, index, room, rest);
        }
      }
    }
  }

  /** The header of entry e is next, and its body follows. */
  ghost predicate AtEntry(fs: FileSystem, c: Cur, e: Entry) {
    && WfCur(fs.sb, c) && c.left >= 4 + |e.Body()|
    && HeaderFrom(Remaining(fs.backend, c)[..4]) == e.Header()
    && Remaining(fs.backend, Advance(fs.sb, c, 4))[..|e.Body()|] == e.Body()
  }

  /** The run t goes on behind entry e. */
  ghost predicate Continues(t: Trace, c: Cur, e: Entry) {
    if t.headers == [] then t.result == Err(ENODATA) && c.left == 4 + |e.Body()|
    else t.headers[0] == c.pos + 4 + |e.Body()|
  }

  lemma BodyFacts(e: Entry)
    ensures |e.Body()| == BodySize(e.Header()) == 4 * (BodySize(e.Header()) / 4)
    ensures |e.suffix| + |e.value| <= |e.Body()|
  {
  }

  lemma TraceEmpty(fs: FileSystem, c: Cur, name: seq<byte>, index: nat, room: Option<nat>)
    requires WfCur(fs.sb, c) && Remaining(fs.backend, c) == []
    ensures TraceSearch(fs, c, name, index, room) == Trace([], Err(ENODATA))
  {
  }

  lemma TraceFound(fs: FileSystem, c: Cur, e: Entry, name: seq<byte>, index: nat, room: Option<nat>)
    requires AtEntry(fs, c, e)
    requires EntryId(fs.infixes, e.nameIndex, e.suffix) == Some((index, name))
    ensures TraceSearch(fs, c, name, index, room) ==
              Trace([c.pos], if room.Some? && room.value < |e.value| then Err(ERANGE) else Ok(e.value))
  {
    hide Remaining, HeaderFrom, EntryId, QueryCur, RawEntry.Body, Advance, ChunkLen, Low;
    BodyFacts(e);
    Leads(fs, Advance(fs.sb, c, 4), e);
    QueryFound(fs, Advance(fs.sb, c, 4), e.Header(), name, index, room);
  }

  /** An entry that passes the checks and has another name is passed if and only if it is passed exactly. */
  lemma TraceChecked(fs: FileSystem, c: Cur, e: Entry, name: seq<byte>, index: nat, room: Option<nat>, t: Trace)
    requires AtEntry(fs, c, e) && Guard(fs.infixes, e.Header(), name, index).Some? && Continues(t, c, e)
    requires EntryId(fs.infixes, e.nameIndex, e.suffix) != Some((index, name))
    ensures var c1 := Advance(fs.sb, c, 4);
            TraceSearch(fs, c, name, index, room) == Prepend([c.pos], t) <==>
              && PassedExactly(fs.sb, c1, e, name[Guard(fs.infixes, e.Header(), name, index).value..])
              && TraceSearch(fs, Advance(fs.sb, c1, |e.Body()|), name, index, room) == t
  {
    hide Remaining, HeaderFrom, EntryId, QueryCur, Guard, RawEntry.Body, BodySize, Advance, Low, ChunkLen,
      PassesChecked, PassedExactly;
    var c1 := Advance(fs.sb, c, 4);
    var r, c2 := QueryCur(fs, c1, e.Header(), name, index, room), Advance(fs.sb, c1, |e.Body()|);
    BodyFacts(e);
    CheckedIff(fs, c1, e, name, index);
    RejectedExact(fs, c1, e.Header(), name, index, room);
    if r.Rejected? {
      var next := TraceSearch(fs, r.c, name, index, room);
      PrependSame([c.pos], next, t);
      if r.c.pos == c2.pos {
        TraceSame(fs, r.c, c2, name, index, room);
      } else {
        Elsewhere(fs, r.c, c2, name, index, room, t);
      }
    } else {
      assert Prepend([c.pos], t).headers == [c.pos] + t.headers;
    }
  }

  /** A run that goes on from another place is another run. */
  lemma Elsewhere(fs: FileSystem, c: Cur, c': Cur, name: seq<byte>, index: nat, room: Option<nat>, t: Trace)
    requires WfCur(fs.sb, c) && c.pos != c'.pos && c.pos + c.left == c'.pos + c'.left
    requires if t.headers == [] then t.result == Err(ENODATA) && c'.left == 0 else t.headers[0] == c'.pos
    ensures TraceSearch(fs, c, name, index, room) != t
  {
    hide QueryCur, HeaderFrom, Advance, Remaining;
    if t.headers == [] && c.left >= 4 {
      var run := TraceSearch(fs, c, name, index, room);
      assert run.headers[0] == c.pos;
    }
  }

  lemma CheckedIff(fs: FileSystem, c: Cur, e: Entry, name: seq<byte>, index: nat)
    requires |e.Body()| <= c.left && Remaining(fs.backend, c)[..|e.Body()|] == e.Body()
    requires Guard(fs.infixes, e.Header(), name, index).Some?
    requires EntryId(fs.infixes, e.nameIndex, e.suffix) != Some((index, name))
    ensures PassesChecked(fs, c, e.Header(), name, index) <==>
              PassedExactly(fs.sb, c, e, name[Guard(fs.infixes, e.Header(), name, index).value..])
  {
    hide Guard, EntryId, Remaining, CmpOutcome, CmpStop, Advance, RawEntry.Body, BodySize;
    var s := name[Guard(fs.infixes, e.Header(), name, index).value..];
    BodyFacts(e);
    Leads(fs, c, e);
    GuardDecides(fs.infixes, e.Header(), e.suffix, name, index);
    CmpWithSuffix(fs, c, e.suffix, s);
  }

  lemma TraceFailing(fs: FileSystem, c: Cur, e: Entry, name: seq<byte>, index: nat, room: Option<nat>, t: Trace)
    requires AtEntry(fs, c, e) && Guard(fs.infixes, e.Header(), name, index).None? && Continues(t, c, e)
    ensures TraceSearch(fs, c, name, index, room) == Prepend([c.pos] + WordsFrom(c.pos + 4, |e.Body()|), t) <==>
              && Quiet(fs.infixes, e.Body(), name, index)
              && TraceSearch(fs, Advance(fs.sb, Advance(fs.sb, c, 4), |e.Body()|), name, index, room) == t
  {
    hide Remaining, HeaderFrom, EntryId, Guard, Quiet, RawEntry.Body, WordsFrom, BodySize, Advance, Low, ChunkLen;
    var c1, words := Advance(fs.sb, c, 4), WordsFrom(c.pos + 4, |e.Body()|);
    BodyFacts(e);
    BodyTrace(fs, c1, e.Body(), BodySize(e.Header()) / 4, name, index, room, t);
    assert TraceSearch(fs, c, name, index, room) == Prepend([c.pos], TraceSearch(fs, c1, name, index, room));
    PrependSame([c.pos], TraceSearch(fs, c1, name, index, room), Prepend(words, t));
    PrependPrepend([c.pos], words, t);
  }

  lemma PrependPrepend(a: seq<nat>, b: seq<nat>, t: Trace)
    ensures Prepend(a, Prepend(b, t)) == Prepend(a + b, t)
  {
    assert a + (b + t.headers) == a + b + t.headers;
  }

  lemma PrependSame(headers: seq<nat>, a: Trace, b: Trace)
    ensures Prepend(headers, a) == Prepend(headers, b) <==> a == b
  {
    assert Prepend(headers, a).headers[|headers|..] == a.headers;
    assert Prepend(headers, b).headers[|headers|..] == b.headers;
  }

  /** A body starts with the suffix, and the value follows. */
  lemma Leads(fs: FileSystem, c: Cur, e: Entry)
    requires |e.Body()| <= c.left && Remaining(fs.backend, c)[..|e.Body()|] == e.Body()
    ensures Remaining(fs.backend, c)[..|e.suffix|] == e.suffix
    ensures Remaining(fs.backend, c)[|e.suffix|..|e.suffix| + |e.value|] == e.value
  {
    hide Remaining;
    var r := Remaining(fs.backend, c);
    assert r[..|e.suffix|] == r[..|e.Body()|][..|e.suffix|];
    assert r[|e.suffix|..|e.suffix| + |e.value|] == r[..|e.Body()|][|e.suffix|..|e.suffix| + |e.value|];
  }

  lemma {:induction false} FirstMatchJoin(a: seq<Stored>, b: seq<Stored>, name: seq<byte>, index: nat,
                                          room: Option<nat>)
    ensures FirstMatch(a + b, name, index, room) ==
              var found := FirstMatch(a, name, index, room);
              if found == Err(ENODATA) then FirstMatch(b, name, index, room) else found
  {
    if a == [] {
      assert a + b == b;
    } else {
      FirstMatchJoin(a[1..], b, name, index, room);
      assert (a + b)[1..] == a[1..] + b;
    }
  }

  /** get_xattr on an inode whose inline region keeps in step is exact: it finds the first match among
      the inline and then the shared entries. */
  lemma GetXattrExact(fs: FileSystem, inode: Inode, es: seq<Entry>, name: seq<byte>, index: nat, room: Option<nat>)
    requires HasInline(inode) && Remaining(fs.backend, InlineCursor(fs, inode)) == EncodeAll(es)
    requires InStep(fs.sb, fs.infixes, InlineCursor(fs, inode), es, name, index)
    ensures GetXattrSpec(fs, inode, name, index, room) ==
              FirstMatch(StoredAll(fs.infixes, es) + AllStored(fs, inode.sharedIndexes), name, index, room)
  {
    hide InlineCursor, Remaining, InStep, TraceSearch, ExpectedTrace, SharedSearch;
    InlineSearchIff(fs, InlineCursor(fs, inode), es, name, index, room);
    SharedSearchExact(fs, inode.sharedIndexes, name, index, room);
    FirstMatchJoin(StoredAll(fs.infixes, es), AllStored(fs, inode.sharedIndexes), name, index, room);
  }
}
