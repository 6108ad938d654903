/** Reading extended attributes through the skippable cursor: the entry operations, the shared index
    table, and the two loops of the file system over inline and shared entries. */
module Xattrs {
  import opened Bits
  import opened Outcomes
  import opened Image
  import opened Superblock
  import opened Inodes
  import opened RawIters
  import opened Cursor
  import opened XattrSpec

  datatype XattrValue = Buffer(size: nat) | Vec(value: seq<byte>)

  method GetEntryHeader(it: SkippableContinuousIter) returns (r: Outcome<EntryHeader>)
    requires it.Valid()
    modifies it, it.iter
    ensures r == Fault <==> old(it.View().left) < 4
    ensures r == Fault || r == Ok(HeaderFrom(old(Remaining(it.iter.backend, it.View()))[..4]))
    ensures r.Ok? ==> it.Valid() && it.View() == Advance(it.iter.sb, old(it.View()), 4)
  {
    hide Remaining, Advance, SkippableContinuousIter.Valid, SkippableContinuousIter.View;
    var buf := new byte[4](_ => 0);
    var read := it.Read(buf, 0, 4);
    if !read.Ok? {
      return Fault;
    }
    assert buf[0..4] == buf[..];
    r := Ok(HeaderFrom(buf[..]));
  }

  /** The bytes s written at lo, everything else untouched. */
  ghost predicate Wrote(s: seq<byte>, buffer: seq<byte>, before: seq<byte>, lo: nat) {
    lo + |s| <= |before| && buffer == before[..lo] + s + before[lo + |s|..]
  }

  lemma WroteMore(done: seq<byte>, key: seq<byte>, buffer: seq<byte>, middle: seq<byte>, before: seq<byte>)
    requires Wrote(done, middle, before, 0) && Wrote(key, buffer, middle, |done|)
    ensures Wrote(done + key, buffer, before, 0)
  {
    assert middle[..|done|] == done;
    assert middle[|done| + |key|..] == before[|done| + |key|..];
  }

  /** Print the full name of an entry, NUL included, into buffer[lo..]. */
  method GetXattrKey(it: SkippableContinuousIter, fs: FileSystem, h: EntryHeader, buffer: array<byte>, lo: nat)
    returns (r: Outcome<nat>)
    requires it.Valid() && it.iter.sb == fs.sb && it.iter.backend == fs.backend && lo <= buffer.Length
    modifies it, it.iter, buffer
    ensures var key := old(KeyCur(fs, it.View(), h, buffer.Length - lo));
            if !key.Ok? then r == key.PropagateFailure()
            else
              && r == Ok(|key.value|) && Wrote(key.value, buffer[..], old(buffer[..]), lo)
              && it.Valid() && it.View() == Advance(fs.sb, old(it.View()), h.suffixLen)
  {
    hide Remaining, Advance, KeyPrefix, KeyCur, Wrote, SkippableContinuousIter.Valid, SkippableContinuousIter.View;
    ghost var before := buffer[..];
    KeySteps(fs, it.View(), h, buffer.Length - lo);
    var prefix := KeyPrefix(fs.infixes, h.nameIndex);
    if !prefix.Ok? {
      return prefix.PropagateFailure();
    }
    var cur := |prefix.value|;
    if lo + cur + h.suffixLen + 1 > buffer.Length {
      return Fault;
    }
    r := PrintName(it, prefix.value, h.suffixLen, buffer, lo);
    if r.Ok? {
      WroteBetween(buffer[lo..lo + r.value], buffer[..], before, lo);
    }
  }

  lemma KeySteps(fs: FileSystem, c: Cur, h: EntryHeader, room: nat)
    ensures var prefix := KeyPrefix(fs.infixes, h.nameIndex);
            KeyCur(fs, c, h, room) ==
              if !prefix.Ok? then prefix
              else if room < |prefix.value| + h.suffixLen + 1 || c.left < h.suffixLen then Fault
              else Ok(prefix.value + Remaining(fs.backend, c)[..h.suffixLen] + [0])
  {
    hide KeyPrefix, Remaining;
  }

  lemma WroteBetween(s: seq<byte>, buffer: seq<byte>, before: seq<byte>, lo: nat)
    requires |buffer| == |before| && lo + |s| <= |before| && buffer[lo..lo + |s|] == s
    requires forall i :: 0 <= i < lo || lo + |s| <= i < |before| ==> buffer[i] == before[i]
    ensures Wrote(s, buffer, before, lo)
  {
  }

  /** Print a prefix, the next n bytes and a NUL. */
  method PrintName(it: SkippableContinuousIter, prefix: seq<byte>, n: nat, buffer: array<byte>, lo: nat)
    returns (r: Outcome<nat>)
    requires it.Valid() && lo + |prefix| + n + 1 <= buffer.Length
    modifies it, it.iter, buffer
    ensures r == if n <= old(it.View()).left then Ok(|prefix| + n + 1) else Fault
    ensures r.Ok? ==>
              && buffer[lo..lo + |prefix| + n + 1] == prefix + old(Remaining(it.iter.backend, it.View()))[..n] + [0]
              && it.Valid() && it.View() == Advance(it.iter.sb, old(it.View()), n)
    ensures forall i :: 0 <= i < lo || lo + |prefix| + n + 1 <= i < buffer.Length ==> buffer[i] == old(buffer[i])
  {
    hide Remaining, Advance, SkippableContinuousIter.Valid, SkippableContinuousIter.View;
    CopySlice(buffer, lo, prefix);
    ghost var printed := buffer[..];
    var cur := |prefix|;
    var read := it.Read(buffer, lo + cur, n);
    if !read.Ok? {
      return Fault;
    }
    ghost var suffix := buffer[lo + cur..lo + cur + n];
    cur := cur + n;
    buffer[lo + cur] := 0;
    Printed(printed, buffer[..], lo, prefix, suffix);
    assert buffer[lo..lo + cur + 1] == buffer[..][lo..lo + cur + 1];
    r := Ok(cur + 1);
  }

  lemma Printed(before: seq<byte>, after: seq<byte>, lo: nat, prefix: seq<byte>, suffix: seq<byte>)
    requires |before| == |after| && lo + |prefix| + |suffix| < |after|
    requires before[lo..lo + |prefix|] == prefix
    requires forall i :: lo <= i < lo + |prefix| ==> after[i] == before[i]
    requires after[lo + |prefix|..lo + |prefix| + |suffix|] == suffix
    requires after[lo + |prefix| + |suffix|] == 0
    ensures after[lo..lo + |prefix| + |suffix| + 1] == prefix + suffix + [0]
  {
    assert after[lo..lo + |prefix|] == prefix;
  }

  method SkipXattrValue(it: SkippableContinuousIter, h: EntryHeader) returns (r: Outcome<()>)
    requires it.Valid()
    modifies it, it.iter
    ensures match old(SkipCur(it.iter.sb, it.View(), BodySize(h) - h.suffixLen))
            case Ok(c) => r == Ok(()) && it.Valid() && it.View() == c
            case _ => r == Fault
  {
    r := it.Skip(BodySize(h) - h.suffixLen);
  }

  function Contents(buffer: array?<byte>): seq<byte>
    reads if buffer == null then {} else {buffer}
  {
    if buffer == null then [] else buffer[..]
  }

  /** The answer `value` delivered: in front of the caller's buffer if there is one, else as a new vector. */
  ghost predicate Delivered(value: Outcome<seq<byte>>, r: Outcome<XattrValue>, buffer: array?<byte>, before: seq<byte>)
    reads if buffer == null then {} else {buffer}
  {
    match value
    case Ok(v) =>
      if buffer == null then r == Ok(Vec(v))
      else r == Ok(Buffer(|v|)) && |v| <= |before| && buffer[..] == v + before[|v|..]
    case Err(e) => r == Err(e)
    case Fault => r == Fault
  }

  lemma DeliveredErr(value: Outcome<seq<byte>>, r: Outcome<XattrValue>, buffer: array?<byte>, before: seq<byte>)
    ensures Delivered(value, r, buffer, before) ==> (r == Err(ENODATA) <==> value == Err(ENODATA))
  {
  }

  function Room(buffer: array?<byte>): Option<nat> {
    if buffer == null then None else Some(buffer.Length)
  }

  /** Read the value whose name has just matched. */
  method ReadValue(it: SkippableContinuousIter, h: EntryHeader, buffer: array?<byte>) returns (r: Outcome<XattrValue>)
    requires it.Valid()
    modifies it, it.iter, if buffer == null then {} else {buffer}
    ensures Delivered(if buffer != null && buffer.Length < h.valueLen then Err(ERANGE)
                      else if old(it.View()).left < h.valueLen then Fault
                      else Ok(old(Remaining(it.iter.backend, it.View()))[..h.valueLen]),
                      r, buffer, old(Contents(buffer)))
  {
    hide Remaining, Advance, SkippableContinuousIter.Valid, SkippableContinuousIter.View;
    if buffer != null {
      if buffer.Length < h.valueLen {
        return Err(ERANGE);
      }
      var read := it.Read(buffer, 0, h.valueLen);
      if !read.Ok? {
        return Fault;
      }
      assert buffer[..] == buffer[0..h.valueLen] + buffer[h.valueLen..];
      r := Ok(Buffer(h.valueLen));
    } else {
      var b := new byte[h.valueLen](_ => 0);
      var read := it.Read(b, 0, h.valueLen);
      if !read.Ok? {
        return Fault;
      }
      assert b[..] == b[0..h.valueLen];
      r := Ok(Vec(b[..]));
    }
  }

  /** Query one entry whose header has just been read. */
  method QueryXattrValue(it: SkippableContinuousIter, fs: FileSystem, h: EntryHeader,
                         name: seq<byte>, index: nat, buffer: array?<byte>)
    returns (r: Outcome<XattrValue>)
    requires it.Valid() && it.iter.sb == fs.sb && it.iter.backend == fs.backend
    modifies it, it.iter, if buffer == null then {} else {buffer}
    ensures match old(QueryCur(fs, it.View(), h, name, index, Room(buffer)))
            case Answer(value) => Delivered(value, r, buffer, old(Contents(buffer)))
            case Rejected(c) =>
              && r == Err(ENODATA) && it.Valid() && it.View() == c
              && Contents(buffer) == old(Contents(buffer))
  {
    hide Remaining, Advance, Guard, CmpOutcome, SkipCur, BodySize, QueryCur,
      SkippableContinuousIter.Valid, SkippableContinuousIter.View;
    QuerySteps(fs, it.View(), h, name, index, Room(buffer));
    var guard := Guard(fs.infixes, h, name, index);
    if guard.None? {
      return Err(ENODATA);
    }
    var s := name[guard.value..];
    var cmp := it.TryCmp(s);
    match cmp
    case CmpFault => r := Fault;
    case Equal => r := ReadValue(it, h, buffer);
    case NotEqual(k) =>
      CmpStopsAtBuffer(fs.sb, fs.backend, old(it.View()), s, k);
      var skipped := it.Skip(BodySize(h) - k);
      r := if skipped.Ok? then Err(ENODATA) else Fault;
  }

  /** Read the shared index table of an inode, buffer by buffer. */
  method ReadInodeXattrsSharedEntries(fs: FileSystem, nid: u64, info: InodeInfo) returns (r: SharedEntries)
    ensures r == SharedEntriesAt(fs, nid, info)
  {
    hide Iloc, ChunkLen, Shl, WordsOf, LE;
    if info.XattrSize() == 0 {
      return SharedEntries(0, []);
    }
    var offset := Iloc(fs.sb, nid) + info.InodeSize();
    var buf := new byte[12](_ => 0);
    Fill(fs.backend, buf, 0, 12, 0, offset);
    ghost var summary := Fetch(fs.backend, 0, offset, 12);
    assert buf[..] == summary;
    var nameFilter, sharedCount := U32(buf[0..4]), buf[4];
    offset := offset + 12;
    var indexes: seq<u32> := [];
    var iter := new ContinuousTempBufferIter(fs.sb, fs.backend, offset, SharedTableSize(sharedCount));
    ghost var table := WordsOf(Fetch(fs.backend, 0, offset, iter.len));
    TableAligned(Iloc(fs.sb, nid), info.InodeSize());
    TableSize(sharedCount);
    while true
      invariant fresh(iter) && iter.sb == fs.sb && iter.backend == fs.backend
      invariant iter.offset % 4 == 0 && iter.len % 4 == 0
      invariant table == indexes + WordsOf(Fetch(fs.backend, 0, iter.offset, iter.len))
      decreases iter.len
    {
      WholeWords(fs.sb, fs.backend, iter.offset, iter.len);
      var next := iter.Next();
      if next.None? {
        break;
      }
      indexes := indexes + WordsOf(next.value);
    }
    r := SharedEntries(nameFilter, indexes);
  }

  lemma TableAligned(iloc: nat, inodeSize: nat)
    requires iloc % 32 == 0 && inodeSize in {32, 64}
    ensures (iloc + inodeSize + 12) % 4 == 0
  {
    assert iloc == 4 * (8 * (iloc / 32));
  }

  /** The loop over the inline entries of one inode. */
  method SearchInline(it: SkippableContinuousIter, fs: FileSystem, name: seq<byte>, index: nat, buffer: array?<byte>)
    returns (r: Outcome<XattrValue>)
    requires it.Valid() && it.iter.sb == fs.sb && it.iter.backend == fs.backend
    modifies it, it.iter, if buffer == null then {} else {buffer}
    ensures Delivered(old(InlineSearch(fs, it.View(), name, index, Room(buffer))), r, buffer, old(Contents(buffer)))
    ensures r == Err(ENODATA) ==> Contents(buffer) == old(Contents(buffer))
  {
    hide Remaining, Advance, QueryCur, SkippableContinuousIter.Valid, SkippableContinuousIter.View;
    while !it.Eof()
      invariant it.Valid()
      invariant InlineSearch(fs, it.View(), name, index, Room(buffer))
             == old(InlineSearch(fs, it.View(), name, index, Room(buffer)))
      invariant Contents(buffer) == old(Contents(buffer))
      decreases it.View().left
    {
      ghost var c := it.View();
      var header := GetEntryHeader(it);
      if !header.Ok? {
        return Fault;
      }
      r := QueryXattrValue(it, fs, header.value, name, index, buffer);
      if r != Err(ENODATA) {
        return;
      }
    }
    r := Err(ENODATA);
  }

  /** A cursor over everything from a shared entry on. */
  method OpenShared(fs: FileSystem, entryIndex: u32) returns (it: SkippableContinuousIter)
    ensures fresh(it) && fresh(it.iter) && it.iter.sb == fs.sb && it.iter.backend == fs.backend
    ensures it.Valid() && it.View() == SharedCursor(fs, entryIndex)
  {
    hide ChunkLen, BlkPos, SkippableContinuousIter.Valid, SkippableContinuousIter.View;
    var address := BlkPos(fs.sb, fs.sb.xattrBlkaddr) + (entryIndex as nat) * 4;
    var iter := new ContinuousTempBufferIter(fs.sb, fs.backend, address, U64_RANGE - 1);
    var provider := SkippableContinuousIter.TryNew(iter);
    it := provider.value;
  }

  /** A cursor over the inline entries, if the inode has any. */
  method OpenInline(fs: FileSystem, inode: Inode) returns (provider: Option<SkippableContinuousIter>)
    ensures provider.Some? <==> HasInline(inode)
    ensures provider.Some? ==>
              var it := provider.value;
              && fresh(it) && fresh(it.iter) && it.iter.sb == fs.sb && it.iter.backend == fs.backend
              && it.Valid() && it.View() == InlineCursor(fs, inode)
  {
    hide Iloc, ChunkLen, InodeInfo.XattrSize, InodeInfo.InodeSize, WfCur,
      SkippableContinuousIter.Valid, SkippableContinuousIter.View;
    var sharedCount := |inode.sharedIndexes|;
    var inlineOffset := Iloc(fs.sb, inode.nid) + inode.info.InodeSize() + 12 + 4 * sharedCount;
    var inlineHeaderSz := 12 + sharedCount * 4;
    provider := None;
    if inlineHeaderSz <= inode.info.XattrSize() {
      var inlineLen := inode.info.XattrSize() - inlineHeaderSz;
      var iter := new ContinuousTempBufferIter(fs.sb, fs.backend, inlineOffset, inlineLen);
      provider := SkippableContinuousIter.TryNew(iter);
    }
  }

  /** Query one shared entry, with a cursor of its own. */
  method QueryShared(fs: FileSystem, entryIndex: u32, name: seq<byte>, index: nat, buffer: array?<byte>)
    returns (r: Outcome<XattrValue>)
    modifies if buffer == null then {} else {buffer}
    ensures match QuerySharedSpec(fs, entryIndex, name, index, Room(buffer))
            case Answer(value) => Delivered(value, r, buffer, old(Contents(buffer)))
            case Rejected(_) => r == Err(ENODATA) && Contents(buffer) == old(Contents(buffer))
  {
    hide Remaining, Advance, QueryCur, HeaderFrom, SharedCursor, Delivered, Contents,
      SkippableContinuousIter.Valid, SkippableContinuousIter.View;
    var it := OpenShared(fs, entryIndex);
    var header := GetEntryHeader(it);
    r := QueryXattrValue(it, fs, header.value, name, index, buffer);
  }

  /** The loop over the shared entries. */
  method SearchShared(fs: FileSystem, indexes: seq<u32>, name: seq<byte>, index: nat, buffer: array?<byte>)
    returns (r: Outcome<XattrValue>)
    modifies if buffer == null then {} else {buffer}
    ensures Delivered(SharedSearch(fs, indexes, name, index, Room(buffer)), r, buffer, old(Contents(buffer)))
  {
    hide QuerySharedSpec;
    for i := 0 to |indexes|
      invariant SharedSearch(fs, indexes[i..], name, index, Room(buffer)) ==
                SharedSearch(fs, indexes, name, index, Room(buffer))
      invariant Contents(buffer) == old(Contents(buffer))
    {
      assert indexes[i..][1..] == indexes[i + 1..];
      r := QueryShared(fs, indexes[i], name, index, buffer);
      if r != Err(ENODATA) {
        return;
      }
    }
    r := Err(ENODATA);
  }

  method GetXattr(fs: FileSystem, inode: Inode, index: nat, name: seq<byte>, buffer: array?<byte>)
    returns (r: Outcome<XattrValue>)
    modifies if buffer == null then {} else {buffer}
    ensures Delivered(GetXattrSpec(fs, inode, name, index, Room(buffer)), r, buffer, old(Contents(buffer)))
  {
    hide InlineSearch, SharedSearch, InlineCursor, HasInline, Delivered, Contents,
      SkippableContinuousIter.Valid, SkippableContinuousIter.View;
    var provider := OpenInline(fs, inode);
    if provider.Some? {
      ghost var before := Contents(buffer);
      r := SearchInline(provider.value, fs, name, index, buffer);
      DeliveredErr(InlineSearch(fs, InlineCursor(fs, inode), name, index, Room(buffer)), r, buffer, before);
      if r != Err(ENODATA) {
        return;
      }
    }
    r := SearchShared(fs, inode.sharedIndexes, name, index, buffer);
  }

  /** Print the next inline entry and skip its value. */
  method ListNext(it: SkippableContinuousIter, fs: FileSystem, buffer: array<byte>, lo: nat) returns (r: Outcome<nat>)
    requires it.Valid() && it.iter.sb == fs.sb && it.iter.backend == fs.backend && lo <= buffer.Length
    modifies it, it.iter, buffer
    ensures var entry := old(ListEntry(fs, it.View(), buffer.Length - lo));
            if !entry.Ok? then r == entry.PropagateFailure()
            else
              && r == Ok(|entry.value.0|) && Wrote(entry.value.0, buffer[..], old(buffer[..]), lo)
              && it.Valid() && it.View() == entry.value.1
  {
    hide Remaining, Advance, ListEntry, KeyCur, SkipCur, HeaderFrom, BodySize, Wrote,
      SkippableContinuousIter.Valid, SkippableContinuousIter.View;
    ListEntrySteps(fs, it.View(), buffer.Length - lo);
    var header := GetEntryHeader(it);
    if !header.Ok? {
      return Fault;
    }
    assert buffer[..] == old(buffer[..]);
    r := GetXattrKey(it, fs, header.value, buffer, lo);
    if r.Ok? {
      var skipped := SkipXattrValue(it, header.value);
      if !skipped.Ok? {
        return Fault;
      }
    }
  }

  /** Printing s before what `rest` prints. */
  function After(s: seq<byte>, rest: Outcome<seq<byte>>): Outcome<seq<byte>> {
    if rest.Ok? then Ok(s + rest.value) else rest
  }

  lemma AfterAfter(s: seq<byte>, t: seq<byte>, rest: Outcome<seq<byte>>)
    ensures After([], rest) == rest && After(s, After(t, rest)) == After(s + t, rest)
  {
    if rest.Ok? {
      assert s + (t + rest.value) == s + t + rest.value && [] + rest.value == rest.value;
    }
  }

  /** The loop over the inline entries. */
  method ListInline(it: SkippableContinuousIter, fs: FileSystem, buffer: array<byte>) returns (r: Outcome<nat>)
    requires it.Valid() && it.iter.sb == fs.sb && it.iter.backend == fs.backend
    modifies it, it.iter, buffer
    ensures var names := old(InlineList(fs, it.View(), buffer.Length));
            if !names.Ok? then r == names.PropagateFailure()
            else r == Ok(|names.value|) && Wrote(names.value, buffer[..], old(buffer[..]), 0)
  {
    hide ListEntry, Wrote, After, SkippableContinuousIter.Valid, SkippableContinuousIter.View;
    ghost var before, names := buffer[..], InlineList(fs, it.View(), buffer.Length);
    ghost var done: seq<byte> := [];
    var offset := 0;
    AfterAfter([], [], names);
    WroteNothing(before);
    while !it.Eof()
      invariant it.Valid() && offset == |done| <= buffer.Length
      invariant Wrote(done, buffer[..], before, 0)
      invariant names == After(done, InlineList(fs, it.View(), buffer.Length - offset))
      decreases it.View().left
    {
      ghost var middle := buffer[..];
      ghost var entry := ListEntry(fs, it.View(), buffer.Length - offset);
      Unroll(fs, it.View(), buffer.Length - offset, done);
      r := ListNext(it, fs, buffer, offset);
      if !r.Ok? {
        return;
      }
      WroteMore(done, entry.value.0, buffer[..], middle, before);
      done := done + entry.value.0;
      offset := offset + r.value;
    }
    Finished(done);
    r := Ok(offset);
  }

  lemma WroteNothing(before: seq<byte>)
    ensures Wrote([], before, before, 0)
  {
  }

  lemma Finished(done: seq<byte>)
    ensures After(done, Ok([])) == Ok(done)
  {
    assert done + [] == done;
  }

  lemma Unroll(fs: FileSystem, c: Cur, room: nat, done: seq<byte>)
    requires WfCur(fs.sb, c) && c.left > 0
    ensures var entry := ListEntry(fs, c, room);
            After(done, InlineList(fs, c, room)) ==
              if entry.Ok? then After(done + entry.value.0, InlineList(fs, entry.value.1, room - |entry.value.0|))
              else entry.PropagateFailure()
  {
    hide ListEntry;
    var entry := ListEntry(fs, c, room);
    if entry.Ok? {
      AfterAfter(done, entry.value.0, InlineList(fs, entry.value.1, room - |entry.value.0|));
    }
  }

  /** Print the name of one shared entry, with a cursor of its own. */
  method ListShared(fs: FileSystem, entryIndex: u32, buffer: array<byte>, lo: nat) returns (r: Outcome<nat>)
    requires lo <= buffer.Length
    modifies buffer
    ensures var key := SharedKey(fs, entryIndex, buffer.Length - lo);
            if !key.Ok? then r == key.PropagateFailure()
            else r == Ok(|key.value|) && Wrote(key.value, buffer[..], old(buffer[..]), lo)
  {
    hide Remaining, Advance, KeyCur, HeaderFrom, SharedCursor, Wrote,
      SkippableContinuousIter.Valid, SkippableContinuousIter.View;
    var it := OpenShared(fs, entryIndex);
    var header := GetEntryHeader(it);
    assert buffer[..] == old(buffer[..]);
    r := GetXattrKey(it, fs, header.value, buffer, lo);
  }

  /** The loop over the shared entries, behind the names already printed. */
  method ListAllShared(fs: FileSystem, indexes: seq<u32>, buffer: array<byte>, lo: nat,
                       ghost printed: seq<byte>, ghost before: seq<byte>)
    returns (r: Outcome<nat>)
    requires lo == |printed| <= buffer.Length && Wrote(printed, buffer[..], before, 0)
    modifies buffer
    ensures var names := After(printed, SharedList(fs, indexes, buffer.Length - lo));
            if !names.Ok? then r == names.PropagateFailure()
            else r == Ok(|names.value|) && Wrote(names.value, buffer[..], before, 0)
  {
    hide SharedKey, Wrote, After;
    ghost var names, done := After(printed, SharedList(fs, indexes, buffer.Length - lo)), printed;
    var offset := lo;
    assert indexes[0..] == indexes;
    for i := 0 to |indexes|
      invariant offset == |done| <= buffer.Length
      invariant Wrote(done, buffer[..], before, 0)
      invariant names == After(done, SharedList(fs, indexes[i..], buffer.Length - offset))
    {
      ghost var middle := buffer[..];
      ghost var key := SharedKey(fs, indexes[i], buffer.Length - offset);
      UnrollShared(fs, indexes[i..], buffer.Length - offset, done);
      assert indexes[i..][1..] == indexes[i + 1..];
      r := ListShared(fs, indexes[i], buffer, offset);
      if !r.Ok? {
        return;
      }
      WroteMore(done, key.value, buffer[..], middle, before);
      done := done + key.value;
      offset := offset + r.value;
    }
    Finished(done);
    r := Ok(offset);
  }

  lemma UnrollShared(fs: FileSystem, indexes: seq<u32>, room: nat, done: seq<byte>)
    requires indexes != []
    ensures var key := SharedKey(fs, indexes[0], room);
            After(done, SharedList(fs, indexes, room)) ==
              if key.Ok? then After(done + key.value, SharedList(fs, indexes[1..], room - |key.value|))
              else key.PropagateFailure()
  {
    hide SharedKey;
    var key := SharedKey(fs, indexes[0], room);
    if key.Ok? {
      AfterAfter(done, key.value, SharedList(fs, indexes[1..], room - |key.value|));
    }
  }

  method ListXattrs(fs: FileSystem, inode: Inode, buffer: array<byte>) returns (r: Outcome<nat>)
    modifies buffer
    ensures var names := ListXattrsSpec(fs, inode, buffer.Length);
            if !names.Ok? then r == names.PropagateFailure()
            else r == Ok(|names.value|) && Wrote(names.value, buffer[..], old(buffer[..]), 0)
  {
    hide InlineList, SharedList, InlineCursor, HasInline, Wrote, ListXattrsSpec, After,
      SkippableContinuousIter.Valid, SkippableContinuousIter.View;
    var offset := 0;
    ghost var done: seq<byte> := [];
    ListInOrder(fs, inode, buffer.Length);
    WroteNothing(buffer[..]);
    var provider := OpenInline(fs, inode);
    if provider.Some? {
      ghost var inlined := InlineList(fs, InlineCursor(fs, inode), buffer.Length);
      r := ListInline(provider.value, fs, buffer);
      if !r.Ok? {
        return;
      }
      offset := r.value;
      done := inlined.value;
    }
    r := ListAllShared(fs, inode.sharedIndexes, buffer, offset, done, old(buffer[..]));
  }

  lemma ListInOrder(fs: FileSystem, inode: Inode, room: nat)
    ensures var inlined := if HasInline(inode) then InlineList(fs, InlineCursor(fs, inode), room) else Ok([]);
            ListXattrsSpec(fs, inode, room) ==
              if inlined.Ok? then After(inlined.value, SharedList(fs, inode.sharedIndexes, room - |inlined.value|))
              else inlined.PropagateFailure()
  {
    hide InlineList, SharedList, InlineCursor;
  }
}
