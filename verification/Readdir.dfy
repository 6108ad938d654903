/** Enumerating a directory over mapped iteration: resumable by position or by count, and search. */
module Readdir {
  import opened Bits
  import opened Outcomes
  import opened Streams
  import opened Superblock
  import opened Inodes
  import BlockMap
  import opened RawIters
  import opened Dir

  /** A directory entry and the position it is reported at. */
  datatype Emitted = Emitted(dirent: Dirent, pos: nat)

  // The entries of a run, with their positions

  /** The rest of a block from entry i on, then the blocks that follow. */
  ghost function BlockRest(sb: SuperBlock, buf: seq<byte>, total: nat, i: nat, pos: nat,
                           run: Stream<seq<byte>>): Stream<Emitted>
    decreases |run.items|, 1, total - i
  {
    match DirentAt(buf, total, i)
    case Ok(Some(dirent)) => Cons(Emitted(dirent, pos), BlockRest(sb, buf, total, i + 1, pos + 12, run))
    case Ok(None) => BlocksRest(sb, BlockCeil(sb, pos), run)
    case failure => Stop(failure.PropagateFailure())
  }

  /** The entries of all blocks of a run, the first of them reported at `pos`. */
  ghost function BlocksRest(sb: SuperBlock, pos: nat, run: Stream<seq<byte>>): Stream<Emitted>
    decreases |run.items|, 0, 0
  {
    if run.items == [] then Stream([], run.end)
    else if |run.items[0]| < 12 then Stop(Fault)
    else BlockRest(sb, run.items[0], TotalOf(run.items[0]), 0, pos, Stream(run.items[1..], run.end))
  }

  /** Everything in a directory. */
  ghost function Listing(fs: FileSystem, inode: Inode): Stream<Emitted> {
    BlocksRest(fs.sb, 0, MapRun(fs, inode, 0))
  }

  /** What enumeration from a position goes through: the rest of its block from the next descriptor
      boundary on, then the following blocks. */
  ghost function ListingFrom(fs: FileSystem, inode: Inode, offset: nat): Stream<Emitted> {
    if offset > inode.info.FileSize() then Stop(Err(EUCLEAN))
    else
      var mapOffset := BlockFloor(fs.sb, offset);
      var blkOffset := RoundUp(BlkAccess(fs.sb, offset).off, 12);
      var run := MapRun(fs, inode, mapOffset);
      if run.items == [] then Stop(if run.end.Ok? then Fault else run.end)
      else if |run.items[0]| < 12 then Stop(Fault)
      else
        var rest := Stream(run.items[1..], run.end);
        var pos := mapOffset + blkOffset;
        if blkOffset / 12 <= TotalOf(run.items[0]) then
          BlockRest(fs.sb, run.items[0], TotalOf(run.items[0]), blkOffset / 12, pos, rest)
        else
          BlocksRest(fs.sb, BlockCeil(fs.sb, pos), rest)
  }

  ghost function DirentsOf(s: Stream<Emitted>): (d: seq<Dirent>)
    ensures |d| == |s.items|
  {
    seq(|s.items|, i requires 0 <= i < |s.items| => s.items[i].dirent)
  }

  lemma DirentsCons(e: Emitted, s: Stream<Emitted>)
    ensures DirentsOf(Cons(e, s)) == [e.dirent] + DirentsOf(s)
  {
  }

  // Emission

  /** What a caller does with an entry: it may take it, and it may stop. */
  datatype Verdict = Verdict(take: bool, stop: bool)

  /** A caller: its verdict may depend on everything it was offered before. */
  type Caller = (seq<Emitted>, Emitted) -> Verdict

  /** The entries a caller has taken of those it was offered. */
  function Taken(caller: Caller, offered: seq<Emitted>): seq<Emitted> {
    if offered == [] then []
    else
      var n := |offered| - 1;
      Taken(caller, offered[..n]) + if caller(offered[..n], offered[n]).take then [offered[n]] else []
  }

  /** The caller's side of enumeration. */
  class Emitter {
    const caller: Caller
    var offered: seq<Emitted>
    var accepted: seq<Emitted>

    ghost predicate Valid()
      reads this
    {
      accepted == Taken(caller, offered)
    }

    constructor (caller: Caller)
      ensures this.caller == caller && offered == [] && Valid()
    {
      this.caller, offered, accepted := caller, [], [];
    }

    /** True to stop, whether or not the entry was taken. */
    method Emit(e: Emitted) returns (stop: bool)
      requires Valid()
      modifies this
      ensures Valid() && offered == old(offered) + [e] && stop == caller(old(offered), e).stop
      ensures accepted == old(accepted) + if caller(old(offered), e).take then [e] else []
    {
      var verdict := caller(offered, e);
      if verdict.take {
        accepted := accepted + [e];
      }
      offered := offered + [e];
      assert offered[..|offered| - 1] == old(offered);
      stop := verdict.stop;
    }
  }

  /** Feeding a stream to a caller after skipping: what it has been offered in the end, and the result. */
  ghost function Drain(caller: Caller, offered: seq<Emitted>, s: Stream<Emitted>, cnt: nat, skip: nat)
    : (seq<Emitted>, Outcome<()>)
    decreases |s.items|
  {
    if s.items == [] then (offered, s.end)
    else
      var rest := Stream(s.items[1..], s.end);
      if cnt < skip then Drain(caller, offered, rest, cnt + 1, skip)
      else if caller(offered, s.items[0]).stop then (offered + [s.items[0]], Ok(()))
      else Drain(caller, offered + [s.items[0]], rest, cnt + 1, skip)
  }

  lemma DrainCons(caller: Caller, offered: seq<Emitted>, e: Emitted, s: Stream<Emitted>, cnt: nat, skip: nat)
    ensures Drain(caller, offered, Cons(e, s), cnt, skip) ==
              if cnt < skip then Drain(caller, offered, s, cnt + 1, skip)
              else if caller(offered, e).stop then (offered + [e], Ok(()))
              else Drain(caller, offered + [e], s, cnt + 1, skip)
  {
    assert Cons(e, s).items[1..] == s.items;
  }

  /** The loop over one block. It ends early when the emitter stops or an entry faults. */
  method EmitBlock(fs: FileSystem, collection: DirCollection, start: nat, count: nat, skipents: nat, emitter: Emitter,
                   ghost run: Stream<seq<byte>>)
    returns (done: Option<Outcome<()>>, pos: nat, cnt: nat)
    requires emitter.Valid()
    modifies collection, emitter
    ensures emitter.Valid()
    ensures var all := Drain(emitter.caller, old(emitter.offered),
                             BlockRest(fs.sb, collection.data, collection.total, old(collection.offset), start, run),
                             count, skipents);
            match done
            case Some(r) => all == (emitter.offered, r)
            case None =>
              all == Drain(emitter.caller, emitter.offered,
                           BlocksRest(fs.sb, BlockCeil(fs.sb, pos), run), cnt, skipents)
  {
    hide BlockCeil, DirentAt;
    pos, cnt, done := start, count, None;
    ghost var all := Drain(emitter.caller, emitter.offered,
                           BlockRest(fs.sb, collection.data, collection.total, collection.offset, pos, run),
                           cnt, skipents);
    while true
      invariant emitter.Valid()
      invariant all == Drain(emitter.caller, emitter.offered,
                             BlockRest(fs.sb, collection.data, collection.total, collection.offset, pos, run),
                             cnt, skipents)
      decreases collection.total - collection.offset
    {
      var next := collection.Next();
      if !next.Ok? {
        return Some(next.PropagateFailure()), pos, cnt;
      }
      if next.value.None? {
        return None, pos, cnt;
      }
      var e := Emitted(next.value.value, pos);
      DrainCons(emitter.caller, emitter.offered, e,
                BlockRest(fs.sb, collection.data, collection.total, collection.offset, pos + 12, run), cnt, skipents);
      if cnt >= skipents {
        var stop := emitter.Emit(e);
        if stop {
          return Some(Ok(())), pos, cnt;
        }
      }
      pos := pos + 12;
      cnt := cnt + 1;
    }
  }

  /** The loop over the buffers behind the first. */
  method EmitBlocks(fs: FileSystem, iter: TempBufferMapIter, start: nat, count: nat, skipents: nat, emitter: Emitter)
    returns (r: Outcome<()>)
    requires iter.mapIter.len == iter.mapIter.inode.info.FileSize() && iter.mapIter.fs == fs && emitter.Valid()
    modifies iter.mapIter, emitter
    ensures emitter.Valid()
    ensures (emitter.offered, r) ==
              Drain(emitter.caller, old(emitter.offered),
                    BlocksRest(fs.sb, start, MapRun(fs, iter.mapIter.inode, old(iter.mapIter.offset))), count, skipents)
  {
    hide BlockCeil, DirentAt, MapRun, TotalOf;
    var mapIter, pos, cnt := iter.mapIter, start, count;
    ghost var all := Drain(emitter.caller, emitter.offered,
                           BlocksRest(fs.sb, pos, MapRun(fs, mapIter.inode, mapIter.offset)), cnt, skipents);
    while true
      invariant emitter.Valid()
      invariant all == Drain(emitter.caller, emitter.offered,
                             BlocksRest(fs.sb, pos, MapRun(fs, mapIter.inode, mapIter.offset)), cnt, skipents)
      decreases if mapIter.offset < mapIter.len then mapIter.len - mapIter.offset else 0
    {
      var step := iter.Next();
      if step.None? {
        return Ok(());
      }
      if !step.value.Ok? {
        return step.value.PropagateFailure();
      }
      var next := DirCollection.New(step.value.value);
      if !next.Ok? {
        return Fault;
      }
      var done: Option<Outcome<()>>;
      done, pos, cnt := EmitBlock(fs, next.value, pos, cnt, skipents, emitter,
                                  MapRun(fs, mapIter.inode, mapIter.offset));
      if done.Some? {
        return done.value;
      }
      pos := BlockCeil(fs.sb, pos);
    }
  }

  method FillDentries(fs: FileSystem, inode: Inode, offset: nat, skipents: nat, emitter: Emitter)
    returns (r: Outcome<()>)
    requires emitter.Valid()
    modifies emitter
    ensures emitter.Valid()
    ensures (emitter.offered, r) ==
              Drain(emitter.caller, old(emitter.offered), ListingFrom(fs, inode, offset), 0, skipents)
  {
    hide RoundUp, BlockCeil, BlockFloor, DirentAt, MapRun, TotalOf, Drain, BlocksRest, BlockRest, BlkAccess, Taken;
    var sb := fs.sb;
    var accessor := BlkAccess(sb, offset);
    if offset > inode.info.FileSize() {
      DrainStop(emitter.caller, emitter.offered, Err(EUCLEAN), skipents);
      return Err(EUCLEAN);
    }
    var mapOffset := BlockFloor(sb, offset);
    var blkOffset := RoundUp(accessor.off, 12);
    var mapIter := new MapIter(fs, inode, mapOffset);
    var iter := new TempBufferMapIter(mapIter);
    var first := iter.Next();
    if first.None? {
      DrainStop(emitter.caller, emitter.offered, Fault, skipents);
      return Fault;
    }
    if !first.value.Ok? {
      DrainStop(emitter.caller, emitter.offered, first.value.PropagateFailure(), skipents);
      return first.value.PropagateFailure();
    }
    var attempt := DirCollection.New(first.value.value);
    if !attempt.Ok? {
      DrainStop(emitter.caller, emitter.offered, Fault, skipents);
      return Fault;
    }
    var collection := attempt.value;
    var cnt: nat, pos: nat := 0, mapOffset + blkOffset;
    ghost var run := MapRun(fs, inode, mapIter.offset);
    if blkOffset / 12 <= collection.total {
      collection.SkipDir(blkOffset / 12);
      var done: Option<Outcome<()>>;
      done, pos, cnt := EmitBlock(fs, collection, pos, cnt, skipents, emitter, run);
      if done.Some? {
        return done.value;
      }
    }
    pos := BlockCeil(sb, pos);
    r := EmitBlocks(fs, iter, pos, cnt, skipents, emitter);
  }

  lemma DrainStop(caller: Caller, offered: seq<Emitted>, failure: Outcome<()>, skip: nat)
    requires !failure.Ok?
    ensures Drain(caller, offered, Stop(failure), 0, skip) == (offered, failure)
  {
  }

  // Search

  /** The number of the first entry with a name. */
  ghost function FindIn(s: Stream<Emitted>, name: seq<byte>): Outcome<Option<u64>>
    decreases |s.items|
  {
    if s.items == [] then
      if s.end.Ok? then Ok(None) else s.end.PropagateFailure()
    else if s.items[0].dirent.name == name then Ok(Some(s.items[0].dirent.desc.nid))
    else FindIn(Stream(s.items[1..], s.end), name)
  }

  lemma FindCons(e: Emitted, s: Stream<Emitted>, name: seq<byte>)
    ensures FindIn(Cons(e, s), name) == if e.dirent.name == name then Ok(Some(e.dirent.desc.nid)) else FindIn(s, name)
  {
    assert Cons(e, s).items[1..] == s.items;
  }

  method FindInBlock(collection: DirCollection, name: seq<byte>, ghost fs: FileSystem, ghost pos: nat,
                     ghost run: Stream<seq<byte>>)
    returns (done: Option<Outcome<Option<u64>>>, ghost pos': nat)
    modifies collection
    ensures var s := BlockRest(fs.sb, collection.data, collection.total, old(collection.offset), pos, run);
            match done
            case Some(r) => r == FindIn(s, name)
            case None => FindIn(s, name) == FindIn(BlocksRest(fs.sb, pos', run), name)
  {
    hide BlockCeil, DirentAt;
    pos', done := pos, None;
    ghost var all := FindIn(BlockRest(fs.sb, collection.data, collection.total, collection.offset, pos, run), name);
    while true
      invariant all == FindIn(BlockRest(fs.sb, collection.data, collection.total, collection.offset, pos', run), name)
      decreases collection.total - collection.offset
    {
      var next := collection.Next();
      if !next.Ok? {
        return Some(next.PropagateFailure()), pos';
      }
      if next.value.None? {
        return None, BlockCeil(fs.sb, pos');
      }
      var dirent := next.value.value;
      FindCons(Emitted(dirent, pos'),
               BlockRest(fs.sb, collection.data, collection.total, collection.offset, pos' + 12, run), name);
      if dirent.name == name {
        return Some(Ok(Some(dirent.desc.nid))), pos';
      }
      pos' := pos' + 12;
    }
  }

  method FindNid(fs: FileSystem, inode: Inode, name: seq<byte>) returns (r: Outcome<Option<u64>>)
    ensures r == FindIn(Listing(fs, inode), name)
  {
    hide MapRun, BlockCeil, DirentAt;
    var mapIter := new MapIter(fs, inode, 0);
    var iter := new TempBufferMapIter(mapIter);
    ghost var pos: nat := 0;
    while true
      invariant mapIter.len == inode.info.FileSize() && mapIter.inode == inode && mapIter.fs == fs && fresh(mapIter)
      invariant FindIn(Listing(fs, inode), name) ==
                FindIn(BlocksRest(fs.sb, pos, MapRun(fs, inode, mapIter.offset)), name)
      decreases if mapIter.offset < mapIter.len then mapIter.len - mapIter.offset else 0
    {
      var step := iter.Next();
      if step.None? {
        return Ok(None);
      }
      if !step.value.Ok? {
        return step.value.PropagateFailure();
      }
      var next := DirCollection.New(step.value.value);
      if !next.Ok? {
        return Fault;
      }
      ghost var run := MapRun(fs, inode, mapIter.offset);
      assert Cons(step.value.value, run).items[1..] == run.items;
      var done: Option<Outcome<Option<u64>>>;
      done, pos := FindInBlock(next.value, name, fs, pos, run);
      if done.Some? {
        return done.value;
      }
    }
  }

  /** The first buffer of enumeration is missing exactly at the end of a directory of whole blocks, and then
      enumeration unwraps nothing. */
  lemma EndUnwraps(fs: FileSystem, inode: Inode, offset: nat)
    requires offset <= inode.info.FileSize()
    ensures MapRun(fs, inode, BlockFloor(fs.sb, offset)) == Done() <==>
              offset == inode.info.FileSize() && Low(offset, fs.sb.blkszbits) == 0
    ensures offset == inode.info.FileSize() && Low(offset, fs.sb.blkszbits) == 0 ==>
              ListingFrom(fs, inode, offset) == Stop(Fault)
  {
    hide BlockMap.MapAt, Low, BlockFloor, BlocksRest, BlockRest, BufferLen;
  }

  /** If the first buffer cannot be mapped, enumeration ends with its failure; if it cannot hold a descriptor, with
      a fault. */
  lemma FirstBufferFails(fs: FileSystem, inode: Inode, offset: nat)
    requires offset <= inode.info.FileSize()
    ensures var run := MapRun(fs, inode, BlockFloor(fs.sb, offset));
            && (run.items == [] && !run.end.Ok? ==> ListingFrom(fs, inode, offset) == Stop(run.end))
            && (run.items != [] && |run.items[0]| < 12 ==> ListingFrom(fs, inode, offset) == Stop(Fault))
  {
    hide MapRun, BlocksRest, BlockRest;
  }

  /** Enumeration from the start goes through the whole directory. */
  lemma ListingFromStart(fs: FileSystem, inode: Inode)
    requires inode.info.FileSize() > 0
    ensures MapRun(fs, inode, 0).items != [] ==> ListingFrom(fs, inode, 0) == Listing(fs, inode)
    ensures MapRun(fs, inode, 0).items == [] ==> ListingFrom(fs, inode, 0) == Stop(MapRun(fs, inode, 0).end)
  {
    hide DirentAt, BlockMap.MapAt, BlockFloor, BufferLen;
    ShrBound(0, fs.sb.blkszbits);
    LowZero(fs.sb.blkszbits);
  }

  /** find_nid finds the first entry that enumeration from the start would report under the name. In
      an empty directory it finds nothing, where enumeration unwraps a buffer that is not there. */
  lemma FindIsFirstListed(fs: FileSystem, inode: Inode, name: seq<byte>)
    ensures inode.info.FileSize() > 0 ==> FindIn(Listing(fs, inode), name) == FindIn(ListingFrom(fs, inode, 0), name)
    ensures inode.info.FileSize() == 0 ==>
              FindIn(Listing(fs, inode), name) == Ok(None) && ListingFrom(fs, inode, 0) == Stop(Fault)
  {
    if inode.info.FileSize() > 0 {
      ListingFromStart(fs, inode);
    } else {
      hide BlockMap.MapAt, ListingFrom;
      LowZero(fs.sb.blkszbits);
      EndUnwraps(fs, inode, 0);
    }
  }

  /** A search that does not find the name before the entries end with a failure answers with that failure. */
  lemma {:induction false} FindFails(s: Stream<Emitted>, name: seq<byte>)
    requires !s.end.Ok? && forall e :: e in s.items ==> e.dirent.name != name
    ensures FindIn(s, name) == s.end.PropagateFailure()
    decreases |s.items|
  {
    if s.items != [] {
      assert s.items[0] in s.items;
      FindFails(Stream(s.items[1..], s.end), name);
    }
  }

  /** What a search answers: the first entry of that name, or none exactly when all entries could be
      read and none has it. */
  lemma {:induction false} FindInIs(s: Stream<Emitted>, name: seq<byte>)
    ensures FindIn(s, name) == Ok(None) <==> s.end.Ok? && forall e :: e in s.items ==> e.dirent.name != name
    ensures forall i :: 0 <= i < |s.items| && s.items[i].dirent.name == name
                        && (forall j :: 0 <= j < i ==> s.items[j].dirent.name != name) ==>
              FindIn(s, name) == Ok(Some(s.items[i].dirent.desc.nid))
    decreases |s.items|
  {
    if s.items != [] {
      var rest := Stream(s.items[1..], s.end);
      FindInIs(rest, name);
      assert forall e :: e in s.items <==> e == s.items[0] || e in rest.items;
      forall i | 0 < i < |s.items|
        ensures s.items[i] == rest.items[i - 1]
      {
      }
    }
  }
}
