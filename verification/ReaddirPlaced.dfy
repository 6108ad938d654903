/** Where a listing places the entries of each block, and when that lets enumeration resume. */
module ReaddirPlaced {
  import opened Bits
  import opened Outcomes
  import opened Streams
  import opened Superblock
  import opened Inodes
  import opened RawIters
  import MappedRead
  import opened Dir
  import opened Readdir
  import opened ReaddirResume

  /** The entries of blocks k and on, entry j of a block at the position of its descriptor. */
  ghost function PlacedItems(sb: SuperBlock, k: nat, blocks: seq<seq<byte>>): seq<Emitted>
    decreases |blocks|
  {
    if blocks == [] then []
    else
      (if |blocks[0]| < 12 then [] else Laid(BlockEntries(blocks[0]).items, Shl(k, sb.blkszbits)))
        + PlacedItems(sb, k + 1, blocks[1..])
  }

  lemma {:induction false} PlacedBehind(sb: SuperBlock, k: nat, blocks: seq<seq<byte>>)
    ensures forall e :: e in PlacedItems(sb, k, blocks) ==> e.pos >= Shl(k, sb.blkszbits)
    decreases |blocks|
  {
    hide BlockEntries, Shl;
    if blocks != [] {
      PlacedBehind(sb, k + 1, blocks[1..]);
      ShlNext(k, sb.blkszbits);
    }
  }

  predicate Empty(blocks: seq<seq<byte>>) {
    forall b :: b in blocks ==> |b| >= 12 && TotalOf(b) == 0
  }

  lemma {:induction false} PlacedEmpty(sb: SuperBlock, k: nat, blocks: seq<seq<byte>>)
    requires Empty(blocks)
    ensures PlacedItems(sb, k, blocks) == []
    decreases |blocks|
  {
    hide TotalOf;
    if blocks != [] {
      assert blocks[0] in blocks;
      assert DirentAt(blocks[0], 0, 0) == Ok(None);
      PlacedEmpty(sb, k + 1, blocks[1..]);
    }
  }

  /** Buffers no longer than a block, listed from the start of block k without a failure. */
  ghost predicate Listed(sb: SuperBlock, k: nat, run: Stream<seq<byte>>) {
    && BlocksRest(sb, Shl(k, sb.blkszbits), run).end.Ok?
    && forall b :: b in run.items ==> |b| <= Blksz(sb)
  }

  ghost function ListedFrom(sb: SuperBlock, k: nat, run: Stream<seq<byte>>): Stream<Emitted> {
    BlocksRest(sb, Shl(k, sb.blkszbits), run)
  }

  function Tail(run: Stream<seq<byte>>): Stream<seq<byte>>
    requires run.items != []
  {
    Stream(run.items[1..], run.end)
  }

  /** Where the code goes on behind a block: at the next block if the block has entries, else where it was. */
  function NextStart(k: nat, b: seq<byte>): nat {
    if HasEntries(b) then k + 1 else k
  }

  /** The first block of a listing: its entries at their descriptors, then the blocks after it. */
  lemma FirstBlock(sb: SuperBlock, k: nat, run: Stream<seq<byte>>)
    requires run.items != [] && Listed(sb, k, run)
    ensures var b, next := run.items[0], NextStart(k, run.items[0]);
            && SoundBlock(b) && Listed(sb, next, Tail(run))
            && (HasEntries(b) <==> BlockEntries(b).items != [])
            && ListedFrom(sb, k, run) == Stream(Laid(BlockEntries(b).items, Shl(k, sb.blkszbits))
                                                  + ListedFrom(sb, next, Tail(run)).items,
                                                ListedFrom(sb, next, Tail(run)).end)
  {
    hide BlockRest, BlockCeil, EntriesFrom, Laid, Shl, TotalOf;
    var b, n := run.items[0], sb.blkszbits;
    assert b in run.items;
    BlockSplits(sb, b, TotalOf(b), 0, Shl(k, n), Tail(run));
    assert Shl(k, n) + 12 * (TotalOf(b) - 0) == Shl(k, n) + 12 * TotalOf(b);
    if TotalOf(b) > 0 {
      BlockEndRounds(sb, k, 12 * TotalOf(b));
    } else {
      CutUnique(Shl(k, n), n, k, 0);
    }
  }

  /** A block without entries does not move the position of the blocks after it. */
  lemma EmptyBlockStays(sb: SuperBlock, k: nat, run: Stream<seq<byte>>)
    requires run.items != [] && Listed(sb, k, run) && !HasEntries(run.items[0])
    ensures Listed(sb, k, Tail(run)) && ListedFrom(sb, k, run) == ListedFrom(sb, k, Tail(run))
    ensures PlacedItems(sb, k, run.items) == PlacedItems(sb, k + 1, Tail(run).items)
  {
    hide Listed, ListedFrom, HasEntries, BlockEntries, Shl, TotalOf;
    FirstBlock(sb, k, run);
    var b := run.items[0];
    assert Laid(BlockEntries(b).items, Shl(k, sb.blkszbits)) == [];
  }

  /** The first entry listed stands at the start of the first block, wherever it is stored. */
  lemma {:induction false} FirstAt(sb: SuperBlock, k: nat, run: Stream<seq<byte>>)
    requires Listed(sb, k, run) && exists b :: b in run.items && HasEntries(b)
    ensures ListedFrom(sb, k, run).items != [] && ListedFrom(sb, k, run).items[0].pos == Shl(k, sb.blkszbits)
    decreases |run.items|
  {
    hide Listed, ListedFrom, HasEntries, BlockEntries, Shl;
    FirstBlock(sb, k, run);
    if !HasEntries(run.items[0]) {
      EmptyBlockStays(sb, k, run);
      FirstAt(sb, k, Tail(run));
    }
  }

  /** Blocks without entries are sound and empty, so nothing is listed. */
  lemma NothingListed(sb: SuperBlock, k: nat, run: Stream<seq<byte>>)
    requires Listed(sb, k, run) && forall b :: b in run.items ==> !HasEntries(b)
    ensures ListedFrom(sb, k, run).items == [] && Empty(run.items)
  {
    hide BlockRest, BlocksRest, TotalOf;
    BlocksSound(sb, Shl(k, sb.blkszbits), run);
    EmptyRun(sb, Shl(k, sb.blkszbits), run);
  }

  /** A listing places every entry at its descriptor if and only if the blocks without entries come last. */
  lemma {:induction false} PlacedRunIff(sb: SuperBlock, k: nat, run: Stream<seq<byte>>)
    requires Listed(sb, k, run)
    ensures ListedFrom(sb, k, run).items == PlacedItems(sb, k, run.items) <==> EntriesFirst(run.items)
    decreases |run.items|
  {
    hide Listed, HasEntries, BlockEntries, Shl, Laid, BlocksRest;
    if run.items == [] {
      NothingListed(sb, k, run);
    } else {
      hide ListedFrom, EntriesFirst;
      FirstBlock(sb, k, run);
      var b, rest := run.items[0], Tail(run);
      if HasEntries(b) {
        PlacedRunIff(sb, k + 1, rest);
        EntriesFirstTail(run.items);
        SameTail(Laid(BlockEntries(b).items, Shl(k, sb.blkszbits)),
                 ListedFrom(sb, k + 1, rest).items, PlacedItems(sb, k + 1, rest.items));
      } else {
        EmptyHead(run.items);
        EmptyBlockStays(sb, k, run);
        hide PlacedItems;
        if exists x :: x in rest.items && HasEntries(x) {
          FirstAt(sb, k, rest);
          PlacedBehind(sb, k + 1, rest.items);
          ShlNext(k, sb.blkszbits);
          assert ListedFrom(sb, k, rest).items[0] !in PlacedItems(sb, k + 1, rest.items);
        } else {
          NothingListed(sb, k, rest);
          PlacedEmpty(sb, k + 1, rest.items);
        }
      }
    }
  }

  lemma SameTail(a: seq<Emitted>, b: seq<Emitted>, c: seq<Emitted>)
    ensures a + b == a + c <==> b == c
  {
    assert (a + b)[|a|..] == b && (a + c)[|a|..] == c;
  }

  lemma EntriesFirstTail(blocks: seq<seq<byte>>)
    requires blocks != [] && HasEntries(blocks[0])
    ensures EntriesFirst(blocks) <==> EntriesFirst(blocks[1..])
  {
    hide HasEntries;
    var rest := blocks[1..];
    assert forall i :: 0 < i < |blocks| ==> blocks[i] == rest[i - 1];
  }

  lemma NoneFirst(blocks: seq<seq<byte>>)
    requires !EntriesFirst(blocks)
    ensures blocks != []
  {
  }

  lemma EmptyHead(blocks: seq<seq<byte>>)
    requires blocks != [] && !HasEntries(blocks[0])
    ensures EntriesFirst(blocks) <==> forall b :: b in blocks[1..] ==> !HasEntries(b)
  {
    hide HasEntries;
    var rest := blocks[1..];
    assert forall i :: 0 < i < |blocks| ==> blocks[i] == rest[i - 1] && blocks[i] in rest;
  }

  lemma NextTail(fs: FileSystem, inode: Inode, k: nat)
    requires BlockMapped(fs, inode) && RunAt(fs, inode, k).items != []
    ensures RunAt(fs, inode, k + 1) == Tail(RunAt(fs, inode, k))
    ensures |RunAt(fs, inode, k + 1).items| < |RunAt(fs, inode, k).items|
  {
    hide RunAt, BlockMapped, MappedRead.Logical, MappedRead.LogicalEnd, Shl;
    BlockRun(fs, inode, k);
  }

  lemma {:induction false} BuffersFit(fs: FileSystem, inode: Inode, k: nat)
    requires BlockMapped(fs, inode)
    ensures forall b :: b in RunAt(fs, inode, k).items ==> |b| <= Blksz(fs.sb)
    decreases |RunAt(fs, inode, k).items|
  {
    hide RunAt, BlockMapped;
    var run := RunAt(fs, inode, k);
    if run.items != [] {
      BlockRun(fs, inode, k);
      assert |Tail(run).items| < |run.items|;
      BuffersFit(fs, inode, k + 1);
      assert forall b :: b in run.items ==> b == run.items[0] || b in Tail(run).items;
    }
  }

  /** In a directory that reads without a failure, enumeration reports every entry at the position of its
      descriptor if and only if no block without entries stands before one with entries. */
  lemma PlacedIff(fs: FileSystem, inode: Inode)
    requires BlockMapped(fs, inode) && Listing(fs, inode).end.Ok?
    ensures Listing(fs, inode).items == PlacedItems(fs.sb, 0, MapRun(fs, inode, 0).items) <==>
              EntriesFirst(MapRun(fs, inode, 0).items)
  {
    hide MapRun, BlockMapped, BlocksRest, EntriesFirst;
    RunAtZero(fs, inode);
    ShlZero(fs.sb.blkszbits);
    BuffersFit(fs, inode, 0);
    PlacedRunIff(fs.sb, 0, MapRun(fs, inode, 0));
  }

  // Resuming

  /** Positions do not change what is listed, only where. */
  lemma {:induction false} BlockSame(sb: SuperBlock, b: seq<byte>, total: nat, i: nat,
                                     pos: nat, pos': nat, run: Stream<seq<byte>>)
    ensures DirentsOf(BlockRest(sb, b, total, i, pos, run)) == DirentsOf(BlockRest(sb, b, total, i, pos', run))
    decreases |run.items|, 1, total - i
  {
    hide BlockCeil, BlocksRest, DirentsOf;
    match DirentAt(b, total, i)
    case Ok(Some(dirent)) =>
      BlockSame(sb, b, total, i + 1, pos + 12, pos' + 12, run);
      DirentsCons(Emitted(dirent, pos), BlockRest(sb, b, total, i + 1, pos + 12, run));
      DirentsCons(Emitted(dirent, pos'), BlockRest(sb, b, total, i + 1, pos' + 12, run));
    case Ok(None) => BlocksSame(sb, BlockCeil(sb, pos), BlockCeil(sb, pos'), run);
    case _ =>
  }

  lemma {:induction false} BlocksSame(sb: SuperBlock, pos: nat, pos': nat, run: Stream<seq<byte>>)
    ensures DirentsOf(BlocksRest(sb, pos, run)) == DirentsOf(BlocksRest(sb, pos', run))
    decreases |run.items|, 0, 0
  {
    hide BlockRest, DirentsOf, TotalOf;
    if run.items != [] && |run.items[0]| >= 12 {
      BlockSame(sb, run.items[0], TotalOf(run.items[0]), 0, pos, pos', Tail(run));
    }
  }

  /** Where a block without entries stands before one with entries, resuming behind the first entry after it
      reports that entry again. */
  lemma Repeats(fs: FileSystem, inode: Inode, k: nat)
    requires BlockMapped(fs, inode) && Listed(fs.sb, k, RunAt(fs, inode, k)) && RunAt(fs, inode, k).items != []
    requires !HasEntries(RunAt(fs, inode, k).items[0])
    requires exists b :: b in RunAt(fs, inode, k).items[1..] && HasEntries(b)
    ensures var s, again := ListedFrom(fs.sb, k, RunAt(fs, inode, k)), Shl(k, fs.sb.blkszbits) + 12;
            && s.items != [] && s.items[0].pos + 12 == again
            && DirentsOf(ListingFrom(fs, inode, again)) == DirentsOf(s)
  {
    hide RunAt, BlockMapped, Shl, ListingFrom, BlocksRest, TotalOf, BlockCeil, RoundUp, EntriesFrom;
    var run, next, n := RunAt(fs, inode, k), RunAt(fs, inode, k + 1), fs.sb.blkszbits;
    BlocksSound(fs.sb, Shl(k, n), run);
    assert run.items[0] in run.items;
    FirstBlock(fs.sb, k, run);
    FirstAt(fs.sb, k, run);
    NextTail(fs, inode, k);
    BlockExistsAt(fs, inode, k + 1);
    ShlNext(k, n);
    DescriptorBoundary(1);
    ListingAt(fs, inode, k, 12, 1);
    BlocksSame(fs.sb, BlockCeil(fs.sb, Shl(k, n) + 12 * 1), Shl(k, n), next);
  }

  lemma BlockExistsAt(fs: FileSystem, inode: Inode, k: nat)
    requires RunAt(fs, inode, k).items != []
    ensures Shl(k, fs.sb.blkszbits) < inode.info.FileSize()
  {
    hide Shl;
  }

  lemma LaterBehind(inode: Inode, first: seq<Emitted>, next: Stream<Emitted>, m: nat)
    requires m < |next.items|
    ensures var s := Stream(first + next.items, next.end);
            s.items[|first| + m] == next.items[m] && Later(inode, s, |first| + m) == Later(inode, next, m)
  {
    assert (first + next.items)[|first| + m + 1..] == next.items[m + 1..];
  }

  lemma LaterIsShorter(inode: Inode, again: Stream<Emitted>, s: Stream<Emitted>)
    requires s.items != [] && DirentsOf(again) == DirentsOf(s)
    ensures again != Later(inode, s, 0)
  {
    assert |DirentsOf(again)| == |again.items| && |DirentsOf(s)| == |s.items|;
  }

  /** Then resuming is not seamless. */
  lemma {:induction false} ResumeBreaks(fs: FileSystem, inode: Inode, k: nat) returns (m: nat)
    requires BlockMapped(fs, inode) && Listed(fs.sb, k, RunAt(fs, inode, k))
    requires !EntriesFirst(RunAt(fs, inode, k).items)
    ensures var s := ListedFrom(fs.sb, k, RunAt(fs, inode, k));
            m < |s.items| && ListingFrom(fs, inode, s.items[m].pos + 12) != Later(inode, s, m)
    decreases |RunAt(fs, inode, k).items|
  {
    hide RunAt, BlockMapped, Listed, ListedFrom, HasEntries, EntriesFirst, Shl, ListingFrom, Later, DirentsOf;
    var run := RunAt(fs, inode, k);
    NoneFirst(run.items);
    NextTail(fs, inode, k);
    if HasEntries(run.items[0]) {
      EntriesFirstTail(run.items);
      var first := FirstEntries(fs.sb, k, run);
      var m' := ResumeBreaks(fs, inode, k + 1);
      m := |first| + m';
      LaterBehind(inode, first, ListedFrom(fs.sb, k + 1, Tail(run)), m');
    } else {
      EmptyHead(run.items);
      Repeats(fs, inode, k);
      m := 0;
      var s := ListedFrom(fs.sb, k, run);
      LaterIsShorter(inode, ListingFrom(fs, inode, s.items[0].pos + 12), s);
    }
  }

  lemma FirstEntries(sb: SuperBlock, k: nat, run: Stream<seq<byte>>) returns (first: seq<Emitted>)
    requires run.items != [] && Listed(sb, k, run) && HasEntries(run.items[0])
    ensures Listed(sb, k + 1, Tail(run))
    ensures var next := ListedFrom(sb, k + 1, Tail(run));
            ListedFrom(sb, k, run) == Stream(first + next.items, next.end)
  {
    hide Listed, ListedFrom, HasEntries, BlockEntries, Laid, Shl, TotalOf;
    FirstBlock(sb, k, run);
    first := Laid(BlockEntries(run.items[0]).items, Shl(k, sb.blkszbits));
  }

  /** In a directory that reads without a failure, enumeration can be resumed behind every entry if and only if
      no block without entries stands before one with entries. */
  lemma ResumeIff(fs: FileSystem, inode: Inode)
    requires BlockMapped(fs, inode) && Listing(fs, inode).end.Ok?
    ensures (forall m: nat :: m < |Listing(fs, inode).items| ==>
               ListingFrom(fs, inode, Listing(fs, inode).items[m].pos + 12) == Later(inode, Listing(fs, inode), m))
       <==> EntriesFirst(MapRun(fs, inode, 0).items)
  {
    hide MapRun, BlockMapped, BlocksRest, EntriesFirst, ListingFrom, Later, GoodFrom;
    RunAtZero(fs, inode);
    ShlZero(fs.sb.blkszbits);
    if EntriesFirst(MapRun(fs, inode, 0).items) {
      forall m: nat | m < |Listing(fs, inode).items|
        ensures ListingFrom(fs, inode, Listing(fs, inode).items[m].pos + 12) == Later(inode, Listing(fs, inode), m)
      {
        if inode.info.FileSize() == 0 {
          NothingAt(fs, inode, 0);
          EmptyRun(fs.sb, 0, MapRun(fs, inode, 0));
        }
        AllGood(fs, inode);
        var k, j := ResumeSeamless(fs, inode, m);
      }
    } else {
      BuffersFit(fs, inode, 0);
      var m := ResumeBreaks(fs, inode, 0);
    }
  }

  /** A first block without entries before a second with entries: the entries of the second are reported from
      position 0 on, and resuming behind the first of them reports all of them again, a block further on. */
  lemma EmptyBlockRepeats(fs: FileSystem, inode: Inode)
    requires BlockMapped(fs, inode) && Listing(fs, inode).end.Ok?
    requires !EntriesAt(fs, inode, 0) && EntriesAt(fs, inode, 1)
    ensures Listing(fs, inode) == BlocksRest(fs.sb, 0, RunAt(fs, inode, 1))
    ensures ListingFrom(fs, inode, 12) == BlocksRest(fs.sb, Blksz(fs.sb), RunAt(fs, inode, 1))
    ensures Listing(fs, inode).items != [] && Listing(fs, inode).items[0].pos == 0
    ensures DirentsOf(ListingFrom(fs, inode, 12)) == DirentsOf(Listing(fs, inode))
  {
    hide RunAt, BlockMapped, BlocksRest, HasEntries, Listing, ListingFrom, Listed, SoundBlock, BlockEntries, DirentsOf,
      PlacedItems, Laid, Shl, Pow2, Low;
    var run := RunAt(fs, inode, 0);
    FirstTwo(fs, inode);
    NextTail(fs, inode, 0);
    AllListed(fs, inode);
    EmptyBlockStays(fs.sb, 0, run);
    Repeats(fs, inode, 0);
    EmptyGood(fs, inode);
    BehindEmpty(fs, inode, 0);
    ShlZero(fs.sb.blkszbits);
    ShlNext(0, fs.sb.blkszbits);
  }

  lemma FirstTwo(fs: FileSystem, inode: Inode)
    requires BlockMapped(fs, inode) && Listing(fs, inode).end.Ok? && EntriesAt(fs, inode, 1)
    ensures RunAt(fs, inode, 0).items != [] && Shl(0, fs.sb.blkszbits) + Blksz(fs.sb) < inode.info.FileSize()
  {
    hide MapRun, BlockMapped, HasEntries, Listing, Shl, Pow2;
    BlockExistsAt(fs, inode, 1);
    ShlZero(fs.sb.blkszbits);
    ShlNext(0, fs.sb.blkszbits);
    FirstExists(fs, inode);
  }

  lemma EmptyGood(fs: FileSystem, inode: Inode)
    requires BlockMapped(fs, inode) && RunAt(fs, inode, 0).items != [] && Listed(fs.sb, 0, RunAt(fs, inode, 0))
    ensures GoodAt(fs, inode, 0)
  {
    hide RunAt, BlockMapped, Listed, SoundBlock, HasEntries, BlockEntries, ListedFrom, Laid;
    FirstBlock(fs.sb, 0, RunAt(fs, inode, 0));
  }

  lemma AllListed(fs: FileSystem, inode: Inode)
    requires BlockMapped(fs, inode) && Listing(fs, inode).end.Ok?
    ensures Listed(fs.sb, 0, RunAt(fs, inode, 0))
    ensures ListedFrom(fs.sb, 0, RunAt(fs, inode, 0)) == Listing(fs, inode)
  {
    hide MapRun, BlockMapped, BlocksRest;
    RunAtZero(fs, inode);
    ShlZero(fs.sb.blkszbits);
    BuffersFit(fs, inode, 0);
  }

  /** Twelve bytes into a block without entries, enumeration goes on with the next block at its start. */
  lemma BehindEmpty(fs: FileSystem, inode: Inode, k: nat)
    requires GoodAt(fs, inode, k) && !EntriesAt(fs, inode, k)
    requires Shl(k, fs.sb.blkszbits) + 12 <= inode.info.FileSize()
    ensures ListingFrom(fs, inode, Shl(k, fs.sb.blkszbits) + 12) ==
              BlocksRest(fs.sb, Shl(k + 1, fs.sb.blkszbits), RunAt(fs, inode, k + 1))
  {
    hide RunAt, GoodAt, EntriesAt, BlocksRest, ListingFrom, Shl, BlockCeil, RoundUp, From;
    DescriptorBoundary(1);
    ListingAt(fs, inode, k, 12, 1);
    BlockEndRounds(fs.sb, k, 12);
  }

  lemma FirstExists(fs: FileSystem, inode: Inode)
    requires inode.info.FileSize() > 0 && Listing(fs, inode).end.Ok?
    ensures RunAt(fs, inode, 0).items != []
  {
    hide MapRun;
    ShlZero(fs.sb.blkszbits);
    RunAtZero(fs, inode);
    if MapRun(fs, inode, 0).items == [] {
      NoMoreBlocks(fs, inode, 0);
    }
  }
}
