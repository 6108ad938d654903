/** Resuming enumeration: by count from the start, and by position. */
module ReaddirResume {
  import opened Bits
  import opened Outcomes
  import opened Streams
  import opened Superblock
  import opened Inodes
  import opened BlockMap
  import opened RawIters
  import opened MappedRead
  import opened Dir
  import opened Readdir

  // By count

  /** A call that ends with `all` offered and r has offered consecutive entries from lo on, up to the first
      that makes the caller stop, or to the end. */
  ghost predicate OffersStretch(caller: Caller, offered: seq<Emitted>, s: Stream<Emitted>, lo: nat,
                                all: seq<Emitted>, r: Outcome<()>)
  {
    && |offered| <= |all| && lo + (|all| - |offered|) <= |s.items|
    && var hi := lo + (|all| - |offered|);
       && all == offered + s.items[lo..hi]
       && (forall i :: |offered| <= i < |all| - 1 ==> !caller(all[..i], all[i]).stop)
       && if |all| > |offered| && caller(all[..|all| - 1], all[|all| - 1]).stop then r == Ok(())
          else hi == |s.items| && r == s.end
  }

  /** One call offers a stretch of the entries after those skipped. */
  lemma {:induction false} DrainOffers(caller: Caller, offered: seq<Emitted>, s: Stream<Emitted>, cnt: nat, skip: nat)
    ensures var (all, r) := Drain(caller, offered, s, cnt, skip);
            var lo := if cnt < skip then Min(skip - cnt, |s.items|) else 0;
            OffersStretch(caller, offered, s, lo, all, r)
    decreases |s.items|
  {
    if s.items == [] {
      assert offered + [] == offered;
    } else if cnt >= skip && caller(offered, s.items[0]).stop {
      var all := offered + [s.items[0]];
      assert all[..|all| - 1] == offered && s.items[0..1] == [s.items[0]];
    } else {
      hide OffersStretch;
      var rest := Stream(s.items[1..], s.end);
      var offered' := if cnt < skip then offered else offered + [s.items[0]];
      var (all, r) := Drain(caller, offered', rest, cnt + 1, skip);
      DrainOffers(caller, offered', rest, cnt + 1, skip);
      var lo := if cnt + 1 < skip then Min(skip - cnt - 1, |rest.items|) else 0;
      StretchCons(caller, offered, s, lo, all, r, cnt >= skip);
    }
  }

  /** A stretch of the rest is a stretch of the whole, whether the first entry was offered or passed over. */
  lemma StretchCons(caller: Caller, offered: seq<Emitted>, s: Stream<Emitted>, lo: nat,
                    all: seq<Emitted>, r: Outcome<()>, first: bool)
    requires s.items != [] && (first ==> lo == 0 && !caller(offered, s.items[0]).stop)
    requires OffersStretch(caller, if first then offered + [s.items[0]] else offered,
                           Stream(s.items[1..], s.end), lo, all, r)
    ensures OffersStretch(caller, offered, s, if first then 0 else lo + 1, all, r)
  {
    var offered', rest := if first then offered + [s.items[0]] else offered, s.items[1..];
    var hi := lo + (|all| - |offered'|);
    TailSlice(s.items, lo, hi);
    if first {
      assert offered' + s.items[1..hi + 1] == offered + s.items[0..hi + 1];
      assert all[..|offered|] == offered && all[|offered|] == s.items[0];
    }
  }

  lemma TailSlice(items: seq<Emitted>, lo: nat, hi: nat)
    requires items != [] && lo <= hi < |items|
    ensures items[1..][lo..hi] == items[lo + 1..hi + 1]
  {
  }

  /** A caller that does not lose entries stops at each entry it does not take. */
  ghost predicate Lossless(caller: Caller) {
    forall offered, e :: caller(offered, e).take || caller(offered, e).stop
  }

  /** Such a caller has taken everything it was offered, except possibly the entry it stopped at. */
  lemma {:induction false} TakenAll(caller: Caller, all: seq<Emitted>)
    requires Lossless(caller) && forall i :: 0 <= i < |all| - 1 ==> !caller(all[..i], all[i]).stop
    ensures Taken(caller, all) == all || (all != [] && Taken(caller, all) == all[..|all| - 1])
    ensures all != [] && caller(all[..|all| - 1], all[|all| - 1]).take ==> Taken(caller, all) == all
    ensures |all| > 1 ==> all[..1] <= Taken(caller, all)
  {
    if all != [] {
      var front := all[..|all| - 1];
      assert all == front + [all[|all| - 1]];
      forall i | 0 <= i < |front|
        ensures !caller(front[..i], front[i]).stop
      {
        assert front[..i] == all[..i] && front[i] == all[i];
      }
      TakenAll(caller, front);
      if front != [] {
        assert !caller(front[..|front| - 1], front[|front| - 1]).stop;
      }
    }
  }

  /** Everything taken by a sequence of calls from the start, each skipping what was taken before. */
  ghost function Paginate(s: Stream<Emitted>, callers: seq<Caller>): seq<Emitted> {
    if callers == [] then []
    else
      var before, caller := Paginate(s, callers[..|callers| - 1]), callers[|callers| - 1];
      before + Taken(caller, Drain(caller, [], s, 0, |before|).0)
  }

  /** Pagination by count loses and repeats nothing, whether a caller stops at an entry it takes or at one
      it does not; and if every caller takes at least the first entry it is offered, as many calls as
      entries are enough. */
  lemma {:induction false} PaginateExact(s: Stream<Emitted>, callers: seq<Caller>)
    requires forall caller :: caller in callers ==> Lossless(caller)
    ensures Paginate(s, callers) <= s.items
    ensures (forall caller, e :: caller in callers ==> caller([], e).take) ==>
              |Paginate(s, callers)| >= Min(|callers|, |s.items|)
  {
    if callers != [] {
      hide OffersStretch, Lossless;
      var earlier, last := callers[..|callers| - 1], callers[|callers| - 1];
      assert last in callers && forall caller :: caller in earlier ==> caller in callers;
      PaginateExact(s, earlier);
      PageExact(s, last, |Paginate(s, earlier)|);
    }
  }

  /** Pages of a directory, each from a call at offset 0 that skips what was taken before, are a beginning of its
      whole list of entries, and reach its end. */
  lemma DirectoryPages(fs: FileSystem, inode: Inode, callers: seq<Caller>)
    requires forall caller :: caller in callers ==> Lossless(caller)
    ensures var pages := Paginate(ListingFrom(fs, inode, 0), callers);
            && pages <= Listing(fs, inode).items
            && ((forall caller, e :: caller in callers ==> caller([], e).take) ==>
                  |pages| >= Min(|callers|, |Listing(fs, inode).items|))
  {
    hide Lossless, ListingFrom, Listing;
    PaginateExact(ListingFrom(fs, inode, 0), callers);
    SameEntries(fs, inode);
  }

  lemma SameEntries(fs: FileSystem, inode: Inode)
    ensures ListingFrom(fs, inode, 0).items == Listing(fs, inode).items
  {
    hide MapAt, ListingFrom, BufferLen;
    if inode.info.FileSize() > 0 {
      ListingFromStart(fs, inode);
    } else {
      LowZero(fs.sb.blkszbits);
      EndUnwraps(fs, inode, 0);
    }
  }

  /** One page is a stretch of the entries after those taken before, not empty for a caller that takes the
      first entry it is offered. */
  lemma PageExact(s: Stream<Emitted>, caller: Caller, skip: nat)
    requires Lossless(caller) && skip <= |s.items|
    ensures var page := Taken(caller, Drain(caller, [], s, 0, skip).0);
            && skip + |page| <= |s.items| && page == s.items[skip..skip + |page|]
            && (skip < |s.items| && (forall e :: caller([], e).take) ==> page != [])
  {
    hide Lossless, Drain, Taken, OffersStretch;
    DrainOffers(caller, [], s, 0, skip);
    var (all, r) := Drain(caller, [], s, 0, skip);
    StretchIs(caller, s, skip, all, r);
    TakenAll(caller, all);
    if all != [] {
      Front(s.items, skip, all);
      if |all| == 1 && (forall e :: caller([], e).take) {
        assert all[..0] == [];
        assert Taken(caller, all) == all;
      }
    }
  }

  lemma StretchIs(caller: Caller, s: Stream<Emitted>, skip: nat, all: seq<Emitted>, r: Outcome<()>)
    requires skip <= |s.items| && OffersStretch(caller, [], s, skip, all, r)
    ensures skip + |all| <= |s.items| && all == s.items[skip..skip + |all|]
    ensures forall i :: 0 <= i < |all| - 1 ==> !caller(all[..i], all[i]).stop
    ensures skip < |s.items| ==> all != []
  {
    assert [] + s.items[skip..skip + |all|] == s.items[skip..skip + |all|];
  }

  lemma Front(items: seq<Emitted>, skip: nat, all: seq<Emitted>)
    requires all != [] && skip + |all| <= |items| && all == items[skip..skip + |all|]
    ensures all[..|all| - 1] == items[skip..skip + (|all| - 1)]
  {
  }

  // By position

  /** A block that can hold its own descriptor table. */
  predicate SoundBlock(b: seq<byte>) {
    |b| >= 12 && 12 * TotalOf(b) <= |b|
  }

  predicate HasEntries(b: seq<byte>) {
    |b| >= 12 && TotalOf(b) > 0
  }

  /** No block without entries stands before one with entries. */
  predicate EntriesFirst(blocks: seq<seq<byte>>) {
    forall i, j :: 0 <= i < j < |blocks| && HasEntries(blocks[j]) ==> HasEntries(blocks[i])
  }

  /** A directory whose mapped buffers are its blocks. */
  predicate BlockMapped(fs: FileSystem, inode: Inode) {
    BlocksFit(fs, inode) && TailInBlock(fs, inode)
  }

  /** Iteration from the start of block k. */
  ghost function RunAt(fs: FileSystem, inode: Inode, k: nat): Stream<seq<byte>> {
    MapRun(fs, inode, Shl(k, fs.sb.blkszbits))
  }

  /** From a block start, iteration yields that block and goes on from the next block start. */
  lemma BlockRun(fs: FileSystem, inode: Inode, k: nat)
    requires BlockMapped(fs, inode) && RunAt(fs, inode, k).items != []
    ensures var start, run := Shl(k, fs.sb.blkszbits), RunAt(fs, inode, k);
            && start < inode.info.FileSize()
            && |run.items[0]| == Min(LogicalEnd(fs, inode), Shl(k + 1, fs.sb.blkszbits)) - start <= Blksz(fs.sb)
            && run.items[0] == Logical(fs, inode, start, |run.items[0]|)
            && Stream(run.items[1..], run.end) == RunAt(fs, inode, k + 1)
  {
    hide MapAt, TailInBlock, BlocksFit, BufferLen, Indexed;
    var n, start := fs.sb.blkszbits, Shl(k, fs.sb.blkszbits);
    BufferCut(fs, inode, start);
    BufferIsLogical(fs, inode, start);
    CutUnique(start, n, k, 0);
    ShlNext(k, n);
    var len := BufferLen(fs.sb, MapAt(fs, inode, start).value);
    assert RunAt(fs, inode, k).items[1..] == MapRun(fs, inode, start + len).items;
  }

  /** Block k exists and can hold its descriptor table. */
  ghost predicate GoodAt(fs: FileSystem, inode: Inode, k: nat) {
    BlockMapped(fs, inode) && RunAt(fs, inode, k).items != [] && SoundBlock(RunAt(fs, inode, k).items[0])
  }

  /** So can the blocks after it, and those without entries come last. */
  ghost predicate GoodFrom(fs: FileSystem, inode: Inode, k: nat): (good: bool)
    ensures good ==> GoodAt(fs, inode, k)
  {
    && GoodAt(fs, inode, k)
    && (forall b :: b in RunAt(fs, inode, k).items ==> SoundBlock(b))
    && EntriesFirst(RunAt(fs, inode, k).items)
  }

  /** Block k exists and has entries. */
  ghost predicate EntriesAt(fs: FileSystem, inode: Inode, k: nat) {
    RunAt(fs, inode, k).items != [] && HasEntries(RunAt(fs, inode, k).items[0])
  }

  ghost function Total(fs: FileSystem, inode: Inode, k: nat): (n: nat)
    requires GoodAt(fs, inode, k)
    ensures 12 * n <= |RunAt(fs, inode, k).items[0]| && (n > 0 <==> EntriesAt(fs, inode, k))
  {
    TotalOf(RunAt(fs, inode, k).items[0])
  }

  /** The entries from entry j of block k on. */
  ghost function From(fs: FileSystem, inode: Inode, k: nat, j: nat): Stream<Emitted>
    requires GoodAt(fs, inode, k)
  {
    BlockRest(fs.sb, RunAt(fs, inode, k).items[0], Total(fs, inode, k), j, Shl(k, fs.sb.blkszbits) + 12 * j,
              RunAt(fs, inode, k + 1))
  }

  /** Enumeration from r bytes into block k: from the next descriptor boundary on if there is an entry or
      the end of the table, else from the next block boundary after that boundary. */
  lemma ListingAt(fs: FileSystem, inode: Inode, k: nat, r: nat, i: nat)
    requires GoodAt(fs, inode, k) && r < Blksz(fs.sb) && RoundUp(r, 12) == 12 * i
    requires Shl(k, fs.sb.blkszbits) + r <= inode.info.FileSize()
    ensures ListingFrom(fs, inode, Shl(k, fs.sb.blkszbits) + r) ==
              if i <= Total(fs, inode, k) then From(fs, inode, k, i)
              else BlocksRest(fs.sb, BlockCeil(fs.sb, Shl(k, fs.sb.blkszbits) + 12 * i), RunAt(fs, inode, k + 1))
  {
    hide MapRun, BlockMapped, BlockRest, BlocksRest, BlockCeil, BlockFloor, RoundUp, TotalOf, Shl, Low, Pow2, Shr;
    BlockRun(fs, inode, k);
    CutUnique(Shl(k, fs.sb.blkszbits) + r, fs.sb.blkszbits, k, r);
    assert 12 * i / 12 == i;
  }

  /** Enumeration from the position after entry j of block k goes on with entry j + 1; only behind the file
      size, in the overshoot of indexed chunks, it is refused. */
  lemma ResumeAt(fs: FileSystem, inode: Inode, k: nat, j: nat)
    requires GoodAt(fs, inode, k) && j < Total(fs, inode, k)
    ensures var next := Shl(k, fs.sb.blkszbits) + 12 * j + 12;
            ListingFrom(fs, inode, next) ==
              if next <= inode.info.FileSize() then From(fs, inode, k, j + 1) else Stop(Err(EUCLEAN))
  {
    hide MapRun, BlockMapped, From, ListingFrom, LogicalEnd, BlocksRest, BlockCeil, RoundUp, Shl, Low;
    BlockRun(fs, inode, k);
    NotBlockSize(fs.sb, j + 1);
    DescriptorBoundary(j + 1);
    var next := Shl(k, fs.sb.blkszbits) + 12 * j + 12;
    if next <= inode.info.FileSize() {
      ListingAt(fs, inode, k, 12 * j + 12, j + 1);
    } else {
      Refused(fs, inode, next);
    }
  }

  lemma Refused(fs: FileSystem, inode: Inode, offset: nat)
    requires offset > inode.info.FileSize()
    ensures ListingFrom(fs, inode, offset) == Stop(Err(EUCLEAN))
  {
  }

  lemma DescriptorBoundary(j: nat)
    ensures RoundUp(12 * j, 12) == 12 * j
  {
    assert (12 * j + 11) / 12 == j;
  }

  /** Twelve divides no block size, so a descriptor boundary inside a block is never its end. */
  lemma NotBlockSize(sb: SuperBlock, j: nat)
    ensures 12 * j != Blksz(sb)
  {
    TimesMod(12, j);
  }

  /** After the last entry of a block, the next block follows at its start. */
  lemma NextBlockFrom(fs: FileSystem, inode: Inode, k: nat)
    requires GoodAt(fs, inode, k) && Total(fs, inode, k) > 0
    ensures From(fs, inode, k, Total(fs, inode, k)) ==
              BlocksRest(fs.sb, Shl(k + 1, fs.sb.blkszbits), RunAt(fs, inode, k + 1))
  {
    hide RunAt, BlockMapped, BlocksRest, BlockCeil, Total;
    BlockRun(fs, inode, k);
    BlockEndRounds(fs.sb, k, 12 * Total(fs, inode, k));
    assert DirentAt(RunAt(fs, inode, k).items[0], Total(fs, inode, k), Total(fs, inode, k)) == Ok(None);
  }

  lemma BlockEndRounds(sb: SuperBlock, k: nat, off: nat)
    requires 0 < off <= 2 * Blksz(sb)
    ensures BlockCeil(sb, Shl(k, sb.blkszbits) + off) == Shl(if off <= Blksz(sb) then k + 1 else k + 2, sb.blkszbits)
  {
    hide BlockCeil, Shl, Low, Pow2;
    var n := sb.blkszbits;
    ShlNext(k, n);
    ShlNext(k + 1, n);
    var q, r := if off < Blksz(sb) then k else if off < 2 * Blksz(sb) then k + 1 else k + 2, 0;
    CutUnique(Shl(k, n) + off, n, q, Shl(k, n) + off - Shl(q, n));
  }

  /** Blocks without entries are passed over, whatever the position. */
  lemma {:induction false} EmptyRun(sb: SuperBlock, pos: nat, run: Stream<seq<byte>>)
    requires forall b :: b in run.items ==> |b| >= 12 && TotalOf(b) == 0
    ensures BlocksRest(sb, pos, run) == Stream([], run.end)
    decreases |run.items|
  {
    hide TotalOf, BlockCeil;
    if run.items != [] {
      assert run.items[0] in run.items;
      assert DirentAt(run.items[0], 0, 0) == Ok(None);
      EmptyRun(sb, BlockCeil(sb, pos), Stream(run.items[1..], run.end));
    }
  }

  /** From a good block without entries on, there are no entries. */
  lemma NoEntries(fs: FileSystem, inode: Inode, k: nat, pos: nat)
    requires GoodFrom(fs, inode, k) && Total(fs, inode, k) == 0
    ensures From(fs, inode, k, 0) == Stream([], RunAt(fs, inode, k).end)
    ensures BlocksRest(fs.sb, pos, RunAt(fs, inode, k)) == Stream([], RunAt(fs, inode, k).end)
    ensures BlocksRest(fs.sb, pos, RunAt(fs, inode, k + 1)) == Stream([], RunAt(fs, inode, k).end)
    ensures !EntriesAt(fs, inode, k + 1)
  {
    hide RunAt, BlockMapped, BlocksRest, BlockCeil, TotalOf, Shl;
    BlockRun(fs, inode, k);
    var run, next := RunAt(fs, inode, k), RunAt(fs, inode, k + 1);
    var blocks := run.items;
    assert next.items == Stream(blocks[1..], run.end).items && next.end == run.end;
    forall b | b in blocks
      ensures |b| >= 12 && TotalOf(b) == 0
    {
      var i :| 0 <= i < |blocks| && blocks[i] == b;
    }
    assert forall b :: b in next.items ==> b in blocks;
    assert next.items != [] ==> next.items[0] in blocks;
    assert DirentAt(blocks[0], 0, 0) == Ok(None);
    EmptyRun(fs.sb, BlockCeil(fs.sb, Shl(k, fs.sb.blkszbits) + 12 * 0), next);
    EmptyRun(fs.sb, pos, run);
    EmptyRun(fs.sb, pos, next);
  }

  lemma NextGood(fs: FileSystem, inode: Inode, k: nat)
    requires GoodFrom(fs, inode, k) && RunAt(fs, inode, k + 1).items != []
    ensures GoodFrom(fs, inode, k + 1)
    ensures From(fs, inode, k, Total(fs, inode, k)) == From(fs, inode, k + 1, 0)
    ensures |RunAt(fs, inode, k + 1).items| < |RunAt(fs, inode, k).items|
  {
    NextSound(fs, inode, k);
    hide GoodFrom, GoodAt, RunAt, Total, From;
    if Total(fs, inode, k) == 0 {
      NoEntries(fs, inode, k, 0);
      NoEntries(fs, inode, k + 1, 0);
      BlockEnds(fs, inode, k);
    } else {
      NextBlockFrom(fs, inode, k);
      FromStarts(fs, inode, k + 1);
    }
  }

  lemma NextSound(fs: FileSystem, inode: Inode, k: nat)
    requires GoodFrom(fs, inode, k) && RunAt(fs, inode, k + 1).items != []
    ensures GoodFrom(fs, inode, k + 1)
    ensures |RunAt(fs, inode, k + 1).items| < |RunAt(fs, inode, k).items|
  {
    hide RunAt, BlockMapped, SoundBlock, HasEntries;
    BlockRun(fs, inode, k);
    var blocks, next := RunAt(fs, inode, k).items, RunAt(fs, inode, k + 1).items;
    assert next == Stream(blocks[1..], RunAt(fs, inode, k).end).items;
    assert forall i :: 0 <= i < |next| ==> next[i] == blocks[i + 1] && next[i] in blocks;
  }

  lemma BlockEnds(fs: FileSystem, inode: Inode, k: nat)
    requires GoodAt(fs, inode, k)
    ensures RunAt(fs, inode, k + 1).end == RunAt(fs, inode, k).end
  {
    hide RunAt, BlockMapped;
    BlockRun(fs, inode, k);
  }

  lemma FromStarts(fs: FileSystem, inode: Inode, k: nat)
    requires GoodAt(fs, inode, k)
    ensures From(fs, inode, k, 0) == BlocksRest(fs.sb, Shl(k, fs.sb.blkszbits), RunAt(fs, inode, k))
  {
    hide RunAt, BlockMapped, BlockRest;
    BlockRun(fs, inode, k);
  }

  /** Behind the last entry of the last block there is nothing. */
  lemma LastBlock(fs: FileSystem, inode: Inode, k: nat)
    requires GoodAt(fs, inode, k) && RunAt(fs, inode, k + 1).items == []
    ensures From(fs, inode, k, Total(fs, inode, k)) == Stream([], RunAt(fs, inode, k + 1).end)
  {
    hide RunAt, BlockMapped, Total;
    EmptyRun(fs.sb, BlockCeil(fs.sb, Shl(k, fs.sb.blkszbits) + 12 * Total(fs, inode, k)), RunAt(fs, inode, k + 1));
    assert DirentAt(RunAt(fs, inode, k).items[0], Total(fs, inode, k), Total(fs, inode, k)) == Ok(None);
  }

  /** The entry a listing reports first, as entry j of block k. */
  ghost predicate IsEntry(fs: FileSystem, inode: Inode, e: Emitted, k: nat, j: nat) {
    && GoodAt(fs, inode, k) && j < Total(fs, inode, k)
    && e.pos == Shl(k, fs.sb.blkszbits) + 12 * j
    && DirentAt(RunAt(fs, inode, k).items[0], Total(fs, inode, k), j) == Ok(Some(e.dirent))
  }

  lemma FirstEntry(fs: FileSystem, inode: Inode, k: nat, j: nat)
    requires GoodAt(fs, inode, k) && j < Total(fs, inode, k) && From(fs, inode, k, j).items != []
    ensures IsEntry(fs, inode, From(fs, inode, k, j).items[0], k, j)
    ensures From(fs, inode, k, j) == Cons(From(fs, inode, k, j).items[0], From(fs, inode, k, j + 1))
  {
    hide RunAt, BlockMapped, BlocksRest, BlockCeil, Total, SoundBlock, DirentAt, Shl;
  }

  /** A directory that reads without a failure reports every entry of every block. */
  lemma EntryListed(fs: FileSystem, inode: Inode, k: nat, j: nat)
    requires GoodAt(fs, inode, k) && j < Total(fs, inode, k) && From(fs, inode, k, j).end.Ok?
    ensures From(fs, inode, k, j).items != []
  {
    hide RunAt, BlockMapped, BlocksRest, BlockCeil, Total, SoundBlock, DirentAt, Shl;
  }

  /** What enumeration from twelve past an entry reports: the later entries, unless that is behind the file
      size. */
  ghost function Later(inode: Inode, s: Stream<Emitted>, m: nat): Stream<Emitted>
    requires m < |s.items|
  {
    if s.items[m].pos + 12 <= inode.info.FileSize() then Stream(s.items[m + 1..], s.end) else Stop(Err(EUCLEAN))
  }

  lemma LaterFirst(inode: Inode, s: Stream<Emitted>)
    requires s.items != []
    ensures Later(inode, s, 0) ==
              if s.items[0].pos + 12 <= inode.info.FileSize() then Stream(s.items[1..], s.end) else Stop(Err(EUCLEAN))
  {
  }

  lemma LaterTail(inode: Inode, s: Stream<Emitted>, m: nat)
    requires 0 < m < |s.items|
    ensures s.items[m] == s.items[1..][m - 1]
    ensures Later(inode, s, m) == Later(inode, Stream(s.items[1..], s.end), m - 1)
  {
    assert s.items[m + 1..] == s.items[1..][m..];
  }

  /** Enumeration from just after any entry continues with exactly the entries after it; the entry's
      position is that of its descriptor. */
  lemma {:induction false} ResumeFrom(fs: FileSystem, inode: Inode, k: nat, j: nat, m: nat) returns (k': nat, j': nat)
    requires GoodFrom(fs, inode, k) && j <= Total(fs, inode, k)
    requires m < |From(fs, inode, k, j).items|
    ensures var s := From(fs, inode, k, j);
            && ListingFrom(fs, inode, s.items[m].pos + 12) == Later(inode, s, m)
            && IsEntry(fs, inode, s.items[m], k', j')
    decreases |RunAt(fs, inode, k).items|, Total(fs, inode, k) - j
  {
    hide RunAt, GoodFrom, GoodAt, ListingFrom, Later, Shl, From, Total;
    var s := From(fs, inode, k, j);
    if j == Total(fs, inode, k) {
      if RunAt(fs, inode, k + 1).items == [] {
        LastBlock(fs, inode, k);
      }
      NextGood(fs, inode, k);
      k', j' := ResumeFrom(fs, inode, k + 1, 0, m);
    } else {
      FirstEntry(fs, inode, k, j);
      var rest := From(fs, inode, k, j + 1);
      assert s.items[1..] == rest.items;
      if m == 0 {
        ResumeAt(fs, inode, k, j);
        LaterFirst(inode, s);
        k', j' := k, j;
      } else {
        k', j' := ResumeFrom(fs, inode, k, j + 1, m - 1);
        LaterTail(inode, s, m);
      }
    }
  }

  lemma ListingStarts(fs: FileSystem, inode: Inode)
    requires GoodAt(fs, inode, 0)
    ensures Shl(0, fs.sb.blkszbits) == 0 && Listing(fs, inode) == From(fs, inode, 0, 0)
  {
    hide MapRun, BlockMapped, BlockRest, BlockCeil, DirentAt;
    ShlAdd(0, 0, fs.sb.blkszbits);
    BlockRun(fs, inode, 0);
  }

  /** Position-based resume is seamless: every listed entry is reported at the position of its
      descriptor, and enumeration from twelve past it reports exactly the entries after it, at the same
      positions. */
  lemma ResumeSeamless(fs: FileSystem, inode: Inode, m: nat) returns (k: nat, j: nat)
    requires GoodFrom(fs, inode, 0) && m < |Listing(fs, inode).items|
    ensures var s := Listing(fs, inode);
            && ListingFrom(fs, inode, s.items[m].pos + 12) == Later(inode, s, m)
            && IsEntry(fs, inode, s.items[m], k, j)
  {
    hide GoodFrom, GoodAt, From, ListingFrom, Listing, Later, Total, IsEntry, RunAt, BlockMapped, Shl;
    ListingStarts(fs, inode);
    k, j := ResumeFrom(fs, inode, 0, 0, m);
  }

  // Blocks of a listing

  /** Entries laid out from a position on, one descriptor apart. */
  function Laid(entries: seq<Dirent>, pos: nat): (items: seq<Emitted>)
    ensures |items| == |entries|
    ensures forall j :: 0 <= j < |items| ==> items[j] == Emitted(entries[j], pos + 12 * j)
  {
    seq(|entries|, j requires 0 <= j < |entries| => Emitted(entries[j], pos + 12 * j))
  }

  lemma LaidCons(e: Dirent, rest: seq<Dirent>, pos: nat)
    ensures Laid([e] + rest, pos) == [Emitted(e, pos)] + Laid(rest, pos + 12)
  {
  }

  /** A block that is listed without a failure is sound; its entries are listed one descriptor apart, and then
      the blocks after it. */
  lemma {:induction false} BlockSplits(sb: SuperBlock, b: seq<byte>, total: nat, i: nat, pos: nat,
                                       run: Stream<seq<byte>>)
    requires i <= total && BlockRest(sb, b, total, i, pos, run).end.Ok?
    ensures 12 * total <= |b| && |EntriesFrom(b, total, i).items| == total - i
    ensures var rest := BlocksRest(sb, BlockCeil(sb, pos + 12 * (total - i)), run);
            BlockRest(sb, b, total, i, pos, run) ==
              Stream(Laid(EntriesFrom(b, total, i).items, pos) + rest.items, rest.end)
    decreases total - i
  {
    hide BlocksRest, BlockCeil, Laid, DescAt;
    if i < total {
      var dirent := DirentAt(b, total, i).value.value;
      BlockSplits(sb, b, total, i + 1, pos + 12, run);
      LaidCons(dirent, EntriesFrom(b, total, i + 1).items, pos);
      assert pos + 12 + 12 * (total - (i + 1)) == pos + 12 * (total - i);
    }
  }

  /** The blocks of a listing without a failure are sound, and iteration over them did not fail. */
  lemma {:induction false} BlocksSound(sb: SuperBlock, pos: nat, run: Stream<seq<byte>>)
    requires BlocksRest(sb, pos, run).end.Ok?
    ensures run.end.Ok? && forall b :: b in run.items ==> SoundBlock(b)
    decreases |run.items|
  {
    if run.items != [] {
      hide BlockRest, BlockCeil, TotalOf, EntriesFrom;
      var b, rest := run.items[0], Stream(run.items[1..], run.end);
      BlockSplits(sb, b, TotalOf(b), 0, pos, rest);
      BlocksSound(sb, BlockCeil(sb, pos + 12 * (TotalOf(b) - 0)), rest);
      assert forall x :: x in run.items ==> x == b || x in rest.items;
    }
  }

  // From any position

  /** The entries at or after a position. */
  function AtOrAfter(items: seq<Emitted>, offset: nat): seq<Emitted> {
    if items == [] then []
    else (if items[0].pos >= offset then [items[0]] else []) + AtOrAfter(items[1..], offset)
  }

  lemma {:induction false} AllAtOrAfter(items: seq<Emitted>, offset: nat)
    requires forall e :: e in items ==> e.pos >= offset
    ensures AtOrAfter(items, offset) == items
  {
    if items != [] {
      AllAtOrAfter(items[1..], offset);
    }
  }

  /** The entries from entry j of block k on have positions from there on. */
  lemma {:induction false} PositionsFrom(fs: FileSystem, inode: Inode, k: nat, j: nat, offset: nat)
    requires GoodFrom(fs, inode, k) && j <= Total(fs, inode, k)
    requires offset <= Shl(k, fs.sb.blkszbits) + 12 * j
             || (j == Total(fs, inode, k) && offset <= Shl(k + 1, fs.sb.blkszbits))
    ensures forall e :: e in From(fs, inode, k, j).items ==> e.pos >= offset
    decreases |RunAt(fs, inode, k).items|, Total(fs, inode, k) - j
  {
    hide RunAt, GoodFrom, GoodAt, Shl, From, Total;
    TableEnds(fs, inode, k);
    if j == Total(fs, inode, k) {
      if RunAt(fs, inode, k + 1).items == [] {
        LastBlock(fs, inode, k);
      } else {
        NextGood(fs, inode, k);
        PositionsFrom(fs, inode, k + 1, 0, offset);
      }
    } else if From(fs, inode, k, j).items != [] {
      FirstEntry(fs, inode, k, j);
      PositionsFrom(fs, inode, k, j + 1, offset);
    }
  }

  lemma TableEnds(fs: FileSystem, inode: Inode, k: nat)
    requires GoodAt(fs, inode, k)
    ensures Shl(k, fs.sb.blkszbits) + 12 * Total(fs, inode, k) <= Shl(k + 1, fs.sb.blkszbits)
    ensures Shl(k + 1, fs.sb.blkszbits) == Shl(k, fs.sb.blkszbits) + Blksz(fs.sb)
  {
    hide RunAt, Shl, Total, LogicalEnd, MapRun;
    BlockRun(fs, inode, k);
    ShlNext(k, fs.sb.blkszbits);
  }

  /** A run that ends well without a buffer starts at or behind the file size. */
  lemma NoMoreBlocks(fs: FileSystem, inode: Inode, k: nat)
    requires RunAt(fs, inode, k).end.Ok?
    ensures RunAt(fs, inode, k).items == [] <==> inode.info.FileSize() <= Shl(k, fs.sb.blkszbits)
  {
    hide MapAt, Shl, BufferLen;
  }

  /** Passing over the entries before a position leads to the first descriptor boundary from it on, or to the
      end of the table of its block. */
  lemma {:induction false} SkipTo(fs: FileSystem, inode: Inode, k: nat, j: nat, k1: nat, r: nat, i: nat)
    requires GoodFrom(fs, inode, k) && j <= Total(fs, inode, k) && From(fs, inode, k, j).end.Ok?
    requires 12 * i < r + 12 && r <= 12 * i && r < Blksz(fs.sb) && Shl(k1, fs.sb.blkszbits) < inode.info.FileSize()
    requires k < k1 || (k == k1 && j <= i)
    ensures GoodFrom(fs, inode, k1)
    ensures var target := From(fs, inode, k1, Min(i, Total(fs, inode, k1)));
            && AtOrAfter(From(fs, inode, k, j).items, Shl(k1, fs.sb.blkszbits) + r) == target.items
            && target.end == From(fs, inode, k, j).end
    decreases k1 - k, Total(fs, inode, k) - j
  {
    hide RunAt, GoodFrom, GoodAt, Shl, From, Total;
    var n, s := fs.sb.blkszbits, From(fs, inode, k, j);
    TableEnds(fs, inode, k);
    ShlMonotone(k + 1, if k < k1 then k1 else k + 1, n);
    if k == k1 && (j == i || j == Total(fs, inode, k)) {
      PositionsFrom(fs, inode, k, j, Shl(k1, n) + r);
      AllAtOrAfter(s.items, Shl(k1, n) + r);
    } else if j < Total(fs, inode, k) {
      EntryListed(fs, inode, k, j);
      FirstEntry(fs, inode, k, j);
      SkipTo(fs, inode, k, j + 1, k1, r, i);
      assert s.items[1..] == From(fs, inode, k, j + 1).items;
    } else {
      if RunAt(fs, inode, k + 1).items == [] {
        LastBlock(fs, inode, k);
        NoMoreBlocks(fs, inode, k + 1);
      }
      NextGood(fs, inode, k);
      SkipTo(fs, inode, k + 1, 0, k1, r, i);
    }
  }

  /** In a directory that reads without a failure and whose blocks without entries come last, enumeration from
      any offset reports exactly the entries at or after it, at their own positions, if and only if there is a
      buffer to start from, and the next descriptor boundary is not behind the end of the block or no entries
      follow the block. */
  lemma ListingFromIff(fs: FileSystem, inode: Inode, offset: nat)
    requires BlockMapped(fs, inode) && Listing(fs, inode).end.Ok? && EntriesFirst(MapRun(fs, inode, 0).items)
    requires offset <= inode.info.FileSize()
    ensures ListingFrom(fs, inode, offset) ==
              Stream(AtOrAfter(Listing(fs, inode).items, offset), Listing(fs, inode).end)
       <==> && (offset < inode.info.FileSize() || Low(offset, fs.sb.blkszbits) != 0)
            && (RoundUp(Low(offset, fs.sb.blkszbits), 12) <= Blksz(fs.sb)
                || !EntriesAt(fs, inode, Shr(offset, fs.sb.blkszbits) + 1))
  {
    hide RunAt, GoodFrom, GoodAt, EntriesAt, EntriesFirst, BlockMapped, Shl, Low, From, Total, Listing, ListingFrom,
      RoundUp, AtOrAfter;
    var n := fs.sb.blkszbits;
    Cut(offset, n);
    if offset == inode.info.FileSize() && Low(offset, n) == 0 {
      EndUnwraps(fs, inode, offset);
    } else {
      var k, r := Shr(offset, n), Low(offset, n);
      var i := NextBoundary(r);
      AllGood(fs, inode);
      ListingStarts(fs, inode);
      SkipTo(fs, inode, 0, 0, k, r, i);
      FromBlockIff(fs, inode, k, r, i);
      var target := From(fs, inode, k, Min(i, Total(fs, inode, k)));
      assert target == Stream(AtOrAfter(Listing(fs, inode).items, offset), Listing(fs, inode).end);
    }
  }

  /** A directory that is not empty, reads without a failure and has its blocks without entries last is good
      from its first block on. */
  lemma AllGood(fs: FileSystem, inode: Inode)
    requires BlockMapped(fs, inode) && Listing(fs, inode).end.Ok? && EntriesFirst(MapRun(fs, inode, 0).items)
    requires inode.info.FileSize() > 0
    ensures GoodFrom(fs, inode, 0)
  {
    hide MapRun, BlockMapped, BlocksRest, EntriesFirst, SoundBlock;
    ShlZero(fs.sb.blkszbits);
    BlocksSound(fs.sb, 0, MapRun(fs, inode, 0));
    NoMoreBlocks(fs, inode, 0);
    var blocks := RunAt(fs, inode, 0).items;
    assert blocks[0] in blocks;
  }

  lemma NextBoundary(r: nat) returns (i: nat)
    ensures RoundUp(r, 12) == 12 * i && r <= 12 * i < r + 12
  {
    i := (r + 11) / 12;
  }

  /** The same from r bytes into a block, against the entries from its next descriptor boundary on. */
  lemma FromBlockIff(fs: FileSystem, inode: Inode, k: nat, r: nat, i: nat)
    requires GoodFrom(fs, inode, k) && r < Blksz(fs.sb) && RoundUp(r, 12) == 12 * i && r <= 12 * i < r + 12
    requires Shl(k, fs.sb.blkszbits) + r <= inode.info.FileSize()
    requires From(fs, inode, k, Min(i, Total(fs, inode, k))).end.Ok?
    ensures ListingFrom(fs, inode, Shl(k, fs.sb.blkszbits) + r) == From(fs, inode, k, Min(i, Total(fs, inode, k))) <==>
              12 * i <= Blksz(fs.sb) || !EntriesAt(fs, inode, k + 1)
  {
    hide RunAt, GoodFrom, GoodAt, EntriesAt, Shl, From, Total, ListingFrom, RoundUp, BlockCeil, BlocksRest;
    var n := fs.sb.blkszbits;
    ListingAt(fs, inode, k, r, i);
    TableEnds(fs, inode, k);
    if i > Total(fs, inode, k) {
      if Total(fs, inode, k) == 0 {
        NoEntries(fs, inode, k, BlockCeil(fs.sb, Shl(k, n) + 12 * i));
      } else {
        BlockEndRounds(fs.sb, k, 12 * i);
        NextBlockFrom(fs, inode, k);
        if 12 * i > Blksz(fs.sb) {
          ShiftedIff(fs, inode, k);
        }
      }
    }
  }

  /** Behind the last descriptor boundary of a block, the entries of the blocks that follow are reported one
      block too far, if there are any. */
  lemma ShiftedIff(fs: FileSystem, inode: Inode, k: nat)
    requires GoodFrom(fs, inode, k) && Total(fs, inode, k) > 0
    requires From(fs, inode, k, Total(fs, inode, k)).end.Ok?
    ensures var shifted := BlocksRest(fs.sb, Shl(k + 2, fs.sb.blkszbits), RunAt(fs, inode, k + 1));
            shifted == From(fs, inode, k, Total(fs, inode, k)) <==> !EntriesAt(fs, inode, k + 1)
  {
    hide RunAt, GoodFrom, GoodAt, From, Shl, Total, BlockCeil, DirentAt;
    var pos, next := Shl(k + 2, fs.sb.blkszbits), RunAt(fs, inode, k + 1);
    ShlNext(k + 1, fs.sb.blkszbits);
    if next.items == [] {
      LastBlock(fs, inode, k);
      EmptyRun(fs.sb, pos, next);
    } else {
      NextGood(fs, inode, k);
      if Total(fs, inode, k + 1) == 0 {
        NoEntries(fs, inode, k + 1, pos);
      } else {
        EntryListed(fs, inode, k + 1, 0);
        FirstEntry(fs, inode, k + 1, 0);
        FirstPosition(fs, inode, k + 1, pos);
      }
    }
  }

  /** The first entry of a block is reported at the position given for the block. */
  lemma FirstPosition(fs: FileSystem, inode: Inode, k: nat, pos: nat)
    requires GoodAt(fs, inode, k) && Total(fs, inode, k) > 0 && From(fs, inode, k, 0).items != []
    ensures var s := BlocksRest(fs.sb, pos, RunAt(fs, inode, k)); s.items != [] && s.items[0].pos == pos
  {
    hide RunAt, BlockMapped, BlockCeil, DirentAt, TotalOf;
    BlockRun(fs, inode, k);
  }

  /** In a directory of two 512-byte blocks, enumeration from 505 reports the entries of the second block at
      1024 and on; resuming behind the first of them is then refused, and loses the others. */
  lemma LateOffset(fs: FileSystem, inode: Inode)
    requires fs.sb.blkszbits == 9 && inode.info.FileSize() == 1024 && BlockMapped(fs, inode)
    requires Listing(fs, inode).end.Ok? && EntriesAt(fs, inode, 0) && EntriesAt(fs, inode, 1)
    ensures ListingFrom(fs, inode, 505) == BlocksRest(fs.sb, 1024, RunAt(fs, inode, 1))
    ensures ListingFrom(fs, inode, 505) !=
              Stream(AtOrAfter(Listing(fs, inode).items, 505), Listing(fs, inode).end)
    ensures var s := ListingFrom(fs, inode, 505);
            && s.items != [] && s.items[0].pos == 1024
            && ListingFrom(fs, inode, s.items[0].pos + 12) == Stop(Err(EUCLEAN))
  {
    hide RunAt, GoodFrom, GoodAt, EntriesAt, EntriesFirst, BlockMapped, From, Total, Listing, ListingFrom, RoundUp,
      AtOrAfter, BlocksRest, BlockCeil, Shl, Low, Shr, Pow2;
    SmallBlocks(fs.sb);
    TwoBlocks(fs, inode);
    AllGood(fs, inode);
    TableEnds(fs, inode, 0);
    ListingAt(fs, inode, 0, 505, 43);
    BlockEndRounds(fs.sb, 0, 516);
    ListingFromIff(fs, inode, 505);
    SecondBlock(fs, inode);
  }

  lemma SmallBlocks(sb: SuperBlock)
    requires sb.blkszbits == 9
    ensures Blksz(sb) == 512 && Shr(505, 9) == 0 && Low(505, 9) == 505 && RoundUp(505, 12) == 12 * 43
    ensures Shl(0, 9) == 0 && Shl(1, 9) == 512 && Shl(2, 9) == 1024
  {
    assert Pow2(9) == 512;
    ShlAdd(0, 0, 9);
    ShlNext(0, 9);
    ShlNext(1, 9);
    CutUnique(505, 9, 0, 505);
  }

  lemma TwoBlocks(fs: FileSystem, inode: Inode)
    requires fs.sb.blkszbits == 9 && inode.info.FileSize() == 1024 && BlockMapped(fs, inode)
    requires EntriesAt(fs, inode, 0) && EntriesAt(fs, inode, 1)
    ensures EntriesFirst(MapRun(fs, inode, 0).items)
  {
    hide RunAt, BlockMapped, HasEntries;
    SmallBlocks(fs.sb);
    BlockRun(fs, inode, 0);
    BlockRun(fs, inode, 1);
    NothingAt(fs, inode, 2);
    var blocks, next := RunAt(fs, inode, 0).items, RunAt(fs, inode, 1).items;
    assert next == Stream(blocks[1..], RunAt(fs, inode, 0).end).items;
    assert Stream(next[1..], RunAt(fs, inode, 1).end).items == [];
    RunAtZero(fs, inode);
  }

  lemma NothingAt(fs: FileSystem, inode: Inode, k: nat)
    requires Shl(k, fs.sb.blkszbits) >= inode.info.FileSize()
    ensures RunAt(fs, inode, k) == Done()
  {
  }

  lemma RunAtZero(fs: FileSystem, inode: Inode)
    ensures RunAt(fs, inode, 0) == MapRun(fs, inode, 0)
  {
    ShlZero(fs.sb.blkszbits);
  }

  /** The entries of a block do not change how a listing ends. */
  lemma TailEnds(fs: FileSystem, inode: Inode, k: nat)
    requires GoodAt(fs, inode, k) && From(fs, inode, k, 0).end.Ok?
    ensures From(fs, inode, k, Total(fs, inode, k)).end.Ok?
  {
    hide RunAt, BlockMapped, BlocksRest, BlockCeil, EntriesFrom, Laid, Shl;
    var b, total, next := RunAt(fs, inode, k).items[0], Total(fs, inode, k), RunAt(fs, inode, k + 1);
    BlockSplits(fs.sb, b, total, 0, Shl(k, fs.sb.blkszbits) + 12 * 0, next);
    assert DirentAt(b, total, total) == Ok(None);
    assert Shl(k, fs.sb.blkszbits) + 12 * 0 + 12 * (total - 0) == Shl(k, fs.sb.blkszbits) + 12 * total;
  }

  lemma SecondBlock(fs: FileSystem, inode: Inode)
    requires fs.sb.blkszbits == 9 && inode.info.FileSize() == 1024 && GoodFrom(fs, inode, 0)
    requires EntriesAt(fs, inode, 0) && EntriesAt(fs, inode, 1) && Listing(fs, inode).end.Ok?
    ensures var s := BlocksRest(fs.sb, 1024, RunAt(fs, inode, 1)); s.items != [] && s.items[0].pos == 1024
    ensures ListingFrom(fs, inode, 1036) == Stop(Err(EUCLEAN))
  {
    hide RunAt, GoodFrom, GoodAt, From, Listing, BlockMapped, BlockCeil, DirentAt, TotalOf, BlocksRest;
    SmallBlocks(fs.sb);
    NextGood(fs, inode, 0);
    ListingStarts(fs, inode);
    TailEnds(fs, inode, 0);
    EntryListed(fs, inode, 1, 0);
    FirstPosition(fs, inode, 1, 1024);
  }
}
