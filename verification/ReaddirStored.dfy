/** Directories as an encoder stores them: what they list, and which names can be found. */
module ReaddirStored {
  import opened Bits
  import opened Outcomes
  import opened Streams
  import opened Superblock
  import opened Inodes
  import BlockMap
  import opened RawIters
  import opened MappedRead
  import opened Dir
  import opened Readdir
  import opened ReaddirResume
  import opened ReaddirPlaced
  import FileRead

  /** The items of a block and its padding. */
  datatype Block = Block(items: seq<Item>, pad: seq<byte>)

  ghost predicate AllEncodable(blocks: seq<Block>) {
    forall b :: b in blocks ==> Encodable(b.items)
  }

  function EncodeBlocks(blocks: seq<Block>): (s: seq<seq<byte>>)
    ensures |s| == |blocks|
  {
    seq(|blocks|, i requires 0 <= i < |blocks| => EncodeBlock(blocks[i].items, blocks[i].pad))
  }

  /** The length of block k of a file: to the next block boundary, or to its end. */
  function BlockLen(fs: FileSystem, inode: Inode, k: nat): nat {
    var start, end := Shl(k, fs.sb.blkszbits), Min(LogicalEnd(fs, inode), Shl(k + 1, fs.sb.blkszbits));
    if start <= end then end - start else 0
  }

  /** A directory of exactly these blocks: every byte is mapped, the size lies in the last block, and the
      logical bytes of each block are its encoding. */
  ghost predicate Stores(fs: FileSystem, inode: Inode, blocks: seq<Block>) {
    && BlockMapped(fs, inode)
    && (forall i :: 0 <= i < inode.info.FileSize() ==> Mapped(fs, inode, i))
    && (if blocks == [] then inode.info.FileSize() == 0
        else Shl(|blocks| - 1, fs.sb.blkszbits) < inode.info.FileSize() <= Shl(|blocks|, fs.sb.blkszbits))
    && forall k :: 0 <= k < |blocks| ==>
         Logical(fs, inode, Shl(k, fs.sb.blkszbits), BlockLen(fs, inode, k)) == EncodeBlocks(blocks)[k]
  }

  /** Iteration over a directory yields the encoded blocks that its logical bytes store. */
  lemma {:induction false} StoredRunFrom(fs: FileSystem, inode: Inode, blocks: seq<Block>, k: nat)
    requires Stores(fs, inode, blocks) && k <= |blocks|
    ensures RunAt(fs, inode, k).items == EncodeBlocks(blocks)[k..] && RunAt(fs, inode, k).end.Ok?
    decreases |blocks| - k
  {
    hide RunAt, BlockMapped, EncodeBlocks, Stores;
    if k == |blocks| {
      StoredEnd(fs, inode, blocks);
    } else {
      BlockStored(fs, inode, blocks, k);
      StoredRunFrom(fs, inode, blocks, k + 1);
      NextTail(fs, inode, k);
      var items := RunAt(fs, inode, k).items;
      assert items == [items[0]] + Tail(RunAt(fs, inode, k)).items;
      assert EncodeBlocks(blocks)[k..] == [EncodeBlocks(blocks)[k]] + EncodeBlocks(blocks)[k + 1..];
    }
  }

  lemma StoredEnd(fs: FileSystem, inode: Inode, blocks: seq<Block>)
    requires Stores(fs, inode, blocks)
    ensures RunAt(fs, inode, |blocks|) == Done()
  {
    hide RunAt, BlockMapped, EncodeBlocks, Mapped, Logical, Shl;
    ShlZero(fs.sb.blkszbits);
    NothingAt(fs, inode, |blocks|);
  }

  lemma BlockStored(fs: FileSystem, inode: Inode, blocks: seq<Block>, k: nat)
    requires Stores(fs, inode, blocks) && k < |blocks|
    ensures BlockMapped(fs, inode)
    ensures RunAt(fs, inode, k).items != [] && RunAt(fs, inode, k).items[0] == EncodeBlocks(blocks)[k]
    ensures RunAt(fs, inode, k).end.Ok?
  {
    hide MapRun, BlockMap.BlocksFit, TailInBlock, EncodeBlocks, Mapped, LogicalEnd, Logical, Shl;
    ShlMonotone(k, |blocks| - 1, fs.sb.blkszbits);
    FileRead.DeliveredIff(fs, inode, Shl(k, fs.sb.blkszbits));
    NoMoreBlocks(fs, inode, k);
    BlockRun(fs, inode, k);
  }

  /** The output of the mapping layer for a stored directory. */
  lemma StoredRun(fs: FileSystem, inode: Inode, blocks: seq<Block>)
    requires Stores(fs, inode, blocks)
    ensures MapRun(fs, inode, 0).items == EncodeBlocks(blocks) && MapRun(fs, inode, 0).end.Ok?
  {
    hide MapRun, EncodeBlocks, Stores;
    RunAtZero(fs, inode);
    StoredRunFrom(fs, inode, blocks, 0);
  }

  /** What a stored block decodes to, from item i on. */
  ghost function DecodedFrom(b: Block, i: nat): seq<Dirent>
    requires Encodable(b.items) && i <= |b.items|
    decreases |b.items| - i
  {
    if i == |b.items| then [] else [Decoded(b.items, b.pad, i)] + DecodedFrom(b, i + 1)
  }

  ghost function DecodedAll(blocks: seq<Block>): seq<Dirent>
    requires AllEncodable(blocks)
  {
    if blocks == [] then [] else DecodedFrom(blocks[0], 0) + DecodedAll(blocks[1..])
  }

  lemma {:induction false} BlockListed(sb: SuperBlock, b: Block, i: nat, pos: nat, run: Stream<seq<byte>>)
    returns (pos': nat)
    requires Encodable(b.items) && i <= |b.items|
    ensures var s := BlockRest(sb, EncodeBlock(b.items, b.pad), |b.items|, i, pos, run);
            var rest := BlocksRest(sb, pos', run);
            DirentsOf(s) == DecodedFrom(b, i) + DirentsOf(rest) && s.end == rest.end
    decreases |b.items| - i
  {
    hide DirentAt, EncodeBlock, BlockCeil, BlocksRest, NameStart;
    if i == |b.items| {
      PastTheEnd(b.items, b.pad);
      pos' := BlockCeil(sb, pos);
    } else {
      EncodedDirent(b.items, b.pad, i);
      pos' := BlockListed(sb, b, i + 1, pos + 12, run);
      DirentsCons(Emitted(Decoded(b.items, b.pad, i), pos),
                  BlockRest(sb, EncodeBlock(b.items, b.pad), |b.items|, i + 1, pos + 12, run));
    }
  }

  /** Listing a run of encoded blocks reports what was encoded, block by block and in order. */
  lemma {:induction false} StoredListed(sb: SuperBlock, blocks: seq<Block>, pos: nat, run: Stream<seq<byte>>)
    requires AllEncodable(blocks) && run.items == EncodeBlocks(blocks)
    ensures DirentsOf(BlocksRest(sb, pos, run)) == DecodedAll(blocks) && BlocksRest(sb, pos, run).end == run.end
    decreases |blocks|
  {
    hide EncodeBlock, DecodedFrom, BlockRest, Encodable, BlockCeil;
    if blocks != [] {
      var b, rest := blocks[0], Stream(run.items[1..], run.end);
      assert b in blocks;
      DecodeInvertsEncode(b.items, b.pad, 0);
      assert rest.items == EncodeBlocks(blocks[1..]);
      var pos' := BlockListed(sb, b, 0, pos, rest);
      StoredListed(sb, blocks[1..], pos', rest);
    }
  }

  /** Listing a directory reports exactly the entries its bytes store, block by block and in order, each at the
      position of its descriptor; and enumeration can be resumed behind every one of them. */
  lemma ListingStored(fs: FileSystem, inode: Inode, blocks: seq<Block>)
    requires Stores(fs, inode, blocks) && AllEncodable(blocks)
    ensures DirentsOf(Listing(fs, inode)) == DecodedAll(blocks) && Listing(fs, inode).end.Ok?
    ensures Listing(fs, inode).items == PlacedItems(fs.sb, 0, EncodeBlocks(blocks))
    ensures forall m: nat :: m < |Listing(fs, inode).items| ==>
              ListingFrom(fs, inode, Listing(fs, inode).items[m].pos + 12) == Later(inode, Listing(fs, inode), m)
  {
    hide MapRun, BlocksRest, EncodeBlocks, AllEncodable, DecodedAll, BlockMapped, EntriesFirst, PlacedItems, DirentsOf,
      ListingFrom, Later;
    StoredRun(fs, inode, blocks);
    StoredListed(fs.sb, blocks, 0, MapRun(fs, inode, 0));
    AllHaveEntries(blocks);
    PlacedIff(fs, inode);
    ResumeIff(fs, inode);
  }

  lemma AllHaveEntries(blocks: seq<Block>)
    requires AllEncodable(blocks)
    ensures EntriesFirst(EncodeBlocks(blocks))
  {
    hide Encodable, EncodeBlock, TotalOf;
    forall i | 0 <= i < |blocks|
      ensures HasEntries(EncodeBlocks(blocks)[i])
    {
      assert blocks[i] in blocks;
      EncodedTotal(blocks[i].items, blocks[i].pad);
      NotNone(blocks[i].items);
    }
  }

  lemma NotNone(items: seq<Item>)
    requires Encodable(items)
    ensures items != []
  {
  }

  lemma {:induction false} DecodedAppend(a: seq<Block>, b: seq<Block>)
    requires AllEncodable(a) && AllEncodable(b)
    ensures AllEncodable(a + b) && DecodedAll(a + b) == DecodedAll(a) + DecodedAll(b)
  {
    hide DecodedFrom, Encodable;
    if a == [] {
      assert a + b == b;
    } else {
      assert (a + b)[1..] == a[1..] + b;
      DecodedAppend(a[1..], b);
    }
  }

  /** The decoded entries of a directory, around one of its blocks. */
  lemma DecodedAround(front: seq<Block>, b: Block, back: seq<Block>)
    requires AllEncodable(front) && Encodable(b.items) && AllEncodable(back)
    ensures AllEncodable(front + [b] + back)
    ensures DecodedAll(front + [b] + back) == DecodedAll(front) + DecodedFrom(b, 0) + DecodedAll(back)
  {
    hide DecodedFrom, Encodable;
    assert AllEncodable([b]);
    DecodedAppend(front, [b]);
    DecodedAppend(front + [b], back);
    assert DecodedAll([b]) == DecodedFrom(b, 0) + [];
  }

  /** The last name of a padded block cannot be found: in any block of a directory, a last name that no
      other entry decodes to is found if and only if the block has no padding. */
  lemma LastNameFoundIff(fs: FileSystem, inode: Inode, front: seq<Block>, b: Block, back: seq<Block>)
    requires AllEncodable(front) && Encodable(b.items) && AllEncodable(back)
    requires Stores(fs, inode, front + [b] + back)
    requires forall i :: 0 <= i < |b.items| - 1 ==> b.items[i].name != b.items[|b.items| - 1].name
    requires forall d :: d in DecodedAll(front) + DecodedAll(back) ==> d.name != b.items[|b.items| - 1].name
    ensures var last := b.items[|b.items| - 1];
            FindIn(Listing(fs, inode), last.name) == if b.pad == [] then Ok(Some(last.nid)) else Ok(None)
  {
    hide Listing, Stores, EncodeBlocks, NameStart, DecodedAll, DecodedFrom, AllEncodable, Encodable, FindIn,
      PlacedItems, ListingFrom, Later;
    NotNone(b.items);
    var s, n, before, name := Listing(fs, inode), |b.items|, DecodedAll(front), b.items[|b.items| - 1].name;
    DecodedAround(front, b, back);
    ListingStored(fs, inode, front + [b] + back);
    DecodedAt(b, 0, n - 1);
    var p := |before| + n - 1;
    assert s.items[p].dirent == DirentsOf(s)[p] == Decoded(b.items, b.pad, n - 1);
    forall i | 0 <= i < |s.items| && i != p
      ensures s.items[i].dirent.name != name
    {
      assert s.items[i].dirent == DirentsOf(s)[i];
      if |before| <= i < p {
        DecodedAt(b, 0, i - |before|);
      }
    }
    FindInIs(s, name);
  }

  lemma {:induction false} DecodedAt(b: Block, i: nat, k: nat)
    requires Encodable(b.items) && i + k < |b.items|
    ensures |DecodedFrom(b, i)| == |b.items| - i && DecodedFrom(b, i)[k] == Decoded(b.items, b.pad, i + k)
    decreases |b.items| - i
  {
    hide Decoded, Encodable;
    if i + 1 < |b.items| {
      DecodedAt(b, i + 1, if k > 0 then k - 1 else 0);
    }
  }
}
