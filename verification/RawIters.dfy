/** The block-wise iterators over the image: mapped iteration over the data of an inode, and
    continuous iteration over a range of addresses, each in a copying and a borrowing version. */
module RawIters {
  import opened Bits
  import opened Outcomes
  import opened Streams
  import opened Image
  import opened Superblock
  import opened Inodes
  import opened BlockMap

  // Mapped iteration

  /** The length of the buffer taken from a mapped segment: up to the end of its first block. */
  function BufferLen(sb: SuperBlock, m: Map): nat {
    Min(m.physical.len, BlkAccess(sb, m.physical.start).len)
  }

  class MapIter {
    const fs: FileSystem
    const inode: Inode
    const len: nat
    var offset: nat

    constructor (fs: FileSystem, inode: Inode, offset: nat)
      ensures this.fs == fs && this.inode == inode && this.offset == offset
      ensures len == inode.info.FileSize()
    {
      this.fs, this.inode, this.offset := fs, inode, offset;
      len := inode.info.FileSize();
    }

    /** A failing map is reported again and again: the offset does not move. */
    method Next() returns (r: Option<Outcome<Map>>)
      modifies this
      ensures old(offset) >= len ==> r == None && offset == old(offset)
      ensures old(offset) < len ==> r == Some(MapAt(fs, inode, old(offset)))
      ensures old(offset) < len ==>
                offset == old(offset) + if r.value.Ok? then BufferLen(fs.sb, r.value.value) else 0
    {
      if offset >= len {
        return None;
      }
      hide MapAt;
      var result := MapAt(fs, inode, offset);
      r := Some(result);
      if result.Ok? {
        var accessor := BlkAccess(fs.sb, result.value.physical.start);
        offset := offset + Min(result.value.physical.len, accessor.len);
      }
    }
  }

  /** A mapped segment below the file size is never empty. */
  lemma BufferNotEmpty(fs: FileSystem, inode: Inode, offset: nat)
    requires offset < inode.info.FileSize() && MapAt(fs, inode, offset).Ok?
    ensures BufferLen(fs.sb, MapAt(fs, inode, offset).value) > 0
  {
    hide And, LE, Shl, Shr, Low, Pow2, MetaEnd, LayoutOf;
  }

  /** What iterating over an inode from an offset yields. */
  ghost function MapRun(fs: FileSystem, inode: Inode, offset: nat): Stream<seq<byte>>
    decreases if offset < inode.info.FileSize() then inode.info.FileSize() - offset else 0
  {
    if offset >= inode.info.FileSize() then
      Done()
    else
      match MapAt(fs, inode, offset)
      case Ok(m) =>
        BufferNotEmpty(fs, inode, offset);
        var n := BufferLen(fs.sb, m);
        Cons(Fetch(fs.backend, m.deviceId, m.physical.start, n), MapRun(fs, inode, offset + n))
      case failure => Stop(failure.PropagateFailure())
  }

  /** One step of an iterator that was at `before` and is now at `after`. */
  ghost predicate MapStep(fs: FileSystem, inode: Inode, before: nat, r: Option<Outcome<seq<byte>>>, after: nat) {
    match r
    case None => MapRun(fs, inode, before) == Done() && after == before
    case Some(Ok(buf)) =>
      && before < inode.info.FileSize() && |buf| > 0 && after == before + |buf|
      && MapRun(fs, inode, before) == Cons(buf, MapRun(fs, inode, after))
    case Some(failure) => MapRun(fs, inode, before) == Stop(failure.PropagateFailure()) && after == before
  }

  /** The step an iterator takes. */
  lemma StepTaken(fs: FileSystem, inode: Inode, before: nat)
    ensures before >= inode.info.FileSize() ==> MapStep(fs, inode, before, None, before)
    ensures before < inode.info.FileSize() ==>
              var m := MapAt(fs, inode, before);
              if !m.Ok? then MapStep(fs, inode, before, Some(m.PropagateFailure()), before)
              else
                var n := BufferLen(fs.sb, m.value);
                MapStep(fs, inode, before, Some(Ok(Fetch(fs.backend, m.value.deviceId, m.value.physical.start, n))),
                        before + n)
  {
    hide MapAt, BufferLen;
    if before < inode.info.FileSize() && MapAt(fs, inode, before).Ok? {
      BufferNotEmpty(fs, inode, before);
    }
  }

  /** The copying iterator: each segment is read into a fresh block. */
  class TempBufferMapIter {
    const mapIter: MapIter

    constructor (mapIter: MapIter)
      ensures this.mapIter == mapIter
    {
      this.mapIter := mapIter;
    }

    method TryYield(m: Map) returns (buf: seq<byte>)
      ensures buf == Fetch(mapIter.fs.backend, m.deviceId, m.physical.start, BufferLen(mapIter.fs.sb, m))
    {
      var accessor := BlkAccess(mapIter.fs.sb, m.physical.start);
      var len := Min(accessor.len, m.physical.len);
      var block := new byte[len](_ => 0);
      Fill(mapIter.fs.backend, block, 0, len, m.deviceId, m.physical.start);
      buf := block[..];
    }

    method Next() returns (r: Option<Outcome<seq<byte>>>)
      requires mapIter.len == mapIter.inode.info.FileSize()
      modifies mapIter
      ensures MapStep(mapIter.fs, mapIter.inode, old(mapIter.offset), r, mapIter.offset)
    {
      hide MapAt, MapRun, MapStep;
      StepTaken(mapIter.fs, mapIter.inode, mapIter.offset);
      var step := mapIter.Next();
      match step
      case None => r := None;
      case Some(Ok(m)) =>
        var buf := TryYield(m);
        r := Some(Ok(buf));
      case Some(failure) => r := Some(failure.PropagateFailure());
    }
  }

  /** The borrowing iterator: each segment is a slice of the image. */
  class RefMapIter {
    const mapIter: MapIter

    constructor (mapIter: MapIter)
      ensures this.mapIter == mapIter
    {
      this.mapIter := mapIter;
    }

    method Next() returns (r: Option<Outcome<seq<byte>>>)
      requires mapIter.len == mapIter.inode.info.FileSize()
      modifies mapIter
      ensures MapStep(mapIter.fs, mapIter.inode, old(mapIter.offset), r, mapIter.offset)
    {
      hide MapAt, MapRun, MapStep;
      StepTaken(mapIter.fs, mapIter.inode, mapIter.offset);
      var step := mapIter.Next();
      match step
      case None => r := None;
      case Some(Ok(m)) =>
        var accessor := BlkAccess(mapIter.fs.sb, m.physical.start);
        var len := Min(m.physical.len, accessor.len);
        r := Some(Ok(Fetch(mapIter.fs.backend, m.deviceId, m.physical.start, len)));
      case Some(failure) => r := Some(failure.PropagateFailure());
    }
  }

  /** A step is determined by where the iterator stands, so the two versions yield the same. */
  lemma MapStepDetermined(fs: FileSystem, inode: Inode, before: nat,
                          r: Option<Outcome<seq<byte>>>, after: nat, r': Option<Outcome<seq<byte>>>, after': nat)
    requires MapStep(fs, inode, before, r, after) && MapStep(fs, inode, before, r', after')
    ensures r == r' && after == after'
  {
    var run := MapRun(fs, inode, before);
    if r.Some? && r.value.Ok? {
      assert run.items[0] == r.value.value;
    }
    if r'.Some? && r'.value.Ok? {
      assert run.items[0] == r'.value.value;
    }
  }

  /** The results of consecutive steps, and where the iterator stands before, between and after them. */
  ghost predicate MapSteps(fs: FileSystem, inode: Inode, results: seq<Option<Outcome<seq<byte>>>>, at: seq<nat>) {
    && |at| == |results| + 1
    && forall i :: 0 <= i < |results| ==> MapStep(fs, inode, at[i], results[i], at[i + 1])
  }

  /** Equally many steps of the two versions from the same offset yield the same buffers and failures and
      go through the same offsets. */
  lemma {:induction false} MapStepsDetermined(fs: FileSystem, inode: Inode,
                                              results: seq<Option<Outcome<seq<byte>>>>, at: seq<nat>,
                                              results': seq<Option<Outcome<seq<byte>>>>, at': seq<nat>)
    requires MapSteps(fs, inode, results, at) && MapSteps(fs, inode, results', at')
    requires at[0] == at'[0] && |results| == |results'|
    ensures results == results' && at == at'
  {
    hide MapStep;
    if results != [] {
      var n := |results| - 1;
      MapStepsDetermined(fs, inode, results[..n], at[..n + 1], results'[..n], at'[..n + 1]);
      assert at[n] == at[..n + 1][n] && at'[n] == at'[..n + 1][n];
      MapStepDetermined(fs, inode, at[n], results[n], at[n + 1], results'[n], at'[n + 1]);
      assert results == results[..n] + [results[n]] && results' == results'[..n] + [results'[n]];
      assert at == at[..n + 1] + [at[n + 1]] && at' == at'[..n + 1] + [at'[n + 1]];
    }
  }

  // Continuous iteration

  function ChunkLen(sb: SuperBlock, offset: nat, len: nat): (n: nat)
    ensures n == Min(len, Blksz(sb) - Low(offset, sb.blkszbits))
    ensures n <= len && (len > 0 ==> n > 0)
  {
    Min(len, BlkAccess(sb, offset).len)
  }

  /** What continuous iteration yields. */
  ghost function ContinuousRun(sb: SuperBlock, be: Backend, offset: nat, len: nat): seq<seq<byte>>
    decreases len
  {
    if len == 0 then []
    else
      var n := ChunkLen(sb, offset, len);
      [Fetch(be, 0, offset, n)] + ContinuousRun(sb, be, offset + n, len - n)
  }

  /** The step a continuous iterator takes. */
  lemma ContinuousStepTaken(sb: SuperBlock, be: Backend, offset: nat, len: nat)
    ensures len == 0 ==> ContinuousStep(sb, be, offset, len, None, offset, len)
    ensures len > 0 ==>
              var n := Min(len, BlkAccess(sb, offset).len);
              ContinuousStep(sb, be, offset, len, Some(Fetch(be, 0, offset, n)), offset + n, len - n)
  {
    hide BlkAccess, Low, Pow2;
  }

  class ContinuousTempBufferIter {
    const sb: SuperBlock
    const backend: Backend
    var offset: nat
    var len: nat

    constructor (sb: SuperBlock, backend: Backend, offset: nat, len: nat)
      ensures this.sb == sb && this.backend == backend && this.offset == offset && this.len == len
    {
      this.sb, this.backend, this.offset, this.len := sb, backend, offset, len;
    }

    method Next() returns (r: Option<seq<byte>>)
      modifies this
      ensures ContinuousStep(sb, backend, old(offset), old(len), r, offset, len)
    {
      hide ContinuousStep, ContinuousRun, NewAccessor;
      ContinuousStepTaken(sb, backend, offset, len);
      if len == 0 {
        return None;
      }
      var accessor := BlkAccess(sb, offset);
      var n := Min(len, accessor.len);
      var block := new byte[n](_ => 0);
      Fill(backend, block, 0, n, 0, offset);
      assert block[..] == Fetch(backend, 0, offset, n);
      offset := offset + n;
      len := len - n;
      r := Some(block[..]);
    }

    /** Moving past the end underflows the length. */
    method AdvanceOff(n: nat) returns (r: Outcome<()>)
      modifies this
      ensures r == if n <= old(len) then Ok(()) else Fault
      ensures r.Ok? ==> offset == old(offset) + n && len == old(len) - n
    {
      offset := offset + n;
      if len < n {
        return Fault;
      }
      len := len - n;
      r := Ok(());
    }

    function Eof(): bool
      reads this
    {
      len == 0
    }
  }

  class ContinuousRefIter {
    const sb: SuperBlock
    const backend: Backend
    var offset: nat
    var len: nat

    constructor (sb: SuperBlock, backend: Backend, offset: nat, len: nat)
      ensures this.sb == sb && this.backend == backend && this.offset == offset && this.len == len
    {
      this.sb, this.backend, this.offset, this.len := sb, backend, offset, len;
    }

    method Next() returns (r: Option<seq<byte>>)
      modifies this
      ensures ContinuousStep(sb, backend, old(offset), old(len), r, offset, len)
    {
      hide ContinuousStep, ContinuousRun, NewAccessor;
      ContinuousStepTaken(sb, backend, offset, len);
      if len == 0 {
        return None;
      }
      var accessor := BlkAccess(sb, offset);
      var n := Min(accessor.len, len);
      var buf := Fetch(backend, 0, offset, n);
      offset := offset + n;
      len := len - n;
      r := Some(buf);
    }

    /** Moving past the end underflows the length. */
    method AdvanceOff(n: nat) returns (r: Outcome<()>)
      modifies this
      ensures r == if n <= old(len) then Ok(()) else Fault
      ensures r.Ok? ==> offset == old(offset) + n && len == old(len) - n
    {
      offset := offset + n;
      if len < n {
        return Fault;
      }
      len := len - n;
      r := Ok(());
    }

    function Eof(): bool
      reads this
    {
      len == 0
    }
  }

  /** One step of continuous iteration from [offset, offset + len) to [offset', offset' + len'). */
  ghost predicate ContinuousStep(sb: SuperBlock, be: Backend, offset: nat, len: nat,
                                 r: Option<seq<byte>>, offset': nat, len': nat)
  {
    match r
    case None => len == 0 && offset' == offset && len' == len && ContinuousRun(sb, be, offset, len) == []
    case Some(buf) =>
      && buf == Fetch(be, 0, offset, |buf|)
      && ContinuousRun(sb, be, offset, len) == [buf] + ContinuousRun(sb, be, offset', len')
      && 0 < |buf| == ChunkLen(sb, offset, len)
      && offset' == offset + |buf| && len' == len - |buf|
  }

  /** Both versions step in the same way. */
  lemma ContinuousStepDetermined(sb: SuperBlock, be: Backend, offset: nat, len: nat,
                                 r: Option<seq<byte>>, offset': nat, len': nat,
                                 s: Option<seq<byte>>, offset'': nat, len'': nat)
    requires ContinuousStep(sb, be, offset, len, r, offset', len')
    requires ContinuousStep(sb, be, offset, len, s, offset'', len'')
    ensures r == s && offset' == offset'' && len' == len''
  {
    if r.Some? && s.Some? {
      assert r.value == Fetch(be, 0, offset, |s.value|);
    }
  }

  /** The results of consecutive steps, and the ranges left before, between and after them. */
  ghost predicate ContinuousSteps(sb: SuperBlock, be: Backend, results: seq<Option<seq<byte>>>,
                                  offsets: seq<nat>, lens: seq<nat>)
  {
    && |offsets| == |lens| == |results| + 1
    && forall i :: 0 <= i < |results| ==>
         ContinuousStep(sb, be, offsets[i], lens[i], results[i], offsets[i + 1], lens[i + 1])
  }

  /** Equally many steps of the two versions over the same range yield the same buffers and leave the same
      ranges. */
  lemma {:induction false} ContinuousStepsDetermined(sb: SuperBlock, be: Backend,
                                                     results: seq<Option<seq<byte>>>, offsets: seq<nat>,
                                                     lens: seq<nat>, results': seq<Option<seq<byte>>>,
                                                     offsets': seq<nat>, lens': seq<nat>)
    requires ContinuousSteps(sb, be, results, offsets, lens) && ContinuousSteps(sb, be, results', offsets', lens')
    requires offsets[0] == offsets'[0] && lens[0] == lens'[0] && |results| == |results'|
    ensures results == results' && offsets == offsets' && lens == lens'
  {
    hide ContinuousStep;
    if results != [] {
      var n := |results| - 1;
      ContinuousStepsDetermined(sb, be, results[..n], offsets[..n + 1], lens[..n + 1],
                                results'[..n], offsets'[..n + 1], lens'[..n + 1]);
      assert offsets[n] == offsets[..n + 1][n] && offsets'[n] == offsets'[..n + 1][n];
      assert lens[n] == lens[..n + 1][n] && lens'[n] == lens'[..n + 1][n];
      ContinuousStepDetermined(sb, be, offsets[n], lens[n], results[n], offsets[n + 1], lens[n + 1],
                               results'[n], offsets'[n + 1], lens'[n + 1]);
      assert results == results[..n] + [results[n]] && results' == results'[..n] + [results'[n]];
      assert offsets == offsets[..n + 1] + [offsets[n + 1]] && offsets' == offsets'[..n + 1] + [offsets'[n + 1]];
      assert lens == lens[..n + 1] + [lens[n + 1]] && lens' == lens'[..n + 1] + [lens'[n + 1]];
    }
  }

  /** Steps to the end of the range yield exactly the run. */
  lemma {:induction false} ContinuousStepsRun(sb: SuperBlock, be: Backend, results: seq<Option<seq<byte>>>,
                                              offsets: seq<nat>, lens: seq<nat>)
    requires ContinuousSteps(sb, be, results, offsets, lens) && lens[|results|] == 0
    requires forall i :: 0 <= i < |results| ==> results[i].Some?
    ensures ContinuousRun(sb, be, offsets[0], lens[0]) ==
              seq(|results|, i requires 0 <= i < |results| => results[i].value)
  {
    if results != [] {
      hide ContinuousRun;
      ContinuousStepsRun(sb, be, results[1..], offsets[1..], lens[1..]);
    }
  }

  /** Buffers laid end to end from an address: none is empty and none crosses a block. */
  ghost predicate WithinBlocks(sb: SuperBlock, offset: nat, bufs: seq<seq<byte>>)
    decreases bufs
  {
    bufs != [] ==>
      && 0 < |bufs[0]| <= Blksz(sb) - Low(offset, sb.blkszbits)
      && WithinBlocks(sb, offset + |bufs[0]|, bufs[1..])
  }

  /** The buffers of a continuous run concatenate to the range and respect block boundaries. */
  lemma {:induction false} ContinuousRunTiles(sb: SuperBlock, be: Backend, offset: nat, len: nat)
    ensures Concat(ContinuousRun(sb, be, offset, len)) == Fetch(be, 0, offset, len)
    ensures WithinBlocks(sb, offset, ContinuousRun(sb, be, offset, len))
    decreases len
  {
    hide ChunkLen, Low, Pow2;
    if len > 0 {
      var n := ChunkLen(sb, offset, len);
      ContinuousRunTiles(sb, be, offset + n, len - n);
      var first, rest := Fetch(be, 0, offset, n), ContinuousRun(sb, be, offset + n, len - n);
      assert ([first] + rest)[1..] == rest;
      FetchSplit(be, 0, offset, n, len - n);
    }
  }
}
