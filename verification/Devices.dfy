/** The device table, read slot by slot from the image, and the mask applied to device numbers. */
module Devices {
  import opened Bits
  import opened Outcomes
  import opened Image
  import opened Superblock
  import Inodes
  import opened BlockMap
  import opened RawIters

  datatype DeviceSlot = DeviceSlot(tags: seq<byte>, blocks: u32, mappedBlocks: u32, reserved: seq<byte>)

  datatype DeviceSpec = DeviceSpec(tags: seq<byte>, blocks: u32, mappedBlocks: u32)

  datatype DeviceInfo = DeviceInfo(mask: u16, specs: seq<DeviceSpec>)

  function SlotFrom(data: seq<byte>): (slot: DeviceSlot)
    requires |data| == 128
    ensures |slot.tags| == 64 && |slot.reserved| == 56
  {
    DeviceSlot(data[0..64], U32(data[64..68]), U32(data[68..72]), data[72..128])
  }

  /** The device described by the slot at an address. */
  function SpecAt(be: Backend, addr: nat): DeviceSpec {
    var slot := SlotFrom(Fetch(be, 0, addr, 128));
    DeviceSpec(slot.tags, slot.blocks, slot.mappedBlocks)
  }

  /** A stored slot is read back: the tag, two block counts, and reserved bytes. */
  lemma SlotStored(be: Backend, addr: nat, spec: DeviceSpec, reserved: seq<byte>)
    requires |spec.tags| == 64 && |reserved| == 56
    requires Fetch(be, 0, addr, 128) == spec.tags + ToLE(spec.blocks, 4) + ToLE(spec.mappedBlocks, 4) + reserved
    ensures SpecAt(be, addr) == spec
  {
    hide LE, ToLE;
    Words();
    LERoundTrip(spec.blocks, 4);
    LERoundTrip(spec.mappedBlocks, 4);
    var s := Fetch(be, 0, addr, 128);
    assert s[0..64] == spec.tags && s[64..68] == ToLE(spec.blocks, 4) && s[68..72] == ToLE(spec.mappedBlocks, 4);
  }

  lemma Words()
    ensures Pow256(4) == U32_RANGE
  {
  }

  /** A table of n slots. */
  function Table(be: Backend, base: nat, n: nat): (specs: seq<DeviceSpec>)
    ensures |specs| == n && forall i :: 0 <= i < n ==> specs[i] == SpecAt(be, base + 128 * i)
  {
    seq(n, i requires 0 <= i < n => SpecAt(be, base + 128 * i))
  }

  // The mask

  function ILog2(n: nat): (k: nat)
    requires n > 0
    ensures Pow2(k) <= n < Pow2(k + 1)
  {
    if n == 1 then 0 else ILog2(n / 2) + 1
  }

  /** `(1 << (n.ilog2() + 1)) - 1` in 16 bits. */
  function MaskOf(n: nat): Outcome<u16> {
    if n == 0 then Ok(0)
    else if ILog2(n) + 1 >= 16 then Fault  // shifts by the whole width
    else
      MaskFits(ILog2(n) + 1);
      Ok(Shl(1, ILog2(n) + 1) - 1)
  }

  lemma MaskFits(k: nat)
    requires k < 16
    ensures Pow2(k) <= Shl(1, k) <= 32768
  {
    ShlOne(k);
    Pow2Monotone(k, 15);
    assert Pow2(15) == 32768;
  }

  /** The mask exists exactly for up to 32767 devices, and is then the least number of the form
      2^k - 1 that is not below their number. */
  lemma MaskIsTight(n: nat)
    ensures MaskOf(n).Ok? <==> n <= 32767
    ensures n <= 32767 ==>
              && n <= MaskOf(n).value
              && (exists k: nat :: MaskOf(n).value == Pow2(k) - 1)
              && forall k: nat :: n <= Pow2(k) - 1 ==> MaskOf(n).value <= Pow2(k) - 1
  {
    assert Pow2(15) == 32768;
    if n == 0 {
      assert MaskOf(n).value == Pow2(0) - 1;
    } else {
      var top := ILog2(n) + 1;
      if top < 16 {
        Pow2Monotone(top, 15);
        ShlOne(top);
        assert MaskOf(n).value == Pow2(top) - 1;
        forall k: nat | n <= Pow2(k) - 1
          ensures Pow2(top) <= Pow2(k)
        {
          if k < top {
            Pow2Monotone(k, top - 1);
          }
          Pow2Monotone(top, k);
        }
      } else {
        Pow2Monotone(15, top - 1);
      }
    }
  }

  /** The mask keeps exactly the numbers up to it; so it keeps zero and the number of every device. */
  lemma MaskKeeps(n: nat, id: u16)
    requires n <= 32767
    ensures MaskOf(n).Ok?
    ensures And(id, MaskOf(n).value) == id <==> id <= MaskOf(n).value
    ensures id <= n ==> And(id, MaskOf(n).value) == id
  {
    MaskIsTight(n);
    var k: nat :| MaskOf(n).value == Pow2(k) - 1;
    AndLowMask(id, k);
    LowIsSmall(id, k);
  }

  /** With the mask of the device table, a chunk index that names a device of the table is mapped to
      that device. */
  lemma ChunkDeviceKept(fs: Inodes.FileSystem, inode: Inodes.Inode, nr: nat, n: nat)
    requires n <= 32767 && Ok(fs.deviceMask) == MaskOf(n)
    ensures var stored := ChunkIndexFrom(Fetch(fs.backend, 0, RoundUp(MetaEnd(fs, inode), 8) + 8 * nr, 8)).deviceId;
            stored <= n ==> ChunkEntry(fs, inode, nr, true).deviceId == stored
  {
    hide RoundUp, MetaEnd;
    var stored := ChunkIndexFrom(Fetch(fs.backend, 0, RoundUp(MetaEnd(fs, inode), 8) + 8 * nr, 8)).deviceId;
    MaskKeeps(n, stored);
  }

  // The loop

  /** The slots wholly inside each buffer of a run. */
  ghost function RunSlots(sb: SuperBlock, be: Backend, offset: nat, len: nat): seq<DeviceSpec>
    decreases len
  {
    if len == 0 then []
    else
      var n := ChunkLen(sb, offset, len);
      Table(be, offset, n / 128) + RunSlots(sb, be, offset + n, len - n)
  }

  ghost function WithMask(specs: seq<DeviceSpec>): Outcome<DeviceInfo> {
    var mask :- MaskOf(|specs|);
    Ok(DeviceInfo(mask, specs))
  }

  /** The slots of one buffer. */
  method PushSlots(ghost be: Backend, ghost addr: nat, buffer: seq<byte>, before: seq<DeviceSpec>)
    returns (specs: seq<DeviceSpec>)
    requires buffer == Fetch(be, 0, addr, |buffer|)
    ensures specs == before + Table(be, addr, |buffer| / 128)
  {
    specs := before;
    var cur := 0;
    while cur + 128 <= |buffer|
      invariant 0 <= cur <= |buffer| && cur % 128 == 0
      invariant specs == before + Table(be, addr, cur / 128)
    {
      FetchSlice(be, 0, addr, |buffer|, cur, cur + 128);
      var slot := SlotFrom(buffer[cur..cur + 128]);
      cur := cur + 128;
      specs := specs + [DeviceSpec(slot.tags, slot.blocks, slot.mappedBlocks)];
    }
  }

  method GetDeviceInfos(iter: ContinuousTempBufferIter) returns (r: Outcome<DeviceInfo>)
    modifies iter
    ensures r == WithMask(RunSlots(iter.sb, iter.backend, old(iter.offset), old(iter.len)))
  {
    hide Table, SpecAt, MaskOf, ChunkLen, Fetch, Low, Pow2;
    var specs: seq<DeviceSpec> := [];
    ghost var all := RunSlots(iter.sb, iter.backend, iter.offset, iter.len);
    while true
      invariant all == specs + RunSlots(iter.sb, iter.backend, iter.offset, iter.len)
      decreases iter.len
    {
      ghost var addr := iter.offset;
      var step := iter.Next();
      if step.None? {
        break;
      }
      specs := PushSlots(iter.backend, addr, step.value, specs);
    }
    assert all == specs + [] == specs;
    var mask := MaskOf(|specs|);
    if !mask.Ok? {
      return mask.PropagateFailure();
    }
    r := Ok(DeviceInfo(mask.value, specs));
  }

  lemma SlotAligned(sb: SuperBlock, first: nat, count: nat) returns (whole: nat)
    ensures ChunkLen(sb, 128 * first, 128 * count) == 128 * whole
  {
    hide Low, Pow2, Shl, Shr, And, NewAccessor;
    var offset, bits: nat := 128 * first, sb.blkszbits;
    Cut(offset, bits);
    ShlMultiple(Shr(offset, bits), bits);
    ShlOne(bits);
    ShlMultiple(1, bits);
    var left := 4 * Shl(1, bits - 9) - first + 4 * Shl(Shr(offset, bits), bits - 9);
    assert Blksz(sb) - Low(offset, bits) == 128 * left;
    whole := Min(left, count);
  }

  lemma TableSplit(be: Backend, base: nat, m: nat, n: nat)
    ensures Table(be, base, m + n) == Table(be, base, m) + Table(be, base + 128 * m, n)
  {
    hide SpecAt;
  }

  /** From a slot boundary, the buffers hold all slots in order, whatever the block size. */
  lemma {:induction false} SlotsInOrder(sb: SuperBlock, be: Backend, first: nat, count: nat)
    ensures RunSlots(sb, be, 128 * first, 128 * count) == Table(be, 128 * first, count)
    decreases count
  {
    hide Table, SpecAt, ChunkLen;
    if count > 0 {
      var whole := SlotAligned(sb, first, count);
      SlotsInOrder(sb, be, first + whole, count - whole);
      assert 128 * whole / 128 == whole;
      assert 128 * count - 128 * whole == 128 * (count - whole);
      TableSplit(be, 128 * first, whole, count - whole);
    }
  }

  /** Loading the device table: the slot offset and the number of extra devices are signed 16-bit
      fields, converted to 64 bits before they are scaled. */
  method LoadDevices(sb: SuperBlock, be: Backend, devtSlotoff: int, extraDevices: int) returns (r: Outcome<DeviceInfo>)
    requires -32768 <= devtSlotoff <= 32767 && -32768 <= extraDevices <= 32767
    ensures r.Ok? <==> devtSlotoff >= 0 && extraDevices >= 0
    ensures r.Ok? ==>
              && r.value.specs == Table(be, 128 * devtSlotoff, extraDevices)
              && Ok(r.value.mask) == MaskOf(extraDevices)
  {
    hide Table, SpecAt, MaskOf, RunSlots;
    if devtSlotoff < 0 || extraDevices < 0 {
      return Fault;  // the scaled sign-extended value overflows
    }
    var iter := new ContinuousTempBufferIter(sb, be, devtSlotoff * 128, extraDevices * 128);
    r := GetDeviceInfos(iter);
    SlotsInOrder(sb, be, devtSlotoff, extraDevices);
    MaskIsTight(extraDevices);
  }
}
