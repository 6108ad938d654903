/** The superblock and the block arithmetic every address goes through. Sums of addresses are
    unbounded here; BlockMap.AddressesFit shows when they fit the 64 bits the program gives them.
    Narrowing casts and shifts that silently drop bits are written out. */
module Superblock {
  import opened Bits

  type BlockBits = b: nat | 9 <= b <= 16 witness 9

  datatype SuperBlock = SuperBlock(
    blkszbits: BlockBits,
    rootNid: i16,
    metaBlkaddr: u32,
    xattrBlkaddr: u32)

  /** An address cut at a power-of-two boundary. */
  datatype Accessor = Accessor(base: nat, off: nat, len: nat, nr: nat)

  function NewAccessor(address: nat, bits: nat): (a: Accessor)
    ensures a.nr == Shr(address, bits) && a.base == Shl(a.nr, bits)
    ensures a.off == Low(address, bits) && a.base + a.off == address
    ensures a.off + a.len == Pow2(bits) && a.len > 0
  {
    ShlOne(bits);
    AndLowMask(address, bits);
    Cut(address, bits);
    var sz := Shl(1, bits);
    var mask := sz - 1;
    Accessor(Shl(Shr(address, bits), bits), And(address, mask), sz - And(address, mask), Shr(address, bits))
  }

  function Blksz(sb: SuperBlock): (r: nat)
    ensures r == Pow2(sb.blkszbits)
    ensures 512 <= r <= 65536 && r % 512 == 0 && r % 12 != 0
  {
    BlkszBounds(sb.blkszbits);
    Shl(1, sb.blkszbits)
  }

  lemma BlkszBounds(bits: BlockBits)
    ensures Shl(1, bits) == Pow2(bits)
    ensures 512 <= Pow2(bits) <= 65536 && Pow2(bits) % 512 == 0 && Pow2(bits) % 12 != 0
  {
    assert Pow2(9) == 512 && Pow2(16) == 65536;
    ShlOne(bits);
    Pow2Monotone(9, bits);
    Pow2Monotone(bits, 16);
    ShlMultiple(1, bits);
    Pow2NotMultipleOf3(bits);
  }

  function BlkAccess(sb: SuperBlock, address: nat): Accessor {
    NewAccessor(address, sb.blkszbits)
  }

  /** The end of the block an address is in. */
  function BlockEnd(sb: SuperBlock, x: nat): nat {
    x + (Blksz(sb) - Low(x, sb.blkszbits))
  }

  /** Rounding up to a block boundary. */
  function BlockCeil(sb: SuperBlock, x: nat): (r: nat)
    ensures r == if Low(x, sb.blkszbits) == 0 then x else x - Low(x, sb.blkszbits) + Blksz(sb)
    ensures x <= r < x + Blksz(sb)
  {
    RoundUpBlock(x, sb.blkszbits);
    Cut(x, sb.blkszbits);
    RoundUp(x, Blksz(sb))
  }

  /** Rounding down to a block boundary. */
  function BlockFloor(sb: SuperBlock, x: nat): (r: nat)
    ensures r == x - Low(x, sb.blkszbits)
  {
    RoundDownBlock(x, sb.blkszbits);
    RoundDown(x, Blksz(sb))
  }

  function BlkPos(sb: SuperBlock, blk: u32): (r: nat)
    ensures r == Shl(blk, sb.blkszbits)
  {
    Shl(blk, sb.blkszbits)
  }

  /** `((addr + blksz - 1) >> blkszbits) as u32`: the block count is truncated to 32 bits. */
  function BlkRoundUp(sb: SuperBlock, addr: nat): u32 {
    Shr(addr + Blksz(sb) - 1, sb.blkszbits) % U32_RANGE
  }

  lemma AddMultiplesOf32(a: nat, b: nat)
    requires a % 512 == 0 && b % 32 == 0
    ensures (a + b) % 32 == 0
  {
    assert a + b == 32 * (16 * (a / 512) + b / 32);
    TimesMod(32, 16 * (a / 512) + b / 32);
  }

  lemma NidOffset(nid: u64)
    ensures Shl(nid, 5) == 32 * nid && Shl(nid, 5) % U64_RANGE % 32 == 0
  {
    assert Shl(nid, 5) == 2 * Shl(nid, 4) && Shl(nid, 3) == 2 * Shl(nid, 2) && Shl(nid, 1) == 2 * nid;
    var v, q := 32 * nid, 32 * nid / U64_RANGE;
    assert v % U64_RANGE == 32 * (nid - 0x800_0000_0000_0000 * q);
  }

  /** The address of an inode; the shift of the 64-bit nid drops its high bits. */
  function Iloc(sb: SuperBlock, nid: u64): (r: nat)
    ensures r == Shl(sb.metaBlkaddr, sb.blkszbits) + 32 * nid % U64_RANGE
    ensures r % 32 == 0
  {
    ShlMultiple(sb.metaBlkaddr, sb.blkszbits);
    NidOffset(nid);
    var base, off := BlkPos(sb, sb.metaBlkaddr), Shl(nid, 5) % U64_RANGE;
    AddMultiplesOf32(base, off);
    base + off
  }

  /** An address cut at a chunk boundary; `chunkbits` comes from the chunk format of the inode. */
  function ChunkAccess(sb: SuperBlock, chunkbits: nat, address: nat): Accessor {
    NewAccessor(address, chunkbits + sb.blkszbits)
  }
}
