/** Machine arithmetic of the on-disk format: shifts, masks, rounding and little-endian integers.
    Shifts and masks are defined bit by bit, which keeps every fact about block arithmetic linear;
    ShiftsAreArithmetic gives their usual reading. */
module Bits {

  const U16_RANGE: nat := 0x1_0000
  const U32_RANGE: nat := 0x1_0000_0000
  const U64_RANGE: nat := 0x1_0000_0000_0000_0000

  type byte = b: int | 0 <= b < 256
  type u16 = x: nat | x < U16_RANGE
  type u32 = x: nat | x < U32_RANGE
  type u64 = x: nat | x < U64_RANGE

  type i16 = x: int | -0x8000 <= x < 0x8000
  type i64 = x: int | -0x8000_0000_0000_0000 <= x < 0x8000_0000_0000_0000

  function Min(a: nat, b: nat): nat {
    if a < b then a else b
  }

  function Shr(x: nat, n: nat): nat
    decreases n
  {
    if n == 0 then x else Shr(x / 2, n - 1)
  }

  function Shl(x: nat, n: nat): nat {
    if n == 0 then x else 2 * Shl(x, n - 1)
  }

  function Pow2(n: nat): (p: nat)
    ensures p > 0
  {
    if n == 0 then 1 else 2 * Pow2(n - 1)
  }

  /** Bitwise conjunction. */
  function And(x: nat, y: nat): (r: nat)
    ensures r <= x && r <= y
  {
    if x == 0 || y == 0 then 0 else (if x % 2 == 1 && y % 2 == 1 then 1 else 0) + 2 * And(x / 2, y / 2)
  }

  /** The n low bits: the offset of an address in its block. */
  function Low(x: nat, n: nat): (r: nat)
    ensures r < Pow2(n)
    decreases n
  {
    if n == 0 then 0 else x % 2 + 2 * Low(x / 2, n - 1)
  }

  lemma {:induction false} AndLowMask(x: nat, n: nat)
    ensures And(x, Pow2(n) - 1) == Low(x, n)
    decreases n
  {
    if n > 0 {
      AndLowMask(x / 2, n - 1);
      assert (Pow2(n) - 1) / 2 == Pow2(n - 1) - 1 && (Pow2(n) - 1) % 2 == 1;
      LowZero(n);
    }
  }

  lemma {:induction false} AndAbove(x: nat, n: nat)
    requires x < Pow2(n)
    ensures And(x, Pow2(n)) == 0
    decreases n
  {
    if n > 0 {
      AndAbove(x / 2, n - 1);
    }
  }

  lemma {:induction false} LowZero(n: nat)
    ensures Low(0, n) == 0
  {
    if n > 0 {
      LowZero(n - 1);
    }
  }

  /** An address is its block's start plus its offset in the block. */
  lemma {:induction false} Cut(x: nat, n: nat)
    ensures Shl(Shr(x, n), n) + Low(x, n) == x
    decreases n
  {
    if n > 0 {
      Cut(x / 2, n - 1);
    }
  }

  lemma {:induction false} ShlAdd(x: nat, y: nat, n: nat)
    ensures Shl(x + y, n) == Shl(x, n) + Shl(y, n)
  {
    if n > 0 {
      ShlAdd(x, y, n - 1);
    }
  }

  lemma {:induction false} ShlOne(n: nat)
    ensures Shl(1, n) == Pow2(n)
  {
    if n > 0 {
      ShlOne(n - 1);
    }
  }

  lemma {:induction false} ShlMonotone(x: nat, y: nat, n: nat)
    requires x <= y
    ensures Shl(x, n) <= Shl(y, n)
  {
    if n > 0 {
      ShlMonotone(x, y, n - 1);
    }
  }

  lemma ShlNext(x: nat, n: nat)
    ensures Shl(x + 1, n) == Shl(x, n) + Pow2(n)
  {
    ShlAdd(x, 1, n);
    ShlOne(n);
  }

  /** Block number and offset determine the address and are determined by it. */
  lemma CutUnique(x: nat, n: nat, q: nat, r: nat)
    requires r < Pow2(n) && x == Shl(q, n) + r
    ensures Shr(x, n) == q && Low(x, n) == r
  {
    Cut(x, n);
    ShlNext(x, n);
    ShlNext(q, n);
    ShlNext(Shr(x, n), n);
    if Shr(x, n) < q {
      ShlMonotone(Shr(x, n) + 1, q, n);
    }
    if q < Shr(x, n) {
      ShlMonotone(q + 1, Shr(x, n), n);
    }
  }

  lemma LowIsSmall(x: nat, n: nat)
    ensures Low(x, n) == x <==> x < Pow2(n)
  {
    ShlZero(n);
    if x < Pow2(n) {
      CutUnique(x, n, 0, x);
    }
  }

  lemma {:induction false} ShlZero(n: nat)
    ensures Shl(0, n) == 0
  {
    if n > 0 {
      ShlZero(n - 1);
    }
  }

  /** Comparing with the start of a block is comparing block numbers. */
  lemma BelowBlock(x: nat, n: nat, q: nat)
    ensures x < Shl(q, n) <==> Shr(x, n) < q
  {
    Cut(x, n);
    ShlNext(Shr(x, n), n);
    if Shr(x, n) < q {
      ShlMonotone(Shr(x, n) + 1, q, n);
    } else {
      ShlMonotone(q, Shr(x, n), n);
    }
  }

  /** Moving inside one block changes the offset in the block and nothing else. */
  lemma WithinBlock(x: nat, n: nat, k: nat)
    requires Low(x, n) + k < Pow2(n)
    ensures Shr(x + k, n) == Shr(x, n) && Low(x + k, n) == Low(x, n) + k
  {
    Cut(x, n);
    CutUnique(x + k, n, Shr(x, n), Low(x, n) + k);
  }

  /** Moving to the end of a block reaches the start of the next one. */
  lemma ToNextBlock(x: nat, n: nat)
    ensures var next := x - Low(x, n) + Pow2(n);
            Low(next, n) == 0 && Shr(next, n) == Shr(x, n) + 1 && next == Shl(Shr(x, n) + 1, n)
  {
    Cut(x, n);
    ShlNext(Shr(x, n), n);
    CutUnique(x - Low(x, n) + Pow2(n), n, Shr(x, n) + 1, 0);
  }

  /** The block of an address ends at or before any block start above it. */
  lemma BlockEndsBelow(x: nat, n: nat, q: nat)
    requires x < Shl(q, n)
    ensures x - Low(x, n) + Pow2(n) <= Shl(q, n)
  {
    BelowBlock(x, n, q);
    ToNextBlock(x, n);
    ShlMonotone(Shr(x, n) + 1, q, n);
  }

  /** Adding whole blocks changes the block number and nothing else. */
  lemma AddBlocks(x: nat, n: nat, q: nat)
    ensures Shr(Shl(q, n) + x, n) == q + Shr(x, n) && Low(Shl(q, n) + x, n) == Low(x, n)
  {
    Cut(x, n);
    ShlAdd(q, Shr(x, n), n);
    CutUnique(Shl(q, n) + x, n, q + Shr(x, n), Low(x, n));
  }

  lemma {:induction false} Pow2Monotone(m: nat, n: nat)
    requires m <= n
    ensures Pow2(m) <= Pow2(n)
  {
    if m < n {
      Pow2Monotone(m, n - 1);
    }
  }

  lemma {:induction false} ShlWider(x: nat, m: nat, n: nat)
    requires m <= n
    ensures Shl(x, m) <= Shl(x, n)
  {
    if m < n {
      ShlWider(x, m, n - 1);
    }
  }

  lemma ShlBound(x: nat, n: nat)
    requires n <= 16
    ensures Shl(x, n) <= 65536 * x
  {
    ShlWider(x, n, 16);
    ShlFour(x, 0);
    ShlFour(x, 4);
    ShlFour(x, 8);
    ShlFour(x, 12);
  }

  lemma ShlFour(x: nat, n: nat)
    ensures Shl(x, n + 4) == 16 * Shl(x, n)
  {
    assert Shl(x, n + 4) == 2 * Shl(x, n + 3);
    assert Shl(x, n + 2) == 2 * Shl(x, n + 1);
  }

  lemma Pow2Sixteen(n: nat)
    ensures Pow2(n + 16) == 65536 * Pow2(n)
  {
    ShlOne(n);
    ShlOne(n + 16);
    ShlFour(1, n);
    ShlFour(1, n + 4);
    ShlFour(1, n + 8);
    ShlFour(1, n + 12);
  }

  lemma {:induction false} ShrBound(x: nat, n: nat)
    ensures Shr(x, n) <= x
    decreases n
  {
    if n > 0 {
      ShrBound(x / 2, n - 1);
    }
  }

  /** Three never divides a power of two, so neither does twelve, the size of a directory descriptor. */
  lemma {:induction false} Pow2NotMultipleOf3(n: nat)
    ensures Pow2(n) % 3 != 0
  {
    if n > 0 {
      var p := Pow2(n - 1);
      Pow2NotMultipleOf3(n - 1);
      DoubleNotMultipleOf3(p, p / 3);
    }
  }

  lemma DoubleNotMultipleOf3(p: nat, q: nat)
    requires p == 3 * q + 1 || p == 3 * q + 2
    ensures 2 * p % 3 != 0
  {
    assert 2 * p == 3 * (2 * q) + 2 || 2 * p == 3 * (2 * q + 1) + 1;
  }

  /** From nine bits on, a shifted value is a multiple of 512. */
  lemma ShlMultiple(x: nat, n: nat)
    requires n >= 9
    ensures Shl(x, n) == 512 * Shl(x, n - 9) && Shl(x, n) % 512 == 0
  {
    ShlFour(x, n - 9);
    ShlFour(x, n - 5);
    var y := Shl(x, n - 9);
    assert Shl(x, n) == 2 * Shl(x, n - 1) == 512 * y;
    TimesMod(512, y);
  }

  lemma TimesMod(unit: nat, q: nat)
    requires unit > 0
    ensures unit * q % unit == 0
  {
    DivModUnique(unit * q, unit, q, 0);
  }

  lemma {:induction false} ShlIsProduct(x: nat, n: nat)
    ensures Shl(x, n) == x * Pow2(n)
  {
    if n > 0 {
      ShlIsProduct(x, n - 1);
      assert 2 * (x * Pow2(n - 1)) == x * (2 * Pow2(n - 1));
    }
  }

  /** The usual reading of shifts and masks. */
  lemma ShiftsAreArithmetic(x: nat, n: nat)
    ensures Shl(x, n) == x * Pow2(n)
    ensures Shr(x, n) == x / Pow2(n)
    ensures And(x, Pow2(n) - 1) == x % Pow2(n)
  {
    ShlIsProduct(x, n);
    AndLowMask(x, n);
    Cut(x, n);
    ShlIsProduct(Shr(x, n), n);
    DivModUnique(x, Pow2(n), Shr(x, n), Low(x, n));
  }

  lemma DivModUnique(x: nat, b: nat, q: nat, r: nat)
    requires r < b && x == q * b + r
    ensures x / b == q && x % b == r
  {
    var q', r' := x / b, x % b;
    assert b * (q - q') == r' - r;
    assert q - q' >= 1 ==> b * (q - q') >= b;
    assert q - q' <= -1 ==> b * (q - q') + b <= 0;
  }

  // Rounding

  function RoundUp(x: nat, unit: nat): nat
    requires unit > 0
  {
    (x + unit - 1) / unit * unit
  }

  function RoundDown(x: nat, unit: nat): nat
    requires unit > 0
  {
    x / unit * unit
  }

  lemma RoundDownBlock(x: nat, n: nat)
    ensures RoundDown(x, Pow2(n)) == x - Low(x, n)
  {
    ShiftsAreArithmetic(x, n);
    ShlIsProduct(Shr(x, n), n);
    Cut(x, n);
  }

  /** Rounding up to a block count. */
  lemma CeilShr(x: nat, n: nat)
    ensures var y := x + Pow2(n) - 1;
            if Low(x, n) == 0 then Shr(y, n) == Shr(x, n) && Low(y, n) == Pow2(n) - 1
            else Shr(y, n) == Shr(x, n) + 1 && Low(y, n) == Low(x, n) - 1
  {
    Cut(x, n);
    ShlNext(Shr(x, n), n);
    if Low(x, n) == 0 {
      CutUnique(x + Pow2(n) - 1, n, Shr(x, n), Pow2(n) - 1);
    } else {
      CutUnique(x + Pow2(n) - 1, n, Shr(x, n) + 1, Low(x, n) - 1);
    }
  }

  lemma RoundUpBlock(x: nat, n: nat)
    ensures RoundUp(x, Pow2(n)) == if Low(x, n) == 0 then x else x - Low(x, n) + Pow2(n)
  {
    var y := x + Pow2(n) - 1;
    CeilShr(x, n);
    assert RoundUp(x, Pow2(n)) == RoundDown(y, Pow2(n));
    RoundDownBlock(y, n);
  }

  /** Conjunction with one bit. */
  lemma {:induction false} AndBit(x: nat, n: nat)
    ensures And(x, Pow2(n)) == if Shr(x, n) % 2 == 1 then Pow2(n) else 0
    decreases n
  {
    if n > 0 {
      AndBit(x / 2, n - 1);
    }
  }

  /** Conjunction with a mask that starts at bit n. */
  lemma {:induction false} AndShifted(x: nat, mask: nat, n: nat)
    ensures And(x, Shl(mask, n)) == Shl(And(Shr(x, n), mask), n)
    decreases n
  {
    if n > 0 {
      AndShifted(x / 2, mask, n - 1);
    }
  }

  // Little-endian integers

  function Pow256(n: nat): (p: nat)
    ensures p > 0
  {
    if n == 0 then 1 else 256 * Pow256(n - 1)
  }

  function LE(s: seq<byte>): (v: nat)
    ensures v < Pow256(|s|)
  {
    if s == [] then 0 else s[0] + 256 * LE(s[1..])
  }

  function ToLE(v: nat, n: nat): (s: seq<byte>)
    ensures |s| == n
  {
    if n == 0 then [] else [v % 256] + ToLE(v / 256, n - 1)
  }

  lemma {:induction false} LERoundTrip(v: nat, n: nat)
    requires v < Pow256(n)
    ensures LE(ToLE(v, n)) == v
  {
    if n > 0 {
      LERoundTrip(v / 256, n - 1);
      assert ToLE(v, n)[1..] == ToLE(v / 256, n - 1);
    }
  }

  function U16(s: seq<byte>): (v: nat)
    requires |s| == 2
    ensures v < U16_RANGE
  {
    assert Pow256(2) == U16_RANGE;
    LE(s)
  }

  function U32(s: seq<byte>): (v: nat)
    requires |s| == 4
    ensures v < U32_RANGE
  {
    assert Pow256(4) == U32_RANGE;
    LE(s)
  }

  function U64(s: seq<byte>): (v: nat)
    requires |s| == 8
    ensures v < U64_RANGE
  {
    assert Pow256(8) == U64_RANGE;
    LE(s)
  }

  /** A number from its bytes, the first counting least. */
  function Number(s: seq<byte>): nat
    requires |s| in {2, 4, 8}
  {
    var low := s[0] as nat + 0x100 * (s[1] as nat);
    if |s| == 2 then low
    else
      var word := low + 0x1_0000 * (s[2] as nat) + 0x100_0000 * (s[3] as nat);
      if |s| == 4 then word
      else
        word + 0x1_0000_0000 * (s[4] as nat) + 0x100_0000_0000 * (s[5] as nat)
          + 0x1_0000_0000_0000 * (s[6] as nat) + 0x100_0000_0000_0000 * (s[7] as nat)
  }

  lemma LittleEndian(s: seq<byte>)
    ensures |s| == 2 ==> U16(s) == Number(s)
    ensures |s| == 4 ==> U32(s) == Number(s)
    ensures |s| == 8 ==> U64(s) == Number(s)
  {
    assert LE([]) == 0;
    if |s| in {2, 4, 8} {
      LEUnrolled(s);
    }
    if |s| in {4, 8} {
      LEUnrolled(s[2..]);
    }
    if |s| == 8 {
      LEUnrolled(s[2..][2..]);
      LEUnrolled(s[2..][2..][2..]);
    }
  }

  lemma LEUnrolled(s: seq<byte>)
    requires |s| >= 2
    ensures LE(s) == s[0] as nat + 0x100 * (s[1] as nat) + 0x1_0000 * LE(s[2..])
  {
    assert s[1..][1..] == s[2..];
  }
}
