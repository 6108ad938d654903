/** The skippable byte cursor over a range of the image, and the flat cursor it refines: a position,
    the number of bytes left, and how many of them the current buffer still holds. */
module Cursor {
  import opened Bits
  import opened Outcomes
  import opened Image
  import opened Superblock
  import opened RawIters

  // The flat cursor

  datatype Cur = Cur(pos: nat, left: nat, dlen: nat)

  /** The bytes a cursor has not passed yet. */
  function Remaining(be: Backend, c: Cur): (s: seq<byte>)
    ensures |s| == c.left
  {
    Fetch(be, 0, c.pos, c.left)
  }

  /** A buffer ends at a block boundary or at the end of the range. */
  predicate WfCur(sb: SuperBlock, c: Cur) {
    if c.dlen == 0 then c.left == 0 || Low(c.pos, sb.blkszbits) == 0
    else c.dlen == ChunkLen(sb, c.pos, c.left)
  }

  /** Passing n bytes; a buffer used up exactly is not replaced yet. */
  function Advance(sb: SuperBlock, c: Cur, n: nat): (r: Cur)
    requires n <= c.left
    ensures r.pos == c.pos + n && r.left == c.left - n && (n == 0 ==> r == c)
    ensures WfCur(sb, c) ==> WfCur(sb, r) && (n <= c.dlen ==> r.dlen == c.dlen - n)
  {
    var pos, left := c.pos + n, c.left - n;
    if n == 0 then c
    else
      BufferRest(sb, c, n);
      Cur(pos, left, if Low(pos, sb.blkszbits) == 0 then 0 else ChunkLen(sb, pos, left))
  }

  lemma BufferRest(sb: SuperBlock, c: Cur, n: nat)
    requires 0 < n <= c.left
    ensures var pos, left := c.pos + n, c.left - n;
            WfCur(sb, c) && n <= c.dlen ==>
              c.dlen - n == if Low(pos, sb.blkszbits) == 0 then 0 else ChunkLen(sb, pos, left)
  {
    hide Low, Shr, Shl, Pow2, NewAccessor, BlkAccess;
    var k := sb.blkszbits;
    if WfCur(sb, c) && n <= c.dlen {
      if n < c.dlen {
        WithinBlock(c.pos, k, n);
      } else if n < c.left {
        ToNextBlock(c.pos, k);
      }
    }
  }

  /** Skipping past the buffer moves on by twice what the buffer held, whatever was asked for. */
  function SkipCur(sb: SuperBlock, c: Cur, n: nat): (r: Outcome<Cur>)
    requires WfCur(sb, c)
    ensures r.Ok? || r == Fault
    ensures r.Ok? ==> WfCur(sb, r.value) && r.value.left <= c.left && r.value.pos + r.value.left == c.pos + c.left
  {
    if n <= c.dlen then Ok(Advance(sb, c, n))
    else if 2 * c.dlen < c.left then
      var pos, left := c.pos + 2 * c.dlen, c.left - 2 * c.dlen;
      Ok(Cur(pos, left, ChunkLen(sb, pos, left)))
    else Fault
  }

  /** The length of the longest common prefix. */
  function Common(a: seq<byte>, b: seq<byte>): (m: nat)
    ensures m <= |a| && m <= |b|
  {
    if a == [] || b == [] || a[0] != b[0] then 0 else 1 + Common(a[1..], b[1..])
  }

  lemma {:induction false} CommonIs(a: seq<byte>, b: seq<byte>, m: nat)
    requires m <= |a| && m <= |b| && a[..m] == b[..m]
    requires m == |a| || m == |b| || a[m] != b[m]
    ensures Common(a, b) == m
  {
    if m > 0 {
      assert a[0] == a[..m][0] && b[0] == b[..m][0];
      assert a[1..][..m - 1] == a[..m][1..] && b[1..][..m - 1] == b[..m][1..];
      CommonIs(a[1..], b[1..], m - 1);
    }
  }

  lemma {:induction false} CommonAtLeast(a: seq<byte>, b: seq<byte>, m: nat)
    requires m <= |a| && m <= |b|
    ensures a[..m] == b[..m] <==> m <= Common(a, b)
  {
    if m > 0 {
      assert a[..m] == [a[0]] + a[1..][..m - 1] && b[..m] == [b[0]] + b[1..][..m - 1];
      if a[0] == b[0] {
        CommonAtLeast(a[1..], b[1..], m - 1);
      } else {
        assert a[..m][0] != b[..m][0];
      }
    }
  }

  datatype CmpResult = Equal | NotEqual(passed: nat) | CmpFault

  /** How far a comparison gets: past the buffer that holds the first difference. */
  function CmpStop(sb: SuperBlock, c: Cur, n: nat, m: nat): nat {
    Min(n, Min(c.left, BlockEnd(sb, c.pos + m) - c.pos))
  }

  function CmpOutcome(sb: SuperBlock, be: Backend, c: Cur, s: seq<byte>): CmpResult {
    var m := Common(Remaining(be, c), s);
    if m == |s| then Equal else if m == c.left then CmpFault else NotEqual(CmpStop(sb, c, |s|, m))
  }

  /** How many bytes a comparison passes. */
  function CmpPassed(r: CmpResult, s: seq<byte>): nat {
    match r
    case Equal => |s|
    case NotEqual(k) => k
    case CmpFault => 0
  }

  /** Advancing twice is advancing once. */
  lemma AdvanceAdvance(sb: SuperBlock, c: Cur, m: nat, n: nat)
    requires m + n <= c.left
    ensures n > 0 ==> Advance(sb, Advance(sb, c, m), n) == Advance(sb, c, m + n)
  {
    hide ChunkLen, Low;
  }

  /** Passing n bytes drops the first n of the remaining bytes. */
  lemma AdvanceDrops(sb: SuperBlock, be: Backend, c: Cur, n: nat)
    requires n <= c.left
    ensures Remaining(be, Advance(sb, c, n)) == Remaining(be, c)[n..]
  {
    hide ChunkLen, Low, Advance;
    FetchSlice(be, 0, c.pos, c.left, n, c.left);
  }

  /** A comparison succeeds exactly when the remaining bytes start with s, and faults exactly when
      they run out while still agreeing with s: whatever the buffers were. */
  lemma CmpExact(sb: SuperBlock, be: Backend, c: Cur, s: seq<byte>)
    ensures CmpOutcome(sb, be, c, s) == Equal <==> s <= Remaining(be, c)
    ensures CmpOutcome(sb, be, c, s) == CmpFault <==> Remaining(be, c) < s
  {
    hide Remaining;
    CommonAtLeast(Remaining(be, c), s, Min(c.left, |s|));
  }

  /** A failed comparison has passed a differing prefix that ends with s, with the range, or at a
      block boundary, and the first such. */
  lemma CmpStopsAtBuffer(sb: SuperBlock, be: Backend, c: Cur, s: seq<byte>, k: nat)
    requires CmpOutcome(sb, be, c, s) == NotEqual(k)
    ensures 0 < k <= |s| && k <= c.left && Remaining(be, c)[..k] != s[..k]
    ensures k == |s| || k == c.left || Low(c.pos + k, sb.blkszbits) == 0
    ensures forall j :: 0 < j < k && Low(c.pos + j, sb.blkszbits) == 0 ==> Remaining(be, c)[..j] == s[..j]
  {
    hide Remaining, Low, Common, CmpStop;
    var d := Common(Remaining(be, c), s);
    StopBounds(sb, c, |s|, d);
    CommonAtLeast(Remaining(be, c), s, k);
    forall j | 0 < j < k && Low(c.pos + j, sb.blkszbits) == 0
      ensures Remaining(be, c)[..j] == s[..j]
    {
      CommonAtLeast(Remaining(be, c), s, j);
      FirstStop(sb, c, |s|, d, j);
    }
  }

  lemma StopBounds(sb: SuperBlock, c: Cur, n: nat, d: nat)
    requires d < n && d < c.left
    ensures var k := CmpStop(sb, c, n, d);
            d < k <= n && k <= c.left && (k == n || k == c.left || Low(c.pos + k, sb.blkszbits) == 0)
  {
    hide Low, Pow2, Shr, Shl;
    ToNextBlock(c.pos + d, sb.blkszbits);
  }

  /** No block starts between the first difference and the stop. */
  lemma FirstStop(sb: SuperBlock, c: Cur, n: nat, d: nat, j: nat)
    requires d < n && d < c.left && j < CmpStop(sb, c, n, d) && Low(c.pos + j, sb.blkszbits) == 0 && j > 0
    ensures j <= d
  {
    hide Low, Pow2, Shr, Shl;
    if d < j {
      WithinBlock(c.pos + d, sb.blkszbits, j - d);
    }
  }

  /** A skip of n bytes stays in the buffer, or is twice what the buffer holds and leaves something. */
  predicate Skippable(c: Cur, n: nat) {
    n <= c.dlen || (n == 2 * c.dlen && n < c.left)
  }

  /** A skip returns having dropped exactly what was asked for if and only if it is skippable. Past the
      buffer it faults when twice the buffer leaves nothing, and otherwise lands there whatever was asked. */
  lemma SkipExact(sb: SuperBlock, c: Cur, n: nat)
    requires WfCur(sb, c)
    ensures var r := SkipCur(sb, c, n);
            r.Ok? && r.value.pos == c.pos + n && r.value.left == c.left - n <==> Skippable(c, n)
    ensures n > c.dlen ==> (SkipCur(sb, c, n) == Fault <==> c.left <= 2 * c.dlen)
    ensures n > c.dlen && SkipCur(sb, c, n).Ok? ==>
              SkipCur(sb, c, n).value.pos == c.pos + 2 * c.dlen && SkipCur(sb, c, n).value.left == c.left - 2 * c.dlen
  {
    hide ChunkLen, Low;
  }

  /** Four bytes before the end of a 512-byte block, skipping the last eight of the range faults. */
  lemma SkipFaults(sb: SuperBlock)
    requires sb.blkszbits == 9
    ensures WfCur(sb, Cur(508, 8, 4)) && SkipCur(sb, Cur(508, 8, 4), 8) == Fault
  {
    assert Pow2(9) == 512 && Low(508, 9) == 508;
  }

  // The cursor over buffers

  class SkippableContinuousIter {
    const iter: ContinuousTempBufferIter
    var data: seq<byte>
    var cur: nat

    ghost predicate Valid()
      reads this, iter
      ensures Valid() ==> cur <= |data| && View().dlen == |data| - cur && WfCur(iter.sb, View())
    {
      && cur <= |data| <= iter.offset
      && data[cur..] == Fetch(iter.backend, 0, iter.offset - (|data| - cur), |data| - cur)
      && WfCur(iter.sb, View())
    }

    ghost function View(): (c: Cur)
      reads this, iter
    {
      if cur <= |data| <= iter.offset then Cur(iter.offset - (|data| - cur), |data| - cur + iter.len, |data| - cur)
      else Cur(0, 0, 0)
    }

    constructor (iter: ContinuousTempBufferIter, data: seq<byte>)
      requires iter.offset >= |data| && data == Fetch(iter.backend, 0, iter.offset - |data|, |data|)
      requires WfCur(iter.sb, Cur(iter.offset - |data|, |data| + iter.len, |data|))
      ensures Valid() && this.iter == iter && this.data == data && cur == 0
    {
      hide ChunkLen, Low;
      this.iter, this.data, this.cur := iter, data, 0;
      new;
      assert data[0..] == data;
    }

    /** Nothing to iterate over gives no cursor. */
    static method TryNew(iter: ContinuousTempBufferIter) returns (r: Option<SkippableContinuousIter>)
      modifies iter
      ensures r.None? <==> old(iter.len) == 0
      ensures r.Some? ==>
                && fresh(r.value) && r.value.iter == iter && r.value.Valid()
                && r.value.View() ==
                   Cur(old(iter.offset), old(iter.len), ChunkLen(iter.sb, old(iter.offset), old(iter.len)))
    {
      hide ChunkLen, Low;
      if iter.Eof() {
        return None;
      }
      var data := iter.Next();
      var it := new SkippableContinuousIter(iter, data.value);
      r := Some(it);
    }

    /** Take the next buffer; the caller has used up this one. */
    method Refill() returns (r: Outcome<()>)
      requires Valid() && View().dlen == 0
      modifies this, iter
      ensures r == if old(View().left) > 0 then Ok(()) else Fault
      ensures r.Ok? ==> Valid() && cur == 0 && |data| > 0
      ensures r.Ok? ==> View() == old(View()).(dlen := ChunkLen(iter.sb, old(View().pos), old(View().left)))
    {
      hide ChunkLen, Low;
      var next := iter.Next();
      if next.None? {
        return Fault;
      }
      data, cur := next.value, 0;
      assert data[0..] == data;
      r := Ok(());
    }

    /** Pass n bytes of the current buffer. */
    method Take(n: nat) returns (s: seq<byte>)
      requires Valid() && n <= View().dlen
      modifies this`cur
      ensures Valid() && View() == Advance(iter.sb, old(View()), n) && View().dlen == old(View().dlen) - n
      ensures s == old(Remaining(iter.backend, View()))[..n]
    {
      hide ChunkLen, Low;
      s := data[cur..cur + n];
      ghost var passed := Advance(iter.sb, View(), n);
      assert data[cur + n..] == data[cur..][n..] && s == data[cur..][..n];
      cur := cur + n;
    }

    method Skip(offset: nat) returns (r: Outcome<()>)
      requires Valid()
      modifies this, iter
      ensures r == if old(SkipCur(iter.sb, View(), offset)).Ok? then Ok(()) else Fault
      ensures r.Ok? ==> Valid() && View() == old(SkipCur(iter.sb, View(), offset)).value
    {
      hide ChunkLen, Low;
      var dlen := |data| - cur;
      if offset <= dlen {
        var passed := Take(offset);
      } else {
        cur := 0;
        var advanced := iter.AdvanceOff(dlen);
        if !advanced.Ok? {
          return Fault;
        }
        var next := iter.Next();
        if next.None? {
          return Fault;
        }
        data := next.value;
        assert data[0..] == data;
      }
      r := Ok(());
    }

    /** Copy n bytes of the current buffer behind the bcur bytes already in buf[lo..]. */
    method TakeInto(buf: array<byte>, lo: nat, bcur: nat, n: nat)
      requires Valid() && n <= View().dlen && lo + bcur + n <= buf.Length
      modifies this`cur, buf
      ensures Valid() && View() == Advance(iter.sb, old(View()), n) && View().dlen == old(View().dlen) - n
      ensures buf[lo..lo + bcur + n] == old(buf[lo..lo + bcur]) + old(Remaining(iter.backend, View()))[..n]
      ensures forall i :: 0 <= i < lo + bcur || lo + bcur + n <= i < buf.Length ==> buf[i] == old(buf[i])
    {
      hide Valid, View, Advance, Remaining;
      var s := Take(n);
      CopySlice(buf, lo + bcur, s);
      assert buf[lo..lo + bcur + n] == buf[lo..lo + bcur] + buf[lo + bcur..lo + bcur + n];
    }

    /** Take the next buffer and copy what is still wanted of it behind the bcur bytes already read
        since the cursor stood at `c`. */
    method ReadNext(buf: array<byte>, lo: nat, bcur: nat, n: nat, ghost c: Cur) returns (r: Outcome<nat>)
      requires bcur < n && bcur <= c.left && lo + n <= buf.Length
      requires Valid() && View() == Advance(iter.sb, c, bcur) && View().dlen == 0
      requires buf[lo..lo + bcur] == Remaining(iter.backend, c)[..bcur]
      modifies this, iter, buf
      ensures r == Fault || r.Ok?
      ensures r == Fault <==> bcur == c.left
      ensures r.Ok? ==>
                && bcur < r.value <= n && r.value <= c.left
                && Valid() && View() == Advance(iter.sb, c, r.value) && (r.value < n ==> View().dlen == 0)
                && buf[lo..lo + r.value] == Remaining(iter.backend, c)[..r.value]
      ensures forall i :: 0 <= i < lo || lo + n <= i < buf.Length ==> buf[i] == old(buf[i])
    {
      hide ChunkLen, Low, Advance, Remaining, Valid, View;
      var next := Refill();
      if !next.Ok? {
        return Fault;
      }
      var dlen := |data|;
      Consecutive(iter.sb, iter.backend, c, bcur, View(), Min(dlen, n - bcur));
      if dlen >= n - bcur {
        TakeInto(buf, lo, bcur, n - bcur);
        r := Ok(n);
      } else {
        TakeInto(buf, lo, bcur, dlen);
        r := Ok(bcur + dlen);
      }
    }

    /** Copy n bytes into buf[lo..lo + n). */
    method Read(buf: array<byte>, lo: nat, n: nat) returns (r: Outcome<()>)
      requires Valid() && lo + n <= buf.Length
      modifies this, iter, buf
      ensures r == if n <= old(View().left) then Ok(()) else Fault
      ensures r.Ok? ==> Valid() && View() == Advance(iter.sb, old(View()), n)
      ensures r.Ok? ==> buf[lo..lo + n] == old(Remaining(iter.backend, View()))[..n]
      ensures forall i :: 0 <= i < lo || lo + n <= i < buf.Length ==> buf[i] == old(buf[i])
    {
      hide ChunkLen, Low, Advance, Remaining, Valid, View;
      var dlen := |data| - cur;
      ghost var c := View();
      if dlen != 0 && dlen >= n {
        TakeInto(buf, lo, 0, n);
      } else {
        TakeInto(buf, lo, 0, dlen);
        var bcur := dlen;
        while bcur < n
          invariant bcur <= n && bcur <= c.left
          invariant Valid() && View() == Advance(iter.sb, c, bcur) && (bcur < n ==> View().dlen == 0)
          invariant buf[lo..lo + bcur] == Remaining(iter.backend, c)[..bcur]
          invariant forall i :: 0 <= i < lo || lo + n <= i < buf.Length ==> buf[i] == old(buf[i])
        {
          var next := ReadNext(buf, lo, bcur, n, c);
          if !next.Ok? {
            return Fault;
          }
          bcur := next.value;
        }
      }
      r := Ok(());
    }

    /** Compare the next n bytes of the buffer with s[bcur..bcur + n) and pass them either way. */
    method CmpWithCursorMove(s: seq<byte>, bcur: nat, n: nat) returns (same: bool)
      requires Valid() && n <= View().dlen && bcur + n <= |s|
      modifies this`cur
      ensures Valid() && View() == Advance(iter.sb, old(View()), n) && View().dlen == old(View().dlen) - n
      ensures same <==> old(Remaining(iter.backend, View()))[..n] == s[bcur..bcur + n]
    {
      hide Valid, View, Advance, Remaining;
      var taken := Take(n);
      same := taken == s[bcur..bcur + n];
    }

    /** Compare what the next buffer holds, after bcur bytes have matched since the cursor stood at `c`. */
    method CmpNext(s: seq<byte>, bcur: nat, ghost c: Cur) returns (r: Outcome<nat>, same: bool)
      requires bcur < |s| && bcur <= c.left
      requires Valid() && View() == Advance(iter.sb, c, bcur) && View().dlen == 0
      requires Remaining(iter.backend, c)[..bcur] == s[..bcur]
      modifies this, iter
      ensures r == Fault || r.Ok?
      ensures r == Fault <==> bcur == c.left
      ensures r.Ok? ==>
                && r.value == bcur + Min(|s| - bcur, ChunkLen(iter.sb, c.pos + bcur, c.left - bcur))
                && bcur < r.value <= |s| && r.value <= c.left
                && Valid() && View() == Advance(iter.sb, c, r.value) && (r.value < |s| ==> View().dlen == 0)
                && (same <==> Remaining(iter.backend, c)[..r.value] == s[..r.value])
    {
      hide ChunkLen, Low, Advance, Remaining, Valid, View;
      same := false;
      var next := Refill();
      if !next.Ok? {
        return Fault, same;
      }
      var dlen := |data|;
      var clen := Min(dlen, |s| - bcur);
      Consecutive(iter.sb, iter.backend, c, bcur, View(), clen);
      same := CmpWithCursorMove(s, bcur, clen);
      SamePrefix(Remaining(iter.backend, c), s, bcur, clen);
      r := Ok(bcur + clen);
    }

    /** Compare the next bytes with s, buffer by buffer, and pass them up to the end of s or of the
        first buffer that differs. */
    method TryCmp(s: seq<byte>) returns (r: CmpResult)
      requires Valid()
      modifies this, iter
      ensures r == CmpOutcome(iter.sb, iter.backend, old(View()), s)
      ensures !r.CmpFault? ==> Valid() && View() == Advance(iter.sb, old(View()), CmpPassed(r, s))
    {
      hide ChunkLen, Low, Advance, Remaining, Valid, View, CmpOutcome;
      var dlen := |data| - cur;
      ghost var c := View();
      ghost var be := iter.backend;
      var bcur := 0;
      assert s[0..Min(dlen, |s|)] == s[..Min(dlen, |s|)];
      if dlen != 0 && dlen >= |s| {
        var same := CmpWithCursorMove(s, 0, |s|);
        if same {
          Matches(iter.sb, be, c, s);
          return Equal;
        } else {
          Differs(iter.sb, be, c, s, 0, |s|);
          return NotEqual(|s|);
        }
      }
      if dlen != 0 {
        var clen := Min(dlen, |s|);
        var same := CmpWithCursorMove(s, 0, clen);
        if !same {
          Differs(iter.sb, be, c, s, 0, clen);
          return NotEqual(clen);
        }
        bcur := clen;
      }
      while bcur < |s|
        invariant bcur <= |s| && bcur <= c.left
        invariant Valid() && View() == Advance(iter.sb, c, bcur) && (bcur < |s| ==> View().dlen == 0)
        invariant Remaining(be, c)[..bcur] == s[..bcur]
      {
        var next, same := CmpNext(s, bcur, c);
        if !next.Ok? {
          RunsOut(iter.sb, be, c, s);
          return CmpFault;
        }
        if !same {
          Differs(iter.sb, be, c, s, bcur, next.value - bcur);
          return NotEqual(next.value);
        }
        bcur := next.value;
      }
      Matches(iter.sb, be, c, s);
      r := Equal;
    }

    function Eof(): (eof: bool)
      requires Valid()
      reads this, iter
      ensures eof <==> View().left == 0
    {
      |data| - cur == 0 && iter.Eof()
    }
  }

  /** Passing n more bytes after a refill continues what was passed before it. */
  lemma Consecutive(sb: SuperBlock, be: Backend, c: Cur, m: nat, c': Cur, n: nat)
    requires m + n <= c.left && n > 0
    requires c' == Advance(sb, c, m).(dlen := c'.dlen)
    ensures Advance(sb, c', n) == Advance(sb, c, m + n)
    ensures Remaining(be, c)[..m + n] == Remaining(be, c)[..m] + Remaining(be, c')[..n]
  {
    hide ChunkLen, Low;
    FetchSlice(be, 0, c.pos, c.left, m, c.left);
    assert c'.pos == c.pos + m && c'.left == c.left - m;
    assert Remaining(be, c)[m..] == Remaining(be, c');
  }

  lemma SamePrefix(a: seq<byte>, b: seq<byte>, m: nat, n: nat)
    requires m + n <= |a| && m + n <= |b| && a[..m] == b[..m]
    ensures a[..m + n] == b[..m + n] <==> a[m..m + n] == b[m..m + n]
  {
    assert a[..m + n] == a[..m] + a[m..m + n] && b[..m + n] == b[..m] + b[m..m + n];
    assert a[m..m + n] == a[..m + n][m..] && b[m..m + n] == b[..m + n][m..];
  }

  lemma Matches(sb: SuperBlock, be: Backend, c: Cur, s: seq<byte>)
    requires |s| <= c.left && Remaining(be, c)[..|s|] == s[..|s|]
    ensures CmpOutcome(sb, be, c, s) == Equal
  {
    CommonIs(Remaining(be, c), s, |s|);
  }

  lemma RunsOut(sb: SuperBlock, be: Backend, c: Cur, s: seq<byte>)
    requires c.left < |s| && Remaining(be, c)[..c.left] == s[..c.left]
    ensures CmpOutcome(sb, be, c, s) == CmpFault
  {
    CommonIs(Remaining(be, c), s, c.left);
  }

  lemma Differs(sb: SuperBlock, be: Backend, c: Cur, s: seq<byte>, m: nat, n: nat)
    requires m <= |s| && m <= c.left && Remaining(be, c)[..m] == s[..m]
    requires n == Min(|s| - m, ChunkLen(sb, c.pos + m, c.left - m))
    requires Remaining(be, c)[..m + n] != s[..m + n]
    ensures CmpOutcome(sb, be, c, s) == NotEqual(m + n)
  {
    hide Remaining, Low, ChunkLen;
    var d := Common(Remaining(be, c), s);
    CommonAtLeast(Remaining(be, c), s, m);
    CommonAtLeast(Remaining(be, c), s, m + n);
    WithinBlock(c.pos + m, sb.blkszbits, d - m);
  }

  method CopySlice(buf: array<byte>, lo: nat, src: seq<byte>)
    requires lo + |src| <= buf.Length
    modifies buf
    ensures buf[lo..lo + |src|] == src
    ensures forall i :: 0 <= i < lo || lo + |src| <= i < buf.Length ==> buf[i] == old(buf[i])
  {
    for i := 0 to |src|
      invariant buf[lo..lo + i] == src[..i]
      invariant forall k :: 0 <= k < lo || lo + i <= k < buf.Length ==> buf[k] == old(buf[k])
    {
      buf[lo + i] := src[i];
    }
  }
}
