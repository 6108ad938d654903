/** The image: a total function from device and address to byte, and the buffers filled from it. */
module Image {
  import opened Bits

  type Backend = (nat, nat) -> byte

  function Fetch(be: Backend, dev: nat, addr: nat, len: nat): (s: seq<byte>)
    ensures |s| == len
    ensures forall i :: 0 <= i < len ==> s[i] == be(dev, addr + i)
  {
    seq(len, i requires 0 <= i < len => be(dev, addr + i))
  }

  lemma FetchSlice(be: Backend, dev: nat, addr: nat, len: nat, lo: nat, hi: nat)
    requires lo <= hi <= len
    ensures Fetch(be, dev, addr, len)[lo..hi] == Fetch(be, dev, addr + lo, hi - lo)
  {
  }

  lemma FetchSplit(be: Backend, dev: nat, addr: nat, m: nat, n: nat)
    ensures Fetch(be, dev, addr, m + n) == Fetch(be, dev, addr, m) + Fetch(be, dev, addr + m, n)
  {
  }

  /** Fill the bytes [lo, hi) of a buffer in place. */
  method Fill(be: Backend, data: array<byte>, lo: nat, hi: nat, dev: nat, addr: nat)
    requires lo <= hi <= data.Length
    modifies data
    ensures data[..] == old(data[..lo]) + Fetch(be, dev, addr, hi - lo) + old(data[hi..])
  {
    for i := lo to hi
      invariant forall k :: 0 <= k < lo || hi <= k < data.Length ==> data[k] == old(data[k])
      invariant forall k :: lo <= k < i ==> data[k] == be(dev, addr + (k - lo))
    {
      data[i] := be(dev, addr + (i - lo));
    }
  }

  // Sequences of buffers

  function Concat<T>(bufs: seq<seq<T>>): seq<T> {
    if bufs == [] then [] else bufs[0] + Concat(bufs[1..])
  }

  lemma {:induction false} ConcatAppend<T>(a: seq<seq<T>>, b: seq<seq<T>>)
    ensures Concat(a + b) == Concat(a) + Concat(b)
  {
    if a == [] {
      assert a + b == b;
    } else {
      ConcatAppend(a[1..], b);
      assert (a + b)[1..] == a[1..] + b;
    }
  }

  lemma ConcatFirst<T>(x: seq<T>, a: seq<seq<T>>)
    ensures Concat([x] + a) == x + Concat(a)
  {
    assert ([x] + a)[1..] == a;
  }
}
