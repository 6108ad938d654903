/** Directory blocks: a table of 12-byte descriptors followed by the names. */
module Dir {
  import opened Bits
  import opened Outcomes
  import opened Streams
  import Image

  datatype DirentDesc = DirentDesc(nid: u64, nameoff: u16, fileType: byte)

  datatype Dirent = Dirent(desc: DirentDesc, name: seq<byte>)

  function DescFrom(data: seq<byte>): DirentDesc
    requires |data| == 12
  {
    DirentDesc(U64(data[0..8]), U16(data[8..10]), data[10])
  }

  function DescAt(buf: seq<byte>, i: nat): DirentDesc
    requires 12 * i + 12 <= |buf|
  {
    DescFrom(buf[12 * i..12 * i + 12])
  }

  /** The number of descriptors, from where the first name starts. */
  function TotalOf(buf: seq<byte>): nat
    requires |buf| >= 12
  {
    DescAt(buf, 0).nameoff / 12
  }

  /** Entry number `index` of a block. The descriptor table is taken unchecked, the last name runs to
      the end of the buffer. */
  function DirentAt(buf: seq<byte>, total: nat, index: nat): (r: Outcome<Option<Dirent>>)
    ensures r == Ok(None) ==> index >= total
    ensures r.Ok? && r.value.Some? ==> index < total
  {
    if 12 * total > |buf| then
      Fault  // the table is read past the end of the buffer
    else if index >= total then
      Ok(None)
    else
      var desc := DescAt(buf, index);
      if index == total - 1 then
        if |buf| < desc.nameoff then
          Fault  // the length underflows
        else
          Ok(Some(Dirent(desc, buf[desc.nameoff..])))
      else
        var next := DescAt(buf, index + 1);
        if next.nameoff < desc.nameoff || |buf| < next.nameoff then
          Fault  // the length underflows, or the name is out of range
        else
          Ok(Some(Dirent(desc, buf[desc.nameoff..next.nameoff])))
  }

  class DirCollection {
    const data: seq<byte>
    const total: nat
    var offset: nat

    constructor (buffer: seq<byte>)
      requires |buffer| >= 12
      ensures data == buffer && offset == 0 && total == TotalOf(buffer)
    {
      data := buffer;
      offset := 0;
      total := DescFrom(buffer[..12]).nameoff / 12;
      assert buffer[..12] == buffer[12 * 0..12 * 0 + 12];
    }

    /** A buffer too short for one descriptor faults. */
    static method New(buffer: seq<byte>) returns (r: Outcome<DirCollection>)
      ensures r == Fault <==> |buffer| < 12
      ensures |buffer| >= 12 ==> r.Ok? && fresh(r.value) && r.value.data == buffer && r.value.offset == 0
                                  && r.value.total == TotalOf(buffer)
    {
      if |buffer| < 12 {
        return Fault;
      }
      var collection := new DirCollection(buffer);
      r := Ok(collection);
    }

    method SkipDir(n: nat)
      modifies this
      ensures offset == old(offset) + n
    {
      offset := offset + n;
    }

    method Next() returns (r: Outcome<Option<Dirent>>)
      modifies this
      ensures r == DirentAt(data, total, old(offset))
      ensures offset == old(offset) + if r.Ok? && r.value.Some? then 1 else 0
    {
      r := DirentAt(data, total, offset);
      if r.Ok? && r.value.Some? {
        offset := offset + 1;
      }
    }
  }

  /** The entries of a block from number i on, up to the first that faults. */
  function EntriesFrom(buf: seq<byte>, total: nat, i: nat): Stream<Dirent>
    decreases total - i
  {
    match DirentAt(buf, total, i)
    case Ok(None) => Done()
    case Ok(Some(dirent)) => Cons(dirent, EntriesFrom(buf, total, i + 1))
    case failure => Stop(failure.PropagateFailure())
  }

  function BlockEntries(buf: seq<byte>): Stream<Dirent>
    requires |buf| >= 12
  {
    EntriesFrom(buf, TotalOf(buf), 0)
  }

  function NamesOf(entries: seq<Dirent>): (names: seq<seq<byte>>)
    ensures |names| == |entries|
  {
    seq(|entries|, i requires 0 <= i < |entries| => entries[i].name)
  }

  // Decoding tiles the block

  /** The decoded names cut the block from the first name on into consecutive pieces. */
  lemma {:induction false} NamesTileFrom(buf: seq<byte>, total: nat, i: nat)
    requires i < total && EntriesFrom(buf, total, i).end.Ok?
    ensures 12 * total <= |buf| && DescAt(buf, i).nameoff <= |buf|
    ensures Image.Concat(NamesOf(EntriesFrom(buf, total, i).items)) == buf[DescAt(buf, i).nameoff..]
    decreases total - i
  {
    hide DescAt;
    var s := EntriesFrom(buf, total, i);
    var here, rest := DescAt(buf, i).nameoff, EntriesFrom(buf, total, i + 1);
    assert s.items == [s.items[0]] + rest.items;
    assert NamesOf(s.items) == [s.items[0].name] + NamesOf(rest.items);
    Image.ConcatFirst(s.items[0].name, NamesOf(rest.items));
    if i == total - 1 {
      assert DirentAt(buf, total, total) == Ok(None);
      assert rest == Done();
    } else {
      NamesTileFrom(buf, total, i + 1);
      var next := DescAt(buf, i + 1).nameoff;
      assert buf[here..] == buf[here..next] + buf[next..];
    }
  }

  /** When a block decodes, its names concatenate to the bytes from the first name on; these are the
      bytes after the descriptor table exactly when the first name offset is a multiple of twelve. */
  lemma NamesTile(buf: seq<byte>)
    requires |buf| >= 12 && TotalOf(buf) > 0 && BlockEntries(buf).end.Ok?
    ensures DescAt(buf, 0).nameoff <= |buf| && 12 * TotalOf(buf) <= |buf|
    ensures Image.Concat(NamesOf(BlockEntries(buf).items)) == buf[DescAt(buf, 0).nameoff..]
    ensures DescAt(buf, 0).nameoff == 12 * TotalOf(buf) <==> DescAt(buf, 0).nameoff % 12 == 0
  {
    NamesTileFrom(buf, TotalOf(buf), 0);
  }

  /** From entry i on the name offsets do not decrease, and the last is in the block. */
  ghost predicate OrderedFrom(buf: seq<byte>, total: nat, i: nat)
    requires 12 * total <= |buf|
  {
    && (forall k :: i <= k < total - 1 ==> DescAt(buf, k).nameoff <= DescAt(buf, k + 1).nameoff)
    && (i < total ==> DescAt(buf, total - 1).nameoff <= |buf|)
  }

  lemma {:induction false} OrderedDecodes(buf: seq<byte>, total: nat, i: nat)
    requires i <= total && 12 * total <= |buf|
    ensures EntriesFrom(buf, total, i).end.Ok? <==> OrderedFrom(buf, total, i)
    decreases total - i
  {
    hide DescAt;
    if i + 1 < total {
      OrderedDecodes(buf, total, i + 1);
      if EntriesFrom(buf, total, i + 1).end.Ok? {
        NamesTileFrom(buf, total, i + 1);
      }
      assert DirentAt(buf, total, i).Ok? && OrderedFrom(buf, total, i + 1) <==> OrderedFrom(buf, total, i);
    } else if i + 1 == total {
      assert DirentAt(buf, total, total) == Ok(None);
    }
  }

  /** A block decodes without a fault if and only if its table is in the block, its name offsets do not
      decrease, and the last is in the block. */
  lemma BlockDecodesIff(buf: seq<byte>)
    requires |buf| >= 12
    ensures BlockEntries(buf).end.Ok? <==> 12 * TotalOf(buf) <= |buf| && OrderedFrom(buf, TotalOf(buf), 0)
  {
    hide OrderedFrom;
    if 12 * TotalOf(buf) <= |buf| {
      OrderedDecodes(buf, TotalOf(buf), 0);
    }
  }

  // Decoding inverts encoding

  /** An entry as an encoder is given it. */
  datatype Item = Item(nid: u64, fileType: byte, name: seq<byte>)

  function NamesLength(items: seq<Item>): nat {
    if items == [] then 0 else |items[0].name| + NamesLength(items[1..])
  }

  /** The descriptors of items whose names start at `nameoff`. */
  function EncodeTable(items: seq<Item>, nameoff: nat): (s: seq<byte>)
    ensures |s| == 12 * |items|
  {
    if items == [] then []
    else
      ToLE(items[0].nid, 8) + ToLE(nameoff, 2) + [items[0].fileType, 0]
        + EncodeTable(items[1..], nameoff + |items[0].name|)
  }

  function EncodeNames(items: seq<Item>): (s: seq<byte>)
    ensures |s| == NamesLength(items)
  {
    if items == [] then [] else items[0].name + EncodeNames(items[1..])
  }

  /** A directory block: table, names, padding. */
  function EncodeBlock(items: seq<Item>, pad: seq<byte>): seq<byte> {
    EncodeTable(items, 12 * |items|) + EncodeNames(items) + pad
  }

  lemma DescRoundTrip(nid: u64, nameoff: u16, fileType: byte)
    ensures DescFrom(ToLE(nid, 8) + ToLE(nameoff, 2) + [fileType, 0]) == DirentDesc(nid, nameoff, fileType)
  {
    var data := ToLE(nid, 8) + ToLE(nameoff, 2) + [fileType, 0];
    assert Pow256(8) == U64_RANGE && Pow256(2) == U16_RANGE;
    LERoundTrip(nid, 8);
    LERoundTrip(nameoff, 2);
    assert data[0..8] == ToLE(nid, 8) && data[8..10] == ToLE(nameoff, 2);
  }

  /** Where name number i starts. */
  function NameStart(items: seq<Item>, i: nat): nat
    requires i <= |items|
  {
    12 * |items| + NamesLength(items[..i])
  }

  lemma {:induction false} TableAt(items: seq<Item>, nameoff: nat, i: nat)
    requires i < |items|
    ensures EncodeTable(items, nameoff)[12 * i..12 * i + 12] ==
              ToLE(items[i].nid, 8) + ToLE(nameoff + NamesLength(items[..i]), 2) + [items[i].fileType, 0]
  {
    var t, first := EncodeTable(items, nameoff), ToLE(items[0].nid, 8) + ToLE(nameoff, 2) + [items[0].fileType, 0];
    if i == 0 {
      assert t[0..12] == first;
    } else {
      var rest := EncodeTable(items[1..], nameoff + |items[0].name|);
      var j := 12 * i - 12;
      TableAt(items[1..], nameoff + |items[0].name|, i - 1);
      assert t == first + rest;
      assert t[j + 12..j + 24] == rest[j..j + 12];
      assert items[..i][1..] == items[1..][..i - 1];
    }
  }

  lemma {:induction false} NamesAt(items: seq<Item>, i: nat)
    requires i < |items|
    ensures NamesLength(items[..i + 1]) == NamesLength(items[..i]) + |items[i].name| <= NamesLength(items)
    ensures EncodeNames(items)[NamesLength(items[..i])..NamesLength(items[..i + 1])] == items[i].name
  {
    if i == 0 {
      assert items[..1][1..] == [] && items[..0] == [];
    } else {
      var rest := items[1..];
      NamesAt(rest, i - 1);
      assert items[..i][1..] == rest[..i - 1] && items[..i + 1][1..] == rest[..i];
      assert EncodeNames(items) == items[0].name + EncodeNames(rest);
      var lo, hi, k := NamesLength(rest[..i - 1]), NamesLength(rest[..i]), |items[0].name|;
      assert EncodeNames(items)[k + lo..k + hi] == EncodeNames(rest)[lo..hi];
    }
  }

  /** What decoding item i of a block with the given padding yields: the last name takes the padding. */
  function Decoded(items: seq<Item>, pad: seq<byte>, i: nat): Dirent
    requires i < |items| && NameStart(items, i) < U16_RANGE
  {
    Dirent(DirentDesc(items[i].nid, NameStart(items, i), items[i].fileType),
           if i == |items| - 1 then items[i].name + pad else items[i].name)
  }

  /** A block's items whose name offsets all fit sixteen bits. */
  ghost predicate Encodable(items: seq<Item>) {
    items != [] && forall i :: 0 <= i < |items| ==> NameStart(items, i) < U16_RANGE
  }

  lemma EncodedDesc(items: seq<Item>, pad: seq<byte>, i: nat)
    requires Encodable(items) && i < |items|
    ensures |EncodeBlock(items, pad)| == NameStart(items, |items|) + |pad| >= 12 * i + 12
    ensures DescAt(EncodeBlock(items, pad), i) == DirentDesc(items[i].nid, NameStart(items, i), items[i].fileType)
  {
    hide EncodeTable, EncodeNames, DescFrom;
    var buf, t := EncodeBlock(items, pad), EncodeTable(items, 12 * |items|);
    assert items[..|items|] == items;
    TableAt(items, 12 * |items|, i);
    assert buf[12 * i..12 * i + 12] == t[12 * i..12 * i + 12];
    DescRoundTrip(items[i].nid, NameStart(items, i), items[i].fileType);
  }

  lemma EncodedName(items: seq<Item>, pad: seq<byte>, i: nat)
    requires Encodable(items) && i < |items|
    ensures var buf, here, next := EncodeBlock(items, pad), NameStart(items, i), NameStart(items, i + 1);
            && here <= next <= |buf| && buf[here..next] == items[i].name
            && (i == |items| - 1 ==> buf[here..] == items[i].name + pad)
  {
    var buf, names, n := EncodeBlock(items, pad), EncodeNames(items), 12 * |items|;
    NamesAt(items, i);
    var lo, hi := NamesLength(items[..i]), NamesLength(items[..i + 1]);
    assert buf[n + lo..n + hi] == names[lo..hi];
    if i == |items| - 1 {
      assert items[..i + 1] == items;
      assert buf[n + lo..] == buf[n + lo..n + hi] + pad;
    }
  }

  lemma EncodedDirent(items: seq<Item>, pad: seq<byte>, i: nat)
    requires Encodable(items) && i < |items|
    ensures DirentAt(EncodeBlock(items, pad), |items|, i) == Ok(Some(Decoded(items, pad, i)))
  {
    hide EncodeBlock, EncodeTable, EncodeNames, NamesLength;
    EncodedDesc(items, pad, |items| - 1);
    EncodedDesc(items, pad, i);
    EncodedName(items, pad, i);
    if i + 1 < |items| {
      EncodedDesc(items, pad, i + 1);
    }
  }

  lemma EncodedTotal(items: seq<Item>, pad: seq<byte>)
    requires Encodable(items)
    ensures |EncodeBlock(items, pad)| >= 12 && TotalOf(EncodeBlock(items, pad)) == |items|
  {
    hide EncodeBlock;
    EncodedDesc(items, pad, 0);
    assert items[..0] == [];
  }

  /** Decoding a block inverts encoding it: every entry comes back in order, and only the last name
      differs, by the padding. */
  lemma {:induction false} DecodeInvertsEncode(items: seq<Item>, pad: seq<byte>, i: nat)
    requires Encodable(items) && i <= |items|
    ensures |EncodeBlock(items, pad)| >= 12 && TotalOf(EncodeBlock(items, pad)) == |items|
    ensures var s := EntriesFrom(EncodeBlock(items, pad), |items|, i);
            && s.end.Ok? && |s.items| == |items| - i
            && forall k :: 0 <= k < |items| - i ==> s.items[k] == Decoded(items, pad, i + k)
    decreases |items| - i
  {
    hide EncodeBlock, EncodeTable, EncodeNames, DirentAt, TotalOf, DescAt, NameStart, Encodable, Decoded;
    EncodedTotal(items, pad);
    if i < |items| {
      EncodedDirent(items, pad, i);
      DecodeInvertsEncode(items, pad, i + 1);
    } else {
      PastTheEnd(items, pad);
    }
  }

  lemma PastTheEnd(items: seq<Item>, pad: seq<byte>)
    requires Encodable(items)
    ensures DirentAt(EncodeBlock(items, pad), |items|, |items|) == Ok(None)
  {
    EncodedDesc(items, pad, |items| - 1);
  }
}
