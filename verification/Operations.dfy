/** The inode cache and path lookup. */
module Operations {
  import opened Bits
  import opened Outcomes
  import opened Inodes
  import XattrSpec
  import Xattrs
  import opened Readdir

  /** The inode with a given number, read from the image without a cache. */
  function FreshInode(fs: FileSystem, nid: u64): (r: Outcome<Inode>)
    ensures r.Ok? ==> r.value.nid == nid
  {
    var info :- InodeAt(fs, nid);
    var shared := XattrSpec.SharedEntriesAt(fs, nid, info);
    Ok(Inode(info, shared.nameFilter, shared.indexes, nid))
  }

  type Cache = map<u64, Inode>

  datatype CacheOp = Get(nid: u64) | Drop(nid: u64)

  ghost function CacheStep(fs: FileSystem, cache: Cache, op: CacheOp): Cache {
    match op
    case Get(nid) =>
      if nid in cache then cache
      else
        var inode := FreshInode(fs, nid);
        if inode.Ok? then cache[nid := inode.value] else cache
    case Drop(nid) => cache - {nid}
  }

  /** The cache after a sequence of operations on an empty one. */
  ghost function CacheAfter(fs: FileSystem, ops: seq<CacheOp>): Cache {
    if ops == [] then map[] else CacheStep(fs, CacheAfter(fs, ops[..|ops| - 1]), ops[|ops| - 1])
  }

  ghost predicate Consistent(fs: FileSystem, cache: Cache) {
    forall nid :: nid in cache ==> Ok(cache[nid]) == FreshInode(fs, nid)
  }

  /** In every reachable cache each inode equals a fresh read. */
  lemma {:induction false} ReachableConsistent(fs: FileSystem, ops: seq<CacheOp>)
    ensures Consistent(fs, CacheAfter(fs, ops))
  {
    if ops != [] {
      ReachableConsistent(fs, ops[..|ops| - 1]);
    }
  }

  class InodeCollection {
    var inodes: Cache

    constructor ()
      ensures inodes == map[]
    {
      inodes := map[];
    }

    method Iget(fs: FileSystem, nid: u64) returns (r: Outcome<Inode>)
      requires Consistent(fs, inodes)
      modifies this
      ensures inodes == CacheStep(fs, old(inodes), Get(nid)) && Consistent(fs, inodes)
      ensures r == FreshInode(fs, nid) && inodes == if r.Ok? then old(inodes)[nid := r.value] else old(inodes)
    {
      if nid in inodes {
        return Ok(inodes[nid]);
      }
      var info := ReadInodeInfo(fs, nid);
      if !info.Ok? {
        return info.PropagateFailure();
      }
      var shared := Xattrs.ReadInodeXattrsSharedEntries(fs, nid, info.value);
      var inode := Inode(info.value, shared.nameFilter, shared.indexes, nid);
      inodes := inodes[nid := inode];
      r := Ok(inode);
    }

    method Release(nid: u64)
      modifies this
      ensures inodes == old(inodes) - {nid}
      ensures forall fs :: old(Consistent(fs, inodes)) ==> Consistent(fs, inodes)
    {
      inodes := inodes - {nid};
    }
  }

  // Paths

  const SLASH: byte := 47

  /** The components of a path, empty ones included. */
  function Split(path: seq<byte>): (parts: seq<seq<byte>>)
    ensures parts != []
  {
    if path == [] then [[]] else Prefix(path[0], Split(path[1..]))
  }

  /** The components after one more byte in front. */
  function Prefix(b: byte, parts: seq<seq<byte>>): (r: seq<seq<byte>>)
    requires parts != []
    ensures r != []
  {
    if b == SLASH then [[]] + parts else [[b] + parts[0]] + parts[1..]
  }

  lemma PrefixAppend(b: byte, parts: seq<seq<byte>>, more: seq<seq<byte>>)
    requires parts != []
    ensures Prefix(b, parts + more) == Prefix(b, parts) + more
  {
    assert (parts + more)[0] == parts[0] && (parts + more)[1..] == parts[1..] + more;
  }

  function Join(parts: seq<seq<byte>>): seq<byte>
    requires parts != []
  {
    if |parts| == 1 then parts[0] else parts[0] + [SLASH] + Join(parts[1..])
  }

  /** Splitting cuts at every slash and nowhere else. */
  lemma {:induction false} SplitJoin(path: seq<byte>)
    ensures Join(Split(path)) == path
    ensures forall part :: part in Split(path) ==> 47 !in part
  {
    if path != [] {
      SplitJoin(path[1..]);
      var rest := Split(path[1..]);
      if path[0] == SLASH {
        assert Split(path)[1..] == rest;
      } else {
        assert Split(path)[1..] == rest[1..];
        assert rest[0] in rest;
      }
    }
  }

  lemma {:induction false} SplitAppend(p: seq<byte>, q: seq<byte>)
    ensures Split(p + [SLASH] + q) == Split(p) + Split(q)
  {
    var path := p + [SLASH] + q;
    if p == [] {
      assert path[1..] == q;
    } else {
      assert path[0] == p[0] && path[1..] == p[1..] + [SLASH] + q;
      hide Prefix;
      SplitAppend(p[1..], q);
      PrefixAppend(p[0], Split(p[1..]), Split(q));
    }
  }

  /** The number of the first entry of that name in a directory. */
  ghost function Child(fs: FileSystem, inode: Inode, name: seq<byte>): Outcome<u64> {
    var found :- FindIn(Listing(fs, inode), name);
    if found.None? then Err(ENOENT) else Ok(found.value)
  }

  /** Resolution without a cache: one directory after the other, passing over empty components. */
  ghost function Walk(fs: FileSystem, nid: u64, parts: seq<seq<byte>>): Outcome<Inode>
    decreases |parts|
  {
    if parts == [] then FreshInode(fs, nid)
    else if parts[0] == [] then Walk(fs, nid, parts[1..])
    else
      var inode :- FreshInode(fs, nid);
      var child :- Child(fs, inode, parts[0]);
      Walk(fs, child, parts[1..])
  }

  ghost function Resolve(fs: FileSystem, nid: u64, path: seq<byte>): Outcome<Inode> {
    Walk(fs, nid, Split(path))
  }

  /** Path lookup through the cache is pure resolution, whatever the cache holds. */
  method Lookup(fs: FileSystem, collection: InodeCollection, start: u64, name: seq<byte>) returns (r: Outcome<Inode>)
    requires Consistent(fs, collection.inodes)
    modifies collection
    ensures Consistent(fs, collection.inodes) && old(collection.inodes.Keys) <= collection.inodes.Keys
    ensures r == Resolve(fs, start, name)
  {
    hide FreshInode, FindIn, Listing, Split;
    var parts := Split(name);
    var nid := start;
    assert parts[0..] == parts;
    for i := 0 to |parts|
      invariant Consistent(fs, collection.inodes) && old(collection.inodes.Keys) <= collection.inodes.Keys
      invariant Walk(fs, nid, parts[i..]) == Walk(fs, start, parts)
    {
      assert parts[i..][1..] == parts[i + 1..];
      if parts[i] == [] {
        continue;
      }
      var inode := collection.Iget(fs, nid);
      if !inode.Ok? {
        return inode;
      }
      var found := FindNid(fs, inode.value, parts[i]);
      if !found.Ok? {
        return found.PropagateFailure();
      }
      if found.value.None? {
        return Err(ENOENT);
      }
      nid := found.value.value;
    }
    r := collection.Iget(fs, nid);
  }

  method DirLookup(fs: FileSystem, collection: InodeCollection, inode: Inode, name: seq<byte>)
    returns (r: Outcome<Inode>)
    requires Consistent(fs, collection.inodes)
    modifies collection
    ensures Consistent(fs, collection.inodes)
    ensures var child := Child(fs, inode, name);
            r == if child.Ok? then FreshInode(fs, child.value) else child.PropagateFailure()
    ensures Ok(inode) == FreshInode(fs, inode.nid) && name != [] ==> r == Walk(fs, inode.nid, [name])
  {
    hide FreshInode, FindIn, Listing;
    var found := FindNid(fs, inode, name);
    if !found.Ok? {
      return found.PropagateFailure();
    }
    if found.value.None? {
      return Err(ENOENT);
    }
    r := collection.Iget(fs, found.value.value);
    assert [name][1..] == [];
  }

  // Laws of resolution

  function NonEmpty(parts: seq<seq<byte>>): seq<seq<byte>> {
    if parts == [] then [] else (if parts[0] == [] then [] else [parts[0]]) + NonEmpty(parts[1..])
  }

  /** Empty components do not matter. */
  lemma {:induction false} EmptyIgnored(fs: FileSystem, nid: u64, parts: seq<seq<byte>>)
    ensures Walk(fs, nid, parts) == Walk(fs, nid, NonEmpty(parts))
    decreases |parts|
  {
    hide FreshInode, FindIn, Listing;
    if parts != [] {
      if parts[0] == [] {
        assert NonEmpty(parts) == NonEmpty(parts[1..]);
        EmptyIgnored(fs, nid, parts[1..]);
      } else {
        assert NonEmpty(parts)[1..] == NonEmpty(parts[1..]);
        forall n: u64 {
          EmptyIgnored(fs, n, parts[1..]);
        }
      }
    }
  }

  /** Any walk starts by reading the inode it starts from. */
  lemma {:induction false} WalkReads(fs: FileSystem, nid: u64, parts: seq<seq<byte>>)
    ensures !FreshInode(fs, nid).Ok? ==> Walk(fs, nid, parts) == FreshInode(fs, nid)
  {
    hide FreshInode, FindIn, Listing;
    if parts != [] && parts[0] == [] {
      WalkReads(fs, nid, parts[1..]);
    }
  }

  lemma {:induction false} WalkAppend(fs: FileSystem, nid: u64, a: seq<seq<byte>>, b: seq<seq<byte>>)
    ensures Walk(fs, nid, a + b) ==
              var first := Walk(fs, nid, a);
              if first.Ok? then Walk(fs, first.value.nid, b) else first
    decreases |a|
  {
    hide FindIn, Listing, FreshInode;
    if a == [] {
      assert a + b == b;
      WalkReads(fs, nid, b);
    } else {
      assert (a + b)[1..] == a[1..] + b;
      forall n: u64 {
        WalkAppend(fs, n, a[1..], b);
      }
    }
  }

  /** Looking up p/q is looking up q from what p resolves to; the slash is byte 47. */
  lemma ResolveCompose(fs: FileSystem, nid: u64, p: seq<byte>, q: seq<byte>)
    ensures Resolve(fs, nid, p + [47] + q) ==
              var first := Resolve(fs, nid, p);
              if first.Ok? then Resolve(fs, first.value.nid, q) else first
  {
    hide Walk, Split;
    SplitAppend(p, q);
    WalkAppend(fs, nid, Split(p), Split(q));
  }

  /** A name without a slash is one component, whatever other bytes it holds. */
  lemma {:induction false} OneComponent(name: seq<byte>)
    requires 47 !in name
    ensures Split(name) == [name]
  {
    if name != [] {
      OneComponent(name[1..]);
      assert name[0] in name && [name[0]] + name[1..] == name;
      assert [name[1..]][1..] == [];
    }
  }

  /** It resolves to the inode of the first entry of that name in the directory, or to the failure of reading
      either inode or the directory, or to ENOENT. */
  lemma ResolveName(fs: FileSystem, nid: u64, name: seq<byte>)
    requires 47 !in name
    ensures var dir := FreshInode(fs, nid);
            Resolve(fs, nid, name) ==
              if name == [] || !dir.Ok? then dir
              else
                var found := FindIn(Listing(fs, dir.value), name);
                if !found.Ok? then found.PropagateFailure()
                else if found.value.None? then Err(ENOENT)
                else FreshInode(fs, found.value.value)
  {
    hide FreshInode, FindIn, Listing, Split;
    OneComponent(name);
    assert [name][1..] == [];
    assert forall n: u64 :: Walk(fs, n, []) == FreshInode(fs, n);
    assert Resolve(fs, nid, name) == Walk(fs, nid, [name]);
  }
}
