# EROFS read path

A model of how `erofs-sys` turns a block-based, read-only image into flat files, flat directories and
flat attribute lists, with proofs that each block-wise layer refines a flat specification. Where the
code departs from its own intent, the code is modelled as it is, and a theorem gives the exact condition
under which the intended property holds.

Verify everything with `dafny verify dfyconfig.toml`.

## Layers

| Modules | Content |
|---|---|
| `Bits`, `Outcomes`, `Streams`, `Image` | shifts, masks, rounding, little-endian words; `Ok`/`Err`/`Fault`; lazy sequences; the backend |
| `Superblock`, `Inodes`, `InodeCodes`, `BlockMap` | block arithmetic, inode decoding and its codes, address mapping against a per-byte translation |
| `RawIters`, `MappedRead`, `FileRead`, `StoredFiles` | the iterators, what they deliver, reading files and links, files stored byte by byte |
| `Cursor` | the skippable cursor over a chunked byte range |
| `XattrSpec`, `Xattrs`, `XattrSearch`, `XattrList`, `StoredXattrs`, `XattrAstray`, `XattrImages` | attribute decoding, the imperative search and listing, what they find and print, and regions and images on which they go astray |
| `Dir`, `Readdir`, `ReaddirResume`, `ReaddirPlaced`, `ReaddirStored` | directory blocks, enumeration and search, resuming, positions, stored directories |
| `Operations` | the inode cache and path lookup |
| `Devices` | the device table and the device mask |

Three modules tie the model to bytes on the image: `InodeCodes`, `StoredFiles` and `StoredXattrs` state, with
literal positions and codes, what an encoder stores, and prove that reading gives it back.

The backend is a total function from device and address to byte. Block sizes are 2^9 to 2^16. A run that
does not return (an unwrap of nothing, a slice out of range, an underflow, a read outside a buffer in
unsafe code) is the outcome `Fault`. Every imperative member is proved equal to a specification function,
and the theorems are about that function.

## What the proofs found

- `skip` across a buffer drops twice the rest of the buffer, whatever was asked for. It returns having
  dropped what was asked for if and only if that stays in the buffer, or is twice its rest and less than
  everything that is left (`Cursor.SkipExact`); `Cursor.SkipFaults` skips exactly twice the rest, to the end
  of the range, and faults.
- The inline loop of `get_xattr` does not pass the body of an entry whose header fails the checks, and
  reads that body as headers, word by word; past an entry that passes them it skips, and may land
  elsewhere. It keeps to the entries if and only if no such word passes the checks and every such skip is
  exact, wherever the region lies (`XattrSearch.InlineSearchIff`). `XattrAstray.ImpostorFound` shows an
  attribute whose value is found as another attribute, and `XattrAstray.SkipMisses` a stored attribute that is
  missed because the value before it crosses a block; `XattrImages.ImageImpostor` and `ImageMisses` give the
  image and the inode. Shared entries are not affected
  (`XattrSearch.SharedSearchExact`).
- The inline loop of `list_xattrs` keeps to the entries if and only if the skip past every value is exact
  (`XattrList.ListRunIff`); `XattrAstray.PhantomListed` shows a value that crosses a block and lists an
  attribute that is not there, and `XattrImages.ImagePhantom` the image.
- The shared count is shifted in eight bits, so indexes are counted modulo 64
  (`XattrSpec.SharedCountModulo64`).
- A compact inode has no attributes to get or list, whatever it stores (`XattrSearch.CompactHasNone`).
- The flat mapping counts blocks in 32 bits and is right everywhere if and only if the count fits
  (`BlockMap.FlatMapsRightIff`).
- Indexed chunks are not cut at the file size; iteration covers the file and the rest of its last block
  (`FileRead.IndexedCoverage`), and a read that starts in that rest gets nothing, so it does not continue
  the read before it (`FileRead.ReadFileSplitIff`).
- An inline tail that crosses a block of the image is delivered in two buffers (`MappedRead.BufferCutIff`).
- A search cannot find the last name of a padded block, in any block of a directory
  (`ReaddirStored.LastNameFoundIff`).
- Enumeration from the end of a directory of whole blocks, an empty one included, unwraps a buffer that is
  not there (`Readdir.EndUnwraps`), where searching an empty one finds nothing (`Readdir.FindIsFirstListed`).
- Enumeration from behind the last descriptor boundary of a block reports every later entry one block too
  far. From all other offsets it reports exactly the entries at or after the offset, at their own positions
  (`ReaddirResume.ListingFromIff`, `ReaddirResume.LateOffset`).
- A directory block without entries does not move the position of the blocks behind it. In a directory that
  reads without a failure, entries are reported at the positions of their descriptors if and only if no block
  without entries stands before one with entries (`ReaddirPlaced.PlacedIff`), and enumeration can be resumed
  behind every entry if and only if that is so (`ReaddirPlaced.ResumeIff`). With an empty block in front of a
  full one, resuming behind the first entry reports it again (`ReaddirPlaced.EmptyBlockRepeats`).
- Inode numbers do not round-trip for number 0 and for the largest number, unless they are the root
  (`FileRead.InoRoundTripIff`).
- The third stage of reading an extended inode, from the next block, is never taken: inodes are aligned
  to 32 bytes, and the space left in the block is counted from the first half. The read across the block
  boundary is done by the second stage (`Inodes.ReadInodeInfo`).

## Model

| member | source | states |
|---|---|---|
| Superblock.NewAccessor | erofs-sys/src/superblock.rs:116-127 | an address is cut into block number, base, offset and a never empty rest of the block; mask and shifts agree |
| Bits.ShiftsAreArithmetic | erofs-sys/src/superblock.rs:117-125 | the shift and mask operations used for addresses are product, quotient and remainder by a power of two |
| Bits.RoundUpBlock | erofs-sys/src/lib.rs:48-52 | rounding up to a block is the identity on block boundaries and otherwise the end of the block |
| Bits.LittleEndian | erofs-sys/src/inode.rs:376-387 | words of two, four and eight bytes are read with the first byte counting least |
| Superblock.Blksz | erofs-sys/src/superblock.rs:143-145 | block sizes are multiples of 512 and never of 12 |
| Superblock.BlockCeil | erofs-sys/src/lib.rs:48-51 | rounding up to a block gives the least block boundary not below the argument |
| Superblock.BlockFloor | erofs-sys/src/lib.rs:52-54 | rounding down to a block drops the offset in the block |
| Superblock.Iloc | erofs-sys/src/superblock.rs:157-159 | the address of an inode is the start of the metadata area plus 32 times the nid modulo 2^64, and is aligned to 32 bytes |
| Inodes.ReadInodeInfo | erofs-sys/src/inode.rs:398-455 | the buffer filled in stages decodes to the inode stored contiguously at its address, for every version; the last stage is dead |
| InodeCodes.VersionCode | erofs-sys/src/inode.rs:84-90 | a format is compact exactly when it is even, and else extended |
| InodeCodes.LayoutCode | erofs-sys/src/inode.rs:93-102 | the layout is the code format / 2 modulo 8: 0 plain, 1 and 3 compressed, 2 inline, 4 chunks |
| InodeCodes.SpecCode | erofs-sys/src/inode.rs:217-229 | the data field is a block address, a chunk format or a block count by the layout code, for directories, files and links only |
| InodeCodes.ChunkCode | erofs-sys/src/inode.rs:196-203 | the chunk bits are the low five bits of the chunk format, and bit 5 marks indexes |
| InodeCodes.InodeRoundTrip | erofs-sys/src/inode.rs:375-450 | decoding inverts encoding for every inode of either kind, with arbitrary other bytes and whatever follows |
| BlockMap.MapAgrees | erofs-sys/src/superblock.rs:183-305 | below the file size, for every layout, the mapped segment puts each of its bytes where the per-byte translation does, is never empty and starts at the offset; mapping fails exactly as the translation of that byte does |
| BlockMap.PlainMapsRight | erofs-sys/src/superblock.rs:183-223 | the plain layout maps as translated |
| BlockMap.InlineMapsRight | erofs-sys/src/superblock.rs:191-219 | the inline layout maps its tail after the inode and attributes, the other blocks to the data area |
| BlockMap.ChunkMapsRight | erofs-sys/src/superblock.rs:225-295 | both chunk formats map as translated through a chunk table aligned to its entry size |
| BlockMap.TableRounding | erofs-sys/src/superblock.rs:233-272 | rounding after adding whole entries equals rounding the table base, so entries are consecutive disjoint slots |
| BlockMap.SameChunk | erofs-sys/src/superblock.rs:231-257 | bytes of one chunk are adjacent in the image, or fail together |
| BlockMap.MapContinues | erofs-sys/src/superblock.rs:298-305 | mapping k bytes further inside a mapped segment gives the same device and an address k further |
| BlockMap.BlockCount | erofs-sys/src/superblock.rs:148-150 | a block count that fits 32 bits is the number of blocks the file touches |
| BlockMap.FlatMapsRightIff | erofs-sys/src/superblock.rs:148-219 | a flat file is mapped right at every offset if and only if its block count fits 32 bits |
| BlockMap.AddressesFit | erofs-sys/src/superblock.rs:183-295 | whenever the end of the inode and the file size together stay 2^49 below 2^64, no address sum of the mapping leaves 64 bits |
| BlockMap.OrdinaryFits | erofs-sys/src/superblock.rs:157-159 | that is so for nids below 2^58 and files below 2^62 bytes |
| RawIters.MapIter.Next | erofs-sys/src/map.rs:83-98 | maps the current offset and moves to the end of the first block of the segment; does not move on an error |
| RawIters.BufferNotEmpty | erofs-sys/src/map.rs:90-92 | every successful step moves, so iteration ends while mapping succeeds |
| RawIters.TempBufferMapIter.Next | erofs-sys/src/data/raw_iters/temp_iter.rs:35-61 | a copying step yields the next buffer of the mapped run and moves by its length, or reports the failure and stays |
| RawIters.RefMapIter.Next | erofs-sys/src/data/raw_iters/ref_iter.rs:43-61 | a borrowing step yields the next buffer of the mapped run and moves by its length, or reports the failure and stays |
| RawIters.MapStepDetermined | erofs-sys/src/data/raw_iters/ref_iter.rs:43-61 | the two mapped iterators yield the same result from the same position and reach the same position |
| RawIters.MapStepsDetermined | erofs-sys/src/data/raw_iters/ref_iter.rs:43-61 | equally many steps of the two from the same offset yield the same results and go through the same offsets |
| RawIters.ContinuousTempBufferIter.Next | erofs-sys/src/data/raw_iters/temp_iter.rs:93-114 | a copying step yields the next buffer of the continuous run, up to the block end or the end of the range, and leaves the rest of it |
| RawIters.ContinuousTempBufferIter.AdvanceOff | erofs-sys/src/data/raw_iters/temp_iter.rs:121-124 | moves the range by n, or underflows when fewer bytes are left |
| RawIters.ContinuousRefIter.Next | erofs-sys/src/data/raw_iters/ref_iter.rs:101-116 | a borrowing step yields the next buffer of the continuous run and leaves the rest of it |
| RawIters.ContinuousRefIter.AdvanceOff | erofs-sys/src/data/raw_iters/ref_iter.rs:123-126 | moves the range by n, or underflows when fewer bytes are left |
| RawIters.ContinuousStepDetermined | erofs-sys/src/data/raw_iters/ref_iter.rs:101-116 | the two continuous iterators yield the same buffer and reach the same state |
| RawIters.ContinuousStepsDetermined | erofs-sys/src/data/raw_iters/ref_iter.rs:101-116 | equally many steps of the two over the same range yield the same buffers and leave the same ranges |
| RawIters.ContinuousStepsRun | erofs-sys/src/data/raw_iters/temp_iter.rs:93-114 | the buffers of the steps to the end of a range are exactly the continuous run |
| RawIters.ContinuousRunTiles | erofs-sys/src/data/raw_iters/temp_iter.rs:93-114 | the continuous run, which the steps of both iterators follow, concatenates to exactly its range, with no empty buffer and none across a block |
| MappedRead.RunDelivers | erofs-sys/src/map.rs:83-98 | from any offset and for every layout, the buffers concatenate to the logical bytes up to the end of the file (rounded up for indexed chunks) or to the first unmapped byte, whose failure ends the run |
| MappedRead.BufferCut | erofs-sys/src/map.rs:90-92 | away from an inline tail that crosses a block of the image, each buffer ends at the next logical block boundary or the end |
| MappedRead.BufferCutIff | erofs-sys/src/map.rs:90-92 | buffers end at logical block boundaries from every offset if and only if an inline tail does not cross a block of the image |
| MappedRead.BufferIsLogical | erofs-sys/src/data/raw_iters/temp_iter.rs:35-42 | the fetched buffer is the logical bytes at its offset, all of them mapped |
| MappedRead.StepReaches | erofs-sys/src/map.rs:84-92 | a step never passes the logical end, and reaches it exactly when it leaves the file |
| FileRead.DeliveredIff | erofs-sys/src/map.rs:83-98 | iteration reaches the end of the file if and only if every byte from the offset on is mapped |
| FileRead.FlatDelivered | erofs-sys/src/superblock.rs:220-222 | a flat file is always delivered: the error past its last block is never reached by iteration |
| FileRead.IndexedCoverage | erofs-sys/src/superblock.rs:233-262 | indexed chunks deliver exactly up to the file size rounded up to a block, less than a block too much, the file bytes first |
| StoredFiles.StoredInodeRead | erofs-sys/src/superblock.rs:209-213 | a stored inode is the one that is read, and what follows it starts behind a header of 32 or 64 bytes and an attribute region of 12 + 4 * (count - 1) bytes |
| StoredFiles.PlainStored | erofs-sys/src/superblock.rs:183-203 | a plain file whose bytes are stored from its block address on is delivered exactly |
| StoredFiles.InlineStored | erofs-sys/src/superblock.rs:191-219 | an inline file whose blocks are stored from its block address on, and whose tail behind the attributes of its inode, is delivered exactly |
| StoredFiles.ChunkByte | erofs-sys/src/superblock.rs:225-295 | every byte of chunk nr is at the block, and on the device, that the bytes of table entry nr name; a hole is refused |
| StoredFiles.ChunkMapped | erofs-sys/src/superblock.rs:225-295 | mapping an offset of chunk nr gives that place |
| StoredFiles.ChunksStored | erofs-sys/src/superblock.rs:225-295 | a file whose chunks are stored where its table names them, in any order and on any devices, is delivered |
| FileRead.ErofsFuse.TryRead | fuse/src/main.rs:189-205 | for every signed offset, a negative one counting from 2^64 down, the loop answers with the window of the mapped run from the offset, or its failure, and keeps the cache consistent |
| FileRead.ErofsFuse.TryReadLink | fuse/src/main.rs:176-188 | the loop answers with the whole mapped run and a NUL, or its failure |
| FileRead.ReadRunFlat | fuse/src/main.rs:194-203 | cutting buffer by buffer is cutting the concatenation once; a failure counts only if the window reaches it |
| FileRead.ReadsWindow | fuse/src/main.rs:189-205 | a read is the logical bytes of its window, or the failure of the first unmapped byte it needs; for every layout, offset and size |
| FileRead.ReadFileExact | fuse/src/main.rs:189-205 | the same for the call by inode number |
| FileRead.WindowIsLogical | fuse/src/main.rs:189-205 | a read of size bytes at an offset is the logical bytes up to the smaller of offset + size and the logical end if and only if every byte it asks for is mapped, in particular if the rest of the file is; the logical end is the file size, rounded up to a block for indexed chunks |
| FileRead.ReadSplitIff | fuse/src/main.rs:194-203 | for every layout, the window of a + b bytes is the window of a bytes followed by that of b bytes behind it, failures included, exactly when the first asks for a byte that is not mapped, or the second does not ask for zero bytes at an unmapped byte and does not start in the overshoot of indexed chunks after a read from inside the file |
| FileRead.ReadFileSplitIff | fuse/src/main.rs:189-205 | the same for two calls by inode number: read(o, a + b) is read(o, a) followed by read(o + a, b) exactly then |
| FileRead.ReadLinkExact | fuse/src/main.rs:176-188 | a link reads back as all its logical bytes and a NUL if and only if every byte of it is mapped, for every layout |
| FileRead.InoRoundTripIff | fuse/src/main.rs:161-175 | inode numbers round-trip if and only if they are the root or neither 0 nor 2^64 - 1 |
| FileRead.NumbersShifted | fuse/src/main.rs:169-175 | number 1 is the signed 16-bit root number read as unsigned, 0 faults, and every other number is one above the inode's |
| Cursor.SkippableContinuousIter.TryNew | erofs-sys/src/data/raw_iters.rs:45-53 | a cursor at the start of the range, or none for an empty range |
| Cursor.SkippableContinuousIter.Skip | erofs-sys/src/data/raw_iters.rs:54-64 | moves as the flat cursor does under the skip the code performs |
| Cursor.SkipExact | erofs-sys/src/data/raw_iters.rs:54-64 | a skip returns having dropped exactly n bytes if and only if n is at most the rest of the buffer, or twice it and less than what is left; past the buffer it faults exactly when twice the rest leaves nothing, and otherwise lands there |
| Cursor.SkipFaults | erofs-sys/src/data/raw_iters.rs:57-62 | four bytes before the end of a 512-byte block, skipping the last eight bytes of the range faults |
| Cursor.SkippableContinuousIter.Read | erofs-sys/src/data/raw_iters.rs:66-91 | writes exactly the next n remaining bytes and drops them, leaves the rest of the buffer alone, and faults exactly when fewer are left |
| Cursor.SkippableContinuousIter.CmpWithCursorMove | erofs-sys/src/data/raw_iters.rs:19-30 | compares n bytes of both sides and passes them whatever the answer |
| Cursor.SkippableContinuousIter.TryCmp | erofs-sys/src/data/raw_iters.rs:93-123 | the loop over buffers gives the flat comparison outcome and drops exactly what it reports |
| Cursor.CmpExact | erofs-sys/src/data/raw_iters.rs:93-123 | a comparison succeeds if and only if the remaining bytes start with the argument, and faults if and only if they run out while still agreeing, whatever the buffers |
| Cursor.CmpStopsAtBuffer | erofs-sys/src/data/raw_iters.rs:98-118 | a failed comparison has passed a differing prefix, never longer than the argument, ending at the first buffer end after the difference or with the argument |
| Cursor.SkippableContinuousIter.Eof | erofs-sys/src/data/raw_iters.rs:124-126 | the end is reported exactly when nothing remains |
| XattrSpec.GuardDecides | erofs-sys/src/xattrs.rs:211-244 | the header checks and the comparison of the rest of the name decide exactly whether an entry has the queried prefix number and name |
| Xattrs.GetEntryHeader | erofs-sys/src/xattrs.rs:158-161 | reads the next four bytes as a header, across blocks |
| Xattrs.GetXattrKey | erofs-sys/src/xattrs.rs:163-195 | prints prefix, infix, suffix and NUL in place, leaves the other bytes alone, and fails exactly as specified |
| Xattrs.QueryXattrValue | erofs-sys/src/xattrs.rs:197-269 | answers or rejects, and leaves cursor and buffer, as the flat query does |
| Xattrs.SkipXattrValue | erofs-sys/src/xattrs.rs:270-278 | skips the padded body less the suffix |
| Xattrs.ReadInodeXattrsSharedEntries | erofs-sys/src/superblock.rs:398-432 | the per-buffer decode of the shared indexes is the flat one |
| Xattrs.SearchInline | erofs-sys/src/superblock.rs:456-472 | the inline loop refines the flat search |
| Xattrs.SearchShared | erofs-sys/src/superblock.rs:476-499 | the shared loop refines the flat search |
| Xattrs.GetXattr | erofs-sys/src/superblock.rs:434-500 | the whole call refines the flat search, with the value in the buffer or in a vector |
| Xattrs.ListXattrs | erofs-sys/src/superblock.rs:502-544 | the whole call prints what the flat listing does, returns its length and leaves later bytes alone |
| XattrSpec.WordsAppend | erofs-sys/src/superblock.rs:418-426 | decoding words buffer by buffer is decoding them at once when buffers hold whole words |
| XattrSpec.WholeWords | erofs-sys/src/superblock.rs:418-426 | every buffer of an aligned index table holds whole words |
| XattrSpec.SharedCountModulo64 | erofs-sys/src/superblock.rs:416-431 | the number of indexes is the shared count modulo 64, hence all of them if and only if the count is below 64, each is its little-endian word, and the name filter is the first word of the summary |
| XattrSpec.NoTable | erofs-sys/src/superblock.rs:403-408 | without attributes, and for compact inodes, no shared index is read |
| XattrSearch.FirstMatchIs | erofs-sys/src/superblock.rs:476-499 | the reference search: ENODATA exactly when nothing matches, otherwise the value of the first match or ERANGE when it does not fit |
| XattrSearch.QueryFound | erofs-sys/src/xattrs.rs:246-260 | an entry with the queried identity answers with its value, or ERANGE when that does not fit |
| XattrSearch.QueryNotFound | erofs-sys/src/xattrs.rs:211-267 | an entry of another identity is rejected: in place when its header fails the checks, otherwise after the compared bytes and a skip |
| XattrSearch.SharedSearchExact | erofs-sys/src/superblock.rs:476-499 | the search over shared entries is the first-match search, even when entries straddle blocks; a rejected entry whose skip faults is excluded by the length of its cursor |
| XattrSearch.GetXattrShared | erofs-sys/src/superblock.rs:434-500 | without an inline region get_xattr is exactly the first match among the shared entries |
| XattrSearch.CompactHasNone | erofs-sys/src/inode.rs:320-333 | a compact inode, as loaded, answers ENODATA to every query and lists nothing |
| XattrSearch.HeaderRoundTrip | erofs-sys/src/xattrs.rs:91-99 | decoding an encoded header gives the header |
| XattrSearch.RejectedExact | erofs-sys/src/xattrs.rs:205-268 | wherever it lies, an entry is rejected and passed by its padded body size if and only if its header fails the checks and it has no body, or its header passes them, the name differs and the skip after the comparison is exact |
| XattrSearch.CmpWithSuffix | erofs-sys/src/xattrs.rs:246-267 | how much of an entry the comparison of its suffix passes, from the suffix, the name and the block boundaries alone |
| XattrSearch.OneBlockPasses | erofs-sys/src/xattrs.rs:246-267 | in one block every entry whose header passes the checks is passed exactly |
| XattrSearch.InlineSearchIff | erofs-sys/src/superblock.rs:456-472 | wherever the region lies, the loop reads headers exactly where expected and answers with the first match if and only if, before it, every entry that passes the checks is passed exactly and no body of any other contains a word that passes them |
| XattrSearch.ShortRest | erofs-sys/src/xattrs.rs:158-161 | fewer than four bytes left in the region end the search, and the listing, with a fault |
| XattrSearch.GetXattrExact | erofs-sys/src/superblock.rs:434-500 | under that condition get_xattr is the first match among inline and then shared entries, for regions of any length |
| StoredXattrs.SharedStored | erofs-sys/src/superblock.rs:476-482 | a shared entry stored at four times its index from the attribute area on is the one that is searched |
| StoredXattrs.GetStored | erofs-sys/src/superblock.rs:434-500 | for an extended inode with attributes, if the bytes behind its header, the summary and the shared indexes store entries, get_xattr is the first match among them and the shared ones, under the same condition |
| StoredXattrs.OnlyShared | erofs-sys/src/superblock.rs:448-451 | without room for inline entries, only shared ones are searched and listed |
| XattrAstray.ImpostorFound | erofs-sys/src/superblock.rs:456-472 | without it a value can be found as an attribute that was never stored |
| XattrAstray.SkipMisses | erofs-sys/src/superblock.rs:456-472 | in two blocks a stored attribute is not found, because the value before it crosses the block end |
| XattrAstray.PhantomListed | erofs-sys/src/superblock.rs:518-526 | in two blocks an attribute is listed that is not stored, because a value crosses the block end |
| XattrImages.RegionRead | erofs-sys/src/inode.rs:398-455 | the inode of the images is what a fresh read of its bytes gives, shared indexes included |
| XattrImages.ImageImpostor | erofs-sys/src/superblock.rs:434-500 | on an image, get_xattr finds an attribute that is not stored, in the value of another |
| XattrImages.ImageMisses | erofs-sys/src/superblock.rs:434-500 | on an image, get_xattr does not find a stored attribute |
| XattrImages.ImagePhantom | erofs-sys/src/superblock.rs:502-544 | on an image, list_xattrs lists an attribute that is not stored |
| XattrList.FullNameIsId | erofs-sys/src/xattrs.rs:163-195 | a printed name is the text of its prefix number followed by the name get_xattr takes, and one exists exactly when the other does |
| StoredXattrs.PrefixesAre | erofs-sys/src/xattrs.rs:118-126 | the bytes of the seven prefixes |
| StoredXattrs.NameIndexCode | erofs-sys/src/xattrs.rs:58-79 | 128 + k is infix k, and numbers below 128 are prefix numbers |
| StoredXattrs.ShortNamed | erofs-sys/src/xattrs.rs:183-194 | an entry with prefix number k below 7 is called by it and printed with the bytes of that prefix, its suffix and a NUL |
| StoredXattrs.LongNamed | erofs-sys/src/xattrs.rs:169-194 | an entry with infix k is called by the prefix number in its first byte, its text and the suffix, and printed so; a missing infix is ENODATA |
| XattrList.OneBlockSkips | erofs-sys/src/xattrs.rs:270-278 | in one block every value is skipped exactly |
| XattrList.InlineListExact | erofs-sys/src/superblock.rs:513-527 | when every value is skipped exactly, the inline loop prints the names of exactly the stored entries in order and ends at the end of the region, or fails exactly when one has no name or they do not fit |
| XattrList.ListRunIff | erofs-sys/src/superblock.rs:518-526 | given that all names exist and fit, the loop reads exactly the headers of the entries and ends with the region if and only if the skip past every value stays in its buffer, or is twice the rest of it and less than what is left |
| XattrList.SharedListExact | erofs-sys/src/superblock.rs:530-542 | the same for shared entries, wherever they lie |
| XattrList.ListXattrsExact | erofs-sys/src/superblock.rs:502-544 | when every inline value is skipped exactly, the output is the names of the inline and then the shared entries, whole if it fits |
| StoredXattrs.ListStored | erofs-sys/src/superblock.rs:502-544 | the same from the stored bytes of an extended inode with attributes |
| XattrList.ListedIsFound | erofs-sys/src/superblock.rs:476-542 | every attribute that is listed, inline or shared, can be got, unless the inline search for it leaves the entries; inline values are skipped exactly |
| Dir.DirCollection.Next | erofs-sys/src/dir.rs:91-99 | yields the entry at the current index and moves on, or stays at the end |
| Dir.BlockDecodesIff | erofs-sys/src/dir.rs:59-82 | a block decodes without a fault if and only if its table lies in it, its name offsets do not decrease and the last is in the block |
| Dir.NamesTile | erofs-sys/src/dir.rs:48-82 | the names of a block that decodes concatenate to its bytes from the first name on; that is everything after the table if and only if the first offset is a multiple of 12 |
| Dir.DescRoundTrip | erofs-sys/src/dir.rs:27-38 | decoding an encoded descriptor gives it back |
| Dir.EncodedDirent | erofs-sys/src/dir.rs:59-82 | entry i of an encoded block decodes to item i |
| Dir.DecodeInvertsEncode | erofs-sys/src/dir.rs:48-99 | an encoded block decodes to its items in order, the last name extended by the padding and nothing else changed |
| Readdir.Emitter.Emit | erofs-sys/src/superblock.rs:350-371 | a caller takes an entry or not, and stops or not, as it decides from what it was offered before |
| Readdir.FillDentries | erofs-sys/src/superblock.rs:345-391 | what the caller is offered, takes, and the result are those of feeding it the flat listing from the offset after skipping |
| Readdir.FindNid | erofs-sys/src/superblock.rs:332-341 | the loops are a first-match search over the flat listing |
| Readdir.FindInIs | erofs-sys/src/superblock.rs:332-341 | that search gives the first entry of the name, and none if and only if the whole directory was readable and has none |
| Readdir.FindFails | erofs-sys/src/superblock.rs:333-339 | a search that does not find the name before the directory fails answers with that failure |
| Readdir.FindIsFirstListed | erofs-sys/src/superblock.rs:332-391 | a search finds the first entry that enumeration from 0 reports under the name; an empty directory enumerates to a fault |
| Readdir.EndUnwraps | erofs-sys/src/superblock.rs:354-363 | up to the file size, the first buffer is missing exactly at the end of a directory of whole blocks, and then enumeration faults |
| Readdir.FirstBufferFails | erofs-sys/src/superblock.rs:361-363 | a first buffer that cannot be mapped ends enumeration with its failure, and one that cannot hold a descriptor with a fault |
| ReaddirResume.DrainOffers | erofs-sys/src/superblock.rs:364-390 | one call offers consecutive entries right after the skipped ones, up to the first at which the caller stops |
| ReaddirResume.PaginateExact | erofs-sys/src/superblock.rs:364-390 | repeated calls skipping what was taken lose and repeat nothing, whether callers take the entry they stop at or not, and make progress; callers stop at every entry they do not take |
| ReaddirResume.DirectoryPages | erofs-sys/src/superblock.rs:345-391 | for calls at offset 0 on a directory, the pages are a beginning of its whole list of entries, and reach its end when every call takes an entry |
| ReaddirResume.BlockRun | erofs-sys/src/superblock.rs:361-363 | mapped iteration from a block start yields exactly that directory block and continues at the next, unless an inline tail crosses a block of the image |
| ReaddirResume.ResumeAt | erofs-sys/src/superblock.rs:358-376 | enumeration from just after entry j of a block k that can hold its table starts at entry j + 1; behind the file size, in the overshoot of indexed chunks, it is refused |
| ReaddirResume.NotBlockSize | erofs-sys/src/superblock.rs:358-359 | no multiple of 12 is a block size, so a descriptor boundary is never a block end |
| ReaddirResume.ResumeSeamless | erofs-sys/src/superblock.rs:345-391 | in a directory whose buffers are blocks that can hold their tables, those without entries last, each entry is reported at the position of its descriptor, and enumeration from 12 past it reports exactly the later entries at the same positions, unless that is behind the file size |
| ReaddirResume.ListingFromIff | erofs-sys/src/superblock.rs:345-391 | in a directory that reads without a failure and has its blocks without entries last, for every offset up to the file size, enumeration reports exactly the entries at or after the offset, at their own positions, if and only if there is a block at the offset, and the next multiple of 12 is not behind the block end or the next block has no entries |
| ReaddirResume.LateOffset | erofs-sys/src/superblock.rs:358-377 | from 505 in two 512-byte blocks the second block is reported at 1024, and resuming behind its first entry is refused |
| ReaddirPlaced.FirstBlock | erofs-sys/src/superblock.rs:364-389 | a listed block is sound and contributes its entries one descriptor apart; the next block follows at the next block start, or at the same position after a block without entries |
| ReaddirPlaced.PlacedIff | erofs-sys/src/superblock.rs:345-391 | in a directory that reads without a failure, every entry is reported at the position of its descriptor if and only if no block without entries stands before one with entries |
| ReaddirPlaced.ResumeIff | erofs-sys/src/superblock.rs:345-391 | in such a directory, enumeration can be resumed behind every entry if and only if no block without entries stands before one with entries |
| ReaddirPlaced.EmptyBlockRepeats | erofs-sys/src/superblock.rs:364-389 | with a first block without entries and a second with entries, the second is reported from position 0 on, and resuming behind its first entry reports all of it again |
| ReaddirStored.StoredListed | erofs-sys/src/superblock.rs:379-389 | listing a run of encoded blocks reports what was encoded, block by block and in order |
| ReaddirStored.StoredRun | erofs-sys/src/superblock.rs:361-363 | when the logical bytes of a directory store encoded blocks, mapped iteration yields exactly those blocks and ends well |
| ReaddirStored.ListingStored | erofs-sys/src/superblock.rs:345-391 | a directory whose bytes store encoded blocks lists exactly their entries, in order, at the positions of their descriptors, and can be resumed behind every one |
| ReaddirStored.LastNameFoundIff | erofs-sys/src/dir.rs:66-72 | in any block of a stored directory, a last name that no other entry decodes to is found if and only if the block has no padding |
| Operations.InodeCollection.Iget | fuse/src/main.rs:68-77 | answers as a fresh read; on success exactly that inode is put into the cache, on failure nothing changes |
| Operations.InodeCollection.Release | fuse/src/main.rs:78-80 | forgets exactly that inode and keeps the cache consistent |
| Operations.ReachableConsistent | fuse/src/main.rs:66-81 | after any sequence of iget and release every cached inode equals a fresh read |
| Operations.Lookup | erofs-sys/src/operations.rs:33-59 | for every consistent cache the result is that of resolution without a cache, and nothing is dropped from it |
| Operations.DirLookup | erofs-sys/src/operations.rs:62-74 | gives the fresh inode of the first entry of the name, which is the walk of one component |
| Operations.SplitJoin | erofs-sys/src/operations.rs:43 | components joined by slashes give back the path, and none contains byte 47 |
| Operations.EmptyIgnored | erofs-sys/src/operations.rs:44-46 | empty components do not change the result |
| Operations.ResolveCompose | erofs-sys/src/operations.rs:33-59 | looking up p/q, with byte 47 between, is looking up q from what p resolves to, or the failure of p |
| Operations.ResolveName | erofs-sys/src/operations.rs:43-58 | a name without byte 47, whatever other bytes it holds, resolves to the first entry of that name in the directory, or to the failure of reading it, or to ENOENT |
| Devices.GetDeviceInfos | erofs-sys/src/devices.rs:44-74 | the nested loops give the slots of all buffers in order and the mask of their number |
| Devices.SlotStored | erofs-sys/src/devices.rs:27-36 | a stored slot is read back: 64 bytes of tag, the block count, the mapped block count, 56 reserved bytes |
| Devices.SlotsInOrder | erofs-sys/src/devices.rs:48-65 | from a slot boundary the buffers hold exactly the slots of the table, in order, whatever the block size |
| Devices.LoadDevices | erofs-sys/src/superblock/file.rs:82-87 | loading gives the table of the superblock, and fails exactly for negative fields |
| Devices.MaskIsTight | erofs-sys/src/devices.rs:67-71 | the mask exists exactly for up to 32767 devices and is the least 2^k - 1 not below their number |
| Devices.MaskKeeps | erofs-sys/src/superblock.rs:259 | masking keeps exactly the numbers up to the mask, so every device number |
| Devices.ChunkDeviceKept | erofs-sys/src/superblock.rs:243-259 | with the mask of the device table a chunk is mapped to the device its index names |

## Left out

- Requests, replies, mounting and attributes of the FUSE daemon, including the offset counter of `readdir`; enumeration is modelled at `fill_dentries`.
- Real files, memory maps, short reads and failing backends: the backend answers every read.
- `get_xattr_infixes`: the infix table is an input, each infix holding at least its prefix number.
- Compressed layouts: mapping them faults, as the unimplemented branch does.
- Device inodes, compression information, time, owner and permission fields, inode numbers in the header, and the superblock fields the read path does not use.
- Allocation, boxing, trait objects, lifetimes, `put_buf` and the error table.
- Copying and borrowing iterators are two classes; the cursor, file reads, enumeration and the device loop run over the copying one, whose steps are those of the borrowing one.
- Address sums are unbounded; `BlockMap.AddressesFit` says when they fit 64 bits.
- The cast of the shared index buffer to 32-bit words is little-endian decoding; alignment of the cast is not modelled.
- Panics, overflow panics and reads past a buffer in unsafe code are all `Fault`; an unchecked build that wraps around instead is not modelled.
- The encoders in `Dir`, `XattrSearch`, `InodeCodes` and `StoredFiles` are specification functions; the repository has none.
- GetXattrExact: one direction; that the run keeps to the entries exactly under its condition is `XattrSearch.InlineSearchIff`, while a run that strays may still come to the same answer.
- ListXattrsExact: one direction in the same way; `XattrList.ListRunIff` gives both for the run.
- PaginateExact: a caller that neither takes an entry nor stops at it loses it; the callers of the daemon stop.
- ResumeSeamless: directories whose inline tail crosses a block of the image are left out; `MappedRead.BufferCutIff` says how their buffers are cut.
