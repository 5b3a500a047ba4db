# A verified model of fuser

fuser is a user-space file system library for the FUSE kernel protocol, and SimpleFS, one of its
examples, is a complete file system built on it. This project models both in Dafny and proves what they are
relied on for.

**The file system (`Namespace`, `NamespaceUpdates`, `NamespaceRuns`, `RequestVerdicts`,
`RequestEffects`, `RenameTheorems`, `UndoTheorems`, `WriteTheorems`, `FileHistory`, `HandleRuns`,
`Stores`, `SimpleFs`, `InodeFlags`, `DirTree`, `FileContents`).** The class `SimpleFs` keeps the
stores the program keeps — inode records, directory maps with `.` and `..`, byte contents, the two
counters — and serves each request in the same passes of reading, changing and writing back. Each
request method is proved to take exactly one step of a flat model, in which all names are one table.
About each step it is proved when it succeeds, which error it meets otherwise, and what it does to
every table and every record. About runs it is proved that every state a sequence of permitted
requests can reach is a tree rooted at inode 1, that link counts count names, that records and
contents exist for exactly what something holds, that handle counts are opens minus releases, that
sizes are lengths, and that no number is used twice; that a file holds, at every position, what the
last request that reached it put there; that an open handle may do what the request that gave it out
asked for; and which requests undo which.

**The wire format (`LittleEndian`, `Abi`, `RequestCodec`, `RequestLayouts`, `Framing`,
`ReplyLayouts`, `Dirents`, `Direntplus`, `Readdir`).** The request cursor and the fetches each opcode
makes, with their inverse; the operations and structures of the interface by name, whose sizes and
offsets the parser and the writers are proved to go by; replies and notifications with their gathered
payloads, as one stream that reads back; the padded directory records; and paging through a directory
until it is exhausted. `SimpleFs.DoReaddir` feeds the last two from the stores.

**The protocol (`Dispatch`, `DispatchTheorems`, `Protocol`, `Negotiation`, `InitReply`,
`Teardown`).** What becomes of a request, by operation; event loops and a filesystem that answers now,
later or never, in any interleaving; capability negotiation, the handshake and what it tells the kernel; and the end of a session, with its shared mount and its shared filesystem.

**Smaller parts.** `BackingCache`, the weak and strong references of passthrough opens;
`MountOptions`, escaping and the reader that undoes it; `Time`, saturating conversion.

Where something the code or its documentation promises does not hold on all inputs, the project says
when exactly it does:

- A `read` returns the requested slice unless 2^32 or more bytes remain and the low 32 bits of their
  count are below the request (`FileContents.ReadIsSliceIff`).
- A rename that fails leaves the namespace alone, except a whiteout rename without an owner over an
  existing target, which answers EIO with the target gone (`RenameTheorems.ErrorKeepsNamespaceIff`).
- A write keeps the stored size equal to the length of the contents, unless it is empty and lies past
  the end; a copy does unless there was nothing to copy and its destination lies past the end
  (`WriteTheorems.WriteKeepsValidIff`, `CopyKeepsValidIff`, and `EmptyWritePastTheEnd` for both).
- "`Filesystem::destroy` has run" when the session thread is joined holds in every run if and only if
  at most one event loop is asked for; with more, a panic in one loop leaves the others behind
  (`Teardown.DestroyedWhenJoinedIff`, `JoinedButNotDestroyed`).
- Every request the kernel waits at gets exactly one reply if and only if no reply is longer than its
  32-bit length can say and no request stops the program: a WRITE with other data than announced, or
  an IOCTL with less, panics before there is a reply (`Protocol.ExactlyOnceIff`, `Dispatch.StopsIff`,
  with `Protocol.LongAnswerIsLost` and `ShortIoctlIsUnanswered`).
- The documentation of the granularity setter promises the nearest accepted value. The code hands back
  the largest one not above the request, which is the nearest if and only if the request is zero,
  above a second, or at most five and a half times the value handed back
  (`Negotiation.HintIsNearestIff`, `NineNanoseconds`).
- The readahead setter hands back an accepted value if and only if the kernel offers any readahead
  (`Negotiation.NoReadahead`).
- A capability above bit 31 is agreed on by both sides only when the init reply is not cut for a
  minor version below 23 (`Negotiation.HeardIff`, `CutReply`).
- The 16-bit page count of the init reply covers the largest transfer unless that has 65536 pages
  or more (`Negotiation.PagesCoverIff`, `PagesWrap`).

## Model

| member | source | states |
|---|---|---|
| DirTree.Rehang | examples/simple.rs:1769-1786 | re-hanging directories below ones that reach the root outside of them keeps every path to the root |
| DirTree.NoCycle | examples/simple.rs:1891-1900 | a directory that reaches the root is not inside its own parent |
| DirTree.Prune | examples/simple.rs:791-806 | taking away a directory no path meets keeps the path |
| FileContents.Resize | examples/simple.rs:837-839 | a cut or zero-extended file, byte by byte |
| FileContents.WriteAt | examples/simple.rs:2063-2075 | a write at an offset, byte by byte, with zeros in the gap and no effect when empty |
| FileContents.Slice | examples/simple.rs:2015-2023 | the bytes that lie both in the range and in the file |
| FileContents.ReadIsSliceIff | examples/simple.rs:2015-2036 | when the count narrowed to 32 bits still gives the requested slice, and only then |
| FileContents.ReadLosesBytes | examples/simple.rs:2015-2036 | with 2^32 bytes left a one-byte read comes back empty |
| FileContents.WriteKeepsSizeIff | examples/simple.rs:2063-2106 | the larger of old length and end of the write is the new length unless an empty write lies past the end |
| FileContents.ReadBack | examples/simple.rs:2044-2112 | written bytes read back, and everything outside them reads as before |
| Handles.Unpack | examples/simple.rs:630-650 | number and access rights come back from a handle, so numbers and handles correspond |
| NamespaceUpdates.InitIsValid | examples/simple.rs:898-968 | a new file system satisfies the whole invariant |
| NamespaceUpdates.CollectKeeps | examples/simple.rs:791-806 | collecting an inode nothing holds, and only then, keeps the invariant |
| NamespaceUpdates.AddFileKeeps | examples/simple.rs:1278-1323 | a new node under a new name keeps tree, link counts, kinds and sizes right |
| NamespaceUpdates.AddDirectoryKeeps | examples/simple.rs:1370-1404 | a new directory joins the tree below the one that names it |
| NamespaceUpdates.UnnameKeeps | examples/simple.rs:1448-1463 | losing a name keeps the invariant, whether the inode stays, is held open or goes |
| NamespaceUpdates.AddNameKeeps | examples/simple.rs:866-896 | one more name, one more link, from none for an unnamed file |
| NamespaceUpdates.MoveNameKeeps | examples/simple.rs:1835-1900 | a moved name keeps one tree, also for a directory that changes its parent |
| NamespaceUpdates.SwapNamesKeeps | examples/simple.rs:1734-1786 | two swapped names keep one tree, also for two directories |
| NamespaceUpdates.DropHandleKeeps | examples/simple.rs:783-806 | a release lowers the count of a held inode, which is then never zero before, and collects on the last |
| NamespaceRuns.RenameKeeps | examples/simple.rs:1610-1900 | every form of rename keeps the invariant |
| NamespaceRuns.StepKeepsValid | examples/simple.rs:1208-2877 | every request the kernel may send keeps the invariant |
| NamespaceRuns.RunsAreValid | examples/simple.rs:898-2877 | every state of every run satisfies it: tree, link counts, exact collection, handle counts, sizes |
| NamespaceRuns.TreeMeaning | examples/simple.rs:1325-1534 | a linked directory has exactly one name, in the directory its `..` names, reaches the root and is not inside its parent |
| NamespaceRuns.NumbersAreNotReused | examples/simple.rs:612-642 | a collected inode's number and a released handle never come back in any run |
| RequestVerdicts.MknodVerdict | examples/simple.rs:1208-1276 | a node of any type is made if and only if its name is free and its directory there, not immutable and permitting; each error by its cause |
| RequestVerdicts.MkdirVerdict | examples/simple.rs:1325-1369 | the same for a directory |
| RequestVerdicts.SymlinkVerdict | examples/simple.rs:1536-1590 | the same for a symbolic link, which meets a taken name last |
| RequestVerdicts.CreateVerdict | examples/simple.rs:2375-2430 | the same for create, after a malformed access mode |
| RequestVerdicts.TmpfileVerdict | examples/simple.rs:2613-2665 | an unnamed file needs write access asked for and a directory that permits it |
| RequestVerdicts.LinkVerdict | examples/simple.rs:1902-1922 | a link needs an inode that is neither immutable nor append-only, and then what any new name needs |
| RequestVerdicts.UnlinkVerdict | examples/simple.rs:1406-1447 | when a name is removed, and the error otherwise |
| RequestVerdicts.RmdirVerdict | examples/simple.rs:1465-1520 | the same for a directory, which must have no name in it |
| RequestVerdicts.RenameSucceedsIff | examples/simple.rs:1610-1847 | when a rename succeeds, from the state and the request: both ends, checks, flags of every inode touched, and what each form needs of its target |
| RequestVerdicts.RenameErrors | examples/simple.rs:1610-1847 | which of its seven errors it meets otherwise, each exactly |
| RequestVerdicts.OpenVerdict | examples/simple.rs:1935-1996 | when an open succeeds: immutable files not for writing, append-only ones only to append |
| RequestVerdicts.OpenDirVerdict | examples/simple.rs:2130-2166 | the same for opendir |
| RequestVerdicts.IoctlVerdict | examples/simple.rs:2539-2606 | which commands, sizes and flags an ioctl takes, and the error for the rest |
| RequestVerdicts.TruncateVerdict | examples/simple.rs:813-856 | when a file is cut or extended, at most to a tebibyte |
| RequestVerdicts.WriteVerdict | examples/simple.rs:2044-2080 | when a write is done, and the error otherwise |
| RequestVerdicts.CopyVerdict | examples/simple.rs:2787-2876 | the same for a copy |
| RequestVerdicts.RefusedChangesNothing | examples/simple.rs:1208-2877 | a refused request leaves the very state, but for the two errors found late |
| RequestVerdicts.TakenSymlink | examples/simple.rs:1558-1592 | the first of them: a number is spent and the directory's times move |
| RequestEffects.MknodEffect | examples/simple.rs:1278-1323 | the whole state after a node was made: one name, one record, empty contents, the directory's times, and nothing else |
| RequestEffects.SymlinkEffect | examples/simple.rs:1558-1608 | the same for a symbolic link, whose contents are its target |
| RequestEffects.CreateEffect | examples/simple.rs:2432-2483 | the same for create, with one handle that may do what was asked for |
| RequestEffects.TmpfileEffect | examples/simple.rs:2666-2703 | the whole state after an unnamed file was made and opened |
| RequestEffects.MkdirEffect | examples/simple.rs:1370-1404 | the whole state after a directory was made below the one that names it |
| RequestEffects.LinkEffect | examples/simple.rs:1902-1933 | after a link the name is there and counted, the times of inode and directory moved, all else as before |
| RequestEffects.UnlinkEffect | examples/simple.rs:1448-1463 | after an unlink the name is gone and one link with it, and the inode if that was its last hold |
| RequestEffects.RmdirEffect | examples/simple.rs:1521-1534 | the same for a directory, whose links go all at once |
| RequestEffects.OpenEffect | examples/simple.rs:1980-1990 | one more counted handle, with a number of its own and exactly the rights asked for |
| RequestEffects.OpenDirEffect | examples/simple.rs:2130-2166 | the same for a directory |
| RequestEffects.ReleaseEffect | examples/simple.rs:783-806 | one handle fewer, and record and contents gone with the last hold |
| RequestEffects.IoctlEffect | examples/simple.rs:2539-2606 | the getters report the flags, the setters put exactly those asked for, and move the change time only for a change |
| RequestEffects.EncodingsAgree | examples/simple.rs:190-223 | both translations of the flags are right bit by bit |
| FileHistory.TruncateEffect | examples/simple.rs:813-856 | after a truncate every byte is the old one or zero, and nothing but this file, its size and its times has changed |
| FileHistory.WriteEffect | examples/simple.rs:2063-2106 | after a write every byte is the data's inside its range and the old one or zero outside, a read of the range gives the data, the count is its length, and nothing else has changed |
| FileHistory.CopyEffect | examples/simple.rs:2827-2866 | after a copy every byte in the range is the one the source had before, also within one file |
| FileHistory.WrittenIsRead | examples/simple.rs:1998-2112 | what was written into a file below 4 GiB is what `read` replies with |
| FileHistory.ContentsAreHistory | examples/simple.rs:813-2876 | at any point of any run each byte of each file is what the last write, copy, cut or symlink that reached it put there, and each length follows from the requests alone |
| HandleRuns.RightsAreAsAsked | examples/simple.rs:630-650 | at any point of any run an open handle was given out by a request of that run, on this inode, and reads and writes exactly if that request asked to |
| WriteTheorems.WriteKeepsValidIff | examples/simple.rs:2044-2112 | a write request keeps the whole invariant exactly unless it is empty and past the end |
| WriteTheorems.CopyKeepsValidIff | examples/simple.rs:2787-2876 | a copy request does exactly unless nothing is copied to past the end |
| WriteTheorems.EmptyWritePastTheEnd | examples/simple.rs:2044-2876 | both failures, on a new file system with one empty file |
| RenameTheorems.RenameNames | examples/simple.rs:1734-1881 | a successful rename is one pointwise replace, exchange or replace-plus-whiteout of the name table |
| RenameTheorems.RenameParents | examples/simple.rs:1769-1900 | and changes exactly the parents of the directories it moves |
| RenameTheorems.RenameContents | examples/simple.rs:1817-1881 | which inodes exist afterwards and what they contain |
| RenameTheorems.RenameRecord | examples/simple.rs:1757-1890 | what differs in any inode record, so that no stale copy overwrote a newer one |
| RenameTheorems.RenameNumbersAndWhiteout | examples/simple.rs:1849-1870 | only a whiteout spends a number, and what stands where the entry was is a new empty character device |
| RenameTheorems.TargetLost | examples/simple.rs:1817-1847 | the whole state after the error for a missing owner: without the target's name, and without the target if that was its last hold |
| RenameTheorems.ErrorKeepsNamespaceIff | examples/simple.rs:1610-1847 | an error reply changes nothing in the namespace, except for a whiteout without owner over a target |
| RenameTheorems.WhiteoutWithoutOwner | examples/simple.rs:1817-1847 | the exception, reached from a new file system |
| UndoTheorems.UnlinkUndoesLink | examples/simple.rs:1406-1463 | the name a link made is found, removed unless its directory is append-only or forbids it, and that restores names, parents, contents, counts and inodes |
| UndoTheorems.UnlinkUndoesMknod | examples/simple.rs:1208-1463 | the same for a node just made, but for its number |
| UndoTheorems.RmdirUndoesMkdir | examples/simple.rs:1325-1534 | and for a directory just made, which is never found occupied |
| UndoTheorems.ReleaseUndoesOpen | examples/simple.rs:1935-2128 | a release after an open restores the very state, but for the handle's number |
| UndoTheorems.FlagsReadBack | examples/simple.rs:2539-2606 | flags set through either encoding are read back through it, and are the ones acted on |
| UndoTheorems.UnlinkedWhileHeld | examples/simple.rs:783-806 | an unlinked file is gone exactly when the name was its last hold; until then it reads as before |
| InodeFlags.XflagsBack | examples/simple.rs:190-223 | the two flag encodings undo each other on every accepted value, and only supported flags come out |
| UndoTheorems.RenameUndone | examples/simple.rs:1610-1900 | exchanging twice, or moving to a free place and back, restores the namespace |
| Stores.ViewIsFaithful | examples/simple.rs:698-719 | the flat view loses nothing of well-formed stores |
| Stores.PutEntry | examples/simple.rs:889-891 | one rewritten directory map is one changed name |
| Stores.GcPasses | examples/simple.rs:791-806 | removing both files of an inode is the collection of the flat model |
| Stores.MoreThanTwo | examples/simple.rs:1493-1502 | a map with more than two entries is exactly a directory that is not empty |
| SimpleFs.SimpleFs.constructor | examples/simple.rs:898-968 | the first start makes the initial state |
| SimpleFs.SimpleFs.DoMknod | examples/simple.rs:1208-1323 | the passes over parent record, new record, content file and directory map are the one step that adds a named node; every refusal leaves the stores alone |
| SimpleFs.SimpleFs.DoMkdir | examples/simple.rs:1325-1404 | the same for a directory with its `.` and `..` |
| SimpleFs.SimpleFs.DoSymlink | examples/simple.rs:1536-1608 | the same for a link with its target as contents, EEXIST found only after the parent's times moved and a number was spent |
| SimpleFs.SimpleFs.InsertLink | examples/simple.rs:866-896 | enters a name and touches the parent, or refuses and changes nothing |
| SimpleFs.SimpleFs.DoCreate | examples/simple.rs:2375-2483 | a file is made, named and opened in one step, its handle carrying the access asked for |
| SimpleFs.SimpleFs.DoTmpfile | examples/simple.rs:2613-2703 | an inode without a name, held by the one handle replied |
| SimpleFs.SimpleFs.DoUnlink | examples/simple.rs:1406-1463 | record, collection and directory map change as one step that takes the name away, the inode collected exactly when nothing holds it |
| SimpleFs.SimpleFs.DoRmdir | examples/simple.rs:1465-1534 | the same for a directory, refused exactly when it holds a name |
| SimpleFs.SimpleFs.DoLink | examples/simple.rs:1902-1933 | the record written after the entry was inserted counts the new name and overwrites nothing newer; the step it takes is that of `RequestEffects.LinkEffect` and `RequestVerdicts.LinkVerdict` |
| SimpleFs.SimpleFs.DoRename | examples/simple.rs:1610-1900 | many passes over records and directory maps are one step, even within one directory; `RequestVerdicts.RenameSucceedsIff` and `RenameTheorems` say which |
| SimpleFs.SimpleFs.Exchange | examples/simple.rs:1734-1786 | the passes of an exchange are the exchange of the flat model |
| SimpleFs.SimpleFs.MoveEntry | examples/simple.rs:1835-1881 | the passes that move an entry, with or without a whiteout |
| SimpleFs.SimpleFs.RemoveTarget | examples/simple.rs:1817-1834 | the passes that take the replaced entry away and collect its inode |
| SimpleFs.SimpleFs.DoOpen | examples/simple.rs:1935-1996 | one more counted handle with a fresh number and the rights asked for, or the first refusal that applies |
| SimpleFs.SimpleFs.DoOpenDir | examples/simple.rs:2130-2166 | the same for a directory |
| SimpleFs.SimpleFs.DoRelease | examples/simple.rs:2114-2128 | one handle fewer, and with the last hold record and contents go |
| SimpleFs.SimpleFs.DoIoctl | examples/simple.rs:2539-2606 | reads or sets the inode flags in either encoding, refusing malformed input, unsupported flags and unknown commands; the record alone changes |
| SimpleFs.SimpleFs.DoTruncate | examples/simple.rs:813-856 | contents and stored size change together |
| SimpleFs.SimpleFs.DoWrite | examples/simple.rs:2044-2112 | the byte array takes the data at the offset and the size follows it, also for an empty write; the step is that of `FileHistory.WriteEffect` |
| SimpleFs.SimpleFs.DoCopyRange | examples/simple.rs:2787-2876 | the destination takes the bytes the source had before the copy, also within one inode and overlapping; a copy of nothing keeps the state sound exactly when it ends within the file |
| SimpleFs.SimpleFs.Read | examples/simple.rs:1998-2042 | replies with the matching slice of the byte array for files below 4 GiB, and in general with what the narrowed count leaves |
| SimpleFs.SimpleFs.DoReaddir | examples/simple.rs:2168-2204 | replies with the page of the directory's map at the offset and changes nothing |
| SimpleFs.ListingIsDirectory | examples/simple.rs:2168-2204 | what is listed is the directory's part of the name table, with `.` and `..` right |
| LittleEndian.GetPut | src/ll/fuse_abi.rs:734-751 | a number that fits its field is read back |
| LittleEndian.GetPutAll | src/ll/fuse_abi.rs:53-82 | a structure of such fields has the sum of their widths as length and is read back |
| Dirents.EntListBuf.Push | src/ll/reply.rs:471-486 | refuses exactly when the padded size exceeds what is left, changing nothing; the length stays a multiple of 8 within bounds |
| Dirents.DirEntList.Push | src/ll/reply.rs:531-540 | an accepted entry is the last one decoded; a refused one leaves the list as it was |
| Dirents.DecodeOne | src/ll/reply.rs:471-486 | from a record the reader steps to exactly what follows it |
| Dirents.DecodeEncode | src/ll/reply.rs:454-618 | walking a buffer by padded lengths recovers the pushed entries in order |
| Direntplus.PlusBack | src/ll/reply.rs:598-618 | every field of an entry with attributes is read back from its record, times before the epoch included, and the record's own number and type agree with them |
| Direntplus.PlusRoundTrip | src/ll/reply.rs:585-619 | a whole READDIRPLUS listing reads back with everything its entries carry |
| Direntplus.DirEntPlusList.Push | src/ll/reply.rs:598-618 | an accepted entry is the last one read, with all it carries; a refused one changes nothing |
| Readdir.FillPage | examples/simple.rs:2188-2203 | the loop fills a page with the rows from the offset on, up to the first that does not fit |
| Readdir.ReadFromIs | examples/simple.rs:2188-2203 | restarting at the last offset yields each row once, in order, up to a row larger than a page |
| Readdir.PageIsFull | examples/simple.rs:2168-2204 | a page takes as many rows as there is room for, and not one fewer |
| Readdir.TypeIsFormat | src/ll/reply.rs:311-324 | the type in a record is the file's format from its mode |
| Readdir.CompleteIff | examples/simple.rs:2188-2203 | the listing is complete exactly when a page has room for each entry |
| Readdir.ListsDirectory | examples/simple.rs:2168-2204 | an unchanged directory is listed with every name once, in key order, with its number and type |
| Readdir.ListingExists | examples/simple.rs:698-706 | every directory map has an ordered listing |
| RequestCodec.ArgumentIterator.Fetch | src/ll/argument.rs:38-54 | a fetch splits the input or consumes nothing; alignment is an obligation of its callers |
| RequestCodec.ArgumentIterator.FetchStr | src/ll/argument.rs:80-85 | a string up to its terminator, or nothing consumed when there is none |
| RequestCodec.ArgumentIterator.FetchAll | src/ll/argument.rs:31-35 | everything that is left |
| RequestCodec.LayoutAligned | src/ll/request.rs:1761-2035 | every structure of every opcode keeps the next one aligned and contains the length field its tail relies on |
| RequestLayouts.LayoutIsAbi | src/ll/fuse_abi.rs:123-181 | every operation is parsed by exactly its structures with all their fields, its names and what follows them (structures from line 247 to 864) |
| RequestLayouts.KnownIff | src/ll/fuse_abi.rs:123-181 | the parser knows the operations of the interface and no others |
| RequestLayouts.HeaderIsAbi | src/ll/fuse_abi.rs:734-743 | each field of a request's header is read from its place, and the arguments are what is behind it |
| RequestLayouts.ConstantsAreAbi | src/ll/request.rs:1892-1908 | an INIT may be cut down to its first four fields, a forget entry has 16 bytes |
| RequestCodec.ParseRequest | src/ll/request.rs:1761-2035 | the cursor-driven parser computes the parse function, with every typed fetch aligned |
| RequestCodec.ParseSerialize | src/ll/request.rs:1761-2035 | parsing a serialized operation under the same flags gives it back, for every opcode |
| RequestCodec.SerializeParse | src/ll/request.rs:1761-2035 | whatever parses is well-formed, and its pieces are the front of the input; an init is cut or zero-extended |
| RequestCodec.SetxattrLayouts | src/ll/request.rs:1848-1874 | both setxattr layouts parse to the same attribute under their own flag |
| RequestCodec.PacketBack | src/ll/request.rs:2376-2399 | a packet is split into its header and exactly its own arguments |
| RequestCodec.PacketCut | src/ll/request.rs:2376-2399 | a packet cut short anywhere is refused |
| RequestCodec.RequestRoundTrip | src/ll/request.rs:2337-2399 | header and operation come back through the whole request format |
| Framing.IterSlicesJoin | src/ll/ioslice_concat.rs:30-50 | nested payloads yield their bytes in order, however they are cut |
| Framing.SumLen | src/ll/ioslice_concat.rs:8-12 | the checked sum is the number of bytes, or the overflow stop |
| Framing.WithIoslice | src/ll/ioslice_concat.rs:14-26 | every arity passes on the same list of slices |
| Framing.FromI32 | src/ll/mod.rs:248-253 | whatever number a filesystem gives, the error is positive |
| Framing.ResponseIovec | src/ll/reply.rs:36-48 | the header leads, its length is 16 plus the bytes emitted, its error the negated errno; stops exactly when the length does not fit |
| Framing.ResponseIsRead | src/ll/reply.rs:36-48 | what a response is framed as reads back as its number, its errno and its bytes |
| Framing.NotificationIovec | src/ll/notify.rs:37-66 | the same under request number zero with the code in place of the error, or an error result when too long |
| Framing.ReadNoticeBack | src/ll/notify.rs:68-141 | every notification's fields, name and data are read back |
| ReplyLayouts.FrameIsAbi | src/ll/fuse_abi.rs:747-751 | length, error and number stand in their fields of the header of every message |
| ReplyLayouts.CodesAreAbi | src/ll/fuse_abi.rs:186-195 | each notification goes by its number |
| ReplyLayouts.NoticeIsAbi | src/ll/fuse_abi.rs:715-807 | each field of a notification stands in its place, with name or data behind them |
| ReplyLayouts.RecordIsAbi | src/ll/fuse_abi.rs:755-761 | each field of a directory record stands in its place, with the name behind them and padding to eight |
| Framing.ReadWrite | src/ll/reply.rs:36-48 | a message reads back exactly unless it is a reply to request number zero |
| Framing.StreamRoundTrip | src/ll/notify.rs:37-66 | a stream of replies and notifications decodes to what was sent |
| Dispatch.SilentIff | src/request.rs:96-161 | being handed over without a reply is for FORGET and BATCH_FORGET that parse, and nothing else |
| Dispatch.StopsIff | src/request.rs:475-492 | which requests stop the program without a reply: a mismatched WRITE, and an IOCTL that gets as far as its missing input |
| Dispatch.ShortIoctlStops | src/ll/request.rs:1455-1457 | a 32-byte IOCTL announcing one byte of input parses and stops the program |
| Dispatch.TurnedAwayIff | src/request.rs:102-128 | who gets EACCES, exactly: whoever is neither the owner nor, where root is let in, root, for any operation but the twelve of the kernel's own; nobody when everybody is allowed |
| Dispatch.OwnersAndCallers | src/request.rs:68-75 | on an idmapped mount no caller is reported, elsewhere the ids on the wire; what is created, and a whiteout, gets the owner on the wire |
| DispatchTheorems.DecisionOf | src/request.rs:96-632 | what becomes of any request, operation by operation and with the fields by name: which are refused with which error, told without a reply, stop the program or are handed out |
| DispatchTheorems.UnknownIsRefused | src/request.rs:100 | a number that is no operation's is refused with ENOSYS |
| DispatchTheorems.EndsIff | src/session.rs:570-607 | at which inputs a loop ends, and how |
| DispatchTheorems.SentFor | src/request.rs:87-94 | what is sent and handed out for any input, and that it is nothing else |
| Dispatch.ReplyRaw.SendLlMut | src/reply.rs:133-140 | sending empties the reply and writes one message under its own number |
| Dispatch.ReplyRaw.Drop | src/reply.rs:152-161 | an unsent reply that is given up answers EIO, a sent one nothing |
| Dispatch.Serve | src/request.rs:134-632 | decides as specified, and makes a reply object exactly when it hands one out: with an error or a panic none was ever made |
| Dispatch.DispatchReq | src/request.rs:96-632 | the same through parsing and access check; a request that is turned away reaches nothing and no reply object is made for it; otherwise the reply handed out is the only one made and carries the request's number |
| Dispatch.DispatchOne | src/request.rs:87-94 | a refused request is answered once and its reply object used up, others are not answered by the library |
| Dispatch.Step | src/session.rs:575-605 | one turn of the loop has exactly its specified effect, a destroy answered and final, a panic without a reply |
| Dispatch.EventLoop | src/session.rs:570-607 | a loop's end, its messages and the replies it handed out, for any sequence of reads; every other reply object made was used |
| Protocol.StepKeepsBalance | src/request.rs:87-632 | replies sent, lost, held and undecided are together what is owed, over every step of every thread |
| Protocol.ExactlyOnceIff | src/reply.rs:133-161 | at rest, every request the kernel waits at has its one reply if and only if no reply was too long to frame and no request stopped the program |
| Protocol.LongAnswerIsLost | src/ll/reply.rs:36-48 | a run at rest in which a 4 GiB answer was lost |
| Protocol.ShortIoctlIsUnanswered | src/ll/request.rs:1455-1457 | a run at rest in which an IOCTL stopped its thread |
| Protocol.AtMostOnce | src/reply.rs:104-161 | at any moment no request is answered twice, none the filesystem is only told about is answered, and none whose reply is out |
| Protocol.UnansweredIff | src/request.rs:87-161 | the requests without a reply are those the filesystem is only told about and those the program stops at |
| Protocol.SentBecause | src/reply.rs:104-161 | every message on the wire is an answer of the filesystem as it gave it, EIO for a reply given up, an answer of the library to a request, or a notification |
| Protocol.CanRest | src/reply.rs:133-161 | from anywhere a run can come to rest, with nothing more lost |
| Protocol.TurnIsReceiveAndHandle | src/session.rs:570-607 | receiving and handling are together one turn of the loop |
| Protocol.KernelReadsWhatWasSent | src/ll/reply.rs:36-48 | what all threads wrote reads back as the messages sent |
| Teardown.Mount.Umount | src/mnt/mod.rs:205-216 | the platform's unmount runs at most once per mount, and only on a live connection |
| Teardown.Mount.Drop | src/mnt/mod.rs:219-231 | the same on drop |
| Teardown.MountCell.Umount | src/session.rs:113-127 | the first of the sharers unmounts, later ones succeed without doing anything (also lines 547-555) |
| Teardown.ConnectionEnded | src/mnt/mod.rs:268-277 | true exactly when a look at the connection finds it ended in time, after boundedly many looks |
| Teardown.BackgroundSession.UmountAndJoin | src/session.rs:650-662 | joins unless the unmount failed, which detaches the thread |
| Teardown.BackgroundSession.Drop | src/session.rs:693-721 | joins only after the connection was seen to end |
| Teardown.StepKeepsValid | src/session.rs:244-362 | shares of the filesystem are the running loops and the runner, over every step |
| Teardown.TeardownIsSafe | src/session.rs:89-127 | over any interleaving: destroy at most once and only with nobody left to dispatch, the refcount check never fires, one unmount per mount |
| Teardown.DestroyedForGood | src/session.rs:89-104 | once destroyed, no loop enters the filesystem again |
| Teardown.UnmountedOnce | src/session.rs:107-127 | when everybody let go of a mount, it came up exactly once, and was unmounted exactly if the connection was live then |
| Teardown.CallsAreLive | src/mnt/mod.rs:205-231 | over any run the platform's unmount was called as often as a mount came up on a live connection, and left out as often as on a dead one |
| Teardown.WholeLife | src/session.rs:244-362 | for every number of loops a run in which all exit, the filesystem is destroyed and the mount unmounted |
| Teardown.DestroyedWhenEnded | src/session.rs:338-362 | a run that ended properly has destroyed the filesystem |
| Teardown.DestroyedWhenJoinedIff | src/session.rs:270-362 | every run has, once its thread can be joined, if and only if at most one event loop was asked for |
| Teardown.JoinedButNotDestroyed | src/session.rs:338-346 | for every larger number of loops a run in which it has not, the others still waiting |
| BackingCache.OneLiveId | examples/passthrough.rs:59-63 | at most one backing id is in use for an inode |
| BackingCache.UpgradesIffHeld | examples/passthrough.rs:82-91 | a remembered id upgrades exactly while a handle or an open in flight holds it, and is closed otherwise |
| BackingCache.BackingCache.GetOr | examples/passthrough.rs:75-95 | the live id or a new one, two more holders, a handle never used before; a failure only spends the number |
| BackingCache.BackingCache.Put | examples/passthrough.rs:98-105 | one holder fewer, the id closed exactly when it was the last; an unknown handle changes nothing |
| BackingCache.BackingCache.DropInFlight | src/passthrough.rs:93-101 | the same when an open lets go of its own reference |
| Negotiation.SettledIsSafe | src/lib.rs:129-181 | whatever is asked for in whatever order, nothing unsupported is agreed on, ids are withheld only where that is safe, and every setting stays in its range |
| Negotiation.KernelConfig.AddCapabilities | src/lib.rs:568-581 | the refused bits exactly, and nothing added unless there are none |
| Negotiation.KernelConfig.SetTimeGranularity | src/lib.rs:489-507 | accepts exactly the powers of ten from 1ns to 1s, else hands back the largest below, 1ns for zero, and that is the nearest exactly when stated |
| Negotiation.KernelConfig.SetMaxWrite | src/lib.rs:514-527 | accepts 4096 to 16 MiB, hands back the nearest otherwise, refusals change nothing |
| Negotiation.KernelConfig.SetMaxReadahead | src/lib.rs:534-544 | likewise up to the kernel's offer; the value handed back is accepted exactly when that is not zero |
| Negotiation.KernelConfig.SetMaxBackground | src/lib.rs:588-595 | zero is refused, with one handed back |
| Negotiation.KernelConfig.SetCongestionThreshold | src/lib.rs:603-619 | the threshold in force is never above the background limit |
| Negotiation.KernelConfig.SetMaxStackDepth | src/lib.rs:469-480 | at most two |
| Negotiation.NearestIsNearest | src/lib.rs:509-544 | the value handed back is accepted, and none accepted is nearer |
| Negotiation.HintIsNearestIff | src/lib.rs:482-507 | for every refused granularity, when the value handed back is the nearest one |
| Negotiation.NineNanoseconds | src/lib.rs:482-507 | a refused value for which it is not |
| Negotiation.NoReadahead | src/lib.rs:534-544 | a readahead can be accepted at all exactly when the kernel offers some |
| Negotiation.KernelConfig.Configure | src/lib.rs:469-619 | any call changes the configuration as specified for it, a refused one not at all |
| Negotiation.KernelConfig.Reply | src/ll/request.rs:1063-1097 | the init reply carries the settings in force, cut for old minor versions; `InitReply.SettingsTell` says which, field by field |
| InitReply.SettledIsLast | src/lib.rs:469-619 | after any calls every setting is what the last accepted call for it asked for, or its default |
| InitReply.AddedIff | src/lib.rs:446-581 | when a set of capabilities is accepted: offered, implemented, and ids withheld only where that is safe |
| InitReply.RequestedIff | src/lib.rs:111-135 | what is asked for in the end: the defaults and what each accepted call added |
| InitReply.ConnectedTells | src/ll/request.rs:1063-1097 | whatever the filesystem does during init, each field of the reply carries the setting as last accepted and within its range, the flags are those on both sides, and the announced write fits the read buffer |
| InitReply.ConnectsIff | src/session.rs:388-470 | which greetings connect, and what the others are answered with |
| InitReply.VersionsOnly | src/ll/request.rs:1101-1119 | a kernel of a later major version is told version 7.44 and nothing else |
| InitReply.LoopsGoByIt | src/session.rs:322-331 | the event loops go by the capabilities agreed on |
| Negotiation.Session.Handshake | src/session.rs:364-517 | who connects, every reply with its settings, and exactly the capabilities a connected session has agreed on; `InitReply.ConnectedTells` and `ConnectsIff` spell them out |
| Negotiation.NegotiatedAbiIff | src/notify.rs:175-182 | when the part-by-part lower version is the lower version; after a handshake always |
| Negotiation.MaskedNeverTurnedAway | src/request.rs:68-128 | after any calls of the filesystem, the access filter never refuses on a session whose requests carry no ids |
| Negotiation.HeardIff | src/ll/request.rs:1063-1097 | when the kernel hears the very capabilities the session parses by |
| Negotiation.CutReply | src/ll/request.rs:1089-1095 | a greeting of 7.22 after which it does not |
| Negotiation.AnyWriteFits | src/read_buf.rs:8-38 | wherever the buffer lies, reads are aligned and the largest write fits |
| Negotiation.PagesCoverIff | src/lib.rs:620-622 | when the narrowed page count covers the largest transfer |
| Negotiation.PagesWrap | src/lib.rs:620-622 | a readahead of 256 MiB overflows it, one page more is announced as a single page |
| MountOptions.EscapeOptionValue | src/mnt/mount_options.rs:236-245 | the loop computes the escaped value |
| MountOptions.CheckOptionValues | src/mnt/mount_options.rs:141-173 | passes exactly the lists without a forbidden character |
| MountOptions.CheckOptionConflicts | src/mnt/mount_options.rs:116-133 | passes exactly the lists without two options whose words contradict each other |
| MountOptions.OppositeIff | src/mnt/mount_options.rs:175-196 | an option's opposite is the one whose word contradicts its own |
| MountOptions.ValueAllowedIff | src/mnt/mount_options.rs:141-173 | which characters are allowed in which values |
| MountOptions.FromToString | src/mnt/mount_options.rs:82-105 | an option is recognized in its own spelling unless it is a custom one that spells another |
| MountOptions.ReadEscaped | src/mnt/mount_options.rs:236-245 | an escaped value is read back whole, whatever follows |
| MountOptions.OptionsSurvive | src/mnt/fuse_pure.rs:261-266 | a list that passed the check is read as exactly its options, so no value brings in another |
| Time.PointOfTime | src/time.rs:42-54 | a stamp stands for the point it counts to |
| Time.TimeIsClamped | src/time.rs:12-35 | on all times conversion is the clamp to the representable range, without overflow on the way |
| Time.RoundTrip | src/time.rs:12-54 | the conversions are inverse on all well-formed stamps |
| Time.RoundTripBack | src/time.rs:12-54 | and on a time exactly when it is representable |
| Time.OrderIsKept | src/time.rs:12-35 | earlier times never get later stamps |

## Left out

- SimpleFs: access times (`relatime`), mode, owner and set-id bits, and so `chmod`, `chown` and `utimens`, which change nothing else; `setattr` is modelled as the truncate it contains.
- SimpleFs: permission checks, capabilities and groups are booleans of each request; the clock is read once per request; extended attributes, `fallocate`, `statfs` and `statx` are left to the host.
- SimpleFs: storage as MessagePack files is a pair of maps that always succeed; a request is one atomic step, as the example takes no lock; link and handle counts are unbounded where the program has 32 and 64 bits.
- Namespace.Allowed: leaves out of whole runs what the kernel does not send — a directory as mknod's or create's kind, a mode without a recognized type (which mknod answers with EPERM), a rename between two links of one inode, a move below itself, an empty write, an empty copy, a release of a handle that is not open; the empty write and copy are served and described by themselves.
- SimpleFs.SimpleFs.DoCopyRange: takes the end of the copy to be below 2^64, which the destinations let through by the dispatcher and the lengths of files on a host cannot reach.
- SimpleFs.SimpleFs.DoIoctl: input and output are their length and the bits of their leading 32-bit word, the only part that is looked at.
- SimpleFs.SimpleFs.DoReaddir: the order in which the program iterates over a directory map is given as the ordered listing, whose existence is proved.
- Readdir.ListsDirectory: is about a directory that does not change between pages.
- RequestCodec.ParseRequest: the Linux layouts only; structures are byte strings of the right size, of which the model reads the fields it needs.
- Framing.SumLen: sums that overflow a 64-bit length stop the program, as with overflow checks; so does the page count in `Negotiation.MaxPages`.
- Framing.ReadAll: the kernel's side of the stream is modelled from the protocol's definition.
- Numbers on the wire are little-endian; a machine with the other byte order is not modelled.
- Dispatch.DispatchReq: the arguments handed to the filesystem besides reply, caller and owner; a failed write to the device, which the program only logs, counts as sent.
- Protocol.ExactlyOnceIff: a reply object that is leaked on purpose stays outstanding forever.
- Teardown: unmount commands, `poll` and sleeping are parameters; mounting itself is not modelled.
- Negotiation.Session.Handshake: the errors it returns beside its replies are one outcome, and the bytes of the init reply are its fields.
- MountOptions.Read: libfuse's reader is modelled from its documented behaviour, on characters.
- Formatting, logging, the async adapter, the other examples and the macOS and BSD variants.
