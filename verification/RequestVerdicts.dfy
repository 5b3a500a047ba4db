/** When a request succeeds, and which error it meets otherwise — in terms of the state and the
    request, whatever order the checks are made in. */
module RequestVerdicts {
  import opened DirTree
  import opened FileContents
  import opened Handles
  import opened Namespace
  import InodeFlags

  /** Nothing may be entered into it or changed about it. */
  predicate Frozen(s: Fs, i: Ino)
    requires i in s.inodes
  {
    InodeFlags.IMMUTABLE in s.inodes[i].flags
  }

  /** Nor may anything be taken out of it, or a name away from it. */
  predicate Fixed(s: Fs, i: Ino)
    requires i in s.inodes
  {
    InodeFlags.IMMUTABLE in s.inodes[i].flags || InodeFlags.APPEND in s.inodes[i].flags
  }

  predicate IsDirectory(s: Fs, i: Ino) { i in s.inodes && s.inodes[i].kind == Directory }

  predicate HasChild(s: Fs, d: Ino) { exists k :: k in s.names && k.dir == d }

  predicate Has(s: Fs, at: Slot) { at in s.names && s.names[at].ino in s.inodes }

  // ----- Requests that add a name -----

  predicate MayAdd(s: Fs, dir: Ino, may: bool) { dir in s.inodes && !Frozen(s, dir) && may }

  /** The verdict on a new name: it is entered if and only if its place is free and its directory
      is there, not immutable, and permits it. */
  predicate NewNameVerdict(s: Fs, at: Slot, may: bool, reply: Reply) {
    && (!reply.Error? <==> !Has(s, at) && MayAdd(s, at.dir, may))
    && (reply == Error(EEXIST) <==> Has(s, at))
    && (reply == Error(ENOENT) <==> !Has(s, at) && at.dir !in s.inodes)
    && (reply == Error(EPERM) <==> !Has(s, at) && at.dir in s.inodes && Frozen(s, at.dir))
    && (reply == Error(EACCES) <==> !Has(s, at) && at.dir in s.inodes && !Frozen(s, at.dir) && !may)
  }

  lemma MknodVerdict(s: Fs, at: Slot, kind: Kind, may: bool, now: Time)
    ensures NewNameVerdict(s, at, may, DoMknod(s, at, kind, may, now).reply)
  {
  }

  lemma MkdirVerdict(s: Fs, at: Slot, may: bool, now: Time)
    ensures NewNameVerdict(s, at, may, DoMkdir(s, at, may, now).reply)
  {
  }

  /** A symbolic link meets a taken name last. */
  lemma SymlinkVerdict(s: Fs, at: Slot, target: seq<byte>, may: bool, now: Time)
    ensures var reply := DoSymlink(s, at, target, may, now).reply;
            && (!reply.Error? <==> MayAdd(s, at.dir, may) && !Has(s, at))
            && (reply == Error(EEXIST) <==> MayAdd(s, at.dir, may) && Has(s, at))
            && (reply == Error(ENOENT) <==> at.dir !in s.inodes)
            && (reply == Error(EPERM) <==> at.dir in s.inodes && Frozen(s, at.dir))
            && (reply == Error(EACCES) <==> at.dir in s.inodes && !Frozen(s, at.dir) && !may)
  {
  }

  lemma CreateVerdict(s: Fs, at: Slot, mode: AccMode, may: bool, now: Time)
    ensures var reply := DoCreate(s, at, mode, may, now).reply;
            if mode.Malformed? then reply == Error(if Has(s, at) then EEXIST else EINVAL)
            else NewNameVerdict(s, at, may, reply)
  {
  }

  /** An unnamed file has to be opened for writing. */
  lemma TmpfileVerdict(s: Fs, dir: Ino, mode: AccMode, may: bool, now: Time)
    ensures var reply := DoTmpfile(s, dir, mode, may, now).reply;
            && (!reply.Error? <==> mode in {WriteOnly, ReadWrite} && IsDirectory(s, dir) && MayAdd(s, dir, may))
            && (reply == Error(EINVAL) <==> mode !in {WriteOnly, ReadWrite})
            && (mode in {WriteOnly, ReadWrite} ==>
                  && (reply == Error(ENOENT) <==> dir !in s.inodes)
                  && (reply == Error(ENOTDIR) <==> dir in s.inodes && !IsDirectory(s, dir))
                  && (reply == Error(EPERM) <==> IsDirectory(s, dir) && Frozen(s, dir))
                  && (reply == Error(EACCES) <==> IsDirectory(s, dir) && !Frozen(s, dir) && !may))
  {
  }

  lemma LinkVerdict(s: Fs, ino: Ino, at: Slot, may: bool, now: Time)
    ensures var reply := DoLink(s, ino, at, may, now).reply;
            && (ino !in s.inodes ==> reply == Error(ENOENT))
            && (ino in s.inodes && Fixed(s, ino) ==> reply == Error(EPERM))
            && (ino in s.inodes && !Fixed(s, ino) ==> NewNameVerdict(s, at, may, reply))
  {
  }

  // ----- Requests that take names away or move them -----

  predicate MayRemove(s: Fs, at: Slot)
    requires Has(s, at)
  {
    at.dir in s.inodes && !Fixed(s, at.dir) && !Fixed(s, s.names[at].ino)
  }

  lemma UnlinkVerdict(s: Fs, at: Slot, may: bool, sticky: bool, now: Time)
    ensures var reply := DoUnlink(s, at, may, sticky, now).reply;
            && (reply == Done <==> Has(s, at) && MayRemove(s, at) && may && sticky)
            && (reply == Error(ENOENT) <==> !Has(s, at) || at.dir !in s.inodes)
            && (reply == Error(EPERM) <==> Has(s, at) && at.dir in s.inodes && !MayRemove(s, at))
            && (reply == Error(EACCES) <==> Has(s, at) && MayRemove(s, at) && !(may && sticky))
  {
  }

  lemma RmdirVerdict(s: Fs, at: Slot, may: bool, sticky: bool, now: Time)
    ensures var reply := DoRmdir(s, at, may, sticky, now).reply;
            && (reply == Done <==> Has(s, at) && MayRemove(s, at) && !HasChild(s, s.names[at].ino) && may && sticky)
            && (reply == Error(ENOENT) <==> !Has(s, at) || at.dir !in s.inodes)
            && (reply == Error(EPERM) <==> Has(s, at) && at.dir in s.inodes && !MayRemove(s, at))
            && (reply == Error(ENOTEMPTY) <==> Has(s, at) && MayRemove(s, at) && HasChild(s, s.names[at].ino))
            && (reply == Error(EACCES)
                <==> Has(s, at) && MayRemove(s, at) && !HasChild(s, s.names[at].ino) && !(may && sticky))
  {
  }

  /** Both ends of a rename are there, as far as they have to be. */
  predicate Ends(s: Fs, src: Slot, dst: Slot) { Has(s, src) && src.dir in s.inodes && dst.dir in s.inodes }

  /** Its permission checks pass. */
  predicate MayRename(s: Fs, dst: Slot, c: RenameChecks) {
    c.srcDir && c.srcSticky && c.dstDir && (Has(s, dst) ==> c.dstSticky)
  }

  /** Every inode it touches allows its side of it. */
  predicate Movable(s: Fs, src: Slot, dst: Slot)
    requires Ends(s, src, dst)
  {
    && !Fixed(s, src.dir) && !Fixed(s, s.names[src].ino) && !Frozen(s, dst.dir)
    && (Has(s, dst) ==> !Fixed(s, s.names[dst].ino))
  }

  predicate Contradictory(flags: RenameFlags) { flags.exchange && (flags.noReplace || flags.whiteout) }

  predicate Occupied(s: Fs, dst: Slot) {
    Has(s, dst) && IsDirectory(s, s.names[dst].ino) && HasChild(s, s.names[dst].ino)
  }

  /** The `..` of what moves has to change, and may not. */
  predicate StuckDirectory(s: Fs, src: Slot, dst: Slot, c: RenameChecks)
    requires Ends(s, src, dst)
  {
    IsDirectory(s, s.names[src].ino) && src.dir != dst.dir && !c.movedDir
  }

  /** A rename is past the checks that all its forms make. */
  predicate Underway(s: Fs, src: Slot, dst: Slot, flags: RenameFlags, c: RenameChecks) {
    Ends(s, src, dst) && MayRename(s, dst, c) && Movable(s, src, dst) && !Contradictory(flags)
  }

  /** A rename succeeds if and only if it is past those checks, and then: an exchange has a
      target; any other form has none it must not replace, none with anything in it, nothing
      to move that is stuck, and an owner for a whiteout. */
  lemma RenameSucceedsIff(s: Fs, src: Slot, dst: Slot, flags: RenameFlags, hasOwner: bool, c: RenameChecks, now: Time)
    ensures DoRename(s, src, dst, flags, hasOwner, c, now).reply == Done
            <==> && Underway(s, src, dst, flags, c)
                 && if flags.exchange then Has(s, dst)
                    else && !(flags.noReplace && Has(s, dst)) && !Occupied(s, dst)
                         && !StuckDirectory(s, src, dst, c) && (flags.whiteout ==> hasOwner)
  {
  }

  /** And which error it meets otherwise. */
  lemma RenameErrors(s: Fs, src: Slot, dst: Slot, flags: RenameFlags, hasOwner: bool, c: RenameChecks, now: Time)
    ensures var reply := DoRename(s, src, dst, flags, hasOwner, c, now).reply;
            var under := Underway(s, src, dst, flags, c) && !flags.exchange;
            var kept := flags.noReplace && Has(s, dst);
            && (reply == Error(EINVAL)
                <==> Ends(s, src, dst) && MayRename(s, dst, c) && Movable(s, src, dst) && Contradictory(flags))
            && (reply == Error(EPERM) <==> Ends(s, src, dst) && MayRename(s, dst, c) && !Movable(s, src, dst))
            && (reply == Error(EEXIST) <==> under && kept)
            && (reply == Error(ENOTEMPTY) <==> under && !kept && Occupied(s, dst))
            && (reply == Error(EIO)
                <==> under && !kept && !Occupied(s, dst) && !StuckDirectory(s, src, dst, c) && flags.whiteout && !hasOwner)
            && (reply == Error(ENOENT)
                <==> || !Has(s, src) || src.dir !in s.inodes
                     || (c.srcDir && c.srcSticky && dst.dir !in s.inodes)
                     || (Underway(s, src, dst, flags, c) && flags.exchange && !Has(s, dst)))
            && (reply == Error(EACCES)
                <==> || (Has(s, src) && src.dir in s.inodes && !(c.srcDir && c.srcSticky))
                     || (Ends(s, src, dst) && !MayRename(s, dst, c))
                     || (under && !kept && !Occupied(s, dst) && StuckDirectory(s, src, dst, c)))
  {
  }

  // ----- Handles and contents -----

  /** What an open asks for: the impossible combination of access bits is read as read-only. */
  predicate AsksToWrite(asked: AccMode) { asked in {WriteOnly, ReadWrite} }

  predicate AsksToRead(asked: AccMode) { asked != WriteOnly }

  /** An immutable file is not opened for writing, and an append-only one only to append. */
  predicate Barred(s: Fs, ino: Ino, asked: AccMode, append: bool, trunc: bool)
    requires ino in s.inodes
  {
    || (AsksToWrite(asked) && Frozen(s, ino))
    || (InodeFlags.APPEND in s.inodes[ino].flags && (trunc || (AsksToWrite(asked) && !append)))
  }

  lemma OpenVerdict(s: Fs, ino: Ino, asked: AccMode, append: bool, trunc: bool, may: bool)
    ensures var reply := DoOpen(s, ino, asked, append, trunc, may).reply;
            var odd := trunc && !AsksToWrite(asked);
            var barred := ino in s.inodes && Barred(s, ino, asked, append, trunc);
            && (reply.Opened? <==> !odd && ino in s.inodes && !barred && may)
            && (reply == Error(ENOENT) <==> !odd && ino !in s.inodes)
            && (reply == Error(EPERM) <==> !odd && barred)
            && (reply == Error(EACCES) <==> odd || (ino in s.inodes && !barred && !may))
  {
  }

  lemma OpenDirVerdict(s: Fs, ino: Ino, asked: AccMode, trunc: bool, may: bool)
    ensures var reply := DoOpenDir(s, ino, asked, trunc, may).reply;
            var odd := trunc && !AsksToWrite(asked);
            && (reply.Opened? <==> !odd && ino in s.inodes && may)
            && (reply == Error(ENOENT) <==> !odd && ino !in s.inodes)
            && (reply == Error(EACCES) <==> odd || (ino in s.inodes && !may))
  {
  }

  /** Setting flags takes a word of the command's own size with none but supported flags. */
  lemma IoctlVerdict(s: Fs, ino: Ino, cmd: nat, input: IoctlData, now: Time)
    ensures var reply := DoIoctl(s, ino, cmd, input, now).reply;
            var gets := cmd == FS_IOC_GETFLAGS || cmd == FS_IOC_FSGETXATTR;
            var sets := cmd == FS_IOC_SETFLAGS || cmd == FS_IOC_FSSETXATTR;
            var sized := input.size == if cmd == FS_IOC_SETFLAGS then 4 else 28;
            var known := input.word <= if cmd == FS_IOC_SETFLAGS then {0, 1, 3, 4, 5, 6, 7, 16, 17} else {3, 4, 5, 6, 7};
            && (reply.Word? <==> ino in s.inodes && (gets || (sets && sized && known)))
            && (reply == Error(ENOENT) <==> ino !in s.inodes)
            && (reply == Error(ENOTTY) <==> ino in s.inodes && !gets && !sets)
            && (reply == Error(EINVAL) <==> ino in s.inodes && sets && !sized)
            && (reply == Error(EOPNOTSUPP) <==> ino in s.inodes && sets && sized && !known)
  {
  }

  /** A file is cut to at most a tebibyte, through a handle that may write or with permission. */
  lemma TruncateVerdict(s: Fs, ino: Ino, length: nat, via: Via, may: bool, now: Time)
    requires ino in s.inodes ==> ino in s.bytes
    ensures var reply := DoTruncate(s, ino, length, via, may, now).reply;
            var tooLong := length > 0x100_0000_0000;
            var barred := via.Handle? && !CanWrite(via.fh);
            && (reply == Done <==> ino in s.inodes && !Fixed(s, ino) && !barred && !tooLong && (via.Path? ==> may))
            && (reply == Error(ENOENT) <==> ino !in s.inodes)
            && (reply == Error(EPERM) <==> ino in s.inodes && Fixed(s, ino))
            && (reply == Error(EFBIG) <==> ino in s.inodes && !Fixed(s, ino) && !barred && tooLong)
            && (reply == Error(EACCES)
                <==> ino in s.inodes && !Fixed(s, ino) && (barred || (!tooLong && via.Path? && !may)))
  {
  }

  lemma WriteVerdict(s: Fs, ino: Ino, fh: nat, offset: nat, data: seq<byte>, now: Time)
    ensures var reply := DoWrite(s, ino, fh, offset, data, now).reply;
            var there := ino in s.inodes && ino in s.bytes;
            var tooFar := offset + |data| > 0xFFFF_FFFF_FFFF_FFFF;
            && (reply.Written? <==> CanWrite(fh) && there && !tooFar)
            && (reply == Error(EACCES) <==> !CanWrite(fh))
            && (reply == Error(EBADF) <==> CanWrite(fh) && !there)
            && (reply == Error(EFBIG) <==> CanWrite(fh) && there && tooFar)
  {
  }

  lemma CopyVerdict(s: Fs, ino: Ino, fh: nat, offset: nat, dstIno: Ino, dstFh: nat, dstOffset: nat, length: nat,
                    now: Time)
    ensures var reply := DoCopyRange(s, ino, fh, offset, dstIno, dstFh, dstOffset, length, now).reply;
            var may := CanRead(fh) && CanWrite(dstFh);
            var open := dstIno in s.inodes && !Frozen(s, dstIno);
            && (reply.Written? <==> may && open && ino in s.bytes && dstIno in s.bytes)
            && (reply == Error(EACCES) <==> !may)
            && (reply == Error(EPERM) <==> may && dstIno in s.inodes && Frozen(s, dstIno))
            && (reply == Error(ENOENT) <==> may && (dstIno !in s.inodes || (open && ino !in s.bytes)))
            && (reply == Error(EBADF) <==> may && open && ino in s.bytes && dstIno !in s.bytes)
  {
  }

  // ----- What a refusal leaves behind -----

  /** A request that is refused changes nothing at all, but for two errors found late: a
      symbolic link whose name is taken, and a whiteout without an owner. */
  lemma RefusedChangesNothing(s: Fs, r: Request)
    requires r.Truncate? && r.ino in s.inodes ==> r.ino in s.bytes
    requires Apply(s, r).reply.Error?
    requires !(r.SymlinkAt? && Apply(s, r).reply == Error(EEXIST))
    requires !(r.Rename? && Apply(s, r).reply == Error(EIO))
    ensures Apply(s, r).fs == s
  {
  }

  /** The link's failure costs a number and moves the times of the directory. */
  lemma TakenSymlink(s: Fs, at: Slot, target: seq<byte>, may: bool, now: Time)
    requires DoSymlink(s, at, target, may, now).reply == Error(EEXIST)
    ensures at.dir in s.inodes
    ensures DoSymlink(s, at, target, may, now).fs
            == s.(lastIno := s.lastIno + 1, inodes := s.inodes[at.dir := s.inodes[at.dir].(mtime := now, ctime := now)])
  {
  }
}
