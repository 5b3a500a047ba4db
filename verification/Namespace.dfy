/** The file system as one value: a flat table of names, and each request as one step on it.
    The class SimpleFs, which keeps nested stores and updates them in several passes, is
    proved to take exactly these steps. */
module Namespace {
  import opened DirTree
  import opened FileContents
  import opened Handles
  import InodeFlags

  type Name = seq<byte>
  type Time = int

  const DOT: Name := [46]
  const DOTDOT: Name := [46, 46]
  const BLOCK_SIZE: nat := 512
  const MAX_FILE_SIZE: nat := 1024 * 1024 * 1024 * 1024

  datatype Kind = File | Directory | Symlink | CharDevice | BlockDevice | NamedPipe | Socket

  datatype Entry = Entry(ino: Ino, kind: Kind)

  /** A place a name can stand: a directory and the name in it. */
  datatype Slot = Slot(dir: Ino, name: Name)

  datatype Inode = Inode(
    ino: Ino, kind: Kind, hardlinks: nat, handles: nat, size: nat,
    mtime: Time, ctime: Time, flags: set<nat>)
  {
    predicate Immutable() { InodeFlags.IMMUTABLE in flags }
    predicate AppendOnly() { InodeFlags.APPEND in flags }
    predicate Removable() { !Immutable() && !AppendOnly() }
  }

  /** `names` has the ordinary entries of all directories, `dotdot` the parent of every
      directory but the root, `bytes` the contents of everything else. `open` has the
      handles the kernel holds; the program itself keeps only the counts. */
  datatype Fs = Fs(
    inodes: map<Ino, Inode>,
    names: map<Slot, Entry>,
    dotdot: map<Ino, Ino>,
    bytes: map<Ino, seq<byte>>,
    lastIno: Ino,
    nextFh: nat,
    open: map<nat, Ino>)

  predicate Ordinary(name: Name) { name != DOT && name != DOTDOT }

  // ----- What holds in every reachable state -----

  ghost function LinksTo(names: map<Slot, Entry>, i: Ino): set<Slot> {
    set k | k in names && names[k].ino == i
  }

  ghost function LinkCount(names: map<Slot, Entry>, i: Ino): nat { |LinksTo(names, i)| }

  ghost function HandlesOf(open: map<nat, Ino>, i: Ino): set<nat> {
    set fh | fh in open && open[fh] == i
  }

  ghost function HandleCount(open: map<nat, Ino>, i: Ino): nat { |HandlesOf(open, i)| }

  predicate LinkedDir(s: Fs, d: Ino) {
    d in s.inodes && s.inodes[d].kind == Directory && s.inodes[d].hardlinks == 2
  }

  /** Records and contents exist together, for exactly the inodes something still holds. */
  ghost predicate Collected(s: Fs) {
    && LinkedDir(s, ROOT)
    && (forall i | i in s.inodes ::
          && 1 <= i <= s.lastIno && s.inodes[i].ino == i
          && (s.inodes[i].hardlinks > 0 || s.inodes[i].handles > 0))
    && (forall i :: i in s.bytes <==> i in s.inodes && s.inodes[i].kind != Directory)
    && (forall i :: i in s.dotdot <==> i in s.inodes && s.inodes[i].kind == Directory && i != ROOT)
  }

  ghost predicate SizesRight(s: Fs) {
    forall i | i in s.inodes && i in s.bytes :: s.inodes[i].size == |s.bytes[i]|
  }

  /** The stored count of every inode is opens minus releases. */
  ghost predicate HandlesRight(s: Fs) {
    && (forall fh | fh in s.open :: s.open[fh] in s.inodes && Number(fh) < s.nextFh)
    && (forall i {:trigger HandleCount(s.open, i)} | i in s.inodes :: s.inodes[i].handles == HandleCount(s.open, i))
  }

  /** No entry dangles, kinds agree, and `..` of a directory names the one holding it. */
  ghost predicate NamesRight(s: Fs) {
    forall k | k in s.names ::
      && Ordinary(k.name) && LinkedDir(s, k.dir)
      && s.names[k].ino in s.inodes && s.inodes[s.names[k].ino].kind == s.names[k].kind
      && (s.names[k].kind == Directory ==>
            s.names[k].ino in s.dotdot && s.dotdot[s.names[k].ino] == k.dir)
  }

  /** Link counts are numbers of names; a directory has its one name or has been removed. */
  ghost predicate LinksRight(s: Fs) {
    forall i {:trigger LinkCount(s.names, i)} | i in s.inodes && i != ROOT ::
      if s.inodes[i].kind != Directory then s.inodes[i].hardlinks == LinkCount(s.names, i)
      else (s.inodes[i].hardlinks == 2 && LinkCount(s.names, i) == 1)
           || (s.inodes[i].hardlinks == 0 && LinkCount(s.names, i) == 0)
  }

  ghost predicate IsTree(s: Fs) {
    forall d | LinkedDir(s, d) :: ReachesRoot(s.dotdot, d)
  }

  ghost predicate Valid(s: Fs) {
    Collected(s) && SizesRight(s) && HandlesRight(s) && NamesRight(s) && LinksRight(s) && IsTree(s)
  }

  /** What `init` writes into an empty store. */
  function Init(now: Time): Fs {
    Fs(map[ROOT := Inode(ROOT, Directory, 2, 0, 0, now, now, {})],
       map[], map[], map[], ROOT, 1, map[])
  }

  // ----- The updates requests are made of -----

  /** `lookup_name` succeeds: the name is there and its inode can be read. */
  predicate Found(s: Fs, slot: Slot) { slot in s.names && s.names[slot].ino in s.inodes }

  function Modified(a: Inode, now: Time): Inode { a.(mtime := now, ctime := now) }

  function TouchIn(inodes: map<Ino, Inode>, i: Ino, now: Time): map<Ino, Inode> {
    if i in inodes then inodes[i := Modified(inodes[i], now)] else inodes
  }

  function StampIn(inodes: map<Ino, Inode>, i: Ino, now: Time): map<Ino, Inode> {
    if i in inodes then inodes[i := inodes[i].(ctime := now)] else inodes
  }

  function Touch(s: Fs, i: Ino, now: Time): Fs { s.(inodes := TouchIn(s.inodes, i, now)) }

  function Stamp(s: Fs, i: Ino, now: Time): Fs { s.(inodes := StampIn(s.inodes, i, now)) }

  /** `gc_inode` */
  function Collect(s: Fs, i: Ino): Fs {
    if i in s.inodes && s.inodes[i].hardlinks == 0 && s.inodes[i].handles == 0
    then s.(inodes := s.inodes - {i}, bytes := s.bytes - {i}, dotdot := s.dotdot - {i})
    else s
  }

  /** The record of a name's inode once that name is gone. */
  function Unlinked(a: Inode, now: Time): Inode {
    a.(hardlinks := if a.kind == Directory then 0 else SaturatingSub(a.hardlinks, 1), ctime := now)
  }

  function Unname(s: Fs, slot: Slot, now: Time): Fs
    requires Found(s, slot)
  {
    var t := s.names[slot].ino;
    Collect(s.(inodes := s.inodes[t := Unlinked(s.inodes[t], now)], names := s.names - {slot}), t)
  }

  function NewInode(s: Fs, kind: Kind, hardlinks: nat, handles: nat, size: nat, now: Time): Inode {
    Inode(s.lastIno + 1, kind, hardlinks, handles, size, now, now, {})
  }

  /** A new inode of any kind but directory, under a name. */
  function AddFile(s: Fs, slot: Slot, kind: Kind, data: seq<byte>, now: Time): Fs {
    var i := s.lastIno + 1;
    s.(inodes := s.inodes[i := NewInode(s, kind, 1, 0, |data|, now)],
       bytes := s.bytes[i := data],
       names := s.names[slot := Entry(i, kind)],
       lastIno := i)
  }

  function AddDirectory(s: Fs, slot: Slot, now: Time): Fs {
    var i := s.lastIno + 1;
    s.(inodes := s.inodes[i := NewInode(s, Directory, 2, 0, BLOCK_SIZE, now)],
       dotdot := s.dotdot[i := slot.dir],
       names := s.names[slot := Entry(i, Directory)],
       lastIno := i)
  }

  /** An unnamed regular file; until it is linked only a handle can hold it. */
  function AddAnonymous(s: Fs, now: Time): Fs {
    var i := s.lastIno + 1;
    s.(inodes := s.inodes[i := NewInode(s, File, 0, 0, 0, now)],
       bytes := s.bytes[i := []],
       lastIno := i)
  }

  /** One more handle on an inode; the handle number is used up. */
  function AddHandle(s: Fs, i: Ino, mode: AccMode): Fs
    requires i in s.inodes
  {
    s.(inodes := s.inodes[i := s.inodes[i].(handles := s.inodes[i].handles + 1)],
       nextFh := s.nextFh + 1,
       open := s.open[FhFor(s.nextFh, mode) := i])
  }

  /** `close_handle` */
  function DropHandle(s: Fs, i: Ino, fh: nat): Fs
    requires i in s.inodes
  {
    Collect(s.(inodes := s.inodes[i := s.inodes[i].(handles := SaturatingSub(s.inodes[i].handles, 1))],
               open := s.open - {fh}), i)
  }

  function AddName(s: Fs, slot: Slot, i: Ino, now: Time): Fs
    requires i in s.inodes
  {
    var a := s.inodes[i];
    s.(inodes := s.inodes[i := a.(hardlinks := a.hardlinks + 1, ctime := now)],
       names := s.names[slot := Entry(i, a.kind)])
  }

  /** Hang a directory below another one; other inodes have no `..`. */
  function SetDotDot(dotdot: map<Ino, Ino>, e: Entry, dir: Ino): map<Ino, Ino> {
    if e.kind == Directory then dotdot[e.ino := dir] else dotdot
  }

  function MoveName(s: Fs, e: Entry, src: Slot, dst: Slot): Fs {
    s.(names := (s.names - {src})[dst := e], dotdot := SetDotDot(s.dotdot, e, dst.dir))
  }

  function SwapNames(s: Fs, e: Entry, f: Entry, src: Slot, dst: Slot): Fs {
    s.(names := s.names[dst := e][src := f],
       dotdot := SetDotDot(SetDotDot(s.dotdot, e, dst.dir), f, src.dir))
  }

  function SetContents(s: Fs, i: Ino, data: seq<byte>, size: nat, now: Time): Fs
    requires i in s.inodes
  {
    s.(inodes := s.inodes[i := Modified(s.inodes[i], now).(size := size)], bytes := s.bytes[i := data])
  }

  // ----- Requests -----

  datatype Errno = ENOENT | EACCES | EPERM | EEXIST | ENOTEMPTY | EINVAL | EIO | ENOTDIR | EFBIG | EBADF | EOPNOTSUPP | ENOTTY

  datatype Reply =
    | Done
    | Made(ino: Ino)
    | Opened(fh: nat)
    | Created(newIno: Ino, newFh: nat)
    | Written(count: nat)
    | Word(bits: set<nat>, size: nat)
    | Error(errno: Errno)

  datatype AccMode = ReadOnly | WriteOnly | ReadWrite | Malformed {
    predicate Reads() { ReadOnly? || ReadWrite? }
    predicate Writes() { WriteOnly? || ReadWrite? }

    /** `open` reads the impossible combination of access bits as read-only. */
    function OrReadOnly(): AccMode { if Malformed? then ReadOnly else this }
  }

  datatype RenameFlags = RenameFlags(exchange: bool, noReplace: bool, whiteout: bool)

  /** How the permission and sticky-bit checks of one rename come out. The last one of the
      destination is only made when the destination exists. */
  datatype RenameChecks = RenameChecks(
    srcDir: bool, srcSticky: bool, dstDir: bool, dstSticky: bool, movedDir: bool)

  datatype Via = Path | Handle(fh: nat)

  const FS_IOC_GETFLAGS: nat := 0x8008_6601
  const FS_IOC_SETFLAGS: nat := 0x4008_6602
  const FS_IOC_FSGETXATTR: nat := 0x801C_581F
  const FS_IOC_FSSETXATTR: nat := 0x401C_5820
  const FSXATTR_SIZE: nat := 28

  /** What comes with an ioctl: its length, and the bits of its leading 32-bit word, if it is
      long enough to have one. */
  datatype IoctlData = IoctlData(size: nat, word: set<nat>)

  /** A request with the results of its permission checks and the time it is served at. */
  datatype Request =
    | Mknod(at: Slot, kind: Kind, may: bool, now: Time)
    | Mkdir(at: Slot, may: bool, now: Time)
    | SymlinkAt(at: Slot, target: seq<byte>, may: bool, now: Time)
    | Create(at: Slot, mode: AccMode, may: bool, now: Time)
    | Tmpfile(dir: Ino, mode: AccMode, may: bool, now: Time)
    | Unlink(at: Slot, may: bool, sticky: bool, now: Time)
    | Rmdir(at: Slot, may: bool, sticky: bool, now: Time)
    | Link(ino: Ino, at: Slot, may: bool, now: Time)
    | Rename(src: Slot, dst: Slot, flags: RenameFlags, hasOwner: bool, checks: RenameChecks, now: Time)
    | Open(ino: Ino, mode: AccMode, append: bool, trunc: bool, may: bool)
    | OpenDir(ino: Ino, mode: AccMode, trunc: bool, may: bool)
    | Release(ino: Ino, fh: nat)
    | Ioctl(ino: Ino, cmd: nat, input: IoctlData, now: Time)
    | Truncate(ino: Ino, length: nat, via: Via, may: bool, now: Time)
    | Write(ino: Ino, fh: nat, offset: nat, data: seq<byte>, now: Time)
    | CopyRange(ino: Ino, fh: nat, offset: nat, dstIno: Ino, dstFh: nat, dstOffset: nat, length: nat, now: Time)

  datatype Outcome = Outcome(fs: Fs, reply: Reply)

  function Fail(s: Fs, e: Errno): Outcome { Outcome(s, Error(e)) }

  function FhFor(number: nat, mode: AccMode): nat { Pack(number, mode.Reads(), mode.Writes()) }

  /** The checks most requests that add a name begin with. */
  function AddRefusal(s: Fs, at: Slot, may: bool): Reply {
    if Found(s, at) then Error(EEXIST)
    else if at.dir !in s.inodes then Error(ENOENT)
    else if s.inodes[at.dir].Immutable() then Error(EPERM)
    else if !may then Error(EACCES)
    else Done
  }

  function DoMknod(s: Fs, at: Slot, kind: Kind, may: bool, now: Time): Outcome {
    var refusal := AddRefusal(s, at, may);
    if refusal != Done then Outcome(s, refusal)
    else Outcome(AddFile(Touch(s, at.dir, now), at, kind, [], now), Made(s.lastIno + 1))
  }

  function DoMkdir(s: Fs, at: Slot, may: bool, now: Time): Outcome {
    var refusal := AddRefusal(s, at, may);
    if refusal != Done then Outcome(s, refusal)
    else Outcome(AddDirectory(Touch(s, at.dir, now), at, now), Made(s.lastIno + 1))
  }

  /** The existence of the name is tested last, when the parent's times have moved and an
      inode number has been spent. */
  function DoSymlink(s: Fs, at: Slot, target: seq<byte>, may: bool, now: Time): Outcome {
    if at.dir !in s.inodes then Fail(s, ENOENT)
    else if s.inodes[at.dir].Immutable() then Fail(s, EPERM)
    else if !may then Fail(s, EACCES)
    else if Found(s, at) then Fail(Touch(s, at.dir, now).(lastIno := s.lastIno + 1), EEXIST)
    else Outcome(AddFile(Touch(s, at.dir, now), at, Symlink, target, now), Made(s.lastIno + 1))
  }

  function DoCreate(s: Fs, at: Slot, mode: AccMode, may: bool, now: Time): Outcome {
    if Found(s, at) then Fail(s, EEXIST)
    else if mode.Malformed? then Fail(s, EINVAL)
    else
      var refusal := AddRefusal(s, at, may);
      if refusal != Done then Outcome(s, refusal)
      else
        var made := AddFile(Touch(s, at.dir, now), at, File, [], now);
        Outcome(AddHandle(made, s.lastIno + 1, mode), Created(s.lastIno + 1, FhFor(s.nextFh, mode)))
  }

  function DoTmpfile(s: Fs, dir: Ino, mode: AccMode, may: bool, now: Time): Outcome {
    if mode.Malformed? || mode.ReadOnly? then Fail(s, EINVAL)
    else if dir !in s.inodes then Fail(s, ENOENT)
    else if s.inodes[dir].kind != Directory then Fail(s, ENOTDIR)
    else if s.inodes[dir].Immutable() then Fail(s, EPERM)
    else if !may then Fail(s, EACCES)
    else Outcome(AddHandle(AddAnonymous(s, now), s.lastIno + 1, mode),
                 Created(s.lastIno + 1, FhFor(s.nextFh, mode)))
  }

  predicate Empty(s: Fs, d: Ino) { forall k | k in s.names :: k.dir != d }

  /** `unlink`, and `rmdir` with its emptiness check. */
  function DoUnlink(s: Fs, at: Slot, may: bool, sticky: bool, now: Time): Outcome {
    if !Found(s, at) || at.dir !in s.inodes then Fail(s, ENOENT)
    else if !s.inodes[at.dir].Removable() || !s.inodes[s.names[at].ino].Removable() then Fail(s, EPERM)
    else if !may || !sticky then Fail(s, EACCES)
    else Outcome(Unname(Touch(s, at.dir, now), at, now), Done)
  }

  function DoRmdir(s: Fs, at: Slot, may: bool, sticky: bool, now: Time): Outcome {
    if !Found(s, at) || at.dir !in s.inodes then Fail(s, ENOENT)
    else if !s.inodes[at.dir].Removable() || !s.inodes[s.names[at].ino].Removable() then Fail(s, EPERM)
    else if !Empty(s, s.names[at].ino) then Fail(s, ENOTEMPTY)
    else if !may || !sticky then Fail(s, EACCES)
    else Outcome(Unname(Touch(s, at.dir, now), at, now), Done)
  }

  function DoLink(s: Fs, ino: Ino, at: Slot, may: bool, now: Time): Outcome {
    if ino !in s.inodes then Fail(s, ENOENT)
    else if !s.inodes[ino].Removable() then Fail(s, EPERM)
    else
      var refusal := AddRefusal(s, at, may);
      if refusal != Done then Outcome(s, refusal)
      else Outcome(AddName(Touch(s, at.dir, now), at, ino, now), Made(ino))
  }

  /** The first error a rename meets, in the order the checks are made; none of them has
      changed anything. */
  function RenameRefusal(s: Fs, src: Slot, dst: Slot, flags: RenameFlags, c: RenameChecks): Reply {
    if !Found(s, src) || src.dir !in s.inodes then Error(ENOENT)
    else if !c.srcDir || !c.srcSticky then Error(EACCES)
    else if dst.dir !in s.inodes then Error(ENOENT)
    else if !c.dstDir || (Found(s, dst) && !c.dstSticky) then Error(EACCES)
    else
      var moved := s.inodes[s.names[src].ino];
      if !s.inodes[src.dir].Removable() || !moved.Removable() || s.inodes[dst.dir].Immutable()
         || (Found(s, dst) && !s.inodes[s.names[dst].ino].Removable()) then Error(EPERM)
      else if flags.exchange && (flags.noReplace || flags.whiteout) then Error(EINVAL)
      else if flags.exchange then if Found(s, dst) then Done else Error(ENOENT)
      else if flags.noReplace && Found(s, dst) then Error(EEXIST)
      else if Found(s, dst) && s.inodes[s.names[dst].ino].kind == Directory && !Empty(s, s.names[dst].ino) then Error(ENOTEMPTY)
      else if moved.kind == Directory && src.dir != dst.dir && !c.movedDir then Error(EACCES)
      else Done
  }

  /** Take away the entry a rename replaces. */
  function Replaced(s: Fs, dst: Slot, now: Time): Fs {
    if Found(s, dst) then Unname(s, dst, now) else s
  }

  /** The times a rename sets last. */
  function FinishIn(inodes: map<Ino, Inode>, srcDir: Ino, dstDir: Ino, moved: Ino, now: Time): map<Ino, Inode> {
    StampIn(TouchIn(TouchIn(inodes, srcDir, now), dstDir, now), moved, now)
  }

  function Finish(s: Fs, srcDir: Ino, dstDir: Ino, moved: Ino, now: Time): Fs {
    s.(inodes := FinishIn(s.inodes, srcDir, dstDir, moved, now))
  }

  function Exchanged(s: Fs, e: Entry, f: Entry, src: Slot, dst: Slot, now: Time): Fs {
    Stamp(Finish(SwapNames(s, e, f, src, dst), src.dir, dst.dir, e.ino, now), f.ino, now)
  }

  function Whiteout(s: Fs, src: Slot, whiteout: bool, now: Time): Fs {
    if whiteout then AddFile(s, src, CharDevice, [], now) else s
  }

  function Moved(s: Fs, e: Entry, src: Slot, dst: Slot, whiteout: bool, now: Time): Fs {
    Finish(Whiteout(MoveName(Replaced(s, dst, now), e, src, dst), src, whiteout, now), src.dir, dst.dir, e.ino, now)
  }

  /** The missing owner of a whiteout is noticed only when the target is already gone. */
  function DoRename(s: Fs, src: Slot, dst: Slot, flags: RenameFlags, hasOwner: bool, c: RenameChecks, now: Time): Outcome {
    var refusal := RenameRefusal(s, src, dst, flags, c);
    if refusal != Done then Outcome(s, refusal)
    else if flags.exchange then Outcome(Exchanged(s, s.names[src], s.names[dst], src, dst, now), Done)
    else if flags.whiteout && !hasOwner then Fail(Replaced(s, dst, now), EIO)
    else Outcome(Moved(s, s.names[src], src, dst, flags.whiteout, now), Done)
  }

  function DoOpen(s: Fs, ino: Ino, asked: AccMode, append: bool, trunc: bool, may: bool): Outcome {
    var mode := asked.OrReadOnly();
    if mode.ReadOnly? && trunc then Fail(s, EACCES)
    else if ino !in s.inodes then Fail(s, ENOENT)
    else if mode.Writes() && s.inodes[ino].Immutable() then Fail(s, EPERM)
    else if s.inodes[ino].AppendOnly() && ((mode.Writes() && !append) || trunc) then Fail(s, EPERM)
    else if !may then Fail(s, EACCES)
    else Outcome(AddHandle(s, ino, mode), Opened(FhFor(s.nextFh, mode)))
  }

  function DoOpenDir(s: Fs, ino: Ino, asked: AccMode, trunc: bool, may: bool): Outcome {
    var mode := asked.OrReadOnly();
    if mode.ReadOnly? && trunc then Fail(s, EACCES)
    else if ino !in s.inodes then Fail(s, ENOENT)
    else if !may then Fail(s, EACCES)
    else Outcome(AddHandle(s, ino, mode), Opened(FhFor(s.nextFh, mode)))
  }

  function DoRelease(s: Fs, ino: Ino, fh: nat): Outcome {
    Outcome(if ino in s.inodes then DropHandle(s, ino, fh) else s, Done)
  }

  /** The flags an ioctl asks to set, or the error that refuses it. */
  function FlagsAsked(cmd: nat, input: IoctlData): (r: (Reply, set<nat>))
    ensures r.0 == Done || r.0.Error?
    ensures r.0 == Done ==> r.1 <= InodeFlags.SUPPORTED
  {
    if cmd == FS_IOC_SETFLAGS then
      if input.size != 4 then (Error(EINVAL), {})
      else if !(input.word <= InodeFlags.SUPPORTED) then (Error(EOPNOTSUPP), {})
      else (Done, input.word)
    else if cmd == FS_IOC_FSSETXATTR then
      if input.size != FSXATTR_SIZE then (Error(EINVAL), {})
      else if !(input.word <= InodeFlags.KNOWN) then (Error(EOPNOTSUPP), {})
      else
        InodeFlags.XflagsBack(input.word);
        (Done, InodeFlags.Flags(input.word).value)
    else (Error(ENOTTY), {})
  }

  function WithFlags(s: Fs, ino: Ino, flags: set<nat>, now: Time): Fs
    requires ino in s.inodes
  {
    if flags == s.inodes[ino].flags then s
    else s.(inodes := s.inodes[ino := s.inodes[ino].(flags := flags, ctime := now)])
  }

  function DoIoctl(s: Fs, ino: Ino, cmd: nat, input: IoctlData, now: Time): Outcome {
    if ino !in s.inodes then Fail(s, ENOENT)
    else if cmd == FS_IOC_GETFLAGS then Outcome(s, Word(s.inodes[ino].flags, 4))
    else if cmd == FS_IOC_FSGETXATTR then Outcome(s, Word(InodeFlags.Xflags(s.inodes[ino].flags), FSXATTR_SIZE))
    else
      var asked := FlagsAsked(cmd, input);
      if asked.0 != Done then Outcome(s, asked.0) else Outcome(WithFlags(s, ino, asked.1, now), Word({}, 0))
  }

  /** `setattr` with a size and nothing else. A handle opened for writing stands in for the
      permission check. */
  function DoTruncate(s: Fs, ino: Ino, length: nat, via: Via, may: bool, now: Time): Outcome
    requires ino in s.inodes ==> ino in s.bytes
  {
    if ino !in s.inodes then Fail(s, ENOENT)
    else if !s.inodes[ino].Removable() then Fail(s, EPERM)
    else if via.Handle? && !CanWrite(via.fh) then Fail(s, EACCES)
    else if length > MAX_FILE_SIZE then Fail(s, EFBIG)
    else if via.Path? && !may then Fail(s, EACCES)
    else Outcome(SetContents(s, ino, Resize(s.bytes[ino], length), length, now), Done)
  }

  function DoWrite(s: Fs, ino: Ino, fh: nat, offset: nat, data: seq<byte>, now: Time): Outcome {
    if !CanWrite(fh) then Fail(s, EACCES)
    else if ino !in s.bytes || ino !in s.inodes then Fail(s, EBADF)
    else if offset + |data| >= TWO_TO_THE_64 then Fail(s, EFBIG)
    else Outcome(SetContents(s, ino, WriteAt(s.bytes[ino], offset, data),
                             Max(s.inodes[ino].size, offset + |data|), now), Written(|data| % TWO_TO_THE_32))
  }

  /** The bytes are read before any is written, so a copy within one file may overlap. */
  function DoCopyRange(s: Fs, ino: Ino, fh: nat, offset: nat, dstIno: Ino, dstFh: nat, dstOffset: nat, length: nat,
                       now: Time): Outcome
  {
    if !CanRead(fh) || !CanWrite(dstFh) then Fail(s, EACCES)
    else if dstIno !in s.inodes then Fail(s, ENOENT)
    else if s.inodes[dstIno].Immutable() then Fail(s, EPERM)
    else if ino !in s.bytes then Fail(s, ENOENT)
    else if dstIno !in s.bytes then Fail(s, EBADF)
    else
      var data := Slice(s.bytes[ino], offset, length);
      Outcome(SetContents(s, dstIno, WriteAt(s.bytes[dstIno], dstOffset, data),
                          Max(s.inodes[dstIno].size, dstOffset + |data|), now), Written(|data| % TWO_TO_THE_32))
  }

  // ----- What the kernel guarantees about the requests it sends -----

  predicate GoodPlace(s: Fs, at: Slot) { LinkedDir(s, at.dir) && Ordinary(at.name) }

  /** A replacing rename never has one inode at both ends, and nothing is moved below itself. */
  ghost predicate RenameAllowed(s: Fs, src: Slot, dst: Slot, flags: RenameFlags) {
    && GoodPlace(s, src) && GoodPlace(s, dst)
    && (src in s.names ==> !Inside(s.dotdot, dst.dir, s.names[src].ino))
    && (src in s.names && dst in s.names && flags.exchange ==> !Inside(s.dotdot, src.dir, s.names[dst].ino))
    && (src in s.names && dst in s.names && !flags.exchange ==> s.names[src].ino != s.names[dst].ino)
  }

  predicate NotDirectory(s: Fs, i: Ino) { i in s.inodes ==> s.inodes[i].kind != Directory }

  /** What the kernel keeps to. A free handle number is not its concern: the program stops
      with an assertion failure once it has given out 2^62 of them. */
  ghost predicate Allowed(s: Fs, r: Request) {
    match r
    case Mknod(at, kind, _, _) => GoodPlace(s, at) && kind != Directory
    case Mkdir(at, _, _) => GoodPlace(s, at)
    case SymlinkAt(at, _, _, _) => GoodPlace(s, at)
    case Create(at, _, _, _) => GoodPlace(s, at) && s.nextFh < HANDLE_LIMIT
    case Tmpfile(_, _, _, _) => s.nextFh < HANDLE_LIMIT
    case Unlink(at, _, _, _) => GoodPlace(s, at) && (at in s.names ==> s.names[at].kind != Directory)
    case Rmdir(at, _, _, _) => GoodPlace(s, at) && (at in s.names ==> s.names[at].kind == Directory)
    case Link(ino, at, _, _) => GoodPlace(s, at) && NotDirectory(s, ino)
    case Rename(src, dst, flags, _, _, _) => RenameAllowed(s, src, dst, flags)
    case Open(_, _, _, _, _) => s.nextFh < HANDLE_LIMIT
    case OpenDir(_, _, _, _) => s.nextFh < HANDLE_LIMIT
    case Release(ino, fh) => fh in s.open && s.open[fh] == ino
    case Ioctl(_, _, _, _) => true
    case Truncate(ino, _, _, _, _) => ino in s.inodes ==> ino in s.bytes
    case Write(ino, _, _, data, _) => NotDirectory(s, ino) && data != []
    case CopyRange(ino, _, offset, dstIno, _, dstOffset, length, _) =>
      && NotDirectory(s, ino) && NotDirectory(s, dstIno)
      && (ino in s.bytes ==>
            var data := Slice(s.bytes[ino], offset, length);
            data != [] && dstOffset + |data| < TWO_TO_THE_64)
  }

  /** One request, served. */
  function Apply(s: Fs, r: Request): Outcome
    requires r.Truncate? && r.ino in s.inodes ==> r.ino in s.bytes
  {
    match r
    case Mknod(at, kind, may, now) => DoMknod(s, at, kind, may, now)
    case Mkdir(at, may, now) => DoMkdir(s, at, may, now)
    case SymlinkAt(at, target, may, now) => DoSymlink(s, at, target, may, now)
    case Create(at, mode, may, now) => DoCreate(s, at, mode, may, now)
    case Tmpfile(dir, mode, may, now) => DoTmpfile(s, dir, mode, may, now)
    case Unlink(at, may, sticky, now) => DoUnlink(s, at, may, sticky, now)
    case Rmdir(at, may, sticky, now) => DoRmdir(s, at, may, sticky, now)
    case Link(ino, at, may, now) => DoLink(s, ino, at, may, now)
    case Rename(src, dst, flags, hasOwner, checks, now) => DoRename(s, src, dst, flags, hasOwner, checks, now)
    case Open(ino, mode, append, trunc, may) => DoOpen(s, ino, mode, append, trunc, may)
    case OpenDir(ino, mode, trunc, may) => DoOpenDir(s, ino, mode, trunc, may)
    case Release(ino, fh) => DoRelease(s, ino, fh)
    case Ioctl(ino, cmd, input, now) => DoIoctl(s, ino, cmd, input, now)
    case Truncate(ino, length, via, may, now) => DoTruncate(s, ino, length, via, may, now)
    case Write(ino, fh, offset, data, now) => DoWrite(s, ino, fh, offset, data, now)
    case CopyRange(ino, fh, offset, dstIno, dstFh, dstOffset, length, now) =>
      DoCopyRange(s, ino, fh, offset, dstIno, dstFh, dstOffset, length, now)
  }
}
