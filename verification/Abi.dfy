/** The kernel interface by its names: the operations and their numbers, and the structures of
    the protocol, field by field. */
module Abi {

  // ----- Structures -----

  datatype Field =
    | Len | Opcode | Unique | Nodeid | Uid | Gid | Pid | Padding | Error | Fh | Offset | Size | Flags | OpenFlags
    | LockOwner | Mode | Rdev | Umask | Nlookup | Count | Valid | Ino | Atime | Mtime | Ctime | AtimeNsec
    | MtimeNsec | CtimeNsec | Blksize | ReadFlags | WriteFlags | ReleaseFlags | Newdir | Oldnodeid | Start | End
    | Type | Owner | Mask | Block | Command | Arg | InSize | OutSize | Kh | Events | Length | Whence | FhIn | OffIn
    | NodeidOut | FhOut | OffOut | Major | Minor | MaxReadahead | Flags2 | Parent | Child | Namelen | Off | SxFlags
    | SxMask

  /** Declared fields, in order, each of four or eight bytes. */
  datatype Struct = Nil | Part(field: Field, bytes: nat, rest: Struct)

  function U32(field: Field, rest: Struct): Struct { Part(field, 4, rest) }
  function U64(field: Field, rest: Struct): Struct { Part(field, 8, rest) }

  /** Where a field stands: each begins where the one before it ends, as the structures are
      declared with their padding. */
  function OffsetFrom(s: Struct, field: Field, at: nat): nat {
    if s == Nil || s.field == field then at else OffsetFrom(s.rest, field, at + s.bytes)
  }

  function OffsetOf(s: Struct, field: Field): nat { OffsetFrom(s, field, 0) }

  function EndFrom(s: Struct, at: nat): nat { if s == Nil then at else EndFrom(s.rest, at + s.bytes) }

  function SizeOf(s: Struct): nat { EndFrom(s, 0) }

  const IN_HEADER := U32(Len, U32(Opcode, U64(Unique, U64(Nodeid, U32(Uid, U32(Gid, U32(Pid, U32(Padding, Nil))))))))
  const OUT_HEADER := U32(Len, U32(Error, U64(Unique, Nil)))
  const FORGET_IN := U64(Nlookup, Nil)
  const FORGET_ONE := U64(Nodeid, U64(Nlookup, Nil))
  const BATCH_FORGET_IN := U32(Count, U32(Padding, Nil))
  const GETATTR_IN := U32(Flags, U32(Padding, U64(Fh, Nil)))
  const SETATTR_IDS := U32(Padding, U32(Uid, U32(Gid, U32(Padding, Nil))))
  const SETATTR_WORDS := U32(AtimeNsec, U32(MtimeNsec, U32(CtimeNsec, U32(Mode, SETATTR_IDS))))
  const SETATTR_IN :=
    U32(Valid, U32(Padding, U64(Fh, U64(Size, U64(LockOwner, U64(Atime, U64(Mtime, U64(Ctime, SETATTR_WORDS))))))))
  const MKNOD_IN := U32(Mode, U32(Rdev, U32(Umask, U32(Padding, Nil))))
  const MKDIR_IN := U32(Mode, U32(Umask, Nil))
  const RENAME_IN := U64(Newdir, Nil)
  const RENAME2_IN := U64(Newdir, U32(Flags, U32(Padding, Nil)))
  const LINK_IN := U64(Oldnodeid, Nil)
  const OPEN_IN := U32(Flags, U32(OpenFlags, Nil))
  const CREATE_IN := U32(Flags, U32(Mode, U32(Umask, U32(OpenFlags, Nil))))
  const RELEASE_IN := U64(Fh, U32(Flags, U32(ReleaseFlags, U64(LockOwner, Nil))))
  const FLUSH_IN := U64(Fh, U32(Padding, U32(Padding, U64(LockOwner, Nil))))
  const READ_IN := U64(Fh, U64(Offset, U32(Size, U32(ReadFlags, U64(LockOwner, U32(Flags, U32(Padding, Nil)))))))
  const WRITE_IN := U64(Fh, U64(Offset, U32(Size, U32(WriteFlags, U64(LockOwner, U32(Flags, U32(Padding, Nil)))))))
  const FSYNC_IN := U64(Fh, U32(Flags, U32(Padding, Nil)))
  const SETXATTR_IN := U32(Size, U32(Flags, Nil))
  const SETXATTR_IN_EXT := U32(Flags, U32(Padding, Nil))
  const GETXATTR_IN := U32(Size, U32(Padding, Nil))
  const LK_IN := U64(Fh, U64(Owner, U64(Start, U64(End, U32(Type, U32(Pid, U32(Flags, U32(Padding, Nil))))))))
  const ACCESS_IN := U32(Mask, U32(Padding, Nil))
  const INTERRUPT_IN := U64(Unique, Nil)
  const BMAP_IN := U64(Block, U32(Blksize, U32(Padding, Nil)))
  const IOCTL_IN := U64(Fh, U32(Flags, U32(Command, U64(Arg, U32(InSize, U32(OutSize, Nil))))))
  const POLL_IN := U64(Fh, U64(Kh, U32(Flags, U32(Events, Nil))))
  const FALLOCATE_IN := U64(Fh, U64(Offset, U64(Length, U32(Mode, U32(Padding, Nil)))))
  const LSEEK_IN := U64(Fh, U64(Offset, U32(Whence, U32(Padding, Nil))))
  const COPY_FILE_RANGE_IN :=
    U64(FhIn, U64(OffIn, U64(NodeidOut, U64(FhOut, U64(OffOut, U64(Length, U64(Flags, Nil)))))))
  const SYNCFS_IN := U64(Padding, Nil)
  const STATX_IN := U32(Flags, U32(Padding, U64(Fh, U32(SxFlags, U32(SxMask, Nil)))))
  const RESERVED_5 := U32(Padding, U32(Padding, U32(Padding, U32(Padding, U32(Padding, Nil)))))
  const RESERVED_11 :=
    U32(Padding, U32(Padding, U32(Padding, U32(Padding, U32(Padding, U32(Padding, RESERVED_5))))))
  const INIT_IN := U32(Major, U32(Minor, U32(MaxReadahead, U32(Flags, U32(Flags2, RESERVED_11)))))
  const DIRENT := U64(Ino, U64(Off, U32(Namelen, U32(Type, Nil))))
  const NOTIFY_POLL_OUT := U64(Kh, Nil)
  const NOTIFY_INVAL_INODE_OUT := U64(Ino, U64(Off, U64(Len, Nil)))
  const NOTIFY_INVAL_ENTRY_OUT := U64(Parent, U32(Namelen, U32(Flags, Nil)))
  const NOTIFY_DELETE_OUT := U64(Parent, U64(Child, U32(Namelen, U32(Padding, Nil))))
  const NOTIFY_STORE_OUT := U64(Nodeid, U64(Offset, U32(Size, U32(Padding, Nil))))

  // ----- Operations -----

  datatype Op =
    | Lookup | Forget | GetAttr | SetAttr | ReadLink | SymLink | MkNod | MkDir | Unlink | RmDir | Rename | Link | Open
    | Read | Write | StatFs | Release | FSync | SetXAttr | GetXAttr | ListXAttr | RemoveXAttr | Flush | Init | OpenDir
    | ReadDir | ReleaseDir | FSyncDir | GetLk | SetLk | SetLkW | Access | Create | Interrupt | BMap | Destroy | IoCtl | Poll
    | NotifyReply | BatchForget | FAllocate | ReadDirPlus | Rename2 | Lseek | CopyFileRange | SyncFs | TmpFile | StatX
    | CuseInit

  function Number(op: Op): nat {
    match op
    case Lookup => 1 case Forget => 2 case GetAttr => 3 case SetAttr => 4 case ReadLink => 5 case SymLink => 6
    case MkNod => 8 case MkDir => 9 case Unlink => 10 case RmDir => 11 case Rename => 12 case Link => 13
    case Open => 14 case Read => 15 case Write => 16 case StatFs => 17 case Release => 18 case FSync => 20
    case SetXAttr => 21 case GetXAttr => 22 case ListXAttr => 23 case RemoveXAttr => 24 case Flush => 25
    case Init => 26 case OpenDir => 27 case ReadDir => 28 case ReleaseDir => 29 case FSyncDir => 30 case GetLk => 31
    case SetLk => 32 case SetLkW => 33 case Access => 34 case Create => 35 case Interrupt => 36 case BMap => 37
    case Destroy => 38 case IoCtl => 39 case Poll => 40 case NotifyReply => 41 case BatchForget => 42
    case FAllocate => 43 case ReadDirPlus => 44 case Rename2 => 45 case Lseek => 46 case CopyFileRange => 47
    case SyncFs => 50 case TmpFile => 51 case StatX => 52 case CuseInit => 4096
  }

  predicate Is(opcode: nat, op: Op) { opcode == Number(op) }

  /** The structures an operation's arguments begin with. */
  function Structures(op: Op, extended: bool): seq<Struct> {
    match op
    case Forget => [FORGET_IN]
    case GetAttr => [GETATTR_IN]
    case SetAttr => [SETATTR_IN]
    case MkNod => [MKNOD_IN]
    case MkDir => [MKDIR_IN]
    case Rename => [RENAME_IN]
    case Rename2 => [RENAME2_IN]
    case Link => [LINK_IN]
    case Open => [OPEN_IN]
    case OpenDir => [OPEN_IN]
    case Read => [READ_IN]
    case ReadDir => [READ_IN]
    case ReadDirPlus => [READ_IN]
    case Write => [WRITE_IN]
    case Release => [RELEASE_IN]
    case ReleaseDir => [RELEASE_IN]
    case FSync => [FSYNC_IN]
    case FSyncDir => [FSYNC_IN]
    case SetXAttr => if extended then [SETXATTR_IN, SETXATTR_IN_EXT] else [SETXATTR_IN]
    case GetXAttr => [GETXATTR_IN]
    case ListXAttr => [GETXATTR_IN]
    case Flush => [FLUSH_IN]
    case GetLk => [LK_IN]
    case SetLk => [LK_IN]
    case SetLkW => [LK_IN]
    case Access => [ACCESS_IN]
    case Create => [CREATE_IN]
    case TmpFile => [CREATE_IN]
    case Interrupt => [INTERRUPT_IN]
    case BMap => [BMAP_IN]
    case IoCtl => [IOCTL_IN]
    case Poll => [POLL_IN]
    case BatchForget => [BATCH_FORGET_IN]
    case FAllocate => [FALLOCATE_IN]
    case Lseek => [LSEEK_IN]
    case CopyFileRange => [COPY_FILE_RANGE_IN]
    case SyncFs => [SYNCFS_IN]
    case StatX => [STATX_IN]
    case CuseInit => [INIT_IN]
    case _ => []
  }

  /** The names behind them. */
  function Strings(op: Op): nat {
    if op in {SymLink, Rename, Rename2} then 2
    else if op in {Lookup, MkNod, MkDir, Unlink, RmDir, Link, SetXAttr, GetXAttr, RemoveXAttr, Create, TmpFile} then 1
    else 0
  }

  /** A structure of this size. */
  predicate Takes(s: Struct, size: nat) { SizeOf(s) == size }

  predicate Ends(s: Struct, at: nat, end: nat) { EndFrom(s, at) == end }

  lemma SmallStructures()
    ensures Takes(FORGET_IN, 8) && Takes(FORGET_ONE, 16) && Takes(BATCH_FORGET_IN, 8) && Takes(GETATTR_IN, 16)
    ensures Takes(MKNOD_IN, 16) && Takes(MKDIR_IN, 8) && Takes(RENAME_IN, 8) && Takes(RENAME2_IN, 16) && Takes(LINK_IN, 8)
    ensures Takes(OPEN_IN, 8) && Takes(CREATE_IN, 16) && Takes(SETXATTR_IN, 8) && Takes(SETXATTR_IN_EXT, 8)
    ensures Takes(GETXATTR_IN, 8) && Takes(ACCESS_IN, 8) && Takes(INTERRUPT_IN, 8) && Takes(BMAP_IN, 16)
    ensures Takes(SYNCFS_IN, 8) && Takes(FSYNC_IN, 16)
  {
  }

  lemma HandleStructures()
    ensures Takes(RELEASE_IN, 24) && Takes(FLUSH_IN, 24) && Takes(POLL_IN, 24) && Takes(LSEEK_IN, 24)
    ensures Takes(STATX_IN, 24)
  {
  }

  lemma TransferStructures()
    ensures Takes(READ_IN, 40) && Takes(WRITE_IN, 40) && Takes(FALLOCATE_IN, 32) && Takes(COPY_FILE_RANGE_IN, 56)
  {
  }

  // The long structures end piece by piece.

  lemma FiveReserved()
    ensures Ends(RESERVED_5, 44, 64)
  {
  }

  lemma ElevenReserved()
    ensures Ends(RESERVED_11, 20, 64)
  {
    FiveReserved();
  }

  lemma IdsOfSetAttr()
    ensures Ends(SETATTR_IDS, 72, 88)
  {
  }

  lemma WordsOfSetAttr()
    ensures Ends(SETATTR_WORDS, 56, 88)
  {
    IdsOfSetAttr();
  }

  lemma LargeStructures()
    ensures Takes(LK_IN, 48) && Takes(IOCTL_IN, 32) && Takes(INIT_IN, 64) && Takes(IN_HEADER, 40)
  {
    FiveReserved();
    ElevenReserved();
  }

  lemma SetAttrStructure()
    ensures Takes(SETATTR_IN, 88)
  {
    IdsOfSetAttr();
    WordsOfSetAttr();
  }

  lemma OutStructures()
    ensures Takes(OUT_HEADER, 16) && Takes(DIRENT, 24)
  {
  }

  lemma NotifyStructures()
    ensures Takes(NOTIFY_POLL_OUT, 8) && Takes(NOTIFY_INVAL_INODE_OUT, 24) && Takes(NOTIFY_INVAL_ENTRY_OUT, 16)
    ensures Takes(NOTIFY_DELETE_OUT, 24) && Takes(NOTIFY_STORE_OUT, 24)
  {
  }
}
