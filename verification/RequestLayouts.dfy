/** The layouts the parser goes by are those of the interface: for every operation its structures
    with all their fields, its names, and what follows them. */
module RequestLayouts {
  import opened FileContents
  import opened LittleEndian
  import opened Options
  import opened Abi
  import RequestCodec

  /** The sizes of some structures, one after another. */
  function Sizes(structures: seq<Struct>): seq<nat> {
    if structures == [] then [] else [SizeOf(structures[0])] + Sizes(structures[1..])
  }

  /** What follows the names. A WRITE and a SETXATTR state its length in a field of their
      structure, and only the WRITE stops the program when that is wrong. */
  function Following(op: Op): RequestCodec.Tail {
    match op
    case Write => RequestCodec.Sized(OffsetOf(WRITE_IN, Size), true)
    case SetXAttr => RequestCodec.Sized(OffsetOf(SETXATTR_IN, Size), false)
    case BatchForget => RequestCodec.Nodes
    case Init => RequestCodec.InitIn
    case IoCtl => RequestCodec.Data
    case NotifyReply => RequestCodec.Data
    case _ => RequestCodec.Nothing
  }

  lemma OneSize(s: Struct)
    ensures Sizes([s]) == [SizeOf(s)]
  {
    assert [s][1..] == [];
  }

  lemma TwoSizes(a: Struct, b: Struct)
    ensures Sizes([a, b]) == [SizeOf(a), SizeOf(b)]
  {
    OneSize(b);
    assert [a, b][1..] == [b];
  }

  lemma SizesOfShort()
    ensures forall s: Struct :: Sizes([s]) == [SizeOf(s)]
    ensures Sizes([SETXATTR_IN, SETXATTR_IN_EXT]) == [SizeOf(SETXATTR_IN), SizeOf(SETXATTR_IN_EXT)]
  {
    forall s: Struct
      ensures Sizes([s]) == [SizeOf(s)]
    {
      OneSize(s);
    }
    TwoSizes(SETXATTR_IN, SETXATTR_IN_EXT);
  }

  predicate HasLayout(op: Op, extended: bool) {
    RequestCodec.Layout(Number(op), extended)
    == Some(RequestCodec.Shape(Sizes(Structures(op, extended)), Strings(op), Following(op)))
  }

  /** The constants by which an INIT and a BATCH_FORGET are parsed. */
  lemma ConstantsAreAbi()
    ensures RequestCodec.INIT_IN_SIZE == SizeOf(INIT_IN) && RequestCodec.INIT_FLAGS2_OFFSET == OffsetOf(INIT_IN, Flags2)
    ensures RequestCodec.FORGET_ONE_SIZE == SizeOf(FORGET_ONE) && OffsetOf(BATCH_FORGET_IN, Count) == 0
    ensures RequestCodec.HEADER_SIZE == SizeOf(IN_HEADER)
  {
    LargeStructures();
    SmallStructures();
    hide SizeOf;
  }

  lemma TailOffsets()
    ensures OffsetOf(WRITE_IN, Size) == 16 && OffsetOf(SETXATTR_IN, Size) == 0
  {
  }

  // Range by range, the layouts of the operations with those numbers.

  lemma LayoutsFrom1(op: Op, extended: bool)
    requires 1 <= Number(op) <= 4
    ensures HasLayout(op, extended)
  {
    SizesOfShort();
    SmallStructures();
    SetAttrStructure();
    hide SizeOf, OffsetOf;
  }

  lemma LayoutsFrom5(op: Op, extended: bool)
    requires 5 <= Number(op) <= 12
    ensures HasLayout(op, extended)
  {
    SizesOfShort();
    SmallStructures();
    hide SizeOf, OffsetOf;
  }

  lemma LayoutsFrom13(op: Op, extended: bool)
    requires 13 <= Number(op) <= 16
    ensures HasLayout(op, extended)
  {
    SizesOfShort();
    SmallStructures();
    TransferStructures();
    TailOffsets();
    hide SizeOf, OffsetOf;
  }

  lemma LayoutsFrom17(op: Op, extended: bool)
    requires 17 <= Number(op) <= 20
    ensures HasLayout(op, extended)
  {
    SizesOfShort();
    SmallStructures();
    HandleStructures();
    hide SizeOf, OffsetOf;
  }

  lemma LayoutsFrom21(op: Op, extended: bool)
    requires 21 <= Number(op) <= 25
    ensures HasLayout(op, extended)
  {
    SizesOfShort();
    SmallStructures();
    HandleStructures();
    TailOffsets();
    hide SizeOf, OffsetOf;
  }

  lemma LayoutsFrom26(op: Op, extended: bool)
    requires 26 <= Number(op) <= 30
    ensures HasLayout(op, extended)
  {
    SizesOfShort();
    SmallStructures();
    HandleStructures();
    TransferStructures();
    hide SizeOf, OffsetOf;
  }

  lemma LayoutsFrom31(op: Op, extended: bool)
    requires 31 <= Number(op) <= 35
    ensures HasLayout(op, extended)
  {
    SizesOfShort();
    SmallStructures();
    LargeStructures();
    hide SizeOf, OffsetOf;
  }

  lemma LayoutsFrom36(op: Op, extended: bool)
    requires 36 <= Number(op) <= 40
    ensures HasLayout(op, extended)
  {
    SizesOfShort();
    SmallStructures();
    HandleStructures();
    LargeStructures();
    hide SizeOf, OffsetOf;
  }

  lemma LayoutsFrom41(op: Op, extended: bool)
    requires 41 <= Number(op) <= 45
    ensures HasLayout(op, extended)
  {
    SizesOfShort();
    SmallStructures();
    TransferStructures();
    hide SizeOf, OffsetOf;
  }

  lemma LayoutsFrom46(op: Op, extended: bool)
    requires 46 <= Number(op) <= 4096
    ensures HasLayout(op, extended)
  {
    SizesOfShort();
    SmallStructures();
    HandleStructures();
    TransferStructures();
    LargeStructures();
    hide SizeOf, OffsetOf;
  }

  /** The parser takes exactly the structures, names and trailing bytes of each operation. */
  lemma LayoutIsAbi(op: Op, extended: bool)
    ensures RequestCodec.Layout(Number(op), extended)
            == Some(RequestCodec.Shape(Sizes(Structures(op, extended)), Strings(op), Following(op)))
  {
    assert 1 <= Number(op) <= 4096;
    hide RequestCodec.Layout, Structures, Number, Strings, Following;
    if Number(op) <= 4 {
      LayoutsFrom1(op, extended);
    } else if Number(op) <= 12 {
      LayoutsFrom5(op, extended);
    } else if Number(op) <= 16 {
      LayoutsFrom13(op, extended);
    } else if Number(op) <= 20 {
      LayoutsFrom17(op, extended);
    } else if Number(op) <= 25 {
      LayoutsFrom21(op, extended);
    } else if Number(op) <= 30 {
      LayoutsFrom26(op, extended);
    } else if Number(op) <= 35 {
      LayoutsFrom31(op, extended);
    } else if Number(op) <= 40 {
      LayoutsFrom36(op, extended);
    } else if Number(op) <= 45 {
      LayoutsFrom41(op, extended);
    } else {
      LayoutsFrom46(op, extended);
    }
  }

  /** The operation of a number, as the enumeration of them is read. */
  function Operation(opcode: nat): Option<Op> {
    match opcode
    case 1 => Some(Lookup) case 2 => Some(Forget) case 3 => Some(GetAttr) case 4 => Some(SetAttr)
    case 5 => Some(ReadLink) case 6 => Some(SymLink) case 8 => Some(MkNod) case 9 => Some(MkDir)
    case 10 => Some(Unlink) case 11 => Some(RmDir) case 12 => Some(Rename) case 13 => Some(Link)
    case 14 => Some(Open) case 15 => Some(Read) case 16 => Some(Write) case 17 => Some(StatFs)
    case 18 => Some(Release) case 20 => Some(FSync) case 21 => Some(SetXAttr) case 22 => Some(GetXAttr)
    case 23 => Some(ListXAttr) case 24 => Some(RemoveXAttr) case 25 => Some(Flush) case 26 => Some(Init)
    case 27 => Some(OpenDir) case 28 => Some(ReadDir) case 29 => Some(ReleaseDir) case 30 => Some(FSyncDir)
    case 31 => Some(GetLk) case 32 => Some(SetLk) case 33 => Some(SetLkW) case 34 => Some(Access)
    case 35 => Some(Create) case 36 => Some(Interrupt) case 37 => Some(BMap) case 38 => Some(Destroy)
    case 39 => Some(IoCtl) case 40 => Some(Poll) case 41 => Some(NotifyReply) case 42 => Some(BatchForget)
    case 43 => Some(FAllocate) case 44 => Some(ReadDirPlus) case 45 => Some(Rename2) case 46 => Some(Lseek)
    case 47 => Some(CopyFileRange) case 50 => Some(SyncFs) case 51 => Some(TmpFile) case 52 => Some(StatX)
    case 4096 => Some(CuseInit)
    case _ => None
  }

  lemma NumberOfOperation(opcode: nat)
    ensures Operation(opcode).Some? ==> Number(Operation(opcode).value) == opcode
  {
  }

  lemma LayoutOfOperation(opcode: nat, extended: bool)
    ensures RequestCodec.Layout(opcode, extended).Some? ==> Operation(opcode).Some?
  {
  }

  /** The parser knows the operations there are, and no others. */
  lemma KnownIff(opcode: nat, extended: bool)
    ensures RequestCodec.Layout(opcode, extended).Some? <==> exists op :: Is(opcode, op)
  {
    hide RequestCodec.Layout, Operation, Number;
    NumberOfOperation(opcode);
    LayoutOfOperation(opcode, extended);
    if Operation(opcode).Some? {
      assert Is(opcode, Operation(opcode).value);
    }
    if op :| Is(opcode, op) {
      LayoutIsAbi(op, extended);
    }
  }

  /** The number in a field of a structure, and the same read as a signed one. */
  function In(arg: seq<byte>, s: Struct, field: Field, width: nat): nat {
    var at := OffsetOf(s, field);
    if at + width <= |arg| then Get(arg[at..at + width]) else 0
  }

  function SignedIn(arg: seq<byte>, s: Struct, field: Field, width: nat): int {
    var at := OffsetOf(s, field);
    if at + width <= |arg| then GetSigned(arg[at..at + width]) else 0
  }

  /** The fields of the header as it is taken apart. */
  lemma HeaderIsAbi(data: seq<byte>)
    requires RequestCodec.TryFrom(data).Request?
    ensures |data| >= SizeOf(IN_HEADER) == RequestCodec.HEADER_SIZE
    ensures var h := RequestCodec.TryFrom(data).header;
            && h.opcode == In(data, IN_HEADER, Opcode, 4) && h.unique == In(data, IN_HEADER, Unique, 8)
            && h.nodeid == In(data, IN_HEADER, Nodeid, 8) && h.uid == In(data, IN_HEADER, Uid, 4)
            && h.gid == In(data, IN_HEADER, Gid, 4) && h.pid == In(data, IN_HEADER, Pid, 4)
    ensures var len := In(data, IN_HEADER, Len, 4);
            len <= |data| && RequestCodec.TryFrom(data).data == data[SizeOf(IN_HEADER)..len]
  {
    HeaderOffsets();
    hide SizeOf, OffsetOf, Get;
  }

  lemma HeaderFront()
    ensures OffsetOf(IN_HEADER, Len) == 0 && OffsetOf(IN_HEADER, Opcode) == 4 && OffsetOf(IN_HEADER, Unique) == 8
    ensures OffsetOf(IN_HEADER, Nodeid) == 16
  {
  }

  lemma HeaderOffsets()
    ensures SizeOf(IN_HEADER) == 40
    ensures OffsetOf(IN_HEADER, Len) == 0 && OffsetOf(IN_HEADER, Opcode) == 4 && OffsetOf(IN_HEADER, Unique) == 8
    ensures OffsetOf(IN_HEADER, Nodeid) == 16 && OffsetOf(IN_HEADER, Uid) == 24 && OffsetOf(IN_HEADER, Gid) == 28
    ensures OffsetOf(IN_HEADER, Pid) == 32
  {
    HeaderFront();
    HeaderIds();
    LargeStructures();
    hide OffsetOf, SizeOf;
  }

  lemma HeaderIds()
    ensures OffsetOf(IN_HEADER, Uid) == 24 && OffsetOf(IN_HEADER, Gid) == 28 && OffsetOf(IN_HEADER, Pid) == 32
  {
  }
}
