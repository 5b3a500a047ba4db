/** What is written to the kernel stands in the fields of the interface: headers, notifications
    and directory records. */
module ReplyLayouts {
  import opened FileContents
  import opened LittleEndian
  import opened Abi
  import opened RequestLayouts
  import Framing
  import Dirents

  lemma OutHeaderOffsets()
    ensures OffsetOf(OUT_HEADER, Len) == 0 && OffsetOf(OUT_HEADER, Error) == 4 && OffsetOf(OUT_HEADER, Unique) == 8
    ensures SizeOf(OUT_HEADER) == 16
  {
  }

  /** The header in front of every message: its length, the error or code, and the number of the
      request it answers. */
  lemma FrameIsAbi(unique: nat, error: int, body: seq<byte>)
    requires unique < TWO_TO_THE_64 && FitsSigned(error, 4) && !Framing.TooLong(body)
    ensures var b := Framing.Frame(unique, error, body);
            && In(b, OUT_HEADER, Len, 4) == |b| && SignedIn(b, OUT_HEADER, Field.Error, 4) == error
            && In(b, OUT_HEADER, Unique, 8) == unique && |b| == SizeOf(OUT_HEADER) + |body| && b[SizeOf(OUT_HEADER)..] == body
  {
    OutHeaderOffsets();
    Framing.ReadFrame(unique, error, body, []);
    hide Framing.Frame, Get, GetSigned, SizeOf, OffsetOf;
    var b := Framing.Frame(unique, error, body);
    assert b + [] == b;
    assert b[4..][..4] == b[4..8] && b[4..][4..][..8] == b[8..16];
    assert b[16..] == b[16..16 + |body|];
  }

  /** The numbers of the notifications. */
  lemma CodesAreAbi(n: Framing.Notification)
    ensures Framing.Code(n) == match n
                               case Poll(_) => 1
                               case InvalInode(_, _, _) => 2
                               case InvalEntry(_, _, _) => 3
                               case Store(_, _, _) => 4
                               case Delete(_, _, _) => 6
                               case IncEpoch => 8
  {
  }

  lemma NoticeOffsets()
    ensures OffsetOf(NOTIFY_INVAL_INODE_OUT, Ino) == 0 && OffsetOf(NOTIFY_INVAL_INODE_OUT, Off) == 8
    ensures OffsetOf(NOTIFY_INVAL_INODE_OUT, Len) == 16
    ensures OffsetOf(NOTIFY_INVAL_ENTRY_OUT, Parent) == 0 && OffsetOf(NOTIFY_INVAL_ENTRY_OUT, Namelen) == 8
    ensures OffsetOf(NOTIFY_INVAL_ENTRY_OUT, Flags) == 12
    ensures OffsetOf(NOTIFY_DELETE_OUT, Parent) == 0 && OffsetOf(NOTIFY_DELETE_OUT, Child) == 8
    ensures OffsetOf(NOTIFY_DELETE_OUT, Namelen) == 16
    ensures OffsetOf(NOTIFY_STORE_OUT, Nodeid) == 0 && OffsetOf(NOTIFY_STORE_OUT, Offset) == 8
    ensures OffsetOf(NOTIFY_STORE_OUT, Size) == 16
    ensures OffsetOf(NOTIFY_POLL_OUT, Kh) == 0
  {
  }

  /** The body of a notification: its structure, and behind it the name with its terminator, or
      the data. */
  predicate NoticeStands(n: Framing.Notification, b: seq<byte>) {
    match n
    case Poll(kh) => |b| == 8 && In(b, NOTIFY_POLL_OUT, Kh, 8) == kh
    case InvalInode(ino, off, len) =>
      && |b| == 24 && In(b, NOTIFY_INVAL_INODE_OUT, Ino, 8) == ino
      && SignedIn(b, NOTIFY_INVAL_INODE_OUT, Off, 8) == off && SignedIn(b, NOTIFY_INVAL_INODE_OUT, Len, 8) == len
    case InvalEntry(parent, name, flags) =>
      && |b| >= 16 && In(b, NOTIFY_INVAL_ENTRY_OUT, Parent, 8) == parent
      && In(b, NOTIFY_INVAL_ENTRY_OUT, Namelen, 4) == |name| && In(b, NOTIFY_INVAL_ENTRY_OUT, Flags, 4) == flags
      && b[16..] == name + [0]
    case Store(ino, offset, data) =>
      && |b| >= 24 && In(b, NOTIFY_STORE_OUT, Nodeid, 8) == ino && In(b, NOTIFY_STORE_OUT, Offset, 8) == offset
      && In(b, NOTIFY_STORE_OUT, Size, 4) == |data| && b[24..] == data
    case Delete(parent, child, name) =>
      && |b| >= 24 && In(b, NOTIFY_DELETE_OUT, Parent, 8) == parent && In(b, NOTIFY_DELETE_OUT, Child, 8) == child
      && In(b, NOTIFY_DELETE_OUT, Namelen, 4) == |name| && b[24..] == name + [0]
    case IncEpoch => b == []
  }

  lemma NoticeIsAbi(n: Framing.Notification)
    requires Framing.FieldsFit(n) && Framing.Build(n).Some?
    ensures NoticeStands(n, Framing.RawBytes(Framing.Build(n).value))
  {
    NoticeOffsets();
    hide Get, GetSigned, Put, PutSigned, OffsetOf;
    var b := Framing.RawBytes(Framing.Build(n).value);
    match n
    case Poll(kh) =>
      GetPut64(kh);
      assert b[0..8] == b;
    case InvalInode(ino, off, len) =>
      GetPut64(ino);
      GetPutSigned(off, 8);
      GetPutSigned(len, 8);
      SignedLength(off, 8);
      SignedLength(len, 8);
      assert b[0..8] == Put(ino, 8) && b[8..16] == PutSigned(off, 8) && b[16..24] == PutSigned(len, 8);
    case InvalEntry(parent, name, flags) =>
      GetPut64(parent);
      GetPut32(|name|);
      GetPut32(flags);
      assert b[0..8] == Put(parent, 8) && b[8..12] == Put(|name|, 4) && b[12..16] == Put(flags, 4);
    case Store(ino, offset, data) =>
      GetPut64(ino);
      GetPut64(offset);
      GetPut32(|data|);
      assert b[0..8] == Put(ino, 8) && b[8..16] == Put(offset, 8) && b[16..20] == Put(|data|, 4);
    case Delete(parent, child, name) =>
      GetPut64(parent);
      GetPut64(child);
      GetPut32(|name|);
      assert b[0..8] == Put(parent, 8) && b[8..16] == Put(child, 8) && b[16..20] == Put(|name|, 4);
    case IncEpoch =>
  }

  lemma DirentOffsets()
    ensures OffsetOf(DIRENT, Ino) == 0 && OffsetOf(DIRENT, Off) == 8 && OffsetOf(DIRENT, Namelen) == 16
    ensures OffsetOf(DIRENT, Type) == 20 && SizeOf(DIRENT) == 24
  {
  }

  /** A directory record: its structure, the name, and zeros up to a multiple of eight. */
  lemma RecordIsAbi(e: Dirents.Dirent)
    requires Dirents.Fits(e, 0)
    ensures var b := Dirents.Record(e);
            && In(b, DIRENT, Ino, 8) == e.ino && In(b, DIRENT, Off, 8) == e.off && In(b, DIRENT, Namelen, 4) == |e.name|
            && In(b, DIRENT, Type, 4) == e.typ
            && |b| % 8 == 0 && SizeOf(DIRENT) + |e.name| <= |b| < SizeOf(DIRENT) + |e.name| + 8
            && b[SizeOf(DIRENT)..SizeOf(DIRENT) + |e.name|] == e.name
  {
    DirentOffsets();
    Dirents.HeaderParts(e, []);
    hide Dirents.Record, Get, Put, SizeOf, OffsetOf;
    GetPut64(e.ino);
    GetPut64(e.off);
    GetPut32(|e.name|);
    GetPut32(e.typ);
    var b := Dirents.Record(e);
    assert b + [] == b && b[0..] == b;
  }
}
