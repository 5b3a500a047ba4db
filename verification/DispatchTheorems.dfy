/** What becomes of each operation, and when a loop ends — by the names of the interface. */
module DispatchTheorems {
  import opened FileContents
  import opened LittleEndian
  import opened Abi
  import opened RequestLayouts
  import Framing
  import RequestCodec
  import opened Dispatch

  lemma NegativeIff(arg: seq<byte>, at: nat)
    requires at + 8 <= |arg|
    ensures BadOffset(Field64(arg, at)) <==> GetSigned(arg[at..at + 8]) < 0
  {
    hide Get;
    Bounded(arg[at..at + 8]);
    Widths();
  }

  lemma {:induction false} Bounded(b: seq<byte>)
    ensures Get(b) < Power256(|b|)
  {
    if b != [] {
      Bounded(b[1..]);
    }
  }

  lemma OffsetsOfOffsets()
    ensures OffsetOf(READ_IN, Offset) == OffsetOf(WRITE_IN, Offset) == OffsetOf(FALLOCATE_IN, Offset) == 8
    ensures OffsetOf(FALLOCATE_IN, Length) == 16
    ensures OffsetOf(COPY_FILE_RANGE_IN, OffIn) == 8 && OffsetOf(COPY_FILE_RANGE_IN, OffOut) == 32
  {
  }

  lemma OffsetsOfFlags()
    ensures OffsetOf(SETXATTR_IN_EXT, Flags) == 0
    ensures OffsetOf(IOCTL_IN, Flags) == 8 && OffsetOf(IOCTL_IN, InSize) == 24
  {
  }

  /** What becomes of a request that parses, comes from somebody who is let in, and finds the
      filesystem: it is refused if it should have come before the handshake, is not implemented
      or asks for something negative; told to the filesystem if it needs no reply; and otherwise
      handed to it with a reply. */
  predicate Treated(d: Decision, op: Op, p: RequestCodec.Operation, extended: bool) {
    var first := if |p.args| > 0 then p.args[0] else [];
    var second := if |p.args| > 1 then p.args[1] else [];
    match op
    case Init => d == Refuse(Framing.EIO)
    case Destroy => d == Refuse(Framing.EIO)
    case Interrupt => d == Refuse(ENOSYS)
    case NotifyReply => d == Refuse(ENOSYS)
    case CuseInit => d == Refuse(ENOSYS)
    case Forget => d == NoReply
    case BatchForget => d == NoReply
    case Read => d == InvalidIf(SignedIn(first, READ_IN, Offset, 8) < 0)
    case Write => d == InvalidIf(SignedIn(first, WRITE_IN, Offset, 8) < 0)
    case FAllocate =>
      d == InvalidIf(SignedIn(first, FALLOCATE_IN, Offset, 8) < 0 || SignedIn(first, FALLOCATE_IN, Length, 8) < 0)
    case CopyFileRange =>
      d == InvalidIf(SignedIn(first, COPY_FILE_RANGE_IN, OffIn, 8) < 0
                     || SignedIn(first, COPY_FILE_RANGE_IN, OffOut, 8) < 0)
    case SetXAttr => d == if extended && In(second, SETXATTR_IN_EXT, Flags, 4) != 0 then Refuse(ENOTSUP) else HandOut
    case IoCtl =>
      d == if In(first, IOCTL_IN, Flags, 4) / 2 % 2 == 1 then Refuse(ENOSYS)
           else if In(first, IOCTL_IN, InSize, 4) > |p.tail| then Stop
           else HandOut
    case _ => d == HandOut
  }

  function InvalidIf(bad: bool): Decision { if bad then Refuse(EINVAL) else HandOut }

  lemma ArgumentSizes(op: Op, p: RequestCodec.Operation, extended: bool)
    requires RequestCodec.Meant(p, extended) && Is(p.opcode, op)
    ensures op.Read? || op.Write? ==> |p.args| == 1 && |p.args[0]| == 40
    ensures op.FAllocate? || op.IoCtl? ==> |p.args| == 1 && |p.args[0]| == 32
    ensures op.CopyFileRange? ==> |p.args| == 1 && |p.args[0]| == 56
    ensures op.SetXAttr? && extended ==> |p.args| == 2 && |p.args[1]| == 8
  {
    hide RequestCodec.TailFits, RequestCodec.NoNul;
  }

  /** The test of an offset is that its field, read as a signed number, is negative. */
  lemma BadFieldsAreNegative(arg: seq<byte>)
    ensures |arg| == 40 ==> (BadOffset(Field64(arg, 8)) <==> SignedIn(arg, READ_IN, Offset, 8) < 0)
    ensures |arg| == 40 ==> (BadOffset(Field64(arg, 8)) <==> SignedIn(arg, WRITE_IN, Offset, 8) < 0)
    ensures |arg| == 32 ==> (BadOffset(Field64(arg, 8)) <==> SignedIn(arg, FALLOCATE_IN, Offset, 8) < 0)
    ensures |arg| == 32 ==> (BadOffset(Field64(arg, 16)) <==> SignedIn(arg, FALLOCATE_IN, Length, 8) < 0)
    ensures |arg| == 56 ==> (BadOffset(Field64(arg, 8)) <==> SignedIn(arg, COPY_FILE_RANGE_IN, OffIn, 8) < 0)
    ensures |arg| == 56 ==> (BadOffset(Field64(arg, 32)) <==> SignedIn(arg, COPY_FILE_RANGE_IN, OffOut, 8) < 0)
  {
    OffsetsOfOffsets();
    hide Get, GetSigned, OffsetOf, BadOffset, Field64;
    if |arg| >= 32 {
      NegativeIff(arg, 8);
      NegativeIff(arg, 16);
    }
    if |arg| >= 56 {
      NegativeIff(arg, 32);
    }
  }

  lemma FlagFields(arg: seq<byte>)
    ensures |arg| == 8 ==> In(arg, SETXATTR_IN_EXT, Flags, 4) == RequestCodec.Field32(arg, 0)
    ensures |arg| == 32 ==> In(arg, IOCTL_IN, Flags, 4) == RequestCodec.Field32(arg, 8)
    ensures |arg| == 32 ==> In(arg, IOCTL_IN, InSize, 4) == RequestCodec.Field32(arg, 24)
  {
    OffsetsOfFlags();
    hide Get, OffsetOf;
  }

  lemma TransfersAreTreated(op: Op, p: RequestCodec.Operation, extended: bool)
    requires RequestCodec.Meant(p, extended) && Is(p.opcode, op) && (op.Read? || op.Write?)
    ensures Treated(Screen(p, extended), op, p, extended)
  {
    ArgumentSizes(op, p, extended);
    hide Screen, RequestCodec.Meant, BadOffset, Field64, In, SignedIn;
    BadFieldsAreNegative(p.args[0]);
    ScreenTransfer(p, extended);
  }

  lemma RangesAreTreated(op: Op, p: RequestCodec.Operation, extended: bool)
    requires RequestCodec.Meant(p, extended) && Is(p.opcode, op) && (op.FAllocate? || op.CopyFileRange?)
    ensures Treated(Screen(p, extended), op, p, extended)
  {
    ArgumentSizes(op, p, extended);
    hide Screen, RequestCodec.Meant, BadOffset, Field64, In, SignedIn;
    BadFieldsAreNegative(p.args[0]);
    ScreenRange(p, extended, if op.FAllocate? then 16 else 32);
  }

  lemma ValueIsTreated(p: RequestCodec.Operation, extended: bool)
    requires RequestCodec.Meant(p, extended) && Is(p.opcode, SetXAttr)
    ensures Treated(Screen(p, extended), SetXAttr, p, extended)
  {
    ArgumentSizes(SetXAttr, p, extended);
    hide RequestCodec.Meant, RequestCodec.Layout, RequestCodec.Field32, In, SignedIn;
    if extended {
      FlagFields(p.args[1]);
    }
  }

  lemma IoctlIsTreated(p: RequestCodec.Operation, extended: bool)
    requires RequestCodec.Meant(p, extended) && Is(p.opcode, IoCtl)
    ensures Treated(Screen(p, extended), IoCtl, p, extended)
  {
    ArgumentSizes(IoCtl, p, extended);
    hide Screen, RequestCodec.Meant, RequestCodec.Field32, In, SignedIn;
    FlagFields(p.args[0]);
    ScreenIoctl(p, extended);
  }

  lemma OthersAreTreated(op: Op, p: RequestCodec.Operation, extended: bool)
    requires RequestCodec.Meant(p, extended) && Is(p.opcode, op)
    requires op !in {Read, Write, FAllocate, CopyFileRange, SetXAttr, IoCtl}
    ensures Treated(Screen(p, extended), op, p, extended)
  {
    hide RequestCodec.Meant, Get, OffsetOf, In, SignedIn;
  }

  lemma ScreenTreats(op: Op, p: RequestCodec.Operation, extended: bool)
    requires RequestCodec.Meant(p, extended) && Is(p.opcode, op)
    ensures Treated(Screen(p, extended), op, p, extended)
  {
    hide Treated, Screen, RequestCodec.Meant;
    if op.Read? || op.Write? {
      TransfersAreTreated(op, p, extended);
    } else if op.FAllocate? || op.CopyFileRange? {
      RangesAreTreated(op, p, extended);
    } else if op.SetXAttr? {
      ValueIsTreated(p, extended);
    } else if op.IoCtl? {
      IoctlIsTreated(p, extended);
    } else {
      OthersAreTreated(op, p, extended);
    }
  }

  /** Every request: the program stops at it or refuses it while it is parsed, somebody who is
      not let in is turned away, a filesystem that is gone answers EIO, and the rest is treated
      by operation. */
  lemma DecisionOf(se: Session, h: RequestCodec.InHeader, data: seq<byte>, op: Op)
    requires Is(h.opcode, op)
    ensures var parsed := RequestCodec.Parse(h.opcode, se.ext, data);
            var d := Decide(se, h, data);
            match parsed
            case Stopped => d == Stop
            case Insufficient => d == Refuse(ENOSYS)
            case Unknown => d == Refuse(ENOSYS)
            case Parsed(p) =>
              if TurnedAway(se, h, data) then d == Refuse(EACCES)
              else if !se.filesystem then d == Refuse(Framing.EIO)
              else Treated(d, op, p, se.ext)
  {
    hide RequestCodec.Parse, RequestCodec.Meant, RequestCodec.Serialize, Screen, Treated, TurnedAway;
    TurnedAwayIff(se, h, data);
    if RequestCodec.Parse(h.opcode, se.ext, data).Parsed? {
      RequestCodec.SerializeParse(h.opcode, se.ext, data);
      ScreenTreats(op, RequestCodec.Parse(h.opcode, se.ext, data).op, se.ext);
    }
  }

  /** A number that is no operation's is never parsed. */
  lemma UnknownIsRefused(se: Session, h: RequestCodec.InHeader, data: seq<byte>)
    requires forall op: Op :: !Is(h.opcode, op)
    ensures Decide(se, h, data) == Refuse(ENOSYS)
  {
    KnownIff(h.opcode, se.ext);
    hide RequestCodec.Layout, RequestCodec.TakeArgs, RequestCodec.TakeNames, RequestCodec.ParseTail;
  }

  // ----- What a loop makes of an input -----

  /** A loop ends at an input if and only if the connection is gone, a destroy has come, the read
      failed, the packet is cut short, or the program stops at it; and it says which. */
  lemma EndsIff(se: Session, i: Input)
    ensures var end := React(se, i).end;
            var whole := i.Packet? && RequestCodec.TryFrom(i.bytes).Request?;
            var bytes := if i.Packet? then i.bytes else [];
            var destroy := whole && Destroys(se, i.bytes);
            && (end == Finished <==> i.Gone? || destroy)
            && (forall e :: end == Dispatch.End.Error(e) <==> i == Failed(e))
            && (end == Invalid <==> i.Packet? && (|bytes| < 40 || |bytes| < In(bytes, IN_HEADER, Len, 4)))
            && (end == Panicked
                <==> || (|bytes| >= 40 && |bytes| >= In(bytes, IN_HEADER, Len, 4) && In(bytes, IN_HEADER, Len, 4) < 40)
                     || (whole && !destroy && StopsAt(se, i.bytes)))
  {
    HeaderOffsets();
    hide Decide, RequestCodec.Parse, Get, OffsetOf;
  }

  /** A destroy that parses. */
  predicate Destroys(se: Session, bytes: seq<byte>)
    requires RequestCodec.TryFrom(bytes).Request?
  {
    var Request(h, data) := RequestCodec.TryFrom(bytes);
    Is(h.opcode, Destroy) && RequestCodec.Parse(h.opcode, se.ext, data).Parsed?
  }

  predicate StopsAt(se: Session, bytes: seq<byte>)
    requires RequestCodec.TryFrom(bytes).Request?
  {
    var Request(h, data) := RequestCodec.TryFrom(bytes);
    Decide(se, h, data) == Stop
  }

  /** What is sent and handed out for an input: a destroy is answered with success, a refusal
      with its errno, both under the request's own number; what is handed out is that number;
      and nothing else is ever sent. */
  lemma SentFor(se: Session, i: Input)
    ensures var e := React(se, i);
            if !(i.Packet? && RequestCodec.TryFrom(i.bytes).Request?) then e.sent == [] && e.handed == []
            else
              var Request(h, data) := RequestCodec.TryFrom(i.bytes);
              var d := Decide(se, h, data);
              if Destroys(se, i.bytes) then e.sent == [Framing.Reply(h.unique, 0, [])] && e.handed == []
              else && e.sent == (if d.Refuse? then [Framing.Reply(h.unique, d.errno, [])] else [])
                   && e.handed == (if d == HandOut then [h.unique] else [])
  {
    hide Decide, RequestCodec.Parse, RequestCodec.TryFrom;
  }
}
