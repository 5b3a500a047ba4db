/** From a received packet to what happens with it: answered at once, handed to the filesystem
    with a reply object, or handed over without one. */
module Dispatch {
  import opened FileContents
  import opened LittleEndian
  import Abi
  import RequestCodec
  import Framing

  const EACCES: nat := 13
  const EINVAL: nat := 22
  const ENOSYS: nat := 38
  const ENOTSUP: nat := 95

  const ROOT_UID: nat := 0
  const FUSE_INVALID_UIDGID: nat := 0xFFFF_FFFF

  datatype Acl = All | RootAndOwner | Owner

  /** What an event loop knows about its session. `ext` and `idmap` are the negotiated
      FUSE_SETXATTR_EXT and FUSE_ALLOW_IDMAP; `filesystem` is false once it was destroyed. */
  datatype Session = Session(acl: Acl, owner: nat, ext: bool, idmap: bool, filesystem: bool)

  // ----- The decision -----

  /** Stop is a panic while the request is parsed or its arguments are evaluated: a WRITE with
      other data than announced, or an IOCTL with less. */
  datatype Decision = HandOut | NoReply | Refuse(errno: nat) | Stop

  predicate Foreign(se: Session, uid: nat) {
    || (se.acl == RootAndOwner && uid != se.owner && uid != ROOT_UID)
    || (se.acl == Owner && uid != se.owner)
  }

  /** The operations the kernel may issue with nobody's uid on them. */
  const UNCHECKED: set<nat> := {2, 15, 16, 18, 20, 26, 28, 29, 30, 38, 42, 44}

  predicate BadOffset(v: nat) { v >= 0x8000_0000_0000_0000 }

  predicate Forgetting(opcode: nat) { opcode == 2 || opcode == 42 }

  /** The 64-bit number at `at` of an operation's structure. */
  function Field64(arg: seq<byte>, at: nat): nat
    requires at + 8 <= |arg|
  {
    Get(arg[at..at + 8])
  }

  predicate Unrestricted(op: RequestCodec.Operation, ext: bool)
    requires RequestCodec.Meant(op, ext)
  {
    op.opcode == 39 && RequestCodec.Field32(op.args[0], 8) / 2 % 2 == 1
  }

  /** An IOCTL that announces more input than came with it. The parser lets it pass; cutting
      the input out does not. */
  predicate LacksData(op: RequestCodec.Operation, ext: bool)
    requires RequestCodec.Meant(op, ext)
  {
    op.opcode == 39 && RequestCodec.Field32(op.args[0], 24) > |op.tail|
  }

  /** The checks a parsed operation goes through after the access check. */
  function Screen(op: RequestCodec.Operation, ext: bool): Decision
    requires RequestCodec.Meant(op, ext)
  {
    match op.opcode
    case 26 => Refuse(Framing.EIO)
    case 38 => Refuse(Framing.EIO)
    case 36 => Refuse(ENOSYS)
    case 41 => Refuse(ENOSYS)
    case 4096 => Refuse(ENOSYS)
    case 2 => NoReply
    case 42 => NoReply
    case 15 => if BadOffset(Field64(op.args[0], 8)) then Refuse(EINVAL) else HandOut
    case 16 => if BadOffset(Field64(op.args[0], 8)) then Refuse(EINVAL) else HandOut
    case 21 => if ext && RequestCodec.Field32(op.args[1], 0) != 0 then Refuse(ENOTSUP) else HandOut
    case 39 => if Unrestricted(op, ext) then Refuse(ENOSYS) else if LacksData(op, ext) then Stop else HandOut
    case 43 => if BadOffset(Field64(op.args[0], 8)) || BadOffset(Field64(op.args[0], 16)) then Refuse(EINVAL) else HandOut
    case 47 => if BadOffset(Field64(op.args[0], 8)) || BadOffset(Field64(op.args[0], 32)) then Refuse(EINVAL) else HandOut
    case _ => HandOut
  }

  // The checks of the operations that have some, one by one.

  lemma ScreenRange(op: RequestCodec.Operation, ext: bool, second: nat)
    requires RequestCodec.Meant(op, ext) && |op.args| == 1
    requires || (op.opcode == 43 && second == 16 && |op.args[0]| == 32)
             || (op.opcode == 47 && second == 32 && |op.args[0]| == 56)
    ensures Screen(op, ext)
            == if BadOffset(Field64(op.args[0], 8)) || BadOffset(Field64(op.args[0], second)) then Refuse(EINVAL)
               else HandOut
  {
    hide RequestCodec.Meant, BadOffset, Field64, Unrestricted, LacksData;
  }

  lemma ScreenTransfer(op: RequestCodec.Operation, ext: bool)
    requires RequestCodec.Meant(op, ext) && |op.args| == 1
    requires (op.opcode == 15 || op.opcode == 16) && |op.args[0]| == 40
    ensures Screen(op, ext) == if BadOffset(Field64(op.args[0], 8)) then Refuse(EINVAL) else HandOut
  {
    hide RequestCodec.Meant, BadOffset, Field64, Unrestricted, LacksData;
  }

  lemma ScreenIoctl(op: RequestCodec.Operation, ext: bool)
    requires RequestCodec.Meant(op, ext) && op.opcode == 39 && |op.args| == 1 && |op.args[0]| == 32
    ensures Screen(op, ext) == if RequestCodec.Field32(op.args[0], 8) / 2 % 2 == 1 then Refuse(ENOSYS)
                               else if RequestCodec.Field32(op.args[0], 24) > |op.tail| then Stop else HandOut
  {
    hide RequestCodec.Meant, RequestCodec.Field32;
  }

  function Decide(se: Session, h: RequestCodec.InHeader, data: seq<byte>): Decision {
    match RequestCodec.Parse(h.opcode, se.ext, data)
    case Stopped => Stop
    case Unknown => Refuse(ENOSYS)
    case Insufficient => Refuse(ENOSYS)
    case Parsed(op) =>
      if Foreign(se, h.uid) && h.opcode !in UNCHECKED then Refuse(EACCES)
      else if !se.filesystem then Refuse(Framing.EIO)
      else
        RequestCodec.SerializeParse(h.opcode, se.ext, data);
        Screen(op, se.ext)
  }

  /** While the filesystem is there, going without a reply is for FORGET and BATCH_FORGET that
      parse, and for nothing else. */
  lemma SilentIff(se: Session, h: RequestCodec.InHeader, data: seq<byte>)
    requires se.filesystem
    ensures Decide(se, h, data) == NoReply
            <==> Forgetting(h.opcode) && RequestCodec.Parse(h.opcode, se.ext, data).Parsed?
  {
  }

  /** The requests the program stops at, without any reply. */
  predicate Stops(se: Session, h: RequestCodec.InHeader, data: seq<byte>) {
    match RequestCodec.Parse(h.opcode, se.ext, data)
    case Stopped => true
    case Parsed(op) =>
      RequestCodec.SerializeParse(h.opcode, se.ext, data);
      && !(Foreign(se, h.uid) && h.opcode !in UNCHECKED) && se.filesystem
      && !Unrestricted(op, se.ext) && LacksData(op, se.ext)
    case _ => false
  }

  lemma StopsIff(se: Session, h: RequestCodec.InHeader, data: seq<byte>)
    ensures Decide(se, h, data) == Stop <==> Stops(se, h, data)
  {
    hide RequestCodec.Parse, RequestCodec.Meant, RequestCodec.Serialize, RequestCodec.Field32, Screen, LacksData,
      Unrestricted;
    if RequestCodec.Parse(h.opcode, se.ext, data).Parsed? {
      RequestCodec.SerializeParse(h.opcode, se.ext, data);
      ScreenStops(RequestCodec.Parse(h.opcode, se.ext, data).op, se.ext);
    }
  }

  lemma ScreenStops(op: RequestCodec.Operation, ext: bool)
    requires RequestCodec.Meant(op, ext)
    ensures Screen(op, ext) == Stop <==> !Unrestricted(op, ext) && LacksData(op, ext)
  {
    hide RequestCodec.Field32, BadOffset, Field64;
  }

  /** An IOCTL structure that announces one byte of input. */
  function ShortIoctl(): RequestCodec.Operation {
    RequestCodec.Operation(39, [Zeros(24) + Put(1, 4) + Zeros(4)], [], [])
  }

  /** Such a request parses, and the thread that serves it panics before any reply is made. */
  lemma ShortIoctlStops(se: Session, h: RequestCodec.InHeader)
    requires h.opcode == 39 && se.filesystem && !Foreign(se, h.uid)
    ensures RequestCodec.Parse(39, se.ext, RequestCodec.Serialize(ShortIoctl())) == RequestCodec.Parsed(ShortIoctl())
    ensures Decide(se, h, RequestCodec.Serialize(ShortIoctl())) == Stop
  {
    hide RequestCodec.Parse, RequestCodec.Serialize, Get, Put, Zeros;
    var op := ShortIoctl();
    ShortIoctlFields();
    RequestCodec.ParseSerialize(op, se.ext);
  }

  lemma ShortIoctlFields()
    ensures var arg := ShortIoctl().args[0];
            |arg| == 32 && RequestCodec.Field32(arg, 24) == 1 && RequestCodec.Field32(arg, 8) == 0
  {
    var arg := ShortIoctl().args[0];
    assert arg[24..28] == Put(1, 4) && arg[8..12] == Zeros(4);
    GetPut32(1);
    GetZeros(4);
  }

  lemma {:induction false} GetZeros(n: nat)
    ensures Get(Zeros(n)) == 0
  {
    if n > 0 {
      assert Zeros(n)[1..] == Zeros(n - 1);
      GetZeros(n - 1);
    }
  }

  /** The operations the kernel issues on its own account, for no user at all. */
  predicate OfTheKernel(op: Abi.Op) {
    || op.Init? || op.Destroy? || op.Read? || op.ReadDir? || op.ReadDirPlus? || op.Write? || op.Forget? || op.BatchForget?
    || op.FSync? || op.FSyncDir? || op.Release? || op.ReleaseDir?
  }

  /** A request that parses and comes from somebody the session is not for: not its owner, nor
      root where root is let in. */
  predicate TurnedAway(se: Session, h: RequestCodec.InHeader, data: seq<byte>) {
    && RequestCodec.Parse(h.opcode, se.ext, data).Parsed?
    && (forall op: Abi.Op | OfTheKernel(op) :: !Abi.Is(h.opcode, op))
    && h.uid != se.owner
    && match se.acl
       case All => false
       case RootAndOwner => h.uid != 0
       case Owner => true
  }

  /** Such requests are refused on that account, and no others: never the owner's, never root's
      where root is let in, and nobody's where everybody is. */
  lemma TurnedAwayIff(se: Session, h: RequestCodec.InHeader, data: seq<byte>)
    ensures Decide(se, h, data) == Refuse(EACCES) <==> TurnedAway(se, h, data)
    ensures h.uid == se.owner || se.acl == All || (se.acl == RootAndOwner && h.uid == 0) ==>
              Decide(se, h, data) != Refuse(EACCES)
  {
    hide RequestCodec.Parse, RequestCodec.Meant, RequestCodec.Serialize, Screen;
    UncheckedIff(h.opcode);
    if RequestCodec.Parse(h.opcode, se.ext, data).Parsed? {
      ScreenedOtherwise(se, h, data);
    }
  }

  lemma UncheckedIff(opcode: nat)
    ensures opcode in UNCHECKED <==> exists op: Abi.Op | OfTheKernel(op) :: Abi.Is(opcode, op)
  {
    if opcode in UNCHECKED {
      var op := match opcode
        case 2 => Abi.Forget
        case 15 => Abi.Read
        case 16 => Abi.Write
        case 18 => Abi.Release
        case 20 => Abi.FSync
        case 26 => Abi.Init
        case 28 => Abi.ReadDir
        case 29 => Abi.ReleaseDir
        case 30 => Abi.FSyncDir
        case 38 => Abi.Destroy
        case 42 => Abi.BatchForget
        case _ => Abi.ReadDirPlus;
      assert OfTheKernel(op) && Abi.Is(opcode, op);
    }
  }

  lemma ScreenedOtherwise(se: Session, h: RequestCodec.InHeader, data: seq<byte>)
    requires RequestCodec.Parse(h.opcode, se.ext, data).Parsed?
    ensures var op := RequestCodec.Parse(h.opcode, se.ext, data).op;
            RequestCodec.Meant(op, se.ext) && Screen(op, se.ext) != Refuse(EACCES)
  {
    hide RequestCodec.Parse;
    RequestCodec.SerializeParse(h.opcode, se.ext, data);
  }

  // ----- Replies -----

  /** The device, seen from this side: what was written to it, and every reply object that was
      ever made to write to it. */
  class Channel {
    var sent: seq<Framing.Message>
    ghost var issued: set<ReplyRaw>

    constructor ()
      ensures sent == [] && issued == {}
    {
      sent := [];
      issued := {};
    }

    method Send(m: Framing.Message)
      modifies `sent
      ensures sent == old(sent) + [m]
    {
      sent := sent + [m];
    }
  }

  /** A reply that can be sent once. Giving it up unsent answers with EIO. */
  class ReplyRaw {
    const unique: nat
    var sender: Channel?

    constructor (unique: nat, sender: Channel)
      modifies sender`issued
      ensures this.unique == unique && this.sender == sender && sender.issued == old(sender.issued) + {this}
    {
      this.unique := unique;
      this.sender := sender;
      new;
      sender.issued := sender.issued + {this};
    }

    method SendLlMut(errno: nat, body: seq<byte>)
      requires sender != null
      modifies this, sender`sent
      ensures sender == null && old(sender).sent == old(sender.sent) + [Framing.Reply(unique, errno, body)]
    {
      var ch := sender;
      sender := null;
      ch.Send(Framing.Reply(unique, errno, body));
    }

    /** Whether or not it was used, afterwards it is, and by nobody twice. */
    method Drop()
      modifies this, sender
      ensures sender == null
      ensures old(sender) != null ==> old(sender).issued == old(sender.issued)
      ensures old(sender) != null ==> old(sender).sent == old(sender.sent) + [Framing.Reply(unique, Framing.EIO, [])]
    {
      if sender != null {
        SendLlMut(Framing.EIO, []);
      }
    }

    /** Sending takes the reply out of its owner's hands, so it is dropped right after. */
    method SendLl(errno: nat, body: seq<byte>)
      requires sender != null
      modifies this, sender`sent
      ensures sender == null && old(sender).sent == old(sender.sent) + [Framing.Reply(unique, errno, body)]
    {
      SendLlMut(errno, body);
      Drop();
    }
  }

  // ----- Whose request it is -----

  /** The header as the filesystem sees it: on an idmapped mount, without the caller's ids. */
  function Masked(se: Session, h: RequestCodec.InHeader): RequestCodec.InHeader {
    if se.idmap then h.(uid := FUSE_INVALID_UIDGID, gid := FUSE_INVALID_UIDGID) else h
  }

  datatype Ids = Nobody | Ids(uid: nat, gid: nat)

  /** The caller as `uid` and `gid` of a request report it. */
  function Caller(h: RequestCodec.InHeader): Ids {
    if h.uid == FUSE_INVALID_UIDGID || h.gid == FUSE_INVALID_UIDGID then Nobody else Ids(h.uid, h.gid)
  }

  /** Who owns what a request creates: always the ids on the wire. */
  function CreationOwner(h: RequestCodec.InHeader): Ids { Ids(h.uid, h.gid) }

  /** The owner of the whiteout a rename leaves behind. */
  function WhiteoutOwner(h: RequestCodec.InHeader, whiteout: bool): Ids {
    if !whiteout then Nobody
    else
      var owner := CreationOwner(h);
      if owner.uid != FUSE_INVALID_UIDGID && owner.gid != FUSE_INVALID_UIDGID then owner else Nobody
  }

  predicate Withheld(h: RequestCodec.InHeader) { h.uid == 0xFFFF_FFFF || h.gid == 0xFFFF_FFFF }

  /** On an idmapped mount a filesystem cannot take an owner for a caller: it sees no caller at
      all, while what it creates still gets the owner on the wire, and so does a whiteout.
      Elsewhere callers and owners are the ids on the wire, unless the kernel withheld them. */
  lemma OwnersAndCallers(se: Session, h: RequestCodec.InHeader, whiteout: bool)
    ensures Caller(Masked(se, h)) == if se.idmap || Withheld(h) then Nobody else Ids(h.uid, h.gid)
    ensures CreationOwner(h) == Ids(h.uid, h.gid)
    ensures WhiteoutOwner(h, whiteout) == if whiteout && !Withheld(h) then Ids(h.uid, h.gid) else Nobody
    ensures Masked(se, h).(uid := h.uid, gid := h.gid) == h
  {
  }

  /** What serving a request may make: one reply object, which is handed out, exactly when
      that is the decision — and otherwise none at all, not even one that is given up again. */
  twostate predicate Issues(d: Decision, unique: nat, ch: Channel, new handed: ReplyRaw?)
    reads ch, handed
  {
    && (handed != null <==> d == HandOut)
    && (handed != null ==> fresh(handed) && handed.unique == unique && handed.sender == ch)
    && ch.issued == old(ch.issued) + (if handed != null then {handed} else {})
  }

  /** Every error, and every panic, comes before the reply object exists: offsets and input are
      checked while the filesystem's other arguments are evaluated, the reply is the last. */
  method Serve(op: RequestCodec.Operation, ext: bool, unique: nat, ch: Channel)
    returns (d: Decision, handed: ReplyRaw?)
    requires RequestCodec.Meant(op, ext)
    modifies ch`issued
    ensures d == Screen(op, ext) && Issues(d, unique, ch, handed)
  {
    hide Get;
    match op.opcode {
      case 26 =>
        return Refuse(Framing.EIO), null;
      case 38 =>
        return Refuse(Framing.EIO), null;
      case 36 =>
        return Refuse(ENOSYS), null;
      case 41 =>
        return Refuse(ENOSYS), null;
      case 4096 =>
        return Refuse(ENOSYS), null;
      case 2 =>
        return NoReply, null;
      case 42 =>
        return NoReply, null;
      case 21 =>
        if ext && RequestCodec.Field32(op.args[1], 0) != 0 {
          return Refuse(ENOTSUP), null;
        }
      case 39 =>
        if RequestCodec.Field32(op.args[0], 8) / 2 % 2 == 1 {
          return Refuse(ENOSYS), null;
        }
        if RequestCodec.Field32(op.args[0], 24) > |op.tail| {
          return Stop, null;
        }
      case 15 =>
        if BadOffset(Field64(op.args[0], 8)) {
          return Refuse(EINVAL), null;
        }
      case 16 =>
        if BadOffset(Field64(op.args[0], 8)) {
          return Refuse(EINVAL), null;
        }
      case 43 =>
        if BadOffset(Field64(op.args[0], 8)) {
          return Refuse(EINVAL), null;
        }
        if BadOffset(Field64(op.args[0], 16)) {
          return Refuse(EINVAL), null;
        }
      case 47 =>
        if BadOffset(Field64(op.args[0], 8)) {
          return Refuse(EINVAL), null;
        }
        if BadOffset(Field64(op.args[0], 32)) {
          return Refuse(EINVAL), null;
        }
      case _ =>
    }
    handed := new ReplyRaw(unique, ch);
    return HandOut, handed;
  }

  method DispatchReq(se: Session, h: RequestCodec.InHeader, data: seq<byte>, ch: Channel)
    returns (d: Decision, handed: ReplyRaw?)
    modifies ch`issued
    ensures d == Decide(se, h, data) && Issues(d, h.unique, ch, handed)
    ensures d == Refuse(EACCES) <==> TurnedAway(se, h, data)
    ensures TurnedAway(se, h, data) ==> handed == null && ch.issued == old(ch.issued)
  {
    hide RequestCodec.Parse, RequestCodec.Serialize, RequestCodec.Meant, Screen, TurnedAway;
    TurnedAwayIff(se, h, data);
    match RequestCodec.Parse(h.opcode, se.ext, data) {
      case Stopped =>
        return Stop, null;
      case Unknown =>
        return Refuse(ENOSYS), null;
      case Insufficient =>
        return Refuse(ENOSYS), null;
      case Parsed(op) =>
        RequestCodec.SerializeParse(h.opcode, se.ext, data);
        if (se.acl == RootAndOwner && h.uid != se.owner && h.uid != ROOT_UID) || (se.acl == Owner && h.uid != se.owner) {
          if op.opcode !in UNCHECKED {
            return Refuse(EACCES), null;
          }
        }
        if !se.filesystem {
          return Refuse(Framing.EIO), null;
        }
        d, handed := Serve(op, se.ext, h.unique, ch);
    }
  }

  /** Of the reply objects made since, one at most is outstanding, and that is the one handed
      out; the others have been used. */
  twostate predicate Settled(ch: Channel, new handed: seq<ReplyRaw>)
    reads ch, ch.issued
  {
    && old(ch.issued) <= ch.issued
    && forall r | r in ch.issued && r !in old(ch.issued) :: r in handed || r.sender == null
  }

  /** One request: a refusal is answered here, and otherwise the channel is left alone. */
  method DispatchOne(se: Session, h: RequestCodec.InHeader, data: seq<byte>, ch: Channel)
    returns (d: Decision, handed: ReplyRaw?)
    modifies ch
    ensures d == Decide(se, h, data) && (handed != null <==> d == HandOut)
    ensures handed != null ==> fresh(handed) && handed.unique == h.unique && handed.sender == ch
    ensures ch.sent == old(ch.sent) + if d.Refuse? then [Framing.Reply(h.unique, d.errno, [])] else []
    ensures Settled(ch, if handed != null then [handed] else [])
  {
    hide Decide;
    d, handed := DispatchReq(se, h, data, ch);
    if d.Refuse? {
      var reply := new ReplyRaw(h.unique, ch);
      reply.SendLl(d.errno, []);
    }
  }

  // ----- The event loop -----

  /** What a read of the device can come back with. Gone is ENODEV or ECONNABORTED, Again is
      ENOENT, EINTR or EAGAIN. */
  datatype Input = Packet(bytes: seq<byte>) | Again | Gone | Failed(errno: nat)

  datatype End = Running | Finished | Invalid | Error(errno: nat) | Panicked

  predicate IsDestroy(se: Session, h: RequestCodec.InHeader, data: seq<byte>) {
    h.opcode == 38 && RequestCodec.Parse(h.opcode, se.ext, data).Parsed?
  }

  /** What one input does to a loop, what is sent for it, and whose reply is handed out. */
  datatype Effect = Effect(end: End, sent: seq<Framing.Message>, handed: seq<nat>)

  function Reaction(se: Session, h: RequestCodec.InHeader, data: seq<byte>): Effect {
    if IsDestroy(se, h, data) then Effect(Finished, [Framing.Reply(h.unique, 0, [])], [])
    else
      match Decide(se, h, data)
      case Stop => Effect(Panicked, [], [])
      case Refuse(e) => Effect(Running, [Framing.Reply(h.unique, e, [])], [])
      case HandOut => Effect(Running, [], [h.unique])
      case NoReply => Effect(Running, [], [])
  }

  function React(se: Session, i: Input): Effect {
    match i
    case Again => Effect(Running, [], [])
    case Gone => Effect(Finished, [], [])
    case Failed(e) => Effect(Error(e), [], [])
    case Packet(bytes) =>
      match RequestCodec.TryFrom(bytes)
      case ShortReadHeader => Effect(Invalid, [], [])
      case ShortRead(_, _) => Effect(Invalid, [], [])
      case Overrun => Effect(Panicked, [], [])
      case Request(h, data) => Reaction(se, h, data)
  }

  /** The effects of a whole run of inputs, up to the one that ends the loop. */
  function Loop(se: Session, inputs: seq<Input>): Effect {
    if inputs == [] then Effect(Running, [], [])
    else
      var one := React(se, inputs[0]);
      if one.end != Running then one
      else
        var more := Loop(se, inputs[1..]);
        Effect(more.end, one.sent + more.sent, one.handed + more.handed)
  }

  lemma {:induction false} LoopTakes(se: Session, inputs: seq<Input>, i: Input)
    ensures var before := Loop(se, inputs);
            Loop(se, inputs + [i]) == if before.end != Running then before
                                      else Effect(React(se, i).end, before.sent + React(se, i).sent,
                                                  before.handed + React(se, i).handed)
  {
    hide React;
    if inputs == [] {
      assert [i][1..] == [];
    } else {
      assert (inputs + [i])[1..] == inputs[1..] + [i];
      LoopTakes(se, inputs[1..], i);
    }
  }

  lemma LoopBegins(se: Session)
    ensures Loop(se, []) == Effect(Running, [], [])
  {
  }

  lemma {:induction false} LoopStops(se: Session, inputs: seq<Input>, n: nat)
    requires n <= |inputs| && Loop(se, inputs[..n]).end != Running
    ensures Loop(se, inputs) == Loop(se, inputs[..n])
  {
    hide React;
    if n > 0 {
      assert inputs[..n][1..] == inputs[1..][..n - 1];
      if React(se, inputs[0]).end == Running {
        LoopStops(se, inputs[1..], n - 1);
      }
    }
  }

  function Uniques(handed: seq<ReplyRaw>): seq<nat> {
    seq(|handed|, k requires 0 <= k < |handed| => handed[k].unique)
  }

  /** A loop over the inputs the device delivers. `handed` are the replies now in the
      filesystem's hands, unsent. */
  method EventLoop(se: Session, inputs: seq<Input>, ch: Channel) returns (end: End, handed: seq<ReplyRaw>)
    modifies ch
    ensures end == Loop(se, inputs).end && Uniques(handed) == Loop(se, inputs).handed
    ensures ch.sent == old(ch.sent) + Loop(se, inputs).sent
    ensures forall k | 0 <= k < |handed| :: fresh(handed[k]) && handed[k].sender == ch
    ensures Settled(ch, handed)
  {
    hide Loop, React;
    handed := [];
    ghost var sent := [];
    var i := 0;
    assert inputs[..0] == [];
    LoopBegins(se);
    while i < |inputs|
      invariant i <= |inputs|
      invariant Loop(se, inputs[..i]) == Effect(Running, sent, Uniques(handed))
      invariant ch.sent == old(ch.sent) + sent
      invariant forall k | 0 <= k < |handed| :: fresh(handed[k]) && handed[k].sender == ch
      invariant Settled(ch, handed)
    {
      assert inputs[..i + 1] == inputs[..i] + [inputs[i]];
      LoopTakes(se, inputs[..i], inputs[i]);
      var reply;
      end, reply := Step(se, inputs[i], ch);
      ghost var before := Uniques(handed);
      if reply != null {
        handed := handed + [reply];
      }
      assert Uniques(handed) == before + React(se, inputs[i]).handed;
      sent := sent + React(se, inputs[i]).sent;
      i := i + 1;
      if end != Running {
        LoopStops(se, inputs, i);
        return;
      }
    }
    assert inputs[..i] == inputs;
    return Running, handed;
  }

  /** One turn of the loop. A destroy is answered here and ends it. */
  method Step(se: Session, input: Input, ch: Channel) returns (end: End, handed: ReplyRaw?)
    modifies ch
    ensures end == React(se, input).end && ch.sent == old(ch.sent) + React(se, input).sent
    ensures React(se, input).handed == if handed == null then [] else [handed.unique]
    ensures handed != null ==> fresh(handed) && handed.sender == ch
    ensures Settled(ch, if handed != null then [handed] else [])
  {
    hide Decide, RequestCodec.Parse, RequestCodec.TryFrom;
    handed := null;
    match input {
      case Again =>
        return Running, null;
      case Gone =>
        return Finished, null;
      case Failed(e) =>
        return Error(e), null;
      case Packet(bytes) =>
        match RequestCodec.TryFrom(bytes) {
          case ShortReadHeader =>
            return Invalid, null;
          case ShortRead(_, _) =>
            return Invalid, null;
          case Overrun =>
            return Panicked, null;
          case Request(h, data) =>
            if IsDestroy(se, h, data) {
              var reply := new ReplyRaw(h.unique, ch);
              reply.SendLl(0, []);
              return Finished, null;
            }
            var d;
            d, handed := DispatchOne(se, h, data, ch);
            return if d == Stop then Panicked else Running, handed;
        }
    }
  }
}
