/** The messages written back to the kernel: replies to requests and notifications nobody
    asked for share one header and one channel. */
module Framing {
  import opened FileContents
  import opened LittleEndian
  import opened Options

  const OUT_HEADER_SIZE: nat := 16
  const EIO: nat := 5

  // ----- Gathering a payload -----

  /** How a response nests the pieces of its payload. */
  datatype Payload =
    | Slices(slices: seq<seq<byte>>)
    | Pair(first: Payload, second: Payload)
    | Maybe(payload: Option<Payload>)

  function IterSlices(p: Payload): seq<seq<byte>> {
    match p
    case Slices(s) => s
    case Pair(a, b) => IterSlices(a) + IterSlices(b)
    case Maybe(None) => []
    case Maybe(Some(a)) => IterSlices(a)
  }

  /** The bytes a payload stands for, however it is cut into slices. */
  function Bytes(p: Payload): seq<byte> {
    match p
    case Slices(s) => Joined(s)
    case Pair(a, b) => Bytes(a) + Bytes(b)
    case Maybe(None) => []
    case Maybe(Some(a)) => Bytes(a)
  }

  function Joined(slices: seq<seq<byte>>): seq<byte> {
    if slices == [] then [] else slices[0] + Joined(slices[1..])
  }

  lemma {:induction false} JoinedAppend(a: seq<seq<byte>>, b: seq<seq<byte>>)
    ensures Joined(a + b) == Joined(a) + Joined(b)
  {
    if a == [] {
      assert a + b == b;
    } else {
      assert (a + b)[1..] == a[1..] + b;
      JoinedAppend(a[1..], b);
    }
  }

  /** The iterator over a nested payload yields exactly its bytes, in order. */
  lemma {:induction false} IterSlicesJoin(p: Payload)
    ensures Joined(IterSlices(p)) == Bytes(p)
  {
    match p
    case Slices(_) =>
    case Pair(a, b) =>
      IterSlicesJoin(a);
      IterSlicesJoin(b);
      JoinedAppend(IterSlices(a), IterSlices(b));
    case Maybe(None) =>
    case Maybe(Some(a)) =>
      IterSlicesJoin(a);
  }

  /** The checked sum of the slices' lengths; None is the overflow that stops the program. */
  method SumLen(slices: seq<seq<byte>>) returns (r: Option<nat>)
    ensures r == if |Joined(slices)| < TWO_TO_THE_64 then Some(|Joined(slices)|) else None
  {
    var sum := 0;
    for i := 0 to |slices|
      invariant sum == |Joined(slices[..i])| < TWO_TO_THE_64
    {
      assert slices[..i + 1] == slices[..i] + [slices[i]] && slices == slices[..i + 1] + slices[i + 1..];
      JoinedAppend(slices[..i], [slices[i]]);
      JoinedAppend(slices[..i + 1], slices[i + 1..]);
      if sum + |slices[i]| >= TWO_TO_THE_64 {
        return None;
      }
      sum := sum + |slices[i]|;
    }
    assert slices[..|slices|] == slices;
    return Some(sum);
  }

  /** Up to two slices are passed on as they are, more are collected; either way it is the
      same list. */
  method WithIoslice(slices: seq<seq<byte>>) returns (v: seq<seq<byte>>)
    ensures v == slices
  {
    if |slices| == 0 {
      return [];
    }
    var x0 := slices[0];
    if |slices| == 1 {
      return [x0];
    }
    var x1 := slices[1];
    if |slices| == 2 {
      return [x0, x1];
    }
    var x2 := slices[2];
    return [x0, x1, x2] + slices[3..];
  }

  // ----- The header -----

  function Frame(unique: nat, error: int, body: seq<byte>): seq<byte>
    requires FitsSigned(error, 4)
  {
    Put(OUT_HEADER_SIZE + |body|, 4) + (PutSigned(error, 4) + (Put(unique, 8) + body))
  }

  predicate TooLong(body: seq<byte>) { OUT_HEADER_SIZE + |body| >= TWO_TO_THE_32 }

  predicate IsErrno(e: nat) { 0 < e < 0x8000_0000 }

  /** Whatever number a filesystem comes up with, the error it stands for is positive. */
  function FromI32(err: int): (e: nat)
    requires -0x8000_0000 <= err < 0x8000_0000
    ensures IsErrno(e) && (err > 0 ==> e == err)
  {
    if err > 0 then err else EIO
  }

  lemma ErrorFits(error: int)
    requires -0x8000_0000 < error < 0x8000_0000
    ensures FitsSigned(error, 4)
  {
  }

  lemma FrameIs(unique: nat, error: int, body: seq<byte>)
    requires FitsSigned(error, 4)
    ensures Frame(unique, error, body) == Put(OUT_HEADER_SIZE + |body|, 4) + PutSigned(error, 4) + Put(unique, 8) + body
  {
  }

  lemma JoinedOne(slice: seq<byte>)
    ensures Joined([slice]) == slice
  {
  }

  datatype Response = Response(errno: Option<nat>, payload: Payload)

  function ErrorField(r: Response): int { if r.errno.Some? then 0 - r.errno.value else 0 }

  /** The vector a response is sent as. None is the stop on a length that does not fit the
      header; otherwise the header leads and the length it states is that of what follows. */
  method ResponseIovec(unique: nat, r: Response) returns (v: Option<seq<seq<byte>>>)
    requires unique < TWO_TO_THE_64 && (r.errno.Some? ==> IsErrno(r.errno.value))
    ensures FitsSigned(ErrorField(r), 4)
    ensures v == None <==> TooLong(Bytes(r.payload))
    ensures v.Some? ==> v.value != [] && |v.value[0]| == OUT_HEADER_SIZE
                        && Joined(v.value) == Frame(unique, ErrorField(r), Bytes(r.payload))
  {
    hide Joined, Put, PutSigned, IterSlices, Bytes;
    ErrorFits(ErrorField(r));
    IterSlicesJoin(r.payload);
    var len := SumLen(IterSlices(r.payload));
    if len == None || OUT_HEADER_SIZE + len.value >= TWO_TO_THE_32 {
      return None;
    }
    SignedLength(ErrorField(r), 4);
    var header := Put(OUT_HEADER_SIZE + len.value, 4) + PutSigned(ErrorField(r), 4) + Put(unique, 8);
    JoinedAppend([header], IterSlices(r.payload));
    JoinedOne(header);
    FrameIs(unique, ErrorField(r), Bytes(r.payload));
    var slices := WithIoslice([header] + IterSlices(r.payload));
    return Some(slices);
  }

  // ----- Notifications -----

  datatype Notification =
    | Poll(kh: nat)
    | InvalInode(ino: nat, off: int, len: int)
    | InvalEntry(parent: nat, name: seq<byte>, flags: nat)
    | Store(ino: nat, offset: nat, data: seq<byte>)
    | Delete(parent: nat, child: nat, name: seq<byte>)
    | IncEpoch

  datatype Raw = Bare(buf: seq<byte>) | WithData(buf: seq<byte>, data: seq<byte>) | WithName(buf: seq<byte>, name: seq<byte>)

  function Code(n: Notification): (code: nat)
    ensures 0 < code <= 8
  {
    match n
    case Poll(_) => 1
    case InvalInode(_, _, _) => 2
    case InvalEntry(_, _, _) => 3
    case Store(_, _, _) => 4
    case Delete(_, _, _) => 6
    case IncEpoch => 8
  }

  /** The fields fit the widths they are sent in. */
  predicate FieldsFit(n: Notification) {
    match n
    case Poll(kh) => kh < TWO_TO_THE_64
    case InvalInode(ino, off, len) => ino < TWO_TO_THE_64 && FitsSigned(off, 8) && FitsSigned(len, 8)
    case InvalEntry(parent, _, flags) => parent < TWO_TO_THE_64 && flags < TWO_TO_THE_32
    case Store(ino, offset, _) => ino < TWO_TO_THE_64 && offset < TWO_TO_THE_64
    case Delete(parent, child, _) => parent < TWO_TO_THE_64 && child < TWO_TO_THE_64
    case IncEpoch => true
  }

  /** None when a length does not fit its 32-bit field. */
  function Build(n: Notification): Option<Raw>
    requires FieldsFit(n)
  {
    match n
    case Poll(kh) => Some(Bare(Put(kh, 8)))
    case InvalInode(ino, off, len) => Some(Bare(Put(ino, 8) + (PutSigned(off, 8) + PutSigned(len, 8))))
    case InvalEntry(parent, name, flags) =>
      if |name| >= TWO_TO_THE_32 then None
      else Some(WithName(Put(parent, 8) + (Put(|name|, 4) + Put(flags, 4)), name))
    case Store(ino, offset, data) =>
      if |data| >= TWO_TO_THE_32 then None
      else Some(WithData(Put(ino, 8) + (Put(offset, 8) + (Put(|data|, 4) + Put(0, 4))), data))
    case Delete(parent, child, name) =>
      if |name| >= TWO_TO_THE_32 then None
      else Some(WithName(Put(parent, 8) + (Put(child, 8) + (Put(|name|, 4) + Put(0, 4))), name))
    case IncEpoch => Some(Bare([]))
  }

  function RawBytes(raw: Raw): seq<byte> {
    match raw
    case Bare(b) => b
    case WithData(b, d) => b + d
    case WithName(b, n) => b + (n + [0])
  }

  /** The vector a notification is sent as, under request number zero and with its code in
      the place of an error. */
  method NotificationIovec(raw: Raw, code: nat) returns (v: Option<seq<seq<byte>>>)
    requires 0 < code <= 8
    ensures FitsSigned(code, 4)
    ensures v == None <==> TooLong(RawBytes(raw))
    ensures v.Some? ==> Joined(v.value) == Frame(0, code, RawBytes(raw))
  {
    hide Joined, Put, PutSigned;
    ErrorFits(code);
    var datalen := match raw
      case Bare(b) => |b|
      case WithData(b, d) => |b| + |d|
      case WithName(b, n) => |b| + |n| + 1;
    if OUT_HEADER_SIZE + datalen >= TWO_TO_THE_32 {
      return None;
    }
    var header := Put(OUT_HEADER_SIZE + datalen, 4) + PutSigned(code, 4) + Put(0, 8);
    var slices := [header];
    match raw {
      case Bare(b) =>
        slices := slices + [b];
      case WithData(b, d) =>
        slices := slices + [b];
        slices := slices + [d];
      case WithName(b, n) =>
        slices := slices + [b];
        slices := slices + [n];
        slices := slices + [[0]];
    }
    JoinedShort(header, raw);
    FrameIs(0, code, RawBytes(raw));
    return Some(slices);
  }

  lemma JoinedShort(header: seq<byte>, raw: Raw)
    ensures match raw
            case Bare(b) => Joined([header] + [b]) == header + RawBytes(raw)
            case WithData(b, d) => Joined([header] + [b] + [d]) == header + RawBytes(raw)
            case WithName(b, n) => Joined([header] + [b] + [n] + [[0]]) == header + RawBytes(raw)
  {
    hide Joined;
    JoinedOne(header);
    JoinedOne(raw.buf);
    JoinedAppend([header], [raw.buf]);
    match raw
    case Bare(b) =>
    case WithData(b, d) =>
      JoinedOne(d);
      JoinedAppend([header] + [b], [d]);
    case WithName(b, n) =>
      JoinedOne(n);
      JoinedOne([0]);
      JoinedAppend([header] + [b], [n]);
      JoinedAppend([header] + [b] + [n], [[0]]);
      assert header + b + n + [0] == header + (b + (n + [0]));
  }

  // ----- The kernel's side -----

  /** What one write says. Errno zero is success. */
  datatype Message = Reply(unique: nat, errno: nat, body: seq<byte>) | Notice(n: Notification)

  predicate Sendable(m: Message) {
    match m
    case Reply(unique, errno, body) => unique < TWO_TO_THE_64 && errno < 0x8000_0000 && !TooLong(body)
    case Notice(n) => FieldsFit(n) && Build(n).Some? && !TooLong(RawBytes(Build(n).value))
  }

  function Write(m: Message): seq<byte>
    requires Sendable(m)
  {
    match m
    case Reply(unique, errno, body) => ErrorFits(0 - errno); Frame(unique, 0 - errno, body)
    case Notice(n) => ErrorFits(Code(n)); Frame(0, Code(n), RawBytes(Build(n).value))
  }

  function ReadNotice(code: int, b: seq<byte>): Option<Notification> {
    match code
    case 1 =>
      if |b| == 8 then Some(Poll(Get(b))) else None
    case 2 =>
      if |b| == 24 then Some(InvalInode(Get(b[..8]), GetSigned(b[8..][..8]), GetSigned(b[8..][8..]))) else None
    case 3 =>
      if |b| < 16 then None
      else
        var tail := b[8..];
        var name := b[16..];
        if |name| != Get(tail[..4]) + 1 || name[|name| - 1] != 0 then None
        else Some(InvalEntry(Get(b[..8]), name[..|name| - 1], Get(tail[4..][..4])))
    case 4 =>
      if |b| < 24 then None
      else
        var tail := b[16..];
        var data := b[24..];
        if |data| != Get(tail[..4]) then None else Some(Store(Get(b[..8]), Get(b[8..][..8]), data))
    case 6 =>
      if |b| < 24 then None
      else
        var tail := b[16..];
        var name := b[24..];
        if |name| != Get(tail[..4]) + 1 || name[|name| - 1] != 0 then None
        else Some(Delete(Get(b[..8]), Get(b[8..][..8]), name[..|name| - 1]))
    case 8 =>
      if b == [] then Some(IncEpoch) else None
    case _ => None
  }

  /** One message off the front of the stream. A request number of zero marks a notification,
      and no reply carries a positive error. */
  function Read(b: seq<byte>): Option<(Message, seq<byte>)> {
    if |b| < OUT_HEADER_SIZE then None
    else
      var len := Get(b[..4]);
      var error := GetSigned(b[4..][..4]);
      var unique := Get(b[4..][4..][..8]);
      if len < OUT_HEADER_SIZE || len > |b| then None
      else
        var body := b[OUT_HEADER_SIZE..len];
        if unique == 0 then
          match ReadNotice(error, body)
          case None => None
          case Some(n) => Some((Notice(n), b[len..]))
        else if error > 0 then None
        else Some((Reply(unique, -error, body), b[len..]))
  }

  function ReadAll(b: seq<byte>): Option<seq<Message>>
    decreases |b|
  {
    if b == [] then Some([])
    else
      match Read(b)
      case None => None
      case Some((m, rest)) =>
        if |rest| >= |b| then None
        else
          match ReadAll(rest)
          case None => None
          case Some(ms) => Some([m] + ms)
  }

  function WriteAll(ms: seq<Message>): seq<byte>
    requires forall k | 0 <= k < |ms| :: Sendable(ms[k])
  {
    if ms == [] then [] else Write(ms[0]) + WriteAll(ms[1..])
  }

  lemma Parts(a: seq<byte>, b: seq<byte>)
    ensures (a + b)[..|a|] == a && (a + b)[|a|..] == b
  {
  }

  /** The header's own length field, error and request number read back, and the body is cut
      out exactly. */
  lemma ReadFrame(unique: nat, error: int, body: seq<byte>, rest: seq<byte>)
    requires unique < TWO_TO_THE_64 && FitsSigned(error, 4) && !TooLong(body)
    ensures var b := Frame(unique, error, body) + rest;
            && |b| == OUT_HEADER_SIZE + |body| + |rest| && Get(b[..4]) == OUT_HEADER_SIZE + |body|
            && GetSigned(b[4..][..4]) == error && Get(b[4..][4..][..8]) == unique
            && b[OUT_HEADER_SIZE..OUT_HEADER_SIZE + |body|] == body && b[OUT_HEADER_SIZE + |body|..] == rest
  {
    hide Put, Get, GetSigned, PutSigned;
    var len := OUT_HEADER_SIZE + |body|;
    var b := Frame(unique, error, body) + rest;
    var after := Put(unique, 8) + (body + rest);
    SignedLength(error, 4);
    assert b == Put(len, 4) + (PutSigned(error, 4) + after);
    Parts(Put(len, 4), PutSigned(error, 4) + after);
    Parts(PutSigned(error, 4), after);
    Parts(Put(unique, 8), body + rest);
    GetPut32(len);
    GetPutSigned(error, 4);
    GetPut64(unique);
    assert b[OUT_HEADER_SIZE..] == body + rest by {
      assert b == Put(len, 4) + PutSigned(error, 4) + Put(unique, 8) + (body + rest);
    }
  }

  // One by one, the notifications with a body read back.

  lemma ReadInvalInode(n: Notification)
    requires n.InvalInode? && FieldsFit(n)
    ensures ReadNotice(2, RawBytes(Build(n).value)) == Some(n)
  {
    hide Put, Get, GetSigned, PutSigned;
    GetPut64(n.ino);
    GetPutSigned(n.off, 8);
    GetPutSigned(n.len, 8);
    SignedLength(n.off, 8);
    SignedLength(n.len, 8);
    Parts(Put(n.ino, 8), PutSigned(n.off, 8) + PutSigned(n.len, 8));
    Parts(PutSigned(n.off, 8), PutSigned(n.len, 8));
  }

  lemma ReadInvalEntry(n: Notification)
    requires n.InvalEntry? && FieldsFit(n) && Build(n).Some?
    ensures ReadNotice(3, RawBytes(Build(n).value)) == Some(n)
  {
    hide Put, Get, GetSigned, PutSigned;
    var b, rest := RawBytes(Build(n).value), n.name + [0];
    GetPut64(n.parent);
    GetPut32(|n.name|);
    GetPut32(n.flags);
    assert b == Put(n.parent, 8) + (Put(|n.name|, 4) + (Put(n.flags, 4) + rest));
    Parts(Put(n.parent, 8), Put(|n.name|, 4) + (Put(n.flags, 4) + rest));
    Parts(Put(|n.name|, 4), Put(n.flags, 4) + rest);
    Parts(Put(n.flags, 4), rest);
    assert b[16..] == rest;
  }

  lemma ReadStore(n: Notification)
    requires n.Store? && FieldsFit(n) && Build(n).Some?
    ensures ReadNotice(4, RawBytes(Build(n).value)) == Some(n)
  {
    hide Put, Get, GetSigned, PutSigned;
    var b, rest := RawBytes(Build(n).value), Put(0, 4) + n.data;
    GetPut64(n.ino);
    GetPut64(n.offset);
    GetPut32(|n.data|);
    assert b == Put(n.ino, 8) + (Put(n.offset, 8) + (Put(|n.data|, 4) + rest));
    Parts(Put(n.ino, 8), Put(n.offset, 8) + (Put(|n.data|, 4) + rest));
    Parts(Put(n.offset, 8), Put(|n.data|, 4) + rest);
    Parts(Put(|n.data|, 4), rest);
    assert b[16..] == Put(|n.data|, 4) + rest && b[24..] == n.data;
  }

  lemma ReadDelete(n: Notification)
    requires n.Delete? && FieldsFit(n) && Build(n).Some?
    ensures ReadNotice(6, RawBytes(Build(n).value)) == Some(n)
  {
    hide Put, Get, GetSigned, PutSigned;
    var b, rest := RawBytes(Build(n).value), Put(0, 4) + (n.name + [0]);
    GetPut64(n.parent);
    GetPut64(n.child);
    GetPut32(|n.name|);
    assert b == Put(n.parent, 8) + (Put(n.child, 8) + (Put(|n.name|, 4) + rest));
    Parts(Put(n.parent, 8), Put(n.child, 8) + (Put(|n.name|, 4) + rest));
    Parts(Put(n.child, 8), Put(|n.name|, 4) + rest);
    Parts(Put(|n.name|, 4), rest);
    assert b[16..] == Put(|n.name|, 4) + rest && b[24..] == n.name + [0];
  }

  lemma ReadNoticeBack(n: Notification)
    requires FieldsFit(n) && Build(n).Some?
    ensures ReadNotice(Code(n), RawBytes(Build(n).value)) == Some(n)
  {
    match n
    case Poll(kh) => GetPut64(kh);
    case InvalInode(_, _, _) => ReadInvalInode(n);
    case InvalEntry(_, _, _) => ReadInvalEntry(n);
    case Store(_, _, _) => ReadStore(n);
    case Delete(_, _, _) => ReadDelete(n);
    case IncEpoch =>
  }

  /** A message is read back exactly, unless it is a reply to request number zero, which no
      reader could tell from a notification. */
  lemma ReadWrite(m: Message, rest: seq<byte>)
    requires Sendable(m)
    ensures Read(Write(m) + rest) == Some((m, rest)) <==> !(m.Reply? && m.unique == 0)
    ensures |Write(m)| >= OUT_HEADER_SIZE && Get(Write(m)[..4]) == |Write(m)|
    ensures m.Reply? ==> GetSigned(Write(m)[4..][..4]) == 0 - m.errno
  {
    hide Put, Get, GetSigned, PutSigned, ReadNotice, Build, RawBytes;
    match m {
      case Reply(unique, errno, body) =>
        ErrorFits(0 - errno);
        ReadFrame(unique, 0 - errno, body, rest);
        ReadFrame(unique, 0 - errno, body, []);
      case Notice(n) =>
        ErrorFits(Code(n));
        ReadFrame(0, Code(n), RawBytes(Build(n).value), rest);
        ReadFrame(0, Code(n), RawBytes(Build(n).value), []);
        ReadNoticeBack(n);
    }
    assert Write(m) + [] == Write(m);
  }

  /** The message a response amounts to: its errno, or zero for success, and its bytes. */
  function MessageOf(unique: nat, r: Response): Message {
    Reply(unique, match r.errno
                  case None => 0
                  case Some(e) => e, Bytes(r.payload))
  }

  /** What a response is framed as is read back as it: the errno comes through the sign it is
      sent with. */
  lemma ResponseIsRead(unique: nat, r: Response)
    requires 0 < unique < TWO_TO_THE_64 && (r.errno.Some? ==> IsErrno(r.errno.value)) && !TooLong(Bytes(r.payload))
    ensures FitsSigned(ErrorField(r), 4)
    ensures Read(Frame(unique, ErrorField(r), Bytes(r.payload))) == Some((MessageOf(unique, r), []))
  {
    hide Put, Get, GetSigned, PutSigned, Bytes;
    var m := MessageOf(unique, r);
    ErrorFits(ErrorField(r));
    ErrorFits(0 - m.errno);
    ReadWrite(m, []);
    assert Write(m) + [] == Write(m);
    hide Read;
  }

  /** The whole stream of replies and notifications decodes to what was sent, in order. */
  lemma {:induction false} StreamRoundTrip(ms: seq<Message>)
    requires forall k | 0 <= k < |ms| :: Sendable(ms[k]) && (ms[k].Reply? ==> ms[k].unique != 0)
    ensures ReadAll(WriteAll(ms)) == Some(ms)
  {
    hide Write, Read, Sendable;
    if ms != [] {
      StreamRoundTrip(ms[1..]);
      ReadWrite(ms[0], WriteAll(ms[1..]));
      assert ms == [ms[0]] + ms[1..];
    }
  }
}
