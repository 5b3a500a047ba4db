/** Contents: what one request does to the bytes of files, and what a file holds after any run —
    at every position, what the last request that reached it put there. */
module FileHistory {
  import opened DirTree
  import opened FileContents
  import opened Namespace
  import opened NamespaceRuns
  import opened RenameTheorems
  import opened RequestVerdicts
  import opened UndoTheorems

  // ----- One request -----

  /** One file has new contents, a size and new times; nothing else has changed. */
  predicate Rewritten(s: Fs, t: Fs, ino: Ino, size: nat, now: Time) {
    && ino in s.inodes && ino in s.bytes && ino in t.bytes
    && t == s.(bytes := s.bytes[ino := t.bytes[ino]],
               inodes := s.inodes[ino := s.inodes[ino].(size := size, mtime := now, ctime := now)])
  }

  const ZERO: byte := 0

  /** The byte at `p` of a file, which behind its end is zero. */
  function At(bytes: seq<byte>, p: nat): byte { if p < |bytes| then bytes[p] else ZERO }

  lemma TruncateEffect(s: Fs, ino: Ino, length: nat, via: Via, may: bool, now: Time)
    requires ino in s.inodes ==> ino in s.bytes
    requires DoTruncate(s, ino, length, via, may, now).reply == Done
    ensures var t := DoTruncate(s, ino, length, via, may, now).fs;
            && Rewritten(s, t, ino, length, now) && |t.bytes[ino]| == length
            && forall p | 0 <= p < length :: t.bytes[ino][p] == At(s.bytes[ino], p)
  {
  }

  /** A write puts its bytes where it says, fills a gap with zeros and keeps everything else; a
      read of the same range then gives the data. */
  lemma WriteEffect(s: Fs, ino: Ino, fh: nat, offset: nat, data: seq<byte>, now: Time)
    requires Valid(s) && DoWrite(s, ino, fh, offset, data, now).reply.Written?
    ensures var w := DoWrite(s, ino, fh, offset, data, now);
            var t := w.fs;
            && Rewritten(s, t, ino, Max(|s.bytes[ino]|, offset + |data|), now)
            && (data == [] ==> t.bytes == s.bytes)
            && (data != [] ==> |t.bytes[ino]| == Max(|s.bytes[ino]|, offset + |data|))
            && (forall p | 0 <= p < |t.bytes[ino]| ::
                  t.bytes[ino][p] == if offset <= p < offset + |data| then data[p - offset] else At(s.bytes[ino], p))
            && Slice(t.bytes[ino], offset, |data|) == data
            && (|data| < TWO_TO_THE_32 ==> w.reply.count == |data|)
  {
    assert s.inodes[ino].size == |s.bytes[ino]|;
    hide Valid;
    assert s.bytes[ino := s.bytes[ino]] == s.bytes;
  }

  /** How many bytes there are to copy. */
  function Copied(size: nat, offset: nat, length: nat): nat { Min(length, SaturatingSub(size, offset)) }

  /** A copy puts the bytes the source had before it, also when that is the same file. */
  lemma CopyEffect(s: Fs, ino: Ino, fh: nat, offset: nat, dstIno: Ino, dstFh: nat, dstOffset: nat, length: nat,
                   now: Time)
    requires Valid(s) && DoCopyRange(s, ino, fh, offset, dstIno, dstFh, dstOffset, length, now).reply.Written?
    ensures ino in s.bytes
    ensures var w := DoCopyRange(s, ino, fh, offset, dstIno, dstFh, dstOffset, length, now);
            var t := w.fs;
            var n := Copied(|s.bytes[ino]|, offset, length);
            && Rewritten(s, t, dstIno, Max(|s.bytes[dstIno]|, dstOffset + n), now)
            && (n == 0 ==> t.bytes == s.bytes)
            && (n > 0 ==> |t.bytes[dstIno]| == Max(|s.bytes[dstIno]|, dstOffset + n))
            && (forall p | 0 <= p < |t.bytes[dstIno]| ::
                  t.bytes[dstIno][p] == if dstOffset <= p < dstOffset + n then s.bytes[ino][offset + (p - dstOffset)]
                                        else At(s.bytes[dstIno], p))
            && (n < TWO_TO_THE_32 ==> w.reply.count == n)
  {
    assert s.inodes[dstIno].size == |s.bytes[dstIno]|;
    hide Valid;
    assert s.bytes[dstIno := s.bytes[dstIno]] == s.bytes;
  }

  /** What a write puts into a file below 4 GiB is what `read` replies with. */
  lemma WrittenIsRead(s: Fs, ino: Ino, fh: nat, offset: nat, data: seq<byte>, now: Time)
    requires Valid(s) && DoWrite(s, ino, fh, offset, data, now).reply.Written?
    requires |DoWrite(s, ino, fh, offset, data, now).fs.bytes[ino]| < TWO_TO_THE_32
    ensures ReadReply(DoWrite(s, ino, fh, offset, data, now).fs.bytes[ino], offset, |data|) == data
  {
    WriteEffect(s, ino, fh, offset, data, now);
    hide Valid, DoWrite;
    ReadIsSliceIff(DoWrite(s, ino, fh, offset, data, now).fs.bytes[ino], offset, |data|);
  }

  // ----- The history of a file -----

  /** How long a file is, from the requests and replies alone. */
  function Size(requests: seq<Request>, replies: seq<Reply>, i: Ino): nat
    requires |requests| == |replies|
    decreases |requests|
  {
    if requests == [] then 0
    else
      var n := |requests| - 1;
      var before := Size(requests[..n], replies[..n], i);
      if replies[n].Error? then before
      else
        match requests[n]
        case Truncate(ino, length, _, _, _) => if ino == i then length else before
        case Write(ino, _, offset, data, _) => if ino == i then Max(before, offset + |data|) else before
        case CopyRange(ino, _, offset, dstIno, _, dstOffset, length, _) =>
          if dstIno == i
          then Max(before, dstOffset + Copied(Size(requests[..n], replies[..n], ino), offset, length))
          else before
        case SymlinkAt(_, target, _, _) => if replies[n] == Made(i) then |target| else before
        case _ => before
  }

  /** What it holds at a position: what the last request that reached it put there. */
  function ByteAt(requests: seq<Request>, replies: seq<Reply>, i: Ino, p: nat): byte
    requires |requests| == |replies|
    decreases |requests|
  {
    if requests == [] then ZERO
    else
      var n := |requests| - 1;
      if Reaches(requests, replies, i, p) then
        match requests[n]
        case Write(_, _, offset, data, _) => data[p - offset]
        case CopyRange(ino, _, offset, _, _, dstOffset, _, _) =>
          ByteAt(requests[..n], replies[..n], ino, offset + (p - dstOffset))
        case SymlinkAt(_, target, _, _) => target[p]
        case _ => ZERO
      else ByteAt(requests[..n], replies[..n], i, p)
  }

  /** The last request reaches the position `p` of the file `i`. */
  predicate Reaches(requests: seq<Request>, replies: seq<Reply>, i: Ino, p: nat)
    requires |requests| == |replies| > 0
  {
    var n := |requests| - 1;
    && !replies[n].Error?
    && match requests[n]
       case Truncate(ino, length, _, _, _) => ino == i && p >= length
       case Write(ino, _, offset, data, _) => ino == i && offset <= p < offset + |data|
       case CopyRange(ino, _, offset, dstIno, _, dstOffset, length, _) =>
         dstIno == i && dstOffset <= p < dstOffset + Copied(Size(requests[..n], replies[..n], ino), offset, length)
       case SymlinkAt(_, target, _, _) => replies[n] == Made(i) && p < |target|
       case _ => false
  }

  function Held(s: Fs, i: Ino): seq<byte> { if i in s.bytes then s.bytes[i] else [] }

  /** What a file holds is its history, byte by byte, and behind its end there is nothing. */
  ghost predicate Follows(s: Fs, requests: seq<Request>, replies: seq<Reply>, i: Ino)
    requires |requests| == |replies|
  {
    && |Held(s, i)| == Size(requests, replies, i)
    && forall p: nat :: ByteAt(requests, replies, i, p) == At(Held(s, i), p)
  }

  /** So it is for every file there is, and for the numbers not yet given out. */
  ghost predicate AllFollow(s: Fs, requests: seq<Request>, replies: seq<Reply>)
    requires |requests| == |replies|
  {
    forall i | i in s.bytes || i > s.lastIno :: Follows(s, requests, replies, i)
  }

  /** Requests that write no contents leave those of every file alone; a new file is empty, or
      a symbolic link with its target. */
  ghost predicate ContentsKept(s: Fs, r: Request, t: Fs, reply: Reply) {
    && t.lastIno >= s.lastIno
    && (forall i | i in t.bytes && i in s.bytes :: t.bytes[i] == s.bytes[i])
    && (forall i | i in t.bytes && i !in s.bytes :: i > s.lastIno)
    && (forall i | i in t.bytes && i !in s.bytes ::
          t.bytes[i] == if r.SymlinkAt? && reply == Made(i) then r.target else [])
    && (r.SymlinkAt? && reply.Made? ==> reply.ino in t.bytes && reply.ino !in s.bytes && reply.ino <= t.lastIno)
  }

  predicate Rewrites(r: Request) { r.Truncate? || r.Write? || r.CopyRange? }

  /** The contents there were are still there, or gone with their inode. */
  ghost predicate NoneWritten(s: Fs, t: Fs) {
    t.lastIno >= s.lastIno && forall i | i in t.bytes :: i in s.bytes && t.bytes[i] == s.bytes[i]
  }

  /** And a new file has come. */
  ghost predicate OneAdded(s: Fs, t: Fs, data: seq<byte>) {
    t.lastIno == s.lastIno + 1 && t.bytes == s.bytes[t.lastIno := data]
  }

  lemma MakingAdds(s: Fs, at: Slot, kind: Kind, target: seq<byte>, may: bool, now: Time)
    requires Valid(s)
    ensures var t := DoMknod(s, at, kind, may, now);
            if t.reply.Error? then NoneWritten(s, t.fs) else OneAdded(s, t.fs, [])
    ensures NoneWritten(s, DoMkdir(s, at, may, now).fs)
    ensures var t := DoSymlink(s, at, target, may, now);
            if t.reply.Error? then NoneWritten(s, t.fs) else OneAdded(s, t.fs, target) && t.reply == Made(t.fs.lastIno)
  {
    hide Valid;
  }

  lemma OpeningAdds(s: Fs, at: Slot, ino: Ino, mode: AccMode, may: bool, now: Time)
    ensures var t := DoCreate(s, at, mode, may, now);
            if t.reply.Error? then NoneWritten(s, t.fs) else OneAdded(s, t.fs, [])
    ensures var t := DoTmpfile(s, ino, mode, may, now);
            if t.reply.Error? then NoneWritten(s, t.fs) else OneAdded(s, t.fs, [])
    ensures NoneWritten(s, DoLink(s, ino, at, may, now).fs)
  {
    hide FhFor;
  }

  lemma NoneIsKept(s: Fs, r: Request, t: Fs, reply: Reply)
    requires NoneWritten(s, t) && !(r.SymlinkAt? && reply.Made?)
    ensures ContentsKept(s, r, t, reply)
  {
  }

  lemma OneIsKept(s: Fs, r: Request, t: Fs, reply: Reply, data: seq<byte>)
    requires OneAdded(s, t, data) && s.lastIno + 1 !in s.bytes
    requires if r.SymlinkAt? then data == r.target && reply == Made(t.lastIno) else data == []
    ensures ContentsKept(s, r, t, reply)
  {
  }

  lemma NamingKeepsContents(s: Fs, r: Request)
    requires Valid(s) && (r.Mknod? || r.Mkdir? || r.SymlinkAt?)
    ensures ContentsKept(s, r, Apply(s, r).fs, Apply(s, r).reply)
  {
    HeldIsKept(s);
    hide Valid, DoMknod, DoMkdir, DoSymlink, ContentsKept, OneAdded, NoneWritten;
    var t := Apply(s, r);
    match r {
      case Mknod(at, kind, may, now) => MakingAdds(s, at, kind, [], may, now);
      case Mkdir(at, may, now) => MakingAdds(s, at, File, [], may, now);
      case SymlinkAt(at, target, may, now) => MakingAdds(s, at, File, target, may, now);
    }
    if t.reply.Error? || r.Mkdir? {
      NoneIsKept(s, r, t.fs, t.reply);
    } else {
      OneIsKept(s, r, t.fs, t.reply, if r.SymlinkAt? then r.target else []);
    }
  }

  lemma CountingKeepsContents(s: Fs, r: Request)
    requires Valid(s) && (r.Create? || r.Tmpfile? || r.Link?)
    ensures ContentsKept(s, r, Apply(s, r).fs, Apply(s, r).reply)
  {
    HeldIsKept(s);
    hide Valid, DoCreate, DoTmpfile, DoLink, ContentsKept, OneAdded, NoneWritten;
    var t := Apply(s, r);
    match r {
      case Create(at, mode, may, now) => OpeningAdds(s, at, 0, mode, may, now);
      case Tmpfile(dir, mode, may, now) => OpeningAdds(s, Slot(0, []), dir, mode, may, now);
      case Link(ino, at, may, now) => OpeningAdds(s, at, ino, ReadOnly, may, now);
    }
    if t.reply.Error? || r.Link? {
      NoneIsKept(s, r, t.fs, t.reply);
    } else {
      OneIsKept(s, r, t.fs, t.reply, []);
    }
  }

  lemma OthersKeepContents(s: Fs, r: Request)
    requires Valid(s) && (r.Unlink? || r.Rmdir? || r.Open? || r.OpenDir? || r.Release? || r.Ioctl?)
    ensures ContentsKept(s, r, Apply(s, r).fs, Apply(s, r).reply)
  {
    hide Valid, FhFor, Empty, FlagsAsked;
  }

  /** As far as contents are concerned, a rename takes some away and brings an empty file. */
  ghost predicate Carried(s: Fs, t: Fs) {
    && t.lastIno >= s.lastIno
    && forall i | i in t.bytes :: if i in s.bytes then t.bytes[i] == s.bytes[i] else i > s.lastIno && t.bytes[i] == []
  }

  lemma RenameCarries(s: Fs, src: Slot, dst: Slot, flags: RenameFlags, hasOwner: bool, c: RenameChecks, now: Time)
    requires Valid(s) && RenameAllowed(s, src, dst, flags)
    ensures Carried(s, DoRename(s, src, dst, flags, hasOwner, c, now).fs)
  {
    hide Valid, RenameAllowed, DoRename, RenamedParent, Apply;
    var t := DoRename(s, src, dst, flags, hasOwner, c, now);
    RenameRepliesDone(s, src, dst, flags, hasOwner, c, now);
    if t.reply == Done {
      RenameContents(s, src, dst, flags, hasOwner, c, now);
      RenameNumbersAndWhiteout(s, src, dst, flags, hasOwner, c, now);
    } else if t.reply == Error(EIO) {
      TargetLost(s, src, dst, flags, hasOwner, c, now);
    } else {
      RenameRefused(s, src, dst, flags, hasOwner, c, now);
    }
  }

  lemma RenameRefused(s: Fs, src: Slot, dst: Slot, flags: RenameFlags, hasOwner: bool, c: RenameChecks, now: Time)
    ensures var t := DoRename(s, src, dst, flags, hasOwner, c, now);
            t.reply.Error? && t.reply != Error(EIO) ==> t.fs == s
  {
    var t := DoRename(s, src, dst, flags, hasOwner, c, now);
    hide DoRename;
    if t.reply.Error? && t.reply != Error(EIO) {
      RefusedChangesNothing(s, Rename(src, dst, flags, hasOwner, c, now));
    }
  }

  lemma RenameKeepsContents(s: Fs, r: Request)
    requires Valid(s) && Allowed(s, r) && r.Rename?
    ensures ContentsKept(s, r, Apply(s, r).fs, Apply(s, r).reply)
  {
    var Rename(src, dst, flags, hasOwner, c, now) := r;
    hide Valid, DoRename, RenameAllowed;
    RenameCarries(s, src, dst, flags, hasOwner, c, now);
    RenameRepliesDone(s, src, dst, flags, hasOwner, c, now);
  }

  lemma RenameRepliesDone(s: Fs, src: Slot, dst: Slot, flags: RenameFlags, hasOwner: bool, c: RenameChecks, now: Time)
    ensures var reply := DoRename(s, src, dst, flags, hasOwner, c, now).reply; reply.Error? || reply == Done
  {
    hide Exchanged, Moved, Replaced;
  }

  // ----- One more request -----

  lemma Prefixes(requests: seq<Request>, replies: seq<Reply>, r: Request, reply: Reply)
    ensures (requests + [r])[..|requests|] == requests && (requests + [r])[|requests|] == r
    ensures (replies + [reply])[..|replies|] == replies && (replies + [reply])[|replies|] == reply
  {
  }

  lemma KeptFollows(s: Fs, t: Fs, requests: seq<Request>, replies: seq<Reply>, r: Request, reply: Reply)
    requires |requests| == |replies| && AllFollow(s, requests, replies)
    requires (!Rewrites(r) || reply.Error?) && ContentsKept(s, r, t, reply)
    requires forall i | i in s.bytes :: i <= s.lastIno
    ensures AllFollow(t, requests + [r], replies + [reply])
  {
    Prefixes(requests, replies, r, reply);
    forall i | i in t.bytes || i > t.lastIno
      ensures Follows(t, requests + [r], replies + [reply], i)
    {
      assert Follows(s, requests, replies, i);
    }
  }

  /** Of all contents those of one file have changed. */
  ghost predicate OneChanged(s: Fs, t: Fs, i: Ino, bytes: seq<byte>) {
    i in s.bytes && t.bytes == s.bytes[i := bytes] && t.lastIno == s.lastIno
  }

  lemma TruncateFollows(s: Fs, t: Fs, requests: seq<Request>, replies: seq<Reply>, r: Request, reply: Reply,
                        now: seq<byte>)
    requires |requests| == |replies| && AllFollow(s, requests, replies) && r.Truncate? && !reply.Error?
    requires OneChanged(s, t, r.ino, now) && |now| == r.length
    requires forall p | 0 <= p < |now| :: now[p] == At(s.bytes[r.ino], p)
    ensures AllFollow(t, requests + [r], replies + [reply])
  {
    Prefixes(requests, replies, r, reply);
    forall i | i in t.bytes || i > t.lastIno
      ensures Follows(t, requests + [r], replies + [reply], i)
    {
      assert Follows(s, requests, replies, i);
    }
  }

  lemma WriteFollows(s: Fs, t: Fs, requests: seq<Request>, replies: seq<Reply>, r: Request, reply: Reply,
                     now: seq<byte>)
    requires |requests| == |replies| && AllFollow(s, requests, replies) && r.Write? && !reply.Error?
    requires OneChanged(s, t, r.ino, now) && |now| == Max(|s.bytes[r.ino]|, r.offset + |r.data|)
    requires forall p | 0 <= p < |now| ::
               now[p] == if r.offset <= p < r.offset + |r.data| then r.data[p - r.offset] else At(s.bytes[r.ino], p)
    ensures AllFollow(t, requests + [r], replies + [reply])
  {
    Prefixes(requests, replies, r, reply);
    forall i | i in t.bytes || i > t.lastIno
      ensures Follows(t, requests + [r], replies + [reply], i)
    {
      assert Follows(s, requests, replies, i);
    }
  }

  lemma CopyFollows(s: Fs, t: Fs, requests: seq<Request>, replies: seq<Reply>, r: Request, reply: Reply, now: seq<byte>)
    requires |requests| == |replies| && AllFollow(s, requests, replies) && r.CopyRange? && !reply.Error?
    requires r.ino in s.bytes && OneChanged(s, t, r.dstIno, now)
    requires var n := Copied(|s.bytes[r.ino]|, r.offset, r.length);
             && |now| == Max(|s.bytes[r.dstIno]|, r.dstOffset + n)
             && forall p | 0 <= p < |now| ::
                  now[p] == if r.dstOffset <= p < r.dstOffset + n then s.bytes[r.ino][r.offset + (p - r.dstOffset)]
                            else At(s.bytes[r.dstIno], p)
    ensures AllFollow(t, requests + [r], replies + [reply])
  {
    Prefixes(requests, replies, r, reply);
    assert Follows(s, requests, replies, r.ino);
    forall i | i in t.bytes || i > t.lastIno
      ensures Follows(t, requests + [r], replies + [reply], i)
    {
      assert Follows(s, requests, replies, i);
    }
  }

  lemma BytesAreNumbered(s: Fs)
    requires Valid(s)
    ensures forall i | i in s.bytes :: i <= s.lastIno
  {
  }

  lemma StepFollows(s: Fs, requests: seq<Request>, replies: seq<Reply>, r: Request)
    requires |requests| == |replies| && Valid(s) && Allowed(s, r) && AllFollow(s, requests, replies)
    ensures AllFollow(Apply(s, r).fs, requests + [r], replies + [Apply(s, r).reply])
  {
    var t := Apply(s, r);
    if t.reply.Error? || !Rewrites(r) {
      StepKeepsContents(s, r);
      BytesAreNumbered(s);
      hide Valid, Allowed, Apply, ContentsKept, AllFollow;
      KeptFollows(s, t.fs, requests, replies, r, t.reply);
    } else {
      StepRewrites(s, requests, replies, r);
    }
  }

  lemma StepKeepsContents(s: Fs, r: Request)
    requires Valid(s) && Allowed(s, r) && (!Rewrites(r) || Apply(s, r).reply.Error?)
    ensures ContentsKept(s, r, Apply(s, r).fs, Apply(s, r).reply)
  {
    hide Valid;
    if Rewrites(r) {
      RefusedChangesNothing(s, r);
      hide Apply;
    } else {
      hide Apply, ContentsKept, Allowed;
      if r.Rename? {
        RenameKeepsContents(s, r);
      } else if r.Mknod? || r.Mkdir? || r.SymlinkAt? {
        NamingKeepsContents(s, r);
      } else if r.Create? || r.Tmpfile? || r.Link? {
        CountingKeepsContents(s, r);
      } else {
        OthersKeepContents(s, r);
      }
    }
  }

  lemma StepTruncates(s: Fs, requests: seq<Request>, replies: seq<Reply>, ino: Ino, length: nat, via: Via,
                      may: bool, now: Time)
    requires |requests| == |replies| && AllFollow(s, requests, replies) && (ino in s.inodes ==> ino in s.bytes)
    requires DoTruncate(s, ino, length, via, may, now).reply == Done
    ensures var t := DoTruncate(s, ino, length, via, may, now);
            AllFollow(t.fs, requests + [Truncate(ino, length, via, may, now)], replies + [t.reply])
  {
    hide AllFollow, DoTruncate;
    TruncateEffect(s, ino, length, via, may, now);
    var t := DoTruncate(s, ino, length, via, may, now);
    TruncateFollows(s, t.fs, requests, replies, Truncate(ino, length, via, may, now), t.reply, t.fs.bytes[ino]);
  }

  lemma StepWrites(s: Fs, requests: seq<Request>, replies: seq<Reply>, ino: Ino, fh: nat, offset: nat,
                   data: seq<byte>, now: Time)
    requires |requests| == |replies| && AllFollow(s, requests, replies) && Valid(s) && data != []
    requires DoWrite(s, ino, fh, offset, data, now).reply.Written?
    ensures var t := DoWrite(s, ino, fh, offset, data, now);
            AllFollow(t.fs, requests + [Write(ino, fh, offset, data, now)], replies + [t.reply])
  {
    hide AllFollow, DoWrite, Valid;
    WriteEffect(s, ino, fh, offset, data, now);
    var t := DoWrite(s, ino, fh, offset, data, now);
    WriteFollows(s, t.fs, requests, replies, Write(ino, fh, offset, data, now), t.reply, t.fs.bytes[ino]);
  }

  lemma StepCopies(s: Fs, requests: seq<Request>, replies: seq<Reply>, ino: Ino, fh: nat, offset: nat,
                   dstIno: Ino, dstFh: nat, dstOffset: nat, length: nat, now: Time)
    requires |requests| == |replies| && AllFollow(s, requests, replies) && Valid(s)
    requires DoCopyRange(s, ino, fh, offset, dstIno, dstFh, dstOffset, length, now).reply.Written?
    requires ino in s.bytes && Slice(s.bytes[ino], offset, length) != []
    ensures var t := DoCopyRange(s, ino, fh, offset, dstIno, dstFh, dstOffset, length, now);
            AllFollow(t.fs, requests + [CopyRange(ino, fh, offset, dstIno, dstFh, dstOffset, length, now)],
                      replies + [t.reply])
  {
    hide AllFollow, DoCopyRange, Valid;
    CopyEffect(s, ino, fh, offset, dstIno, dstFh, dstOffset, length, now);
    var t := DoCopyRange(s, ino, fh, offset, dstIno, dstFh, dstOffset, length, now);
    CopyFollows(s, t.fs, requests, replies, CopyRange(ino, fh, offset, dstIno, dstFh, dstOffset, length, now), t.reply,
                t.fs.bytes[dstIno]);
  }

  lemma StepRewrites(s: Fs, requests: seq<Request>, replies: seq<Reply>, r: Request)
    requires |requests| == |replies| && Valid(s) && Allowed(s, r) && AllFollow(s, requests, replies)
    requires Rewrites(r) && !Apply(s, r).reply.Error?
    ensures AllFollow(Apply(s, r).fs, requests + [r], replies + [Apply(s, r).reply])
  {
    hide AllFollow, Valid, WriteAt, Resize;
    match r
    case Truncate(ino, length, via, may, now) => StepTruncates(s, requests, replies, ino, length, via, may, now);
    case Write(ino, fh, offset, data, now) => StepWrites(s, requests, replies, ino, fh, offset, data, now);
    case CopyRange(ino, fh, offset, dstIno, dstFh, dstOffset, length, now) =>
      StepCopies(s, requests, replies, ino, fh, offset, dstIno, dstFh, dstOffset, length, now);
  }

  // ----- Every run -----

  lemma {:induction false} RunFollows(states: seq<Fs>, requests: seq<Request>, replies: seq<Reply>, k: nat)
    requires Served(states, requests, replies) && k < |states|
    ensures AllFollow(states[k], requests[..k], replies[..k])
    decreases k
  {
    if k == 0 {
      var now :| states[0] == Init(now);
      assert requests[..0] == [] && replies[..0] == [];
    } else {
      hide Valid, AllFollow, Allowed, Apply;
      RunFollows(states, requests, replies, k - 1);
      RunsAreValid(states, requests, k - 1);
      StepFollows(states[k - 1], requests[..k - 1], replies[..k - 1], requests[k - 1]);
      assert requests[..k] == requests[..k - 1] + [requests[k - 1]];
      assert replies[..k] == replies[..k - 1] + [replies[k - 1]];
    }
  }

  /** At any point of any run a file is as long as its history says, and holds at every position
      what the last request that reached it put there: a write its data, a copy what the
      source's own history had there, a cut or a gap zero. */
  lemma ContentsAreHistory(states: seq<Fs>, requests: seq<Request>, replies: seq<Reply>, k: nat, i: Ino)
    requires Served(states, requests, replies) && k < |states| && i in states[k].bytes
    ensures |states[k].bytes[i]| == Size(requests[..k], replies[..k], i)
    ensures forall p | 0 <= p < |states[k].bytes[i]| ::
              states[k].bytes[i][p] == ByteAt(requests[..k], replies[..k], i, p)
  {
    RunFollows(states, requests, replies, k);
    hide Size, ByteAt, Served;
    assert Follows(states[k], requests[..k], replies[..k], i);
  }
}
