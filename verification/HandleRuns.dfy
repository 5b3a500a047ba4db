/** Open handles over whole runs: each was given out by a request of the run, on the inode it is
    open on, and may do what that request asked for. */
module HandleRuns {
  import opened DirTree
  import opened Handles
  import opened Namespace
  import opened NamespaceRuns
  import opened RequestEffects
  import opened RequestVerdicts

  /** The request gave out this handle on this inode, with the rights it asked for. */
  predicate Gives(r: Request, reply: Reply, ino: Ino, fh: nat) {
    match r
    case Open(i, asked, _, _, _) =>
      reply == Opened(fh) && i == ino && HasRights(fh, AsksToRead(asked), AsksToWrite(asked))
    case OpenDir(i, asked, _, _) =>
      reply == Opened(fh) && i == ino && HasRights(fh, AsksToRead(asked), AsksToWrite(asked))
    case Create(_, mode, _, _) => reply == Created(ino, fh) && HasRights(fh, AsksToRead(mode), AsksToWrite(mode))
    case Tmpfile(_, mode, _, _) => reply == Created(ino, fh) && HasRights(fh, AsksToRead(mode), AsksToWrite(mode))
    case _ => false
  }

  predicate HasRights(fh: nat, read: bool, write: bool) { (CanRead(fh) <==> read) && (CanWrite(fh) <==> write) }

  /** A handle open after a request was open before, on the same inode, or has just been given. */
  ghost predicate OldOrGiven(s: Fs, r: Request, t: Fs, reply: Reply) {
    forall fh | fh in t.open :: (fh in s.open && s.open[fh] == t.open[fh]) || Gives(r, reply, t.open[fh], fh)
  }

  lemma GivenIsGiven(s: Fs, r: Request, t: Fs, reply: Reply, ino: Ino, fh: nat, read: bool, write: bool)
    requires HandleGiven(s, t, ino, fh, read, write) && Gives(r, reply, ino, fh)
    ensures OldOrGiven(s, r, t, reply)
  {
  }

  lemma OpeningGives(s: Fs, r: Request)
    requires Valid(s) && s.nextFh < HANDLE_LIMIT && (r.Open? || r.OpenDir?)
    ensures OldOrGiven(s, r, Apply(s, r).fs, Apply(s, r).reply)
  {
    var t := Apply(s, r);
    if t.reply.Error? {
      RefusedChangesNothing(s, r);
    } else {
      hide Valid, CanRead, CanWrite, OldOrGiven, DoOpen, DoOpenDir, HandleGiven;
      match r
      case Open(ino, asked, append, trunc, may) =>
        OpenEffect(s, ino, asked, append, trunc, may);
        GivenIsGiven(s, r, t.fs, t.reply, ino, t.reply.fh, AsksToRead(asked), AsksToWrite(asked));
      case OpenDir(ino, asked, trunc, may) =>
        OpenDirEffect(s, ino, asked, trunc, may);
        GivenIsGiven(s, r, t.fs, t.reply, ino, t.reply.fh, AsksToRead(asked), AsksToWrite(asked));
    }
  }

  lemma CreatingGives(s: Fs, r: Request)
    requires Valid(s) && s.nextFh < HANDLE_LIMIT && (r.Create? || r.Tmpfile?)
    ensures OldOrGiven(s, r, Apply(s, r).fs, Apply(s, r).reply)
  {
    var t := Apply(s, r);
    if t.reply.Error? {
      RefusedChangesNothing(s, r);
    } else {
      hide Valid, CanRead, CanWrite, OldOrGiven, DoCreate, DoTmpfile, HandleGiven, FileMade;
      match r
      case Create(at, mode, may, now) =>
        CreateEffect(s, at, mode, may, now);
        CreateVerdict(s, at, mode, may, now);
        GivenIsGiven(s, r, t.fs, t.reply, t.reply.newIno, t.reply.newFh, AsksToRead(mode), AsksToWrite(mode));
      case Tmpfile(dir, mode, may, now) =>
        TmpfileEffect(s, dir, mode, may, now);
        TmpfileVerdict(s, dir, mode, may, now);
        GivenIsGiven(s, r, t.fs, t.reply, t.reply.newIno, t.reply.newFh, AsksToRead(mode), AsksToWrite(mode));
    }
  }

  lemma RenameGivesNone(s: Fs, src: Slot, dst: Slot, flags: RenameFlags, hasOwner: bool, c: RenameChecks, now: Time)
    ensures DoRename(s, src, dst, flags, hasOwner, c, now).fs.open == s.open
  {
    hide RenameRefusal, FinishIn;
  }

  lemma OthersGiveNone(s: Fs, r: Request)
    requires r.Truncate? && r.ino in s.inodes ==> r.ino in s.bytes
    requires !(r.Open? || r.OpenDir? || r.Create? || r.Tmpfile?)
    ensures Apply(s, r).fs.open == if r.Release? && r.ino in s.inodes then s.open - {r.fh} else s.open
  {
    hide DoRename, AddRefusal, FlagsAsked, Empty;
    if r.Rename? {
      RenameGivesNone(s, r.src, r.dst, r.flags, r.hasOwner, r.checks, r.now);
    }
  }

  lemma StepGives(s: Fs, r: Request)
    requires Valid(s) && Allowed(s, r)
    ensures OldOrGiven(s, r, Apply(s, r).fs, Apply(s, r).reply)
  {
    hide Valid, OldOrGiven, Apply;
    if r.Open? || r.OpenDir? {
      OpeningGives(s, r);
    } else if r.Create? || r.Tmpfile? {
      CreatingGives(s, r);
    } else {
      OthersGiveNone(s, r);
      FewerAreOld(s, r, Apply(s, r).fs, Apply(s, r).reply);
    }
  }

  lemma FewerAreOld(s: Fs, r: Request, t: Fs, reply: Reply)
    requires t.open.Items <= s.open.Items
    ensures OldOrGiven(s, r, t, reply)
  {
    forall fh | fh in t.open
      ensures fh in s.open && s.open[fh] == t.open[fh]
    {
      assert (fh, t.open[fh]) in s.open.Items;
    }
  }

  lemma GivenWithin(requests: seq<Request>, replies: seq<Reply>, j: nat, k: nat, ino: Ino, fh: nat)
    requires j < k <= |requests| == |replies| && Gives(requests[j], replies[j], ino, fh)
    ensures GivenBefore(requests, replies, k, ino, fh)
  {
  }

  /** One of the first `k` requests gave the handle out. */
  ghost predicate GivenBefore(requests: seq<Request>, replies: seq<Reply>, k: nat, ino: Ino, fh: nat)
    requires k <= |requests| == |replies|
  {
    exists j :: 0 <= j < k && Gives(requests[j], replies[j], ino, fh)
  }

  /** Whatever handle is open at any point of any run was given out by a request of that run, on
      the inode it is open on, and reads and writes exactly if that request asked to. */
  lemma {:induction false} RightsAreAsAsked(states: seq<Fs>, requests: seq<Request>, replies: seq<Reply>, k: nat,
                                            fh: nat)
    requires Served(states, requests, replies) && k < |states| && fh in states[k].open
    ensures GivenBefore(requests, replies, k, states[k].open[fh], fh)
    decreases k
  {
    if k > 0 {
      RunsAreValid(states, requests, k - 1);
      var s, r := states[k - 1], requests[k - 1];
      assert Allowed(s, r) && states[k] == Apply(s, r).fs && replies[k - 1] == Apply(s, r).reply;
      hide Valid, Apply, Allowed, Gives, Served;
      StepGives(s, r);
      if fh in s.open && s.open[fh] == states[k].open[fh] {
        RightsAreAsAsked(states, requests, replies, k - 1, fh);
        var j :| 0 <= j < k - 1 && Gives(requests[j], replies[j], states[k].open[fh], fh);
        GivenWithin(requests, replies, j, k, states[k].open[fh], fh);
      } else {
        GivenWithin(requests, replies, k - 1, k, states[k].open[fh], fh);
      }
    }
  }
}
