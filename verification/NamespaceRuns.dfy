/** Every request the kernel may send keeps the invariant, and what follows for whole runs. */
module NamespaceRuns {
  import opened DirTree
  import opened FileContents
  import opened Handles
  import opened Namespace
  import opened NamespaceUpdates

  // ----- Rename -----

  /** What a replacing rename relies on when it has passed its checks. */
  ghost predicate Replacing(s: Fs, src: Slot, dst: Slot) {
    && GoodPlace(s, src) && GoodPlace(s, dst) && src in s.names
    && !Inside(s.dotdot, dst.dir, s.names[src].ino)
    && (dst in s.names ==> s.names[dst].ino != s.names[src].ino)
    && (dst in s.names && s.names[dst].kind == Directory ==> Empty(s, s.names[dst].ino))
  }

  /** What is replaced is neither of the two directories nor the inode that moves. */
  lemma ReplacedIsApart(s: Fs, src: Slot, dst: Slot)
    requires Collected(s) && NamesRight(s) && LinksRight(s) && IsTree(s) && Replacing(s, src, dst) && dst in s.names
    ensures s.names[dst].ino != src.dir && s.names[dst].ino != dst.dir && s.names[dst].ino != s.names[src].ino
    ensures s.names[dst].kind == Directory ==> !Inside(s.dotdot, dst.dir, s.names[dst].ino)
  {
    if s.names[dst].kind == Directory {
      NotInOwnParent(s, dst);
      assert Up(s.dotdot, dst.dir, 0) == dst.dir;
    }
  }

  lemma UnnameKeepsRest(s: Fs, slot: Slot, now: Time)
    requires Found(s, slot)
    ensures var t := Unname(s, slot, now);
            && t.names == s.names - {slot} && t.lastIno == s.lastIno
            && t.inodes - {s.names[slot].ino} == s.inodes - {s.names[slot].ino}
  {
  }

  lemma ReplacedKeepsRest(s: Fs, src: Slot, dst: Slot, now: Time)
    requires Collected(s) && NamesRight(s) && LinksRight(s) && IsTree(s) && Replacing(s, src, dst)
    ensures var t := Replaced(s, dst, now);
            && t.names == s.names - {dst} && src != dst && LinkedDir(t, src.dir) && LinkedDir(t, dst.dir)
            && s.names[src].ino in t.inodes && t.lastIno == s.lastIno
            && (dst in s.names ==> t.inodes - {s.names[dst].ino} == s.inodes - {s.names[dst].ino})
  {
    if dst in s.names {
      UnnameKeepsRest(s, dst, now);
      ReplacedIsApart(s, src, dst);
    } else {
      assert s.names - {dst} == s.names;
    }
  }

  lemma CanMoveAfterReplace(s: Fs, src: Slot, dst: Slot, now: Time)
    requires Collected(s) && NamesRight(s) && LinksRight(s) && IsTree(s) && Replacing(s, src, dst)
    ensures CanMove(Replaced(s, dst, now), src, dst)
  {
    ReplacedKeepsRest(s, src, dst, now);
    var t := Replaced(s, dst, now);
    if t.dotdot != s.dotdot {
      ReplacedIsApart(s, src, dst);
      forall n: nat
        ensures Up(t.dotdot, dst.dir, n) == Up(s.dotdot, dst.dir, n)
      {
        SamePath(s.dotdot, t.dotdot, {s.names[dst].ino}, dst.dir, n);
      }
    }
  }

  lemma ReplaceKeeps(s: Fs, src: Slot, dst: Slot, now: Time)
    requires Valid(s) && Replacing(s, src, dst)
    ensures var t := Replaced(s, dst, now);
            var m := MoveName(t, s.names[src], src, dst);
            Valid(t) && Valid(m) && Valid(AddFile(m, src, CharDevice, [], now))
  {
    var t := Replaced(s, dst, now);
    if dst in s.names {
      UnnameKeeps(s, dst, now);
    }
    CanMoveAfterReplace(s, src, dst, now);
    ReplacedKeepsRest(s, src, dst, now);
    MoveNameKeeps(t, src, dst);
    AddFileKeeps(MoveName(t, s.names[src], src, dst), src, CharDevice, [], now);
  }

  lemma RefusalMeaning(s: Fs, src: Slot, dst: Slot, flags: RenameFlags, c: RenameChecks)
    requires Valid(s) && RenameAllowed(s, src, dst, flags)
    requires RenameRefusal(s, src, dst, flags, c) == Done
    ensures if flags.exchange then CanSwap(s, src, dst) else Replacing(s, src, dst)
  {
  }

  lemma RenameKeeps(s: Fs, src: Slot, dst: Slot, flags: RenameFlags, hasOwner: bool, c: RenameChecks, now: Time)
    requires Valid(s) && RenameAllowed(s, src, dst, flags)
    ensures Valid(DoRename(s, src, dst, flags, hasOwner, c, now).fs)
  {
    hide Valid;
    if RenameRefusal(s, src, dst, flags, c) == Done {
      RefusalMeaning(s, src, dst, flags, c);
      var e := s.names[src];
      if flags.exchange {
        SwapNamesKeeps(s, src, dst);
        FinishKeeps(Swapped(s, src, dst), src.dir, dst.dir, e.ino, now);
        StampKeeps(Finish(Swapped(s, src, dst), src.dir, dst.dir, e.ino, now), s.names[dst].ino, now);
      } else {
        ReplaceKeeps(s, src, dst, now);
        FinishKeeps(Whiteout(MoveName(Replaced(s, dst, now), e, src, dst), src, flags.whiteout, now),
                    src.dir, dst.dir, e.ino, now);
      }
    }
  }

  lemma FinishKeeps(s: Fs, srcDir: Ino, dstDir: Ino, moved: Ino, now: Time)
    requires Valid(s)
    ensures Valid(Finish(s, srcDir, dstDir, moved, now))
  {
    hide Valid;
    TouchKeeps(s, srcDir, now);
    TouchKeeps(Touch(s, srcDir, now), dstDir, now);
    StampKeeps(Touch(Touch(s, srcDir, now), dstDir, now), moved, now);
    assert Finish(s, srcDir, dstDir, moved, now) == Stamp(Touch(Touch(s, srcDir, now), dstDir, now), moved, now);
  }

  // ----- All requests -----

  lemma MknodKeeps(s: Fs, at: Slot, kind: Kind, data: seq<byte>, now: Time)
    requires Valid(s) && GoodPlace(s, at) && at !in s.names && kind != Directory
    ensures Valid(AddFile(Touch(s, at.dir, now), at, kind, data, now))
  {
    hide Valid;
    TouchKeeps(s, at.dir, now);
    AddFileKeeps(Touch(s, at.dir, now), at, kind, data, now);
  }

  lemma MkdirKeeps(s: Fs, at: Slot, now: Time)
    requires Valid(s) && GoodPlace(s, at) && at !in s.names
    ensures Valid(AddDirectory(Touch(s, at.dir, now), at, now))
  {
    hide Valid;
    TouchKeeps(s, at.dir, now);
    AddDirectoryKeeps(Touch(s, at.dir, now), at, now);
  }

  lemma SpendNumberKeeps(s: Fs)
    requires Valid(s)
    ensures Valid(s.(lastIno := s.lastIno + 1))
  {
    assert SizesRight(s.(lastIno := s.lastIno + 1));
    MetadataKeeps(s, s.(lastIno := s.lastIno + 1));
  }

  lemma SymlinkFailsKeeps(s: Fs, at: Slot, now: Time)
    requires Valid(s)
    ensures Valid(Touch(s, at.dir, now).(lastIno := s.lastIno + 1))
  {
    hide Valid;
    TouchKeeps(s, at.dir, now);
    SpendNumberKeeps(Touch(s, at.dir, now));
  }

  lemma CreateKeeps(s: Fs, at: Slot, mode: AccMode, now: Time)
    requires Valid(s) && GoodPlace(s, at) && at !in s.names && s.nextFh < HANDLE_LIMIT
    ensures Valid(AddHandle(AddFile(Touch(s, at.dir, now), at, File, [], now), s.lastIno + 1, mode))
  {
    hide Valid;
    MknodKeeps(s, at, File, [], now);
    AddHandleKeeps(AddFile(Touch(s, at.dir, now), at, File, [], now), s.lastIno + 1, mode);
  }

  lemma UnlinkKeeps(s: Fs, at: Slot, now: Time)
    requires Valid(s) && at in s.names && (s.names[at].kind == Directory ==> Empty(s, s.names[at].ino))
    ensures Valid(Unname(Touch(s, at.dir, now), at, now))
  {
    TouchKeeps(s, at.dir, now);
    UnnameKeeps(Touch(s, at.dir, now), at, now);
  }

  lemma LinkKeeps(s: Fs, ino: Ino, at: Slot, now: Time)
    requires Valid(s) && GoodPlace(s, at) && at !in s.names && ino in s.inodes && s.inodes[ino].kind != Directory
    ensures Valid(AddName(Touch(s, at.dir, now), at, ino, now))
  {
    TouchKeeps(s, at.dir, now);
    AddNameKeeps(Touch(s, at.dir, now), at, ino, now);
  }

  lemma RecordKeeps(s: Fs, i: Ino, a: Inode)
    requires Valid(s) && i in s.inodes && SameCounts(s.inodes[i], a) && a.size == s.inodes[i].size
    ensures Valid(s.(inodes := s.inodes[i := a]))
  {
    var t := s.(inodes := s.inodes[i := a]);
    assert SizesRight(t);
    hide Valid, SizesRight;
    MetadataKeeps(s, t);
  }

  lemma WithFlagsKeeps(s: Fs, ino: Ino, flags: set<nat>, now: Time)
    requires Valid(s) && ino in s.inodes
    ensures Valid(WithFlags(s, ino, flags, now))
  {
    hide Valid;
    RecordKeeps(s, ino, s.inodes[ino].(flags := flags, ctime := now));
  }

  lemma WriteKeeps(s: Fs, ino: Ino, offset: nat, data: seq<byte>, now: Time)
    requires Valid(s) && ino in s.bytes && data != []
    ensures Valid(SetContents(s, ino, WriteAt(s.bytes[ino], offset, data),
                              Max(s.inodes[ino].size, offset + |data|), now))
  {
    SetContentsKeeps(s, ino, WriteAt(s.bytes[ino], offset, data), Max(s.inodes[ino].size, offset + |data|), now);
  }

  /** Names are always found: no entry of a valid state dangles. */
  lemma FoundIsNamed(s: Fs, at: Slot)
    requires Valid(s)
    ensures Found(s, at) <==> at in s.names
  {
  }

  /** One request keeps the tree, the link counts, the collection and the handle counts right. */
  lemma StepKeepsValid(s: Fs, r: Request)
    requires Valid(s) && Allowed(s, r)
    ensures Valid(Apply(s, r).fs)
  {
    hide Valid;
    if r.Mknod? || r.Mkdir? || r.SymlinkAt? {
      MakingKeepsValid(s, r);
    } else if r.Create? || r.Tmpfile? || r.Link? {
      LinkingKeepsValid(s, r);
    } else if r.Unlink? || r.Rmdir? || r.Rename? {
      RemovingKeepsValid(s, r);
    } else if r.Open? || r.OpenDir? || r.Release? || r.Ioctl? {
      HoldingKeepsValid(s, r);
    } else {
      WritingKeepsValid(s, r);
    }
  }

  lemma MakingKeepsValid(s: Fs, r: Request)
    requires Valid(s) && Allowed(s, r) && (r.Mknod? || r.Mkdir? || r.SymlinkAt?)
    ensures Valid(Apply(s, r).fs)
  {
    hide Valid;
    if Apply(s, r).fs != s {
      match r
      case Mknod(at, kind, may, now) => FoundIsNamed(s, at); MknodKeeps(s, at, kind, [], now);
      case Mkdir(at, may, now) => FoundIsNamed(s, at); MkdirKeeps(s, at, now);
      case SymlinkAt(at, target, may, now) =>
        FoundIsNamed(s, at);
        if at in s.names {
          SymlinkFailsKeeps(s, at, now);
        } else {
          MknodKeeps(s, at, Symlink, target, now);
        }
    }
  }

  lemma LinkingKeepsValid(s: Fs, r: Request)
    requires Valid(s) && Allowed(s, r) && (r.Create? || r.Tmpfile? || r.Link?)
    ensures Valid(Apply(s, r).fs)
  {
    hide Valid;
    if Apply(s, r).fs != s {
      match r
      case Create(at, mode, may, now) => FoundIsNamed(s, at); CreateKeeps(s, at, mode, now);
      case Tmpfile(dir, mode, may, now) => AnonymousKeeps(s, mode, now);
      case Link(ino, at, may, now) => FoundIsNamed(s, at); LinkKeeps(s, ino, at, now);
    }
  }

  lemma RemovingKeepsValid(s: Fs, r: Request)
    requires Valid(s) && Allowed(s, r) && (r.Unlink? || r.Rmdir? || r.Rename?)
    ensures Valid(Apply(s, r).fs)
  {
    hide Valid;
    if Apply(s, r).fs != s {
      match r
      case Unlink(at, may, sticky, now) => UnlinkKeeps(s, at, now);
      case Rmdir(at, may, sticky, now) => UnlinkKeeps(s, at, now);
      case Rename(src, dst, flags, hasOwner, checks, now) => RenameKeeps(s, src, dst, flags, hasOwner, checks, now);
    }
  }

  lemma HoldingKeepsValid(s: Fs, r: Request)
    requires Valid(s) && Allowed(s, r) && (r.Open? || r.OpenDir? || r.Release? || r.Ioctl?)
    ensures Valid(Apply(s, r).fs)
  {
    hide Valid;
    if Apply(s, r).fs != s {
      match r
      case Open(ino, mode, append, trunc, may) => AddHandleKeeps(s, ino, mode.OrReadOnly());
      case OpenDir(ino, mode, trunc, may) => AddHandleKeeps(s, ino, mode.OrReadOnly());
      case Release(ino, fh) => DropHandleKeeps(s, ino, fh);
      case Ioctl(ino, cmd, input, now) => WithFlagsKeeps(s, ino, FlagsAsked(cmd, input).1, now);
    }
  }

  lemma WritingKeepsValid(s: Fs, r: Request)
    requires Valid(s) && Allowed(s, r) && (r.Truncate? || r.Write? || r.CopyRange?)
    ensures Valid(Apply(s, r).fs)
  {
    hide Valid;
    if Apply(s, r).fs != s {
      match r
      case Truncate(ino, length, via, may, now) =>
        SetContentsKeeps(s, ino, Resize(s.bytes[ino], length), length, now);
      case Write(ino, fh, offset, data, now) => WriteKeeps(s, ino, offset, data, now);
      case CopyRange(ino, fh, offset, dstIno, dstFh, dstOffset, length, now) =>
        WriteKeeps(s, dstIno, dstOffset, Slice(s.bytes[ino], offset, length), now);
    }
  }

  const A: Slot := Slot(ROOT, [97])

  /** A new file system with one empty file in it, which is inode 2. */
  function OneFile(now: Time): Fs { DoMknod(Init(now), A, File, true, now).fs }

  lemma OneFileIsValid(now: Time)
    ensures Valid(OneFile(now))
  {
    InitIsValid(now);
    MknodKeeps(Init(now), A, File, [], now);
  }

  // ----- Whole runs -----

  /** Some permitted requests, served one after another on a new file system. */
  ghost predicate IsRun(states: seq<Fs>, requests: seq<Request>) {
    && |states| == |requests| + 1
    && (exists now :: states[0] == Init(now))
    && (forall k | 0 <= k < |requests| ::
          Allowed(states[k], requests[k]) && states[k + 1] == Apply(states[k], requests[k]).fs)
  }

  /** A run with the replies to its requests. */
  ghost predicate Served(states: seq<Fs>, requests: seq<Request>, replies: seq<Reply>) {
    && IsRun(states, requests) && |replies| == |requests|
    && forall k | 0 <= k < |requests| :: replies[k] == Apply(states[k], requests[k]).reply
  }

  /** Every reachable state: a tree rooted at inode 1, link counts that count names, records
      for exactly what is held, and handle counts of opens minus releases. */
  lemma {:induction false} RunsAreValid(states: seq<Fs>, requests: seq<Request>, k: nat)
    requires IsRun(states, requests) && k < |states|
    ensures Valid(states[k])
    decreases k
  {
    if k == 0 {
      var now :| states[0] == Init(now);
      InitIsValid(now);
    } else {
      RunsAreValid(states, requests, k - 1);
      StepKeepsValid(states[k - 1], requests[k - 1]);
    }
  }

  /** The shape of a valid state spelled out: a linked directory other than the root has
      exactly one name, in the directory its `..` names; it reaches the root; and its parent
      is not inside it. */
  lemma TreeMeaning(s: Fs, d: Ino)
    requires Valid(s) && LinkedDir(s, d) && d != ROOT
    ensures exists k :: LinksTo(s.names, d) == {k} && s.names[k].kind == Directory
                        && s.dotdot[d] == k.dir && LinkedDir(s, k.dir) && !Inside(s.dotdot, k.dir, d)
    ensures ReachesRoot(s.dotdot, d)
  {
    var k := HasName(s, d);
    OneName(s, k);
    NotInOwnParent(s, k);
  }

  /** What is new in `t` has a number `s` had not reached. */
  ghost predicate OnlyFreshNumbers(s: Fs, t: Fs) {
    && t.lastIno >= s.lastIno && t.nextFh >= s.nextFh
    && (forall i | i in t.inodes && i !in s.inodes :: i > s.lastIno)
    && (forall fh | fh in t.open && fh !in s.open :: Number(fh) >= s.nextFh)
  }

  lemma RenameNumbers(s: Fs, src: Slot, dst: Slot, flags: RenameFlags, hasOwner: bool, c: RenameChecks, now: Time)
    ensures OnlyFreshNumbers(s, DoRename(s, src, dst, flags, hasOwner, c, now).fs)
  {
  }

  lemma MakingNumbers(s: Fs, r: Request)
    requires HandlesRight(s) && Allowed(s, r)
    requires r.Mknod? || r.Mkdir? || r.SymlinkAt? || r.Create? || r.Tmpfile?
    ensures OnlyFreshNumbers(s, Apply(s, r).fs)
  {
    if r.Create? || r.Tmpfile? {
      FreshHandle(s, r.mode);
    }
  }

  /** A request never hands out a number that was used before. */
  lemma StepNumbers(s: Fs, r: Request)
    requires HandlesRight(s) && Allowed(s, r)
    ensures OnlyFreshNumbers(s, Apply(s, r).fs)
  {
    if r.Mknod? || r.Mkdir? || r.SymlinkAt? || r.Create? || r.Tmpfile? {
      MakingNumbers(s, r);
    } else if r.Rename? {
      RenameNumbers(s, r.src, r.dst, r.flags, r.hasOwner, r.checks, r.now);
    } else if r.Open? || r.OpenDir? {
      FreshHandle(s, r.mode.OrReadOnly());
    }
  }

  lemma {:induction false} RunNumbers(states: seq<Fs>, requests: seq<Request>, b: nat, c: nat)
    requires IsRun(states, requests) && b <= c < |states|
    ensures states[b].lastIno <= states[c].lastIno && states[b].nextFh <= states[c].nextFh
    ensures forall i | i !in states[b].inodes && i <= states[b].lastIno :: i !in states[c].inodes
    ensures forall fh | fh !in states[b].open && Number(fh) < states[b].nextFh :: fh !in states[c].open
    decreases c
  {
    if b < c {
      RunNumbers(states, requests, b, c - 1);
      RunsAreValid(states, requests, c - 1);
      StepNumbers(states[c - 1], requests[c - 1]);
    }
  }

  /** Once an inode has been collected its number never names an inode again, and a handle
      once released is never given out again. */
  lemma NumbersAreNotReused(states: seq<Fs>, requests: seq<Request>, a: nat, b: nat, c: nat)
    requires IsRun(states, requests) && a <= b <= c < |states|
    ensures forall i | i in states[a].inodes && i !in states[b].inodes :: i !in states[c].inodes
    ensures forall fh | fh in states[a].open && fh !in states[b].open :: fh !in states[c].open
  {
    RunsAreValid(states, requests, a);
    RunNumbers(states, requests, a, b);
    RunNumbers(states, requests, b, c);
  }
}
