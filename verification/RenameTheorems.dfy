/** What a rename does to the names as a whole, and what a refused request leaves alone. */
module RenameTheorems {
  import opened DirTree
  import opened Namespace
  import opened NamespaceUpdates
  import opened NamespaceRuns

  /** The table of names after a rename, as one change made at once. */
  function RenamedNames(s: Fs, src: Slot, dst: Slot, flags: RenameFlags): map<Slot, Entry>
    requires src in s.names && (flags.exchange ==> dst in s.names)
  {
    if flags.exchange then
      map k | k in s.names ::
        if k == dst then s.names[src] else if k == src then s.names[dst] else s.names[k]
    else
      map k | k in s.names.Keys + {dst} && (k != src || flags.whiteout) ::
        if k == dst then s.names[src]
        else if k == src then Entry(s.lastIno + 1, CharDevice)
        else s.names[k]
  }

  /** The parent of a directory after a rename. */
  function RenamedParent(s: Fs, src: Slot, dst: Slot, flags: RenameFlags, d: Ino): Ino
    requires d in s.dotdot && src in s.names && (flags.exchange ==> dst in s.names)
  {
    if d == s.names[src].ino then dst.dir
    else if flags.exchange && d == s.names[dst].ino then src.dir
    else s.dotdot[d]
  }

  /** The replaced inode had no other name and nobody holds it open. */
  predicate LastHold(s: Fs, slot: Slot) {
    && Found(s, slot)
    && var a := s.inodes[s.names[slot].ino];
       a.handles == 0 && (a.kind == Directory || a.hardlinks <= 1)
  }

  /** What goes with the replaced name. */
  function Gone(s: Fs, dst: Slot): set<Ino> {
    if LastHold(s, dst) then {s.names[dst].ino} else {}
  }

  /** The facts about a rename that passed its checks which the theorems below rest on. */
  lemma RenameFacts(s: Fs, src: Slot, dst: Slot, flags: RenameFlags, c: RenameChecks)
    requires Valid(s) && RenameAllowed(s, src, dst, flags) && RenameRefusal(s, src, dst, flags, c) == Done
    ensures src in s.names && (flags.exchange ==> dst in s.names && !flags.whiteout)
    ensures src.dir in s.inodes && dst.dir in s.inodes && s.names[src].ino in s.inodes
    ensures dst in s.names ==> Found(s, dst) && s.inodes[s.names[dst].ino].kind == s.names[dst].kind
    ensures dst in s.names && !flags.exchange ==>
              s.names[dst].ino != src.dir && s.names[dst].ino != dst.dir && s.names[dst].ino != s.names[src].ino
    ensures s.lastIno + 1 !in s.inodes && s.lastIno + 1 !in s.bytes && s.lastIno + 1 !in s.dotdot
  {
  }

  /** Where the parents are concerned: an inode that is a directory has one name only. */
  lemma ParentFacts(s: Fs, src: Slot, dst: Slot)
    requires Valid(s) && src in s.names
    ensures s.names[src].kind == Directory <==> s.names[src].ino in s.dotdot
    ensures dst in s.names ==> (s.names[dst].kind == Directory <==> s.names[dst].ino in s.dotdot)
    ensures dst in s.names && src != dst && s.names[src].kind == Directory ==> s.names[src].ino != s.names[dst].ino
    ensures dst in s.names && s.names[dst].kind != Directory ==> s.inodes[s.names[dst].ino].hardlinks > 0
  {
    assert src in LinksTo(s.names, s.names[src].ino);
    if s.names[src].kind == Directory {
      OneName(s, src);
    }
    if dst in s.names {
      assert dst in LinksTo(s.names, s.names[dst].ino);
      assert LinkCount(s.names, s.names[dst].ino) > 0;
      if s.names[dst].kind == Directory {
        OneName(s, dst);
      }
    }
  }

  lemma FinishTables(s: Fs, srcDir: Ino, dstDir: Ino, moved: Ino, now: Time)
    ensures var t := Finish(s, srcDir, dstDir, moved, now);
            && t.names == s.names && t.dotdot == s.dotdot && t.bytes == s.bytes && t.open == s.open
            && t.nextFh == s.nextFh && t.lastIno == s.lastIno && t.inodes.Keys == s.inodes.Keys
  {
  }

  lemma ReplacedTables(s: Fs, dst: Slot, now: Time)
    ensures var t := Replaced(s, dst, now);
            var gone := Gone(s, dst);
            && (Found(s, dst) ==> t.names == s.names - {dst}) && (!Found(s, dst) ==> t == s)
            && t.dotdot == s.dotdot - gone && t.bytes == s.bytes - gone && t.inodes.Keys == s.inodes.Keys - gone
            && t.open == s.open && t.nextFh == s.nextFh && t.lastIno == s.lastIno
  {
  }

  lemma RenameNames(s: Fs, src: Slot, dst: Slot, flags: RenameFlags, hasOwner: bool, c: RenameChecks, now: Time)
    requires Valid(s) && RenameAllowed(s, src, dst, flags)
    requires DoRename(s, src, dst, flags, hasOwner, c, now).reply == Done
    ensures src in s.names && (flags.exchange ==> dst in s.names)
    ensures DoRename(s, src, dst, flags, hasOwner, c, now).fs.names == RenamedNames(s, src, dst, flags)
  {
    hide Valid, RenameAllowed, RenameRefusal, Finish, Replaced;
    RenameFacts(s, src, dst, flags, c);
    var e := s.names[src];
    if flags.exchange {
      FinishTables(SwapNames(s, e, s.names[dst], src, dst), src.dir, dst.dir, e.ino, now);
    } else {
      ReplacedTables(s, dst, now);
      var m := MoveName(Replaced(s, dst, now), e, src, dst);
      FinishTables(Whiteout(m, src, flags.whiteout, now), src.dir, dst.dir, e.ino, now);
    }
  }

  lemma RenameParents(s: Fs, src: Slot, dst: Slot, flags: RenameFlags, hasOwner: bool, c: RenameChecks, now: Time)
    requires Valid(s) && RenameAllowed(s, src, dst, flags)
    requires DoRename(s, src, dst, flags, hasOwner, c, now).reply == Done
    ensures src in s.names && (flags.exchange ==> dst in s.names)
    ensures var t := DoRename(s, src, dst, flags, hasOwner, c, now).fs;
            forall d :: d in t.dotdot <==>
              d in s.dotdot && !(!flags.exchange && d in Gone(s, dst))
    ensures var t := DoRename(s, src, dst, flags, hasOwner, c, now).fs;
            forall d | d in t.dotdot && d in s.dotdot :: t.dotdot[d] == RenamedParent(s, src, dst, flags, d)
  {
    hide Valid, RenameAllowed, RenameRefusal, Finish, Replaced;
    RenameFacts(s, src, dst, flags, c);
    ParentFacts(s, src, dst);
    var e := s.names[src];
    if flags.exchange {
      FinishTables(SwapNames(s, e, s.names[dst], src, dst), src.dir, dst.dir, e.ino, now);
    } else {
      ReplacedTables(s, dst, now);
      var m := MoveName(Replaced(s, dst, now), e, src, dst);
      FinishTables(Whiteout(m, src, flags.whiteout, now), src.dir, dst.dir, e.ino, now);
    }
  }

  /** Which inodes there are after a rename, and what they hold: the replaced one may go with
      its contents, a whiteout without contents may come, every other file keeps its bytes. */
  lemma RenameContents(s: Fs, src: Slot, dst: Slot, flags: RenameFlags, hasOwner: bool, c: RenameChecks, now: Time)
    requires Valid(s) && RenameAllowed(s, src, dst, flags)
    requires DoRename(s, src, dst, flags, hasOwner, c, now).reply == Done
    ensures var t := DoRename(s, src, dst, flags, hasOwner, c, now).fs;
            && t.open == s.open && t.nextFh == s.nextFh
            && (forall i :: i in t.inodes <==>
                  || (i in s.inodes && !(!flags.exchange && i in Gone(s, dst)))
                  || (flags.whiteout && i == s.lastIno + 1))
            && (forall i | i in t.bytes ::
                  if i in s.bytes then t.bytes[i] == s.bytes[i]
                  else flags.whiteout && i == s.lastIno + 1 && t.bytes[i] == [])
  {
    hide Valid, RenameAllowed, RenameRefusal, Finish, Replaced;
    RenameFacts(s, src, dst, flags, c);
    var e := s.names[src];
    if flags.exchange {
      FinishTables(SwapNames(s, e, s.names[dst], src, dst), src.dir, dst.dir, e.ino, now);
    } else {
      ReplacedTables(s, dst, now);
      var m := MoveName(Replaced(s, dst, now), e, src, dst);
      FinishTables(Whiteout(m, src, flags.whiteout, now), src.dir, dst.dir, e.ino, now);
    }
  }

  /** The numbers a rename spends, and the inode that stands where the entry was: an empty
      character device, new like any other inode. */
  lemma RenameNumbersAndWhiteout(s: Fs, src: Slot, dst: Slot, flags: RenameFlags, hasOwner: bool, c: RenameChecks, now: Time)
    requires Valid(s) && RenameAllowed(s, src, dst, flags)
    requires DoRename(s, src, dst, flags, hasOwner, c, now).reply == Done
    ensures var t := DoRename(s, src, dst, flags, hasOwner, c, now).fs;
            var i := s.lastIno + 1;
            && t.lastIno == (if flags.whiteout then i else s.lastIno)
            && (flags.whiteout ==>
                  i in t.inodes && t.inodes[i] == Inode(i, CharDevice, 1, 0, 0, now, now, {}) && i in t.bytes)
            && forall j | j in s.bytes && (flags.exchange || j !in Gone(s, dst)) :: j in t.bytes
  {
    hide Valid, RenameAllowed, RenameRefusal, Finish, Replaced;
    RenameFacts(s, src, dst, flags, c);
    var e := s.names[src];
    if flags.exchange {
      FinishTables(SwapNames(s, e, s.names[dst], src, dst), src.dir, dst.dir, e.ino, now);
    } else {
      ReplacedTables(s, dst, now);
      var m := MoveName(Replaced(s, dst, now), e, src, dst);
      var w := Whiteout(m, src, flags.whiteout, now);
      FinishTables(w, src.dir, dst.dir, e.ino, now);
      if flags.whiteout {
        FinishRecord(w, src.dir, dst.dir, e.ino, now, s.lastIno + 1);
        FinishKeepsOther(w, src.dir, dst.dir, e.ino, now, s.lastIno + 1);
      }
    }
  }

  lemma FinishKeepsOther(s: Fs, srcDir: Ino, dstDir: Ino, moved: Ino, now: Time, i: Ino)
    requires i in s.inodes && i != srcDir && i != dstDir && i != moved
    ensures i in Finish(s, srcDir, dstDir, moved, now).inodes && Finish(s, srcDir, dstDir, moved, now).inodes[i] == s.inodes[i]
  {
  }

  // ----- Records -----

  /** Everything about an inode that a rename has no business with. */
  predicate SameButTimes(a: Inode, b: Inode) {
    a.ino == b.ino && a.kind == b.kind && a.handles == b.handles && a.size == b.size
    && a.flags == b.flags
  }

  /** The record a rename leaves behind for an inode that was there before. */
  predicate RenamedRecord(s: Fs, src: Slot, dst: Slot, flags: RenameFlags, now: Time, i: Ino, a: Inode)
    requires i in s.inodes && src in s.names
  {
    var replaced := !flags.exchange && dst in s.names && i == s.names[dst].ino;
    var dirs := i == src.dir || i == dst.dir;
    var named := i == s.names[src].ino || (dst in s.names && i == s.names[dst].ino);
    && SameButTimes(s.inodes[i], a)
    && a.mtime == (if dirs then now else s.inodes[i].mtime)
    && a.ctime == (if dirs || named then now else s.inodes[i].ctime)
    && a.hardlinks == (if !replaced then s.inodes[i].hardlinks
                       else if a.kind == Directory then 0 else s.inodes[i].hardlinks - 1)
  }

  lemma FinishRecord(s: Fs, srcDir: Ino, dstDir: Ino, moved: Ino, now: Time, i: Ino)
    requires i in s.inodes
    ensures var t := Finish(s, srcDir, dstDir, moved, now);
            && i in t.inodes && SameButTimes(s.inodes[i], t.inodes[i]) && t.inodes[i].hardlinks == s.inodes[i].hardlinks
            && t.inodes[i].mtime == (if i == srcDir || i == dstDir then now else s.inodes[i].mtime)
            && t.inodes[i].ctime == (if i == srcDir || i == dstDir || i == moved then now else s.inodes[i].ctime)
  {
  }

  lemma ReplacedRecord(s: Fs, dst: Slot, now: Time, i: Ino)
    requires i in s.inodes && i in Replaced(s, dst, now).inodes
    ensures Replaced(s, dst, now).inodes[i]
            == if Found(s, dst) && i == s.names[dst].ino then Unlinked(s.inodes[i], now) else s.inodes[i]
  {
  }

  /** Records after a rename: the replaced inode loses one link, the two directories and the
      named inodes get new times, and nothing else differs — so none of the record copies
      held across the passes overwrote a newer one. */
  lemma RenameRecord(s: Fs, src: Slot, dst: Slot, flags: RenameFlags, hasOwner: bool, c: RenameChecks, now: Time, i: Ino)
    requires Valid(s) && RenameAllowed(s, src, dst, flags)
    requires DoRename(s, src, dst, flags, hasOwner, c, now).reply == Done
    requires i in s.inodes && i in DoRename(s, src, dst, flags, hasOwner, c, now).fs.inodes
    ensures src in s.names && (flags.exchange ==> dst in s.names)
    ensures RenamedRecord(s, src, dst, flags, now, i, DoRename(s, src, dst, flags, hasOwner, c, now).fs.inodes[i])
  {
    hide Valid, RenameAllowed, RenameRefusal, Finish, Replaced;
    RenameFacts(s, src, dst, flags, c);
    ParentFacts(s, src, dst);
    var e := s.names[src];
    if flags.exchange {
      FinishRecord(SwapNames(s, e, s.names[dst], src, dst), src.dir, dst.dir, e.ino, now, i);
    } else {
      ReplacedTables(s, dst, now);
      var m := MoveName(Replaced(s, dst, now), e, src, dst);
      var w := Whiteout(m, src, flags.whiteout, now);
      FinishTables(w, src.dir, dst.dir, e.ino, now);
      assert i in w.inodes.Keys && i in m.inodes;
      FinishRecord(w, src.dir, dst.dir, e.ino, now, i);
      ReplacedRecord(s, dst, now, i);
    }
  }

  // ----- Refusals -----

  /** Names, parents, contents, handles and the set of inodes with all their counts. */
  predicate SameNamespace(s: Fs, t: Fs) {
    && t.names == s.names && t.dotdot == s.dotdot && t.bytes == s.bytes && t.open == s.open
    && t.inodes.Keys == s.inodes.Keys
    && (forall i | i in s.inodes :: SameCounts(s.inodes[i], t.inodes[i]) && s.inodes[i].size == t.inodes[i].size)
  }

  /** A whiteout rename that names no owner, finds a target and passes every other check. */
  predicate LosesTarget(s: Fs, r: Request) {
    && r.Rename? && r.flags.whiteout && !r.flags.exchange && !r.hasOwner && Found(s, r.dst)
    && RenameRefusal(s, r.src, r.dst, r.flags, r.checks) == Done
  }

  /** An error reply leaves names, link counts and the inode set as they were — except for
      the one error found only after the target of a rename has been taken away. */
  lemma ErrorKeepsNamespaceIff(s: Fs, r: Request)
    requires Valid(s) && Allowed(s, r) && Apply(s, r).reply.Error?
    ensures SameNamespace(s, Apply(s, r).fs) <==> !LosesTarget(s, r)
  {
    hide Valid;
    if LosesTarget(s, r) {
      assert r.dst in s.names && r.dst !in Apply(s, r).fs.names;
    } else if r.Rename? {
    } else if r.SymlinkAt? {
    } else {
      assert Apply(s, r).fs == s;
    }
  }

  /** What that error leaves behind: the state without the target's name, and without the
      target if that was its last hold. */
  lemma TargetLost(s: Fs, src: Slot, dst: Slot, flags: RenameFlags, hasOwner: bool, c: RenameChecks, now: Time)
    requires Valid(s) && DoRename(s, src, dst, flags, hasOwner, c, now).reply == Error(EIO)
    ensures var t := DoRename(s, src, dst, flags, hasOwner, c, now).fs;
            var gone := Gone(s, dst);
            && t == s.(names := s.names - {dst}, inodes := t.inodes, bytes := s.bytes - gone, dotdot := s.dotdot - gone)
            && t.inodes.Keys == s.inodes.Keys - gone
            && forall i | i in t.inodes && i in s.inodes ::
                 if dst in s.names && i == s.names[dst].ino
                 then t.inodes[i] == s.inodes[i].(hardlinks := t.inodes[i].hardlinks, ctime := now)
                      && t.inodes[i].hardlinks == if s.names[dst].kind == Directory then 0 else s.inodes[i].hardlinks - 1
                 else t.inodes[i] == s.inodes[i]
  {
    NamespaceRuns.FoundIsNamed(s, dst);
    if dst in s.names {
      ParentFacts(s, dst, dst);
    }
    ReplacedTables(s, dst, now);
    hide Valid, RenameRefusal, Replaced, Gone;
    var t := Replaced(s, dst, now);
    assert t.names == s.names - {dst};
    assert t.bytes == s.bytes - Gone(s, dst) && t.dotdot == s.dotdot - Gone(s, dst);
    forall i | i in t.inodes && i in s.inodes
      ensures t.inodes[i] == if Found(s, dst) && i == s.names[dst].ino then Unlinked(s.inodes[i], now) else s.inodes[i]
    {
      ReplacedRecord(s, dst, now, i);
    }
  }

  const B: Slot := Slot(ROOT, [98])

  /** Two empty files beside each other in a new file system. */
  function TwoFiles(now: Time): Fs {
    AddFile(Touch(OneFile(now), ROOT, now), B, File, [], now)
  }

  lemma TwoFilesAreValid(now: Time)
    ensures var s := TwoFiles(now);
            && Valid(s) && LinkedDir(s, ROOT) && A in s.names && B in s.names && Found(s, A) && Found(s, B)
            && s.names[A] == Entry(2, File) && s.names[B] == Entry(3, File) && s.dotdot == map[]
            && s == DoMknod(OneFile(now), B, File, true, now).fs
  {
    OneFileIsValid(now);
    MknodKeeps(OneFile(now), B, File, [], now);
  }

  lemma TwoFilesRemovable(now: Time)
    ensures var s := TwoFiles(now);
            ROOT in s.inodes && 2 in s.inodes && 3 in s.inodes
            && s.inodes[ROOT].Removable() && s.inodes[2].Removable() && s.inodes[3].Removable()
            && s.inodes[2].kind == s.inodes[3].kind == File
  {
  }

  /** The exception is real: with files `a` and `b` beside each other, a whiteout rename of `a`
      over `b` without an owner answers EIO, and `b` is gone. */
  lemma WhiteoutWithoutOwner(now: Time) returns (s: Fs, r: Request)
    ensures Valid(s) && Allowed(s, r) && Apply(s, r).reply == Error(EIO)
    ensures r.Rename? && r.dst in s.names && r.dst !in Apply(s, r).fs.names
  {
    s := TwoFiles(now);
    r := Rename(A, B, RenameFlags(false, false, true), false, RenameChecks(true, true, true, true, true), now);
    TwoFilesAreValid(now);
    TwoFilesRemovable(now);
    hide TwoFiles, Valid;
    forall n: nat
      ensures Up(s.dotdot, ROOT, n) == ROOT
    {
    }
  }
}
