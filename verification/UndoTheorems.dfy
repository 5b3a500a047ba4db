/** What one request undoes of another: names, parents, contents, counts and the set of inodes
    come back; only times move on and numbers stay spent. */
module UndoTheorems {
  import opened DirTree
  import opened FileContents
  import opened Namespace
  import opened NamespaceUpdates
  import opened NamespaceRuns
  import opened RenameTheorems
  import RequestVerdicts
  import InodeFlags

  function FewerLinks(a: Inode): nat { if a.kind == Directory then 0 else SaturatingSub(a.hardlinks, 1) }

  /** What taking a name away does to everything but times. */
  lemma UnnamedTables(t: Fs, at: Slot, later: Time)
    requires Found(t, at)
    ensures var u := Unname(Touch(t, at.dir, later), at, later);
            && u.names == t.names - {at} && u.open == t.open && u.lastIno == t.lastIno
            && u.dotdot == t.dotdot - Gone(t, at) && u.bytes == t.bytes - Gone(t, at)
            && u.inodes.Keys == t.inodes.Keys - Gone(t, at)
            && forall j | j in u.inodes :: j in t.inodes && UnnamedRecord(t, at, j, u.inodes[j])
  {
    var t' := Touch(t, at.dir, later);
    ReplacedTables(t', at, later);
    assert Gone(t', at) == Gone(t, at) && t'.inodes.Keys == t.inodes.Keys;
    forall j | j in Replaced(t', at, later).inodes
      ensures j in t.inodes && UnnamedRecord(t, at, j, Replaced(t', at, later).inodes[j])
    {
      assert j in t'.inodes.Keys;
      ReplacedRecord(t', at, later, j);
    }
  }

  predicate UnnamedRecord(t: Fs, at: Slot, j: Ino, a: Inode)
    requires j in t.inodes && at in t.names
  {
    var b := t.inodes[j];
    a.size == b.size && SameCounts(b.(hardlinks := if j == t.names[at].ino then FewerLinks(b) else b.hardlinks), a)
  }

  lemma HeldIsKept(s: Fs)
    requires Valid(s)
    ensures forall i | i in s.inodes :: s.inodes[i].ino == i && (s.inodes[i].hardlinks > 0 || s.inodes[i].handles > 0)
    ensures s.lastIno + 1 !in s.inodes && s.lastIno + 1 !in s.bytes && s.lastIno + 1 !in s.dotdot
  {
  }

  /** A state to which something was added and taken away again, table by table. */
  lemma BackAgain(s: Fs, t: Fs, at: Slot, later: Time)
    requires at !in s.names && Found(t, at) && t.names == s.names[at := t.names[at]] && t.open == s.open
    requires t.dotdot - Gone(t, at) == s.dotdot && t.bytes - Gone(t, at) == s.bytes
    requires t.inodes.Keys - Gone(t, at) == s.inodes.Keys
    requires forall j | j in s.inodes ::
               j in t.inodes && s.inodes[j].size == t.inodes[j].size && UnnamedRecord(t, at, j, s.inodes[j])
    ensures SameNamespace(s, Unname(Touch(t, at.dir, later), at, later))
  {
    UnnamedTables(t, at, later);
    hide Unname, Touch, Gone;
    var u := Unname(Touch(t, at.dir, later), at, later);
    assert u.names == s.names;
    forall j | j in s.inodes
      ensures j in u.inodes && SameCounts(s.inodes[j], u.inodes[j]) && s.inodes[j].size == u.inodes[j].size
    {
      assert j in u.inodes.Keys;
    }
  }

  lemma NameAndBack(s: Fs, at: Slot, i: Ino, now: Time, later: Time)
    requires at !in s.names && i in s.inodes && (s.inodes[i].hardlinks > 0 || s.inodes[i].handles > 0)
    requires s.inodes[i].ino == i && s.inodes[i].kind != Directory
    ensures var t := AddName(Touch(s, at.dir, now), at, i, now);
            at in t.names && t.names[at].ino in t.inodes && SameNamespace(s, Unname(Touch(t, at.dir, later), at, later))
  {
    hide Unname;
    var t := AddName(Touch(s, at.dir, now), at, i, now);
    assert t.names == s.names[at := Entry(i, s.inodes[i].kind)] && t.inodes.Keys == s.inodes.Keys;
    assert Gone(t, at) == {};
    BackAgain(s, t, at, later);
  }

  lemma FileAndBack(s: Fs, at: Slot, kind: Kind, data: seq<byte>, now: Time, later: Time)
    requires at !in s.names && kind != Directory
    requires s.lastIno + 1 !in s.inodes && s.lastIno + 1 !in s.bytes && s.lastIno + 1 !in s.dotdot
    ensures var t := AddFile(Touch(s, at.dir, now), at, kind, data, now);
            && at in t.names && t.names[at].ino in t.inodes && t.lastIno == s.lastIno + 1
            && SameNamespace(s, Unname(Touch(t, at.dir, later), at, later))
            && Unname(Touch(t, at.dir, later), at, later).lastIno == t.lastIno
  {
    hide Unname;
    var t := AddFile(Touch(s, at.dir, now), at, kind, data, now);
    assert Gone(t, at) == {s.lastIno + 1};
    UnnamedTables(t, at, later);
    BackAgain(s, t, at, later);
  }

  lemma DirectoryAndBack(s: Fs, at: Slot, now: Time, later: Time)
    requires at !in s.names && s.lastIno + 1 !in s.inodes && s.lastIno + 1 !in s.bytes && s.lastIno + 1 !in s.dotdot
    ensures var t := AddDirectory(Touch(s, at.dir, now), at, now);
            && at in t.names && t.names[at].ino in t.inodes && SameNamespace(s, Unname(Touch(t, at.dir, later), at, later))
            && Unname(Touch(t, at.dir, later), at, later).lastIno == s.lastIno + 1
  {
    hide Unname;
    var t := AddDirectory(Touch(s, at.dir, now), at, now);
    assert Gone(t, at) == {s.lastIno + 1};
    UnnamedTables(t, at, later);
    BackAgain(s, t, at, later);
  }

  /** A directory from which names may be taken. */
  predicate Yields(s: Fs, dir: Ino) { dir in s.inodes && InodeFlags.APPEND !in s.inodes[dir].flags }

  /** A name just made is found, and can be removed unless its directory only takes names. */
  lemma RemovableAfter(s: Fs, t: Fs, at: Slot)
    requires at.dir in s.inodes && InodeFlags.IMMUTABLE !in s.inodes[at.dir].flags
    requires at.dir in t.inodes && t.inodes[at.dir].flags == s.inodes[at.dir].flags
    requires at in t.names && t.names[at].ino in t.inodes && t.inodes[t.names[at].ino].Removable()
    ensures RequestVerdicts.Has(t, at) && (RequestVerdicts.MayRemove(t, at) <==> Yields(s, at.dir))
  {
  }

  /** Removing the name a link made leaves the inode with the names it had, be it none. The
      name is always found, and removed unless its directory is append-only. */
  lemma UnlinkUndoesLink(s: Fs, ino: Ino, at: Slot, may: bool, now: Time, may': bool, sticky: bool, later: Time)
    requires Valid(s) && Allowed(s, Link(ino, at, may, now)) && !DoLink(s, ino, at, may, now).reply.Error?
    ensures var t := DoLink(s, ino, at, may, now).fs;
            var u := DoUnlink(t, at, may', sticky, later);
            && (u.reply == Done <==> may' && sticky && Yields(s, at.dir))
            && (u.reply == Done ==> SameNamespace(s, u.fs))
  {
    FoundIsNamed(s, at);
    HeldIsKept(s);
    NameAndBack(s, at, ino, now, later);
    var t := DoLink(s, ino, at, may, now).fs;
    RemovableAfter(s, t, at);
    hide Valid, Unname, AddName, Touch, SameNamespace, DoUnlink, RequestVerdicts.Has, RequestVerdicts.MayRemove, Yields;
    RequestVerdicts.UnlinkVerdict(t, at, may', sticky, later);
    UnlinkUnnames(t, at, may', sticky, later);
  }

  lemma UnlinkUnnames(t: Fs, at: Slot, may: bool, sticky: bool, now: Time)
    requires Found(t, at)
    ensures var u := DoUnlink(t, at, may, sticky, now);
            u.reply == Done ==> u.fs == Unname(Touch(t, at.dir, now), at, now)
    ensures var u := DoRmdir(t, at, may, sticky, now);
            u.reply == Done ==> u.fs == Unname(Touch(t, at.dir, now), at, now)
  {
    hide Unname, Touch, Empty;
  }

  /** A node that is made and removed again was never there, but for its number. */
  lemma UnlinkUndoesMknod(s: Fs, at: Slot, kind: Kind, may: bool, now: Time, may': bool, sticky: bool, later: Time)
    requires Valid(s) && Allowed(s, Mknod(at, kind, may, now)) && !DoMknod(s, at, kind, may, now).reply.Error?
    ensures var t := DoMknod(s, at, kind, may, now).fs;
            var u := DoUnlink(t, at, may', sticky, later);
            && (u.reply == Done <==> may' && sticky && Yields(s, at.dir))
            && (u.reply == Done ==> SameNamespace(s, u.fs) && u.fs.lastIno == s.lastIno + 1)
  {
    FoundIsNamed(s, at);
    HeldIsKept(s);
    FileAndBack(s, at, kind, [], now, later);
    var t := DoMknod(s, at, kind, may, now).fs;
    RemovableAfter(s, t, at);
    hide Valid, Unname, AddFile, Touch, SameNamespace, DoUnlink, RequestVerdicts.Has, RequestVerdicts.MayRemove, Yields;
    RequestVerdicts.UnlinkVerdict(t, at, may', sticky, later);
    UnlinkUnnames(t, at, may', sticky, later);
  }

  /** So is a directory, which is never found to have anything in it. */
  lemma RmdirUndoesMkdir(s: Fs, at: Slot, may: bool, now: Time, may': bool, sticky: bool, later: Time)
    requires Valid(s) && Allowed(s, Mkdir(at, may, now)) && !DoMkdir(s, at, may, now).reply.Error?
    ensures var t := DoMkdir(s, at, may, now).fs;
            var u := DoRmdir(t, at, may', sticky, later);
            && (u.reply == Done <==> may' && sticky && Yields(s, at.dir))
            && (u.reply == Done ==> SameNamespace(s, u.fs) && u.fs.lastIno == s.lastIno + 1)
  {
    FoundIsNamed(s, at);
    HeldIsKept(s);
    DirectoryAndBack(s, at, now, later);
    NewDirectoryIsEmpty(s, at, now);
    var t := DoMkdir(s, at, may, now).fs;
    RemovableAfter(s, t, at);
    hide Valid, Unname, AddDirectory, Touch, SameNamespace, DoRmdir, RequestVerdicts.Has, RequestVerdicts.MayRemove, Yields;
    RequestVerdicts.RmdirVerdict(t, at, may', sticky, later);
    UnlinkUnnames(t, at, may', sticky, later);
  }

  lemma NewDirectoryIsEmpty(s: Fs, at: Slot, now: Time)
    requires Valid(s) && GoodPlace(s, at)
    ensures var t := AddDirectory(Touch(s, at.dir, now), at, now);
            Empty(t, s.lastIno + 1) && t.names[at].ino == s.lastIno + 1
  {
  }

  lemma HandleAndBack(s: Fs, i: Ino, mode: AccMode)
    requires i in s.inodes && (s.inodes[i].hardlinks > 0 || s.inodes[i].handles > 0) && FhFor(s.nextFh, mode) !in s.open
    ensures DropHandle(AddHandle(s, i, mode), i, FhFor(s.nextFh, mode)) == s.(nextFh := s.nextFh + 1)
  {
  }

  /** Releasing a handle undoes the open that gave it out, and only the handle's number is
      spent. */
  lemma ReleaseUndoesOpen(s: Fs, ino: Ino, asked: AccMode, append: bool, trunc: bool, may: bool)
    requires Valid(s) && Allowed(s, Open(ino, asked, append, trunc, may))
    requires DoOpen(s, ino, asked, append, trunc, may).reply.Opened?
    ensures var t := DoOpen(s, ino, asked, append, trunc, may);
            DoRelease(t.fs, ino, t.reply.fh).fs == s.(nextFh := s.nextFh + 1)
  {
    HeldIsKept(s);
    FreshHandle(s, asked.OrReadOnly());
    HandleAndBack(s, ino, asked.OrReadOnly());
    hide Valid, FhFor, DropHandle;
  }

  /** Flags set through either encoding are read back through it as they were asked for, and
      are what the file system acts on. */
  lemma FlagsReadBack(s: Fs, ino: Ino, cmd: nat, input: IoctlData, now: Time, later: Time)
    requires (cmd == FS_IOC_SETFLAGS || cmd == FS_IOC_FSSETXATTR) && DoIoctl(s, ino, cmd, input, now).reply.Word?
    ensures var t := DoIoctl(s, ino, cmd, input, now).fs;
            && ino in t.inodes && t.inodes[ino].flags <= InodeFlags.SUPPORTED
            && (cmd == FS_IOC_SETFLAGS ==>
                  && DoIoctl(t, ino, FS_IOC_GETFLAGS, input, later) == Outcome(t, Word(input.word, 4))
                  && (t.inodes[ino].Immutable() <==> InodeFlags.IMMUTABLE in input.word))
            && (cmd == FS_IOC_FSSETXATTR ==>
                  && DoIoctl(t, ino, FS_IOC_FSGETXATTR, input, later) == Outcome(t, Word(input.word, FSXATTR_SIZE))
                  && (t.inodes[ino].Immutable() <==> InodeFlags.X_IMMUTABLE in input.word))
  {
    if cmd == FS_IOC_FSSETXATTR {
      InodeFlags.XflagsBack(input.word);
      InodeFlags.InXflags(InodeFlags.Flags(input.word).value, InodeFlags.PAIRS, InodeFlags.X_IMMUTABLE);
      InodeFlags.InFlags(input.word, InodeFlags.PAIRS, InodeFlags.IMMUTABLE);
      assert InodeFlags.PAIRS[0] == (InodeFlags.IMMUTABLE, InodeFlags.X_IMMUTABLE);
    }
  }

  /** A file unlinked while open keeps its contents until nobody holds it: it is gone after
      the unlink exactly when that name was its last hold, and otherwise reads as before. */
  lemma UnlinkedWhileHeld(s: Fs, at: Slot, may: bool, sticky: bool, now: Time)
    requires Valid(s) && Allowed(s, Unlink(at, may, sticky, now)) && DoUnlink(s, at, may, sticky, now).reply == Done
    ensures var t := DoUnlink(s, at, may, sticky, now).fs;
            var i := s.names[at].ino;
            && (i !in t.inodes <==> LastHold(s, at)) && (i !in t.bytes <==> LastHold(s, at))
            && (forall j | j in t.bytes :: j in s.bytes && t.bytes[j] == s.bytes[j])
            && t.names == s.names - {at}
  {
    FoundIsNamed(s, at);
    HeldIsKept(s);
    assert at in LinksTo(s.names, s.names[at].ino);
    assert LinkCount(s.names, s.names[at].ino) > 0;
    hide LinksTo;
  }

  const EXCHANGE := RenameFlags(true, false, false)
  const PLAIN := RenameFlags(false, false, false)

  /** A rename whose counterpart restores it: exchanged names exchanged again, or a name moved
      to a free place and back. */
  predicate Reversible(s: Fs, src: Slot, dst: Slot, flags: RenameFlags) {
    flags == EXCHANGE || (flags == PLAIN && dst !in s.names)
  }

  /** A rename that replaces nothing keeps every inode with its counts and its contents. */
  lemma ReversibleKeepsInodes(s: Fs, src: Slot, dst: Slot, flags: RenameFlags, c: RenameChecks, now: Time)
    requires Valid(s) && RenameAllowed(s, src, dst, flags) && Reversible(s, src, dst, flags)
    requires DoRename(s, src, dst, flags, false, c, now).reply == Done
    ensures var t := DoRename(s, src, dst, flags, false, c, now).fs;
            && t.bytes == s.bytes && t.open == s.open && t.inodes.Keys == s.inodes.Keys && t.dotdot.Keys == s.dotdot.Keys
            && (forall i | i in s.inodes :: SameCounts(s.inodes[i], t.inodes[i]) && s.inodes[i].size == t.inodes[i].size)
  {
    hide Valid, RenameAllowed, DoRename, RenamedParent;
    var t := DoRename(s, src, dst, flags, false, c, now).fs;
    assert flags.exchange || Gone(s, dst) == {};
    RenameContents(s, src, dst, flags, false, c, now);
    RenameParents(s, src, dst, flags, false, c, now);
    ReversibleBytes(s, src, dst, flags, c, now);
    assert forall i :: i in t.inodes <==> i in s.inodes;
    assert forall d :: d in t.dotdot <==> d in s.dotdot;
    forall i | i in s.inodes
      ensures i in t.inodes && SameCounts(s.inodes[i], t.inodes[i]) && s.inodes[i].size == t.inodes[i].size
    {
      RenameRecord(s, src, dst, flags, false, c, now, i);
    }
  }

  lemma ReversibleBytes(s: Fs, src: Slot, dst: Slot, flags: RenameFlags, c: RenameChecks, now: Time)
    requires Reversible(s, src, dst, flags) && Valid(s)
    ensures DoRename(s, src, dst, flags, false, c, now).fs.bytes == s.bytes
  {
  }

  /** `..` of a named directory is where the name stands, and it has no other name. */
  lemma NamedParent(s: Fs, k: Slot)
    requires Valid(s) && k in s.names
    ensures s.names[k].ino in s.dotdot ==> s.dotdot[s.names[k].ino] == k.dir
    ensures s.names[k].ino in s.dotdot ==> forall j | j in s.names && s.names[j].ino == s.names[k].ino :: j == k
  {
    if s.names[k].ino in s.dotdot {
      OneName(s, k);
      forall j | j in s.names && s.names[j].ino == s.names[k].ino
        ensures j == k
      {
        assert j in LinksTo(s.names, s.names[k].ino);
      }
    }
  }

  /** The names after two renames, each the other's counterpart. */
  lemma NamesBack(s: Fs, t: Fs, src: Slot, dst: Slot, flags: RenameFlags)
    requires Reversible(s, src, dst, flags) && src in s.names && (flags == EXCHANGE ==> dst in s.names)
    requires t.names == RenamedNames(s, src, dst, flags)
    ensures dst in t.names && (flags == EXCHANGE ==> src in t.names) && RenamedNames(t, dst, src, flags) == s.names
  {
  }

  lemma SwappedEntries(s: Fs, t: Fs, src: Slot, dst: Slot, flags: RenameFlags)
    requires Reversible(s, src, dst, flags) && src in s.names && (flags == EXCHANGE ==> dst in s.names)
    requires t.names == RenamedNames(s, src, dst, flags)
    ensures dst in t.names && t.names[dst] == s.names[src]
    ensures flags == EXCHANGE ==> src in t.names && (src != dst ==> t.names[src] == s.names[dst])
  {
  }

  /** And the parents. */
  lemma ParentsBack(s: Fs, t: Fs, u: Fs, src: Slot, dst: Slot, flags: RenameFlags)
    requires Valid(s) && Reversible(s, src, dst, flags) && src in s.names && (flags == EXCHANGE ==> dst in s.names)
    requires t.names == RenamedNames(s, src, dst, flags) && dst in t.names && (flags == EXCHANGE ==> src in t.names)
    requires t.dotdot.Keys == s.dotdot.Keys == u.dotdot.Keys
    requires forall d | d in s.dotdot :: t.dotdot[d] == RenamedParent(s, src, dst, flags, d)
    requires forall d | d in t.dotdot :: u.dotdot[d] == RenamedParent(t, dst, src, flags, d)
    ensures u.dotdot == s.dotdot
  {
    hide Valid, RenamedNames;
    NamedParent(s, src);
    if dst in s.names {
      NamedParent(s, dst);
    }
    SwappedEntries(s, t, src, dst, flags);
    forall d | d in s.dotdot
      ensures d in u.dotdot && u.dotdot[d] == s.dotdot[d]
    {
      assert d in t.dotdot.Keys && d in u.dotdot.Keys;
    }
  }

  /** Exchanging twice, or moving there and back, leaves the namespace as it was. */
  lemma RenameUndone(s: Fs, src: Slot, dst: Slot, flags: RenameFlags, c: RenameChecks, now: Time, c': RenameChecks, later: Time)
    requires Valid(s) && RenameAllowed(s, src, dst, flags) && Reversible(s, src, dst, flags)
    requires DoRename(s, src, dst, flags, false, c, now).reply == Done
    requires var t := DoRename(s, src, dst, flags, false, c, now).fs;
             RenameAllowed(t, dst, src, flags) && DoRename(t, dst, src, flags, false, c', later).reply == Done
    ensures var t := DoRename(s, src, dst, flags, false, c, now).fs;
            SameNamespace(s, DoRename(t, dst, src, flags, false, c', later).fs)
  {
    hide Valid, RenameAllowed, DoRename, RenamedNames, RenamedParent, SameCounts;
    var t := DoRename(s, src, dst, flags, false, c, now).fs;
    var u := DoRename(t, dst, src, flags, false, c', later).fs;
    RenameKeeps(s, src, dst, flags, false, c, now);
    RenameNames(s, src, dst, flags, false, c, now);
    ReversibleKeepsInodes(s, src, dst, flags, c, now);
    ReversibleParents(s, src, dst, flags, c, now);
    NamesBack(s, t, src, dst, flags);
    StillReversible(s, t, src, dst, flags);
    RenameNames(t, dst, src, flags, false, c', later);
    ReversibleKeepsInodes(t, dst, src, flags, c', later);
    ReversibleParents(t, dst, src, flags, c', later);
    ParentsBack(s, t, u, src, dst, flags);
    CountsCompose(s, t, u);
  }

  lemma ReversibleParents(s: Fs, src: Slot, dst: Slot, flags: RenameFlags, c: RenameChecks, now: Time)
    requires Valid(s) && RenameAllowed(s, src, dst, flags) && Reversible(s, src, dst, flags)
    requires DoRename(s, src, dst, flags, false, c, now).reply == Done
    ensures src in s.names && (flags.exchange ==> dst in s.names)
    ensures var t := DoRename(s, src, dst, flags, false, c, now).fs;
            t.dotdot.Keys == s.dotdot.Keys && forall d | d in s.dotdot :: t.dotdot[d] == RenamedParent(s, src, dst, flags, d)
  {
    assert !flags.exchange ==> Gone(s, dst) == {};
    hide Valid, RenameAllowed, DoRename, RenamedParent, Gone, Reversible;
    RenameParents(s, src, dst, flags, false, c, now);
  }

  lemma StillReversible(s: Fs, t: Fs, src: Slot, dst: Slot, flags: RenameFlags)
    requires Reversible(s, src, dst, flags) && src in s.names && (flags == EXCHANGE ==> dst in s.names)
    requires t.names == RenamedNames(s, src, dst, flags)
    ensures Reversible(t, dst, src, flags)
  {
  }

  lemma CountsCompose(s: Fs, t: Fs, u: Fs)
    requires s.inodes.Keys == t.inodes.Keys == u.inodes.Keys
    requires forall i | i in s.inodes :: SameCounts(s.inodes[i], t.inodes[i]) && s.inodes[i].size == t.inodes[i].size
    requires forall i | i in t.inodes :: SameCounts(t.inodes[i], u.inodes[i]) && t.inodes[i].size == u.inodes[i].size
    ensures forall i | i in s.inodes :: SameCounts(s.inodes[i], u.inodes[i]) && s.inodes[i].size == u.inodes[i].size
  {
  }
}
