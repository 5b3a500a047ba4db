/** What each request that succeeds does to the file system: every table, every record, and
    nothing besides. Renames have a module of their own, and so have contents. */
module RequestEffects {
  import opened DirTree
  import opened FileContents
  import opened Handles
  import opened Namespace
  import opened NamespaceUpdates
  import opened NamespaceRuns
  import opened UndoTheorems
  import InodeFlags

  /** A record with its times moved, as those of a directory in which an entry came or went. */
  function TouchedIf(touched: bool, a: Inode, now: Time): Inode {
    if touched then a.(mtime := now, ctime := now) else a
  }

  // ----- New inodes -----

  /** The next inode in number is there, and of the others only a directory's times moved. */
  predicate OneMore(s: Fs, t: Fs, a: Inode, dir: Ino, now: Time) {
    && a.ino == s.lastIno + 1 == t.lastIno
    && t.inodes.Keys == s.inodes.Keys + {a.ino} && t.inodes[a.ino] == a
    && forall i | i in s.inodes :: t.inodes[i] == TouchedIf(i == dir, s.inodes[i], now)
  }

  /** It is a file of some kind, under a new name. */
  predicate FileMade(s: Fs, t: Fs, at: Slot, kind: Kind, data: seq<byte>, handles: nat, now: Time) {
    var i := s.lastIno + 1;
    && OneMore(s, t, Inode(i, kind, 1, handles, |data|, now, now, {}), at.dir, now)
    && t == s.(inodes := t.inodes, names := s.names[at := Entry(i, kind)], bytes := s.bytes[i := data], lastIno := i,
               open := t.open, nextFh := t.nextFh)
  }

  predicate NoHandleGiven(s: Fs, t: Fs) { t.open == s.open && t.nextFh == s.nextFh }

  /** One more handle is open on `ino`, with a number of its own and these rights. */
  predicate HandleGiven(s: Fs, t: Fs, ino: Ino, fh: nat, read: bool, write: bool) {
    && t.open == s.open[fh := ino] && t.nextFh == s.nextFh + 1
    && Number(fh) == s.nextFh && (CanRead(fh) <==> read) && (CanWrite(fh) <==> write)
  }

  lemma AddFileEffect(s: Fs, at: Slot, kind: Kind, data: seq<byte>, now: Time)
    requires s.lastIno + 1 !in s.inodes
    ensures var t := AddFile(Touch(s, at.dir, now), at, kind, data, now);
            FileMade(s, t, at, kind, data, 0, now) && NoHandleGiven(s, t)
  {
  }

  lemma MknodEffect(s: Fs, at: Slot, kind: Kind, may: bool, now: Time)
    requires Valid(s) && !DoMknod(s, at, kind, may, now).reply.Error?
    ensures var t := DoMknod(s, at, kind, may, now);
            t.reply == Made(s.lastIno + 1) && FileMade(s, t.fs, at, kind, [], 0, now) && NoHandleGiven(s, t.fs)
  {
    HeldIsKept(s);
    AddFileEffect(s, at, kind, [], now);
    hide Valid, AddFile, Touch, FileMade;
  }

  /** A symbolic link keeps its target as its contents. */
  lemma SymlinkEffect(s: Fs, at: Slot, target: seq<byte>, may: bool, now: Time)
    requires Valid(s) && !DoSymlink(s, at, target, may, now).reply.Error?
    ensures var t := DoSymlink(s, at, target, may, now);
            t.reply == Made(s.lastIno + 1) && FileMade(s, t.fs, at, Symlink, target, 0, now) && NoHandleGiven(s, t.fs)
  {
    HeldIsKept(s);
    AddFileEffect(s, at, Symlink, target, now);
    hide Valid, AddFile, Touch, FileMade;
  }

  lemma AddHandleEffect(s: Fs, i: Ino, mode: AccMode)
    requires i in s.inodes && s.nextFh < HANDLE_LIMIT
    ensures var t := AddHandle(s, i, mode);
            && HandleGiven(s, t, i, FhFor(s.nextFh, mode), mode in {ReadOnly, ReadWrite}, mode in {WriteOnly, ReadWrite})
            && t == s.(open := t.open, nextFh := t.nextFh,
                       inodes := s.inodes[i := s.inodes[i].(handles := s.inodes[i].handles + 1)])
  {
    Unpack(s.nextFh, mode.Reads(), mode.Writes());
    hide CanRead, CanWrite, Number, Pack;
  }

  /** A created file is empty, and held by one handle that may do what was asked for. */
  lemma CreateEffect(s: Fs, at: Slot, mode: AccMode, may: bool, now: Time)
    requires Valid(s) && s.nextFh < HANDLE_LIMIT && !DoCreate(s, at, mode, may, now).reply.Error?
    ensures var t := DoCreate(s, at, mode, may, now);
            && t.reply.Created? && t.reply.newIno == s.lastIno + 1 && FileMade(s, t.fs, at, File, [], 1, now)
            && HandleGiven(s, t.fs, s.lastIno + 1, t.reply.newFh, mode != WriteOnly, mode != ReadOnly)
  {
    HeldIsKept(s);
    AddFileEffect(s, at, File, [], now);
    AddHandleEffect(AddFile(Touch(s, at.dir, now), at, File, [], now), s.lastIno + 1, mode);
    hide Valid, AddFile, AddHandle, Touch, CanRead, CanWrite, Number, FhFor;
  }

  /** A file without a name, for as long as its handle is open. */
  lemma TmpfileEffect(s: Fs, dir: Ino, mode: AccMode, may: bool, now: Time)
    requires Valid(s) && s.nextFh < HANDLE_LIMIT && !DoTmpfile(s, dir, mode, may, now).reply.Error?
    ensures var t := DoTmpfile(s, dir, mode, may, now);
            var i := s.lastIno + 1;
            && t.reply.Created? && t.reply.newIno == i
            && i !in s.inodes && i !in s.bytes
            && t.fs == s.(inodes := s.inodes[i := Inode(i, File, 0, 1, 0, now, now, {})], bytes := s.bytes[i := []],
                          lastIno := i, open := t.fs.open, nextFh := t.fs.nextFh)
            && HandleGiven(s, t.fs, i, t.reply.newFh, mode == ReadWrite, true)
  {
    HeldIsKept(s);
    AddHandleEffect(AddAnonymous(s, now), s.lastIno + 1, mode);
    hide Valid, AddHandle, CanRead, CanWrite, Number, FhFor;
  }

  lemma MkdirEffect(s: Fs, at: Slot, may: bool, now: Time)
    requires Valid(s) && !DoMkdir(s, at, may, now).reply.Error?
    ensures var t := DoMkdir(s, at, may, now);
            var i := s.lastIno + 1;
            && t.reply == Made(i)
            && OneMore(s, t.fs, Inode(i, Directory, 2, 0, 512, now, now, {}), at.dir, now)
            && t.fs == s.(inodes := t.fs.inodes, names := s.names[at := Entry(i, Directory)],
                          dotdot := s.dotdot[i := at.dir], lastIno := i)
  {
    HeldIsKept(s);
    hide Valid;
  }

  // ----- Names that come and go -----

  /** A link enters the name, counts it, and moves the times of both inodes. */
  lemma LinkEffect(s: Fs, ino: Ino, at: Slot, may: bool, now: Time)
    requires !DoLink(s, ino, at, may, now).reply.Error?
    ensures ino in s.inodes
    ensures var t := DoLink(s, ino, at, may, now);
            && t.reply == Made(ino)
            && t.fs == s.(names := s.names[at := Entry(ino, s.inodes[ino].kind)], inodes := t.fs.inodes)
            && t.fs.inodes.Keys == s.inodes.Keys
            && forall i | i in s.inodes ::
                 var a := TouchedIf(i == at.dir, s.inodes[i], now);
                 t.fs.inodes[i] == if i == ino then a.(hardlinks := a.hardlinks + 1, ctime := now) else a
  {
  }

  /** The records left when `at` is gone: its inode has `links` links now, unless that was the
      last hold on it, and its directory was touched. */
  predicate NameGone(s: Fs, t: Fs, at: Slot, links: int, now: Time)
    requires at in s.names && s.names[at].ino in s.inodes
  {
    var i := s.names[at].ino;
    var gone := if links == 0 && s.inodes[i].handles == 0 then {i} else {};
    && t == s.(names := s.names - {at}, inodes := t.inodes, bytes := s.bytes - gone, dotdot := s.dotdot - gone)
    && t.inodes.Keys == s.inodes.Keys - gone
    && forall j | j in t.inodes && j in s.inodes ::
         var a := TouchedIf(j == at.dir, s.inodes[j], now);
         if j == i
         then t.inodes[j] == a.(hardlinks := t.inodes[j].hardlinks, ctime := now) && t.inodes[j].hardlinks == links
         else t.inodes[j] == a
  }

  lemma NamedHasLinks(s: Fs, at: Slot)
    requires Valid(s) && at in s.names
    ensures var i := s.names[at].ino;
            && i in s.inodes && s.inodes[i].kind == s.names[at].kind && s.inodes[i].hardlinks > 0
            && (i in s.bytes <==> s.names[at].kind != Directory) && i != at.dir
  {
    assert at in LinksTo(s.names, s.names[at].ino);
    assert LinkCount(s.names, s.names[at].ino) > 0;
    if s.names[at].kind == Directory {
      NotInOwnParent(s, at);
      assert Up(s.dotdot, at.dir, 0) == at.dir;
    }
  }

  lemma UnnamedEffect(s: Fs, at: Slot, now: Time)
    requires at in s.names && s.names[at].ino in s.inodes && s.names[at].ino != at.dir
    ensures NameGone(s, Unname(Touch(s, at.dir, now), at, now), at, Unlinked(s.inodes[s.names[at].ino], now).hardlinks, now)
  {
    hide Valid;
    var i := s.names[at].ino;
    var touched := Touch(s, at.dir, now);
    assert touched.inodes[i] == s.inodes[i];
    var left := touched.inodes[i := Unlinked(s.inodes[i], now)];
    assert left - {i} == touched.inodes - {i};
  }

  lemma NamedGone(s: Fs, at: Slot, now: Time)
    requires Valid(s) && at in s.names
    ensures Found(s, at) && s.inodes[s.names[at].ino].kind == s.names[at].kind && s.inodes[s.names[at].ino].hardlinks > 0
    ensures var links := s.inodes[s.names[at].ino].hardlinks - 1;
            NameGone(s, Unname(Touch(s, at.dir, now), at, now), at, if s.names[at].kind == Directory then 0 else links, now)
  {
    NamedHasLinks(s, at);
    hide Valid, Unname, Touch, NameGone;
    UnnamedEffect(s, at, now);
  }

  lemma UnlinkEffect(s: Fs, at: Slot, may: bool, sticky: bool, now: Time)
    requires Valid(s) && Allowed(s, Unlink(at, may, sticky, now)) && DoUnlink(s, at, may, sticky, now).reply == Done
    ensures at in s.names && s.names[at].ino in s.inodes
    ensures NameGone(s, DoUnlink(s, at, may, sticky, now).fs, at, s.inodes[s.names[at].ino].hardlinks - 1, now)
  {
    FoundIsNamed(s, at);
    assert at in s.names ==> s.names[at].kind != Directory;
    hide Valid, Allowed, Unname, Touch, NameGone;
    NamedGone(s, at, now);
  }

  lemma RmdirEffect(s: Fs, at: Slot, may: bool, sticky: bool, now: Time)
    requires Valid(s) && Allowed(s, Rmdir(at, may, sticky, now)) && DoRmdir(s, at, may, sticky, now).reply == Done
    ensures at in s.names && s.names[at].ino in s.inodes
    ensures NameGone(s, DoRmdir(s, at, may, sticky, now).fs, at, 0, now)
  {
    FoundIsNamed(s, at);
    assert at in s.names ==> s.names[at].kind == Directory;
    hide Valid, Allowed, Empty, Unname, Touch, NameGone;
    NamedGone(s, at, now);
  }

  // ----- Handles and flags -----

  lemma OpenEffect(s: Fs, ino: Ino, asked: AccMode, append: bool, trunc: bool, may: bool)
    requires s.nextFh < HANDLE_LIMIT && !DoOpen(s, ino, asked, append, trunc, may).reply.Error?
    ensures var t := DoOpen(s, ino, asked, append, trunc, may);
            ino in s.inodes && t.reply.Opened? && OpenedOn(s, t.fs, ino, asked, t.reply.fh)
  {
    if ino in s.inodes {
      AddHandleEffect(s, ino, asked.OrReadOnly());
    }
    hide AddHandle, CanRead, CanWrite, Number, FhFor;
  }

  lemma OpenDirEffect(s: Fs, ino: Ino, asked: AccMode, trunc: bool, may: bool)
    requires s.nextFh < HANDLE_LIMIT && !DoOpenDir(s, ino, asked, trunc, may).reply.Error?
    ensures var t := DoOpenDir(s, ino, asked, trunc, may);
            ino in s.inodes && t.reply.Opened? && OpenedOn(s, t.fs, ino, asked, t.reply.fh)
  {
    if ino in s.inodes {
      AddHandleEffect(s, ino, asked.OrReadOnly());
    }
    hide AddHandle, CanRead, CanWrite, Number, FhFor;
  }

  /** The handle is counted, and may do what was asked for; what asks for nothing that makes
      sense may read. */
  predicate OpenedOn(s: Fs, t: Fs, ino: Ino, asked: AccMode, fh: nat)
    requires ino in s.inodes
  {
    && HandleGiven(s, t, ino, fh, asked != WriteOnly, asked in {WriteOnly, ReadWrite})
    && t == s.(open := t.open, nextFh := t.nextFh,
               inodes := s.inodes[ino := s.inodes[ino].(handles := s.inodes[ino].handles + 1)])
  }

  lemma HeldByHandle(s: Fs, ino: Ino, fh: nat)
    requires Valid(s) && fh in s.open && s.open[fh] == ino
    ensures ino in s.inodes && s.inodes[ino].handles > 0
  {
    assert fh in HandlesOf(s.open, ino);
    assert HandleCount(s.open, ino) > 0;
  }

  /** A release gives the handle up, and an inode goes with its last hold. */
  lemma ReleaseEffect(s: Fs, ino: Ino, fh: nat)
    requires Valid(s) && Allowed(s, Release(ino, fh))
    ensures ino in s.inodes && s.inodes[ino].handles > 0
    ensures var t := DoRelease(s, ino, fh);
            var a := s.inodes[ino].(handles := s.inodes[ino].handles - 1);
            var rest := s.(open := s.open - {fh});
            && t.reply == Done
            && if a.hardlinks == 0 && a.handles == 0
               then t.fs == rest.(inodes := s.inodes - {ino}, bytes := s.bytes - {ino}, dotdot := s.dotdot - {ino})
               else t.fs == rest.(inodes := s.inodes[ino := a])
  {
    HeldByHandle(s, ino, fh);
    hide Valid;
    assert (s.inodes[ino := s.inodes[ino].(handles := s.inodes[ino].handles - 1)]) - {ino} == s.inodes - {ino};
  }

  /** The word of one encoding that says the same as flags in the other. */
  predicate SameFlags(flags: set<nat>, xflags: set<nat>) {
    && (4 in flags <==> 3 in xflags)  // immutable
    && (5 in flags <==> 4 in xflags)  // append-only
    && (3 in flags <==> 5 in xflags)  // synchronous
    && (7 in flags <==> 6 in xflags)  // no access times
    && (6 in flags <==> 7 in xflags)  // no dump
  }

  lemma PairsAgree(flags: set<nat>, xflags: set<nat>, k: nat)
    requires k < 5
    ensures var (f, x) := InodeFlags.PAIRS[k];
            && (x in InodeFlags.XflagsFrom(flags, InodeFlags.PAIRS) <==> f in flags)
            && (f in InodeFlags.FlagsFrom(xflags, InodeFlags.PAIRS) <==> x in xflags)
  {
    var (f, x) := InodeFlags.PAIRS[k];
    InodeFlags.InXflags(flags, InodeFlags.PAIRS, x);
    InodeFlags.InFlags(xflags, InodeFlags.PAIRS, f);
    hide InodeFlags.XflagsFrom, InodeFlags.FlagsFrom;
  }

  lemma OnlyPaired(flags: set<nat>, xflags: set<nat>)
    ensures InodeFlags.XflagsFrom(flags, InodeFlags.PAIRS) <= {3, 4, 5, 6, 7}
    ensures InodeFlags.FlagsFrom(xflags, InodeFlags.PAIRS) <= {3, 4, 5, 6, 7}
  {
    hide InodeFlags.XflagsFrom, InodeFlags.FlagsFrom;
    forall b: nat
      ensures b in InodeFlags.XflagsFrom(flags, InodeFlags.PAIRS) ==> b in {3, 4, 5, 6, 7}
      ensures b in InodeFlags.FlagsFrom(xflags, InodeFlags.PAIRS) ==> b in {3, 4, 5, 6, 7}
    {
      InodeFlags.InXflags(flags, InodeFlags.PAIRS, b);
      InodeFlags.InFlags(xflags, InodeFlags.PAIRS, b);
    }
  }

  /** Both translations of flags between their encodings are right, bit by bit. */
  lemma EncodingsAgree(flags: set<nat>, xflags: set<nat>)
    ensures SameFlags(flags, InodeFlags.Xflags(flags)) && InodeFlags.Xflags(flags) <= {3, 4, 5, 6, 7}
    ensures InodeFlags.Flags(xflags).Some? <==> xflags <= {3, 4, 5, 6, 7}
    ensures xflags <= {3, 4, 5, 6, 7} ==>
              SameFlags(InodeFlags.Flags(xflags).value, xflags) && InodeFlags.Flags(xflags).value <= {3, 4, 5, 6, 7}
  {
    hide InodeFlags.XflagsFrom, InodeFlags.FlagsFrom;
    OnlyPaired(flags, xflags);
    PairsAgree(flags, xflags, 0);
    PairsAgree(flags, xflags, 1);
    PairsAgree(flags, xflags, 2);
    PairsAgree(flags, xflags, 3);
    PairsAgree(flags, xflags, 4);
  }

  /** The getters report the flags, each in its encoding, and change nothing; the setters put
      exactly the flags asked for in place, and move the change time if that is a change. */
  lemma IoctlEffect(s: Fs, ino: Ino, cmd: nat, input: IoctlData, now: Time)
    requires DoIoctl(s, ino, cmd, input, now).reply.Word?
    ensures ino in s.inodes
    ensures var t := DoIoctl(s, ino, cmd, input, now);
            var a := s.inodes[ino];
            match t.reply.size
            case 4 => cmd == FS_IOC_GETFLAGS && t.fs == s && t.reply.bits == a.flags
            case 28 =>
              cmd == FS_IOC_FSGETXATTR && t.fs == s && SameFlags(a.flags, t.reply.bits) && t.reply.bits <= {3, 4, 5, 6, 7}
            case _ =>
              && t.reply == Word({}, 0) && ino in t.fs.inodes
              && var flags := t.fs.inodes[ino].flags;
                 && t.fs == s.(inodes := s.inodes[ino := a.(flags := flags,
                                                            ctime := if flags == a.flags then a.ctime else now)])
                 && (cmd == FS_IOC_SETFLAGS || cmd == FS_IOC_FSSETXATTR)
                 && if cmd == FS_IOC_SETFLAGS then flags == input.word
                    else SameFlags(flags, input.word) && flags <= {3, 4, 5, 6, 7}
  {
    EncodingsAgree(s.inodes[ino].flags, input.word);
    hide InodeFlags.Xflags, InodeFlags.Flags;
  }
}
