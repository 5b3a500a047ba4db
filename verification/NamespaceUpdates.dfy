/** Every update requests are made of keeps the invariant. */
module NamespaceUpdates {
  import opened DirTree
  import opened FileContents
  import opened Handles
  import opened Namespace

  lemma InitIsValid(now: Time)
    ensures Valid(Init(now))
  {
    var s := Init(now);
    assert Up(s.dotdot, ROOT, 0) == ROOT;
    assert HandleCount(s.open, ROOT) == |HandlesOf(s.open, ROOT)| && HandlesOf(s.open, ROOT) == {};
  }

  // ----- How the counts of links and handles change -----

  lemma LinksAfterPut(names: map<Slot, Entry>, k: Slot, e: Entry, i: Ino)
    requires k !in names
    ensures LinkCount(names[k := e], i) == LinkCount(names, i) + (if e.ino == i then 1 else 0)
  {
    assert LinksTo(names[k := e], i) == LinksTo(names, i) + (if e.ino == i then {k} else {});
  }

  lemma LinksAfterDrop(names: map<Slot, Entry>, k: Slot, i: Ino)
    requires k in names
    ensures LinkCount(names, i) == LinkCount(names - {k}, i) + (if names[k].ino == i then 1 else 0)
  {
    assert LinksTo(names, i) == LinksTo(names - {k}, i) + (if names[k].ino == i then {k} else {});
  }

  lemma HandlesAfterOpen(open: map<nat, Ino>, fh: nat, j: Ino, i: Ino)
    requires fh !in open
    ensures HandleCount(open[fh := j], i) == HandleCount(open, i) + (if i == j then 1 else 0)
  {
    assert HandlesOf(open[fh := j], i) == HandlesOf(open, i) + (if i == j then {fh} else {});
  }

  lemma HandlesAfterRelease(open: map<nat, Ino>, fh: nat, i: Ino)
    requires fh in open
    ensures HandleCount(open, i) == HandleCount(open - {fh}, i) + (if i == open[fh] then 1 else 0)
  {
    assert HandlesOf(open, i) == HandlesOf(open - {fh}, i) + (if i == open[fh] then {fh} else {});
  }

  lemma Singleton<T>(xs: set<T>, x: T)
    requires x in xs && |xs| <= 1
    ensures xs == {x}
  {
    assert |xs - {x}| == |xs| - 1;
  }

  /** A named directory is linked, is not the root, and has no other name. */
  lemma OneName(s: Fs, k: Slot)
    requires Collected(s) && NamesRight(s) && LinksRight(s) && k in s.names && s.names[k].kind == Directory
    ensures LinksTo(s.names, s.names[k].ino) == {k} && LinkedDir(s, s.names[k].ino) && s.names[k].ino != ROOT
  {
    var links := LinksTo(s.names, s.names[k].ino);
    assert k in links && LinkCount(s.names, s.names[k].ino) == |links|;
    Singleton(links, k);
  }

  /** A linked directory other than the root has a name, in the directory its `..` names. */
  lemma HasName(s: Fs, d: Ino) returns (k: Slot)
    requires Collected(s) && NamesRight(s) && LinksRight(s) && LinkedDir(s, d) && d != ROOT
    ensures k in s.names && s.names[k] == Entry(d, Directory) && s.dotdot[d] == k.dir && LinkedDir(s, k.dir)
  {
    assert LinkCount(s.names, d) == 1 && LinksTo(s.names, d) != {};
    k :| k in LinksTo(s.names, d);
  }

  /** Every directory on the way up from a linked one is linked. */
  lemma {:induction false} UpStaysLinked(s: Fs, d: Ino, n: nat)
    requires Collected(s) && NamesRight(s) && LinksRight(s) && LinkedDir(s, d)
    ensures LinkedDir(s, Up(s.dotdot, d, n))
    decreases n
  {
    if n != 0 && d in s.dotdot {
      var k := HasName(s, d);
      UpStaysLinked(s, s.dotdot[d], n - 1);
    }
  }

  // ----- Parts of the invariant an update does not reach -----

  /** The handle counts survive if no record with handles is lost or changes its count. */
  lemma HandlesKept(s: Fs, t: Fs)
    requires HandlesRight(s) && t.open == s.open && t.nextFh >= s.nextFh
    requires forall i | i in t.inodes :: if i in s.inodes then t.inodes[i].handles == s.inodes[i].handles
                                         else t.inodes[i].handles == 0 && forall fh | fh in s.open :: s.open[fh] != i
    requires forall i | i in s.inodes && s.inodes[i].handles > 0 :: i in t.inodes
    ensures HandlesRight(t)
  {
    forall fh | fh in s.open
      ensures s.open[fh] in t.inodes
    {
      assert fh in HandlesOf(s.open, s.open[fh]) && HandleCount(s.open, s.open[fh]) > 0;
    }
    forall i | i in t.inodes && i !in s.inodes
      ensures HandleCount(s.open, i) == 0
    {
      assert HandlesOf(s.open, i) == {};
    }
  }

  lemma LinksKept(s: Fs, t: Fs)
    requires LinksRight(s) && t.names == s.names
    requires forall i | i in t.inodes ::
               i in s.inodes && t.inodes[i].kind == s.inodes[i].kind && t.inodes[i].hardlinks == s.inodes[i].hardlinks
    ensures LinksRight(t)
  {
  }

  lemma TreeKept(s: Fs, t: Fs)
    requires IsTree(s) && t.dotdot == s.dotdot && forall d | LinkedDir(t, d) :: LinkedDir(s, d)
    ensures IsTree(t)
  {
  }

  /** Nothing but times, flags, sizes and contents may differ. */
  predicate SameCounts(a: Inode, b: Inode) {
    a.ino == b.ino && a.kind == b.kind && a.hardlinks == b.hardlinks && a.handles == b.handles
  }

  lemma MetadataKeeps(s: Fs, t: Fs)
    requires Valid(s) && SizesRight(t)
    requires t.inodes.Keys == s.inodes.Keys && forall i | i in s.inodes :: SameCounts(s.inodes[i], t.inodes[i])
    requires t.bytes.Keys == s.bytes.Keys && t.names == s.names && t.dotdot == s.dotdot
    requires t.lastIno >= s.lastIno && t.nextFh == s.nextFh && t.open == s.open
    ensures Valid(t)
  {
    TreeKept(s, t);
    forall i | i in t.inodes
      ensures i in s.inodes
    {
      assert i in t.inodes.Keys;
    }
    LinksKept(s, t);
  }

  lemma TouchKeeps(s: Fs, i: Ino, now: Time)
    requires Valid(s)
    ensures Valid(Touch(s, i, now))
  {
    if i in s.inodes {
      assert SizesRight(Touch(s, i, now));
      MetadataKeeps(s, Touch(s, i, now));
    }
  }

  lemma StampKeeps(s: Fs, i: Ino, now: Time)
    requires Valid(s)
    ensures Valid(Stamp(s, i, now))
  {
    if i in s.inodes {
      assert SizesRight(Stamp(s, i, now));
      MetadataKeeps(s, Stamp(s, i, now));
    }
  }

  lemma SetContentsKeeps(s: Fs, i: Ino, data: seq<byte>, size: nat, now: Time)
    requires Valid(s) && i in s.bytes && size == |data|
    ensures Valid(SetContents(s, i, data, size, now))
  {
    assert SizesRight(SetContents(s, i, data, size, now));
    MetadataKeeps(s, SetContents(s, i, data, size, now));
  }

  // ----- New inodes -----

  lemma AddFileShape(s: Fs, slot: Slot, kind: Kind, data: seq<byte>, now: Time)
    requires Collected(s) && SizesRight(s) && GoodPlace(s, slot) && kind != Directory
    ensures var t := AddFile(s, slot, kind, data, now); Collected(t) && SizesRight(t)
  {
  }

  lemma AddFileNames(s: Fs, slot: Slot, kind: Kind, data: seq<byte>, now: Time)
    requires Collected(s) && NamesRight(s) && GoodPlace(s, slot) && slot !in s.names && kind != Directory
    ensures NamesRight(AddFile(s, slot, kind, data, now))
  {
  }

  lemma AddFileLinks(s: Fs, slot: Slot, kind: Kind, data: seq<byte>, now: Time)
    requires Collected(s) && NamesRight(s) && LinksRight(s) && slot !in s.names && kind != Directory
    ensures LinksRight(AddFile(s, slot, kind, data, now))
  {
    var t := AddFile(s, slot, kind, data, now);
    var j := s.lastIno + 1;
    assert LinkCount(s.names, j) == 0 by { assert LinksTo(s.names, j) == {}; }
    forall i
      ensures LinkCount(t.names, i) == LinkCount(s.names, i) + (if i == j then 1 else 0)
    {
      LinksAfterPut(s.names, slot, Entry(j, kind), i);
    }
  }

  lemma AddFileKeeps(s: Fs, slot: Slot, kind: Kind, data: seq<byte>, now: Time)
    requires Valid(s) && GoodPlace(s, slot) && slot !in s.names && kind != Directory
    ensures Valid(AddFile(s, slot, kind, data, now))
  {
    AddFileShape(s, slot, kind, data, now);
    AddFileNames(s, slot, kind, data, now);
    HandlesKept(s, AddFile(s, slot, kind, data, now));
    AddFileLinks(s, slot, kind, data, now);
    TreeKept(s, AddFile(s, slot, kind, data, now));
  }

  lemma AddDirectoryShape(s: Fs, slot: Slot, now: Time)
    requires Collected(s) && SizesRight(s) && GoodPlace(s, slot)
    ensures var t := AddDirectory(s, slot, now); Collected(t) && SizesRight(t)
  {
  }

  lemma AddDirectoryNames(s: Fs, slot: Slot, now: Time)
    requires Collected(s) && NamesRight(s) && GoodPlace(s, slot) && slot !in s.names
    ensures NamesRight(AddDirectory(s, slot, now))
  {
  }

  lemma AddDirectoryLinks(s: Fs, slot: Slot, now: Time)
    requires Collected(s) && NamesRight(s) && LinksRight(s) && slot !in s.names
    ensures LinksRight(AddDirectory(s, slot, now))
  {
    var t := AddDirectory(s, slot, now);
    var j := s.lastIno + 1;
    assert LinkCount(s.names, j) == 0 by { assert LinksTo(s.names, j) == {}; }
    forall i
      ensures LinkCount(t.names, i) == LinkCount(s.names, i) + (if i == j then 1 else 0)
    {
      LinksAfterPut(s.names, slot, Entry(j, Directory), i);
    }
  }

  /** The new directory hangs below a linked one, and no old path can meet its fresh number. */
  lemma AddDirectoryTree(s: Fs, slot: Slot, now: Time)
    requires Collected(s) && NamesRight(s) && LinksRight(s) && IsTree(s) && LinkedDir(s, slot.dir)
    ensures IsTree(AddDirectory(s, slot, now))
  {
    var t := AddDirectory(s, slot, now);
    var j := s.lastIno + 1;
    forall n: nat
      ensures Up(s.dotdot, slot.dir, n) != j
    {
      UpStaysLinked(s, slot.dir, n);
    }
    forall d | LinkedDir(t, d)
      ensures ReachesRoot(t.dotdot, d)
    {
      if d == j {
        assert Up(s.dotdot, slot.dir, 0) == slot.dir;
        var n: nat :| Up(s.dotdot, slot.dir, n) == ROOT;
        SamePath(s.dotdot, t.dotdot, {j}, slot.dir, n);
        assert Up(t.dotdot, j, n + 1) == ROOT;
      } else {
        assert LinkedDir(s, d);
        var n: nat :| Up(s.dotdot, d, n) == ROOT;
        Rehang(s.dotdot, t.dotdot, {j}, d, n);
      }
    }
  }

  lemma AddDirectoryKeeps(s: Fs, slot: Slot, now: Time)
    requires Valid(s) && GoodPlace(s, slot) && slot !in s.names
    ensures Valid(AddDirectory(s, slot, now))
  {
    AddDirectoryShape(s, slot, now);
    AddDirectoryNames(s, slot, now);
    HandlesKept(s, AddDirectory(s, slot, now));
    AddDirectoryLinks(s, slot, now);
    AddDirectoryTree(s, slot, now);
  }

  // ----- Handles -----

  lemma FreshHandle(s: Fs, mode: AccMode)
    requires HandlesRight(s) && s.nextFh < HANDLE_LIMIT
    ensures FhFor(s.nextFh, mode) !in s.open && Number(FhFor(s.nextFh, mode)) == s.nextFh
  {
  }

  lemma AddHandleCounts(s: Fs, i: Ino, mode: AccMode)
    requires HandlesRight(s) && i in s.inodes && s.nextFh < HANDLE_LIMIT
    ensures HandlesRight(AddHandle(s, i, mode))
  {
    FreshHandle(s, mode);
    forall j
      ensures HandleCount(AddHandle(s, i, mode).open, j) == HandleCount(s.open, j) + (if i == j then 1 else 0)
    {
      HandlesAfterOpen(s.open, FhFor(s.nextFh, mode), i, j);
    }
  }

  lemma AddHandleShape(s: Fs, i: Ino, mode: AccMode)
    requires Collected(s) && SizesRight(s) && i in s.inodes
    ensures var t := AddHandle(s, i, mode); Collected(t) && SizesRight(t)
  {
  }

  lemma AddHandleNames(s: Fs, i: Ino, mode: AccMode)
    requires NamesRight(s) && LinksRight(s) && i in s.inodes
    ensures var t := AddHandle(s, i, mode); NamesRight(t) && LinksRight(t)
  {
  }

  lemma AddHandleKeeps(s: Fs, i: Ino, mode: AccMode)
    requires Valid(s) && i in s.inodes && s.nextFh < HANDLE_LIMIT
    ensures Valid(AddHandle(s, i, mode))
  {
    AddHandleShape(s, i, mode);
    AddHandleNames(s, i, mode);
    AddHandleCounts(s, i, mode);
    TreeKept(s, AddHandle(s, i, mode));
  }

  /** The anonymous file starts without links, so its record stands only because the
      handle comes with it. */
  lemma AnonymousShape(s: Fs, mode: AccMode, now: Time)
    requires Collected(s) && SizesRight(s)
    ensures var t := AddHandle(AddAnonymous(s, now), s.lastIno + 1, mode); Collected(t) && SizesRight(t)
  {
  }

  lemma AnonymousNames(s: Fs, now: Time)
    requires Collected(s) && NamesRight(s) && LinksRight(s)
    ensures var a := AddAnonymous(s, now); NamesRight(a) && LinksRight(a)
  {
  }

  lemma AnonymousKeeps(s: Fs, mode: AccMode, now: Time)
    requires Valid(s) && s.nextFh < HANDLE_LIMIT
    ensures Valid(AddHandle(AddAnonymous(s, now), s.lastIno + 1, mode))
  {
    var a := AddAnonymous(s, now);
    var t := AddHandle(a, s.lastIno + 1, mode);
    AnonymousShape(s, mode, now);
    AnonymousNames(s, now);
    AddHandleNames(a, s.lastIno + 1, mode);
    HandlesKept(s, a);
    AddHandleCounts(a, s.lastIno + 1, mode);
    TreeKept(s, t);
  }

  // ----- Collection -----

  /** The state just before `gc_inode` looks at `i`: everything is right, except that
      nothing may be holding `i` any more. */
  ghost predicate Due(s: Fs, i: Ino) {
    && i in s.inodes && i != ROOT && LinkedDir(s, ROOT)
    && (forall j | j in s.inodes ::
          && 1 <= j <= s.lastIno && s.inodes[j].ino == j
          && (j == i || s.inodes[j].hardlinks > 0 || s.inodes[j].handles > 0))
    && (forall j :: j in s.bytes <==> j in s.inodes && s.inodes[j].kind != Directory)
    && (forall j :: j in s.dotdot <==> j in s.inodes && s.inodes[j].kind == Directory && j != ROOT)
  }

  lemma CollectShape(s: Fs, i: Ino)
    requires Due(s, i) && SizesRight(s) && LinksRight(s)
    ensures var t := Collect(s, i); Collected(t) && SizesRight(t) && LinksRight(t)
  {
  }

  /** What is collected has no links, so no name is left dangling. */
  lemma CollectNames(s: Fs, i: Ino)
    requires Due(s, i) && NamesRight(s) && LinksRight(s)
    ensures NamesRight(Collect(s, i))
  {
    if s.inodes[i].hardlinks == 0 {
      assert LinkCount(s.names, i) == 0 && LinksTo(s.names, i) == {};
      forall k | k in s.names
        ensures s.names[k].ino != i && k.dir != i
      {
        assert s.names[k].ino == i ==> k in LinksTo(s.names, i);
      }
    }
  }

  lemma CollectHandles(s: Fs, i: Ino)
    requires HandlesRight(s) && i in s.inodes
    ensures HandlesRight(Collect(s, i))
  {
    HandlesKept(s, Collect(s, i));
  }

  /** A directory that is not linked is not on the way up from any linked one. */
  lemma CollectTree(s: Fs, i: Ino)
    requires Due(s, i) && NamesRight(s) && LinksRight(s) && IsTree(s)
    ensures IsTree(Collect(s, i))
  {
    var t := Collect(s, i);
    forall d | LinkedDir(t, d) && t != s
      ensures ReachesRoot(t.dotdot, d)
    {
      assert LinkedDir(s, d);
      forall n: nat
        ensures Up(s.dotdot, d, n) != i
      {
        UpMissesUnlinked(s, d, i, n);
      }
      Prune(s.dotdot, i, d);
    }
  }

  lemma {:induction false} UpMissesUnlinked(s: Fs, d: Ino, i: Ino, n: nat)
    requires Due(s, i) && NamesRight(s) && LinksRight(s) && LinkedDir(s, d) && s.inodes[i].hardlinks == 0
    ensures Up(s.dotdot, d, n) != i
    decreases n
  {
    if n != 0 && d in s.dotdot {
      assert LinkCount(s.names, d) == 1 && LinksTo(s.names, d) != {};
      var k :| k in LinksTo(s.names, d);
      UpMissesUnlinked(s, k.dir, i, n - 1);
    }
  }

  lemma CollectKeeps(s: Fs, i: Ino)
    requires Due(s, i) && SizesRight(s) && HandlesRight(s) && NamesRight(s) && LinksRight(s) && IsTree(s)
    ensures Valid(Collect(s, i))
  {
    CollectShape(s, i);
    CollectNames(s, i);
    CollectHandles(s, i);
    CollectTree(s, i);
  }

  /** Between losing its name and being collected. */
  function Loosened(s: Fs, slot: Slot, now: Time): Fs
    requires Found(s, slot)
  {
    var t := s.names[slot].ino;
    s.(inodes := s.inodes[t := Unlinked(s.inodes[t], now)], names := s.names - {slot})
  }

  lemma LoosenedShape(s: Fs, slot: Slot, now: Time)
    requires Collected(s) && SizesRight(s) && Found(s, slot) && s.names[slot].ino != ROOT
    ensures Due(Loosened(s, slot, now), s.names[slot].ino) && SizesRight(Loosened(s, slot, now))
  {
  }

  lemma LoosenedNames(s: Fs, slot: Slot, now: Time)
    requires Collected(s) && NamesRight(s) && LinksRight(s) && slot in s.names
    requires s.names[slot].kind == Directory ==> Empty(s, s.names[slot].ino)
    ensures NamesRight(Loosened(s, slot, now))
  {
  }

  lemma LoosenedLinks(s: Fs, slot: Slot, now: Time)
    requires Collected(s) && NamesRight(s) && LinksRight(s) && slot in s.names
    ensures LinksRight(Loosened(s, slot, now))
  {
    forall i
      ensures LinkCount(s.names, i) == LinkCount(s.names - {slot}, i) + (if s.names[slot].ino == i then 1 else 0)
    {
      LinksAfterDrop(s.names, slot, i);
    }
  }

  lemma UnnameKeeps(s: Fs, slot: Slot, now: Time)
    requires Valid(s) && slot in s.names
    requires s.names[slot].kind == Directory ==> Empty(s, s.names[slot].ino)
    ensures Valid(Unname(s, slot, now))
  {
    var u := Loosened(s, slot, now);
    if s.names[slot].kind == Directory {
      OneName(s, slot);
    }
    LoosenedShape(s, slot, now);
    LoosenedNames(s, slot, now);
    LoosenedLinks(s, slot, now);
    HandlesKept(s, u);
    TreeKept(s, u);
    CollectKeeps(u, s.names[slot].ino);
  }

  /** Between giving up a handle and being collected. */
  function Closing(s: Fs, i: Ino, fh: nat): Fs
    requires i in s.inodes
  {
    s.(inodes := s.inodes[i := s.inodes[i].(handles := SaturatingSub(s.inodes[i].handles, 1))],
       open := s.open - {fh})
  }

  lemma ClosingShape(s: Fs, i: Ino, fh: nat)
    requires Collected(s) && SizesRight(s) && i in s.inodes
    ensures var u := Closing(s, i, fh); SizesRight(u) && if i == ROOT then Collected(u) else Due(u, i)
  {
  }

  lemma ClosingNames(s: Fs, i: Ino, fh: nat)
    requires NamesRight(s) && LinksRight(s) && IsTree(s) && i in s.inodes
    ensures var u := Closing(s, i, fh); NamesRight(u) && LinksRight(u) && IsTree(u)
  {
  }

  /** The subtraction that saturates never does: a held handle is counted. */
  lemma ClosingCounts(s: Fs, i: Ino, fh: nat)
    requires HandlesRight(s) && fh in s.open && s.open[fh] == i
    ensures i in s.inodes && s.inodes[i].handles > 0 && HandlesRight(Closing(s, i, fh))
  {
    forall j
      ensures HandleCount(s.open, j) == HandleCount(s.open - {fh}, j) + (if j == i then 1 else 0)
    {
      HandlesAfterRelease(s.open, fh, j);
    }
    assert HandleCount(s.open, i) > 0;
  }

  lemma DropHandleKeeps(s: Fs, i: Ino, fh: nat)
    requires Valid(s) && fh in s.open && s.open[fh] == i
    ensures i in s.inodes && Valid(DropHandle(s, i, fh))
  {
    ClosingCounts(s, i, fh);
    ClosingShape(s, i, fh);
    ClosingNames(s, i, fh);
    if i == ROOT {
      assert DropHandle(s, i, fh) == Closing(s, i, fh);
    } else {
      CollectKeeps(Closing(s, i, fh), i);
    }
  }

  // ----- Names for inodes that are there already -----

  lemma AddNameShape(s: Fs, slot: Slot, i: Ino, now: Time)
    requires Collected(s) && SizesRight(s) && i in s.inodes && s.inodes[i].kind != Directory
    ensures var t := AddName(s, slot, i, now); Collected(t) && SizesRight(t)
  {
  }

  lemma AddNameNames(s: Fs, slot: Slot, i: Ino, now: Time)
    requires NamesRight(s) && GoodPlace(s, slot) && slot !in s.names && i in s.inodes && s.inodes[i].kind != Directory
    ensures NamesRight(AddName(s, slot, i, now))
  {
  }

  lemma AddNameLinks(s: Fs, slot: Slot, i: Ino, now: Time)
    requires LinksRight(s) && LinkedDir(s, ROOT) && slot !in s.names && i in s.inodes && s.inodes[i].kind != Directory
    ensures LinksRight(AddName(s, slot, i, now))
  {
    var t := AddName(s, slot, i, now);
    forall j
      ensures LinkCount(t.names, j) == LinkCount(s.names, j) + (if i == j then 1 else 0)
    {
      LinksAfterPut(s.names, slot, Entry(i, s.inodes[i].kind), j);
    }
  }

  lemma AddNameKeeps(s: Fs, slot: Slot, i: Ino, now: Time)
    requires Valid(s) && GoodPlace(s, slot) && slot !in s.names && i in s.inodes && s.inodes[i].kind != Directory
    ensures Valid(AddName(s, slot, i, now))
  {
    AddNameShape(s, slot, i, now);
    AddNameNames(s, slot, i, now);
    AddNameLinks(s, slot, i, now);
    HandlesKept(s, AddName(s, slot, i, now));
    TreeKept(s, AddName(s, slot, i, now));
  }

  /** A name can be moved to a free place, a directory only where that is not inside it. */
  ghost predicate CanMove(s: Fs, src: Slot, dst: Slot) {
    && src in s.names && GoodPlace(s, dst) && dst !in s.names
    && (s.names[src].kind == Directory ==> !Inside(s.dotdot, dst.dir, s.names[src].ino))
  }

  lemma MoveNameNames(s: Fs, src: Slot, dst: Slot)
    requires Collected(s) && NamesRight(s) && LinksRight(s) && CanMove(s, src, dst)
    ensures var t := MoveName(s, s.names[src], src, dst); Collected(t) && NamesRight(t)
  {
    if s.names[src].kind == Directory {
      OneName(s, src);
    }
  }

  lemma MoveNameLinks(s: Fs, src: Slot, dst: Slot)
    requires LinksRight(s) && src in s.names && dst !in s.names
    ensures LinksRight(MoveName(s, s.names[src], src, dst))
  {
    forall i
      ensures LinkCount(MoveName(s, s.names[src], src, dst).names, i) == LinkCount(s.names, i)
    {
      LinksAfterDrop(s.names, src, i);
      LinksAfterPut(s.names - {src}, dst, s.names[src], i);
    }
  }

  lemma MoveNameTree(s: Fs, src: Slot, dst: Slot)
    requires NamesRight(s) && IsTree(s) && Collected(s) && CanMove(s, src, dst)
    ensures IsTree(MoveName(s, s.names[src], src, dst))
  {
    var e := s.names[src];
    var t := MoveName(s, e, src, dst);
    if e.kind == Directory {
      forall d | LinkedDir(t, d)
        ensures ReachesRoot(t.dotdot, d)
      {
        assert LinkedDir(s, d);
        var n: nat :| Up(s.dotdot, d, n) == ROOT;
        Rehang(s.dotdot, t.dotdot, {e.ino}, d, n);
      }
    } else {
      TreeKept(s, t);
    }
  }

  lemma MoveNameKeeps(s: Fs, src: Slot, dst: Slot)
    requires Valid(s) && CanMove(s, src, dst)
    ensures Valid(MoveName(s, s.names[src], src, dst))
  {
    MoveNameNames(s, src, dst);
    MoveNameLinks(s, src, dst);
    MoveNameTree(s, src, dst);
    HandlesKept(s, MoveName(s, s.names[src], src, dst));
  }

  /** Two names can trade places when neither inode is above the other's place. */
  ghost predicate CanSwap(s: Fs, src: Slot, dst: Slot) {
    && src in s.names && dst in s.names
    && !Inside(s.dotdot, dst.dir, s.names[src].ino) && !Inside(s.dotdot, src.dir, s.names[dst].ino)
  }

  function Swapped(s: Fs, src: Slot, dst: Slot): Fs
    requires src in s.names && dst in s.names
  {
    SwapNames(s, s.names[src], s.names[dst], src, dst)
  }

  lemma SwapNamesShape(s: Fs, src: Slot, dst: Slot)
    requires Collected(s) && NamesRight(s) && src in s.names && dst in s.names
    ensures Collected(Swapped(s, src, dst))
  {
  }

  lemma SwapNamesNames(s: Fs, src: Slot, dst: Slot)
    requires Collected(s) && NamesRight(s) && LinksRight(s) && CanSwap(s, src, dst)
    ensures NamesRight(Swapped(s, src, dst))
  {
    var t := Swapped(s, src, dst);
    forall k | k in t.names && t.names[k].kind == Directory
      ensures t.names[k].ino in t.dotdot && t.dotdot[t.names[k].ino] == k.dir
    {
      var before := if k == src then dst else if k == dst then src else k;
      OneName(s, before);
      assert src in LinksTo(s.names, s.names[src].ino) && dst in LinksTo(s.names, s.names[dst].ino);
    }
  }

  lemma SwapNamesLinks(s: Fs, src: Slot, dst: Slot)
    requires LinksRight(s) && src in s.names && dst in s.names
    ensures LinksRight(Swapped(s, src, dst))
  {
    var e, f, t := s.names[src], s.names[dst], Swapped(s, src, dst);
    if src != dst {
      var rest := s.names - {src} - {dst};
      assert t.names == rest[dst := e][src := f];
      forall i
        ensures LinkCount(t.names, i) == LinkCount(s.names, i)
      {
        LinksAfterDrop(s.names, src, i);
        LinksAfterDrop(s.names - {src}, dst, i);
        LinksAfterPut(rest, dst, e, i);
        LinksAfterPut(rest[dst := e], src, f, i);
      }
    } else {
      assert t.names == s.names;
    }
  }

  /** A named directory is not above the directory that holds it. */
  lemma NotInOwnParent(s: Fs, k: Slot)
    requires Collected(s) && NamesRight(s) && LinksRight(s) && IsTree(s) && k in s.names && s.names[k].kind == Directory
    ensures !Inside(s.dotdot, k.dir, s.names[k].ino)
  {
    OneName(s, k);
    var d := s.names[k].ino;
    var n: nat :| Up(s.dotdot, d, n) == ROOT;
    NoCycle(s.dotdot, d, n);
  }

  lemma SwapNamesTree(s: Fs, src: Slot, dst: Slot)
    requires Collected(s) && NamesRight(s) && LinksRight(s) && IsTree(s) && CanSwap(s, src, dst)
    ensures IsTree(Swapped(s, src, dst))
  {
    var e, f, t := s.names[src], s.names[dst], Swapped(s, src, dst);
    if e.kind == Directory {
      NotInOwnParent(s, src);
      OneName(s, src);
    }
    if f.kind == Directory {
      NotInOwnParent(s, dst);
      OneName(s, dst);
    }
    var moved := (if e.kind == Directory then {e.ino} else {}) + (if f.kind == Directory then {f.ino} else {});
    forall d | LinkedDir(t, d)
      ensures ReachesRoot(t.dotdot, d)
    {
      assert LinkedDir(s, d);
      var n: nat :| Up(s.dotdot, d, n) == ROOT;
      Rehang(s.dotdot, t.dotdot, moved, d, n);
    }
  }

  lemma SwapNamesKeeps(s: Fs, src: Slot, dst: Slot)
    requires Valid(s) && CanSwap(s, src, dst)
    ensures Valid(Swapped(s, src, dst))
  {
    SwapNamesShape(s, src, dst);
    SwapNamesNames(s, src, dst);
    SwapNamesLinks(s, src, dst);
    SwapNamesTree(s, src, dst);
    HandlesKept(s, Swapped(s, src, dst));
  }
}
