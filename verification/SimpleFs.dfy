/** The file system program: records and content files rewritten pass by pass. Every request
    is proved to take the one step that Namespace gives for it. */
module SimpleFs {
  import opened DirTree
  import opened FileContents
  import opened Handles
  import InodeFlags
  import opened Namespace
  import opened NamespaceRuns
  import opened Options
  import opened Stores
  import opened WriteTheorems
  import Dirents
  import Readdir

  /** What a valid state says about a place a request names, in terms of the stores. */
  lemma PlaceFacts(inodes: map<Ino, Inode>, contents: map<Ino, Content>, s: Fs, at: Slot)
    requires WellFormed(inodes, contents) && s.inodes == inodes && s.names == NamesIn(contents)
    requires Namespace.Valid(s) && GoodPlace(s, at)
    ensures at.dir in inodes && inodes[at.dir].ino == at.dir && IsDir(contents, at.dir)
    ensures at in s.names <==> at.name in contents[at.dir].entries
    ensures s.lastIno + 1 !in inodes && s.lastIno + 1 !in contents && s.lastIno + 1 != ROOT
    ensures at in s.names ==>
              var e := s.names[at];
              && e == contents[at.dir].entries[at.name]
              && e.ino != ROOT && e.ino in inodes && e.ino in contents && inodes[e.ino].ino == e.ino && inodes[e.ino].kind == e.kind
              && (contents[e.ino].Dir? <==> e.kind == Directory)
              && (e.kind != Directory ==> inodes[e.ino].hardlinks > 0 && forall k | k in s.names :: k.dir != e.ino)
              && (e.kind == Directory ==>
                    && e.ino != at.dir
                    && (|contents[e.ino].entries| > 2 <==> !Empty(s, e.ino)))
  {
    assert s.lastIno + 1 !in contents.Keys;
    if at in s.names {
      var e := s.names[at];
      assert e.ino in contents.Keys;
      assert at in LinksTo(s.names, e.ino) && LinkCount(s.names, e.ino) > 0;
      if e.kind == Directory {
        NamespaceUpdates.OneName(s, at);
        NamespaceUpdates.NotInOwnParent(s, at);
        assert Up(s.dotdot, at.dir, 0) == at.dir;
        MoreThanTwo(inodes, contents, e.ino);
      }
    }
  }

  /** Records carry their own number, and the next number is free. */
  lemma NumberFacts(inodes: map<Ino, Inode>, contents: map<Ino, Content>, s: Fs)
    requires WellFormed(inodes, contents) && s.inodes == inodes && Namespace.Valid(s)
    ensures s.lastIno + 1 !in inodes && s.lastIno + 1 !in contents && s.lastIno + 1 != ROOT
    ensures forall i | i in inodes :: inodes[i].ino == i && i in contents && (contents[i].Dir? <==> inodes[i].kind == Directory)
  {
  }

  lemma RecordFacts(inodes: map<Ino, Inode>, contents: map<Ino, Content>, s: Fs, i: Ino)
    requires WellFormed(inodes, contents) && s.inodes == inodes && Namespace.Valid(s)
    ensures i in inodes ==> inodes[i].ino == i && i in contents && (contents[i].Dir? <==> inodes[i].kind == Directory)
  {
  }

  /** The inodes a rename names are apart from the directories it names them in. */
  lemma RenamePlaces(inodes: map<Ino, Inode>, contents: map<Ino, Content>, s: Fs, src: Slot, dst: Slot, flags: RenameFlags)
    requires WellFormed(inodes, contents) && s.inodes == inodes && s.names == NamesIn(contents)
    requires Namespace.Valid(s) && RenameAllowed(s, src, dst, flags)
    ensures Ordinary(src.name) && Ordinary(dst.name)
    ensures src.dir in inodes && inodes[src.dir].ino == src.dir && IsDir(contents, src.dir)
    ensures dst.dir in inodes && inodes[dst.dir].ino == dst.dir && IsDir(contents, dst.dir)
    ensures s.lastIno + 1 !in inodes && s.lastIno + 1 != ROOT
    ensures src in s.names <==> src.name in contents[src.dir].entries
    ensures dst in s.names <==> dst.name in contents[dst.dir].entries
    ensures src in s.names ==> Stored(inodes, contents, s, src) && s.names[src].ino != src.dir && s.names[src].ino != dst.dir
    ensures dst in s.names ==> Stored(inodes, contents, s, dst) && s.names[dst].ino != dst.dir
    ensures src in s.names && dst in s.names && flags.exchange ==> s.names[dst].ino != src.dir
    ensures src in s.names && dst in s.names && !flags.exchange ==> src != dst && s.names[dst].ino != s.names[src].ino
    ensures dst in s.names && s.names[dst].kind != Directory ==> Empty(s, s.names[dst].ino)
  {
    PlaceFacts(inodes, contents, s, src);
    PlaceFacts(inodes, contents, s, dst);
    assert Up(s.dotdot, src.dir, 0) == src.dir && Up(s.dotdot, dst.dir, 0) == dst.dir;
  }

  /** A name in the flat table, its entry in the content file, and the record it leads to. */
  predicate Stored(inodes: map<Ino, Inode>, contents: map<Ino, Content>, s: Fs, at: Slot)
    requires at in s.names
  {
    var e := s.names[at];
    && IsDir(contents, at.dir) && at.name in contents[at.dir].entries && contents[at.dir].entries[at.name] == e
    && e.ino != ROOT && e.ino in inodes && e.ino in contents && inodes[e.ino].ino == e.ino && inodes[e.ino].kind == e.kind
    && (contents[e.ino].Dir? <==> e.kind == Directory)
    && (e.kind == Directory ==> (|contents[e.ino].entries| > 2 <==> !Empty(s, e.ino)))
  }

  lemma ReleaseFacts(s: Fs, i: Ino, fh: nat)
    requires Namespace.Valid(s) && fh in s.open && s.open[fh] == i
    ensures i in s.inodes && s.inodes[i].hardlinks == 0 ==> forall k | k in s.names :: k.dir != i
    ensures ROOT in s.inodes && s.inodes[ROOT].hardlinks == 2
  {
  }

  /** The rows of a directory's listing are its names in the flat table, with `.` for itself
      and `..` for the directory that holds it; the root has no `..`. */
  lemma ListingIsDirectory(inodes: map<Ino, Inode>, contents: map<Ino, Content>, d: Ino, rows: seq<Readdir.Row>)
    requires WellFormed(inodes, contents) && IsDir(contents, d) && Readdir.IsListing(rows, contents[d].entries)
    ensures forall k | 0 <= k < |rows| && Ordinary(rows[k].name) ::
              Slot(d, rows[k].name) in NamesIn(contents) && NamesIn(contents)[Slot(d, rows[k].name)] == rows[k].entry
    ensures forall n | Slot(d, n) in NamesIn(contents) :: Readdir.Row(n, NamesIn(contents)[Slot(d, n)]) in rows
    ensures Readdir.Row(DOT, Entry(d, Directory)) in rows
    ensures if d == ROOT then forall k | 0 <= k < |rows| :: rows[k].name != DOTDOT
            else d in UpIn(contents) && Readdir.Row(DOTDOT, Entry(UpIn(contents)[d], Directory)) in rows
  {
  }

  datatype Result<T> = Ok(data: T) | Err(errno: Errno)

  class SimpleFs {
    var inodes: map<Ino, Inode>
    var contents: map<Ino, Content>
    var superblock: Ino
    var nextFileHandle: nat
    ghost var open: map<nat, Ino>

    ghost function Abs(): Fs
      reads this
    {
      FsOf(inodes, contents, superblock, nextFileHandle, open)
    }

    ghost predicate Valid()
      reads this
    {
      WellFormed(inodes, contents) && Namespace.Valid(Abs())
    }

    /** `new` and `init` on an empty data directory. */
    constructor (now: Time)
      ensures Valid() && Abs() == Namespace.Init(now)
    {
      inodes := map[ROOT := Inode(ROOT, Directory, 2, 0, 0, now, now, {})];
      contents := map[ROOT := Dir(map[DOT := Entry(ROOT, Directory)])];
      superblock := ROOT;
      nextFileHandle := 1;
      open := map[];
      new;
      NamespaceUpdates.InitIsValid(now);
      assert Abs() == Namespace.Init(now);
    }

    // ----- Access to the stores -----

    function GetInode(i: Ino): Option<Inode>
      reads this
    {
      if i in inodes then Some(inodes[i]) else None
    }

    method WriteInode(a: Inode)
      modifies this`inodes
      ensures inodes == old(inodes)[a.ino := a]
    {
      inodes := inodes[a.ino := a];
    }

    function GetDirectoryContent(d: Ino): (entries: map<Name, Entry>)
      requires IsDir(contents, d)
      reads this
    {
      contents[d].entries
    }

    method WriteDirectoryContent(d: Ino, entries: map<Name, Entry>)
      modifies this`contents
      ensures contents == old(contents)[d := Dir(entries)]
    {
      contents := contents[d := Dir(entries)];
    }

    function LookupName(parent: Ino, name: Name): Option<Inode>
      requires parent in contents ==> contents[parent].Dir?
      reads this
    {
      if parent in contents && name in contents[parent].entries then GetInode(contents[parent].entries[name].ino) else None
    }

    method AllocateNextInode() returns (i: Ino)
      modifies this`superblock
      ensures i == superblock == old(superblock) + 1
    {
      superblock := superblock + 1;
      i := superblock;
    }

    method AllocateNextFileHandle(mode: AccMode) returns (fh: nat)
      requires nextFileHandle < HANDLE_LIMIT
      modifies this`nextFileHandle
      ensures fh == FhFor(old(nextFileHandle), mode) && nextFileHandle == old(nextFileHandle) + 1
    {
      fh := FhFor(nextFileHandle, mode);
      nextFileHandle := nextFileHandle + 1;
    }

    method GcInode(a: Inode)
      requires WellFormed(inodes, contents) && a.ino in inodes && inodes[a.ino] == a
      requires Unheld(a) ==> a.ino != ROOT && forall k | k in NamesIn(contents) :: k.dir != a.ino
      modifies this`inodes, this`contents
      ensures Abs() == Collect(old(Abs()), a.ino) && WellFormed(inodes, contents)
      ensures contents == ContentsAfterGc(old(contents), a)
    {
      GcPasses(inodes, contents, a);
      if a.hardlinks == 0 && a.handles == 0 {
        inodes := inodes - {a.ino};
        contents := contents - {a.ino};
      }
    }

    // ----- Requests that make inodes -----

    /** A record and its content file, neither of which was there. */
    method StoreFile(attrs: Inode, data: seq<byte>)
      requires WellFormed(inodes, contents) && attrs.ino !in inodes && attrs.ino != ROOT && attrs.kind != Directory
      modifies this`inodes, this`contents
      ensures WellFormed(inodes, contents) && inodes == old(inodes)[attrs.ino := attrs]
      ensures contents == old(contents)[attrs.ino := Bytes(data)]
      ensures NamesIn(contents) == old(NamesIn(contents)) && UpIn(contents) == old(UpIn(contents))
      ensures BytesIn(contents) == old(BytesIn(contents))[attrs.ino := data]
    {
      NewFile(inodes, contents, attrs, data);
      WriteInode(attrs);
      contents := contents[attrs.ino := Bytes(data)];
    }

    /** The passes `mknod` and `create` make once their checks are done. The empty content
        file keeps removal uniform across every kind. */
    method MakeNode(parentAttrs: Inode, name: Name, kind: Kind, handles: nat, now: Time) returns (inode: Ino)
      requires WellFormed(inodes, contents) && Ordinary(name) && kind != Directory
      requires parentAttrs.ino in inodes && inodes[parentAttrs.ino] == parentAttrs && IsDir(contents, parentAttrs.ino)
      requires superblock + 1 !in inodes && superblock + 1 != ROOT
      modifies this`inodes, this`contents, this`superblock
      ensures WellFormed(inodes, contents) && inode == superblock == old(superblock) + 1
      ensures inodes == old(inodes)[parentAttrs.ino := Modified(parentAttrs, now)]
                                   [inode := Inode(inode, kind, 1, handles, 0, now, now, {})]
      ensures NamesIn(contents) == old(NamesIn(contents))[Slot(parentAttrs.ino, name) := Entry(inode, kind)]
      ensures UpIn(contents) == old(UpIn(contents)) && BytesIn(contents) == old(BytesIn(contents))[inode := []]
    {
      hide WellFormed, NamesIn, UpIn, BytesIn;
      WriteInode(Modified(parentAttrs, now));
      RecordsOnly(old(inodes), inodes, contents);
      inode := AllocateNextInode();
      var attrs := Inode(inode, kind, 1, handles, 0, now, now, {});
      StoreFile(attrs, []);
      var entries := GetDirectoryContent(parentAttrs.ino);
      NewEntry(inodes, contents, Slot(parentAttrs.ino, name), Entry(inode, kind));
      WriteDirectoryContent(parentAttrs.ino, entries[name := Entry(inode, attrs.kind)]);
    }

    /** A new inode of any kind but directory; the empty content file keeps removal uniform. */
    method DoMknod(parent: Ino, name: Name, kind: Kind, may: bool, now: Time) returns (reply: Reply)
      requires Valid() && Allowed(Abs(), Mknod(Slot(parent, name), kind, may, now))
      modifies this
      ensures Valid() && Outcome(Abs(), reply) == Apply(old(Abs()), Mknod(Slot(parent, name), kind, may, now))
    {
      hide Namespace.Valid, WellFormed, NamesIn, UpIn, BytesIn, FhFor;
      ghost var s := Abs();
      ghost var at := Slot(parent, name);
      PlaceFacts(inodes, contents, s, at);
      StepKeepsValid(s, Mknod(at, kind, may, now));
      if LookupName(parent, name) != None {
        return Error(EEXIST);
      }
      var read := GetInode(parent);
      if read == None {
        return Error(ENOENT);
      }
      var parentAttrs := read.value;
      if parentAttrs.Immutable() {
        return Error(EPERM);
      }
      if !may {
        return Error(EACCES);
      }
      var inode := MakeNode(parentAttrs, name, kind, 0, now);
      Agrees(inodes, contents, superblock, nextFileHandle, open, Apply(s, Mknod(at, kind, may, now)).fs);
      return Made(inode);
    }

    method MakeDirectory(parentAttrs: Inode, name: Name, now: Time) returns (inode: Ino)
      requires WellFormed(inodes, contents) && Ordinary(name)
      requires parentAttrs.ino in inodes && inodes[parentAttrs.ino] == parentAttrs && IsDir(contents, parentAttrs.ino)
      requires superblock + 1 !in inodes && superblock + 1 != ROOT
      modifies this`inodes, this`contents, this`superblock
      ensures WellFormed(inodes, contents) && inode == superblock == old(superblock) + 1
      ensures inodes == old(inodes)[parentAttrs.ino := Modified(parentAttrs, now)]
                                   [inode := Inode(inode, Directory, 2, 0, BLOCK_SIZE, now, now, {})]
      ensures NamesIn(contents) == old(NamesIn(contents))[Slot(parentAttrs.ino, name) := Entry(inode, Directory)]
      ensures UpIn(contents) == old(UpIn(contents))[inode := parentAttrs.ino] && BytesIn(contents) == old(BytesIn(contents))
    {
      hide WellFormed, NamesIn, UpIn, BytesIn;
      var parent := parentAttrs.ino;
      WriteInode(Modified(parentAttrs, now));
      RecordsOnly(old(inodes), inodes, contents);
      inode := AllocateNextInode();
      var attrs := Inode(inode, Directory, 2, 0, BLOCK_SIZE, now, now, {});
      NewDirectory(inodes, contents, attrs, parent);
      WriteInode(attrs);
      WriteDirectoryContent(inode, map[DOT := Entry(inode, Directory), DOTDOT := Entry(parent, Directory)]);
      var entries := GetDirectoryContent(parent);
      NewEntry(inodes, contents, Slot(parent, name), Entry(inode, Directory));
      WriteDirectoryContent(parent, entries[name := Entry(inode, Directory)]);
    }

    method DoMkdir(parent: Ino, name: Name, may: bool, now: Time) returns (reply: Reply)
      requires Valid() && Allowed(Abs(), Mkdir(Slot(parent, name), may, now))
      modifies this
      ensures Valid() && Outcome(Abs(), reply) == Apply(old(Abs()), Mkdir(Slot(parent, name), may, now))
    {
      hide Namespace.Valid, WellFormed, NamesIn, UpIn, BytesIn, FhFor;
      ghost var s := Abs();
      ghost var at := Slot(parent, name);
      PlaceFacts(inodes, contents, s, at);
      StepKeepsValid(s, Mkdir(at, may, now));
      if LookupName(parent, name) != None {
        return Error(EEXIST);
      }
      var read := GetInode(parent);
      if read == None {
        return Error(ENOENT);
      }
      var parentAttrs := read.value;
      if parentAttrs.Immutable() {
        return Error(EPERM);
      }
      if !may {
        return Error(EACCES);
      }
      var inode := MakeDirectory(parentAttrs, name, now);
      Agrees(inodes, contents, superblock, nextFileHandle, open, Apply(s, Mkdir(at, may, now)).fs);
      return Made(inode);
    }

    /** The part of `link` and `symlink` that adds the entry. The inode named need not be
        there yet. */
    method InsertLink(parent: Ino, name: Name, inode: Ino, kind: Kind, may: bool, now: Time) returns (refused: Reply)
      requires WellFormed(inodes, contents) && Ordinary(name)
      requires parent in inodes && inodes[parent].ino == parent && IsDir(contents, parent)
      modifies this`inodes, this`contents
      ensures refused == AddRefusal(old(Abs()), Slot(parent, name), may)
      ensures WellFormed(inodes, contents) && inodes.Keys == old(inodes.Keys) && contents.Keys == old(contents.Keys)
      ensures refused != Done ==> inodes == old(inodes) && contents == old(contents)
      ensures refused == Done ==>
                && inodes == TouchIn(old(inodes), parent, now)
                && NamesIn(contents) == old(NamesIn(contents))[Slot(parent, name) := Entry(inode, kind)]
                && UpIn(contents) == old(UpIn(contents)) && BytesIn(contents) == old(BytesIn(contents))
    {
      hide UpIn, BytesIn;
      ghost var at := Slot(parent, name);
      if LookupName(parent, name) != None {
        return Error(EEXIST);
      }
      var read := GetInode(parent);
      if read == None {
        return Error(ENOENT);
      }
      var parentAttrs := read.value;
      if parentAttrs.Immutable() {
        return Error(EPERM);
      }
      if !may {
        return Error(EACCES);
      }
      WriteInode(Modified(parentAttrs, now));
      RecordsOnly(old(inodes), inodes, contents);
      var entries := GetDirectoryContent(parent);
      NewEntry(inodes, contents, at, Entry(inode, kind));
      WriteDirectoryContent(parent, entries[name := Entry(inode, kind)]);
      return Done;
    }

    /** The passes `symlink` makes once the parent has been checked. The name is tested after
        the parent's times have moved and an inode number has been spent. */
    method MakeSymlink(parentAttrs: Inode, name: Name, target: seq<byte>, now: Time) returns (reply: Reply)
      requires WellFormed(inodes, contents) && Ordinary(name)
      requires parentAttrs.ino in inodes && inodes[parentAttrs.ino] == parentAttrs && IsDir(contents, parentAttrs.ino)
      requires !parentAttrs.Immutable() && superblock + 1 !in inodes && superblock + 1 != ROOT
      modifies this`inodes, this`contents, this`superblock
      ensures WellFormed(inodes, contents) && superblock == old(superblock) + 1
      ensures var taken := Found(old(Abs()), Slot(parentAttrs.ino, name));
              && reply == (if taken then Error(EEXIST) else Made(superblock))
              && inodes == (if taken then TouchIn(old(inodes), parentAttrs.ino, now)
                            else TouchIn(old(inodes), parentAttrs.ino, now)
                                 [superblock := Inode(superblock, Symlink, 1, 0, |target|, now, now, {})])
              && NamesIn(contents) == (if taken then old(NamesIn(contents))
                                       else old(NamesIn(contents))[Slot(parentAttrs.ino, name) := Entry(superblock, Symlink)])
              && UpIn(contents) == old(UpIn(contents))
              && BytesIn(contents) == (if taken then old(BytesIn(contents)) else old(BytesIn(contents))[superblock := target])
    {
      hide WellFormed, NamesIn, UpIn, BytesIn;
      WriteInode(Modified(parentAttrs, now));
      RecordsOnly(old(inodes), inodes, contents);
      var inode := AllocateNextInode();
      var attrs := Inode(inode, Symlink, 1, 0, |target|, now, now, {});
      var refused := InsertLink(parentAttrs.ino, name, inode, Symlink, true, now);
      if refused != Done {
        return refused;
      }
      StoreFile(attrs, target);
      return Made(inode);
    }

    method DoSymlink(parent: Ino, name: Name, target: seq<byte>, may: bool, now: Time) returns (reply: Reply)
      requires Valid() && Allowed(Abs(), SymlinkAt(Slot(parent, name), target, may, now))
      modifies this
      ensures Valid() && Outcome(Abs(), reply) == Apply(old(Abs()), SymlinkAt(Slot(parent, name), target, may, now))
    {
      hide Namespace.Valid, WellFormed, NamesIn, UpIn, BytesIn, FhFor;
      ghost var s := Abs();
      ghost var at := Slot(parent, name);
      PlaceFacts(inodes, contents, s, at);
      StepKeepsValid(s, SymlinkAt(at, target, may, now));
      var read := GetInode(parent);
      if read == None {
        return Error(ENOENT);
      }
      var parentAttrs := read.value;
      if parentAttrs.Immutable() {
        return Error(EPERM);
      }
      if !may {
        return Error(EACCES);
      }
      reply := MakeSymlink(parentAttrs, name, target, now);
      Agrees(inodes, contents, superblock, nextFileHandle, open, Apply(s, SymlinkAt(at, target, may, now)).fs);
    }

    method DoCreate(parent: Ino, name: Name, mode: AccMode, may: bool, now: Time) returns (reply: Reply)
      requires Valid() && Allowed(Abs(), Create(Slot(parent, name), mode, may, now))
      modifies this
      ensures Valid() && Outcome(Abs(), reply) == Apply(old(Abs()), Create(Slot(parent, name), mode, may, now))
    {
      hide Namespace.Valid, WellFormed, NamesIn, UpIn, BytesIn, FhFor;
      ghost var s := Abs();
      ghost var at := Slot(parent, name);
      PlaceFacts(inodes, contents, s, at);
      StepKeepsValid(s, Create(at, mode, may, now));
      assert s.nextFh < HANDLE_LIMIT;
      hide Allowed;
      if LookupName(parent, name) != None {
        return Error(EEXIST);
      }
      if mode.Malformed? {
        return Error(EINVAL);
      }
      var read := GetInode(parent);
      if read == None {
        return Error(ENOENT);
      }
      var parentAttrs := read.value;
      if parentAttrs.Immutable() {
        return Error(EPERM);
      }
      if !may {
        return Error(EACCES);
      }
      var inode := MakeNode(parentAttrs, name, File, 1, now);
      var fh := AllocateNextFileHandle(mode);
      open := open[fh := inode];
      Agrees(inodes, contents, superblock, nextFileHandle, open, Apply(s, Create(at, mode, may, now)).fs);
      return Created(inode, fh);
    }

    method DoTmpfile(dir: Ino, mode: AccMode, may: bool, now: Time) returns (reply: Reply)
      requires Valid() && Allowed(Abs(), Tmpfile(dir, mode, may, now))
      modifies this
      ensures Valid() && Outcome(Abs(), reply) == Apply(old(Abs()), Tmpfile(dir, mode, may, now))
    {
      hide Namespace.Valid, WellFormed, NamesIn, UpIn, BytesIn, FhFor;
      ghost var s := Abs();
      NumberFacts(inodes, contents, s);
      StepKeepsValid(s, Tmpfile(dir, mode, may, now));
      assert s.nextFh < HANDLE_LIMIT;
      hide Allowed;
      if mode.Malformed? || mode.ReadOnly? {
        return Error(EINVAL);
      }
      var read := GetInode(dir);
      if read == None {
        return Error(ENOENT);
      }
      var parentAttrs := read.value;
      if parentAttrs.kind != Directory {
        return Error(ENOTDIR);
      }
      if parentAttrs.Immutable() {
        return Error(EPERM);
      }
      if !may {
        return Error(EACCES);
      }
      var inode := AllocateNextInode();
      var attrs := Inode(inode, File, 0, 1, 0, now, now, {});
      StoreFile(attrs, []);
      var fh := AllocateNextFileHandle(mode);
      open := open[fh := inode];
      Agrees(inodes, contents, superblock, nextFileHandle, open, Apply(s, Tmpfile(dir, mode, may, now)).fs);
      return Created(inode, fh);
    }

    // ----- Requests that change names -----

    /** The passes `unlink` and `rmdir` make once their checks are done; they differ in the
        link count they write. The record goes before the entry does. */
    method Remove(parentAttrs: Inode, name: Name, attrs: Inode, now: Time)
      requires WellFormed(inodes, contents) && Ordinary(name) && parentAttrs.ino != attrs.ino && attrs.ino != ROOT
      requires parentAttrs.ino in inodes && inodes[parentAttrs.ino] == parentAttrs && IsDir(contents, parentAttrs.ino)
      requires attrs.ino in inodes && inodes[attrs.ino].kind == attrs.kind
      requires forall k | k in NamesIn(contents) :: k.dir != attrs.ino
      modifies this`inodes, this`contents
      ensures WellFormed(inodes, contents)
      ensures var touched := old(Abs()).(inodes := old(inodes)[parentAttrs.ino := Modified(parentAttrs, now)][attrs.ino := attrs]);
              Abs() == Collect(touched, attrs.ino).(names := touched.names - {Slot(parentAttrs.ino, name)})
    {
      hide WellFormed, NamesIn, UpIn, BytesIn;
      WriteInode(Modified(parentAttrs, now));
      WriteInode(attrs);
      RecordsOnly(old(inodes), inodes, contents);
      GcInode(attrs);
      var entries := GetDirectoryContent(parentAttrs.ino);
      NoEntry(inodes, contents, Slot(parentAttrs.ino, name));
      WriteDirectoryContent(parentAttrs.ino, entries - {name});
    }

    method DoUnlink(parent: Ino, name: Name, may: bool, sticky: bool, now: Time) returns (reply: Reply)
      requires Valid() && Allowed(Abs(), Unlink(Slot(parent, name), may, sticky, now))
      modifies this
      ensures Valid() && Outcome(Abs(), reply) == Apply(old(Abs()), Unlink(Slot(parent, name), may, sticky, now))
    {
      hide Namespace.Valid, WellFormed, NamesIn, UpIn, BytesIn, FhFor;
      ghost var s := Abs();
      ghost var at := Slot(parent, name);
      PlaceFacts(inodes, contents, s, at);
      StepKeepsValid(s, Unlink(at, may, sticky, now));
      var found := LookupName(parent, name);
      if found == None {
        return Error(ENOENT);
      }
      var attrs := found.value;
      var read := GetInode(parent);
      if read == None {
        return Error(ENOENT);
      }
      var parentAttrs := read.value;
      if !parentAttrs.Removable() || !attrs.Removable() {
        return Error(EPERM);
      }
      if !may || !sticky {
        return Error(EACCES);
      }
      Remove(parentAttrs, name, attrs.(hardlinks := SaturatingSub(attrs.hardlinks, 1), ctime := now), now);
      assert Abs() == Apply(s, Unlink(at, may, sticky, now)).fs;
      return Done;
    }

    method DoRmdir(parent: Ino, name: Name, may: bool, sticky: bool, now: Time) returns (reply: Reply)
      requires Valid() && Allowed(Abs(), Rmdir(Slot(parent, name), may, sticky, now))
      modifies this
      ensures Valid() && Outcome(Abs(), reply) == Apply(old(Abs()), Rmdir(Slot(parent, name), may, sticky, now))
    {
      hide Namespace.Valid, WellFormed, NamesIn, UpIn, BytesIn, FhFor;
      ghost var s := Abs();
      ghost var at := Slot(parent, name);
      PlaceFacts(inodes, contents, s, at);
      StepKeepsValid(s, Rmdir(at, may, sticky, now));
      var found := LookupName(parent, name);
      if found == None {
        return Error(ENOENT);
      }
      var attrs := found.value;
      var read := GetInode(parent);
      if read == None {
        return Error(ENOENT);
      }
      var parentAttrs := read.value;
      if !parentAttrs.Removable() || !attrs.Removable() {
        return Error(EPERM);
      }
      var children := GetDirectoryContent(attrs.ino);
      if |children| > 2 {
        return Error(ENOTEMPTY);
      }
      if !may || !sticky {
        return Error(EACCES);
      }
      Remove(parentAttrs, name, attrs.(hardlinks := 0, ctime := now), now);
      assert Abs() == Apply(s, Rmdir(at, may, sticky, now)).fs;
      return Done;
    }

    method DoLink(ino: Ino, parent: Ino, name: Name, may: bool, now: Time) returns (reply: Reply)
      requires Valid() && Allowed(Abs(), Link(ino, Slot(parent, name), may, now))
      modifies this
      ensures Valid() && Outcome(Abs(), reply) == Apply(old(Abs()), Link(ino, Slot(parent, name), may, now))
    {
      hide Namespace.Valid, WellFormed, NamesIn, UpIn, BytesIn, FhFor;
      ghost var s := Abs();
      ghost var at := Slot(parent, name);
      PlaceFacts(inodes, contents, s, at);
      RecordFacts(inodes, contents, s, ino);
      StepKeepsValid(s, Link(ino, at, may, now));
      var read := GetInode(ino);
      if read == None {
        return Error(ENOENT);
      }
      var attrs := read.value;
      if !attrs.Removable() {
        return Error(EPERM);
      }
      var refused := InsertLink(parent, name, ino, attrs.kind, may, now);
      if refused != Done {
        return refused;
      }
      ghost var before := inodes;
      WriteInode(attrs.(hardlinks := attrs.hardlinks + 1, ctime := now));
      RecordsOnly(before, inodes, contents);
      Agrees(inodes, contents, superblock, nextFileHandle, open, Apply(s, Link(ino, at, may, now)).fs);
      return Made(ino);
    }

    /** The last passes of a rename. The copies of the parents' records were read before
        anything was written. */
    method FinishRename(parentAttrs: Inode, newParentAttrs: Inode, attrs: Inode, now: Time)
      requires WellFormed(inodes, contents)
      requires parentAttrs.ino in inodes && inodes[parentAttrs.ino] == parentAttrs
      requires newParentAttrs.ino in inodes && inodes[newParentAttrs.ino] == newParentAttrs
      requires attrs.ino in inodes && inodes[attrs.ino] == attrs
      requires attrs.ino != parentAttrs.ino && attrs.ino != newParentAttrs.ino
      modifies this`inodes
      ensures WellFormed(inodes, contents)
      ensures inodes == FinishIn(old(inodes), parentAttrs.ino, newParentAttrs.ino, attrs.ino, now)
    {
      WriteInode(Modified(parentAttrs, now));
      WriteInode(Modified(newParentAttrs, now));
      WriteInode(attrs.(ctime := now));
      RecordsOnly(old(inodes), inodes, contents);
    }

    method FinishExchange(parentAttrs: Inode, newParentAttrs: Inode, attrs: Inode, newAttrs: Inode, now: Time)
      requires WellFormed(inodes, contents)
      requires parentAttrs.ino in inodes && inodes[parentAttrs.ino] == parentAttrs
      requires newParentAttrs.ino in inodes && inodes[newParentAttrs.ino] == newParentAttrs
      requires attrs.ino in inodes && inodes[attrs.ino] == attrs
      requires newAttrs.ino in inodes && inodes[newAttrs.ino] == newAttrs
      requires attrs.ino != parentAttrs.ino && attrs.ino != newParentAttrs.ino
      requires newAttrs.ino != parentAttrs.ino && newAttrs.ino != newParentAttrs.ino
      modifies this`inodes
      ensures WellFormed(inodes, contents)
      ensures inodes == StampIn(FinishIn(old(inodes), parentAttrs.ino, newParentAttrs.ino, attrs.ino, now), newAttrs.ino, now)
    {
      FinishRename(parentAttrs, newParentAttrs, attrs, now);
      ghost var before := inodes;
      assert newAttrs.ino in before && before[newAttrs.ino].(ctime := now) == newAttrs.(ctime := now);
      WriteInode(newAttrs.(ctime := now));
      RecordsOnly(before, inodes, contents);
    }

    /** The `..` of a directory that has moved; other inodes have none. */
    method MoveDotDot(attrs: Inode, dir: Ino)
      requires WellFormed(inodes, contents) && attrs.ino in contents && attrs.ino != ROOT
      requires contents[attrs.ino].Dir? <==> attrs.kind == Directory
      modifies this`contents
      ensures WellFormed(inodes, contents) && contents.Keys == old(contents.Keys)
      ensures forall i | i in contents :: contents[i].Dir? <==> old(contents)[i].Dir?
      ensures NamesIn(contents) == old(NamesIn(contents)) && BytesIn(contents) == old(BytesIn(contents))
      ensures UpIn(contents) == SetDotDot(old(UpIn(contents)), Entry(attrs.ino, attrs.kind), dir)
    {
      if attrs.kind == Directory {
        var entries := GetDirectoryContent(attrs.ino);
        NewParent(inodes, contents, attrs.ino, dir);
        WriteDirectoryContent(attrs.ino, entries[DOTDOT := Entry(dir, Directory)]);
      }
    }

    method EnterName(at: Slot, attrs: Inode)
      requires WellFormed(inodes, contents) && IsDir(contents, at.dir) && Ordinary(at.name)
      modifies this`contents
      ensures WellFormed(inodes, contents) && contents.Keys == old(contents.Keys)
      ensures forall i | i in contents :: contents[i].Dir? <==> old(contents)[i].Dir?
      ensures NamesIn(contents) == old(NamesIn(contents))[at := Entry(attrs.ino, attrs.kind)]
      ensures UpIn(contents) == old(UpIn(contents)) && BytesIn(contents) == old(BytesIn(contents))
    {
      var entries := GetDirectoryContent(at.dir);
      NewEntry(inodes, contents, at, Entry(attrs.ino, attrs.kind));
      WriteDirectoryContent(at.dir, entries[at.name := Entry(attrs.ino, attrs.kind)]);
    }

    /** The exchanging form, pass by pass; both parents may be the same directory. */
    method Exchange(src: Slot, dst: Slot, parentAttrs: Inode, newParentAttrs: Inode, attrs: Inode, newAttrs: Inode, now: Time)
      requires WellFormed(inodes, contents) && Ordinary(src.name) && Ordinary(dst.name)
      requires IsDir(contents, src.dir) && IsDir(contents, dst.dir)
      requires parentAttrs.ino == src.dir && src.dir in inodes && inodes[src.dir] == parentAttrs
      requires newParentAttrs.ino == dst.dir && dst.dir in inodes && inodes[dst.dir] == newParentAttrs
      requires Holds(attrs) && Holds(newAttrs)
      requires attrs.ino != src.dir && attrs.ino != dst.dir && newAttrs.ino != src.dir && newAttrs.ino != dst.dir
      modifies this`inodes, this`contents
      ensures WellFormed(inodes, contents)
      ensures Abs() == Exchanged(old(Abs()), Entry(attrs.ino, attrs.kind), Entry(newAttrs.ino, newAttrs.kind), src, dst, now)
    {
      hide WellFormed, NamesIn, UpIn, BytesIn;
      ghost var e, f := Entry(attrs.ino, attrs.kind), Entry(newAttrs.ino, newAttrs.kind);
      ghost var t := Exchanged(Abs(), e, f, src, dst, now);
      EnterName(dst, attrs);
      EnterName(src, newAttrs);
      assert NamesIn(contents) == t.names;
      FinishExchange(parentAttrs, newParentAttrs, attrs, newAttrs, now);
      MoveDotDot(attrs, dst.dir);
      MoveDotDot(newAttrs, src.dir);
      Agrees(inodes, contents, superblock, nextFileHandle, open, t);
    }

    /** The passes that take away what a rename replaces. */
    method RemoveTarget(dst: Slot, existing: Inode, now: Time)
      requires WellFormed(inodes, contents) && Ordinary(dst.name) && IsDir(contents, dst.dir) && Holds(existing)
      requires existing.ino != dst.dir && dst in NamesIn(contents) && NamesIn(contents)[dst].ino == existing.ino
      requires forall k | k in NamesIn(contents) :: k.dir != existing.ino
      modifies this`inodes, this`contents
      ensures WellFormed(inodes, contents)
      ensures Abs() == Unname(old(Abs()), dst, now)
      ensures forall i | i in contents :: i in old(contents) && (contents[i].Dir? <==> old(contents)[i].Dir?)
      ensures forall i | i in old(contents) && i != existing.ino :: i in contents
    {
      hide WellFormed, NamesIn, UpIn, BytesIn;
      ghost var s := Abs();
      var entries := GetDirectoryContent(dst.dir);
      NoEntry(inodes, contents, dst);
      WriteDirectoryContent(dst.dir, entries - {dst.name});
      var attrs := existing.(hardlinks := if existing.kind == Directory then 0 else SaturatingSub(existing.hardlinks, 1),
                             ctime := now);
      WriteInode(attrs);
      RecordsOnly(old(inodes), inodes, contents);
      GcInode(attrs);
    }

    /** The whiteout inode, and its entry added to the entries that are about to be written. */
    method EnterWhiteout(src: Slot, entries: map<Name, Entry>, now: Time) returns (more: map<Name, Entry>)
      requires WellFormed(inodes, contents) && Ordinary(src.name) && IsDir(contents, src.dir)
      requires superblock + 1 !in inodes && superblock + 1 != ROOT && entries == contents[src.dir].entries - {src.name}
      modifies this`inodes, this`contents, this`superblock
      ensures superblock == old(superblock) + 1 && IsDir(contents, src.dir)
      ensures forall i | i in old(contents) :: i in contents && contents[i] == old(contents)[i]
      ensures inodes == old(inodes)[superblock := Inode(superblock, CharDevice, 1, 0, 0, now, now, {})]
      ensures var after := contents[src.dir := Dir(more)];
              && WellFormed(inodes, after) && NamesIn(after) == old(NamesIn(contents))[src := Entry(superblock, CharDevice)]
              && UpIn(after) == old(UpIn(contents)) && BytesIn(after) == old(BytesIn(contents))[superblock := []]
    {
      hide WellFormed, NamesIn, UpIn, BytesIn;
      var inode := AllocateNextInode();
      var w := Inode(inode, CharDevice, 1, 0, 0, now, now, {});
      assert inode !in contents by { NumberIsFree(inodes, contents, inode); }
      StoreFile(w, []);
      more := entries[src.name := Entry(w.ino, w.kind)];
      NewEntry(inodes, contents, src, Entry(inode, CharDevice));
      assert contents[src.dir].entries[src.name := Entry(inode, CharDevice)] == more;
    }

    /** The passes that move the entry itself, with the whiteout written where it was. */
    method MoveEntry(src: Slot, dst: Slot, attrs: Inode, whiteout: bool, now: Time)
      requires WellFormed(inodes, contents) && Ordinary(src.name) && Ordinary(dst.name) && src != dst
      requires IsDir(contents, src.dir) && IsDir(contents, dst.dir) && Holds(attrs)
      requires superblock + 1 !in inodes && superblock + 1 != ROOT
      modifies this`inodes, this`contents, this`superblock
      ensures WellFormed(inodes, contents) && (forall i | i in old(contents) ::
                                                 i in contents && (contents[i].Dir? <==> old(contents)[i].Dir?))
      ensures superblock == (if whiteout then old(superblock) + 1 else old(superblock))
      ensures var w := Inode(superblock, CharDevice, 1, 0, 0, now, now, {});
              && inodes == (if whiteout then old(inodes)[w.ino := w] else old(inodes))
              && NamesIn(contents) == (if whiteout then (old(NamesIn(contents)) - {src})[dst := Entry(attrs.ino, attrs.kind)][src := Entry(w.ino, CharDevice)]
                                       else (old(NamesIn(contents)) - {src})[dst := Entry(attrs.ino, attrs.kind)])
              && UpIn(contents) == old(UpIn(contents))
              && BytesIn(contents) == (if whiteout then old(BytesIn(contents))[w.ino := []] else old(BytesIn(contents)))
    {
      hide WellFormed, NamesIn, UpIn, BytesIn;
      var entries := GetDirectoryContent(src.dir);
      NoEntry(inodes, contents, src);
      entries := entries - {src.name};
      if whiteout {
        entries := EnterWhiteout(src, entries, now);
      }
      WriteDirectoryContent(src.dir, entries);
      EnterName(dst, attrs);
    }

    /** `rename` in its replacing, exchanging and whiteout forms. */
    method DoRename(src: Slot, dst: Slot, flags: RenameFlags, hasOwner: bool, c: RenameChecks, now: Time) returns (reply: Reply)
      requires Valid() && Allowed(Abs(), Rename(src, dst, flags, hasOwner, c, now))
      modifies this
      ensures Valid() && Outcome(Abs(), reply) == Apply(old(Abs()), Rename(src, dst, flags, hasOwner, c, now))
    {
      hide Namespace.Valid, WellFormed, NamesIn, UpIn, BytesIn, RenameAllowed;
      ghost var s := Abs();
      RenamePlaces(inodes, contents, s, src, dst, flags);
      StepKeepsValid(s, Rename(src, dst, flags, hasOwner, c, now));
      var found := LookupName(src.dir, src.name);
      var read := GetInode(src.dir);
      if found == None || read == None {
        return Error(ENOENT);
      }
      var attrs, parentAttrs := found.value, read.value;
      if !c.srcDir || !c.srcSticky {
        return Error(EACCES);
      }
      read := GetInode(dst.dir);
      if read == None {
        return Error(ENOENT);
      }
      var newParentAttrs := read.value;
      var existing := LookupName(dst.dir, dst.name);
      if !c.dstDir || (existing.Some? && !c.dstSticky) {
        return Error(EACCES);
      }
      if !parentAttrs.Removable() || !attrs.Removable() || newParentAttrs.Immutable()
         || (existing.Some? && !existing.value.Removable()) {
        return Error(EPERM);
      }
      if flags.exchange && (flags.noReplace || flags.whiteout) {
        return Error(EINVAL);
      }
      if flags.exchange {
        if existing == None {
          return Error(ENOENT);
        }
        assert RenameRefusal(s, src, dst, flags, c) == Done;
        Exchange(src, dst, parentAttrs, newParentAttrs, attrs, existing.value, now);
        return Done;
      }
      if flags.noReplace && existing.Some? {
        return Error(EEXIST);
      }
      if existing.Some? && existing.value.kind == Directory {
        var children := GetDirectoryContent(existing.value.ino);
        if |children| > 2 {
          return Error(ENOTEMPTY);
        }
      }
      if attrs.kind == Directory && src.dir != dst.dir && !c.movedDir {
        return Error(EACCES);
      }
      assert RenameRefusal(s, src, dst, flags, c) == Done;
      reply := Replace(src, dst, parentAttrs, newParentAttrs, attrs, existing, flags.whiteout, hasOwner, now);
    }

    /** The replacing form once its checks are done. The missing owner of a whiteout is
        noticed only when the target is already gone. */
    method Replace(src: Slot, dst: Slot, parentAttrs: Inode, newParentAttrs: Inode, attrs: Inode,
                   existing: Option<Inode>, whiteout: bool, hasOwner: bool, now: Time) returns (reply: Reply)
      requires WellFormed(inodes, contents) && Ordinary(src.name) && Ordinary(dst.name) && src != dst
      requires IsDir(contents, src.dir) && IsDir(contents, dst.dir) && Holds(attrs)
      requires parentAttrs.ino == src.dir && src.dir in inodes && inodes[src.dir] == parentAttrs
      requires newParentAttrs.ino == dst.dir && dst.dir in inodes && inodes[dst.dir] == newParentAttrs
      requires attrs.ino != src.dir && attrs.ino != dst.dir
      requires superblock + 1 !in inodes && superblock + 1 != ROOT
      requires existing.Some? <==> Found(Abs(), dst)
      requires existing.Some? ==>
                 && Holds(existing.value) && NamesIn(contents)[dst].ino == existing.value.ino
                 && existing.value.ino !in {src.dir, dst.dir, attrs.ino}
                 && forall k | k in NamesIn(contents) :: k.dir != existing.value.ino
      modifies this`inodes, this`contents, this`superblock
      ensures WellFormed(inodes, contents)
      ensures if whiteout && !hasOwner then reply == Error(EIO) && Abs() == Replaced(old(Abs()), dst, now)
              else reply == Done && Abs() == Moved(old(Abs()), Entry(attrs.ino, attrs.kind), src, dst, whiteout, now)
    {
      hide WellFormed, NamesIn, UpIn, BytesIn;
      if existing.Some? {
        RemoveTarget(dst, existing.value, now);
      }
      if whiteout && !hasOwner {
        return Error(EIO);
      }
      assert Abs() == Replaced(old(Abs()), dst, now);
      Move(src, dst, parentAttrs, newParentAttrs, attrs, whiteout, now);
      return Done;
    }

    method Move(src: Slot, dst: Slot, parentAttrs: Inode, newParentAttrs: Inode, attrs: Inode, whiteout: bool, now: Time)
      requires WellFormed(inodes, contents) && Ordinary(src.name) && Ordinary(dst.name) && src != dst
      requires IsDir(contents, src.dir) && IsDir(contents, dst.dir) && Holds(attrs)
      requires parentAttrs.ino == src.dir && src.dir in inodes && inodes[src.dir] == parentAttrs
      requires newParentAttrs.ino == dst.dir && dst.dir in inodes && inodes[dst.dir] == newParentAttrs
      requires attrs.ino != src.dir && attrs.ino != dst.dir
      requires superblock + 1 !in inodes && superblock + 1 != ROOT
      modifies this`inodes, this`contents, this`superblock
      ensures WellFormed(inodes, contents)
      ensures var m := MoveName(old(Abs()), Entry(attrs.ino, attrs.kind), src, dst);
              Abs() == Finish(Whiteout(m, src, whiteout, now), src.dir, dst.dir, attrs.ino, now)
    {
      hide WellFormed, NamesIn, UpIn, BytesIn, FinishIn;
      ghost var m := MoveName(Abs(), Entry(attrs.ino, attrs.kind), src, dst);
      ghost var t := Finish(Whiteout(m, src, whiteout, now), src.dir, dst.dir, attrs.ino, now);
      MoveEntry(src, dst, attrs, whiteout, now);
      FinishRename(parentAttrs, newParentAttrs, attrs, now);
      MoveDotDot(attrs, dst.dir);
      Agrees(inodes, contents, superblock, nextFileHandle, open, t);
    }

    // ----- Handles -----

    method DoOpen(ino: Ino, asked: AccMode, append: bool, trunc: bool, may: bool) returns (reply: Reply)
      requires Valid() && Allowed(Abs(), Open(ino, asked, append, trunc, may))
      modifies this
      ensures Valid() && Outcome(Abs(), reply) == Apply(old(Abs()), Open(ino, asked, append, trunc, may))
    {
      hide Namespace.Valid, WellFormed, NamesIn, UpIn, BytesIn, FhFor;
      ghost var s := Abs();
      RecordFacts(inodes, contents, s, ino);
      StepKeepsValid(s, Open(ino, asked, append, trunc, may));
      assert s.nextFh < HANDLE_LIMIT;
      hide Allowed;
      var mode := asked.OrReadOnly();
      if mode.ReadOnly? && trunc {
        return Error(EACCES);
      }
      var read := GetInode(ino);
      if read == None {
        return Error(ENOENT);
      }
      var attr := read.value;
      if mode.Writes() && attr.Immutable() {
        return Error(EPERM);
      }
      if attr.AppendOnly() && ((mode.Writes() && !append) || trunc) {
        return Error(EPERM);
      }
      if !may {
        return Error(EACCES);
      }
      WriteInode(attr.(handles := attr.handles + 1));
      RecordsOnly(old(inodes), inodes, contents);
      var fh := AllocateNextFileHandle(mode);
      open := open[fh := ino];
      return Opened(fh);
    }

    method DoOpenDir(ino: Ino, asked: AccMode, trunc: bool, may: bool) returns (reply: Reply)
      requires Valid() && Allowed(Abs(), OpenDir(ino, asked, trunc, may))
      modifies this
      ensures Valid() && Outcome(Abs(), reply) == Apply(old(Abs()), OpenDir(ino, asked, trunc, may))
    {
      hide Namespace.Valid, WellFormed, NamesIn, UpIn, BytesIn, FhFor;
      ghost var s := Abs();
      RecordFacts(inodes, contents, s, ino);
      StepKeepsValid(s, OpenDir(ino, asked, trunc, may));
      assert s.nextFh < HANDLE_LIMIT;
      hide Allowed;
      var mode := asked.OrReadOnly();
      if mode.ReadOnly? && trunc {
        return Error(EACCES);
      }
      var read := GetInode(ino);
      if read == None {
        return Error(ENOENT);
      }
      var attr := read.value;
      if !may {
        return Error(EACCES);
      }
      WriteInode(attr.(handles := attr.handles + 1));
      RecordsOnly(old(inodes), inodes, contents);
      var fh := AllocateNextFileHandle(mode);
      open := open[fh := ino];
      return Opened(fh);
    }

    /** `release` and `releasedir`; the handle itself is not looked at. */
    method DoRelease(ino: Ino, fh: nat) returns (reply: Reply)
      requires Valid() && Allowed(Abs(), Release(ino, fh))
      modifies this
      ensures Valid() && Outcome(Abs(), reply) == Apply(old(Abs()), Release(ino, fh))
    {
      hide Namespace.Valid, WellFormed, NamesIn, UpIn, BytesIn, FhFor;
      ghost var s := Abs();
      NumberFacts(inodes, contents, s);
      StepKeepsValid(s, Release(ino, fh));
      ReleaseFacts(s, ino, fh);
      var read := GetInode(ino);
      if read.Some? {
        var attrs := read.value.(handles := SaturatingSub(read.value.handles, 1));
        WriteInode(attrs);
        RecordsOnly(old(inodes), inodes, contents);
        open := open - {fh};
        GcInode(attrs);
      }
      return Done;
    }

    // ----- Attributes and contents -----

    method DoIoctl(ino: Ino, cmd: nat, input: IoctlData, now: Time) returns (reply: Reply)
      requires Valid() && Allowed(Abs(), Ioctl(ino, cmd, input, now))
      modifies this
      ensures Valid() && Outcome(Abs(), reply) == Apply(old(Abs()), Ioctl(ino, cmd, input, now))
    {
      hide Namespace.Valid, WellFormed, NamesIn, UpIn, BytesIn, FhFor;
      ghost var s := Abs();
      RecordFacts(inodes, contents, s, ino);
      StepKeepsValid(s, Ioctl(ino, cmd, input, now));
      var read := GetInode(ino);
      if read == None {
        return Error(ENOENT);
      }
      var attrs := read.value;
      var newFlags;
      if cmd == FS_IOC_GETFLAGS {
        return Word(attrs.flags, 4);
      } else if cmd == FS_IOC_FSGETXATTR {
        return Word(InodeFlags.Xflags(attrs.flags), FSXATTR_SIZE);
      } else if cmd == FS_IOC_SETFLAGS {
        if input.size != 4 {
          return Error(EINVAL);
        }
        if !(input.word <= InodeFlags.SUPPORTED) {
          return Error(EOPNOTSUPP);
        }
        newFlags := input.word;
      } else if cmd == FS_IOC_FSSETXATTR {
        if input.size != FSXATTR_SIZE {
          return Error(EINVAL);
        }
        var flags := InodeFlags.Flags(input.word);
        if flags == None {
          return Error(EOPNOTSUPP);
        }
        newFlags := flags.value;
      } else {
        return Error(ENOTTY);
      }
      if newFlags != attrs.flags {
        WriteInode(attrs.(flags := newFlags, ctime := now));
        RecordsOnly(old(inodes), inodes, contents);
      }
      return Word({}, 0);
    }

    method Rewrite(attrs: Inode, data: seq<byte>)
      requires WellFormed(inodes, contents) && attrs.ino in contents && contents[attrs.ino].Bytes?
      requires attrs.ino in inodes && inodes[attrs.ino].kind == attrs.kind
      modifies this`inodes, this`contents
      ensures WellFormed(inodes, contents) && inodes == old(inodes)[attrs.ino := attrs]
      ensures NamesIn(contents) == old(NamesIn(contents)) && UpIn(contents) == old(UpIn(contents))
      ensures BytesIn(contents) == old(BytesIn(contents))[attrs.ino := data]
    {
      RewriteFile(inodes, contents, attrs, data);
      contents := contents[attrs.ino := Bytes(data)];
      WriteInode(attrs);
    }

    method DoTruncate(ino: Ino, length: nat, via: Via, may: bool, now: Time) returns (reply: Reply)
      requires Valid() && Allowed(Abs(), Truncate(ino, length, via, may, now))
      modifies this
      ensures Valid() && Outcome(Abs(), reply) == Apply(old(Abs()), Truncate(ino, length, via, may, now))
    {
      hide Namespace.Valid, WellFormed, NamesIn, UpIn, BytesIn, FhFor;
      ghost var s := Abs();
      NumberFacts(inodes, contents, s);
      StepKeepsValid(s, Truncate(ino, length, via, may, now));
      BytesFacts(inodes, contents);
      var read := GetInode(ino);
      if read == None {
        return Error(ENOENT);
      }
      var attrs := read.value;
      if !attrs.Removable() {
        return Error(EPERM);
      }
      if via.Handle? && !CanWrite(via.fh) {
        return Error(EACCES);
      }
      if length > MAX_FILE_SIZE {
        return Error(EFBIG);
      }
      if via.Path? && !may {
        return Error(EACCES);
      }
      Rewrite(Modified(attrs, now).(size := length), Resize(contents[ino].data, length));
      return Done;
    }

    method DoWrite(ino: Ino, fh: nat, offset: nat, data: seq<byte>, now: Time) returns (reply: Reply)
      requires Valid() && NotDirectory(Abs(), ino)
      modifies this
      ensures WellFormed(inodes, contents)
      ensures !reply.Error? ==> ino in old(Abs()).bytes
      ensures Valid() <==> reply.Error? || data != [] || offset <= |old(Abs()).bytes[ino]|
      ensures Outcome(Abs(), reply) == Apply(old(Abs()), Write(ino, fh, offset, data, now))
    {
      hide Namespace.Valid, WellFormed, NamesIn, UpIn, BytesIn, FhFor;
      ghost var s := Abs();
      RecordFacts(inodes, contents, s, ino);
      WriteKeepsValidIff(s, ino, fh, offset, data, now);
      BytesFacts(inodes, contents);
      if !CanWrite(fh) {
        return Error(EACCES);
      }
      if ino !in contents {
        return Error(EBADF);
      }
      if offset + |data| >= TWO_TO_THE_64 {
        return Error(EFBIG);
      }
      var end := offset + |data|;
      var attrs := Modified(inodes[ino], now);
      if end > attrs.size {
        attrs := attrs.(size := end);
      }
      Rewrite(attrs, WriteAt(contents[ino].data, offset, data));
      return Written(|data| % TWO_TO_THE_32);
    }

    method DoCopyRange(ino: Ino, fh: nat, offset: nat, dstIno: Ino, dstFh: nat, dstOffset: nat, length: nat, now: Time)
      returns (reply: Reply)
      requires Valid() && NotDirectory(Abs(), ino) && NotDirectory(Abs(), dstIno)
      requires ino in Abs().bytes ==> dstOffset + |Slice(Abs().bytes[ino], offset, length)| < TWO_TO_THE_64
      modifies this
      ensures WellFormed(inodes, contents)
      ensures !reply.Error? ==> ino in old(Abs()).bytes && dstIno in old(Abs()).bytes
      ensures Valid() <==> || reply.Error? || Slice(old(Abs()).bytes[ino], offset, length) != []
                           || dstOffset <= |old(Abs()).bytes[dstIno]|
      ensures Outcome(Abs(), reply) == Apply(old(Abs()), CopyRange(ino, fh, offset, dstIno, dstFh, dstOffset, length, now))
    {
      hide Namespace.Valid, WellFormed, NamesIn, UpIn, BytesIn, FhFor;
      ghost var s := Abs();
      RecordFacts(inodes, contents, s, ino);
      RecordFacts(inodes, contents, s, dstIno);
      CopyKeepsValidIff(s, ino, fh, offset, dstIno, dstFh, dstOffset, length, now);
      BytesFacts(inodes, contents);
      if !CanRead(fh) || !CanWrite(dstFh) {
        return Error(EACCES);
      }
      var read := GetInode(dstIno);
      if read == None {
        return Error(ENOENT);
      }
      if read.value.Immutable() {
        return Error(EPERM);
      }
      if ino !in contents {
        return Error(ENOENT);
      }
      var data := Slice(contents[ino].data, offset, length);
      var attrs := Modified(inodes[dstIno], now);
      var end := dstOffset + |data|;
      if end > attrs.size {
        attrs := attrs.(size := end);
      }
      Rewrite(attrs, WriteAt(contents[dstIno].data, dstOffset, data));
      return Written(|data| % TWO_TO_THE_32);
    }

    /** `read`, which replies with bytes and changes nothing but the access time. */
    method Read(ino: Ino, fh: nat, offset: nat, size: nat) returns (reply: Result<seq<byte>>)
      requires Valid() && NotDirectory(Abs(), ino) && size < TWO_TO_THE_32
      ensures !CanRead(fh) ==> reply == Err(EACCES)
      ensures CanRead(fh) && ino !in Abs().bytes ==> reply == Err(ENOENT)
      ensures CanRead(fh) && ino in Abs().bytes ==>
                && reply == Ok(ReadReply(Abs().bytes[ino], offset, size))
                && (Abs().inodes[ino].size < TWO_TO_THE_32 ==> reply == Ok(Slice(Abs().bytes[ino], offset, size)))
    {
      NumberFacts(inodes, contents, Abs());
      BytesFacts(inodes, contents);
      if !CanRead(fh) {
        return Err(EACCES);
      }
      if ino !in contents {
        return Err(ENOENT);
      }
      var file := contents[ino].data;
      var readSize := Min(size, SaturatingSub(|file|, offset) % TWO_TO_THE_32);
      ReadIsSliceIff(file, offset, size);
      return Ok(Slice(file, offset, readSize));
    }

    /** `readdir`: one page of the directory's map, which is iterated in key order as `rows`. */
    method DoReaddir(ino: Ino, offset: nat, rows: seq<Readdir.Row>, list: Dirents.DirEntList) returns (reply: Reply)
      requires Valid() && list.Valid() && list.front == 0 && list.entries == [] && list.list.buf == []
      requires ino in contents ==>
                 contents[ino].Dir? && Readdir.IsListing(rows, contents[ino].entries) && Readdir.RowsFit(rows)
      modifies list, list.list
      ensures list.Valid() && Valid() && Abs() == old(Abs())
      ensures if ino in contents then reply == Done && list.entries == Readdir.Page(rows, offset, list.list.maxSize)
              else reply == Error(ENOENT) && list.entries == []
    {
      if ino !in contents {
        return Error(ENOENT);
      }
      hide Namespace.Valid, WellFormed, Readdir.Page, Readdir.IsListing, Dirents.Decode, Dirents.Encode;
      Readdir.FillPage(rows, offset, list);
      return Done;
    }

    /** A record as it is stored, with its content file of the right kind. */
    ghost predicate Holds(a: Inode)
      reads this
    {
      a.ino in inodes && inodes[a.ino] == a && a.ino in contents && a.ino != ROOT
      && (contents[a.ino].Dir? <==> a.kind == Directory)
    }
  }
}
