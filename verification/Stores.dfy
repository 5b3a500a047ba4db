/** The two stores on disk, `inodes` and `contents`, and how the flat table of names is read
    off them. Each lemma is about one rewrite of one content file. */
module Stores {
  import opened DirTree
  import opened FileContents
  import opened Namespace

  /** A content file: the entries of a directory, with `.` and `..` among them, or bytes. */
  datatype Content = Dir(entries: map<Name, Entry>) | Bytes(data: seq<byte>)

  predicate IsDir(contents: map<Ino, Content>, d: Ino) { d in contents && contents[d].Dir? }

  function NamesIn(contents: map<Ino, Content>): map<Slot, Entry> {
    map d, n | d in contents && contents[d].Dir? && n in contents[d].entries && Ordinary(n) ::
      Slot(d, n) := contents[d].entries[n]
  }

  function UpIn(contents: map<Ino, Content>): map<Ino, Ino> {
    map d | d in contents && contents[d].Dir? && DOTDOT in contents[d].entries :: contents[d].entries[DOTDOT].ino
  }

  function BytesIn(contents: map<Ino, Content>): map<Ino, seq<byte>> {
    map i | i in contents && contents[i].Bytes? :: contents[i].data
  }

  /** The file system the stores amount to. */
  function FsOf(inodes: map<Ino, Inode>, contents: map<Ino, Content>, lastIno: Ino, nextFh: nat, open: map<nat, Ino>): Fs {
    Fs(inodes, NamesIn(contents), UpIn(contents), BytesIn(contents), lastIno, nextFh, open)
  }

  lemma Agrees(inodes: map<Ino, Inode>, contents: map<Ino, Content>, lastIno: Ino, nextFh: nat, open: map<nat, Ino>, s: Fs)
    requires s.inodes == inodes && s.names == NamesIn(contents) && s.dotdot == UpIn(contents) && s.bytes == BytesIn(contents)
    requires s.lastIno == lastIno && s.nextFh == nextFh && s.open == open
    ensures FsOf(inodes, contents, lastIno, nextFh, open) == s
  {
  }

  /** Content files and records belong together, and every directory has its `.` and, but
      for the root, its `..`. */
  predicate WellFormed(inodes: map<Ino, Inode>, contents: map<Ino, Content>) {
    && contents.Keys == inodes.Keys
    && (forall i | i in contents :: DirFormed(inodes, contents, i))
  }

  predicate DirFormed(inodes: map<Ino, Inode>, contents: map<Ino, Content>, i: Ino)
    requires i in contents
  {
    && i in inodes
    && (contents[i].Dir? <==> inodes[i].kind == Directory)
    && (contents[i].Dir? ==>
          var es := contents[i].entries;
          && DOT in es && es[DOT] == Entry(i, Directory)
          && (if i == ROOT then DOTDOT !in es else DOTDOT in es && es[DOTDOT].kind == Directory))
  }

  /** The flat view loses nothing: well-formed stores that look the same are the same. */
  lemma ViewIsFaithful(inodes: map<Ino, Inode>, c: map<Ino, Content>, c': map<Ino, Content>)
    requires WellFormed(inodes, c) && WellFormed(inodes, c')
    requires NamesIn(c) == NamesIn(c') && UpIn(c) == UpIn(c') && BytesIn(c) == BytesIn(c')
    ensures c == c'
  {
    forall i | i in inodes
      ensures i in c && i in c' && c[i] == c'[i]
    {
      assert i in c.Keys && i in c'.Keys;
      if c[i].Bytes? {
        assert BytesIn(c)[i] == BytesIn(c')[i];
      } else {
        SameEntries(inodes, c, c', i);
      }
    }
    assert c.Keys == c'.Keys;
  }

  lemma SameEntries(inodes: map<Ino, Inode>, c: map<Ino, Content>, c': map<Ino, Content>, d: Ino)
    requires d in c && DirFormed(inodes, c, d) && d in c' && DirFormed(inodes, c', d) && c[d].Dir?
    requires NamesIn(c) == NamesIn(c') && UpIn(c) == UpIn(c')
    ensures c[d] == c'[d]
  {
    var es, es' := c[d].entries, c'[d].entries;
    forall n
      ensures n in es <==> n in es'
      ensures n in es ==> es[n] == es'[n]
    {
      if Ordinary(n) {
        assert n in es <==> Slot(d, n) in NamesIn(c);
        assert n in es' <==> Slot(d, n) in NamesIn(c');
        assert n in es ==> NamesIn(c)[Slot(d, n)] == es[n];
        assert n in es' ==> NamesIn(c')[Slot(d, n)] == es'[n];
      } else if n == DOTDOT {
        assert d != ROOT ==> UpIn(c)[d] == UpIn(c')[d];
      }
    }
    assert es == es';
  }

  lemma NumberIsFree(inodes: map<Ino, Inode>, contents: map<Ino, Content>, i: Ino)
    requires WellFormed(inodes, contents) && i !in inodes
    ensures i !in contents
  {
  }

  // ----- One rewrite at a time -----

  lemma PutEntry(contents: map<Ino, Content>, d: Ino, n: Name, e: Entry)
    requires IsDir(contents, d) && Ordinary(n)
    ensures var after := contents[d := Dir(contents[d].entries[n := e])];
            && NamesIn(after) == NamesIn(contents)[Slot(d, n) := e]
            && UpIn(after) == UpIn(contents) && BytesIn(after) == BytesIn(contents)
  {
  }

  lemma DropEntry(contents: map<Ino, Content>, d: Ino, n: Name)
    requires IsDir(contents, d) && Ordinary(n)
    ensures var after := contents[d := Dir(contents[d].entries - {n})];
            && NamesIn(after) == NamesIn(contents) - {Slot(d, n)}
            && UpIn(after) == UpIn(contents) && BytesIn(after) == BytesIn(contents)
  {
  }

  lemma PutDotDot(contents: map<Ino, Content>, d: Ino, p: Ino)
    requires IsDir(contents, d)
    ensures var after := contents[d := Dir(contents[d].entries[DOTDOT := Entry(p, Directory)])];
            && NamesIn(after) == NamesIn(contents)
            && UpIn(after) == UpIn(contents)[d := p] && BytesIn(after) == BytesIn(contents)
  {
  }

  lemma PutDirectory(contents: map<Ino, Content>, i: Ino, p: Ino)
    requires i !in contents
    ensures var after := contents[i := Dir(map[DOT := Entry(i, Directory), DOTDOT := Entry(p, Directory)])];
            && NamesIn(after) == NamesIn(contents)
            && UpIn(after) == UpIn(contents)[i := p] && BytesIn(after) == BytesIn(contents)
  {
  }

  lemma PutBytes(contents: map<Ino, Content>, i: Ino, data: seq<byte>)
    requires i in contents ==> contents[i].Bytes?
    ensures var after := contents[i := Bytes(data)];
            && NamesIn(after) == NamesIn(contents) && UpIn(after) == UpIn(contents)
            && BytesIn(after) == BytesIn(contents)[i := data]
  {
  }

  lemma RemoveContent(contents: map<Ino, Content>, i: Ino)
    requires forall k | k in NamesIn(contents) :: k.dir != i
    ensures var after := contents - {i};
            && NamesIn(after) == NamesIn(contents) && UpIn(after) == UpIn(contents) - {i}
            && BytesIn(after) == BytesIn(contents) - {i}
  {
  }

  /** More than two entries is how the program tells that a directory is not empty. */
  lemma MoreThanTwo(inodes: map<Ino, Inode>, contents: map<Ino, Content>, d: Ino)
    requires IsDir(contents, d) && DirFormed(inodes, contents, d) && d != ROOT
    ensures |contents[d].entries| > 2 <==> exists k :: k in NamesIn(contents) && k.dir == d
  {
    var es := contents[d].entries;
    var dots := {DOT, DOTDOT};
    assert dots <= es.Keys && |dots| == 2;
    assert |es.Keys - dots| == |es| - 2;
    if |es| > 2 {
      assert es.Keys - dots != {};
      var n :| n in es.Keys - dots;
      assert Slot(d, n) in NamesIn(contents);
    }
    if k :| k in NamesIn(contents) && k.dir == d {
      assert k.name in es.Keys - dots;
    }
  }

  // ----- Several rewrites together -----

  /** Rewriting records only, with the kinds as they were. */
  lemma RecordsOnly(inodes: map<Ino, Inode>, inodes': map<Ino, Inode>, contents: map<Ino, Content>)
    requires WellFormed(inodes, contents) && inodes'.Keys == inodes.Keys
    requires forall i | i in inodes :: inodes'[i].kind == inodes[i].kind
    ensures WellFormed(inodes', contents)
  {
  }

  predicate Unheld(a: Inode) { a.hardlinks == 0 && a.handles == 0 }

  /** `gc_inode` on both stores. */
  function RecordsAfterGc(inodes: map<Ino, Inode>, a: Inode): map<Ino, Inode> {
    if Unheld(a) then inodes - {a.ino} else inodes
  }

  function ContentsAfterGc(contents: map<Ino, Content>, a: Inode): map<Ino, Content> {
    if Unheld(a) then contents - {a.ino} else contents
  }

  lemma GcPasses(inodes: map<Ino, Inode>, contents: map<Ino, Content>, a: Inode)
    requires WellFormed(inodes, contents) && a.ino in inodes && inodes[a.ino] == a
    requires Unheld(a) ==> a.ino != ROOT && forall k | k in NamesIn(contents) :: k.dir != a.ino
    ensures WellFormed(RecordsAfterGc(inodes, a), ContentsAfterGc(contents, a))
    ensures forall last, next, open ::
              FsOf(RecordsAfterGc(inodes, a), ContentsAfterGc(contents, a), last, next, open)
              == Collect(FsOf(inodes, contents, last, next, open), a.ino)
  {
    if Unheld(a) {
      RemoveContent(contents, a.ino);
      forall i | i in contents - {a.ino}
        ensures DirFormed(inodes - {a.ino}, contents - {a.ino}, i)
      {
        assert DirFormed(inodes, contents, i);
      }
    }
  }

  /** Taking an entry out of a directory. */
  lemma DropKeepsFormed(inodes: map<Ino, Inode>, contents: map<Ino, Content>, at: Slot)
    requires WellFormed(inodes, contents) && IsDir(contents, at.dir) && Ordinary(at.name)
    ensures WellFormed(inodes, contents[at.dir := Dir(contents[at.dir].entries - {at.name})])
  {
  }

  /** Putting an ordinary entry into a directory. */
  lemma PutKeepsFormed(inodes: map<Ino, Inode>, contents: map<Ino, Content>, at: Slot, e: Entry)
    requires WellFormed(inodes, contents) && IsDir(contents, at.dir) && Ordinary(at.name)
    ensures WellFormed(inodes, contents[at.dir := Dir(contents[at.dir].entries[at.name := e])])
  {
  }

  /** Hanging a directory below another. */
  lemma DotDotKeepsFormed(inodes: map<Ino, Inode>, contents: map<Ino, Content>, d: Ino, p: Ino)
    requires WellFormed(inodes, contents) && IsDir(contents, d) && d != ROOT
    ensures WellFormed(inodes, contents[d := Dir(contents[d].entries[DOTDOT := Entry(p, Directory)])])
  {
  }

  /** A new record with its content file. */
  lemma NewKeepsFormed(inodes: map<Ino, Inode>, contents: map<Ino, Content>, a: Inode, c: Content)
    requires WellFormed(inodes, contents) && a.ino !in inodes && a.ino != ROOT
    requires match c
             case Bytes(_) => a.kind != Directory
             case Dir(es) => a.kind == Directory && DOT in es && es[DOT] == Entry(a.ino, Directory)
                             && DOTDOT in es && es[DOTDOT].kind == Directory
    ensures WellFormed(inodes[a.ino := a], contents[a.ino := c])
  {
  }

  lemma NewFile(inodes: map<Ino, Inode>, contents: map<Ino, Content>, a: Inode, data: seq<byte>)
    requires WellFormed(inodes, contents) && a.ino !in inodes && a.ino != ROOT && a.kind != Directory
    ensures var after := contents[a.ino := Bytes(data)];
            && WellFormed(inodes[a.ino := a], after) && NamesIn(after) == NamesIn(contents)
            && UpIn(after) == UpIn(contents) && BytesIn(after) == BytesIn(contents)[a.ino := data]
  {
    assert a.ino !in contents.Keys;
    PutBytes(contents, a.ino, data);
    NewKeepsFormed(inodes, contents, a, Bytes(data));
  }

  lemma NewDirectory(inodes: map<Ino, Inode>, contents: map<Ino, Content>, a: Inode, p: Ino)
    requires WellFormed(inodes, contents) && a.ino !in inodes && a.ino != ROOT && a.kind == Directory
    ensures var after := contents[a.ino := Dir(map[DOT := Entry(a.ino, Directory), DOTDOT := Entry(p, Directory)])];
            && WellFormed(inodes[a.ino := a], after) && NamesIn(after) == NamesIn(contents)
            && UpIn(after) == UpIn(contents)[a.ino := p] && BytesIn(after) == BytesIn(contents)
  {
    assert a.ino !in contents.Keys;
    PutDirectory(contents, a.ino, p);
    NewKeepsFormed(inodes, contents, a, Dir(map[DOT := Entry(a.ino, Directory), DOTDOT := Entry(p, Directory)]));
  }

  /** A file's record and bytes, both replaced. */
  lemma RewriteFile(inodes: map<Ino, Inode>, contents: map<Ino, Content>, a: Inode, data: seq<byte>)
    requires WellFormed(inodes, contents) && a.ino in contents && contents[a.ino].Bytes?
    requires a.ino in inodes && inodes[a.ino].kind == a.kind
    ensures var after := contents[a.ino := Bytes(data)];
            && WellFormed(inodes[a.ino := a], after) && NamesIn(after) == NamesIn(contents)
            && UpIn(after) == UpIn(contents) && BytesIn(after) == BytesIn(contents)[a.ino := data]
  {
    var after := contents[a.ino := Bytes(data)];
    PutBytes(contents, a.ino, data);
    forall i | i in after
      ensures DirFormed(inodes[a.ino := a], after, i)
    {
      assert DirFormed(inodes, contents, i);
    }
    assert after.Keys == contents.Keys;
  }

  lemma BytesFacts(inodes: map<Ino, Inode>, contents: map<Ino, Content>)
    requires WellFormed(inodes, contents)
    ensures forall i :: i in BytesIn(contents) <==> i in contents && contents[i].Bytes?
    ensures forall i | i in BytesIn(contents) :: BytesIn(contents)[i] == contents[i].data
    ensures forall i :: i in contents <==> i in inodes
  {
  }

  /** An ordinary entry written into a directory. */
  lemma NewEntry(inodes: map<Ino, Inode>, contents: map<Ino, Content>, at: Slot, e: Entry)
    requires WellFormed(inodes, contents) && IsDir(contents, at.dir) && Ordinary(at.name)
    ensures var after := contents[at.dir := Dir(contents[at.dir].entries[at.name := e])];
            && WellFormed(inodes, after) && NamesIn(after) == NamesIn(contents)[at := e]
            && UpIn(after) == UpIn(contents) && BytesIn(after) == BytesIn(contents)
  {
    PutEntry(contents, at.dir, at.name, e);
    PutKeepsFormed(inodes, contents, at, e);
  }

  /** An ordinary entry taken out of a directory. */
  lemma NoEntry(inodes: map<Ino, Inode>, contents: map<Ino, Content>, at: Slot)
    requires WellFormed(inodes, contents) && IsDir(contents, at.dir) && Ordinary(at.name)
    ensures var after := contents[at.dir := Dir(contents[at.dir].entries - {at.name})];
            && WellFormed(inodes, after) && NamesIn(after) == NamesIn(contents) - {at}
            && UpIn(after) == UpIn(contents) && BytesIn(after) == BytesIn(contents)
  {
    DropEntry(contents, at.dir, at.name);
    DropKeepsFormed(inodes, contents, at);
  }

  /** A directory hung below another one. */
  lemma NewParent(inodes: map<Ino, Inode>, contents: map<Ino, Content>, d: Ino, p: Ino)
    requires WellFormed(inodes, contents) && IsDir(contents, d) && d != ROOT
    ensures var after := contents[d := Dir(contents[d].entries[DOTDOT := Entry(p, Directory)])];
            && WellFormed(inodes, after) && NamesIn(after) == NamesIn(contents)
            && UpIn(after) == UpIn(contents)[d := p] && BytesIn(after) == BytesIn(contents)
  {
    PutDotDot(contents, d, p);
    DotDotKeepsFormed(inodes, contents, d, p);
  }
}
