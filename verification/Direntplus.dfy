/** The entries of a READDIRPLUS reply: each carries what a lookup of it would have answered. */
module Direntplus {
  import opened FileContents
  import opened LittleEndian
  import opened Options
  import opened Dirents

  /** fuse_attr, times as seconds and nanoseconds. */
  datatype Attr = Attr(ino: nat, size: nat, blocks: nat, atime: int, mtime: int, ctime: int, atimensec: nat, mtimensec: nat,
                       ctimensec: nat, mode: nat, nlink: nat, uid: nat, gid: nat, rdev: nat, blksize: nat)

  datatype Ttl = Ttl(secs: nat, nanos: nat)

  datatype DirEntryPlus = DirEntryPlus(generation: nat, offset: nat, name: seq<byte>, entryValid: Ttl, attr: Attr,
                                       attrValid: Ttl)

  /** The widths of fuse_entry_out with the fuse_attr at its end. */
  const ENTRY_OUT: seq<nat> := [8, 8, 8, 8, 4, 4, 8, 8, 8, 8, 8, 8, 4, 4, 4, 4, 4, 4, 4, 4, 4, 4]
  const ENTRY_OUT_SIZE: nat := 128

  predicate TtlFits(t: Ttl) { t.secs < TWO_TO_THE_64 && t.nanos < TWO_TO_THE_32 }

  predicate AttrFits(a: Attr) {
    && a.ino < TWO_TO_THE_64 && a.size < TWO_TO_THE_64 && a.blocks < TWO_TO_THE_64
    && FitsSigned(a.atime, 8) && FitsSigned(a.mtime, 8) && FitsSigned(a.ctime, 8)
    && a.atimensec < TWO_TO_THE_32 && a.mtimensec < TWO_TO_THE_32 && a.ctimensec < TWO_TO_THE_32
    && a.mode < TWO_TO_THE_32 && a.nlink < TWO_TO_THE_32 && a.uid < TWO_TO_THE_32 && a.gid < TWO_TO_THE_32
    && a.rdev < TWO_TO_THE_32 && a.blksize < TWO_TO_THE_32
  }

  predicate PlusFits(x: DirEntryPlus) {
    && x.generation < TWO_TO_THE_64 && x.offset < TWO_TO_THE_64 && |x.name| < TWO_TO_THE_32
    && TtlFits(x.entryValid) && TtlFits(x.attrValid) && AttrFits(x.attr)
  }

  function EntryOut(x: DirEntryPlus): (r: seq<nat>)
    requires PlusFits(x)
    ensures |r| == |ENTRY_OUT|
  {
    var a := x.attr;
    [a.ino, x.generation, x.entryValid.secs, x.attrValid.secs, x.entryValid.nanos, x.attrValid.nanos,
     a.ino, a.size, a.blocks, Wrapped(a.atime, 8), Wrapped(a.mtime, 8), Wrapped(a.ctime, 8),
     a.atimensec, a.mtimensec, a.ctimensec, a.mode, a.nlink, a.uid, a.gid, a.rdev, a.blksize, 0]
  }

  /** How the kernel reads the structure. */
  function ReadEntry(f: seq<nat>, offset: nat, name: seq<byte>): DirEntryPlus
    requires |f| == |ENTRY_OUT|
  {
    var a := Attr(f[6], f[7], f[8], Unwrapped(f[9], 8), Unwrapped(f[10], 8), Unwrapped(f[11], 8),
                  f[12], f[13], f[14], f[15], f[16], f[17], f[18], f[19], f[20]);
    DirEntryPlus(f[1], offset, name, Ttl(f[2], f[4]), a, Ttl(f[3], f[5]))
  }

  /** The record that is pushed: the attributes' inode number, and the type in the upper bits
      of their mode. */
  function PlusRecord(x: DirEntryPlus): Dirent
    requires PlusFits(x)
  {
    Dirent(PutAll(EntryOut(x), ENTRY_OUT), x.attr.ino, x.offset, x.attr.mode / 4096, x.name)
  }

  function ReadPlus(e: Dirent): Option<DirEntryPlus> {
    EntryOutSize();
    if |e.attrs| != ENTRY_OUT_SIZE then None else Some(ReadEntry(Numbers(e.attrs), e.off, e.name))
  }

  function Numbers(attrs: seq<byte>): (f: seq<nat>)
    requires |attrs| == ENTRY_OUT_SIZE
    ensures |f| == |ENTRY_OUT|
  {
    EntryOutSize();
    CountOfNumbers(attrs, ENTRY_OUT);
    GetAll(attrs, ENTRY_OUT)
  }

  lemma {:induction false} CountOfNumbers(b: seq<byte>, widths: seq<nat>)
    requires Sum(widths) <= |b|
    ensures |GetAll(b, widths)| == |widths|
  {
    if widths != [] {
      CountOfNumbers(b[widths[0]..], widths[1..]);
    }
  }

  lemma EntryOutSize()
    ensures Sum(ENTRY_OUT) == ENTRY_OUT_SIZE
  {
    var a, b, c, d := Same(8, 4), Same(4, 2), Same(8, 6), Same(4, 10);
    assert ENTRY_OUT == a + b + c + d;
    SumAppend(a + b + c, d);
    SumAppend(a + b, c);
    SumAppend(a, b);
    SumSame(8, 4);
    SumSame(4, 2);
    SumSame(8, 6);
    SumSame(4, 10);
  }

  /** A record agrees with the attributes in front of it: it has their inode number, and the
      type that stands above the permissions in their mode. */
  predicate Consistent(e: Dirent, x: DirEntryPlus) {
    e.ino == x.attr.ino && e.typ * 0x1000 <= x.attr.mode < (e.typ + 1) * 0x1000 && e.off == x.offset && e.name == x.name
  }

  /** Every field of an entry, its times before the epoch included, is read back. */
  lemma PlusBack(x: DirEntryPlus)
    requires PlusFits(x)
    ensures Fits(PlusRecord(x), ENTRY_OUT_SIZE) && ReadPlus(PlusRecord(x)) == Some(x) && Consistent(PlusRecord(x), x)
  {
    hide Put, Get, Sum;
    var f := EntryOut(x);
    Widths();
    UnwrapWrapped(x.attr.atime, 8);
    UnwrapWrapped(x.attr.mtime, 8);
    UnwrapWrapped(x.attr.ctime, 8);
    assert AllFit(f, ENTRY_OUT);
    EntryOutSize();
    GetPutAll(f, ENTRY_OUT);
    assert Numbers(PutAll(f, ENTRY_OUT)) == f;
  }

  function PlusRecords(xs: seq<DirEntryPlus>): seq<Dirent>
    requires forall k | 0 <= k < |xs| :: PlusFits(xs[k])
  {
    seq(|xs|, k requires 0 <= k < |xs| => PlusRecord(xs[k]))
  }

  /** Walking a READDIRPLUS reply recovers the entries with everything they carry. */
  lemma PlusRoundTrip(xs: seq<DirEntryPlus>)
    requires forall k | 0 <= k < |xs| :: PlusFits(xs[k])
    ensures var es := Decode(Encode(PlusRecords(xs)), ENTRY_OUT_SIZE);
            && es.Some? && |es.value| == |xs|
            && forall k | 0 <= k < |xs| :: ReadPlus(es.value[k]) == Some(xs[k]) && Consistent(es.value[k], xs[k])
  {
    hide PlusRecord, PlusFits, ReadPlus, Consistent, Fits, Encode, Decode;
    var records := PlusRecords(xs);
    forall k | 0 <= k < |xs|
      ensures Fits(records[k], ENTRY_OUT_SIZE) && ReadPlus(records[k]) == Some(xs[k]) && Consistent(records[k], xs[k])
    {
      PlusBack(xs[k]);
    }
    DecodeEncode(records, ENTRY_OUT_SIZE);
  }

  /** The list a READDIRPLUS reply is built in. */
  class DirEntPlusList {
    const list: DirEntList

    ghost predicate Valid()
      reads this, list, list.list
    {
      list.Valid() && list.front == ENTRY_OUT_SIZE
    }

    constructor (maxSize: nat)
      ensures Valid() && fresh(list) && fresh(list.list) && list.list.maxSize == maxSize && list.entries == []
    {
      list := new DirEntList(maxSize, ENTRY_OUT_SIZE);
    }

    /** A refused entry leaves the list as it was; an accepted one is the last to be read. */
    method Push(x: DirEntryPlus) returns (full: bool)
      requires Valid() && PlusFits(x)
      modifies list, list.list
      ensures Valid()
      ensures full <==> Size(PlusRecord(x)) > old(list.list.RemainingCapacity())
      ensures list.entries == if full then old(list.entries) else old(list.entries) + [PlusRecord(x)]
      ensures !full ==> var last := list.entries[|list.entries| - 1]; ReadPlus(last) == Some(x) && Consistent(last, x)
    {
      PlusBack(x);
      hide PlusRecord, ReadPlus, Consistent, Fits, Size;
      full := list.Push(PlusRecord(x));
    }
  }
}
