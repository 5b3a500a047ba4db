/** The directory listings of READDIR and READDIRPLUS replies: records padded to eight bytes,
    one after another. */
module Dirents {
  import opened FileContents
  import opened LittleEndian
  import opened Options

  const DIRENT_SIZE: nat := 24

  /** One entry. `attrs` is the fuse_entry_out in front of a direntplus record, and empty in
      a plain one. */
  datatype Dirent = Dirent(attrs: seq<byte>, ino: nat, off: nat, typ: nat, name: seq<byte>)

  /** The fields fit their widths, and the part in front is as long as it is for all. */
  predicate Fits(e: Dirent, front: nat) {
    |e.attrs| == front && e.ino < TWO_TO_THE_64 && e.off < TWO_TO_THE_64
    && e.typ < TWO_TO_THE_32 && |e.name| < TWO_TO_THE_32
  }

  function Padded(n: nat): (r: nat)
    ensures r % 8 == 0 && n <= r < n + 8
  {
    (n + 7) / 8 * 8
  }

  function Header(e: Dirent): seq<byte> {
    e.attrs + Put(e.ino, 8) + Put(e.off, 8) + Put(|e.name|, 4) + Put(e.typ, 4)
  }

  function Size(e: Dirent): nat { Padded(|e.attrs| + DIRENT_SIZE + |e.name|) }

  function Record(e: Dirent): (r: seq<byte>)
    ensures |r| == Size(e)
  {
    Header(e) + e.name + Zeros(Size(e) - |Header(e)| - |e.name|)
  }

  function Encode(es: seq<Dirent>): seq<byte> {
    if es == [] then [] else Record(es[0]) + Encode(es[1..])
  }

  /** How the kernel walks the buffer: a header, the name it announces, and on by the padded
      length. None when a record is cut short. */
  function Decode(buf: seq<byte>, front: nat): Option<seq<Dirent>>
    decreases |buf|
  {
    if buf == [] then Some([])
    else if |buf| < front + DIRENT_SIZE then None
    else
      var h := buf[front..];
      var namelen := Get(h[16..20]);
      var size := Padded(front + DIRENT_SIZE + namelen);
      if size > |buf| then None
      else
        var e := Dirent(buf[..front], Get(h[..8]), Get(h[8..16]), Get(h[20..24]), h[24..24 + namelen]);
        match Decode(buf[size..], front)
        case None => None
        case Some(rest) => Some([e] + rest)
  }

  lemma HeaderLength(e: Dirent)
    ensures |Header(e)| == |e.attrs| + DIRENT_SIZE
  {
  }

  lemma HeaderParts(e: Dirent, rest: seq<byte>)
    ensures var b := Record(e) + rest; var f := |e.attrs|;
            && |b| >= f + DIRENT_SIZE + |e.name| && b[..f] == e.attrs
            && b[f..][..8] == Put(e.ino, 8) && b[f..][8..16] == Put(e.off, 8)
            && b[f..][16..20] == Put(|e.name|, 4) && b[f..][20..24] == Put(e.typ, 4)
            && b[f..][24..24 + |e.name|] == e.name && b[Size(e)..] == rest
  {
    hide Put;
    var pad := Zeros(Size(e) - |Header(e)| - |e.name|);
    hide Zeros, Size;
    var b := Record(e) + rest;
    var f := |e.attrs|;
    var h := Put(e.ino, 8) + Put(e.off, 8) + Put(|e.name|, 4) + Put(e.typ, 4);
    assert Header(e) == e.attrs + h;
    assert b == e.attrs + (h + (e.name + (pad + rest)));
    assert b[f..] == h + (e.name + (pad + rest));
    assert b[Size(e)..] == rest;
  }

  /** The step the kernel takes at a record leads to exactly what follows it. */
  lemma DecodeOne(e: Dirent, rest: seq<byte>, front: nat)
    requires Fits(e, front)
    ensures Decode(Record(e) + rest, front) == (match Decode(rest, front)
                                                case None => None
                                                case Some(more) => Some([e] + more))
  {
    hide Record, Put, Get;
    HeaderParts(e, rest);
    GetPut64(e.ino);
    GetPut64(e.off);
    GetPut32(|e.name|);
    GetPut32(e.typ);
  }

  /** Walking an encoded listing recovers exactly the entries, in order. */
  lemma {:induction false} DecodeEncode(es: seq<Dirent>, front: nat)
    requires forall k | 0 <= k < |es| :: Fits(es[k], front)
    ensures Decode(Encode(es), front) == Some(es)
  {
    hide Record;
    if es != [] {
      DecodeOne(es[0], Encode(es[1..]), front);
      DecodeEncode(es[1..], front);
      assert es == [es[0]] + es[1..];
    }
  }

  lemma {:induction false} EncodeAppend(es: seq<Dirent>, e: Dirent)
    ensures Encode(es + [e]) == Encode(es) + Record(e)
  {
    hide Record;
    if es == [] {
      assert Encode([e]) == Record(e) + Encode([]);
    } else {
      EncodeAppend(es[1..], e);
      assert (es + [e])[1..] == es[1..] + [e];
    }
  }

  /** A reply buffer of bounded size that takes whole padded records. */
  class EntListBuf {
    const maxSize: nat
    var buf: seq<byte>

    ghost predicate Valid()
      reads this
    {
      |buf| % 8 == 0 && |buf| <= maxSize
    }

    constructor (maxSize: nat)
      ensures Valid() && this.maxSize == maxSize && buf == []
    {
      this.maxSize := maxSize;
      buf := [];
    }

    function RemainingCapacity(): (r: nat)
      reads this
      ensures Valid() ==> r + |buf| == maxSize
    {
      SaturatingSub(maxSize, |buf|)
    }

    /** True when the record does not fit, and then nothing has changed. */
    method Push(header: seq<byte>, name: seq<byte>) returns (full: bool)
      requires Valid()
      modifies this
      ensures Valid()
      ensures full <==> Padded(|header| + |name|) > old(RemainingCapacity())
      ensures full ==> buf == old(buf)
      ensures !full ==> buf == old(buf) + header + name + Zeros(Padded(|header| + |name|) - |header| - |name|)
    {
      var entlen := |header| + |name|;
      var entsize := Padded(entlen);
      if |buf| + entsize > maxSize {
        return true;
      }
      buf := buf + header;
      buf := buf + name;
      buf := buf + Zeros(entsize - entlen);
      return false;
    }
  }

  /** The list under construction, for plain records (`front` 0) or direntplus ones. */
  class DirEntList {
    const list: EntListBuf
    const front: nat
    ghost var entries: seq<Dirent>

    /** The buffer holds the entries pushed so far and can be walked to recover them. */
    ghost predicate Valid()
      reads this, list
    {
      && list.Valid() && list.buf == Encode(entries)
      && (forall k | 0 <= k < |entries| :: Fits(entries[k], front))
      && Decode(list.buf, front) == Some(entries)
    }

    constructor (maxSize: nat, front: nat)
      ensures Valid() && fresh(list) && list.maxSize == maxSize && this.front == front && entries == [] && list.buf == []
    {
      list := new EntListBuf(maxSize);
      this.front := front;
      entries := [];
    }

    /** A refused entry leaves the list as it was; an accepted one is the last to be decoded. */
    method Push(e: Dirent) returns (full: bool)
      requires Valid() && Fits(e, front)
      modifies this, list
      ensures Valid()
      ensures full <==> Size(e) > old(list.RemainingCapacity())
      ensures entries == if full then old(entries) else old(entries) + [e]
      ensures list.RemainingCapacity() == old(list.RemainingCapacity()) - if full then 0 else Size(e)
    {
      hide Encode, Decode, Header, Zeros;
      assert |Header(e)| == front + DIRENT_SIZE by { HeaderLength(e); }
      full := list.Push(Header(e), e.name);
      if !full {
        assert list.buf == Encode(entries) + Record(e);
        EncodeAppend(entries, e);
        entries := entries + [e];
        DecodeEncode(entries, front);
      }
    }
  }
}
