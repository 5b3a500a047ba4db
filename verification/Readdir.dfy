/** Listing a directory page by page, each page resuming at the offset of the last entry the
    kernel was given. */
module Readdir {
  import opened FileContents
  import opened Namespace
  import opened Dirents
  import opened Options

  datatype Row = Row(name: Name, entry: Entry)

  // ----- The order of a directory map -----

  predicate Less(a: Name, b: Name) {
    if b == [] then false
    else if a == [] then true
    else a[0] < b[0] || (a[0] == b[0] && Less(a[1..], b[1..]))
  }

  lemma {:induction false} LessTransitive(a: Name, b: Name, c: Name)
    requires Less(a, b) && Less(b, c)
    ensures Less(a, c)
  {
    if a != [] && a[0] == b[0] == c[0] {
      LessTransitive(a[1..], b[1..], c[1..]);
    }
  }

  lemma {:induction false} LessTotal(a: Name, b: Name)
    ensures a == b || Less(a, b) || Less(b, a)
    ensures !(Less(a, b) && Less(b, a)) && !Less(a, a)
  {
    if a != [] && b != [] {
      LessTotal(a[1..], b[1..]);
      assert a == [a[0]] + a[1..] && b == [b[0]] + b[1..];
    }
    if a != [] {
      LessTotal(a[1..], a[1..]);
    }
  }

  ghost predicate Sorted(rows: seq<Row>) {
    forall i, j | 0 <= i < j < |rows| :: Less(rows[i].name, rows[j].name)
  }

  /** What iterating over an ordered map yields. */
  ghost predicate IsListing(rows: seq<Row>, m: map<Name, Entry>) {
    && Sorted(rows)
    && (forall k | 0 <= k < |rows| :: rows[k].name in m && m[rows[k].name] == rows[k].entry)
    && (forall n | n in m :: Row(n, m[n]) in rows)
  }

  lemma LeastName(names: set<Name>) returns (n: Name)
    requires names != {}
    ensures n in names && forall x | x in names && x != n :: Less(n, x)
  {
    n :| n in names;
    if names != {n} {
      var m := LeastName(names - {n});
      LessTotal(n, m);
      if Less(m, n) {
        n := m;
      } else {
        forall x | x in names && x != n && x != m
          ensures Less(n, x)
        {
          LessTransitive(n, m, x);
        }
      }
    }
  }

  /** Every directory map has a listing. */
  lemma ListingExists(m: map<Name, Entry>) returns (rows: seq<Row>)
    ensures IsListing(rows, m)
    decreases |m|
  {
    if m == map[] {
      rows := [];
    } else {
      var n := LeastName(m.Keys);
      var rest := ListingExists(m - {n});
      rows := [Row(n, m[n])] + rest;
      ListingAfter(m, n, rest);
    }
  }

  lemma RowOfRest(m: map<Name, Entry>, n: Name, rest: seq<Row>, k: nat)
    requires n in m && (forall x | x in m && x != n :: Less(n, x)) && IsListing(rest, m - {n}) && k < |rest|
    ensures rest[k].name in m && m[rest[k].name] == rest[k].entry && Less(n, rest[k].name)
  {
    hide Less;
    assert rest[k].name in m - {n};
  }

  /** A listing of the rest, put behind the least name, lists the whole. */
  lemma ListingAfter(m: map<Name, Entry>, n: Name, rest: seq<Row>)
    requires n in m && (forall x | x in m && x != n :: Less(n, x)) && IsListing(rest, m - {n})
    ensures IsListing([Row(n, m[n])] + rest, m)
  {
    hide Less;
    var rows := [Row(n, m[n])] + rest;
    forall x | x in m
      ensures Row(x, m[x]) in rows
    {
      if x != n {
        assert x in m - {n} && Row(x, (m - {n})[x]) in rest;
      }
    }
    forall k | 0 <= k < |rows|
      ensures rows[k].name in m && m[rows[k].name] == rows[k].entry && (k > 0 ==> Less(n, rows[k].name))
    {
      if k > 0 {
        RowOfRest(m, n, rest, k - 1);
      }
    }
    forall i, j | 0 <= i < j < |rows|
      ensures Less(rows[i].name, rows[j].name)
    {
      assert i > 0 ==> Less(rest[i - 1].name, rest[j - 1].name);
    }
  }

  // ----- One page -----

  /** `FileType` as it stands in the type field of a record. */
  function TypeCode(k: Kind): nat {
    match k
    case NamedPipe => 1
    case CharDevice => 2
    case Directory => 4
    case BlockDevice => 6
    case File => 8
    case Symlink => 10
    case Socket => 12
  }

  /** The format of a file in its mode, as `stat` has it. */
  function Format(k: Kind): nat {
    match k
    case NamedPipe => 0x1000
    case CharDevice => 0x2000
    case Directory => 0x4000
    case BlockDevice => 0x6000
    case File => 0x8000
    case Symlink => 0xA000
    case Socket => 0xC000
  }

  /** The type in a record is the format without the twelve bits of the permissions. */
  lemma TypeIsFormat(k: Kind, permissions: nat)
    requires permissions < 0x1000
    ensures TypeCode(k) == (Format(k) + permissions) / 0x1000
  {
  }

  /** The record for a row, carrying the offset at which a listing resumes after it. */
  function RecordFor(rows: seq<Row>, k: nat): Dirent
    requires k < |rows|
  {
    Dirent([], rows[k].entry.ino, k + 1, TypeCode(rows[k].entry.kind), rows[k].name)
  }

  function Records(rows: seq<Row>, from: nat, to: nat): (r: seq<Dirent>)
    requires from <= to <= |rows|
    ensures |r| == to - from && forall k | 0 <= k < |r| :: r[k] == RecordFor(rows, from + k)
  {
    seq(to - from, k requires 0 <= k < to - from => RecordFor(rows, from + k))
  }

  predicate RowsFit(rows: seq<Row>) {
    |rows| < TWO_TO_THE_64
    && forall k | 0 <= k < |rows| :: rows[k].entry.ino < TWO_TO_THE_64 && |rows[k].name| < TWO_TO_THE_32
  }

  lemma RecordFits(rows: seq<Row>, k: nat)
    requires RowsFit(rows) && k < |rows|
    ensures Fits(RecordFor(rows, k), 0)
    ensures RecordFor(rows, k) == Dirent([], rows[k].entry.ino, k + 1, TypeCode(rows[k].entry.kind), rows[k].name)
  {
  }

  /** Where a page that begins at `k` with `room` bytes left ends. */
  function PageEnd(rows: seq<Row>, k: nat, room: nat): (end: nat)
    requires k <= |rows|
    ensures k <= end <= |rows|
    ensures end > k <==> k < |rows| && Size(RecordFor(rows, k)) <= room
    decreases |rows| - k
  {
    if k == |rows| || Size(RecordFor(rows, k)) > room then k
    else PageEnd(rows, k + 1, room - Size(RecordFor(rows, k)))
  }

  /** The room the rows from `k` up to `end` take. */
  function Taken(rows: seq<Row>, k: nat, end: nat): nat
    requires k <= end <= |rows|
    decreases end - k
  {
    if k == end then 0 else Size(RecordFor(rows, k)) + Taken(rows, k + 1, end)
  }

  /** A page takes as many rows as there is room for, and not one fewer. */
  lemma {:induction false} PageIsFull(rows: seq<Row>, k: nat, room: nat)
    requires k <= |rows|
    ensures var end := PageEnd(rows, k, room);
            && Taken(rows, k, end) <= room
            && (end < |rows| ==> Taken(rows, k, end) + Size(RecordFor(rows, end)) > room)
    decreases |rows| - k
  {
    hide RecordFor, Size;
    if k < |rows| && Size(RecordFor(rows, k)) <= room {
      PageIsFull(rows, k + 1, room - Size(RecordFor(rows, k)));
    }
  }

  function Page(rows: seq<Row>, offset: nat, maxSize: nat): seq<Dirent> {
    if offset >= |rows| then [] else Records(rows, offset, PageEnd(rows, offset, maxSize))
  }

  lemma NextRecord(rows: seq<Row>, from: nat, k: nat)
    requires from <= k < |rows|
    ensures Records(rows, from, k + 1) == Records(rows, from, k) + [RecordFor(rows, k)]
  {
  }

  lemma NextInPage(rows: seq<Row>, k: nat, room: nat)
    requires k < |rows| && Size(RecordFor(rows, k)) <= room
    ensures PageEnd(rows, k, room) == PageEnd(rows, k + 1, room - Size(RecordFor(rows, k)))
  {
  }

  /** The loop of `readdir`: rows from the offset on, until one does not fit. */
  method FillPage(rows: seq<Row>, offset: nat, list: DirEntList)
    requires RowsFit(rows) && list.Valid() && list.front == 0 && list.entries == [] && list.list.buf == []
    modifies list, list.list
    ensures list.Valid() && list.entries == Page(rows, offset, list.list.maxSize)
    ensures Decode(list.list.buf, 0) == Some(Page(rows, offset, list.list.maxSize))
  {
    hide Encode, Decode, Size, Records, PageEnd, Padded, Fits, RowsFit, RecordFor, TypeCode;
    if offset >= |rows| {
      return;
    }
    var index := 0;
    while offset + index < |rows|
      invariant offset + index <= |rows| && list.Valid()
      invariant list.entries == Records(rows, offset, offset + index)
      invariant PageEnd(rows, offset, list.list.maxSize) == PageEnd(rows, offset + index, list.list.RemainingCapacity())
    {
      var row := rows[offset + index];
      RecordFits(rows, offset + index);
      var bufferFull := list.Push(Dirent([], row.entry.ino, offset + index + 1, TypeCode(row.entry.kind), row.name));
      if bufferFull {
        break;
      }
      NextRecord(rows, offset, offset + index);
      NextInPage(rows, offset + index, list.list.RemainingCapacity() + Size(RecordFor(rows, offset + index)));
      index := index + 1;
    }
  }

  // ----- Page after page -----

  /** What a reader collects that asks again at the last offset it was given, until a page
      comes back empty. */
  function ReadFrom(rows: seq<Row>, offset: nat, maxSize: nat): seq<Dirent>
    decreases SaturatingSub(|rows|, offset)
  {
    var page := Page(rows, offset, maxSize);
    if page == [] then [] else page + ReadFrom(rows, page[|page| - 1].off, maxSize)
  }

  /** The first row from `k` on whose record is larger than a whole page. */
  function FirstTooBig(rows: seq<Row>, k: nat, maxSize: nat): (r: nat)
    requires k <= |rows|
    ensures k <= r <= |rows|
    ensures forall i | k <= i < r :: Size(RecordFor(rows, i)) <= maxSize
    ensures r < |rows| ==> Size(RecordFor(rows, r)) > maxSize
    decreases |rows| - k
  {
    if k == |rows| || Size(RecordFor(rows, k)) > maxSize then k else FirstTooBig(rows, k + 1, maxSize)
  }

  lemma OffsetOfRecord(rows: seq<Row>, k: nat)
    requires k < |rows|
    ensures RecordFor(rows, k).off == k + 1
  {
  }

  /** Page by page, the listing is every row once and in order, up to a row that is too big. */
  lemma {:induction false} ReadFromIs(rows: seq<Row>, offset: nat, maxSize: nat)
    requires offset <= |rows|
    ensures ReadFrom(rows, offset, maxSize) == Records(rows, offset, FirstTooBig(rows, offset, maxSize))
    decreases |rows| - offset
  {
    hide RecordFor, Size;
    if offset < |rows| {
      var end := PageEnd(rows, offset, maxSize);
      if end > offset {
        assert RecordFor(rows, end - 1).off == end by { OffsetOfRecord(rows, end - 1); }
        ReadFromIs(rows, end, maxSize);
        PageBeforeTooBig(rows, offset, maxSize, maxSize);
        assert Records(rows, offset, end) + Records(rows, end, FirstTooBig(rows, end, maxSize))
            == Records(rows, offset, FirstTooBig(rows, end, maxSize));
      }
    }
  }

  lemma {:induction false} PageBeforeTooBig(rows: seq<Row>, k: nat, room: nat, maxSize: nat)
    requires k <= |rows| && room <= maxSize
    ensures FirstTooBig(rows, k, maxSize) == FirstTooBig(rows, PageEnd(rows, k, room), maxSize)
    decreases |rows| - k
  {
    if k < |rows| && Size(RecordFor(rows, k)) <= room {
      PageBeforeTooBig(rows, k + 1, room - Size(RecordFor(rows, k)), maxSize);
    }
  }

  /** The listing is complete exactly when a page has room for each entry by itself. */
  lemma CompleteIff(rows: seq<Row>, maxSize: nat)
    ensures ReadFrom(rows, 0, maxSize) == Records(rows, 0, |rows|)
            <==> forall k | 0 <= k < |rows| :: Size(RecordFor(rows, k)) <= maxSize
  {
    ReadFromIs(rows, 0, maxSize);
    var stop := FirstTooBig(rows, 0, maxSize);
    assert |ReadFrom(rows, 0, maxSize)| == stop;
  }

  /** So a directory that does not change is listed with every name once, in key order. */
  lemma ListsDirectory(m: map<Name, Entry>, rows: seq<Row>, maxSize: nat)
    requires IsListing(rows, m)
    requires forall k | 0 <= k < |rows| :: Size(RecordFor(rows, k)) <= maxSize
    ensures var all := ReadFrom(rows, 0, maxSize);
            && |all| == |m|
            && (forall i, j | 0 <= i < j < |all| :: Less(all[i].name, all[j].name))
            && (forall k | 0 <= k < |all| ::
                  && all[k].name in m && all[k].ino == m[all[k].name].ino
                  && all[k].typ * 0x1000 == Format(m[all[k].name].kind))
            && (forall n | n in m :: exists k :: 0 <= k < |all| && all[k].name == n)
  {
    CompleteIff(rows, maxSize);
    ListingLength(m, rows);
    var all := ReadFrom(rows, 0, maxSize);
    assert all == Records(rows, 0, |rows|);
    hide ReadFrom, Size, Less, Format, IsListing, Records, RecordFor;
    forall k | 0 <= k < |all|
      ensures all[k].name in m && all[k].ino == m[all[k].name].ino && all[k].typ * 0x1000 == Format(m[all[k].name].kind)
    {
      ListedRecord(m, rows, k);
      assert all[k] == RecordFor(rows, k);
    }
    forall i, j | 0 <= i < j < |all|
      ensures Less(all[i].name, all[j].name)
    {
      ListingOrder(m, rows, i, j);
      ListedRecord(m, rows, i);
      ListedRecord(m, rows, j);
      assert all[i] == RecordFor(rows, i) && all[j] == RecordFor(rows, j);
    }
    forall n | n in m
      ensures exists k :: 0 <= k < |all| && all[k].name == n
    {
      var k := ListingName(m, rows, n);
      ListedRecord(m, rows, k);
      assert all[k] == RecordFor(rows, k);
    }
  }

  lemma ListedRecord(m: map<Name, Entry>, rows: seq<Row>, k: nat)
    requires IsListing(rows, m) && k < |rows|
    ensures var e := RecordFor(rows, k);
            && e.name == rows[k].name && e.name in m && e.ino == m[e.name].ino && e.typ * 0x1000 == Format(m[e.name].kind)
  {
    TypeIsFormat(rows[k].entry.kind, 0);
  }

  lemma ListingOrder(m: map<Name, Entry>, rows: seq<Row>, i: nat, j: nat)
    requires IsListing(rows, m) && i < j < |rows|
    ensures Less(rows[i].name, rows[j].name)
  {
  }

  lemma ListingName(m: map<Name, Entry>, rows: seq<Row>, n: Name) returns (k: nat)
    requires IsListing(rows, m) && n in m
    ensures k < |rows| && rows[k].name == n
  {
    k :| 0 <= k < |rows| && rows[k] == Row(n, m[n]);
  }

  lemma {:induction false} ListingLength(m: map<Name, Entry>, rows: seq<Row>)
    requires IsListing(rows, m)
    ensures |rows| == |m|
    decreases |rows|
  {
    if rows == [] {
    } else {
      var first := rows[0];
      var rest := m - {first.name};
      forall k | 0 <= k < |rows[1..]|
        ensures rows[1..][k].name in rest && rest[rows[1..][k].name] == rows[1..][k].entry
      {
        LessTotal(first.name, rows[k + 1].name);
      }
      forall n | n in rest
        ensures Row(n, rest[n]) in rows[1..]
      {
        assert Row(n, m[n]) in rows && rows == [first] + rows[1..];
      }
      ListingLength(rest, rows[1..]);
      assert rest.Keys == m.Keys - {first.name};
      assert |rest.Keys| == |m.Keys| - 1;
    }
  }
}
