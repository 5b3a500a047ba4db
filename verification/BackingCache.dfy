/** Passthrough opens share one backing id per file: handles hold it strongly, inodes only
    remember it. */
module BackingCache {
  import opened Options

  /** The shared counts of backing ids. An id whose count falls to zero is closed in the
      kernel, for good. */
  class Arcs {
    var strong: map<nat, nat>
    var closed: multiset<nat>

    var next: nat

    ghost predicate Valid()
      reads this
    {
      forall id | id in strong :: id < next
    }

    constructor ()
      ensures Valid() && strong == map[] && closed == multiset{}
    {
      strong, closed, next := map[], multiset{}, 0;
    }

    method New() returns (id: nat)
      requires Valid()
      modifies this
      ensures Valid() && id !in old(strong) && strong == old(strong)[id := 1] && closed == old(closed)
    {
      id := next;
      next := next + 1;
      strong := strong[id := 1];
    }

    method Clone(id: nat)
      requires Valid() && id in strong && strong[id] > 0
      modifies this
      ensures Valid()
      ensures strong == old(strong)[id := old(strong)[id] + 1] && closed == old(closed)
    {
      strong := strong[id := strong[id] + 1];
    }

    /** A weak reference becomes a strong one as long as there is another. */
    method Upgrade(id: nat) returns (ok: bool)
      requires Valid() && id in strong
      modifies this
      ensures Valid()
      ensures ok <==> old(strong)[id] > 0
      ensures strong == (if ok then old(strong)[id := old(strong)[id] + 1] else old(strong)) && closed == old(closed)
    {
      ok := strong[id] > 0;
      if ok {
        Clone(id);
      }
    }

    method Drop(id: nat)
      requires Valid() && id in strong && strong[id] > 0
      modifies this
      ensures Valid()
      ensures strong == old(strong)[id := old(strong)[id] - 1]
      ensures closed == old(closed) + if old(strong)[id] == 1 then multiset{id} else multiset{}
    {
      strong := strong[id := strong[id] - 1];
      if strong[id] == 0 {
        closed := closed + multiset{id};
      }
    }
  }

  // ----- The table it amounts to -----

  /** One open file: its backing id and how many hold it. */
  datatype Row = Row(id: nat, refs: nat)

  /** One more holder, of the row there is or of a new one. */
  function Gained(t: map<nat, Row>, ino: nat, created: nat): map<nat, Row> {
    if ino in t then t[ino := Row(t[ino].id, t[ino].refs + 1)] else t[ino := Row(created, 1)]
  }

  function Lost(t: map<nat, Row>, ino: nat): map<nat, Row>
    requires ino in t
  {
    if t[ino].refs <= 1 then t - {ino} else t[ino := Row(t[ino].id, t[ino].refs - 1)]
  }

  /** The rows of the inodes whose remembered id is still alive. */
  function Table(byInode: map<nat, nat>, strong: map<nat, nat>): map<nat, Row> {
    map ino | ino in byInode && byInode[ino] in strong && strong[byInode[ino]] > 0
      :: Row(byInode[ino], strong[byInode[ino]])
  }

  function On(handles: map<nat, nat>, id: nat): set<nat> { set fh | fh in handles && handles[fh] == id }

  // ----- The invariant, part by part -----

  /** The ids in use. */
  function Live(strong: map<nat, nat>): set<nat> { set id | id in strong && strong[id] > 0 }

  /** Every count is that of the handles and opens in flight that hold the id. */
  predicate Counted(byHandle: map<nat, nat>, flight: multiset<nat>, strong: map<nat, nat>) {
    && (forall id | id in strong :: strong[id] == |On(byHandle, id)| + flight[id])
    && (forall fh | fh in byHandle :: byHandle[fh] in strong)
    && (forall id | id in flight :: id in strong)
  }

  /** `inoOf` says which inode an id was made for. An inode remembers an id made for it, and
      an id in use is the one its inode remembers. */
  predicate Remembered(byInode: map<nat, nat>, inoOf: map<nat, nat>, live: set<nat>) {
    && (forall ino | ino in byInode :: byInode[ino] in inoOf && inoOf[byInode[ino]] == ino)
    && (forall id | id in live :: id in inoOf && inoOf[id] in byInode && byInode[inoOf[id]] == id)
  }

  /** Each id that was made and is out of use was closed, once. */
  predicate ClosedOnce(made: set<nat>, live: set<nat>, closed: multiset<nat>) { closed == multiset(made - live) }

  /** At most one backing id is in use for an inode. */
  lemma OneLiveId(byInode: map<nat, nat>, inoOf: map<nat, nat>, live: set<nat>, a: nat, b: nat)
    requires Remembered(byInode, inoOf, live) && a in live && b in live && inoOf[a] == inoOf[b]
    ensures a == b
  {
  }

  /** A remembered id can be had again exactly while a handle or an open in flight has it,
      and otherwise it has been closed. */
  lemma UpgradesIffHeld(byHandle: map<nat, nat>, flight: multiset<nat>, strong: map<nat, nat>, closed: multiset<nat>, id: nat)
    requires Counted(byHandle, flight, strong) && ClosedOnce(strong.Keys, Live(strong), closed) && id in strong
    ensures strong[id] > 0 <==> id in flight || exists fh :: fh in byHandle && byHandle[fh] == id
    ensures strong[id] > 0 <==> id !in closed
  {
    if fh :| fh in byHandle && byHandle[fh] == id {
      assert fh in On(byHandle, id);
    } else {
      assert On(byHandle, id) == {};
    }
  }

  lemma OnMore(handles: map<nat, nat>, fh: nat, id: nat, other: nat)
    requires fh !in handles
    ensures |On(handles[fh := id], other)| == |On(handles, other)| + if other == id then 1 else 0
  {
    assert On(handles[fh := id], other) == On(handles, other) + if other == id then {fh} else {};
  }

  lemma OnLess(handles: map<nat, nat>, fh: nat, other: nat)
    requires fh in handles
    ensures |On(handles - {fh}, other)| == |On(handles, other)| - if other == handles[fh] then 1 else 0
  {
    assert On(handles - {fh}, other) == On(handles, other) - if other == handles[fh] then {fh} else {};
  }

  lemma FlightCounts(byHandle: map<nat, nat>, flight: multiset<nat>, strong: map<nat, nat>, id: nat)
    requires Counted(byHandle, flight, strong) && id in strong
    ensures Counted(byHandle, flight + multiset{id}, strong[id := strong[id] + 1])
  {
    hide On;
  }

  lemma NewCounts(byHandle: map<nat, nat>, flight: multiset<nat>, strong: map<nat, nat>, id: nat)
    requires Counted(byHandle, flight, strong) && id !in strong
    ensures Counted(byHandle, flight + multiset{id}, strong[id := 1])
  {
    assert On(byHandle, id) == {} && flight[id] == 0;
    hide On;
  }

  lemma HandleCounts(byHandle: map<nat, nat>, flight: multiset<nat>, strong: map<nat, nat>, fh: nat, id: nat)
    requires Counted(byHandle, flight, strong) && fh !in byHandle && id in strong
    ensures Counted(byHandle[fh := id], flight, strong[id := strong[id] + 1])
  {
    hide On;
    forall other {
      OnMore(byHandle, fh, id, other);
    }
  }

  lemma CountedAreMade(byHandle: map<nat, nat>, flight: multiset<nat>, strong: map<nat, nat>)
    requires Counted(byHandle, flight, strong)
    ensures forall fh | fh in byHandle :: byHandle[fh] in strong
    ensures forall id | id in flight :: id in strong
  {
  }

  lemma InFlightIsLive(byHandle: map<nat, nat>, flight: multiset<nat>, strong: map<nat, nat>, id: nat)
    requires Counted(byHandle, flight, strong) && id in flight
    ensures id in strong && strong[id] > 0
  {
  }

  lemma PutCounts(byHandle: map<nat, nat>, flight: multiset<nat>, strong: map<nat, nat>, fh: nat)
    requires Counted(byHandle, flight, strong) && fh in byHandle
    ensures var id := byHandle[fh];
            strong[id] > 0 && Counted(byHandle - {fh}, flight, strong[id := strong[id] - 1])
  {
    assert fh in On(byHandle, byHandle[fh]);
    hide On;
    forall other {
      OnLess(byHandle, fh, other);
    }
  }

  lemma LetGoCounts(byHandle: map<nat, nat>, flight: multiset<nat>, strong: map<nat, nat>, id: nat)
    requires Counted(byHandle, flight, strong) && id in flight
    ensures strong[id] > 0 && Counted(byHandle, flight - multiset{id}, strong[id := strong[id] - 1])
  {
  }

  lemma InLive(strong: map<nat, nat>, id: nat)
    ensures id in Live(strong) <==> id in strong && strong[id] > 0
  {
  }

  lemma MoreKeepsLive(strong: map<nat, nat>, id: nat)
    requires id in strong && strong[id] > 0
    ensures Live(strong[id := strong[id] + 1]) == Live(strong) && strong[id := strong[id] + 1].Keys == strong.Keys
  {
  }

  lemma NewIsLive(strong: map<nat, nat>, id: nat)
    requires id !in strong
    ensures Live(strong[id := 1]) == Live(strong) + {id}
    ensures strong[id := 1].Keys - Live(strong[id := 1]) == strong.Keys - Live(strong)
  {
  }

  lemma DropLeavesLive(strong: map<nat, nat>, id: nat, closed: multiset<nat>)
    requires id in strong && strong[id] > 0 && ClosedOnce(strong.Keys, Live(strong), closed)
    ensures var left := strong[id := strong[id] - 1];
            && Live(left) == (if strong[id] == 1 then Live(strong) - {id} else Live(strong))
            && ClosedOnce(left.Keys, Live(left), closed + if strong[id] == 1 then multiset{id} else multiset{})
  {
  }

  lemma NewIsRemembered(byInode: map<nat, nat>, inoOf: map<nat, nat>, live: set<nat>, ino: nat, id: nat)
    requires Remembered(byInode, inoOf, live) && id !in inoOf && (ino in byInode ==> byInode[ino] !in live)
    ensures Remembered(byInode[ino := id], inoOf[id := ino], live + {id})
  {
  }

  lemma MoreTable(byInode: map<nat, nat>, inoOf: map<nat, nat>, strong: map<nat, nat>, id: nat)
    requires Remembered(byInode, inoOf, Live(strong)) && id in strong && strong[id] > 0
    ensures id in inoOf && inoOf[id] in Table(byInode, strong) && Table(byInode, strong)[inoOf[id]].id == id
    ensures Table(byInode, strong[id := strong[id] + 1]) == Gained(Table(byInode, strong), inoOf[id], id)
  {
  }

  lemma NewTable(byInode: map<nat, nat>, inoOf: map<nat, nat>, strong: map<nat, nat>, ino: nat, id: nat)
    requires Remembered(byInode, inoOf, Live(strong)) && inoOf.Keys == strong.Keys
    requires id !in strong && ino !in Table(byInode, strong)
    ensures Table(byInode[ino := id], strong[id := 1]) == Gained(Table(byInode, strong), ino, id)
  {
  }

  lemma DropTable(byInode: map<nat, nat>, inoOf: map<nat, nat>, strong: map<nat, nat>, id: nat)
    requires Remembered(byInode, inoOf, Live(strong)) && id in strong && strong[id] > 0
    ensures id in Live(strong) && id in inoOf && inoOf[id] in Table(byInode, strong)
    ensures Table(byInode, strong)[inoOf[id]].id == id
    ensures Table(byInode, strong[id := strong[id] - 1]) == Lost(Table(byInode, strong), inoOf[id])
  {
  }

  lemma RememberedIsMade(byInode: map<nat, nat>, inoOf: map<nat, nat>, live: set<nat>, ino: nat)
    requires Remembered(byInode, inoOf, live)
    ensures ino in byInode ==> byInode[ino] in inoOf && inoOf[byInode[ino]] == ino
  {
  }

  lemma FewerRemembered(byInode: map<nat, nat>, inoOf: map<nat, nat>, live: set<nat>, fewer: set<nat>)
    requires Remembered(byInode, inoOf, live) && fewer <= live
    ensures Remembered(byInode, inoOf, fewer)
  {
  }

  lemma InTable(byInode: map<nat, nat>, strong: map<nat, nat>, ino: nat)
    ensures ino in Table(byInode, strong) <==> ino in byInode && byInode[ino] in strong && strong[byInode[ino]] > 0
  {
  }

  lemma TableRefs(byInode: map<nat, nat>, strong: map<nat, nat>, ino: nat)
    ensures ino in Table(byInode, strong) ==> Table(byInode, strong)[ino] == Row(byInode[ino], strong[byInode[ino]])
  {
  }

  lemma SameKeys(m: map<nat, nat>, n: map<nat, nat>, id: nat, a: nat, b: nat)
    requires m.Keys == n.Keys
    ensures m[id := a].Keys == n[id := b].Keys
  {
  }

  lemma ClosedSame(made: set<nat>, live: set<nat>, made': set<nat>, live': set<nat>, closed: multiset<nat>)
    requires ClosedOnce(made, live, closed) && made - live == made' - live'
    ensures ClosedOnce(made', live', closed)
  {
  }

  class BackingCache {
    const arcs: Arcs
    var byHandle: map<nat, nat>
    var byInode: map<nat, nat>
    var nextFh: nat
    ghost var flight: multiset<nat>
    ghost var inoOf: map<nat, nat>

    ghost predicate Valid()
      reads this, arcs
    {
      && arcs.Valid() && inoOf.Keys == arcs.strong.Keys
      && Counted(byHandle, flight, arcs.strong)
      && Remembered(byInode, inoOf, Live(arcs.strong))
      && ClosedOnce(arcs.strong.Keys, Live(arcs.strong), arcs.closed)
      && forall fh | fh in byHandle :: fh <= nextFh
    }

    ghost function Open(): map<nat, Row>
      reads this, arcs
    {
      Table(byInode, arcs.strong)
    }

    constructor ()
      ensures Valid() && fresh(arcs) && Open() == map[] && nextFh == 0 && byHandle == map[] && flight == multiset{}
    {
      arcs := new Arcs();
      byHandle, byInode, nextFh := map[], map[], 0;
      flight, inoOf := multiset{}, map[];
    }

    method NextFh() returns (fh: nat)
      modifies this`nextFh
      ensures fh == nextFh == old(nextFh) + 1
    {
      nextFh := nextFh + 1;
      fh := nextFh;
    }

    /** The id in use for the inode, or else a new one, in the caller's hands. `opens` is
        whether the callback that makes one succeeds. */
    method Find(ino: nat, opens: bool) returns (r: Option<nat>)
      requires Valid()
      modifies `byInode, `flight, `inoOf, arcs
      ensures Valid() && arcs.closed == old(arcs.closed)
      ensures r == None <==> ino !in old(Open()) && !opens
      ensures r == None ==> Open() == old(Open()) && flight == old(flight)
      ensures r.Some? ==>
        var id := r.value;
        && flight == old(flight) + multiset{id} && Open() == Gained(old(Open()), ino, id) && id in inoOf && inoOf[id] == ino
        && (if ino in old(Open()) then id == old(Open())[ino].id else id !in old(arcs.strong))
    {
      hide Counted, Remembered, ClosedOnce, Table, On, Live, Gained, Lost;
      ghost var strong := arcs.strong;
      RememberedIsMade(byInode, inoOf, Live(strong), ino);
      InTable(byInode, strong, ino);
      if ino in byInode {
        InLive(strong, byInode[ino]);
        var hit := arcs.Upgrade(byInode[ino]);
        if hit {
          var id := byInode[ino];
          MoreKeepsLive(strong, id);
          MoreTable(byInode, inoOf, strong, id);
          TableRefs(byInode, strong, ino);
          FlightCounts(byHandle, flight, strong, id);
          flight := flight + multiset{id};
          return Some(id);
        }
      }
      if !opens {
        return None;
      }
      var id := Create(ino);
      return Some(id);
    }

    /** A new id, which the inode remembers from now on. */
    method Create(ino: nat) returns (id: nat)
      requires Valid() && ino !in Open()
      modifies `byInode, `flight, `inoOf, arcs
      ensures Valid() && arcs.closed == old(arcs.closed) && id !in old(arcs.strong)
      ensures flight == old(flight) + multiset{id} && Open() == Gained(old(Open()), ino, id)
      ensures id in inoOf && inoOf[id] == ino
    {
      hide Counted, Remembered, ClosedOnce, Table, On, Live, Gained, Lost;
      ghost var strong := arcs.strong;
      RememberedIsMade(byInode, inoOf, Live(strong), ino);
      InTable(byInode, strong, ino);
      if ino in byInode {
        InLive(strong, byInode[ino]);
      }
      id := arcs.New();
      ghost var after := strong[id := 1];
      assert arcs.strong == after;
      SameKeys(inoOf, strong, id, ino, 1);
      NewIsLive(strong, id);
      NewTable(byInode, inoOf, strong, ino, id);
      NewIsRemembered(byInode, inoOf, Live(strong), ino, id);
      NewCounts(byHandle, flight, strong, id);
      ClosedSame(strong.Keys, Live(strong), after.Keys, Live(after), arcs.closed);
      byInode, inoOf, flight := byInode[ino := id], inoOf[id := ino], flight + multiset{id};
    }

    /** The id in use for the inode, or a new one when there is none, under a handle that was
        never given out before. A failure only spends the handle's number. */
    method GetOr(ino: nat, opens: bool) returns (r: Option<(nat, nat)>)
      requires Valid()
      modifies this, arcs
      ensures Valid() && nextFh == old(nextFh) + 1 && arcs.closed == old(arcs.closed)
      ensures r == None <==> ino !in old(Open()) && !opens
      ensures r == None ==> byHandle == old(byHandle) && Open() == old(Open()) && flight == old(flight)
      ensures r.Some? ==>
        var (fh, id) := r.value;
        && fh == nextFh && fh !in old(byHandle) && byHandle == old(byHandle)[fh := id]
        && flight == old(flight) + multiset{id}
        && (if ino in old(Open()) then id == old(Open())[ino].id else id !in old(arcs.strong))
        && Open() == Gained(Gained(old(Open()), ino, id), ino, id)
    {
      hide Counted, Remembered, ClosedOnce, Table, On, Live, Gained, Lost;
      var fh := NextFh();
      var found := Find(ino, opens);
      if found == None {
        return None;
      }
      var id := found.value;
      ghost var strong := arcs.strong;
      CountedAreMade(byHandle, flight, strong);
      InFlightIsLive(byHandle, flight, strong, id);
      MoreKeepsLive(strong, id);
      MoreTable(byInode, inoOf, strong, id);
      HandleCounts(byHandle, flight, strong, fh, id);
      arcs.Clone(id);
      byHandle := byHandle[fh := id];
      return Some((fh, id));
    }

    /** Releasing a handle takes one holder away; a handle that is not there changes nothing. */
    method Put(fh: nat)
      requires Valid()
      modifies this, arcs
      ensures Valid() && nextFh == old(nextFh) && flight == old(flight)
      ensures byHandle == old(byHandle) - {fh}
      ensures fh !in old(byHandle) ==> Open() == old(Open()) && arcs.closed == old(arcs.closed)
      ensures fh in old(byHandle) ==>
        var id := old(byHandle)[fh];
        id in old(inoOf)
        && var ino := old(inoOf)[id];
           && ino in old(Open()) && old(Open())[ino].id == id && Open() == Lost(old(Open()), ino)
           && arcs.closed == old(arcs.closed) + if ino in Open() then multiset{} else multiset{id}
    {
      hide Counted, Remembered, ClosedOnce, Table, On, Live, Gained, Lost;
      CountedAreMade(byHandle, flight, arcs.strong);
      if fh in byHandle {
        var id := byHandle[fh];
        PutCounts(byHandle, flight, arcs.strong, fh);
        DropTable(byInode, inoOf, arcs.strong, id);
        DropLeavesLive(arcs.strong, id, arcs.closed);
        FewerRemembered(byInode, inoOf, Live(arcs.strong), Live(arcs.strong[id := arcs.strong[id] - 1]));
        TableRefs(byInode, arcs.strong, inoOf[id]);
        InTable(byInode, arcs.strong[id := arcs.strong[id] - 1], inoOf[id]);
        byHandle := byHandle - {fh};
        arcs.Drop(id);
      }
    }

    /** The open that got the id is over, and lets go of its own hold. */
    method DropInFlight(id: nat)
      requires Valid() && id in flight
      modifies this, arcs
      ensures Valid() && nextFh == old(nextFh) && byHandle == old(byHandle) && flight == old(flight) - multiset{id}
      ensures id in old(inoOf)
              && var ino := old(inoOf)[id];
                 && ino in old(Open()) && old(Open())[ino].id == id && Open() == Lost(old(Open()), ino)
                 && arcs.closed == old(arcs.closed) + if ino in Open() then multiset{} else multiset{id}
    {
      hide Counted, Remembered, ClosedOnce, Table, On, Live, Gained, Lost;
      CountedAreMade(byHandle, flight, arcs.strong);
      LetGoCounts(byHandle, flight, arcs.strong, id);
      DropTable(byInode, inoOf, arcs.strong, id);
      DropLeavesLive(arcs.strong, id, arcs.closed);
      FewerRemembered(byInode, inoOf, Live(arcs.strong), Live(arcs.strong[id := arcs.strong[id] - 1]));
      TableRefs(byInode, arcs.strong, inoOf[id]);
      InTable(byInode, arcs.strong[id := arcs.strong[id] - 1], inoOf[id]);
      flight := flight - multiset{id};
      arcs.Drop(id);
    }
  }
}
