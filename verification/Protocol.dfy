/** Several event loops over one device and a filesystem that answers when it likes: every
    request is answered once, whatever the interleaving. */
module Protocol {
  import opened FileContents
  import opened Options
  import LittleEndian
  import RequestCodec
  import Framing
  import opened Dispatch

  datatype Req = Req(h: RequestCodec.InHeader, data: seq<byte>)

  /** Calling is being inside a filesystem method. */
  datatype LoopState = Idle | Busy(req: Req) | Calling | Ended(end: End)

  /** `pending` are the replies in the filesystem's hands, `lost` those used up by an answer
      too long to send, and `dispatched` the requests read so far. */
  datatype State = State(loops: seq<LoopState>, pending: multiset<nat>, lost: multiset<nat>,
                         sent: seq<Framing.Message>, dispatched: seq<Req>)

  function Start(threads: nat): State {
    State(seq(threads, _ => Idle), multiset{}, multiset{}, [], [])
  }

  datatype Event =
    | Receive(thread: nat, input: Input)
    | Handle(thread: nat)
    | Return(thread: nat)
    | Panic(thread: nat)
    | Answer(unique: nat, errno: nat, body: seq<byte>)
    | GiveUp(unique: nat)
    | Notify(n: Framing.Notification)

  /** What receiving does to an idle loop. */
  function Received(i: Input): LoopState {
    match i
    case Again => Idle
    case Gone => Ended(Finished)
    case Failed(e) => Ended(Error(e))
    case Packet(bytes) =>
      match RequestCodec.TryFrom(bytes)
      case Request(h, data) => Busy(Req(h, data))
      case Overrun => Ended(Panicked)
      case _ => Ended(Invalid)
  }

  /** Receiving and then handling is one turn of the loop. */
  lemma TurnIsReceiveAndHandle(se: Session, i: Input)
    ensures React(se, i) == match Received(i)
                            case Busy(r) => Reaction(se, r.h, r.data)
                            case Ended(end) => Effect(end, [], [])
                            case _ => Effect(Running, [], [])
  {
    hide Reaction, RequestCodec.TryFrom;
  }

  function Handled(se: Session, s: State, t: nat): State
    requires t < |s.loops| && s.loops[t].Busy?
  {
    var r := s.loops[t].req;
    var e := Reaction(se, r.h, r.data);
    var next := if e.end != Running then Ended(e.end) else if e.sent != [] then Idle else Calling;
    s.(loops := s.loops[t := next], sent := s.sent + e.sent, pending := s.pending + multiset(e.handed))
  }

  /** What may happen next. The filesystem may use any reply it holds, from any thread and
      long after its method returned, or give it up; notifications come at any time. */
  predicate Enabled(s: State, e: Event) {
    match e
    case Receive(t, _) => t < |s.loops| && s.loops[t].Idle?
    case Handle(t) => t < |s.loops| && s.loops[t].Busy?
    case Return(t) => t < |s.loops| && s.loops[t].Calling?
    case Panic(t) => t < |s.loops| && s.loops[t].Calling?
    case Answer(u, errno, _) => u in s.pending && errno < 0x8000_0000
    case GiveUp(u) => u in s.pending
    case Notify(n) => Framing.Sendable(Framing.Notice(n))
  }

  function Apply(se: Session, s: State, e: Event): State
    requires Enabled(s, e)
  {
    match e
    case Receive(t, i) =>
      var l := Received(i);
      s.(loops := s.loops[t := l], dispatched := if l.Busy? then s.dispatched + [l.req] else s.dispatched)
    case Handle(t) => Handled(se, s, t)
    case Return(t) => s.(loops := s.loops[t := Idle])
    case Panic(t) => s.(loops := s.loops[t := Ended(Panicked)])
    case Answer(u, errno, body) =>
      var left := s.(pending := s.pending - multiset{u});
      if Framing.TooLong(body) then left.(lost := s.lost + multiset{u})
      else left.(sent := s.sent + [Framing.Reply(u, errno, body)])
    case GiveUp(u) =>
      s.(pending := s.pending - multiset{u}, sent := s.sent + [Framing.Reply(u, Framing.EIO, [])])
    case Notify(n) => s.(sent := s.sent + [Framing.Notice(n)])
  }

  predicate IsRun(se: Session, s: State, es: seq<Event>)
    decreases |es|
  {
    es == [] || (Enabled(s, es[0]) && IsRun(se, Apply(se, s, es[0]), es[1..]))
  }

  function After(se: Session, s: State, es: seq<Event>): State
    requires IsRun(se, s, es)
    decreases |es|
  {
    if es == [] then s else After(se, Apply(se, s, es[0]), es[1..])
  }

  // ----- What is owed -----

  /** The requests whose kernel waits for a reply: all that are handled except those the
      filesystem is only told about, and those the program stops at. */
  predicate WantsReply(se: Session, r: Req) {
    IsDestroy(se, r.h, r.data) || Decide(se, r.h, r.data).Refuse? || Decide(se, r.h, r.data).HandOut?
  }

  function Owed(se: Session, r: Req): multiset<nat> {
    if WantsReply(se, r) then multiset{r.h.unique} else multiset{}
  }

  function Wanted(se: Session, rs: seq<Req>): multiset<nat> {
    if rs == [] then multiset{} else Wanted(se, rs[..|rs| - 1]) + Owed(se, rs[|rs| - 1])
  }

  function Desk(se: Session, l: LoopState): multiset<nat> {
    if l.Busy? then Owed(se, l.req) else multiset{}
  }

  function OnDesk(se: Session, loops: seq<LoopState>): multiset<nat> {
    if loops == [] then multiset{} else Desk(se, loops[0]) + OnDesk(se, loops[1..])
  }

  function Answered(ms: seq<Framing.Message>): multiset<nat> {
    if ms == [] then multiset{}
    else
      var last := ms[|ms| - 1];
      Answered(ms[..|ms| - 1]) + if last.Reply? then multiset{last.unique} else multiset{}
  }

  /** Replies sent, used up, still out and not yet decided are together what is owed. */
  predicate Balanced(se: Session, s: State) {
    Answered(s.sent) + s.lost + s.pending + OnDesk(se, s.loops) == Wanted(se, s.dispatched)
  }

  lemma {:induction false} OnDeskUpdate(se: Session, loops: seq<LoopState>, t: nat, l: LoopState)
    requires t < |loops|
    ensures OnDesk(se, loops[t := l]) + Desk(se, loops[t]) == OnDesk(se, loops) + Desk(se, l)
  {
    hide Desk;
    if t == 0 {
      assert loops[t := l][1..] == loops[1..];
    } else {
      assert loops[t := l][0] == loops[0] && loops[t := l][1..] == loops[1..][t - 1 := l];
      OnDeskUpdate(se, loops[1..], t - 1, l);
      assert Desk(se, loops[0]) + OnDesk(se, loops[1..][t - 1 := l]) + Desk(se, loops[t])
          == Desk(se, loops[0]) + (OnDesk(se, loops[1..][t - 1 := l]) + Desk(se, loops[1..][t - 1]));
    }
  }

  lemma OnDeskSame(se: Session, loops: seq<LoopState>, t: nat, l: LoopState)
    requires t < |loops| && !loops[t].Busy? && !l.Busy?
    ensures OnDesk(se, loops[t := l]) == OnDesk(se, loops)
  {
    hide OnDesk;
    OnDeskUpdate(se, loops, t, l);
    assert OnDesk(se, loops[t := l]) + multiset{} == OnDesk(se, loops[t := l]);
    assert OnDesk(se, loops) + multiset{} == OnDesk(se, loops);
  }

  lemma {:induction false} NothingOnDesk(se: Session, loops: seq<LoopState>)
    requires forall t | 0 <= t < |loops| :: !loops[t].Busy?
    ensures OnDesk(se, loops) == multiset{}
  {
    if loops != [] {
      NothingOnDesk(se, loops[1..]);
    }
  }

  lemma AnsweredOneMore(ms: seq<Framing.Message>, m: Framing.Message)
    ensures Answered(ms + [m]) == Answered(ms) + if m.Reply? then multiset{m.unique} else multiset{}
  {
  }

  lemma WantedOneMore(se: Session, rs: seq<Req>, r: Req)
    ensures Wanted(se, rs + [r]) == Wanted(se, rs) + Owed(se, r)
  {
  }

  lemma HandleKeepsBalance(se: Session, s: State, t: nat)
    requires Balanced(se, s) && t < |s.loops| && s.loops[t].Busy?
    ensures Balanced(se, Handled(se, s, t))
  {
    hide Decide, IsDestroy, OnDesk, Wanted, Answered;
    var r := s.loops[t].req;
    var s' := Handled(se, s, t);
    var e := Reaction(se, r.h, r.data);
    OnDeskUpdate(se, s.loops, t, s'.loops[t]);
    if e.sent != [] {
      AnsweredOneMore(s.sent, e.sent[0]);
    } else {
      assert s'.sent == s.sent;
    }
    Moves(Answered(s.sent), s.lost, s.pending, OnDesk(se, s.loops),
          Answered(s'.sent), s.lost, s'.pending, OnDesk(se, s'.loops), Owed(se, r));
  }

  /** Four heaps keep their total when what leaves one arrives in the others. */
  lemma Moves(a: multiset<nat>, b: multiset<nat>, c: multiset<nat>, d: multiset<nat>,
              a': multiset<nat>, b': multiset<nat>, c': multiset<nat>, d': multiset<nat>, x: multiset<nat>)
    requires d' + x == d && a' + b' + c' == a + b + c + x
    ensures a' + b' + c' + d' == a + b + c + d
  {
  }

  lemma ReceiveKeepsBalance(se: Session, s: State, t: nat, i: Input)
    requires Balanced(se, s) && Enabled(s, Receive(t, i))
    ensures Balanced(se, Apply(se, s, Receive(t, i)))
  {
    hide OnDesk, Wanted, Answered, Owed, Received;
    var l := Received(i);
    if l.Busy? {
      OnDeskUpdate(se, s.loops, t, l);
      WantedOneMore(se, s.dispatched, l.req);
      assert OnDesk(se, s.loops[t := l]) == OnDesk(se, s.loops) + Owed(se, l.req);
    } else {
      OnDeskSame(se, s.loops, t, l);
    }
  }

  /** A reply goes from the filesystem's hands to the device, or is lost on the way. */
  lemma SpendKeepsBalance(se: Session, s: State, u: nat, m: Framing.Message, sent: bool)
    requires Balanced(se, s) && u in s.pending && m.Reply? && m.unique == u
    ensures var left := s.(pending := s.pending - multiset{u});
            Balanced(se, if sent then left.(sent := s.sent + [m]) else left.(lost := s.lost + multiset{u}))
  {
  }

  lemma StepKeepsBalance(se: Session, s: State, e: Event)
    requires Balanced(se, s) && Enabled(s, e)
    ensures Balanced(se, Apply(se, s, e))
  {
    hide OnDesk, Wanted, Answered, Handled, Received, Framing.Sendable, Framing.TooLong;
    match e
    case Receive(t, i) => ReceiveKeepsBalance(se, s, t, i);
    case Handle(t) => HandleKeepsBalance(se, s, t);
    case Return(t) => OnDeskSame(se, s.loops, t, Idle);
    case Panic(t) => OnDeskSame(se, s.loops, t, Ended(Panicked));
    case Answer(u, errno, body) => SpendKeepsBalance(se, s, u, Framing.Reply(u, errno, body), !Framing.TooLong(body));
    case GiveUp(u) => SpendKeepsBalance(se, s, u, Framing.Reply(u, Framing.EIO, []), true);
    case Notify(n) =>
      AnsweredOneMore(s.sent, Framing.Notice(n));
      assert Answered(s.sent) + multiset{} == Answered(s.sent);
  }

  lemma {:induction false} RunKeepsBalance(se: Session, s: State, es: seq<Event>)
    requires Balanced(se, s) && IsRun(se, s, es)
    ensures Balanced(se, After(se, s, es))
    decreases |es|
  {
    hide Balanced, Enabled, Apply;
    if es != [] {
      StepKeepsBalance(se, s, es[0]);
      RunKeepsBalance(se, Apply(se, s, es[0]), es[1..]);
    }
  }

  lemma StartIsBalanced(se: Session, threads: nat)
    ensures Balanced(se, Start(threads))
  {
    NothingOnDesk(se, Start(threads).loops);
  }

  /** Nobody holds a reply and no loop is in the middle of a request. */
  predicate Quiet(s: State) {
    s.pending == multiset{} && forall t | 0 <= t < |s.loops| :: !s.loops[t].Busy?
  }

  predicate SentTooMuch(e: Event) { e.Answer? && Framing.TooLong(e.body) }

  lemma LostStep(se: Session, s: State, e: Event)
    requires Enabled(s, e)
    ensures Apply(se, s, e).lost == if SentTooMuch(e) then s.lost + multiset{e.unique} else s.lost
  {
    hide Framing.TooLong, Reaction, Received, Framing.Sendable;
  }

  lemma {:induction false} LostIff(se: Session, s: State, es: seq<Event>)
    requires IsRun(se, s, es)
    ensures s.lost <= After(se, s, es).lost
    ensures After(se, s, es).lost == s.lost <==> forall k | 0 <= k < |es| :: !SentTooMuch(es[k])
    decreases |es|
  {
    hide SentTooMuch, Apply, Enabled;
    if es != [] {
      var next := Apply(se, s, es[0]);
      LostStep(se, s, es[0]);
      LostIff(se, next, es[1..]);
      var end := After(se, next, es[1..]).lost;
      assert forall k | 0 < k < |es| :: es[k] == es[1..][k - 1];
      assert forall k | 0 <= k < |es| - 1 :: es[1..][k] == es[k + 1];
      if SentTooMuch(es[0]) {
        SentNamesNumber(es[0]);
        assert end[es[0].unique] >= next.lost[es[0].unique] > s.lost[es[0].unique];
      } else if k :| 0 <= k < |es| && SentTooMuch(es[k]) {
        assert es[1..][k - 1] == es[k];
      }
    }
  }

  lemma SentNamesNumber(e: Event)
    ensures SentTooMuch(e) ==> e.Answer?
  {
  }

  /** The requests the kernel waits at: all but those it only tells the filesystem about. */
  predicate Awaits(se: Session, r: Req) {
    !(Forgetting(r.h.opcode) && RequestCodec.Parse(r.h.opcode, se.ext, r.data).Parsed?)
  }

  function Awaited(se: Session, rs: seq<Req>): multiset<nat> {
    if rs == [] then multiset{}
    else
      var last := rs[|rs| - 1];
      Awaited(se, rs[..|rs| - 1]) + if Awaits(se, last) then multiset{last.h.unique} else multiset{}
  }

  predicate Halts(se: Session, r: Req) { Stops(se, r.h, r.data) }

  function Halted(se: Session, rs: seq<Req>): multiset<nat> {
    if rs == [] then multiset{}
    else
      var last := rs[|rs| - 1];
      Halted(se, rs[..|rs| - 1]) + if Halts(se, last) then multiset{last.h.unique} else multiset{}
  }

  /** The requests that are owed no reply: FORGET and BATCH_FORGET that parse, and those the
      program stops at. Only the first kind expects none. */
  lemma UnansweredIff(se: Session, r: Req)
    requires se.filesystem
    ensures !WantsReply(se, r) <==> !Awaits(se, r) || Halts(se, r)
    ensures Awaits(se, r) <==> WantsReply(se, r) || Halts(se, r)
    ensures !(WantsReply(se, r) && Halts(se, r))
  {
    hide RequestCodec.Layout, RequestCodec.Parse, Decide, Stops;
    SilentIff(se, r.h, r.data);
    StopsIff(se, r.h, r.data);
    DestroyGoesOn(se, r);
  }

  lemma DestroyGoesOn(se: Session, r: Req)
    ensures IsDestroy(se, r.h, r.data) ==> !Stops(se, r.h, r.data) && !Forgetting(r.h.opcode)
  {
    hide RequestCodec.Layout, RequestCodec.Parse, LittleEndian.Get;
    if RequestCodec.Parse(r.h.opcode, se.ext, r.data).Parsed? {
      RequestCodec.SerializeParse(r.h.opcode, se.ext, r.data);
    }
  }

  lemma {:induction false} AwaitedSplits(se: Session, rs: seq<Req>)
    requires se.filesystem
    ensures Awaited(se, rs) == Wanted(se, rs) + Halted(se, rs)
  {
    hide WantsReply, Awaits, Halts;
    if rs != [] {
      AwaitedSplits(se, rs[..|rs| - 1]);
      UnansweredIff(se, rs[|rs| - 1]);
    }
  }

  lemma {:induction false} NoneHalted(se: Session, rs: seq<Req>)
    ensures Halted(se, rs) == multiset{} <==> forall k | 0 <= k < |rs| :: !Halts(se, rs[k])
  {
    hide Halts;
    if rs != [] {
      var last := |rs| - 1;
      NoneHalted(se, rs[..last]);
      if Halts(se, rs[last]) {
        assert rs[last].h.unique in Halted(se, rs);
      } else {
        assert Halted(se, rs) == Halted(se, rs[..last]);
        assert forall k | 0 <= k < last :: rs[..last][k] == rs[k];
      }
    }
  }

  /** When things have come to rest, every request the kernel waits at has been answered, each
      number as often as it was dispatched, if and only if the filesystem never answered with
      more than a header can announce and no request stopped the program. */
  lemma ExactlyOnceIff(se: Session, threads: nat, es: seq<Event>)
    requires se.filesystem && IsRun(se, Start(threads), es) && Quiet(After(se, Start(threads), es))
    ensures var s := After(se, Start(threads), es);
            Answered(s.sent) == Awaited(se, s.dispatched)
            <==> (forall k | 0 <= k < |es| :: !SentTooMuch(es[k]))
                 && forall k | 0 <= k < |s.dispatched| :: !Halts(se, s.dispatched[k])
  {
    hide Answered, Wanted, OnDesk, Start, Awaited, Halted, Halts, SentTooMuch;
    StartIsBalanced(se, threads);
    RunKeepsBalance(se, Start(threads), es);
    var s := After(se, Start(threads), es);
    NothingOnDesk(se, s.loops);
    LostIff(se, Start(threads), es);
    StartsEmpty(threads);
    AwaitedSplits(se, s.dispatched);
    NoneHalted(se, s.dispatched);
    NothingMissing(Answered(s.sent), s.lost, Halted(se, s.dispatched), Awaited(se, s.dispatched));
  }

  lemma NothingMissing(a: multiset<nat>, lost: multiset<nat>, halted: multiset<nat>, all: multiset<nat>)
    requires all == a + lost + halted
    ensures a == all <==> lost == multiset{} && halted == multiset{}
  {
    if a == all {
      forall u: nat
        ensures lost[u] == 0 && halted[u] == 0
      {
        assert all[u] == a[u] + lost[u] + halted[u];
      }
    }
  }

  lemma StartsEmpty(threads: nat)
    ensures var s := Start(threads); s.lost == multiset{} && s.pending == multiset{} && s.sent == [] && s.dispatched == []
  {
  }

  predicate DistinctNumbers(rs: seq<Req>) {
    forall j, k | 0 <= j < k < |rs| :: rs[j].h.unique != rs[k].h.unique
  }

  lemma {:induction false} WantedCount(se: Session, rs: seq<Req>, k: nat)
    requires DistinctNumbers(rs) && k < |rs|
    ensures Wanted(se, rs)[rs[k].h.unique] == if WantsReply(se, rs[k]) then 1 else 0
  {
    hide WantsReply;
    var last := |rs| - 1;
    if k < last {
      WantedCount(se, rs[..last], k);
    } else {
      NotWanted(se, rs[..last], rs[k].h.unique);
    }
  }

  lemma {:induction false} NotWanted(se: Session, rs: seq<Req>, u: nat)
    requires forall k | 0 <= k < |rs| :: rs[k].h.unique != u
    ensures Wanted(se, rs)[u] == 0
  {
    hide WantsReply;
    if rs != [] {
      NotWanted(se, rs[..|rs| - 1], u);
    }
  }

  /** At any moment of any run: as long as the kernel numbers its requests apart, none is
      answered twice, none that the filesystem is merely told about is answered at all, and
      one whose reply is still out has not been answered yet. */
  lemma AtMostOnce(se: Session, threads: nat, es: seq<Event>, k: nat)
    requires IsRun(se, Start(threads), es)
    requires var s := After(se, Start(threads), es); DistinctNumbers(s.dispatched) && k < |s.dispatched|
    ensures var s := After(se, Start(threads), es);
            var u := s.dispatched[k].h.unique;
            && Answered(s.sent)[u] + s.pending[u] <= (if WantsReply(se, s.dispatched[k]) then 1 else 0)
            && (u in s.pending ==> u !in Answered(s.sent))
  {
    hide Answered, Wanted, OnDesk, Start, WantsReply;
    StartIsBalanced(se, threads);
    RunKeepsBalance(se, Start(threads), es);
    var s := After(se, Start(threads), es);
    var u := s.dispatched[k].h.unique;
    WantedCount(se, s.dispatched, k);
    assert (Answered(s.sent) + s.lost + s.pending + OnDesk(se, s.loops))[u]
        == Answered(s.sent)[u] + s.lost[u] + s.pending[u] + OnDesk(se, s.loops)[u];
  }

  // ----- Requests that stay unanswered -----

  const ANYBODY: Session := Session(All, 0, false, false, true)

  function HeaderOf(opcode: nat): RequestCodec.InHeader { RequestCodec.InHeader(opcode, 1, 1, 0, 0, 0, 0) }

  lemma NoMore(se: Session, s: State)
    ensures IsRun(se, s, []) && After(se, s, []) == s
  {
  }

  lemma OnePlus(se: Session, s: State, e: Event, next: State, es: seq<Event>) returns (more: seq<Event>)
    requires Enabled(s, e) && Apply(se, s, e) == next && IsRun(se, next, es)
    ensures IsRun(se, s, more) && After(se, s, more) == After(se, next, es)
  {
    hide Enabled, Apply;
    more := [e] + es;
    assert more[1..] == es;
  }

  lemma ReadLinkIsHandedOut()
    ensures RequestCodec.TryFrom(RequestCodec.Packet(HeaderOf(5), [])) == RequestCodec.Request(HeaderOf(5), [])
    ensures Decide(ANYBODY, HeaderOf(5), []) == HandOut && Awaits(ANYBODY, Req(HeaderOf(5), []))
  {
    hide RequestCodec.Packet, RequestCodec.TryFrom;
    RequestCodec.PacketBack(HeaderOf(5), [], []);
    assert RequestCodec.Packet(HeaderOf(5), []) + [] == RequestCodec.Packet(HeaderOf(5), []);
    var op := RequestCodec.Operation(5, [], [], []);
    assert RequestCodec.Serialize(op) == [];
    RequestCodec.ParseSerialize(op, false);
  }

  /** The only loop there is, with the first request on its desk. */
  function Taken(r: Req): State { State([Busy(r)], multiset{}, multiset{}, [], [r]) }

  lemma TakeFirst(se: Session, r: Req, bytes: seq<byte>)
    requires RequestCodec.TryFrom(bytes) == RequestCodec.Request(r.h, r.data)
    ensures Enabled(Start(1), Receive(0, Packet(bytes))) && Apply(se, Start(1), Receive(0, Packet(bytes))) == Taken(r)
  {
    hide RequestCodec.TryFrom;
    assert Start(1).loops == [Idle] && [Idle][0 := Busy(r)] == [Busy(r)] && [] + [r] == [r];
  }

  lemma HandOutFirst(se: Session, r: Req)
    requires !IsDestroy(se, r.h, r.data) && Decide(se, r.h, r.data) == HandOut
    ensures Enabled(Taken(r), Handle(0))
    ensures Apply(se, Taken(r), Handle(0)) == State([Calling], multiset{r.h.unique}, multiset{}, [], [r])
  {
    hide Decide, IsDestroy;
    assert Taken(r).loops[0 := Calling] == [Calling];
  }

  lemma LoseFirst(se: Session, r: Req, body: seq<byte>)
    requires |body| >= TWO_TO_THE_32
    ensures var held := State([Calling], multiset{r.h.unique}, multiset{}, [], [r]);
            var answer := Answer(r.h.unique, 0, body);
            && Enabled(held, answer)
            && Apply(se, held, answer) == State([Calling], multiset{}, multiset{r.h.unique}, [], [r])
            && Quiet(Apply(se, held, answer))
  {
  }

  lemma StopAtFirst(se: Session, r: Req)
    requires !IsDestroy(se, r.h, r.data) && Decide(se, r.h, r.data) == Stop
    ensures Enabled(Taken(r), Handle(0))
    ensures Apply(se, Taken(r), Handle(0)) == State([Ended(Panicked)], multiset{}, multiset{}, [], [r])
  {
    hide Decide, IsDestroy;
    assert Taken(r).loops[0 := Ended(Panicked)] == [Ended(Panicked)];
  }

  /** A READLINK answered with 4 GiB: everything is at rest, and nothing was sent. */
  lemma LongAnswerIsLost(body: seq<byte>) returns (es: seq<Event>)
    requires |body| == TWO_TO_THE_32
    ensures IsRun(ANYBODY, Start(1), es)
    ensures var s := After(ANYBODY, Start(1), es);
            Quiet(s) && s.sent == [] && s.dispatched == [Req(HeaderOf(5), [])] && Awaits(ANYBODY, s.dispatched[0])
  {
    var r := Req(HeaderOf(5), []);
    var bytes := RequestCodec.Packet(r.h, []);
    hide RequestCodec.Packet, RequestCodec.TryFrom, Decide, RequestCodec.Parse, After, IsRun, Start, Apply,
      Enabled, Taken, Quiet, Awaits;
    ReadLinkIsHandedOut();
    TakeFirst(ANYBODY, r, bytes);
    HandOutFirst(ANYBODY, r);
    var answer := Answer(1, 0, body);
    var held := State([Calling], multiset{1}, multiset{}, [], [r]);
    var lost := State([Calling], multiset{}, multiset{1}, [], [r]);
    LoseFirst(ANYBODY, r, body);
    NoMore(ANYBODY, lost);
    es := OnePlus(ANYBODY, held, answer, lost, []);
    es := OnePlus(ANYBODY, Taken(r), Handle(0), held, es);
    es := OnePlus(ANYBODY, Start(1), Receive(0, Packet(bytes)), Taken(r), es);
  }

  /** An IOCTL that announces input it does not bring: the thread is gone, nothing was sent. */
  lemma ShortIoctlIsUnanswered() returns (es: seq<Event>)
    ensures IsRun(ANYBODY, Start(1), es)
    ensures var s := After(ANYBODY, Start(1), es);
            && Quiet(s) && s.sent == [] && s.loops == [Ended(Panicked)]
            && |s.dispatched| == 1 && Awaits(ANYBODY, s.dispatched[0])
  {
    var data := RequestCodec.Serialize(ShortIoctl());
    var r := Req(HeaderOf(39), data);
    var bytes := RequestCodec.Packet(r.h, data);
    ShortIoctlLength();
    hide RequestCodec.Packet, RequestCodec.TryFrom, Decide, RequestCodec.Parse, RequestCodec.Serialize, ShortIoctl,
      After, IsRun, Start, Apply, Enabled, Taken;
    ShortIoctlStops(ANYBODY, r.h);
    RequestCodec.PacketBack(r.h, data, []);
    assert bytes + [] == bytes;
    TakeFirst(ANYBODY, r, bytes);
    StopAtFirst(ANYBODY, r);
    var gone := State([Ended(Panicked)], multiset{}, multiset{}, [], [r]);
    NoMore(ANYBODY, gone);
    es := OnePlus(ANYBODY, Taken(r), Handle(0), gone, []);
    es := OnePlus(ANYBODY, Start(1), Receive(0, Packet(bytes)), Taken(r), es);
  }

  lemma ShortIoctlLength()
    ensures |RequestCodec.Serialize(ShortIoctl())| == 32
  {
    var op := ShortIoctl();
    assert op.args[1..] == [];
    assert |RequestCodec.Concat(op.args)| == 32;
  }

  // ----- Where the messages come from -----

  /** Some event of the run, or some request in it, accounts for a message: an answer of the
      filesystem as it gave it, EIO for a reply given up, a request the library answered
      itself, or a notification. */
  ghost predicate Because(se: Session, es: seq<Event>, rs: seq<Req>, m: Framing.Message) {
    match m
    case Reply(u, errno, body) =>
      || Answer(u, errno, body) in es
      || (GiveUp(u) in es && errno == Framing.EIO && body == [])
      || (exists k :: 0 <= k < |rs| && m in Reaction(se, rs[k].h, rs[k].data).sent)
    case Notice(n) => Notify(n) in es
  }

  /** Nothing reaches the kernel that nobody sent: every message is accounted for. */
  lemma {:induction false} SentBecause(se: Session, s: State, es: seq<Event>, m: Framing.Message)
    requires IsRun(se, s, es) && m in After(se, s, es).sent
    requires forall t | 0 <= t < |s.loops| && s.loops[t].Busy? :: s.loops[t].req in s.dispatched
    ensures m in s.sent || Because(se, es, After(se, s, es).dispatched, m)
    decreases |es|
  {
    hide Apply, Enabled, Reaction;
    if es != [] {
      var next := Apply(se, s, es[0]);
      BecauseOfOne(se, s, es[0], m);
      SentBecause(se, next, es[1..], m);
      OnlyMoreDispatched(se, next, es[1..]);
      assert forall e | e in es[1..] :: e in es;
      if m in next.sent && m !in s.sent {
        assert es[0] in es;
        BecauseStill(se, [es[0]], es, next.dispatched, After(se, s, es).dispatched, m);
      } else if m !in next.sent {
        BecauseStill(se, es[1..], es, After(se, s, es).dispatched, After(se, s, es).dispatched, m);
      }
    }
  }

  lemma BecauseOfOne(se: Session, s: State, e: Event, m: Framing.Message)
    requires Enabled(s, e)
    requires forall t | 0 <= t < |s.loops| && s.loops[t].Busy? :: s.loops[t].req in s.dispatched
    ensures var next := Apply(se, s, e);
            && s.dispatched <= next.dispatched
            && (forall t | 0 <= t < |next.loops| && next.loops[t].Busy? :: next.loops[t].req in next.dispatched)
            && (m in next.sent && m !in s.sent ==> Because(se, [e], next.dispatched, m))
  {
    hide Reaction, Received, Framing.TooLong, Framing.Sendable;
    if e.Handle? {
      var r := s.loops[e.thread].req;
      var k :| 0 <= k < |s.dispatched| && s.dispatched[k] == r;
      assert m in Apply(se, s, e).sent && m !in s.sent ==> m in Reaction(se, r.h, r.data).sent;
      ReactsWithReplies(se, r);
    }
  }

  lemma ReactsWithReplies(se: Session, r: Req)
    ensures forall m | m in Reaction(se, r.h, r.data).sent :: m.Reply?
  {
    hide Decide, IsDestroy;
  }

  lemma {:induction false} OnlyMoreDispatched(se: Session, s: State, es: seq<Event>)
    requires IsRun(se, s, es)
    ensures s.dispatched <= After(se, s, es).dispatched
    decreases |es|
  {
    hide Reaction, Received, Framing.TooLong, Framing.Sendable;
    if es != [] {
      OnlyMoreDispatched(se, Apply(se, s, es[0]), es[1..]);
    }
  }

  lemma BecauseStill(se: Session, few: seq<Event>, es: seq<Event>, rs: seq<Req>, all: seq<Req>, m: Framing.Message)
    requires Because(se, few, rs, m) && rs <= all && forall e | e in few :: e in es
    ensures Because(se, es, all, m)
  {
    hide Reaction;
  }

  // ----- Coming to rest -----

  function BusyLoops(loops: seq<LoopState>): nat {
    if loops == [] then 0 else (if loops[0].Busy? then 1 else 0) + BusyLoops(loops[1..])
  }

  lemma {:induction false} OneLessBusy(loops: seq<LoopState>, t: nat, l: LoopState)
    requires t < |loops| && loops[t].Busy? && !l.Busy?
    ensures BusyLoops(loops) == BusyLoops(loops[t := l]) + 1
  {
    if t == 0 {
      assert loops[t := l][1..] == loops[1..];
    } else {
      assert loops[t := l][0] == loops[0] && loops[t := l][1..] == loops[1..][t - 1 := l];
      OneLessBusy(loops[1..], t - 1, l);
    }
  }

  /** From wherever a run has got to, it can come to rest: the loops handle what they have, and
      the filesystem gives up what it holds, so that nothing more is lost. */
  lemma {:induction false} CanRest(se: Session, s: State) returns (es: seq<Event>)
    ensures IsRun(se, s, es) && Quiet(After(se, s, es)) && After(se, s, es).lost == s.lost
    ensures forall k | 0 <= k < |es| :: !SentTooMuch(es[k])
    decreases 2 * BusyLoops(s.loops) + |s.pending|
  {
    hide IsRun, After, BusyLoops, Reaction;
    if t :| 0 <= t < |s.loops| && s.loops[t].Busy? {
      var next := Handled(se, s, t);
      var r := s.loops[t].req;
      OneLessBusy(s.loops, t, next.loops[t]);
      AtMostOneHanded(se, r);
      es := CanRest(se, next);
      es := FirstThen(se, s, Handle(t), next, es);
    } else if u :| u in s.pending {
      var next := Apply(se, s, GiveUp(u));
      es := CanRest(se, next);
      es := FirstThen(se, s, GiveUp(u), next, es);
    } else {
      NoMore(se, s);
      es := [];
    }
  }

  lemma AtMostOneHanded(se: Session, r: Req)
    ensures |Reaction(se, r.h, r.data).handed| <= 1
  {
    hide Decide, IsDestroy;
  }

  lemma FirstThen(se: Session, s: State, e: Event, next: State, es: seq<Event>) returns (more: seq<Event>)
    requires Enabled(s, e) && Apply(se, s, e) == next && IsRun(se, next, es)
    requires !SentTooMuch(e) && forall k | 0 <= k < |es| :: !SentTooMuch(es[k])
    ensures IsRun(se, s, more) && After(se, s, more) == After(se, next, es)
    ensures forall k | 0 <= k < |more| :: !SentTooMuch(more[k])
  {
    hide Enabled, Apply, SentTooMuch;
    more := [e] + es;
    assert more[1..] == es;
  }

  // ----- On the wire -----

  predicate InRange(s: State) {
    && (forall k | 0 <= k < |s.sent| :: Framing.Sendable(s.sent[k]) && (s.sent[k].Reply? ==> s.sent[k].unique != 0))
    && (forall u | u in s.pending :: 0 < u < TWO_TO_THE_64)
    && (forall t | 0 <= t < |s.loops| && s.loops[t].Busy? :: 0 < s.loops[t].req.h.unique < TWO_TO_THE_64)
  }

  lemma {:induction false} GetBound(b: seq<byte>)
    ensures LittleEndian.Get(b) < LittleEndian.Power256(|b|)
  {
    if b != [] {
      GetBound(b[1..]);
    }
  }

  lemma NumberInRange(bytes: seq<byte>)
    requires RequestCodec.TryFrom(bytes).Request?
    ensures RequestCodec.TryFrom(bytes).header.unique < TWO_TO_THE_64
  {
    hide LittleEndian.Get;
    GetBound(bytes[8..16]);
    LittleEndian.Widths();
  }

  /** The kernel numbers no request zero; that number is its mark of a notification. */
  predicate Numbered(e: Event) {
    e.Receive? && Received(e.input).Busy? ==> Received(e.input).req.h.unique != 0
  }

  lemma HandleStaysInRange(se: Session, s: State, t: nat)
    requires InRange(s) && t < |s.loops| && s.loops[t].Busy?
    ensures InRange(Handled(se, s, t))
  {
    hide RequestCodec.TryFrom, IsDestroy, Decide, Framing.Build, Framing.FieldsFit;
    ErrnoInRange(se, s.loops[t].req);
  }

  lemma StepStaysInRange(se: Session, s: State, e: Event)
    requires InRange(s) && Enabled(s, e) && Numbered(e)
    ensures InRange(Apply(se, s, e))
  {
    hide RequestCodec.TryFrom, Handled, Framing.Build, Framing.FieldsFit;
    if e.Receive? && e.input.Packet? && RequestCodec.TryFrom(e.input.bytes).Request? {
      NumberInRange(e.input.bytes);
    }
    if e.Handle? {
      HandleStaysInRange(se, s, e.thread);
    }
  }

  lemma ErrnoInRange(se: Session, r: Req)
    ensures Decide(se, r.h, r.data).Refuse? ==> 0 < Decide(se, r.h, r.data).errno < 100
  {
  }

  lemma {:induction false} RunStaysInRange(se: Session, s: State, es: seq<Event>)
    requires InRange(s) && IsRun(se, s, es) && forall k | 0 <= k < |es| :: Numbered(es[k])
    ensures InRange(After(se, s, es))
    decreases |es|
  {
    hide InRange, Enabled, Apply, Numbered;
    if es != [] {
      StepStaysInRange(se, s, es[0]);
      RunStaysInRange(se, Apply(se, s, es[0]), es[1..]);
    }
  }

  /** The bytes all the threads together wrote to the device read back as the very messages
      that were sent, whatever the filesystem put in them. */
  lemma KernelReadsWhatWasSent(se: Session, threads: nat, es: seq<Event>)
    requires IsRun(se, Start(threads), es) && forall k | 0 <= k < |es| :: Numbered(es[k])
    ensures var s := After(se, Start(threads), es);
            && (forall k | 0 <= k < |s.sent| :: Framing.Sendable(s.sent[k]))
            && Framing.ReadAll(Framing.WriteAll(s.sent)) == Some(s.sent)
  {
    hide Numbered, Framing.Sendable;
    RunStaysInRange(se, Start(threads), es);
    Framing.StreamRoundTrip(After(se, Start(threads), es).sent);
  }
}
