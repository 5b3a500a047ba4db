/** How a session ends: who unmounts, when the filesystem is destroyed, and what is waited for. */
module Teardown {

  // ----- One owner for each thing -----

  /** What a call of the platform's unmount leaves behind. */
  class MountImpl {
    var calls: nat

    constructor ()
      ensures calls == 0
    {
      calls := 0;
    }

    method UmountImpl()
      modifies this
      ensures calls == old(calls) + 1
    {
      calls := calls + 1;
    }
  }

  class Mount {
    var mountImpl: MountImpl?

    constructor (mountImpl: MountImpl)
      ensures this.mountImpl == mountImpl
    {
      this.mountImpl := mountImpl;
    }

    /** `alive` is whether the kernel connection still is, and `succeeds` what the platform's
        unmount answers. A mount whose connection is gone is left alone. */
    method Umount(alive: bool, succeeds: bool) returns (ok: bool)
      modifies this, mountImpl
      ensures mountImpl == null
      ensures old(mountImpl) != null ==> old(mountImpl).calls == old(mountImpl.calls) + if alive then 1 else 0
      ensures ok <==> old(mountImpl) == null || !alive || succeeds
    {
      var mount := mountImpl;
      mountImpl := null;
      if mount != null {
        if !alive {
          return true;
        }
        mount.UmountImpl();
        return succeeds;
      }
      return true;
    }

    method Drop(alive: bool)
      modifies this, mountImpl
      ensures mountImpl == null
      ensures old(mountImpl) != null ==> old(mountImpl).calls == old(mountImpl.calls) + if alive then 1 else 0
    {
      var mount := mountImpl;
      mountImpl := null;
      if mount != null && alive {
        mount.UmountImpl();
      }
    }
  }

  /** The slot `Session`, `UmountOnDrop` and every `SessionUnmounter` share. */
  class MountCell {
    var mount: Mount?

    constructor (mount: Mount?)
      ensures this.mount == mount
    {
      this.mount := mount;
    }

    method Take() returns (m: Mount?)
      modifies this
      ensures m == old(mount) && mount == null
    {
      m := mount;
      mount := null;
    }

    /** Whoever comes first unmounts; everyone after finds the slot empty and succeeds. */
    method Umount(alive: bool, succeeds: bool) returns (ok: bool)
      modifies this, mount, if mount != null then {mount.mountImpl} else {}
      ensures mount == null
      ensures old(mount) == null ==> ok
      ensures old(mount) != null && old(mount.mountImpl) != null ==>
                old(mount.mountImpl).calls == old(mount.mountImpl.calls) + (if alive then 1 else 0)
                && (ok <==> !alive || succeeds)
    {
      var taken := Take();
      if taken != null {
        ok := taken.Umount(alive, succeeds);
        return ok;
      }
      return true;
    }
  }

  /** A look at the connection finds it ended, and every look before was in time. */
  ghost predicate SeenToEnd(alive: nat -> bool, now: nat -> nat, timeout: nat) {
    exists k: nat :: !alive(k) && forall i | 0 <= i < k :: alive(i) && now(i) < now(0) + timeout
  }

  /** Whether the connection was seen to end before the deadline. The k-th look at it finds it
      alive or not, at the k-th reading of a clock that a sleep advances by ten. */
  method ConnectionEnded(alive: nat -> bool, now: nat -> nat, timeout: nat) returns (ended: bool, k: nat)
    requires forall i: nat :: now(i + 1) >= now(i) + 10
    ensures ended <==> SeenToEnd(alive, now, timeout)
    ensures ended <==> !alive(k)
    ensures forall i | 0 <= i < k :: alive(i) && now(i) < now(0) + timeout
    ensures !ended ==> now(k) >= now(0) + timeout
    ensures 10 * k < timeout + 10
  {
    var deadline := now(0) + timeout;
    k := 0;
    while alive(k)
      invariant now(k) >= now(0) + 10 * k
      invariant forall i | 0 <= i < k :: alive(i) && now(i) < deadline
      invariant k == 0 || 10 * (k - 1) < timeout
      decreases deadline - now(k)
    {
      if now(k) >= deadline {
        return false, k;
      }
      k := k + 1;
    }
    return true, k;
  }

  datatype Act = Unmount(ok: bool) | SawEnd | Join | Detach

  /** `acts` is what was done to the session thread and its mount, in order. */
  class BackgroundSession {
    var guard: bool
    var mount: bool
    var acts: seq<Act>

    constructor (mounted: bool)
      ensures guard && mount == mounted && acts == []
    {
      guard, mount, acts := true, mounted, [];
    }

    method JoinImpl()
      modifies this
      ensures !guard && mount == old(mount) && acts == old(acts) + if old(guard) then [Join] else []
    {
      if guard {
        guard, acts := false, acts + [Join];
      }
    }

    /** `ok` is what the unmount answers. The thread is joined unless that failed. */
    method UmountAndJoin(ok: bool) returns (r: bool)
      requires guard
      modifies this
      ensures !guard && !mount
      ensures acts == old(acts) + if !old(mount) then [Join] else if ok then [Unmount(true), Join] else [Unmount(false), Detach]
      ensures r <==> !old(mount) || ok
    {
      if mount {
        mount, acts := false, acts + [Unmount(ok)];
        if !ok {
          guard, acts := false, acts + [Detach];
          return false;
        }
      }
      JoinImpl();
      return true;
    }

    /** A drop waits for the session thread only once the connection was seen to end; in every
        other case the thread is left to itself. */
    method Drop(ok: bool, alive: nat -> bool, now: nat -> nat, timeout: nat)
      requires forall i: nat :: now(i + 1) >= now(i) + 10
      modifies this
      ensures !mount
      ensures acts == old(acts)
                      + (if !old(mount) then []
                         else if !ok then [Unmount(false)]
                         else if !SeenToEnd(alive, now, timeout) then [Unmount(true)]
                         else [Unmount(true), SawEnd] + if old(guard) then [Join] else [])
      ensures guard <==> old(guard) && !(old(mount) && ok && SeenToEnd(alive, now, timeout))
    {
      if !mount {
        return;
      }
      mount, acts := false, acts + [Unmount(ok)];
      if !ok {
        return;
      }
      var ended, _ := ConnectionEnded(alive, now, timeout);
      if !ended {
        return;
      }
      acts := acts + [SawEnd];
      JoinImpl();
    }
  }

  // ----- Every interleaving -----

  /** Waiting is for the next request; Dispatching is inside the filesystem. */
  datatype Loop = Waiting | Dispatching | Exited(panicked: bool)

  /** Held is a session nobody runs. A run that stops early leaves its loops to themselves. */
  datatype Runner = Held | Spawning | Joining(next: nat) | Returned(early: bool)

  /** Where the one mount is. A session made from a descriptor has none. */
  datatype Place = Nowhere | InCell | InBackground | InHand | Consumed

  datatype State = State(threads: nat, runner: Runner, loops: seq<Loop>, holders: nat, fs: bool, destroyed: nat,
                         bug: bool, place: Place, calls: nat, skipped: nat)

  function Begin(threads: nat, mounted: bool): State {
    State(threads, Held, [], 1, true, 0, false, if mounted then InCell else Nowhere, 0, 0)
  }

  datatype Event =
    | DropSession | Run | StartLoop | SpawnFails
    | Take(i: nat) | Done(i: nat) | Exit(i: nat) | Panic(i: nat)
    | JoinNext | Finish
    | Spawn | UnmountCell | UnmountBackground | FinishUnmount(alive: bool)

  predicate Enabled(s: State, e: Event) {
    match e
    case DropSession => s.runner == Held
    case Run => s.runner == Held && s.threads > 0
    case StartLoop => s.runner == Spawning && |s.loops| < s.threads
    case SpawnFails => s.runner == Spawning
    case Take(i) => i < |s.loops| && s.loops[i] == Waiting
    case Done(i) => i < |s.loops| && s.loops[i] == Dispatching
    case Exit(i) => i < |s.loops| && s.loops[i] == Waiting
    case Panic(i) => i < |s.loops| && s.loops[i] == Dispatching
    case JoinNext => s.runner.Joining? && s.runner.next < |s.loops| && s.loops[s.runner.next].Exited?
    case Finish => s.runner.Joining? && s.runner.next == |s.loops|
    case Spawn => s.runner == Held
    case UnmountCell => s.place == InCell
    case UnmountBackground => s.place == InBackground
    case FinishUnmount(_) => s.place == InHand
  }

  /** Giving up one share of the filesystem; the last one destroys it. */
  function Release(s: State): State {
    if s.holders <= 1 then Destroy(s.(holders := 0)) else s.(holders := s.holders - 1)
  }

  /** `destroy` takes the filesystem out first, so that it cannot run on it again. */
  function Destroy(s: State): State {
    if s.fs then s.(fs := false, destroyed := s.destroyed + 1) else s
  }

  /** The guard of the mount going away with the session. */
  function DropGuard(s: State): State {
    if s.place == InCell then s.(place := InHand) else s
  }

  function Return(s: State, early: bool): State {
    DropGuard(Release(s.(runner := Returned(early))))
  }

  function Apply(s: State, e: Event): State
    requires Enabled(s, e)
  {
    match e
    case DropSession => Return(s, true)
    case Run => s.(runner := Spawning)
    case StartLoop =>
      var loops := s.loops + [Waiting];
      s.(loops := loops, holders := s.holders + 1, runner := if |loops| == s.threads then Joining(0) else Spawning)
    case SpawnFails => Return(s, true)
    case Take(i) => s.(loops := s.loops[i := Dispatching])
    case Done(i) => s.(loops := s.loops[i := Waiting])
    case Exit(i) => Release(s.(loops := s.loops[i := Exited(false)]))
    case Panic(i) => Release(s.(loops := s.loops[i := Exited(true)]))
    case JoinNext =>
      if s.loops[s.runner.next].panicked then Return(s, true) else s.(runner := Joining(s.runner.next + 1))
    case Finish =>
      if s.holders == 1 then Return(Destroy(s), false) else Return(s.(bug := true), true)
    case Spawn => if s.place == InCell then s.(place := InBackground) else s
    case UnmountCell => s.(place := InHand)
    case UnmountBackground => s.(place := InHand)
    case FinishUnmount(alive) =>
      if alive then s.(place := Consumed, calls := s.calls + 1) else s.(place := Consumed, skipped := s.skipped + 1)
  }

  predicate IsRun(s: State, es: seq<Event>)
    decreases |es|
  {
    es == [] || (Enabled(s, es[0]) && IsRun(Apply(s, es[0]), es[1..]))
  }

  function After(s: State, es: seq<Event>): State
    requires IsRun(s, es)
    decreases |es|
  {
    if es == [] then s else After(Apply(s, es[0]), es[1..])
  }

  function Live(loops: seq<Loop>): nat {
    if loops == [] then 0 else (if loops[0].Exited? then 0 else 1) + Live(loops[1..])
  }

  lemma {:induction false} LiveUpdate(loops: seq<Loop>, i: nat, l: Loop)
    requires i < |loops|
    ensures Live(loops[i := l]) + (if loops[i].Exited? then 0 else 1) == Live(loops) + if l.Exited? then 0 else 1
  {
    if i == 0 {
      assert loops[i := l][1..] == loops[1..];
    } else {
      assert loops[i := l][1..] == loops[1..][i - 1 := l] && loops[i := l][0] == loops[0];
      LiveUpdate(loops[1..], i - 1, l);
    }
  }

  lemma {:induction false} LiveAppend(loops: seq<Loop>)
    ensures Live(loops + [Waiting]) == Live(loops) + 1
  {
    if loops != [] {
      assert (loops + [Waiting])[1..] == loops[1..] + [Waiting];
      LiveAppend(loops[1..]);
    } else {
      assert [Waiting][1..] == [];
    }
  }

  lemma {:induction false} LiveIff(loops: seq<Loop>)
    ensures Live(loops) == 0 <==> forall i | 0 <= i < |loops| :: loops[i].Exited?
  {
    if loops != [] {
      LiveIff(loops[1..]);
      assert forall i | 0 < i < |loops| :: loops[i] == loops[1..][i - 1];
      assert forall i | 0 <= i < |loops| - 1 :: loops[1..][i] == loops[i + 1];
    }
  }

  function Share(r: Runner): nat { if r.Returned? then 0 else 1 }

  /** The count of shares is that of the running loops and the runner; the filesystem is there
      while anybody has a share; and the mount is consumed once. */
  predicate Valid(s: State) {
    && s.holders == Share(s.runner) + Live(s.loops)
    && (s.fs <==> s.holders > 0) && s.destroyed == (if s.fs then 0 else 1) && !s.bug
    && (s.runner == Held ==> s.loops == []) && |s.loops| <= s.threads
    && (s.runner.Joining? ==> |s.loops| == s.threads && s.runner.next <= s.threads
                              && forall i | 0 <= i < s.runner.next :: s.loops[i] == Exited(false))
    && (s.runner == Returned(false) ==> forall i | 0 <= i < |s.loops| :: s.loops[i].Exited?)
    && (s.runner.Returned? ==> s.place != InCell)
    && s.calls + s.skipped == (if s.place == Consumed then 1 else 0)
  }

  predicate OfALoop(e: Event) { e.Take? || e.Done? || e.Exit? || e.Panic? }

  lemma LoopKeepsValid(s: State, e: Event)
    requires Valid(s) && Enabled(s, e) && OfALoop(e)
    ensures Valid(Apply(s, e))
  {
    hide Live;
    match e
    case Take(i) => LiveUpdate(s.loops, i, Dispatching);
    case Done(i) => LiveUpdate(s.loops, i, Waiting);
    case Exit(i) => LiveUpdate(s.loops, i, Exited(false));
    case Panic(i) => LiveUpdate(s.loops, i, Exited(true));
  }

  lemma StepKeepsValid(s: State, e: Event)
    requires Valid(s) && Enabled(s, e)
    ensures Valid(Apply(s, e))
  {
    hide Live;
    if OfALoop(e) {
      LoopKeepsValid(s, e);
    } else if e == StartLoop {
      LiveAppend(s.loops);
    } else if e == Finish {
      LiveIff(s.loops);
    }
  }

  lemma {:induction false} RunsAreValid(s: State, es: seq<Event>)
    requires Valid(s) && IsRun(s, es)
    ensures Valid(After(s, es))
    decreases |es|
  {
    hide Valid, Enabled, Apply;
    if es != [] {
      StepKeepsValid(s, es[0]);
      RunsAreValid(Apply(s, es[0]), es[1..]);
    }
  }

  /** Over any interleaving: `destroy` runs at most once and exactly when nobody can dispatch
      any more, the filesystem is there whenever a loop is inside it, the check for a second
      holder never fires, and a mount is unmounted or found dead at most once. */
  lemma TeardownIsSafe(threads: nat, mounted: bool, es: seq<Event>)
    requires IsRun(Begin(threads, mounted), es)
    ensures var s := After(Begin(threads, mounted), es);
            && !s.bug && s.destroyed <= 1 && s.calls + s.skipped <= 1
            && (forall i | 0 <= i < |s.loops| :: s.loops[i] == Dispatching ==> s.fs)
            && (s.destroyed == 1 <==> s.runner.Returned? && forall i | 0 <= i < |s.loops| :: s.loops[i].Exited?)
            && (s.place == Consumed <==> s.calls + s.skipped == 1)
  {
    var s := After(Begin(threads, mounted), es);
    RunsAreValid(Begin(threads, mounted), es);
    LiveIff(s.loops);
  }

  /** Once destroyed, no loop goes back into the filesystem, however the run continues. */
  lemma {:induction false} DestroyedForGood(s: State, es: seq<Event>)
    requires Valid(s) && s.destroyed == 1 && IsRun(s, es)
    ensures After(s, es).destroyed == 1
    ensures forall k | 0 <= k < |es| :: !es[k].Take? && !es[k].StartLoop?
    decreases |es|
  {
    hide Valid;
    if es != [] {
      StepKeepsValid(s, es[0]);
      NothingLeftToDo(s, es[0]);
      DestroyedForGood(Apply(s, es[0]), es[1..]);
      assert forall k | 0 < k < |es| :: es[k] == es[1..][k - 1];
    }
  }

  lemma NothingLeftToDo(s: State, e: Event)
    requires Valid(s) && s.destroyed == 1 && Enabled(s, e)
    ensures !e.Take? && !e.StartLoop? && Apply(s, e).destroyed == 1
  {
    LiveIff(s.loops);
  }

  function Times(es: seq<Event>, e: Event): nat {
    if es == [] then 0 else (if es[0] == e then 1 else 0) + Times(es[1..], e)
  }

  lemma CallsOfOne(s: State, e: Event)
    requires Enabled(s, e)
    ensures Apply(s, e).calls == s.calls + if e == FinishUnmount(true) then 1 else 0
    ensures Apply(s, e).skipped == s.skipped + if e == FinishUnmount(false) then 1 else 0
  {
  }

  /** The platform's unmount is called when a mount comes up on a live connection, and left
      out when it comes up on a dead one. */
  lemma {:induction false} CallsAreLive(s: State, es: seq<Event>)
    requires IsRun(s, es)
    ensures After(s, es).calls == s.calls + Times(es, FinishUnmount(true))
    ensures After(s, es).skipped == s.skipped + Times(es, FinishUnmount(false))
    decreases |es|
  {
    hide Enabled, Apply;
    if es != [] {
      CallsOfOne(s, es[0]);
      CallsAreLive(Apply(s, es[0]), es[1..]);
    }
  }

  /** Is the unmount over with once everybody let go of the mount? It was mounted, and then
      it came up once, and the platform's unmount ran exactly if the connection was still
      there at that moment. */
  lemma UnmountedOnce(threads: nat, es: seq<Event>)
    requires IsRun(Begin(threads, true), es)
    requires var s := After(Begin(threads, true), es);
             s.runner.Returned? && s.place != InBackground && s.place != InHand
    ensures var s := After(Begin(threads, true), es);
            && s.calls + s.skipped == 1
            && s.calls == Times(es, FinishUnmount(true)) && s.skipped == Times(es, FinishUnmount(false))
  {
    RunsAreValid(Begin(threads, true), es);
    StaysMounted(Begin(threads, true), es);
    CallsAreLive(Begin(threads, true), es);
  }

  lemma {:induction false} StaysMounted(s: State, es: seq<Event>)
    requires s.place != Nowhere && IsRun(s, es)
    ensures After(s, es).place != Nowhere
    decreases |es|
  {
    if es != [] {
      StaysMounted(Apply(s, es[0]), es[1..]);
    }
  }

  /** A run that came to its proper end has destroyed the filesystem by the time its thread
      can be joined. */
  lemma DestroyedWhenEnded(threads: nat, mounted: bool, es: seq<Event>)
    requires IsRun(Begin(threads, mounted), es) && After(Begin(threads, mounted), es).runner == Returned(false)
    ensures After(Begin(threads, mounted), es).destroyed == 1
  {
    TeardownIsSafe(threads, mounted, es);
    RunsAreValid(Begin(threads, mounted), es);
  }

  /** With one event loop, a runner that returned has none left behind. */
  predicate OneLoop(s: State) {
    && s.threads <= 1
    && (s.runner == Spawning ==> s.loops == [])
    && (s.runner.Returned? ==> forall i | 0 <= i < |s.loops| :: s.loops[i].Exited?)
  }

  lemma StepKeepsOneLoop(s: State, e: Event)
    requires Valid(s) && OneLoop(s) && Enabled(s, e)
    ensures OneLoop(Apply(s, e))
  {
    hide Live;
  }

  lemma {:induction false} RunKeepsOneLoop(s: State, es: seq<Event>)
    requires Valid(s) && OneLoop(s) && IsRun(s, es)
    ensures OneLoop(After(s, es))
    decreases |es|
  {
    hide Valid, OneLoop, Enabled, Apply;
    if es != [] {
      StepKeepsValid(s, es[0]);
      StepKeepsOneLoop(s, es[0]);
      RunKeepsOneLoop(Apply(s, es[0]), es[1..]);
    }
  }

  /** Over some run of a session with so many event loops, joining its thread finds the
      filesystem not destroyed. */
  ghost predicate MayJoinEarly(threads: nat, mounted: bool) {
    exists es | IsRun(Begin(threads, mounted), es) ::
      After(Begin(threads, mounted), es).runner.Returned? && After(Begin(threads, mounted), es).destroyed == 0
  }

  /** `destroy` has run whenever the session thread can be joined — whatever panics, and
      whether or not threads can be started — if and only if one event loop is asked for. */
  lemma DestroyedWhenJoinedIff(threads: nat, mounted: bool)
    ensures !MayJoinEarly(threads, mounted) <==> threads <= 1
  {
    if threads <= 1 {
      forall es | IsRun(Begin(threads, mounted), es) && After(Begin(threads, mounted), es).runner.Returned?
        ensures After(Begin(threads, mounted), es).destroyed == 1
      {
        RunKeepsOneLoop(Begin(threads, mounted), es);
        TeardownIsSafe(threads, mounted, es);
      }
    } else {
      var es := JoinedButNotDestroyed(threads, mounted);
    }
  }

  /** With more, a panic in the first loop ends the run while the others are still waiting for
      requests. */
  lemma JoinedButNotDestroyed(threads: nat, mounted: bool) returns (es: seq<Event>)
    requires threads >= 2
    ensures IsRun(Begin(threads, mounted), es)
    ensures var s := After(Begin(threads, mounted), es);
            s.runner == Returned(true) && s.destroyed == 0
            && |s.loops| == threads && forall i | 0 < i < threads :: s.loops[i] == Waiting
  {
    var s := Begin(threads, mounted);
    var next := Apply(s, Run);
    StepKeepsValid(s, Run);
    es := CrashOnceStarted(next);
    es := OnePlus(s, Run, next, es);
  }

  /** From a run still starting its loops: start the rest, and let the first one panic. */
  lemma {:induction false} CrashOnceStarted(s: State) returns (es: seq<Event>)
    requires Valid(s) && s.runner == Spawning && |s.loops| < s.threads && s.threads >= 2
    requires forall i | 0 <= i < |s.loops| :: s.loops[i] == Waiting
    ensures IsRun(s, es)
    ensures var t := After(s, es);
            && t.runner == Returned(true) && t.destroyed == 0 && t.threads == |t.loops| == s.threads
            && forall i | 0 < i < s.threads :: t.loops[i] == Waiting
    decreases s.threads - |s.loops|
  {
    hide Valid, IsRun, After;
    var next := Apply(s, StartLoop);
    StepKeepsValid(s, StartLoop);
    if |next.loops| < s.threads {
      es := CrashOnceStarted(next);
    } else {
      es := CrashFirst(next);
    }
    es := OnePlus(s, StartLoop, next, es);
  }

  lemma CrashFirst(s: State) returns (es: seq<Event>)
    requires Valid(s) && s.runner == Joining(0) && |s.loops| == s.threads >= 2
    requires forall i | 0 <= i < |s.loops| :: s.loops[i] == Waiting
    ensures IsRun(s, es)
    ensures var t := After(s, es);
            && t.runner == Returned(true) && t.destroyed == 0 && t.threads == |t.loops| == s.threads
            && forall i | 0 < i < s.threads :: t.loops[i] == Waiting
  {
    hide Valid, IsRun, After;
    var taken := Apply(s, Take(0));
    StepKeepsValid(s, Take(0));
    var crashed := Apply(taken, Panic(0));
    StepKeepsValid(taken, Panic(0));
    var joined := Apply(crashed, JoinNext);
    StepKeepsValid(crashed, JoinNext);
    NotDestroyed(joined);
    NoMore(joined);
    es := OnePlus(crashed, JoinNext, joined, []);
    es := OnePlus(taken, Panic(0), crashed, es);
    es := OnePlus(s, Take(0), taken, es);
  }

  lemma NotDestroyed(s: State)
    requires Valid(s) && |s.loops| >= 2 && s.loops[1] == Waiting
    ensures s.destroyed == 0
  {
    LiveIff(s.loops);
  }

  lemma NoMore(s: State)
    ensures IsRun(s, []) && After(s, []) == s
  {
  }

  lemma OnePlus(s: State, e: Event, next: State, es: seq<Event>) returns (more: seq<Event>)
    requires Enabled(s, e) && Apply(s, e) == next && IsRun(next, es)
    ensures IsRun(s, more) && After(s, more) == After(next, es)
  {
    more := [e] + es;
    assert more[1..] == es;
  }

  // ----- A whole life -----

  /** Every number of loops has a run in which all goes well: each exits and is joined, the
      filesystem is destroyed, and the mount, if there was one, is unmounted. */
  lemma WholeLife(threads: nat, mounted: bool) returns (es: seq<Event>)
    requires threads > 0
    ensures IsRun(Begin(threads, mounted), es)
    ensures var s := After(Begin(threads, mounted), es);
            && s.runner == Returned(false) && s.destroyed == 1 && |s.loops| == threads
            && (forall i | 0 <= i < threads :: s.loops[i] == Exited(false))
            && s.calls == (if mounted then 1 else 0) && s.place == if mounted then Consumed else Nowhere
  {
    var s := Begin(threads, mounted);
    var next := Apply(s, Run);
    StepKeepsValid(s, Run);
    es := LiveOnceRun(next);
    es := OnePlus(s, Run, next, es);
  }

  /** A run that is still starting its loops, or joining those it has not joined yet. */
  predicate GoingWell(s: State) {
    && Valid(s) && s.threads > 0 && (s.place == InCell || s.place == Nowhere) && s.calls == s.skipped == 0
    && (s.runner == Spawning || s.runner.Joining?) && (s.runner == Spawning ==> |s.loops| < s.threads)
    && (s.runner.Joining? ==> s.runner.next <= |s.loops| == s.threads)
    && forall i | 0 <= i < |s.loops| ::
         s.loops[i] == if s.runner.Joining? && i < s.runner.next then Exited(false) else Waiting
  }

  predicate EndedWell(s: State, t: State) {
    && t.runner == Returned(false) && t.destroyed == 1 && |t.loops| == s.threads
    && (forall i | 0 <= i < s.threads :: t.loops[i] == Exited(false))
    && t.calls == (if s.place == InCell then 1 else 0) && t.place == if s.place == InCell then Consumed else Nowhere
  }

  lemma {:induction false} LiveOnceRun(s: State) returns (es: seq<Event>)
    requires GoingWell(s)
    ensures IsRun(s, es) && EndedWell(s, After(s, es))
    decreases s.threads - |s.loops|, if s.runner.Joining? then s.threads - s.runner.next else 0
  {
    hide Valid, IsRun, After;
    if s.runner == Spawning {
      var next := Apply(s, StartLoop);
      StepKeepsValid(s, StartLoop);
      es := LiveOnceRun(next);
      es := OnePlus(s, StartLoop, next, es);
    } else if s.runner.next < |s.loops| {
      var out := Apply(s, Exit(s.runner.next));
      StepKeepsValid(s, Exit(s.runner.next));
      var next := Apply(out, JoinNext);
      StepKeepsValid(out, JoinNext);
      es := LiveOnceRun(next);
      es := OnePlus(out, JoinNext, next, es);
      es := OnePlus(s, Exit(s.runner.next), out, es);
    } else {
      es := EndWell(s);
    }
  }

  lemma EndWell(s: State) returns (es: seq<Event>)
    requires GoingWell(s) && s.runner == Joining(|s.loops|)
    ensures IsRun(s, es) && EndedWell(s, After(s, es))
  {
    var done := Apply(s, Finish);
    StepKeepsValid(s, Finish);
    LiveIff(s.loops);
    hide IsRun, After, Live;
    NoMore(done);
    es := [];
    if done.place == InHand {
      var gone := Apply(done, FinishUnmount(true));
      NoMore(gone);
      es := OnePlus(done, FinishUnmount(true), gone, []);
    }
    es := OnePlus(s, Finish, done, es);
  }
}
