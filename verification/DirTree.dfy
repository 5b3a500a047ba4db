/** Directories seen only through their `..` entries: a map from each directory to its
    parent. The lemmas say what moving directories about does to the paths upwards. */
module DirTree {
  type Ino = nat

  const ROOT: Ino := 1

  /** The directory reached by following `..` from `d` for `n` steps, stopping where there is none. */
  function Up(up: map<Ino, Ino>, d: Ino, n: nat): Ino
    decreases n
  {
    if n == 0 || d !in up then d else Up(up, up[d], n - 1)
  }

  ghost predicate ReachesRoot(up: map<Ino, Ino>, d: Ino) {
    exists n: nat :: Up(up, d, n) == ROOT
  }

  /** Whether `top` is `d` itself or one of the directories above it. */
  ghost predicate Inside(up: map<Ino, Ino>, d: Ino, top: Ino) {
    exists n: nat :: Up(up, d, n) == top
  }

  lemma {:induction false} UpCompose(up: map<Ino, Ino>, d: Ino, m: nat, n: nat)
    ensures Up(up, Up(up, d, m), n) == Up(up, d, m + n)
    decreases m
  {
    if m == 0 {
    } else if d !in up {
      assert forall k: nat :: Up(up, d, k) == d;
    } else {
      UpCompose(up, up[d], m - 1, n);
    }
  }

  /** A path that meets none of the changed directories is still the same path. */
  lemma {:induction false} SamePath(up: map<Ino, Ino>, up': map<Ino, Ino>, changed: set<Ino>, d: Ino, n: nat)
    requires forall k | k !in changed :: (k in up <==> k in up') && (k in up ==> up[k] == up'[k])
    requires forall x | x in changed :: !Inside(up, d, x)
    ensures Up(up', d, n) == Up(up, d, n)
    decreases n
  {
    assert Up(up, d, 0) == d;
    assert d !in changed;
    if n != 0 && d in up {
      forall x | x in changed
        ensures !Inside(up, up[d], x)
      {
        if Inside(up, up[d], x) {
          var k: nat :| Up(up, up[d], k) == x;
          assert Up(up, d, k + 1) == x;
        }
      }
      SamePath(up, up', changed, up[d], n - 1);
    }
  }

  /** Re-hanging every directory in `moved` below one that reached the root without passing
      through any of them keeps every path to the root. */
  lemma {:induction false} Rehang(up: map<Ino, Ino>, up': map<Ino, Ino>, moved: set<Ino>, d: Ino, n: nat)
    requires ROOT !in up && ROOT !in up'
    requires forall k | k !in moved :: (k in up <==> k in up') && (k in up ==> up[k] == up'[k])
    requires forall x | x in moved :: x in up' && ReachesRoot(up, up'[x])
    requires forall x, y | x in moved && y in moved :: !Inside(up, up'[x], y)
    requires Up(up, d, n) == ROOT
    ensures ReachesRoot(up', d)
    decreases n
  {
    if d == ROOT {
      assert Up(up', d, 0) == ROOT;
    } else if d in moved {
      var k: nat :| Up(up, up'[d], k) == ROOT;
      SamePath(up, up', moved, up'[d], k);
      assert Up(up', d, k + 1) == ROOT;
    } else {
      Rehang(up, up', moved, up[d], n - 1);
      var k: nat :| Up(up', up'[d], k) == ROOT;
      assert Up(up', d, k + 1) == ROOT;
    }
  }

  /** Taking away a directory that no path from `d` meets keeps the path. */
  lemma Prune(up: map<Ino, Ino>, gone: Ino, d: Ino)
    requires ReachesRoot(up, d) && !Inside(up, d, gone)
    ensures ReachesRoot(up - {gone}, d)
  {
    var n: nat :| Up(up, d, n) == ROOT;
    SamePath(up, up - {gone}, {gone}, d, n);
    assert Up(up - {gone}, d, n) == ROOT;
  }

  /** There is no cycle: a directory that reaches the root is not inside its own parent. */
  lemma {:induction false} NoCycle(up: map<Ino, Ino>, d: Ino, n: nat)
    requires ROOT !in up && Up(up, d, n) == ROOT && d in up
    ensures !Inside(up, up[d], d)
    decreases n
  {
    if Inside(up, up[d], d) {
      var k: nat :| Up(up, up[d], k) == d;
      assert Up(up, d, k + 1) == d;
      StuckInCycle(up, d, k + 1, n);
    }
  }

  /** If following `..` for `period` steps comes back to `d`, then every `n` steps can be
      shortened below `period` — so the root, which has no `..`, is never among them. */
  lemma {:induction false} StuckInCycle(up: map<Ino, Ino>, d: Ino, period: nat, n: nat)
    requires period > 0 && Up(up, d, period) == d && d in up && ROOT !in up
    ensures Up(up, d, n) != ROOT
    decreases n
  {
    if n >= period {
      UpCompose(up, d, period, n - period);
      StuckInCycle(up, d, period, n - period);
    } else if Up(up, d, n) == ROOT {
      UpCompose(up, d, n, period - n);
    }
  }
}
