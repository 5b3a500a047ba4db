/** Inode flags in their two encodings, each a set of bit numbers. */
module InodeFlags {
  import opened Options

  // FS_*_FL, as chattr sets them.
  const SECRM: nat := 0
  const UNRM: nat := 1
  const SYNC: nat := 3
  const IMMUTABLE: nat := 4
  const APPEND: nat := 5
  const NODUMP: nat := 6
  const NOATIME: nat := 7
  const DIRSYNC: nat := 16
  const TOPDIR: nat := 17

  const SUPPORTED: set<nat> := {SECRM, UNRM, SYNC, IMMUTABLE, APPEND, NODUMP, NOATIME, DIRSYNC, TOPDIR}

  // FS_XFLAG_*, as fsxattr has them.
  const X_IMMUTABLE: nat := 3
  const X_APPEND: nat := 4
  const X_SYNC: nat := 5
  const X_NOATIME: nat := 6
  const X_NODUMP: nat := 7

  const PAIRS: seq<(nat, nat)> :=
    [(IMMUTABLE, X_IMMUTABLE), (APPEND, X_APPEND), (SYNC, X_SYNC), (NOATIME, X_NOATIME), (NODUMP, X_NODUMP)]

  function XflagsFrom(flags: set<nat>, pairs: seq<(nat, nat)>): set<nat> {
    if pairs == [] then {} else (if pairs[0].0 in flags then {pairs[0].1} else {}) + XflagsFrom(flags, pairs[1..])
  }

  function Xflags(flags: set<nat>): set<nat> { XflagsFrom(flags, PAIRS) }

  function FlagsFrom(xflags: set<nat>, pairs: seq<(nat, nat)>): set<nat> {
    if pairs == [] then {} else (if pairs[0].1 in xflags then {pairs[0].0} else {}) + FlagsFrom(xflags, pairs[1..])
  }

  const KNOWN: set<nat> := {X_IMMUTABLE, X_APPEND, X_SYNC, X_NOATIME, X_NODUMP}

  /** None if a flag without a counterpart was asked for. */
  function Flags(xflags: set<nat>): Option<set<nat>> {
    if xflags <= KNOWN then Some(FlagsFrom(xflags, PAIRS)) else None
  }

  lemma {:induction false} InFlags(xflags: set<nat>, pairs: seq<(nat, nat)>, f: nat)
    ensures f in FlagsFrom(xflags, pairs) <==> exists k :: 0 <= k < |pairs| && pairs[k].0 == f && pairs[k].1 in xflags
  {
    if pairs != [] {
      InFlags(xflags, pairs[1..], f);
      if k :| 0 <= k < |pairs| && pairs[k].0 == f && pairs[k].1 in xflags {
        assert k > 0 ==> pairs[1..][k - 1] == pairs[k];
      }
      if k :| 0 <= k < |pairs[1..]| && pairs[1..][k].0 == f && pairs[1..][k].1 in xflags {
        assert pairs[k + 1] == pairs[1..][k];
      }
    }
  }

  lemma {:induction false} InXflags(flags: set<nat>, pairs: seq<(nat, nat)>, x: nat)
    ensures x in XflagsFrom(flags, pairs) <==> exists k :: 0 <= k < |pairs| && pairs[k].1 == x && pairs[k].0 in flags
  {
    if pairs != [] {
      InXflags(flags, pairs[1..], x);
      if k :| 0 <= k < |pairs| && pairs[k].1 == x && pairs[k].0 in flags {
        assert k > 0 ==> pairs[1..][k - 1] == pairs[k];
      }
      if k :| 0 <= k < |pairs[1..]| && pairs[1..][k].1 == x && pairs[1..][k].0 in flags {
        assert pairs[k + 1] == pairs[1..][k];
      }
    }
  }

  /** What is set through one encoding reads back through it, and only supported flags are
      set. */
  lemma XflagsBack(xflags: set<nat>)
    requires xflags <= KNOWN
    ensures Xflags(Flags(xflags).value) == xflags && Flags(xflags).value <= SUPPORTED
  {
    var flags := Flags(xflags).value;
    forall f
      ensures f in flags <==> exists k :: 0 <= k < |PAIRS| && PAIRS[k].0 == f && PAIRS[k].1 in xflags
    {
      InFlags(xflags, PAIRS, f);
    }
    forall x
      ensures x in Xflags(flags) <==> x in xflags
    {
      InXflags(flags, PAIRS, x);
      if x in xflags {
        assert PAIRS[0].1 == x || PAIRS[1].1 == x || PAIRS[2].1 == x || PAIRS[3].1 == x || PAIRS[4].1 == x;
      }
    }
  }
}
