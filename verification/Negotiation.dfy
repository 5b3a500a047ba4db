/** What kernel and filesystem agree on before the first request, and what may be configured. */
module Negotiation {
  import opened FileContents
  import opened Options
  import RequestCodec
  import Dispatch
  import Framing

  /** A setter's answer: the previous value, or one that would have been accepted. */
  datatype Setting<T> = Ok(previous: T) | Err(hint: T)

  datatype Version = Version(major: nat, minor: nat)

  const KERNEL_VERSION: Version := Version(7, 44)
  const INC_EPOCH_VERSION: Version := Version(7, 44)
  const OLDEST_VERSION: Version := Version(7, 6)

  predicate Before(a: Version, b: Version) {
    a.major < b.major || (a.major == b.major && a.minor < b.minor)
  }

  // Capabilities are named by their bits.
  const ASYNC_READ: nat := 0
  const BIG_WRITES: nat := 5
  const POSIX_ACL: nat := 20
  const MAX_PAGES: nat := 22
  const MAP_ALIGNMENT: nat := 26
  const SUBMOUNTS: nat := 27
  const SETXATTR_EXT: nat := 29
  const INIT_EXT: nat := 30
  const SECURITY_CTX: nat := 32
  const HAS_INODE_DAX: nat := 33
  const CREATE_SUPP_GROUP: nat := 34
  const PASSTHROUGH: nat := 37
  const HAS_RESEND: nat := 39
  const ALLOW_IDMAP: nat := 40
  const OVER_IO_URING: nat := 41
  const REQUEST_TIMEOUT: nat := 42

  const UNSUPPORTED: set<nat> :=
    {SUBMOUNTS, MAP_ALIGNMENT, SECURITY_CTX, CREATE_SUPP_GROUP, HAS_INODE_DAX, OVER_IO_URING, HAS_RESEND, REQUEST_TIMEOUT}

  const MIN_WRITE_SIZE: nat := 4096
  const MAX_WRITE_SIZE: nat := 0x100_0000
  const NANOS: nat := 1_000_000_000

  function DefaultFlags(offered: set<nat>): set<nat> {
    {ASYNC_READ, BIG_WRITES} + if MAX_PAGES in offered then {MAX_PAGES} else {}
  }

  // ----- Which capabilities can be asked for -----

  /** What kernel and mount decide before the filesystem is asked. */
  datatype Terms = Terms(offered: set<nat>, readahead: nat, defaultPermissions: bool, acl: Dispatch.Acl)

  /** Whether the caller's ids may be withheld: nobody is turned away on account of them, and
      the kernel checks permissions itself, by option or on account of ACLs it offers. */
  predicate IdmapAvailable(t: Terms, requested: set<nat>) {
    (t.defaultPermissions || POSIX_ACL in requested * t.offered) && t.acl == Dispatch.All
  }

  function Refused(t: Terms, requested: set<nat>, caps: set<nat>): set<nat> {
    set c | c in caps
            && (c !in t.offered || c in UNSUPPORTED || (c == ALLOW_IDMAP && !IdmapAvailable(t, requested + caps)))
  }

  /** All or nothing. */
  function AskedOne(t: Terms, requested: set<nat>, call: Call): set<nat> {
    if call.Add? && Refused(t, requested, call.caps) == {} then requested + call.caps else requested
  }

  // ----- Time granularity -----

  datatype Span = Span(secs: nat, nanos: nat)

  /** Seconds and nanoseconds below one second. */
  type Duration = d: Span | d.nanos < NANOS witness Span(0, 0)

  function Total(d: Duration): nat { d.secs * NANOS + d.nanos }

  function Pow10(k: nat): (p: nat)
    ensures p > 0
  {
    if k == 0 then 1 else 10 * Pow10(k - 1)
  }

  /** The powers of ten from a nanosecond to a second. */
  predicate IsGranularity(n: nat) { exists k | 0 <= k <= 9 :: n == Pow10(k) }

  lemma {:induction false} Pow10Grows(j: nat, k: nat)
    requires j <= k
    ensures Pow10(j) <= Pow10(k) && (j < k ==> 10 * Pow10(j) <= Pow10(k))
    decreases k
  {
    if j < k {
      Pow10Grows(j, k - 1);
    }
  }

  lemma ASecond()
    ensures Pow10(9) == NANOS
  {
  }

  /** Between two neighbouring powers of ten there is no granularity. */
  lemma NoneBetween(n: nat, k: nat)
    requires Pow10(k) < n < 10 * Pow10(k)
    ensures !IsGranularity(n)
    ensures forall g: nat | IsGranularity(g) && g <= n :: g <= Pow10(k)
  {
    forall j: nat ensures Pow10(j) <= n ==> Pow10(j) <= Pow10(k) {
      if j > k {
        Pow10Grows(k, j);
      } else {
        Pow10Grows(j, k);
      }
    }
  }

  /** What the setter hands back for a refused value: the largest granularity not above it, or
      a nanosecond when there is none. */
  ghost predicate IsHint(v: nat, hint: nat) {
    && IsGranularity(hint)
    && if v == 0 then hint == 1
       else hint < v && forall g: nat | IsGranularity(g) && g <= v :: g <= hint
  }

  function Distance(a: nat, b: nat): nat { if a <= b then b - a else a - b }

  /** No granularity is nearer. */
  ghost predicate IsNearest(v: nat, hint: nat) {
    forall g: nat | IsGranularity(g) :: Distance(v, hint) <= Distance(v, g)
  }

  /** The documentation promises the nearest value that would be accepted. It is handed back
      exactly when the refused value is zero or above a second, or lies no further from the
      power of ten below it than from the next one, ten times as large. */
  lemma HintIsNearestIff(v: nat, hint: nat)
    requires !IsGranularity(v) && IsHint(v, hint)
    ensures IsNearest(v, hint) <==> v == 0 || v > NANOS || 2 * v <= 11 * hint
  {
    ASecond();
    if 0 < v < NANOS {
      var k :| 0 <= k <= 9 && hint == Pow10(k);
      Pow10Grows(k, 9);
      assert k < 9 && Pow10(k + 1) == 10 * hint;
      assert IsGranularity(10 * hint);
      forall g: nat | IsGranularity(g)
        ensures g <= hint || g >= 10 * hint
      {
        var j :| 0 <= j <= 9 && g == Pow10(j);
        if j > k {
          Pow10Grows(k, j);
        } else {
          Pow10Grows(j, k);
        }
      }
    } else {
      forall g: nat | IsGranularity(g)
        ensures 1 <= g <= NANOS
      {
        var j :| 0 <= j <= 9 && g == Pow10(j);
        Pow10Grows(j, 9);
      }
      assert IsGranularity(NANOS) && (v == NANOS ==> IsGranularity(v));
    }
  }

  /** Nine nanoseconds are answered with one, although ten would be accepted. */
  lemma NineNanoseconds()
    ensures !IsGranularity(9) && IsHint(9, 1) && !IsNearest(9, 1) && IsGranularity(10)
  {
    assert Pow10(0) == 1 && Pow10(1) == 10;
    NoneBetween(9, 0);
    HintIsNearestIff(9, 1);
  }

  // ----- The configuration as a value -----

  datatype Call =
    | Add(caps: set<nat>)
    | StackDepth(v: nat) | Granularity(d: Duration) | Write(v: nat) | Readahead(v: nat)
    | Background(v: nat) | Congestion(v: nat)

  datatype Config = Config(requested: set<nat>, maxReadahead: nat, maxBackground: nat, congestion: Option<nat>,
                           maxWrite: nat, timeGran: Duration, maxStackDepth: nat)

  function Defaults(t: Terms): Config {
    Config(DefaultFlags(t.offered), t.readahead, 16, None, MAX_WRITE_SIZE, Span(0, 1), 0)
  }

  predicate Accepts(t: Terms, requested: set<nat>, call: Call) {
    match call
    case Add(caps) => Refused(t, requested, caps) == {}
    case StackDepth(v) => v <= 2
    case Granularity(d) => IsGranularity(Total(d))
    case Write(v) => MIN_WRITE_SIZE <= v <= MAX_WRITE_SIZE
    case Readahead(v) => 1 <= v <= t.readahead
    case Background(v) => v > 0
    case Congestion(v) => v > 0
  }

  /** One call on the configuration; a refused one changes nothing. */
  function Called(t: Terms, c: Config, call: Call): Config {
    if !Accepts(t, c.requested, call) then c
    else
      match call
      case Add(caps) => c.(requested := c.requested + caps)
      case StackDepth(v) => c.(maxStackDepth := v)
      case Granularity(d) => c.(timeGran := d)
      case Write(v) => c.(maxWrite := v)
      case Readahead(v) => c.(maxReadahead := v)
      case Background(v) => c.(maxBackground := v)
      case Congestion(v) => c.(congestion := Some(v))
  }

  function Settled(t: Terms, calls: seq<Call>): Config {
    if calls == [] then Defaults(t) else Called(t, Settled(t, calls[..|calls| - 1]), calls[|calls| - 1])
  }

  /** What kernel and session then go by. */
  function Agreed(t: Terms, calls: seq<Call>): set<nat> { t.offered * Settled(t, calls).requested }

  /** Whatever the filesystem asks for and in whatever order: nothing without an implementation
      is agreed on, the caller's ids are withheld only where that is safe, and every setting is
      one the kernel can take. */
  lemma {:induction false} SettledIsSafe(t: Terms, calls: seq<Call>)
    ensures var agreed := Agreed(t, calls);
            && agreed * UNSUPPORTED == {}
            && (ALLOW_IDMAP in agreed ==> t.acl == Dispatch.All && (t.defaultPermissions || POSIX_ACL in agreed))
    ensures var c := Settled(t, calls);
            && c.requested <= t.offered + DefaultFlags(t.offered)
            && MIN_WRITE_SIZE <= c.maxWrite <= MAX_WRITE_SIZE && c.maxReadahead <= t.readahead
            && 0 < c.maxBackground && c.maxStackDepth <= 2 && IsGranularity(Total(c.timeGran))
  {
    if calls == [] {
      assert Total(Span(0, 1)) == Pow10(0);
    } else {
      var before, call := Settled(t, calls[..|calls| - 1]), calls[|calls| - 1];
      SettledIsSafe(t, calls[..|calls| - 1]);
      if call.Add? && Refused(t, before.requested, call.caps) == {} {
        assert forall c | c in call.caps :: c !in Refused(t, before.requested, call.caps);
      }
    }
  }

  /** The congestion threshold in force is never above the number of background requests. */
  function Threshold(c: Config): (r: nat)
    ensures r <= c.maxBackground
  {
    match c.congestion
    case None => c.maxBackground * 3 / 4
    case Some(value) => Min(value, c.maxBackground)
  }

  // ----- The configuration the filesystem may change during init -----

  class KernelConfig {
    const capabilities: set<nat>
    const maxMaxReadahead: nat
    const kernelAbi: Version
    const defaultPermissions: bool
    const acl: Dispatch.Acl
    var requested: set<nat>
    var maxReadahead: nat
    var maxBackground: nat
    var congestion: Option<nat>
    var maxWrite: nat
    var timeGran: Duration
    var maxStackDepth: nat

    /** What every call leaves true, whatever the filesystem asks for. */
    ghost predicate Valid()
      reads this
    {
      && DefaultFlags(capabilities) <= requested <= capabilities + DefaultFlags(capabilities)
      && requested * UNSUPPORTED == {}
      && (ALLOW_IDMAP in requested ==> IdmapAvailable(Offer(), requested))
      && MIN_WRITE_SIZE <= maxWrite <= MAX_WRITE_SIZE
      && maxReadahead <= maxMaxReadahead && (maxMaxReadahead > 0 ==> maxReadahead > 0)
      && 0 < maxBackground && (congestion.Some? ==> congestion.value > 0)
      && IsGranularity(Total(timeGran)) && maxStackDepth <= 2
    }

    constructor (capabilities: set<nat>, maxReadahead: nat, kernelAbi: Version, defaultPermissions: bool, acl: Dispatch.Acl)
      ensures Valid() && Value() == Defaults(Offer())
      ensures this.capabilities == capabilities && this.maxMaxReadahead == maxReadahead && this.kernelAbi == kernelAbi
      ensures this.defaultPermissions == defaultPermissions && this.acl == acl
    {
      this.capabilities, this.maxMaxReadahead, this.kernelAbi := capabilities, maxReadahead, kernelAbi;
      this.defaultPermissions, this.acl := defaultPermissions, acl;
      requested := DefaultFlags(capabilities);
      this.maxReadahead, maxBackground, congestion := maxReadahead, 16, None;
      maxWrite, timeGran, maxStackDepth := MAX_WRITE_SIZE, Span(0, 1), 0;
      new;
      assert Total(timeGran) == Pow10(0);
    }

    function Offer(): Terms { Terms(capabilities, maxMaxReadahead, defaultPermissions, acl) }

    function Value(): Config
      reads this
    {
      Config(requested, maxReadahead, maxBackground, congestion, maxWrite, timeGran, maxStackDepth)
    }

    /** The refused bits; nothing is added unless there are none. */
    method AddCapabilities(caps: set<nat>) returns (refused: set<nat>)
      requires Valid()
      modifies `requested
      ensures Valid() && refused == Refused(Offer(), old(requested), caps)
      ensures requested == if refused == {} then old(requested) + caps else old(requested)
    {
      var conditional := if IdmapAvailable(Offer(), requested + caps) then {} else {ALLOW_IDMAP};
      refused := (caps - capabilities) + caps * UNSUPPORTED + caps * conditional;
      assert refused == Refused(Offer(), requested, caps);
      if refused == {} {
        assert forall c | c in caps :: c !in Refused(Offer(), requested, caps);
        requested := requested + caps;
      }
    }

    method SetMaxStackDepth(value: nat) returns (r: Setting<nat>)
      requires Valid()
      modifies `maxStackDepth
      ensures Valid() && (r.Ok? <==> value <= 2)
      ensures r == if value <= 2 then Ok(old(maxStackDepth)) else Err(2)
      ensures maxStackDepth == if r.Ok? then value else old(maxStackDepth)
    {
      if value > 2 {
        return Err(2);
      }
      var previous := maxStackDepth;
      maxStackDepth := value;
      return Ok(previous);
    }

    /** Accepts the powers of ten from a nanosecond to a second, and otherwise hands back the
        largest of them that is not above the request, or a nanosecond when there is none. */
    method SetTimeGranularity(value: Duration) returns (r: Setting<Duration>)
      requires Valid()
      modifies `timeGran
      ensures Valid() && (r.Ok? <==> IsGranularity(Total(value)))
      ensures r.Ok? ==> r.previous == old(timeGran) && timeGran == value
      ensures r.Err? ==> timeGran == old(timeGran) && IsHint(Total(value), Total(r.hint))
      ensures r.Err? ==> (IsNearest(Total(value), Total(r.hint))
                          <==> Total(value) == 0 || Total(value) > NANOS || 2 * Total(value) <= 11 * Total(r.hint))
    {
      ASecond();
      forall k: nat | k <= 9 ensures Pow10(k) <= NANOS {
        Pow10Grows(k, 9);
      }
      if Total(value) == 0 {
        assert Total(Span(0, 1)) == Pow10(0);
        HintIsNearestIff(0, 1);
        return Err(Span(0, 1));
      }
      if value.secs > 1 || (value.secs == 1 && value.nanos > 0) {
        assert Total(Span(1, 0)) == Pow10(9);
        HintIsNearestIff(Total(value), NANOS);
        return Err(Span(1, 0));
      }
      var power := 1;
      ghost var k := 0;
      while power < Total(value)
        invariant power == Pow10(k) && k <= 9 && power <= Total(value)
      {
        if Total(value) < power * 10 {
          NoneBetween(Total(value), k);
          assert Total(Span(0, power)) == Pow10(k);
          HintIsNearestIff(Total(value), power);
          return Err(Span(0, power));
        }
        if k == 9 {
          assert false;
        }
        power, k := power * 10, k + 1;
      }
      var previous := timeGran;
      timeGran := value;
      return Ok(previous);
    }

    method SetMaxWrite(value: nat) returns (r: Setting<nat>)
      requires Valid()
      modifies `maxWrite
      ensures Valid() && (r.Ok? <==> MIN_WRITE_SIZE <= value <= MAX_WRITE_SIZE)
      ensures r.Ok? ==> r.previous == old(maxWrite) && maxWrite == value
      ensures r.Err? ==> maxWrite == old(maxWrite) && r.hint == Nearest(value, MIN_WRITE_SIZE, MAX_WRITE_SIZE)
    {
      if value < MIN_WRITE_SIZE {
        return Err(MIN_WRITE_SIZE);
      }
      if value > MAX_WRITE_SIZE {
        return Err(MAX_WRITE_SIZE);
      }
      var previous := maxWrite;
      maxWrite := value;
      return Ok(previous);
    }

    /** When the kernel offers no readahead at all, no value is accepted, and the one handed
        back is not either. */
    method SetMaxReadahead(value: nat) returns (r: Setting<nat>)
      requires Valid()
      modifies `maxReadahead
      ensures Valid() && (r.Ok? <==> 1 <= value <= maxMaxReadahead)
      ensures r.Ok? ==> r.previous == old(maxReadahead) && maxReadahead == value
      ensures r.Err? ==> maxReadahead == old(maxReadahead)
      ensures r.Err? && maxMaxReadahead > 0 ==> r.hint == Nearest(value, 1, maxMaxReadahead)
      ensures r.Err? ==> (1 <= r.hint <= maxMaxReadahead <==> maxMaxReadahead > 0)
    {
      if value == 0 {
        return Err(1);
      }
      if value > maxMaxReadahead {
        return Err(maxMaxReadahead);
      }
      var previous := maxReadahead;
      maxReadahead := value;
      return Ok(previous);
    }

    method SetMaxBackground(value: nat) returns (r: Setting<nat>)
      requires Valid()
      modifies `maxBackground
      ensures Valid() && r == if value > 0 then Ok(old(maxBackground)) else Err(1)
      ensures maxBackground == if r.Ok? then value else old(maxBackground)
    {
      if value == 0 {
        return Err(1);
      }
      var previous := maxBackground;
      maxBackground := value;
      return Ok(previous);
    }

    method SetCongestionThreshold(value: nat) returns (r: Setting<nat>)
      requires Valid()
      modifies `congestion
      ensures Valid() && r == if value > 0 then Ok(old(CongestionThreshold())) else Err(1)
      ensures congestion == if r.Ok? then Some(value) else old(congestion)
      ensures CongestionThreshold() == if r.Ok? then Min(value, maxBackground) else old(CongestionThreshold())
    {
      if value == 0 {
        return Err(1);
      }
      var previous := CongestionThreshold();
      congestion := Some(value);
      return Ok(previous);
    }

    function CongestionThreshold(): (r: nat)
      reads this
    {
      Threshold(Value())
    }

    /** The reply this configuration makes; None is the overflow that stops the program. */
    method Reply(minor: nat, page: nat) returns (r: Option<InitOut>)
      requires Valid() && page > 0
      ensures var pages := MaxPages(maxWrite, maxReadahead, page);
              r == if pages == None then None else Some(SettingsFor(Offer(), Value(), minor, pages.value))
    {
      var flags := (requested + {INIT_EXT}) * capabilities;
      var pages := MaxPages(maxWrite, maxReadahead, page);
      if pages == None {
        return None;
      }
      var init := InitMore(Total(timeGran), pages.value, High(flags), 0);
      if PASSTHROUGH in flags {
        init := init.(maxStackDepth := maxStackDepth);
      }
      return Some(InitOut(KERNEL_VERSION, maxReadahead, Low(flags), maxBackground, CongestionThreshold(), maxWrite,
                          if minor < 23 then None else Some(init)));
    }

    /** Whatever the filesystem does with its configuration. */
    method Configure(call: Call)
      requires Valid()
      modifies this
      ensures Valid() && Value() == Called(Offer(), old(Value()), call)
    {
      match call {
        case Add(caps) =>
          var _ := AddCapabilities(caps);
        case StackDepth(v) =>
          var _ := SetMaxStackDepth(v);
        case Granularity(v) =>
          var _ := SetTimeGranularity(v);
        case Write(v) =>
          var _ := SetMaxWrite(v);
        case Readahead(v) =>
          var _ := SetMaxReadahead(v);
        case Background(v) =>
          var _ := SetMaxBackground(v);
        case Congestion(v) =>
          var _ := SetCongestionThreshold(v);
      }
    }
  }

  // ----- Values handed back -----

  function Nearest(v: nat, lo: nat, hi: nat): nat {
    if v < lo then lo else if v > hi then hi else v
  }

  /** A kernel that offers no readahead leaves no value to be accepted, the one handed back
      included; any other kernel does. */
  lemma NoReadahead(t: Terms, requested: set<nat>)
    ensures t.readahead == 0 <==> forall v: nat :: !Accepts(t, requested, Readahead(v))
  {
    if t.readahead > 0 {
      assert Accepts(t, requested, Readahead(1));
    }
  }

  /** The value handed back is accepted itself, and nothing accepted is nearer. */
  lemma NearestIsNearest(v: nat, lo: nat, hi: nat, other: nat)
    requires lo <= hi && lo <= other <= hi
    ensures lo <= Nearest(v, lo, hi) <= hi
    ensures var d := if v < Nearest(v, lo, hi) then Nearest(v, lo, hi) - v else v - Nearest(v, lo, hi);
            d <= if v < other then other - v else v - other
  {
  }

  // ----- The handshake -----

  /** The pages a transfer may span, narrowed to 16 bits before one is added; None is the
      overflow of that addition. */
  function MaxPages(maxWrite: nat, maxReadahead: nat, page: nat): Option<nat>
    requires page > 0 && Max(maxWrite, maxReadahead) > 0
  {
    var q := (Max(maxWrite, maxReadahead) - 1) / page % 0x1_0000;
    if q == 0xFFFF then None else Some(q + 1)
  }

  /** The capability words of a request: the second one counts only when the first says so. */
  function Offered(flags: set<nat>, flags2: set<nat>): set<nat> {
    if INIT_EXT in flags then flags + set b | b in flags2 :: b + 32 else flags
  }

  datatype Hello =
    | Init(version: Version, offered: set<nat>, maxReadahead: nat)
    | OtherOperation | Unparsed | Garbage | Disconnected | ReadFailed

  /** The reply to an init request. The second part is cut off for an old minor version. */
  datatype InitOut = InitOut(version: Version, maxReadahead: nat, flags: set<nat>, maxBackground: nat, congestion: nat,
                             maxWrite: nat, more: Option<InitMore>)

  datatype InitMore = InitMore(timeGran: nat, maxPages: nat, flags2: set<nat>, maxStackDepth: nat)

  datatype Answer = Settings(out: InitOut) | Error(errno: nat)

  /** Broken is the overflow of the page count, which stops the program. */
  datatype Outcome = Connected | Failed | Waiting | Broken

  const VERSION_ONLY: InitOut := InitOut(KERNEL_VERSION, 0, {}, 0, 0, 0, Some(InitMore(0, 0, {}, 0)))

  function Low(flags: set<nat>): set<nat> { set b | b in flags && b < 32 }

  function High(flags: set<nat>): set<nat> { set b | b in flags && 32 <= b < 64 :: b - 32 }

  /** The settings as they are sent, for a page count already computed. */
  function SettingsFor(t: Terms, c: Config, minor: nat, pages: nat): InitOut {
    var flags := (c.requested + {INIT_EXT}) * t.offered;
    InitOut(KERNEL_VERSION, c.maxReadahead, Low(flags), c.maxBackground, Threshold(c), c.maxWrite,
            if minor < 23 then None
            else Some(InitMore(Total(c.timeGran), pages, High(flags), if PASSTHROUGH in flags then c.maxStackDepth else 0)))
  }

  const EPROTO: nat := 71

  predicate TooNew(h: Hello) { h.Init? && h.version.major > KERNEL_VERSION.major }

  /** How many greetings in a row come from a kernel with a newer major version. */
  function Newer(hs: seq<Hello>): (n: nat)
    ensures n <= |hs| && (forall k | 0 <= k < n :: TooNew(hs[k])) && (n < |hs| ==> !TooNew(hs[n]))
  {
    if hs == [] || !TooNew(hs[0]) then 0 else 1 + Newer(hs[1..])
  }

  lemma {:induction false} NewerIs(hs: seq<Hello>, n: nat)
    requires n <= |hs| && (forall k | 0 <= k < n :: TooNew(hs[k])) && (n < |hs| ==> !TooNew(hs[n]))
    ensures Newer(hs) == n
  {
  }

  predicate Speakable(v: Version) { v.major == 7 && v.minor >= 6 }

  /** What becomes of the greeting that decides, and what it is answered with. */
  function Decided(t: Terms, h: Hello, calls: seq<Call>, initErr: nat, page: nat): (Outcome, seq<Answer>)
    requires page > 0 && (h.Init? ==> t.offered == h.offered && t.readahead == h.maxReadahead)
  {
    match h
    case Init(v, _, _) =>
      if !Speakable(v) then (Failed, [Error(EPROTO)])
      else if initErr != 0 then (Failed, [Error(initErr)])
      else
        var c := Settled(t, calls);
        SettledIsSafe(t, calls);
        var pages := MaxPages(c.maxWrite, c.maxReadahead, page);
        if pages == None then (Broken, []) else (Connected, [Settings(SettingsFor(t, c, v.minor, pages.value))])
    case OtherOperation => (Failed, [Error(Framing.EIO)])
    case _ => (Failed, [])
  }

  class Session {
    const acl: Dispatch.Acl
    const owner: nat
    const defaultPermissions: bool
    var protoVersion: Option<Version>
    var negotiated: set<nat>
    var kernelCapabilities: set<nat>

    constructor (acl: Dispatch.Acl, owner: nat, defaultPermissions: bool)
      ensures this.acl == acl && this.owner == owner && this.defaultPermissions == defaultPermissions
      ensures protoVersion == None && negotiated == {} && kernelCapabilities == {}
    {
      this.acl, this.owner, this.defaultPermissions := acl, owner, defaultPermissions;
      protoVersion, negotiated, kernelCapabilities := None, {}, {};
    }

    function On(h: Hello): Terms
    {
      if h.Init? then Terms(h.offered, h.maxReadahead, defaultPermissions, acl) else Terms({}, 0, defaultPermissions, acl)
    }

    /** A session that shook hands: it speaks a version from 7.6 on, uses nothing the kernel
        did not offer and nothing it has no implementation for, and withholds the caller's
        ids only where nobody is turned away and the kernel checks permissions. */
    ghost predicate IsAgreed()
      reads this
    {
      && protoVersion.Some? && Speakable(protoVersion.value)
      && negotiated <= kernelCapabilities && negotiated * UNSUPPORTED == {}
      && (ALLOW_IDMAP in negotiated ==> acl == Dispatch.All && (defaultPermissions || POSIX_ACL in negotiated))
    }

    /** `calls` is what the filesystem's init does, `initErr` its errno or zero, and `page` the
        size of a page. Greetings of a newer major version are answered with our own until one
        decides. */
    method Handshake(hellos: seq<Hello>, calls: seq<Call>, initErr: nat, page: nat)
      returns (r: Outcome, answers: seq<Answer>)
      requires page > 0
      modifies this
      ensures var n := Newer(hellos);
              if n == |hellos| then r == Waiting && answers == Versions(n)
              else (r, answers) == (Decided(On(hellos[n]), hellos[n], calls, initErr, page).0,
                                    Versions(n) + Decided(On(hellos[n]), hellos[n], calls, initErr, page).1)
      ensures r == Connected ==>
                var h := hellos[Newer(hellos)];
                && h.Init? && IsAgreed() && protoVersion == Some(h.version) && kernelCapabilities == h.offered
                && negotiated == Agreed(On(h), calls)
      ensures r == Failed || r == Waiting ==> unchanged(this)
    {
      hide Settled, Called, SettingsFor, MaxPages;
      answers := [];
      var i := 0;
      while i < |hellos|
        invariant i <= |hellos| && answers == Versions(i) && unchanged(this)
        invariant forall k | 0 <= k < i :: TooNew(hellos[k])
      {
        match hellos[i] {
          case Init(v, offered, readahead) =>
            if v.major > KERNEL_VERSION.major {
              answers := answers + [Settings(VERSION_ONLY)];
            } else {
              NewerIs(hellos, i);
              if Before(v, OLDEST_VERSION) {
                return Failed, answers + [Error(EPROTO)];
              }
              var last;
              r, last := Settle(v, offered, readahead, calls, initErr, page);
              return r, answers + last;
            }
          case OtherOperation =>
            NewerIs(hellos, i);
            return Failed, answers + [Error(Framing.EIO)];
          case _ =>
            NewerIs(hellos, i);
            assert answers + [] == answers;
            return Failed, answers;
        }
        i := i + 1;
      }
      NewerIs(hellos, i);
      return Waiting, answers;
    }

    /** A greeting in a version that both sides speak. */
    method Settle(v: Version, offered: set<nat>, readahead: nat, calls: seq<Call>, initErr: nat, page: nat)
      returns (r: Outcome, answers: seq<Answer>)
      requires page > 0 && Speakable(v)
      modifies this
      ensures var h := Init(v, offered, readahead);
              && (r, answers) == Decided(On(h), h, calls, initErr, page)
              && (r == Connected ==> IsAgreed() && protoVersion == Some(v) && kernelCapabilities == offered
                                     && negotiated == Agreed(On(h), calls))
      ensures r == Failed ==> unchanged(this)
    {
      hide Settled, Called, SettingsFor, MaxPages;
      var config := Configured(v, offered, readahead, calls);
      if initErr != 0 {
        return Failed, [Error(initErr)];
      }
      SettledIsSafe(config.Offer(), calls);
      protoVersion := Some(v);
      negotiated := offered * config.requested;
      kernelCapabilities := offered;
      var reply := config.Reply(v.minor, page);
      if reply == None {
        return Broken, [];
      }
      return Connected, [Settings(reply.value)];
    }

    /** The configuration as the filesystem's init leaves it. */
    method Configured(v: Version, offered: set<nat>, readahead: nat, calls: seq<Call>) returns (config: KernelConfig)
      ensures fresh(config) && config.Valid() && config.Offer() == Terms(offered, readahead, defaultPermissions, acl)
      ensures config.Value() == Settled(config.Offer(), calls)
    {
      config := new KernelConfig(offered, readahead, v, defaultPermissions, acl);
      for k := 0 to |calls|
        invariant config.Valid() && config.Offer() == Terms(offered, readahead, defaultPermissions, acl)
        invariant config.Value() == Settled(config.Offer(), calls[..k])
      {
        assert calls[..k + 1][..k] == calls[..k];
        config.Configure(calls[k]);
      }
      assert calls[..|calls|] == calls;
    }
  }

  function Versions(n: nat): seq<Answer> { seq(n, _ => Settings(VERSION_ONLY)) }

  // ----- What follows from it -----

  /** The lower of two versions, part by part, as notifications take it. */
  function NegotiatedAbi(kernel: Version): Version {
    Version(Min(kernel.major, KERNEL_VERSION.major), Min(kernel.minor, KERNEL_VERSION.minor))
  }

  /** That is the lower version exactly when the major versions agree or the minor ones do not
      stand against them; after a handshake they always agree. */
  lemma NegotiatedAbiIff(kernel: Version)
    ensures NegotiatedAbi(kernel) == (if Before(kernel, KERNEL_VERSION) then kernel else KERNEL_VERSION)
            <==> kernel.major == 7 || (kernel.major < 7 && kernel.minor <= 44) || (kernel.major > 7 && kernel.minor >= 44)
    ensures Speakable(kernel) ==> (!Before(NegotiatedAbi(kernel), INC_EPOCH_VERSION) <==> !Before(kernel, INC_EPOCH_VERSION))
  {
  }

  function Loop(acl: Dispatch.Acl, owner: nat, negotiated: set<nat>): Dispatch.Session {
    Dispatch.Session(acl, owner, SETXATTR_EXT in negotiated, ALLOW_IDMAP in negotiated, true)
  }

  /** On a session whose requests carry no caller's ids, no request is ever refused for them,
      whatever the filesystem asked for when it was set up. */
  lemma MaskedNeverTurnedAway(t: Terms, calls: seq<Call>, owner: nat, h: RequestCodec.InHeader, data: seq<byte>)
    ensures var loop := Loop(t.acl, owner, Agreed(t, calls));
            loop.idmap ==> Dispatch.Decide(loop, h, data) != Dispatch.Refuse(Dispatch.EACCES)
  {
    hide Dispatch.Decide, Settled;
    SettledIsSafe(t, calls);
    Dispatch.TurnedAwayIff(Loop(t.acl, owner, Agreed(t, calls)), h, data);
  }

  /** The capabilities the kernel takes from a reply. */
  function Heard(out: InitOut): set<nat> {
    Offered(out.flags, if out.more.Some? then out.more.value.flags2 else {})
  }

  /** Both sides go by the same capabilities if and only if the upper word arrives, or there
      is nothing in it. */
  lemma HeardIff(t: Terms, flags: set<nat>, flags2: set<nat>, c: Config, minor: nat, pages: nat)
    requires (forall b | b in flags :: b < 32) && (forall b | b in flags2 :: b < 32) && t.offered == Offered(flags, flags2)
    ensures var negotiated := t.offered * c.requested;
            Heard(SettingsFor(t, c, minor, pages)) - {INIT_EXT} == negotiated - {INIT_EXT}
            <==> minor >= 23 || forall b | b in negotiated :: b < 32
  {
    var negotiated := t.offered * c.requested;
    var told := (c.requested + {INIT_EXT}) * t.offered;
    assert forall b | b in t.offered :: b < 64 && (b >= 32 ==> INIT_EXT in flags);
    var low, high := Low(told), if minor < 23 then {} else High(told);
    assert Heard(SettingsFor(t, c, minor, pages)) == Offered(low, high);
    assert minor >= 23 ==> forall b | b in told && b >= 32 :: b - 32 in high && b - 32 + 32 == b;
    assert forall b :: b in Offered(low, high) <==> b in told && (b < 32 || minor >= 23);
    assert told - {INIT_EXT} == negotiated - {INIT_EXT};
    if minor < 23 {
      assert Offered(low, {}) == low;
      if b :| b in negotiated && b >= 32 {
        assert b in negotiated - {INIT_EXT} && b !in low;
      }
    }
  }

  /** A kernel of 7.22 that offers a second word, and a filesystem that asks for a bit of it:
      the session counts on mmap of direct I/O files, and the kernel never hears of it. */
  lemma CutReply()
    ensures var t := Terms(Offered({INIT_EXT}, {4}), 4096, false, Dispatch.Owner);
            var c := Settled(t, [Add({36})]);
            36 in t.offered * c.requested && 36 !in Heard(SettingsFor(t, c, 22, 1))
  {
    var t := Terms(Offered({INIT_EXT}, {4}), 4096, false, Dispatch.Owner);
    var calls := [Add({36})];
    assert calls[..0] == [] && 4 + 32 in t.offered;
    assert Refused(t, Defaults(t).requested, {36}) == {};
    assert Settled(t, calls) == Called(t, Settled(t, []), calls[0]);
  }

  // ----- The read buffer -----

  const BUFFER_SIZE: nat := MAX_WRITE_SIZE + 4096
  const HEADER_ALIGNMENT: nat := 8
  const WRITE_HEADERS: nat := 80

  /** Where the usable part of a buffer at `address` begins. */
  function AlignedOffset(address: nat): nat {
    var off := HEADER_ALIGNMENT - address % HEADER_ALIGNMENT;
    if off == HEADER_ALIGNMENT then 0 else off
  }

  /** Wherever the buffer lies, requests are read to an aligned address, and the largest write
      that can have been configured fits with both of its headers. */
  lemma AnyWriteFits(address: nat, maxWrite: nat)
    requires MIN_WRITE_SIZE <= maxWrite <= MAX_WRITE_SIZE
    ensures (address + AlignedOffset(address)) % HEADER_ALIGNMENT == 0
    ensures AlignedOffset(address) <= BUFFER_SIZE && WRITE_HEADERS + maxWrite <= BUFFER_SIZE - AlignedOffset(address)
  {
  }

  /** The page count covers the largest transfer exactly when that has fewer than 65536 pages. */
  lemma PagesCoverIff(maxWrite: nat, maxReadahead: nat, page: nat)
    requires page > 0 && Max(maxWrite, maxReadahead) > 0
    ensures var pages := MaxPages(maxWrite, maxReadahead, page);
            pages.Some? && pages.value * page >= Max(maxWrite, maxReadahead)
            <==> Max(maxWrite, maxReadahead) <= 0xFFFF * page
  {
    var m := Max(maxWrite, maxReadahead);
    var q := (m - 1) / page;
    Quotient(m - 1, page);
    if q < 0xFFFF {
      Times(q + 1, 0xFFFF, page);
    } else {
      Times(0xFFFF, q, page);
      if q % 0x1_0000 != 0xFFFF {
        Times(q % 0x1_0000 + 1, 0xFFFF, page);
      }
    }
  }

  /** A kernel that offers 256 MiB of readahead, on pages of 4 KiB: the count overflows, and one
      page more of readahead is announced as one page in all. */
  lemma PagesWrap()
    ensures MaxPages(MAX_WRITE_SIZE, 0x1000_0000, 4096) == None
    ensures MaxPages(MAX_WRITE_SIZE, 0x1000_1000, 4096) == Some(1)
  {
  }

  lemma Times(a: nat, b: nat, c: nat)
    requires a <= b
    ensures a * c <= b * c
  {
  }

  lemma Quotient(m: nat, d: nat)
    requires d > 0
    ensures m / d * d <= m < (m / d + 1) * d
  {
  }
}
