/** What the kernel is told when a session is set up: for each setting the last value that was
    accepted, within its range, and exactly the capabilities both sides have. */
module InitReply {
  import opened FileContents
  import opened Options
  import Dispatch
  import opened Negotiation

  // ----- The last accepted value of a setting -----

  /** The value of the last call that makes one, or else the default. */
  function LastOf(calls: seq<Call>, otherwise: nat, value: Call -> Option<nat>): nat {
    if calls == [] then otherwise
    else
      var last := value(calls[|calls| - 1]);
      if last.Some? then last.value else LastOf(calls[..|calls| - 1], otherwise, value)
  }

  function WriteOf(c: Call): Option<nat> { if c.Write? && 4096 <= c.v <= 16 * 1024 * 1024 then Some(c.v) else None }

  function ReadaheadOf(offer: nat): Call -> Option<nat> {
    (c: Call) => if c.Readahead? && 0 < c.v <= offer then Some(c.v) else None
  }

  function BackgroundOf(c: Call): Option<nat> { if c.Background? && c.v > 0 then Some(c.v) else None }

  /** Zero stands for no threshold. */
  function CongestionOf(c: Call): Option<nat> { if c.Congestion? && c.v > 0 then Some(c.v) else None }

  function StackDepthOf(c: Call): Option<nat> { if c.StackDepth? && c.v <= 2 then Some(c.v) else None }

  function GranularityOf(c: Call): Option<nat> {
    if && c.Granularity?
       && Total(c.d) in {1, 10, 100, 1_000, 10_000, 100_000, 1_000_000, 10_000_000, 100_000_000, 1_000_000_000}
    then Some(Total(c.d)) else None
  }

  lemma TheGranularities(n: nat)
    ensures IsGranularity(n)
            <==> n in {1, 10, 100, 1_000, 10_000, 100_000, 1_000_000, 10_000_000, 100_000_000, 1_000_000_000}
  {
    assert Pow10(0) == 1 && Pow10(1) == 10 && Pow10(2) == 100;
    assert Pow10(3) == 1_000 && Pow10(4) == 10_000 && Pow10(5) == 100_000;
    assert Pow10(6) == 1_000_000 && Pow10(7) == 10_000_000 && Pow10(8) == 100_000_000 && Pow10(9) == 1_000_000_000;
    if IsGranularity(n) {
      var k :| 0 <= k <= 9 && n == Pow10(k);
      assert k in {0, 1, 2, 3, 4, 5, 6, 7, 8, 9};
    }
  }

  /** Every setting is what the last accepted call for it asked for. */
  lemma {:induction false} SettledIsLast(t: Terms, calls: seq<Call>)
    ensures var c := Settled(t, calls);
            && c.maxWrite == LastOf(calls, 16 * 1024 * 1024, WriteOf)
            && c.maxReadahead == LastOf(calls, t.readahead, ReadaheadOf(t.readahead))
            && c.maxBackground == LastOf(calls, 16, BackgroundOf)
            && c.congestion == (var v := LastOf(calls, 0, CongestionOf); if v == 0 then None else Some(v))
            && c.maxStackDepth == LastOf(calls, 0, StackDepthOf)
            && Total(c.timeGran) == LastOf(calls, 1, GranularityOf)
  {
    if calls != [] {
      SettledIsLast(t, calls[..|calls| - 1]);
      if calls[|calls| - 1].Granularity? {
        TheGranularities(Total(calls[|calls| - 1].d));
      }
    }
  }

  // ----- Capabilities -----

  datatype Capability =
    | AsyncRead | BigWrites | PosixAcl | ManyPages | MapAlignment | Submounts | SetxattrExt | InitExt | SecurityCtx
    | HasInodeDax | CreateSuppGroup | Passthrough | HasResend | AllowIdmap | OverIoUring | RequestTimeout

  function Bit(c: Capability): nat {
    match c
    case AsyncRead => 0 case BigWrites => 5 case PosixAcl => 20 case ManyPages => 22 case MapAlignment => 26
    case Submounts => 27 case SetxattrExt => 29 case InitExt => 30 case SecurityCtx => 32 case HasInodeDax => 33
    case CreateSuppGroup => 34 case Passthrough => 37 case HasResend => 39 case AllowIdmap => 40 case OverIoUring => 41 case RequestTimeout => 42
  }

  predicate Unimplemented(c: Capability) {
    || c.MapAlignment? || c.Submounts? || c.SecurityCtx? || c.HasInodeDax? || c.CreateSuppGroup? || c.HasResend?
    || c.OverIoUring? || c.RequestTimeout?
  }

  /** Some capabilities are added if and only if the kernel offers all of them, the library has
      all of them, and withholding the callers' ids is safe: nobody is kept out by them, and the
      kernel checks permissions, by option or because it offers the ACLs that were asked for. */
  lemma AddedIff(t: Terms, requested: set<nat>, caps: set<nat>)
    ensures Accepts(t, requested, Add(caps))
            <==> && (forall b | b in caps :: b in t.offered)
                 && (forall c: Capability | Unimplemented(c) :: Bit(c) !in caps)
                 && (Bit(AllowIdmap) in caps ==>
                       && t.acl == Dispatch.All
                       && (t.defaultPermissions
                           || (Bit(PosixAcl) in t.offered && (Bit(PosixAcl) in caps || Bit(PosixAcl) in requested))))
  {
    forall b: nat
      ensures b in UNSUPPORTED <==> exists c: Capability | Unimplemented(c) :: Bit(c) == b
    {
      UnsupportedIff(b);
    }
    if Refused(t, requested, caps) == {} {
      assert forall b | b in caps :: b !in Refused(t, requested, caps);
    }
  }

  lemma UnsupportedIff(b: nat)
    ensures b in UNSUPPORTED <==> exists c: Capability | Unimplemented(c) :: Bit(c) == b
  {
    if b in UNSUPPORTED {
      var c := match b
        case 26 => MapAlignment
        case 27 => Submounts
        case 32 => SecurityCtx
        case 33 => HasInodeDax
        case 34 => CreateSuppGroup
        case 39 => HasResend
        case 41 => OverIoUring
        case _ => RequestTimeout;
      assert Unimplemented(c) && Bit(c) == b;
    }
  }

  /** What is asked for is what is asked for by default and by every call that was accepted, at
      the time it was made. */
  lemma {:induction false} RequestedIff(t: Terms, calls: seq<Call>, b: nat)
    ensures b in Settled(t, calls).requested
            <==> || b == Bit(AsyncRead) || b == Bit(BigWrites) || (b == Bit(ManyPages) && b in t.offered)
                 || exists k | 0 <= k < |calls| :: AddedBy(t, calls, k, b)
  {
    if calls != [] {
      var last := |calls| - 1;
      RequestedIff(t, calls[..last], b);
      forall k | 0 <= k < last
        ensures AddedBy(t, calls[..last], k, b) <==> AddedBy(t, calls, k, b)
      {
        assert calls[..last][..k] == calls[..k];
      }
      assert b in Settled(t, calls).requested <==> b in Settled(t, calls[..last]).requested || AddedBy(t, calls, last, b);
      hide Settled, AddedBy;
      if k :| 0 <= k < last && AddedBy(t, calls[..last], k, b) {
        assert AddedBy(t, calls, k, b);
      }
      if k :| 0 <= k < |calls| && AddedBy(t, calls, k, b) {
        assert k < last ==> AddedBy(t, calls[..last], k, b);
      }
    }
  }

  /** The call asks for the capability and is accepted. */
  predicate AddedBy(t: Terms, calls: seq<Call>, k: nat, b: nat)
    requires k < |calls|
  {
    calls[k].Add? && b in calls[k].caps && Accepts(t, Settled(t, calls[..k]).requested, calls[k])
  }

  // ----- The reply -----

  /** The reply of a session that connects, field by field. */
  ghost predicate Tells(t: Terms, calls: seq<Call>, minor: nat, page: nat, out: InitOut)
    requires page > 0
  {
    var background := LastOf(calls, 16, BackgroundOf);
    var congestion := LastOf(calls, 0, CongestionOf);
    var asked := Settled(t, calls).requested;
    && out.version == Version(7, 44)
    && out.maxWrite == LastOf(calls, 16 * 1024 * 1024, WriteOf)
    && out.maxReadahead == LastOf(calls, t.readahead, ReadaheadOf(t.readahead))
    && out.maxBackground == background
    && out.congestion == (if congestion == 0 then background * 3 / 4
                          else if congestion < background then congestion else background)
    && (forall b: nat :: b in out.flags <==> b < 32 && b in t.offered && (b in asked || b == Bit(InitExt)))
    && (out.more.Some? <==> minor >= 23)
    && (out.more.Some? ==>
          && out.more.value.timeGran == LastOf(calls, 1, GranularityOf)
          && (forall b: nat :: b in out.more.value.flags2 <==> b + 32 < 64 && b + 32 in t.offered && b + 32 in asked)
          && out.more.value.maxStackDepth == (if Bit(Passthrough) in t.offered && Bit(Passthrough) in asked
                                              then LastOf(calls, 0, StackDepthOf) else 0)
          && Spans(out.more.value.maxPages, Max(out.maxWrite, out.maxReadahead), page))
  }

  /** As many pages as the largest transfer may span, where 16 bits can say so. */
  predicate Spans(pages: nat, size: nat, page: nat)
    requires page > 0
  {
    size <= 0xFFFF * page ==> (pages - 1) * page < size <= pages * page
  }

  lemma PagesSpan(maxWrite: nat, maxReadahead: nat, page: nat)
    requires page > 0 && Max(maxWrite, maxReadahead) > 0
    ensures var pages := MaxPages(maxWrite, maxReadahead, page);
            pages.Some? ==> Spans(pages.value, Max(maxWrite, maxReadahead), page)
  {
    var m := Max(maxWrite, maxReadahead);
    var q := (m - 1) / page;
    Quotient(m - 1, page);
    if q >= 0xFFFF {
      Times(0xFFFF, q, page);
    }
  }

  lemma FlagsIff(offered: set<nat>, requested: set<nat>, b: nat)
    ensures var flags := (requested + {INIT_EXT}) * offered;
            && (b in Low(flags) <==> b < 32 && b in offered && (b in requested || b == Bit(InitExt)))
            && (b in High(flags) <==> b + 32 < 64 && b + 32 in offered && b + 32 in requested)
            && (PASSTHROUGH in flags <==> Bit(Passthrough) in offered && Bit(Passthrough) in requested)
  {
    var flags := (requested + {INIT_EXT}) * offered;
    var whole := b + 32;
    assert whole in flags && 32 <= whole < 64 ==> whole - 32 in High(flags);
  }

  /** The settings that are sent are those. */
  lemma SettingsTell(t: Terms, calls: seq<Call>, minor: nat, page: nat, pages: nat)
    requires page > 0
    requires var c := Settled(t, calls);
             Max(c.maxWrite, c.maxReadahead) > 0 && MaxPages(c.maxWrite, c.maxReadahead, page) == Some(pages)
    ensures Tells(t, calls, minor, page, SettingsFor(t, Settled(t, calls), minor, pages))
  {
    SettledIsLast(t, calls);
    var c := Settled(t, calls);
    PagesSpan(c.maxWrite, c.maxReadahead, page);
    hide Settled, LastOf, Spans, MaxPages, Low, High, Bit;
    forall b: nat
      ensures var flags := (c.requested + {INIT_EXT}) * t.offered;
              && (b in Low(flags) <==> b < 32 && b in t.offered && (b in c.requested || b == Bit(InitExt)))
              && (b in High(flags) <==> b + 32 < 64 && b + 32 in t.offered && b + 32 in c.requested)
    {
      FlagsIff(t.offered, c.requested, b);
    }
    FlagsIff(t.offered, c.requested, 0);
  }

  /** Whatever the filesystem does during init, the greeting of a session that connects has been
      answered with every setting as it was last accepted; so writes of the announced size fit
      the read buffer wherever it lies, the readahead is within the kernel's offer, and the
      threshold within the number of requests it is for. */
  lemma ConnectedTells(t: Terms, h: Hello, calls: seq<Call>, initErr: nat, page: nat)
    requires page > 0 && (h.Init? ==> t.offered == h.offered && t.readahead == h.maxReadahead)
    requires Decided(t, h, calls, initErr, page).0 == Connected
    ensures h.Init?
    ensures var answers := Decided(t, h, calls, initErr, page).1;
            && |answers| == 1 && answers[0].Settings?
            && var out := answers[0].out;
               && Tells(t, calls, h.version.minor, page, out)
               && 4096 <= out.maxWrite <= 16 * 1024 * 1024 && out.maxReadahead <= h.maxReadahead
               && out.congestion <= out.maxBackground
               && forall address: nat :: AlignedOffset(address) + 80 + out.maxWrite <= BUFFER_SIZE
  {
    var c := Settled(t, calls);
    SettledIsSafe(t, calls);
    var pages := MaxPages(c.maxWrite, c.maxReadahead, page);
    assert pages.Some?;
    SettingsTell(t, calls, h.version.minor, page, pages.value);
    var out := SettingsFor(t, c, h.version.minor, pages.value);
    hide Settled, Tells, MaxPages, AlignedOffset;
    forall address: nat
      ensures AlignedOffset(address) + 80 + out.maxWrite <= BUFFER_SIZE
    {
      AnyWriteFits(address, out.maxWrite);
    }
  }

  /** When a greeting that is not too new connects, and what it is answered with otherwise: an
      older version than 7.6 with EPROTO, a filesystem's own error with that, any other operation
      with EIO, and the rest with nothing. */
  lemma ConnectsIff(t: Terms, h: Hello, calls: seq<Call>, initErr: nat, page: nat)
    requires page > 0 && !TooNew(h) && (h.Init? ==> t.offered == h.offered && t.readahead == h.maxReadahead)
    ensures var (r, answers) := Decided(t, h, calls, initErr, page);
            var spoken := h.Init? && h.version.major == 7 && h.version.minor >= 6;
            && (r == Connected || r == Broken <==> spoken && initErr == 0)
            && (r == Broken ==>
                  answers == [] && Max(Settled(t, calls).maxWrite, Settled(t, calls).maxReadahead) > 0xFFFF * page)
            && (h.Init? && !spoken ==> r == Failed && answers == [Error(71)])
            && (spoken && initErr != 0 ==> r == Failed && answers == [Error(initErr)])
            && (h.OtherOperation? ==> r == Failed && answers == [Error(5)])
            && (!h.Init? && !h.OtherOperation? ==> r == Failed && answers == [])
  {
    hide Settled, SettingsFor;
    SettledIsSafe(t, calls);
    var c := Settled(t, calls);
    if h.Init? {
      PagesCoverIff(c.maxWrite, c.maxReadahead, page);
    }
  }

  /** A kernel of a later major version is told ours and nothing else. */
  lemma VersionsOnly(n: nat)
    ensures |Versions(n)| == n
    ensures forall k | 0 <= k < n ::
              Versions(n)[k] == Settings(InitOut(Version(7, 44), 0, {}, 0, 0, 0, Some(InitMore(0, 0, {}, 0))))
  {
  }

  /** The event loops go by what was agreed on: the layout of a SETXATTR, and whether requests
      carry ids. */
  lemma LoopsGoByIt(acl: Dispatch.Acl, owner: nat, negotiated: set<nat>)
    ensures var loop := Loop(acl, owner, negotiated);
            && loop.acl == acl && loop.owner == owner && loop.filesystem
            && (loop.ext <==> Bit(SetxattrExt) in negotiated) && (loop.idmap <==> Bit(AllowIdmap) in negotiated)
  {
  }
}
