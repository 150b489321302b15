/**
 Both halves together: what the XDP program does to a frame, said in terms of the
 daemon's list, over every clean run.
 */
module EndToEnd {
  import opened Cidrs
  import opened KernelState
  import opened GateModel
  import opened GateSafety
  import opened Mirror
  import opened Datapath
  import opened Xdp

  /** `parse_allow_ports` accepts at most eight ports, from 1..65535 only. */
  ghost predicate SoundPorts(conf: Config) {
    |conf.ports| <= MAX_ALLOW_PORTS && forall i | 0 <= i < |conf.ports| :: conf.ports[i] != 0
  }

  /** Flush deletes work, and a reload brings a sound port list; every other write may fail. */
  ghost predicate SoundEvent(e: Event) {
    FlushesWork(e) && (e.ReloadCmd? ==> SoundPorts(e.conf))
  }

  ghost predicate CleanEvent(e: Event) {
    Clean(e) && SoundEvent(e)
  }

  /** What the program reads is the mode and the ports of the current configuration. */
  ghost predicate Current(g: Gate) {
    g.maps.cfg == Committed(g.mode == Active, g.conf)
  }

  /** No zero port is configured or live; the live ports may be those of an earlier configuration. */
  ghost predicate PortsInv(g: Gate) {
    SoundPorts(g.conf) && NonZeroPorts(g.maps.cfg)
  }

  /** The live flag and ports stay as they are, with the mode, or become current. */
  ghost predicate Commits(g: Gate, g': Gate) {
    (g'.maps.cfg == g.maps.cfg && g'.mode == g.mode) || Current(g')
  }

  lemma DropAddCommits(g: Gate, p: Cidr, reason: Reason, expires: int, armOk: bool, w: Write)
    requires Inv(g)
    ensures Commits(g, DropAdd(g, p, reason, expires, armOk, w).0)
  {
    hide ListInv, DropArmed, Protected;
    var (g1, armed) := Arm(g, armOk);
    if armed {
      DropArmedKeepsInv(g1, p, reason, expires, w);
    }
  }

  lemma TickCommits(g: Gate, t: TickInput)
    requires Inv(g)
    ensures Commits(g, Tick(g, t)) && Tick(g, t).conf == g.conf
  {
    hide WalkAndExpire, ListInv, SnapInv, Committed;
    var g1 := g.(meter := Measure(g.meter, t));
    assert Inv(g1);
    if Evaluated(g.meter, t) && g.mode == Active {
      WalkAndExpireKeepsInv(g1, t, Dt(g.meter, t.mono));
    }
  }

  lemma StepCommits(g: Gate, e: Event)
    requires Inv(g)
    ensures Commits(g, Step(g, e))
    ensures Step(g, e).conf == if e.ReloadCmd? then e.conf else g.conf
    ensures e.ReloadCmd? && e.commitOk ==> Current(Step(g, e))
  {
    hide DropAdd, Tick, Committed;
    match e
    case DropCmd(p, reason, expires, armOk, w) =>
      DropAddCommits(g, p, reason, expires, armOk, w);
      DropAddKeepsInv(g, p, reason, expires, armOk, w);
    case UndropCmd(p, delOk) =>
    case ArmCmd(armOk) =>
    case DisarmCmd(stuck, commitOk) =>
    case ReloadCmd(conf, stuck, commitOk, allow, local) =>
    case TickEvent(t) => TickCommits(g, t);
  }

  /**
   Every run whose flush deletes work and whose port lists are sound keeps list and kernel
   equal and no zero port live, although commits, refills and all other writes may fail.
   */
  lemma {:induction false} RunStaysSound(g: Gate, es: seq<Event>)
    requires Inv(g) && Exact(g) && PortsInv(g)
    requires forall e | e in es :: SoundEvent(e)
    ensures var g' := Run(g, es); Inv(g') && Exact(g') && PortsInv(g')
  {
    hide PortAllowed, Committed, Inv, Step, Exact;
    RunKeepsInv(g, es);
    RunKeepsExact(g, es);
    if es != [] {
      var n := |es| - 1;
      var g1 := Run(g, es[..n]);
      assert SoundEvent(es[n]);
      RunStaysSound(g, es[..n]);
      StepCommits(g1, es[n]);
      CommitKeepsNonZero(Step(g1, es[n]).mode == Active, Step(g1, es[n]).conf);
    }
  }

  /** In clean runs the live flag and ports are also always current, and nothing live is dropped. */
  lemma {:induction false} CleanRunStaysSound(g: Gate, es: seq<Event>)
    requires Settled(g) && SoundPorts(g.conf) && Current(g)
    requires forall e | e in es :: CleanEvent(e)
    ensures var g' := Run(g, es); Settled(g') && SoundPorts(g'.conf) && Current(g')
  {
    hide Committed, Step, Inv, Exact, Guarded;
    RunKeepsSettled(g, es);
    if es != [] {
      var n := |es| - 1;
      assert CleanEvent(es[n]);
      CleanRunStaysSound(g, es[..n]);
      RunKeepsInv(g, es[..n]);
      StepCommits(Run(g, es[..n]), es[n]);
    }
  }

  lemma StartsSound(lim: Limits, conf: Config, lost: set<Cidr>)
    requires SoundPorts(conf)
    ensures var g := Init(lim, conf, lost); Settled(g) && SoundPorts(g.conf) && Current(g) && PortsInv(g)
  {
    hide PortAllowed, Committed;
    InitSettled(lim, conf, lost);
    CommitKeepsNonZero(false, conf);
  }

  // ---------------------------------------------------------------- frames against the list

  /** The program drops a frame that meets the maps of g. */
  ghost predicate Drops(g: Gate, f: Frame) {
    Classify(g.maps, f).Judged? && Classify(g.maps, f).drop
  }

  /** Some listed drop contains the address. */
  ghost predicate ListedAddress(g: Gate, h: Host) {
    exists d | d in g.list :: h in Addresses(d.cidr)
  }

  lemma ListedIsDropped(g: Gate, h: Host)
    requires Exact(g)
    ensures ListedAddress(g, h) <==> exists c | c in g.maps.drops :: h in Addresses(c)
  {
  }

  /**
   After every run from start-up whose flush deletes work, whatever else fails, for every
   byte sequence: the frame is dropped exactly when the gate is active, both addresses are
   readable, no exemption of the live maps holds, and a record of the daemon's list
   contains the source or the destination.
   */
  lemma VerdictFollowsList(lim: Limits, conf: Config, lost: set<Cidr>, es: seq<Event>, f: Frame)
    requires SoundPorts(conf) && forall e | e in es :: SoundEvent(e)
    ensures var g := Run(Init(lim, conf, lost), es);
            Drops(g, f) <==>
            && g.mode == Active
            && EndsOf(f).Some?
            && var e := EndsOf(f).value; var p := EtherPayload(f).value;
               && !RightlyExempt(g.maps, e, Transport(f, p), HopLimit(f, p))
               && (ListedAddress(g, e.src) || ListedAddress(g, e.dst))
  {
    var g := Run(Init(lim, conf, lost), es);
    StartsSound(lim, conf, lost);
    RunStaysSound(Init(lim, conf, lost), es);
    hide Run, Init, Classify, RightlyExempt, Transport, Addresses, ListInv, SnapInv, PortAllowed;
    DropExactly(g.maps, f);
    if EndsOf(f).Some? {
      ListedIsDropped(g, EndsOf(f).value.src);
      ListedIsDropped(g, EndsOf(f).value.dst);
    }
  }

  /** A live local or allow prefix and a live drop have no address in common. */
  lemma ProtectedUnlisted(g: Gate, h: Host, c: Cidr)
    requires Exact(g) && Guarded(g) && c in g.maps.local + g.maps.allow && h in Addresses(c)
    ensures !ListedAddress(g, h)
  {
    GuardedIsDisjoint(g);
    forall d | d in g.list
      ensures h !in Addresses(d.cidr)
    {
      assert d.cidr in Keys(g.list);
      OverlapIsIntersection(d.cidr, c);
    }
  }

  /**
   Nothing blackholes the VM: after every clean run, a frame to a local address passes
   unless its source is listed, and a frame with an allowed source or destination passes.
   */
  lemma VmStaysReachable(lim: Limits, conf: Config, lost: set<Cidr>, es: seq<Event>, f: Frame, c: Cidr)
    requires SoundPorts(conf) && forall e | e in es :: CleanEvent(e)
    requires EndsOf(f).Some?
    ensures var g := Run(Init(lim, conf, lost), es); var e := EndsOf(f).value;
            && (c in g.maps.local && e.dst in Addresses(c) && !ListedAddress(g, e.src) ==> !Drops(g, f))
            && (c in g.maps.allow && (e.src in Addresses(c) || e.dst in Addresses(c)) ==> !Drops(g, f))
  {
    var g, e := Run(Init(lim, conf, lost), es), EndsOf(f).value;
    VerdictFollowsList(lim, conf, lost, es, f);
    StartsSound(lim, conf, lost);
    CleanRunStaysSound(Init(lim, conf, lost), es);
    hide Run, Init, Classify, Transport, Addresses, ListInv, SnapInv, ListedAddress, Hits;
    if c in g.maps.local && e.dst in Addresses(c) {
      ProtectedUnlisted(g, e.dst, c);
    }
    if c in g.maps.allow {
      HitsMeaning(g.maps.allow, e.src);
      HitsMeaning(g.maps.allow, e.dst);
    }
  }

  /**
   The configured services stay open: after every clean run, whatever is listed, a frame
   with a trustworthy TCP header passes when a configured port is at its local end.
   */
  lemma ServicesStayOpen(lim: Limits, conf: Config, lost: set<Cidr>, es: seq<Event>, f: Frame, c: Cidr)
    requires SoundPorts(conf) && forall e | e in es :: CleanEvent(e)
    requires EndsOf(f).Some? && Transport(f, EtherPayload(f).value).Some?
    ensures var g := Run(Init(lim, conf, lost), es);
            var e, t := EndsOf(f).value, Transport(f, EtherPayload(f).value).value;
            && t.proto == TCP && c in g.maps.local
            && (|| (e.dst in Addresses(c) && t.l4.dport in g.conf.ports)
                || (e.src in Addresses(c) && t.l4.sport in g.conf.ports))
            ==> !Drops(g, f)
  {
    var g := Run(Init(lim, conf, lost), es);
    var e, t := EndsOf(f).value, Transport(f, EtherPayload(f).value).value;
    VerdictFollowsList(lim, conf, lost, es, f);
    StartsSound(lim, conf, lost);
    CleanRunStaysSound(Init(lim, conf, lost), es);
    hide Run, Init, Classify, Transport, Addresses, Inv, Exact, Guarded, ListedAddress, Hits, PortAllowed, Committed;
    CommitKeepsPorts(g.mode == Active, g.conf, t.l4.dport);
    CommitKeepsPorts(g.mode == Active, g.conf, t.l4.sport);
    HitsMeaning(g.maps.local, e.dst);
    HitsMeaning(g.maps.local, e.src);
  }
}
