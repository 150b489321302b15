/**
 The drop list against the kernel: when the two hold the same prefixes, when no
 live drop touches a protected prefix, and when the record pool may refuse.
 */
module Mirror {
  import opened Cidrs
  import opened KernelState
  import opened GateModel
  import opened GateSafety

  /** The list and the kernel drop maps hold the same prefixes. */
  ghost predicate Exact(g: Gate) {
    Keys(g.list) == g.maps.drops.Keys
  }

  /** No live drop is protected, and the live local and allow maps hold nothing unconfigured. */
  ghost predicate Guarded(g: Gate) {
    && (forall d | d in g.maps.drops :: !Protected(g.conf, d))
    && g.maps.local <= SetOf(g.conf.local)
    && g.maps.allow <= SetOf(g.conf.allow)
  }

  /** No delete of a disarm's flush fails. */
  ghost predicate FlushesWork(e: Event) {
    match e
    case DisarmCmd(stuck, _) => stuck == {}
    case TickEvent(t) => t.flushStuck == {}
    case _ => true
  }

  /** Nor any delete or the commit of a reload; inserts may still fail. */
  ghost predicate Clean(e: Event) {
    && FlushesWork(e)
    && (e.ReloadCmd? ==> e.stuck == {} && e.commitOk && e.allow.stuck == {} && e.local.stuck == {})
  }

  // ---------------------------------------------------------------- the same prefixes

  /** Dropping keeps the two sides equal and adds at most the prefix itself. */
  lemma DropArmedKeepsExact(g: Gate, p: Cidr, reason: Reason, expires: int, w: Write)
    requires Inv(g) && g.mode == Active && Exact(g)
    ensures var g' := DropArmed(g, p, reason, expires, w).0;
            Exact(g') && g'.maps.drops.Keys <= g.maps.drops.Keys + {p}
  {
    KeysHas(g.list, p);
    var i := IndexOf(g.list, p);
    if i == |g.list| {
      assert Keys(g.list + [Drop(p, reason, w.now, expires)]) == Keys(g.list) + {p};
    } else {
      assert p in Keys(g.list);
      DropAgainKeepsInv(g, i, p, reason, expires, w);
    }
  }

  lemma DropAddKeepsExact(g: Gate, p: Cidr, reason: Reason, expires: int, armOk: bool, w: Write)
    requires Inv(g) && Exact(g)
    ensures var g' := DropAdd(g, p, reason, expires, armOk, w).0;
            Exact(g') && forall d | d in g'.maps.drops :: d in g.maps.drops || !Protected(g.conf, d)
  {
    var (g1, armed) := Arm(g, armOk);
    assert Inv(g1) && Exact(g1);
    if !Protected(g.conf, p) && armed {
      DropArmedKeepsExact(g1, p, reason, expires, w);
    }
  }

  lemma SweepKeepsExact(g: Gate, s: Sweep, stuck: set<Cidr>)
    requires Inv(g) && Exact(g)
    ensures Exact(SweepGate(g, s, stuck))
  {
    SweepKeepsInv(g, s, stuck);
    SurvivorsFacts(s, stuck, g.list);
    var g' := SweepGate(g, s, stuck);
    forall c | c in g'.maps.drops
      ensures c in Keys(g'.list)
    {
      assert c in Keys(g.list);
      var d :| d in g.list && d.cidr == c;
      assert d in g'.list;
    }
  }

  lemma UndropKeepsExact(g: Gate, p: Cidr, delOk: bool)
    requires Inv(g) && Exact(g)
    ensures Exact(Undrop(g, p, delOk).0)
  {
    var i := IndexOf(g.list, p);
    KeysHas(g.list, p);
    if delOk && i < |g.list| {
      RemovedOne(g.list, i);
    }
  }

  lemma VisitsKeepExact(g: Gate, vs: seq<Visit>, dt: real)
    requires Inv(g) && g.mode == Active && g.snaps.gen >= 1 && Exact(g)
    ensures Exact(Visits(g, vs, dt))
    ensures forall d | d in Visits(g, vs, dt).maps.drops :: d in g.maps.drops || !Protected(g.conf, d)
  {
    if vs != [] {
      var n := |vs| - 1;
      VisitsKeepInv(g, vs[..n], dt);
      VisitsKeepExact(g, vs[..n], dt);
      VisitKeepsExact(Visits(g, vs[..n], dt), vs[n], dt);
    }
  }

  lemma VisitKeepsExact(g: Gate, v: Visit, dt: real)
    requires Inv(g) && g.mode == Active && g.snaps.gen >= 1 && Exact(g)
    ensures Exact(PolicyVisit(g, v, dt))
    ensures forall d | d in PolicyVisit(g, v, dt).maps.drops :: d in g.maps.drops || !Protected(g.conf, d)
  {
    var g1 := Snapshot(g, v);
    assert Inv(g1);
    DropAddKeepsInv(g1, HostCidr(v.host), Policy, 0, true, v.drop);
    DropAddKeepsExact(g1, HostCidr(v.host), Policy, 0, true, v.drop);
    var g2 := DropAdd(g1, HostCidr(v.host), Policy, 0, true, v.drop).0;
    DropAddKeepsExact(g2, Widen(HostCidr(v.host)), Aggregate, 0, true, v.widen);
  }

  lemma WalkAndExpireKeepsExact(g: Gate, t: TickInput, dt: real)
    requires Inv(g) && g.mode == Active && Exact(g)
    ensures Exact(WalkAndExpire(g, t, dt))
    ensures forall d | d in WalkAndExpire(g, t, dt).maps.drops :: d in g.maps.drops || !Protected(g.conf, d)
  {
    var g0 := g.(snaps := NextGen(g.snaps));
    assert Inv(g0);
    VisitsKeepExact(g0, t.visits, dt);
    WalkKeepsInv(g, t.visits, t.complete, dt);
    SweepKeepsExact(Walk(g, t.visits, t.complete, dt), Expire(t.expireNow, g.conf.banTime), t.stuck);
  }

  lemma TickKeepsExact(g: Gate, t: TickInput)
    requires Inv(g) && Exact(g) && t.flushStuck == {}
    ensures Exact(Tick(g, t))
    ensures forall d | d in Tick(g, t).maps.drops :: d in g.maps.drops || !Protected(g.conf, d)
    ensures Tick(g, t).conf == g.conf
    ensures Tick(g, t).maps.local == g.maps.local && Tick(g, t).maps.allow == g.maps.allow
  {
    hide WalkAndExpire, Protected, ListInv, SnapInv;
    var dt := Dt(g.meter, t.mono);
    var g1 := g.(meter := Measure(g.meter, t));
    assert Inv(g1);
    if Evaluated(g.meter, t) && g.mode == Active {
      WalkAndExpireKeepsInv(g1, t, dt);
      WalkAndExpireKeepsExact(g1, t, dt);
    }
  }

  lemma StepKeepsExact(g: Gate, e: Event)
    requires Inv(g) && Exact(g) && FlushesWork(e)
    ensures Exact(Step(g, e))
  {
    match e
    case DropCmd(p, reason, expires, armOk, w) => DropAddKeepsExact(g, p, reason, expires, armOk, w);
    case UndropCmd(p, delOk) => UndropKeepsExact(g, p, delOk);
    case ArmCmd(armOk) =>
    case DisarmCmd(stuck, commitOk) =>
    case ReloadCmd(conf, stuck, commitOk, allow, local) => SweepKeepsExact(g.(conf := conf), Prune(conf), stuck);
    case TickEvent(t) => TickKeepsExact(g, t);
  }

  /**
   In every run whose flushes work, the kernel drop maps hold exactly the listed
   prefixes, although every other add and delete may fail.
   */
  lemma {:induction false} RunKeepsExact(g: Gate, es: seq<Event>)
    requires Inv(g) && Exact(g)
    requires forall e | e in es :: FlushesWork(e)
    ensures Exact(Run(g, es))
  {
    if es != [] {
      var n := |es| - 1;
      RunKeepsInv(g, es[..n]);
      RunKeepsExact(g, es[..n]);
      StepKeepsExact(Run(g, es[..n]), es[n]);
    }
  }

  // ---------------------------------------------------------------- protected prefixes

  /** A drop that overlaps nothing configured overlaps nothing live. */
  lemma GuardedIsDisjoint(g: Gate)
    requires Guarded(g)
    ensures LiveDisjoint(g.maps)
  {
  }

  lemma ReloadKeepsGuarded(g: Gate, conf: Config, allow: Refill, local: Refill)
    requires Inv(g) && Exact(g) && allow.stuck == {} && local.stuck == {}
    ensures Guarded(Reload(g, conf, {}, true, allow, local).0)
  {
  }

  lemma StepKeepsGuarded(g: Gate, e: Event)
    requires Inv(g) && Exact(g) && Guarded(g) && Clean(e)
    ensures Guarded(Step(g, e))
  {
    hide Protected, Tick, Reload, ListInv, SnapInv, DropArmed;
    match e
    case DropCmd(p, reason, expires, armOk, w) =>
      DropAddKeepsInv(g, p, reason, expires, armOk, w);
      DropAddKeepsExact(g, p, reason, expires, armOk, w);
    case UndropCmd(p, delOk) =>
    case ArmCmd(armOk) =>
    case DisarmCmd(stuck, commitOk) =>
    case ReloadCmd(conf, stuck, commitOk, allow, local) => ReloadKeepsGuarded(g, conf, allow, local);
    case TickEvent(t) => TickKeepsExact(g, t);
  }

  /** A settled state: everything the datapath theorems need. */
  ghost predicate Settled(g: Gate) {
    Inv(g) && Exact(g) && Guarded(g)
  }

  lemma InitSettled(lim: Limits, conf: Config, lost: set<Cidr>)
    ensures Settled(Init(lim, conf, lost))
  {
  }

  /** Clean runs only pass through settled states. */
  lemma {:induction false} RunKeepsSettled(g: Gate, es: seq<Event>)
    requires Settled(g)
    requires forall e | e in es :: Clean(e)
    ensures Settled(Run(g, es))
  {
    if es != [] {
      var n := |es| - 1;
      RunKeepsSettled(g, es[..n]);
      assert Clean(es[n]);
      StepKeepsInv(Run(g, es[..n]), es[n]);
      StepKeepsExact(Run(g, es[..n]), es[n]);
      StepKeepsGuarded(Run(g, es[..n]), es[n]);
    }
  }

  /** What the prune of a reload leaves in the drop maps: whatever is unprotected, unlisted or stuck. */
  lemma PruneLeaves(g: Gate, conf: Config, stuck: set<Cidr>, c: Cidr)
    requires Inv(g)
    ensures c in SweepGate(g, Prune(conf), stuck).maps.drops <==>
            c in g.maps.drops && !(c in Keys(g.list) && Protected(conf, c) && c !in stuck)
  {
  }

  /** The local and allow prefixes that are live after a reload, given what its writes did. */
  function LiveAfter(g: Gate, conf: Config, commitOk: bool, allow: Refill, local: Refill): set<Cidr> {
    if commitOk then Refilled(g.maps.allow, conf.allow, allow) + Refilled(g.maps.local, conf.local, local)
    else g.maps.allow + g.maps.local
  }

  /**
   When a reload leaves the VM reachable, whatever its writes did: exactly when every live
   drop that overlaps a prefix live afterwards is listed, protected by the new
   configuration, and its delete works.
   */
  lemma ReloadIsSafeExactly(g: Gate, conf: Config, stuck: set<Cidr>, commitOk: bool, allow: Refill, local: Refill)
    requires Inv(g)
    ensures LiveDisjoint(Reload(g, conf, stuck, commitOk, allow, local).0.maps) <==>
            forall c, q | c in g.maps.drops && q in LiveAfter(g, conf, commitOk, allow, local) && Overlaps(c, q) ::
              c in Keys(g.list) && Protected(conf, c) && c !in stuck
  {
    var g' := Reload(g, conf, stuck, commitOk, allow, local).0;
    hide Overlaps, LiftedKeys, Survivors, Keys, Protected, Refilled;
    assert g'.maps.local + g'.maps.allow == LiveAfter(g, conf, commitOk, allow, local);
    forall c
      ensures c in g'.maps.drops <==> c in g.maps.drops && !(c in Keys(g.list) && Protected(conf, c) && c !in stuck)
    {
      PruneLeaves(g.(conf := conf), conf, stuck, c);
    }
  }

  /**
   With commit and refills working, that is: exactly when every live drop that the new
   configuration protects is listed and its delete works.  A prefix that an earlier flush
   failed to delete is no longer listed, so no reload can lift it.
   */
  lemma WorkingReloadIsSafeExactly(g: Gate, conf: Config, stuck: set<Cidr>)
    requires Inv(g)
    ensures LiveDisjoint(Reload(g, conf, stuck, true, Refill({}, {}), Refill({}, {})).0.maps) <==>
            forall c | c in g.maps.drops && Protected(conf, c) :: c in Keys(g.list) && c !in stuck
  {
    hide Overlaps, Keys, LiveDisjoint, Reload;
    ReloadIsSafeExactly(g, conf, stuck, true, Refill({}, {}), Refill({}, {}));
    assert LiveAfter(g, conf, true, Refill({}, {}), Refill({}, {})) == SetOf(conf.allow) + SetOf(conf.local);
  }

  /**
   The failing reload happens: drop any unprotected prefix, let its delete fail in a
   disarm's flush, and reload with that prefix local.
   */
  lemma StrayDropOutlivesReload(lim: Limits, conf: Config, p: Cidr)
    requires lim.poolCap > 0 && lim.dropMax > 0 && !Protected(conf, p)
    ensures var none := Refill({}, {});
            var es := [DropCmd(p, Manual, 0, true, Write(0, true)), DisarmCmd({p}, true),
                       ReloadCmd(conf.(local := [p]), {}, true, none, none)];
            !LiveDisjoint(Run(Init(lim, conf, {}), es).maps)
  {
    hide Run, LiveDisjoint, Reload, Protected, Committed, DropAdd, Disarm;
    var none, n := Refill({}, {}), conf.(local := [p]);
    var e1, e2, e3 := DropCmd(p, Manual, 0, true, Write(0, true)), DisarmCmd({p}, true), ReloadCmd(n, {}, true, none, none);
    var g0 := Init(lim, conf, {});
    var g2 := Step(Step(g0, e1), e2);
    ThreeSteps(g0, e1, e2, e3);
    StrayDrop(g0, p);
    StrayOverlaps(g2, n, p);
    assert Step(g2, e3) == Reload(g2, n, {}, true, none, none).0;
  }

  lemma ThreeSteps(g: Gate, a: Event, b: Event, c: Event)
    ensures Run(g, [a, b, c]) == Step(Step(Step(g, a), b), c)
  {
    hide Step;
    assert [a][..0] == [] && [a, b][..1] == [a] && [a, b, c][..2] == [a, b];
    assert Run(g, [a]) == Step(g, a);
    assert Run(g, [a, b]) == Step(Run(g, [a]), b);
  }

  /** A drop whose delete fails in the flush stays in the kernel map, and off the list. */
  lemma StrayDrop(g: Gate, p: Cidr)
    requires g.mode == Idle && g.list == [] && g.maps.drops == map[] && !Protected(g.conf, p)
    requires g.lim.poolCap > 0 && g.lim.dropMax > 0
    ensures var g2 := Step(Step(g, DropCmd(p, Manual, 0, true, Write(0, true))), DisarmCmd({p}, true));
            p in g2.maps.drops && g2.list == []
  {
    hide Protected, Committed;
    assert OfFamily({}, p.family) == {};
    assert CanAdd(g.maps, p, g.lim.dropMax);
  }

  lemma StrayOverlaps(g: Gate, n: Config, p: Cidr)
    requires p in g.maps.drops && g.list == [] && p in n.local
    ensures !LiveDisjoint(Reload(g, n, {}, true, Refill({}, {}), Refill({}, {})).0.maps)
  {
    var g' := Reload(g, n, {}, true, Refill({}, {}), Refill({}, {})).0;
    assert p in g'.maps.drops && p in g'.maps.local;
    OverlapIsIntersection(p, p);
    assert Overlaps(p, p);
  }

  // ---------------------------------------------------------------- the record pool

  lemma FamilySplit(keys: set<Cidr>)
    ensures |keys| == |OfFamily(keys, V4)| + |OfFamily(keys, V6)|
  {
    assert keys == OfFamily(keys, V4) + OfFamily(keys, V6);
  }

  lemma KeyCount(list: seq<Drop>)
    requires UniqueKeys(list)
    ensures |Keys(list)| == |list|
  {
    if list != [] {
      var n := |list| - 1;
      assert list == list[..n] + [list[n]];
      KeyCount(list[..n]);
      assert Keys(list) == Keys(list[..n]) + {list[n].cidr};
      assert list[n].cidr !in Keys(list[..n]);
    }
  }

  /**
   A pool of two records per drop map slot is full only when both drop maps are,
   so it never refuses a new prefix that the kernel would have taken.
   */
  lemma PoolNeverRefusesFirst(g: Gate, p: Cidr)
    requires Inv(g) && g.lim.poolCap == 2 * g.lim.dropMax
    requires p !in Keys(g.list) && |g.list| == g.lim.poolCap
    ensures forall f :: |OfFamily(g.maps.drops.Keys, f)| == g.lim.dropMax
    ensures !CanAdd(g.maps, p, g.lim.dropMax)
  {
    var keys := g.maps.drops.Keys;
    KeyCount(g.list);
    FamilySplit(keys);
    SubsetSize(Keys(g.list), keys);
    assert |OfFamily(keys, V4)| <= g.lim.dropMax && |OfFamily(keys, V6)| <= g.lim.dropMax;
    assert p.family == V4 || p.family == V6;
  }
}
