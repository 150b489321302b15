/**
 What every run of the gate keeps: the list mirrors the kernel drop maps, the
 armed flag mirrors the state, the pools never overflow.  Kernel writes may fail
 at any point of a run.
 */
module GateSafety {
  import opened Cidrs
  import opened KernelState
  import opened GateModel

  // ---------------------------------------------------------------- the invariant

  /** The list, seen against the drop maps it mirrors. */
  ghost predicate ListInv(lim: Limits, list: seq<Drop>, keys: set<Cidr>) {
    && UniqueKeys(list)
    && |list| <= lim.poolCap
    && Keys(list) <= keys
    && (forall f :: |OfFamily(keys, f)| <= lim.dropMax)
  }

  ghost predicate SnapInv(lim: Limits, s: Snaps) {
    && |s.tab| <= lim.snapCap
    && s.gen < TWO32
    && (forall h | h in s.tab :: 1 <= s.tab[h].gen <= s.gen)
  }

  ghost predicate ModeInv(g: Gate) {
    && (g.maps.cfg.armed <==> g.mode == Active)
    && (g.list != [] ==> g.mode == Active)
    && (g.mode == Idle ==> g.quietSince == 0)
  }

  ghost predicate Inv(g: Gate) {
    && ListInv(g.lim, g.list, g.maps.drops.Keys)
    && SnapInv(g.lim, g.snaps)
    && ModeInv(g)
  }

  /** Parts of the state that dropping while armed leaves alone. */
  ghost predicate SameFrame(g: Gate, g': Gate) {
    && g'.lim == g.lim && g'.mode == g.mode && g'.conf == g.conf
    && g'.quietSince == g.quietSince && g'.meter == g.meter
    && g'.maps.cfg == g.maps.cfg && g'.maps.allow == g.maps.allow && g'.maps.local == g.maps.local
  }

  // ---------------------------------------------------------------- list facts

  lemma KeysHas(list: seq<Drop>, p: Cidr)
    ensures p in Keys(list) <==> IndexOf(list, p) < |list|
  {
  }

  lemma SurvivorsFacts(s: Sweep, stuck: set<Cidr>, list: seq<Drop>)
    ensures forall d :: d in Survivors(s, stuck, list) <==> d in list && !Lifted(s, stuck, d)
    ensures |Survivors(s, stuck, list)| <= |list|
    ensures UniqueKeys(list) ==> UniqueKeys(Survivors(s, stuck, list))
  {
    hide Lifted, UniqueKeys;
    if list != [] {
      var n := |list| - 1;
      var front, d := list[..n], list[n];
      assert list == front + [d];
      SurvivorsFacts(s, stuck, front);
      UniqueFront(front, d);
      UniqueMore(Survivors(s, stuck, front), d);
    }
  }

  lemma UniqueFront(front: seq<Drop>, d: Drop)
    ensures UniqueKeys([])
    ensures UniqueKeys(front + [d]) ==> UniqueKeys(front) && forall e | e in front :: e.cidr != d.cidr
  {
    if UniqueKeys(front + [d]) {
      forall i | 0 <= i < |front|
        ensures front[i].cidr != d.cidr
      {
        assert (front + [d])[i] == front[i] && (front + [d])[|front|] == d;
      }
      forall i, j | 0 <= i < j < |front|
        ensures front[i].cidr != front[j].cidr
      {
        assert (front + [d])[i] == front[i] && (front + [d])[j] == front[j];
      }
    }
  }

  lemma UniqueMore(list: seq<Drop>, d: Drop)
    ensures UniqueKeys(list) && (forall e | e in list :: e.cidr != d.cidr) ==> UniqueKeys(list + [d])
    ensures list + [] == list
  {
  }

  lemma FamilyBoundShrinks(keys: set<Cidr>, keys': set<Cidr>, f: Family)
    requires keys' <= keys
    ensures |OfFamily(keys', f)| <= |OfFamily(keys, f)|
  {
    SubsetSize(OfFamily(keys', f), OfFamily(keys, f));
  }

  lemma FamilyBoundGrows(maps: Maps, p: Cidr, dropMax: nat, f: Family)
    requires CanAdd(maps, p, dropMax)
    requires |OfFamily(maps.drops.Keys, f)| <= dropMax
    ensures |OfFamily(maps.drops.Keys + {p}, f)| <= dropMax
  {
    var k := maps.drops.Keys;
    if p in k || p.family != f {
      SubsetSize(OfFamily(k + {p}, f), OfFamily(k, f));
    } else {
      SubsetSize(OfFamily(k + {p}, f), OfFamily(k, f) + {p});
    }
  }

  // ---------------------------------------------------------------- one operation

  lemma WithKernelDropBound(g: Gate, p: Cidr, reason: Reason, now: int)
    requires CanAdd(g.maps, p, g.lim.dropMax)
    requires forall f :: |OfFamily(g.maps.drops.Keys, f)| <= g.lim.dropMax
    ensures var keys := WithKernelDrop(g, p, reason, now).maps.drops.Keys;
            keys == g.maps.drops.Keys + {p} && forall f :: |OfFamily(keys, f)| <= g.lim.dropMax
  {
    var keys := WithKernelDrop(g, p, reason, now).maps.drops.Keys;
    assert keys == g.maps.drops.Keys + {p};
    forall f
      ensures |OfFamily(keys, f)| <= g.lim.dropMax
    {
      FamilyBoundGrows(g.maps, p, g.lim.dropMax, f);
    }
  }

  lemma SameKeys(list: seq<Drop>, i: nat, d: Drop)
    requires i < |list| && d.cidr == list[i].cidr
    ensures Keys(list[i := d]) == Keys(list)
    ensures UniqueKeys(list) ==> UniqueKeys(list[i := d])
  {
    var l := list[i := d];
    forall c
      ensures c in Keys(l) <==> c in Keys(list)
    {
      if c in Keys(l) {
        var j :| 0 <= j < |l| && l[j].cidr == c;
        assert list[j] in list;
      }
      if c in Keys(list) {
        var j :| 0 <= j < |l| && list[j].cidr == c;
        assert l[j] in l;
      }
    }
  }

  lemma DropNewKeepsInv(g: Gate, p: Cidr, reason: Reason, expires: int, w: Write)
    requires Inv(g) && g.mode == Active && p !in Keys(g.list)
    ensures var g' := DropNew(g, p, reason, expires, w).0;
            Inv(g') && SameFrame(g, g') && g'.snaps == g.snaps
  {
    if w.ok && CanAdd(g.maps, p, g.lim.dropMax) {
      WithKernelDropBound(g, p, reason, w.now);
      var d := Drop(p, reason, w.now, expires);
      assert forall c | c in Keys(g.list + [d]) :: c in Keys(g.list) || c == p;
    }
  }

  lemma DropAgainKeepsInv(g: Gate, i: nat, p: Cidr, reason: Reason, expires: int, w: Write)
    requires Inv(g) && g.mode == Active && i < |g.list| && g.list[i].cidr == p
    ensures var g' := DropAgain(g, i, p, reason, expires, w).0;
            Inv(g') && SameFrame(g, g') && g'.snaps == g.snaps && Keys(g'.list) == Keys(g.list)
  {
    var g' := DropAgain(g, i, p, reason, expires, w).0;
    if g'.list != g.list {
      assert g'.list == g.list[i := g'.list[i]];
      SameKeys(g.list, i, g'.list[i]);
    }
    if w.ok && CanAdd(g.maps, p, g.lim.dropMax) {
      WithKernelDropBound(g, p, reason, w.now);
    }
  }

  lemma DropArmedKeepsInv(g: Gate, p: Cidr, reason: Reason, expires: int, w: Write)
    requires Inv(g) && g.mode == Active
    ensures var g' := DropArmed(g, p, reason, expires, w).0;
            Inv(g') && SameFrame(g, g') && g'.snaps == g.snaps
  {
    KeysHas(g.list, p);
    var i := IndexOf(g.list, p);
    if i == |g.list| {
      DropNewKeepsInv(g, p, reason, expires, w);
    } else {
      DropAgainKeepsInv(g, i, p, reason, expires, w);
    }
  }

  lemma DropAddKeepsInv(g: Gate, p: Cidr, reason: Reason, expires: int, armOk: bool, w: Write)
    requires Inv(g)
    ensures var g' := DropAdd(g, p, reason, expires, armOk, w).0;
            && Inv(g') && g'.lim == g.lim && g'.conf == g.conf
            && g'.maps.allow == g.maps.allow && g'.maps.local == g.maps.local
            && (g.mode == Active ==> SameFrame(g, g') && g'.snaps == g.snaps)
  {
    var (g1, armed) := Arm(g, armOk);
    if armed {
      DropArmedKeepsInv(g1, p, reason, expires, w);
    }
  }

  lemma DisarmKeepsInv(g: Gate, stuck: set<Cidr>, commitOk: bool)
    requires Inv(g)
    ensures Inv(Disarm(g, stuck, commitOk).0)
  {
    var g' := Disarm(g, stuck, commitOk).0;
    forall f
      ensures |OfFamily(g'.maps.drops.Keys, f)| <= g.lim.dropMax
    {
      FamilyBoundShrinks(g.maps.drops.Keys, g'.maps.drops.Keys, f);
    }
  }

  lemma SweepKeepsInv(g: Gate, s: Sweep, stuck: set<Cidr>)
    requires Inv(g)
    ensures var g' := SweepGate(g, s, stuck);
            Inv(g') && SameFrame(g, g') && g'.snaps == g.snaps
  {
    var g' := SweepGate(g, s, stuck);
    SurvivorsFacts(s, stuck, g.list);
    forall c | c in Keys(g'.list)
      ensures c in g'.maps.drops
    {
      var d :| d in g'.list && d.cidr == c;
      assert c in Keys(g.list);
    }
    forall f
      ensures |OfFamily(g'.maps.drops.Keys, f)| <= g.lim.dropMax
    {
      FamilyBoundShrinks(g.maps.drops.Keys, g'.maps.drops.Keys, f);
    }
  }

  lemma RemovedOne(list: seq<Drop>, i: nat)
    requires UniqueKeys(list) && i < |list|
    ensures UniqueKeys(list[..i] + list[i + 1..])
    ensures Keys(list[..i] + list[i + 1..]) == Keys(list) - {list[i].cidr}
  {
  }

  lemma UndropKeepsInv(g: Gate, p: Cidr, delOk: bool)
    requires Inv(g)
    ensures var g' := Undrop(g, p, delOk).0; Inv(g') && SameFrame(g, g') && g'.snaps == g.snaps
  {
    hide OfFamily, IndexOf;
    var g' := Undrop(g, p, delOk).0;
    var i := IndexOf(g.list, p);
    KeysHas(g.list, p);
    if delOk && i < |g.list| {
      RemovedOne(g.list, i);
    }
    forall f
      ensures |OfFamily(g'.maps.drops.Keys, f)| <= g.lim.dropMax
    {
      FamilyBoundShrinks(g.maps.drops.Keys, g'.maps.drops.Keys, f);
    }
  }

  lemma VisitKeepsInv(g: Gate, v: Visit, dt: real)
    requires Inv(g) && g.mode == Active && g.snaps.gen >= 1
    ensures var g' := PolicyVisit(g, v, dt);
            Inv(g') && SameFrame(g, g') && g'.snaps == Snapshot(g, v).snaps
  {
    var g1 := Snapshot(g, v);
    assert Inv(g1);
    DropAddKeepsInv(g1, HostCidr(v.host), Policy, 0, true, v.drop);
    var g2 := DropAdd(g1, HostCidr(v.host), Policy, 0, true, v.drop).0;
    DropAddKeepsInv(g2, Widen(HostCidr(v.host)), Aggregate, 0, true, v.widen);
  }

  lemma VisitsKeepInv(g: Gate, vs: seq<Visit>, dt: real)
    requires Inv(g) && g.mode == Active && g.snaps.gen >= 1
    ensures var g' := Visits(g, vs, dt);
            Inv(g') && SameFrame(g, g') && g'.snaps.gen == g.snaps.gen
  {
    if vs != [] {
      var n := |vs| - 1;
      VisitsKeepInv(g, vs[..n], dt);
      VisitKeepsInv(Visits(g, vs[..n], dt), vs[n], dt);
    }
  }

  lemma WalkKeepsInv(g: Gate, vs: seq<Visit>, complete: bool, dt: real)
    requires Inv(g) && g.mode == Active
    ensures var g' := Walk(g, vs, complete, dt); Inv(g') && SameFrame(g, g')
  {
    var g0 := g.(snaps := NextGen(g.snaps));
    VisitsKeepInv(g0, vs, dt);
    var s := Visits(g0, vs, dt).snaps;
    SubsetSize(PruneSnaps(s).tab.Keys, s.tab.Keys);
  }

  lemma WalkAndExpireKeepsInv(g: Gate, t: TickInput, dt: real)
    requires Inv(g) && g.mode == Active
    ensures var g' := WalkAndExpire(g, t, dt); Inv(g') && SameFrame(g, g')
  {
    WalkKeepsInv(g, t.visits, t.complete, dt);
    SweepKeepsInv(Walk(g, t.visits, t.complete, dt), Expire(t.expireNow, g.conf.banTime), t.stuck);
  }

  lemma SettleKeepsInv(g: Gate, t: TickInput)
    requires Inv(g) && g.mode == Active
    ensures Inv(Settle(g, t)) && Settle(g, t).lim == g.lim
  {
    DisarmKeepsInv(g.(quietSince := QuietMark(g, t)), t.flushStuck, t.commitOk);
  }

  lemma TickKeepsInv(g: Gate, t: TickInput)
    requires Inv(g)
    ensures Inv(Tick(g, t)) && Tick(g, t).lim == g.lim
  {
    var dt := Dt(g.meter, t.mono);
    var g1 := g.(meter := Measure(g.meter, t));
    assert Inv(g1);
    if Evaluated(g.meter, t) && g.mode == Active {
      WalkAndExpireKeepsInv(g1, t, dt);
      SettleKeepsInv(WalkAndExpire(g1, t, dt), t);
    }
  }

  lemma StepKeepsInv(g: Gate, e: Event)
    requires Inv(g)
    ensures Inv(Step(g, e)) && Step(g, e).lim == g.lim
  {
    match e
    case DropCmd(p, reason, expires, armOk, w) => DropAddKeepsInv(g, p, reason, expires, armOk, w);
    case UndropCmd(p, delOk) => UndropKeepsInv(g, p, delOk);
    case ArmCmd(armOk) =>
    case DisarmCmd(stuck, commitOk) => DisarmKeepsInv(g, stuck, commitOk);
    case ReloadCmd(conf, stuck, commitOk, allow, local) => SweepKeepsInv(g.(conf := conf), Prune(conf), stuck);
    case TickEvent(t) => TickKeepsInv(g, t);
  }

  /**
   Every run, whatever fails in it: no prefix is listed twice, every listed prefix
   is in the kernel drop map, the maps and pools stay within their sizes, the kernel
   armed flag is the state, and only an active gate lists anything.
   */
  lemma {:induction false} RunKeepsInv(g: Gate, es: seq<Event>)
    requires Inv(g)
    ensures Inv(Run(g, es)) && Run(g, es).lim == g.lim
  {
    if es != [] {
      var n := |es| - 1;
      RunKeepsInv(g, es[..n]);
      StepKeepsInv(Run(g, es[..n]), es[n]);
    }
  }

  lemma InitInv(lim: Limits, conf: Config, lost: set<Cidr>)
    ensures Inv(Init(lim, conf, lost))
  {
  }

  /**
   Every state a run from start-up can reach, with any kernel failures on the way: each
   prefix is listed once and is in the kernel drop map; lists and maps are within their
   sizes; the kernel armed flag is set exactly when the gate is active; and a gate that
   lists anything is active.
   */
  lemma EveryReachableState(lim: Limits, conf: Config, lost: set<Cidr>, es: seq<Event>)
    ensures var g := Run(Init(lim, conf, lost), es);
            && UniqueKeys(g.list) && Keys(g.list) <= g.maps.drops.Keys
            && |g.list| <= lim.poolCap && |g.snaps.tab| <= lim.snapCap
            && (forall f :: |OfFamily(g.maps.drops.Keys, f)| <= lim.dropMax)
            && (g.maps.cfg.armed <==> g.mode == Active)
            && (g.list != [] ==> g.mode == Active)
  {
    InitInv(lim, conf, lost);
    RunKeepsInv(Init(lim, conf, lost), es);
  }

  // ---------------------------------------------------------------- one record per address set

  ghost predicate CanonicalList(list: seq<Drop>) {
    forall d | d in list :: Canonical(d.cidr)
  }

  /** Prefixes arrive parsed, hence masked. */
  ghost predicate CanonicalEvent(e: Event) {
    e.DropCmd? ==> Canonical(e.p)
  }

  lemma DropAddKeepsCanonical(g: Gate, p: Cidr, reason: Reason, expires: int, armOk: bool, w: Write)
    requires CanonicalList(g.list) && Canonical(p)
    ensures CanonicalList(DropAdd(g, p, reason, expires, armOk, w).0.list)
  {
    hide Canonical, Protected, CanAdd;
  }

  lemma VisitKeepsCanonical(g: Gate, v: Visit, dt: real)
    requires CanonicalList(g.list)
    ensures CanonicalList(PolicyVisit(g, v, dt).list)
  {
    hide CanonicalList, DropAdd, Triggers, WantsWidening;
    var p, g1 := HostCidr(v.host), Snapshot(g, v);
    HostIsCanonical(v.host);
    MaskKeepsAddresses(RawCidr(p.family, p.addr, if p.family == V4 then 24 else 64));
    DropAddKeepsCanonical(g1, p, Policy, 0, true, v.drop);
    DropAddKeepsCanonical(DropAdd(g1, p, Policy, 0, true, v.drop).0, Widen(p), Aggregate, 0, true, v.widen);
  }

  lemma HostIsCanonical(h: Host)
    ensures Canonical(HostCidr(h))
  {
  }

  lemma {:induction false} VisitsKeepCanonical(g: Gate, vs: seq<Visit>, dt: real)
    requires CanonicalList(g.list)
    ensures CanonicalList(Visits(g, vs, dt).list)
  {
    hide CanonicalList, PolicyVisit;
    if vs != [] {
      VisitsKeepCanonical(g, vs[..|vs| - 1], dt);
      VisitKeepsCanonical(Visits(g, vs[..|vs| - 1], dt), vs[|vs| - 1], dt);
    }
  }

  lemma SweepKeepsCanonical(g: Gate, s: Sweep, stuck: set<Cidr>)
    requires CanonicalList(g.list)
    ensures CanonicalList(SweepGate(g, s, stuck).list)
  {
    hide Canonical, Lifted;
    SurvivorsFacts(s, stuck, g.list);
  }

  lemma StepKeepsCanonical(g: Gate, e: Event)
    requires CanonicalList(g.list) && CanonicalEvent(e)
    ensures CanonicalList(Step(g, e).list)
  {
    hide Canonical, DropAdd, Visits, SweepGate, Measure;
    match e
    case DropCmd(p, reason, expires, armOk, w) => DropAddKeepsCanonical(g, p, reason, expires, armOk, w);
    case UndropCmd(p, delOk) =>
    case ArmCmd(armOk) =>
    case DisarmCmd(stuck, commitOk) =>
    case ReloadCmd(conf, stuck, commitOk, allow, local) => SweepKeepsCanonical(g.(conf := conf), Prune(conf), stuck);
    case TickEvent(t) =>
      var g1, dt := g.(meter := Measure(g.meter, t)), Dt(g.meter, t.mono);
      VisitsKeepCanonical(g1.(snaps := NextGen(g1.snaps)), t.visits, dt);
      SweepKeepsCanonical(Walk(g1, t.visits, t.complete, dt), Expire(t.expireNow, g.conf.banTime), t.stuck);
  }

  /** When every prefix arrives masked, no run lists two records with the same address set. */
  lemma {:induction false} OneRecordPerAddressSet(g: Gate, es: seq<Event>, i: nat, j: nat)
    requires Inv(g) && CanonicalList(g.list) && forall e | e in es :: CanonicalEvent(e)
    ensures CanonicalList(Run(g, es).list)
    ensures var list := Run(g, es).list;
            i < j < |list| ==> Addresses(list[i].cidr) != Addresses(list[j].cidr)
  {
    hide Canonical, Step, ListInv, SnapInv;
    RunKeepsInv(g, es);
    if es != [] {
      var n := |es| - 1;
      assert CanonicalEvent(es[n]);
      OneRecordPerAddressSet(g, es[..n], i, j);
      StepKeepsCanonical(Run(g, es[..n]), es[n]);
    }
    var list := Run(g, es).list;
    if i < j < |list| {
      UniqueAt(Run(g, es), i, j);
      CanonicalIsUnique(list[i].cidr, list[j].cidr);
    }
  }

  lemma UniqueAt(g: Gate, i: nat, j: nat)
    requires Inv(g) && i < j < |g.list|
    ensures g.list[i].cidr != g.list[j].cidr
  {
  }
}
