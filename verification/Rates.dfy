/**
 The policy: what justifies a policy drop, what the snapshots remember between walks,
 and what widening a drop rests on.
 */
module Rates {
  import opened Cidrs
  import opened KernelState
  import opened GateModel
  import opened GateSafety
  import opened Quiet
  import opened Widening

  // ---------------------------------------------------------------- what a run has seen

  datatype Counters = Counters(pkts: nat, bytes: nat)

  function SeenVisits(seen: map<Host, Counters>, vs: seq<Visit>): map<Host, Counters> {
    if vs == [] then seen
    else
      var v := vs[|vs| - 1];
      SeenVisits(seen, vs[..|vs| - 1])[v.host := Counters(v.pkts, v.bytes)]
  }

  /** What has been seen since the last arm, after event e. */
  function SeenStep(g: Gate, e: Event, seen: map<Host, Counters>): map<Host, Counters> {
    if g.mode == Idle && Step(g, e).mode == Active then map[]
    else if g.mode == Active && e.TickEvent? && Evaluated(g.meter, e.t) then SeenVisits(seen, e.t.visits)
    else seen
  }

  /** The counters each remote had at its last visit since the gate was last armed. */
  function Seen(g0: Gate, es: seq<Event>): map<Host, Counters> {
    if es == [] then map[]
    else SeenStep(Run(g0, es[..|es| - 1]), es[|es| - 1], Seen(g0, es[..|es| - 1]))
  }

  /** Every snapshot holds what its remote showed at its last visit. */
  ghost predicate Remembers(tab: map<Host, Snap>, seen: map<Host, Counters>) {
    forall h | h in tab :: h in seen && seen[h] == Counters(tab[h].pkts, tab[h].bytes)
  }

  lemma VisitsRemember(g: Gate, vs: seq<Visit>, dt: real, seen: map<Host, Counters>)
    requires Inv(g) && g.mode == Active && g.snaps.gen >= 1 && Remembers(g.snaps.tab, seen)
    ensures Remembers(Visits(g, vs, dt).snaps.tab, SeenVisits(seen, vs))
  {
    if vs != [] {
      var n := |vs| - 1;
      VisitsKeepInv(g, vs[..n], dt);
      VisitsRemember(g, vs[..n], dt, seen);
      VisitKeepsInv(Visits(g, vs[..n], dt), vs[n], dt);
    }
  }

  /** Only a walk or an arm touches the snapshot table. */
  lemma OtherStepsKeepSnaps(g: Gate, e: Event)
    requires Inv(g) && !(g.mode == Active && EvaluatedTick(g, e))
    ensures Step(g, e).snaps.tab == g.snaps.tab || Step(g, e).snaps.tab == map[]
    ensures g.mode == Idle && Step(g, e).mode == Active ==> Step(g, e).snaps.tab == map[]
  {
    match e
    case DropCmd(p, reason, expires, armOk, w) =>
      if !Protected(g.conf, p) && Arm(g, armOk).1 {
        DropArmedKeepsInv(Arm(g, armOk).0, p, reason, expires, w);
      }
    case UndropCmd(p, delOk) =>
    case ArmCmd(armOk) =>
    case DisarmCmd(stuck, commitOk) =>
    case ReloadCmd(conf, stuck, commitOk, allow, local) =>
    case TickEvent(t) =>
  }

  /** After the walk, the rest of a tick leaves the snapshots alone. */
  lemma TickSnaps(g: Gate, t: TickInput)
    requires g.mode == Active && Evaluated(g.meter, t)
    ensures var g1 := g.(meter := Measure(g.meter, t));
            Tick(g, t).snaps == Walk(g1, t.visits, t.complete, Dt(g.meter, t.mono)).snaps
  {
  }

  lemma WalkRemembers(g: Gate, vs: seq<Visit>, complete: bool, dt: real, seen: map<Host, Counters>)
    requires Inv(g) && g.mode == Active && Remembers(g.snaps.tab, seen)
    ensures Remembers(Walk(g, vs, complete, dt).snaps.tab, SeenVisits(seen, vs))
  {
    hide ListInv, SeenVisits, Visits;
    var g2 := g.(snaps := NextGen(g.snaps));
    assert Inv(g2);
    VisitsRemember(g2, vs, dt, seen);
  }

  lemma TickRemembers(g: Gate, t: TickInput, seen: map<Host, Counters>)
    requires Inv(g) && g.mode == Active && Evaluated(g.meter, t) && Remembers(g.snaps.tab, seen)
    ensures Remembers(Tick(g, t).snaps.tab, SeenVisits(seen, t.visits))
  {
    hide Tick, Walk, SeenVisits;
    var g1 := g.(meter := Measure(g.meter, t));
    assert Inv(g1);
    WalkRemembers(g1, t.visits, t.complete, Dt(g.meter, t.mono), seen);
    TickSnaps(g, t);
  }

  lemma StepRemembers(g: Gate, e: Event, seen: map<Host, Counters>)
    requires Inv(g) && Remembers(g.snaps.tab, seen)
    ensures Remembers(Step(g, e).snaps.tab, SeenStep(g, e, seen))
  {
    if g.mode == Active && EvaluatedTick(g, e) {
      TickRemembers(g, e.t, seen);
    } else {
      OtherStepsKeepSnaps(g, e);
    }
  }

  lemma {:induction false} RunRemembers(g0: Gate, es: seq<Event>)
    requires Inv(g0) && g0.snaps.tab == map[]
    ensures Remembers(Run(g0, es).snaps.tab, Seen(g0, es))
  {
    if es != [] {
      var n := |es| - 1;
      RunRemembers(g0, es[..n]);
      RunKeepsInv(g0, es[..n]);
      StepRemembers(Run(g0, es[..n]), es[n], Seen(g0, es[..n]));
    }
  }

  // ---------------------------------------------------------------- justification

  /** More packets or bits since `last`, by at least a threshold times dt; a counter that went back has not grown. */
  predicate Justified(conf: Config, v: Visit, last: Counters, dt: real) {
    || (if v.pkts >= last.pkts then v.pkts - last.pkts else 0) as real >= conf.thresholdPps as real * dt
    || (if v.bytes >= last.bytes then v.bytes - last.bytes else 0) as real * 8.0 >= conf.thresholdMbps as real * 1000000.0 * dt
  }

  /** The snapshot test is the justification, relative to the snapshot. */
  lemma TriggersIsJustified(g: Gate, v: Visit, dt: real)
    requires dt > 0.0 && v.host in g.snaps.tab
    ensures var s := g.snaps.tab[v.host];
            Triggers(g, v, dt) <==> Justified(g.conf, v, Counters(s.pkts, s.bytes), dt)
  {
  }

  /** The state in which tick k of a run meets its i-th visit. */
  function BeforeVisit(g: Gate, t: TickInput, i: nat): Gate
    requires i <= |t.visits|
  {
    Visits(g.(meter := Measure(g.meter, t), snaps := NextGen(g.snaps)), t.visits[..i], Dt(g.meter, t.mono))
  }

  lemma VisitIsJustified(g: Gate, v: Visit, dt: real, seen: map<Host, Counters>)
    requires dt > 0.0 && Remembers(g.snaps.tab, seen)
    requires PolicyVisit(g, v, dt).list != g.list || PolicyVisit(g, v, dt).maps != g.maps
    ensures v.host in seen && Justified(g.conf, v, seen[v.host], dt)
  {
    assert Triggers(g, v, dt);
    TriggersIsJustified(g, v, dt);
  }

  /**
   In every run, a visit that changes the list or the drop maps is of a remote visited
   before, since the gate was last armed, whose packets or bits grew since that visit by
   at least the threshold times the tick interval.
   */
  lemma PolicyDropIsJustified(g0: Gate, es: seq<Event>, k: nat, i: nat)
    requires Inv(g0) && g0.snaps.tab == map[]
    requires k < |es| && At(g0, es, k).mode == Active && EvaluatedTick(At(g0, es, k), es[k])
    requires i < |es[k].t.visits|
    ensures var g := At(g0, es, k); var t := es[k].t; var dt := Dt(g.meter, t.mono); var v := t.visits[i];
            var before := BeforeVisit(g, t, i);
            var after := PolicyVisit(before, v, dt);
            var seen := SeenVisits(Seen(g0, es[..k]), t.visits[..i]);
            (after.list != before.list || after.maps != before.maps) ==>
              v.host in seen && Justified(g.conf, v, seen[v.host], dt)
  {
    var g, t := At(g0, es, k), es[k].t;
    var dt, v := Dt(g.meter, t.mono), t.visits[i];
    RunKeepsInv(g0, es[..k]);
    RunRemembers(g0, es[..k]);
    BeforeVisitFacts(g, t, i, Seen(g0, es[..k]));
    var before := BeforeVisit(g, t, i);
    var after := PolicyVisit(before, v, dt);
    if after.list != before.list || after.maps != before.maps {
      VisitIsJustified(before, v, dt, SeenVisits(Seen(g0, es[..k]), t.visits[..i]));
    }
  }

  lemma BeforeVisitFacts(g: Gate, t: TickInput, i: nat, seen: map<Host, Counters>)
    requires Inv(g) && g.mode == Active && Remembers(g.snaps.tab, seen) && i <= |t.visits|
    ensures BeforeVisit(g, t, i).conf == g.conf
    ensures Remembers(BeforeVisit(g, t, i).snaps.tab, SeenVisits(seen, t.visits[..i]))
  {
    var g2 := g.(meter := Measure(g.meter, t), snaps := NextGen(g.snaps));
    assert Inv(g2);
    VisitsRemember(g2, t.visits[..i], Dt(g.meter, t.mono), seen);
    VisitsKeepInv(g2, t.visits[..i], Dt(g.meter, t.mono));
  }

  /** A remote whose counters have not moved since its last visit is left alone, unless a threshold is zero. */
  lemma SteadyRemoteIsLeftAlone(g: Gate, v: Visit, dt: real)
    requires g.conf.thresholdPps > 0 && g.conf.thresholdMbps > 0
    requires v.host in g.snaps.tab && g.snaps.tab[v.host].pkts == v.pkts && g.snaps.tab[v.host].bytes == v.bytes
    ensures PolicyVisit(g, v, dt).list == g.list && PolicyVisit(g, v, dt).maps == g.maps
  {
  }

  /**
   A justified remote is dropped: the host has a record afterwards unless it is protected,
   there is no room, or the write fails; and so has the net around it, if then at least
   `aggregate_k` listed non-timed prefixes lie inside it.
   */
  lemma FloodIsDropped(g: Gate, v: Visit, dt: real)
    requires Inv(g) && g.mode == Active && dt > 0.0 && v.host in g.snaps.tab
    requires var s := g.snaps.tab[v.host]; Justified(g.conf, v, Counters(s.pkts, s.bytes), dt)
    requires var p := HostCidr(v.host); v.drop.ok && !Protected(g.conf, p) && (p in Keys(g.list) || Takes(g, p, true))
    ensures HostCidr(v.host) in Keys(PolicyVisit(g, v, dt).list)
    ensures var p := HostCidr(v.host); var net := Widen(p); var g2 := DropAdd(Snapshot(g, v), p, Policy, 0, true, v.drop).0;
            |Inside(g2.list, net)| >= g.conf.aggregateK && (net in Keys(g2.list) || Takes(g2, net, v.widen.ok)) ==>
              net in Keys(PolicyVisit(g, v, dt).list)
  {
    TriggersIsJustified(g, v, dt);
    var p, net, g1 := HostCidr(v.host), Widen(HostCidr(v.host)), Snapshot(g, v);
    assert Inv(g1) && Takes(g1, p, v.drop.ok) == Takes(g, p, v.drop.ok);
    hide Triggers, Protected, Takes, Justified, DropAdd, MaybeAggregate, Widen, Inside, Inv;
    DropsExactly(g1, p, Policy, v.drop);
    var (g2, ok) := DropAdd(g1, p, Policy, 0, true, v.drop);
    WidensExactly(g2, p, v.widen);
    assert PolicyVisit(g, v, dt) == MaybeAggregate(g2, p, v.widen);
    assert g2.list <= MaybeAggregate(g2, p, v.widen).list;
    KeysGrow(g2.list, MaybeAggregate(g2, p, v.widen).list);
  }

  lemma KeysGrow(list: seq<Drop>, list': seq<Drop>)
    requires list <= list'
    ensures Keys(list) <= Keys(list')
  {
  }

  // ---------------------------------------------------------------- the first walk

  predicate Visited(vs: seq<Visit>, h: Host) {
    exists i | 0 <= i < |vs| :: vs[i].host == h
  }

  lemma VisitedLast(vs: seq<Visit>, h: Host)
    requires vs != []
    ensures Visited(vs, h) <==> Visited(vs[..|vs| - 1], h) || vs[|vs| - 1].host == h
  {
  }

  predicate DistinctHosts(vs: seq<Visit>) {
    forall i, j | 0 <= i < j < |vs| :: vs[i].host != vs[j].host
  }

  /** Against an empty table every remote of a walk is a baseline. */
  lemma {:induction false} BaselineWalk(g: Gate, vs: seq<Visit>, dt: real)
    requires DistinctHosts(vs) && forall i | 0 <= i < |vs| :: vs[i].host !in g.snaps.tab
    ensures Visits(g, vs, dt).list == g.list && Visits(g, vs, dt).maps == g.maps
    ensures forall h | h in Visits(g, vs, dt).snaps.tab :: h in g.snaps.tab || Visited(vs, h)
  {
    if vs != [] {
      var n := |vs| - 1;
      BaselineWalk(g, vs[..n], dt);
      forall h
        ensures Visited(vs, h) <==> Visited(vs[..n], h) || vs[n].host == h
      {
        VisitedLast(vs, h);
      }
      assert !Visited(vs[..n], vs[n].host);
    }
  }

  ghost predicate Walks(g: Gate, e: Event) {
    g.mode == Active && EvaluatedTick(g, e)
  }

  ghost predicate NoWalk(g0: Gate, es: seq<Event>, i: nat, k: nat)
    requires k <= |es|
  {
    forall j: nat | i <= j < k :: !Walks(At(g0, es, j), es[j])
  }

  lemma {:induction false} TableStaysEmpty(g0: Gate, es: seq<Event>, i: nat, k: nat)
    requires Inv(g0) && i <= k <= |es| && At(g0, es, i).snaps.tab == map[]
    requires NoWalk(g0, es, i, k)
    ensures At(g0, es, k).snaps.tab == map[]
  {
    if i < k {
      assert !Walks(At(g0, es, k - 1), es[k - 1]) && NoWalk(g0, es, i, k - 1);
      TableStaysEmpty(g0, es, i, k - 1);
      AtInv(g0, es, k - 1);
      LastStep(g0, es, k - 1);
      StaysEmptyStep(At(g0, es, k - 1), es[k - 1]);
    }
  }

  lemma StaysEmptyStep(g: Gate, e: Event)
    requires Inv(g) && !Walks(g, e) && g.snaps.tab == map[]
    ensures Step(g, e).snaps.tab == map[]
  {
    OtherStepsKeepSnaps(g, e);
  }

  /**
   The first walk after the gate is armed drops nothing, whatever counters are left in
   the remote maps from earlier attacks.
   */
  lemma FirstWalkDropsNothing(g0: Gate, es: seq<Event>, i: nat, k: nat)
    requires Inv(g0) && i < k < |es|
    requires At(g0, es, i).mode == Idle && At(g0, es, i + 1).mode == Active
    requires NoWalk(g0, es, i + 1, k)
    requires es[k].TickEvent? && DistinctHosts(es[k].t.visits)
    ensures var g := At(g0, es, k); var t := es[k].t;
            Walk(g, t.visits, t.complete, Dt(g.meter, t.mono)).list == g.list &&
            Walk(g, t.visits, t.complete, Dt(g.meter, t.mono)).maps == g.maps
  {
    var g, t := At(g0, es, k), es[k].t;
    RunKeepsInv(g0, es[..i]);
    LastStep(g0, es, i);
    OtherStepsKeepSnaps(At(g0, es, i), es[i]);
    TableStaysEmpty(g0, es, i + 1, k);
    BaselineWalk(g.(snaps := NextGen(g.snaps)), t.visits, Dt(g.meter, t.mono));
  }

  // ---------------------------------------------------------------- what a walk leaves behind

  /** No entry looks current before the walk has visited it, wrap-around included. */
  lemma NothingCurrentAtStart(lim: Limits, s: Snaps)
    requires SnapInv(lim, s)
    ensures SnapInv(lim, NextGen(s)) && NextGen(s).gen >= 1
    ensures forall h | h in NextGen(s).tab :: NextGen(s).tab[h].gen != NextGen(s).gen
  {
  }

  /** Exactly the visited entries carry the walk's generation. */
  ghost predicate Marked(s: Snaps, vs: seq<Visit>) {
    forall h | h in s.tab :: s.tab[h].gen == s.gen <==> Visited(vs, h)
  }

  lemma SnapshotMarks(g: Gate, vs: seq<Visit>)
    requires vs != [] && Marked(g.snaps, vs[..|vs| - 1])
    ensures var s := Snapshot(g, vs[|vs| - 1]).snaps;
            Marked(s, vs) && s.gen == g.snaps.gen && g.snaps.tab.Keys <= s.tab.Keys
  {
  }

  lemma {:induction false} VisitsMark(g: Gate, vs: seq<Visit>, dt: real)
    requires Inv(g) && g.mode == Active && g.snaps.gen >= 1
    requires forall h | h in g.snaps.tab :: g.snaps.tab[h].gen != g.snaps.gen
    ensures var s := Visits(g, vs, dt).snaps;
            Marked(s, vs) && s.gen == g.snaps.gen && g.snaps.tab.Keys <= s.tab.Keys
  {
    if vs != [] {
      var n := |vs| - 1;
      var g1 := Visits(g, vs[..n], dt);
      VisitsMark(g, vs[..n], dt);
      VisitsKeepInv(g, vs[..n], dt);
      VisitKeepsInv(g1, vs[n], dt);
      SnapshotMarks(g1, vs);
    }
  }

  /** Which remotes have an entry after the visits: first come, first served, while the pool has room. */
  function Admitted(keys: set<Host>, vs: seq<Visit>, cap: nat): set<Host> {
    if vs == [] then keys
    else
      var a := Admitted(keys, vs[..|vs| - 1], cap);
      if |a| < cap then a + {vs[|vs| - 1].host} else a
  }

  /** Nobody is turned out, nobody gets in unvisited, and with room left everybody visited is in. */
  lemma {:induction false} AdmittedFacts(keys: set<Host>, vs: seq<Visit>, cap: nat)
    ensures keys <= Admitted(keys, vs, cap)
    ensures forall h | h in Admitted(keys, vs, cap) :: h in keys || Visited(vs, h)
    ensures |Admitted(keys, vs, cap)| < cap ==> forall h | Visited(vs, h) :: h in Admitted(keys, vs, cap)
  {
    hide Visited;
    if vs == [] {
      NobodyVisited();
    } else {
      AdmittedFacts(keys, vs[..|vs| - 1], cap);
      forall h
        ensures Visited(vs, h) <==> Visited(vs[..|vs| - 1], h) || vs[|vs| - 1].host == h
      {
        VisitedLast(vs, h);
      }
    }
  }

  lemma NobodyVisited()
    ensures forall h :: !Visited([], h)
  {
  }

  lemma {:induction false} VisitsAdmit(g: Gate, vs: seq<Visit>, dt: real)
    requires Inv(g) && g.mode == Active && g.snaps.gen >= 1
    ensures Visits(g, vs, dt).snaps.tab.Keys == Admitted(g.snaps.tab.Keys, vs, g.lim.snapCap)
  {
    hide PolicyVisit, Inv;
    if vs != [] {
      var n := |vs| - 1;
      var g1 := Visits(g, vs[..n], dt);
      VisitsAdmit(g, vs[..n], dt);
      VisitsKeepInv(g, vs[..n], dt);
      VisitKeepsInv(g1, vs[n], dt);
      SnapshotAdmits(g1, vs[n]);
    }
  }

  lemma SnapshotAdmits(g: Gate, v: Visit)
    requires Inv(g)
    ensures Snapshot(g, v).snaps.tab.Keys ==
            if |g.snaps.tab.Keys| < g.lim.snapCap then g.snaps.tab.Keys + {v.host} else g.snaps.tab.Keys
  {
    assert |g.snaps.tab| == |g.snaps.tab.Keys|;
  }

  /**
   The remotes with an entry after a walk, exactly: a truncated walk leaves those it
   started with and those it admitted; a complete one leaves those of them it visited,
   which is everybody it visited as long as the pool has room.
   */
  lemma WalkKeepsOrForgets(g: Gate, vs: seq<Visit>, complete: bool, dt: real)
    requires Inv(g) && g.mode == Active
    ensures var keys := Walk(g, vs, complete, dt).snaps.tab.Keys;
            var all := Admitted(NextGen(g.snaps).tab.Keys, vs, g.lim.snapCap);
            && (!complete ==> keys == all)
            && (complete ==> forall h :: h in keys <==> h in all && Visited(vs, h))
            && (complete && |all| < g.lim.snapCap ==> forall h :: h in keys <==> Visited(vs, h))
  {
    hide Visits, Inv, Visited, Admitted;
    var g0 := g.(snaps := NextGen(g.snaps));
    StartOfWalk(g);
    VisitsMark(g0, vs, dt);
    VisitsAdmit(g0, vs, dt);
    AdmittedFacts(g0.snaps.tab.Keys, vs, g.lim.snapCap);
  }

  /**
   When a truncated walk loses no entry: exactly when its generation does not wrap to
   zero, or the walk admits every remote that had an entry anew.  With room left in the
   pool that means it visits them all.
   */
  lemma TruncatedLosesNothingExactly(g: Gate, vs: seq<Visit>, dt: real)
    requires Inv(g) && g.mode == Active
    ensures var anew := Admitted({}, vs, g.lim.snapCap);
            && (g.snaps.tab.Keys <= Walk(g, vs, false, dt).snaps.tab.Keys <==>
                g.snaps.gen + 1 < TWO32 || g.snaps.tab.Keys <= anew)
            && (|anew| < g.lim.snapCap ==>
                  (g.snaps.tab.Keys <= anew <==> forall h | h in g.snaps.tab :: Visited(vs, h)))
  {
    hide Visits, Inv, Visited, Admitted, Walk;
    WalkKeepsOrForgets(g, vs, false, dt);
    StartOfWalk(g);
    AdmittedFacts(g.snaps.tab.Keys, vs, g.lim.snapCap);
    AdmittedFacts({}, vs, g.lim.snapCap);
    assert NextGen(g.snaps).tab.Keys == if g.snaps.gen + 1 < TWO32 then g.snaps.tab.Keys else {};
  }

  // A run that loses an entry: arm, then a tick a second that finds one silent remote, until
  // the generation is about to wrap; then a truncated walk that finds nobody.

  const CALM := Config(1, 1, 1, 1, 1, 0, 1, [], [], [])

  function CalmTick(k: nat, vs: seq<Visit>): Event {
    TickEvent(TickInput(k as real, Some(Metrics(0, 0)), true, vs, false, 0, {}, 1, 1, {}, true))
  }

  function Silent(h: Host): Visit {
    Visit(h, 0, 0, Write(0, true), Write(0, true))
  }

  /** The gate k seconds after it was armed. */
  function CalmGate(lim: Limits, h: Host, k: nat): Gate {
    Gate(lim, Active, CALM, [], Maps(Committed(true, CALM), map[], {}, {}), if k == 0 then 0 else 1,
         Snaps(if k == 0 then map[] else map[h := Snap(0, 0, k)], k), Meter(Some(k as real), Some(Metrics(0, 0)), 0.0, 0.0))
  }

  function CalmEvents(h: Host, k: nat): seq<Event> {
    if k == 0 then [ArmCmd(true), CalmTick(0, [])]
    else CalmEvents(h, k - 1) + [CalmTick(k, [Silent(h)])]
  }

  lemma CalmVisit(g: Gate, v: Visit, k: nat)
    requires g.conf == CALM && g.lim.snapCap > 0 && v.pkts == 0 == v.bytes
    requires g.snaps == Snaps(if k == 0 then map[] else map[v.host := Snap(0, 0, k)], k + 1)
    ensures Visits(g, [v], 1.0) == g.(snaps := Snaps(map[v.host := Snap(0, 0, k + 1)], k + 1))
  {
    hide DropAdd, MaybeAggregate;
    assert [v][..0] == [];
    assert Visits(g, [v], 1.0) == PolicyVisit(g, v, 1.0);
    assert g.snaps.tab[v.host := Snap(0, 0, k + 1)] == map[v.host := Snap(0, 0, k + 1)];
    assert !Triggers(g, v, 1.0);
  }

  lemma CalmStep(lim: Limits, h: Host, k: nat)
    requires k + 1 < TWO32 && lim.snapCap > 0
    ensures Step(CalmGate(lim, h, k), CalmTick(k + 1, [Silent(h)])) == CalmGate(lim, h, k + 1)
  {
    hide Visits, Disarm, Committed;
    var g, t := CalmGate(lim, h, k), CalmTick(k + 1, [Silent(h)]).t;
    var g1 := g.(meter := Measure(g.meter, t));
    assert Dt(g.meter, t.mono) == 1.0;
    CalmVisit(g1.(snaps := NextGen(g.snaps)), Silent(h), k);
    var g2 := g1.(snaps := Snaps(map[h := Snap(0, 0, k + 1)], k + 1));
    assert Walk(g1, [Silent(h)], false, 1.0) == g2;
    assert WalkAndExpire(g1, t, 1.0) == g2;
  }

  lemma CalmStart(lim: Limits, h: Host)
    ensures Run(Init(lim, CALM, {}), [ArmCmd(true), CalmTick(0, [])]) == CalmGate(lim, h, 0)
  {
    hide Committed, WalkAndExpire;
    var g := Init(lim, CALM, {});
    assert Run(g, []) == g;
    assert [ArmCmd(true), CalmTick(0, [])][..1] == [ArmCmd(true)] && [ArmCmd(true)][..0] == [];
    assert Run(g, [ArmCmd(true)]) == Arm(g, true).0;
  }

  lemma {:induction false} CalmRun(lim: Limits, h: Host, k: nat)
    requires k < TWO32 && lim.snapCap > 0
    ensures Run(Init(lim, CALM, {}), CalmEvents(h, k)) == CalmGate(lim, h, k)
  {
    hide Step, Init, CalmGate;
    if k == 0 {
      CalmStart(lim, h);
    } else {
      CalmRun(lim, h, k - 1);
      CalmStep(lim, h, k - 1);
      assert CalmEvents(h, k)[..|CalmEvents(h, k)| - 1] == CalmEvents(h, k - 1);
    }
  }

  /** The failing family is not empty: start-up leads to a state where a truncated walk forgets a remote. */
  lemma WrapLosesEntry(lim: Limits, h: Host, k: nat)
    requires lim.snapCap > 0 && k + 1 == TWO32
    ensures var g := Run(Init(lim, CALM, {}), CalmEvents(h, k));
            && Inv(g) && g.mode == Active && h in g.snaps.tab
            && h !in Walk(g, [], false, 1.0).snaps.tab
  {
    hide CalmEvents, Run, Init, Inv;
    CalmRun(lim, h, k);
    InitInv(lim, CALM, {});
    RunKeepsInv(Init(lim, CALM, {}), CalmEvents(h, k));
  }

  lemma StartOfWalk(g: Gate)
    requires Inv(g)
    ensures var g0 := g.(snaps := NextGen(g.snaps));
            Inv(g0) && g0.snaps.gen >= 1 && forall h | h in g0.snaps.tab :: g0.snaps.tab[h].gen != g0.snaps.gen
    ensures NextGen(g.snaps).tab == if g.snaps.gen + 1 < TWO32 then g.snaps.tab else map[]
  {
    NothingCurrentAtStart(g.lim, g.snaps);
  }
}
