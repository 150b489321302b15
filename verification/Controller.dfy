/**
 The control plane as code (src/policy.c, and the reload of src/ctl_server.c): one object
 over the stored drop list, the stored snapshots and the kernel maps.  Every method is
 proved to take exactly the step of the state machine, with the kernel's choices as the
 step's outcomes, so everything proved about runs of the machine holds of this code.
 */
module Controllers {
  import opened Cidrs
  import opened KernelState
  import opened GateModel
  import opened GateSafety
  import opened Lifetimes
  import opened Mirror
  import opened Rates
  import opened Lists
  import opened DropTables
  import opened SnapTables
  import opened Kernels
  import Xdp

  /** `vg_cidr_is_protected`: the search over the two configured lists. */
  method IsProtected(conf: Config, p: Cidr) returns (found: bool)
    ensures found <==> exists h: Host, c | c in conf.local + conf.allow :: h in Addresses(p) && h in Addresses(c)
    ensures found == Protected(conf, p)
  {
    found := false;
    for i := 0 to |conf.local|
      invariant forall j | 0 <= j < i :: !Overlaps(p, conf.local[j])
    {
      if Overlaps(p, conf.local[i]) {
        ProtectedMeaning(conf, p);
        return true;
      }
    }
    for i := 0 to |conf.allow|
      invariant forall j | 0 <= j < i :: !Overlaps(p, conf.allow[j])
    {
      if Overlaps(p, conf.allow[i]) {
        ProtectedMeaning(conf, p);
        return true;
      }
    }
    ProtectedMeaning(conf, p);
  }

  /** Protected is: shares an address with a configured prefix. */
  lemma ProtectedMeaning(conf: Config, p: Cidr)
    ensures Protected(conf, p) <==> exists h: Host, c | c in conf.local + conf.allow :: h in Addresses(p) && h in Addresses(c)
  {
    forall c | c in conf.local + conf.allow
      ensures Overlaps(p, c) <==> exists h: Host :: h in Addresses(p) && h in Addresses(c)
    {
      OverlapIsIntersection(p, c);
    }
  }

  lemma ArmAgain(g: Gate, ok: bool)
    ensures g.mode == Active ==> Arm(g, ok) == (g, true)
  {
  }

  /** An armed gate is not armed again by a drop. */
  lemma ArmUnused(g: Gate, p: Cidr, reason: Reason, expires: int, armOk: bool, w: Write)
    requires g.mode == Active
    ensures DropAdd(g, p, reason, expires, armOk, w) == DropAdd(g, p, reason, expires, true, w)
    ensures DropAdd(g, p, reason, expires, true, w).0.mode == Active
  {
  }

  /** What a failed delete adds to `stuck` matters only to its own record. */
  lemma StuckElsewhere(w: Sweep, stuck: set<Cidr>, c: Cidr, list: seq<Drop>)
    requires forall d | d in list :: d.cidr != c
    ensures Survivors(w, stuck + {c}, list) == Survivors(w, stuck, list)
    ensures LiftedKeys(w, stuck + {c}, list) == LiftedKeys(w, stuck, list)
  {
  }

  /** One more record of the list swept. */
  lemma SweptOne(w: Sweep, stuck: set<Cidr>, list: seq<Drop>, i: nat)
    requires i < |list|
    ensures var lifted := Lifted(w, stuck, list[i]);
            && Survivors(w, stuck, list[..i + 1]) == Survivors(w, stuck, list[..i]) + (if lifted then [] else [list[i]])
            && LiftedKeys(w, stuck, list[..i + 1]) == LiftedKeys(w, stuck, list[..i]) + (if lifted then {list[i].cidr} else {})
  {
    hide Doomed;
    assert list[..i + 1] == list[..i] + [list[i]];
    assert list[..i + 1][..i] == list[..i];
  }

  /** Nothing still to be visited is stuck yet. */
  ghost predicate Ahead(list: seq<Drop>, i: nat, stuck: set<Cidr>) {
    forall j | i <= j < |list| :: list[j].cidr !in stuck
  }

  lemma AheadNext(list: seq<Drop>, i: nat, stuck: set<Cidr>)
    requires UniqueKeys(list) && i < |list| && Ahead(list, i, stuck)
    ensures list[i].cidr !in stuck
    ensures Ahead(list, i + 1, stuck) && Ahead(list, i + 1, stuck + {list[i].cidr})
  {
  }

  lemma PrefixFresh(list: seq<Drop>, i: nat)
    requires UniqueKeys(list) && i < |list|
    ensures forall d | d in list[..i] :: d.cidr != list[i].cidr
  {
  }

  /** Where the walk is, seen from the list it started on and from the list as it is now. */
  lemma Cursor(cap: nat, slots: seq<nat>, kept: seq<nat>, i: nat)
    requires Below(slots, cap) && i <= |slots|
    ensures Nb(cap, slots, i) == cap <==> i == |slots|
    ensures Nb(cap, kept + slots[i..], |kept|) == Nb(cap, slots, i)
    ensures Nb(cap, kept + slots[i..], |kept| + 1) == Nb(cap, slots, i + 1)
    ensures i < |slots| ==> Nb(cap, slots, i) == slots[i] == (kept + slots[i..])[|kept|]
    ensures i < |slots| ==> Without(kept + slots[i..], |kept|) == kept + slots[i + 1..]
    ensures i < |slots| ==> kept + slots[i..] == kept + [slots[i]] + slots[i + 1..]
  {
  }

  /** A sweep that has dealt with the first i records. */
  ghost function Partway(g: Gate, w: Sweep, stuck: set<Cidr>, i: nat): Gate
    requires i <= |g.list|
  {
    g.(list := Survivors(w, stuck, g.list[..i]) + g.list[i..],
       maps := g.maps.(drops := g.maps.drops - LiftedKeys(w, stuck, g.list[..i])))
  }

  lemma SweptNone(g: Gate, w: Sweep)
    ensures Partway(g, w, {}, 0) == g && |Survivors(w, {}, g.list[..0])| == 0 && Ahead(g.list, 0, {})
  {
  }

  /** Lifting record i is removing the first record not yet dealt with. */
  lemma PartwayLift(g: Gate, w: Sweep, stuck: set<Cidr>, i: nat)
    requires i < |g.list| && Lifted(w, stuck, g.list[i])
    ensures var k := |Survivors(w, stuck, g.list[..i])|;
            && k < |Partway(g, w, stuck, i).list|
            && Partway(g, w, stuck, i + 1) == RemoveAt(Partway(g, w, stuck, i), k)
            && |Survivors(w, stuck, g.list[..i + 1])| == k
  {
    hide Lifted, Survivors, LiftedKeys;
    SweptOne(w, stuck, g.list, i);
    var front := Survivors(w, stuck, g.list[..i]);
    assert (front + g.list[i..])[|front| + 1..] == g.list[i + 1..];
  }

  /** A record that stays just becomes one of the survivors. */
  lemma PartwayKeep(g: Gate, w: Sweep, stuck: set<Cidr>, i: nat)
    requires i < |g.list| && !Lifted(w, stuck, g.list[i])
    ensures Partway(g, w, stuck, i + 1) == Partway(g, w, stuck, i)
    ensures |Survivors(w, stuck, g.list[..i + 1])| == |Survivors(w, stuck, g.list[..i])| + 1
  {
    hide Lifted, Survivors, LiftedKeys;
    SweptOne(w, stuck, g.list, i);
    assert g.list[i..] == [g.list[i]] + g.list[i + 1..];
  }

  lemma PartwayStuck(g: Gate, w: Sweep, stuck: set<Cidr>, i: nat)
    requires UniqueKeys(g.list) && i < |g.list|
    ensures var stuck' := stuck + {g.list[i].cidr};
            && Partway(g, w, stuck', i + 1) == Partway(g, w, stuck, i)
            && |Survivors(w, stuck', g.list[..i + 1])| == |Survivors(w, stuck, g.list[..i])| + 1
  {
    hide Doomed, Survivors, LiftedKeys;
    PrefixFresh(g.list, i);
    StuckElsewhere(w, stuck, g.list[i].cidr, g.list[..i]);
    PartwayKeep(g, w, stuck + {g.list[i].cidr}, i);
  }

  lemma PartwayAll(g: Gate, w: Sweep, stuck: set<Cidr>)
    ensures Partway(g, w, stuck, |g.list|) == SweepGate(g, w, stuck)
  {
    hide Survivors, LiftedKeys;
    assert g.list[..|g.list|] == g.list && g.list[|g.list|..] == [];
    assert Survivors(w, stuck, g.list) + [] == Survivors(w, stuck, g.list);
  }

  lemma PartwayAt(g: Gate, w: Sweep, stuck: set<Cidr>, i: nat)
    requires i < |g.list|
    ensures var k := |Survivors(w, stuck, g.list[..i])|;
            k < |Partway(g, w, stuck, i).list| && Partway(g, w, stuck, i).list[k] == g.list[i]
  {
  }

  lemma DensityOne(list: seq<Drop>, net: Cidr, i: nat)
    requires i < |list|
    ensures Density(list[..i + 1], net) ==
            Density(list[..i], net) + if list[i].reason != Timed && Contains(net, list[i].cidr) then 1 else 0
  {
    hide Contains;
    assert list[..i + 1][..i] == list[..i];
  }

  /**
   A key of a remote map: its counters and whether they could be summed, and the wall
   clock at the moments its drops would happen.
   */
  datatype Remote = Remote(host: Host, summed: bool, pkts: nat, bytes: nat, dropNow: int, widenNow: int)

  ghost predicate SameReading(r: Remote, v: Visit) {
    && v.host == r.host && v.pkts == r.pkts && v.bytes == r.bytes
    && v.drop.now == r.dropNow && v.widen.now == r.widenNow
  }

  /** The visit of a remote, with working writes. */
  function VisitOf(r: Remote): Visit {
    Visit(r.host, r.pkts, r.bytes, Write(r.dropNow, true), Write(r.widenNow, true))
  }

  lemma SnapshotFacts(g: Gate, v: Visit)
    ensures Snapshot(g, v).mode == g.mode && Snapshot(g, v).conf == g.conf
  {
  }

  /** The keys whose counters could be read, in map order. */
  function Readable(keys: seq<Remote>): seq<Remote> {
    if keys == [] then []
    else Readable(keys[..|keys| - 1]) + if keys[|keys| - 1].summed then [keys[|keys| - 1]] else []
  }

  /** The remotes of one family that a walk reports; None is a map without a descriptor. */
  function Reached(keys: Option<seq<Remote>>, budget: nat): seq<Remote> {
    if keys.None? then []
    else Readable(if |keys.value| <= budget then keys.value else keys.value[..budget])
  }

  /** The result of `foreach_family`: failed, truncated, or complete. */
  function FamilyResult(keys: Option<seq<Remote>>, budget: nat): int {
    if keys.None? then -1 else if |keys.value| <= budget then 1 else 0
  }

  /** One visit for each of the remotes, in their order. */
  ghost predicate VisitsOf(vs: seq<Visit>, rs: seq<Remote>) {
    |vs| == |rs| && forall i | 0 <= i < |rs| :: SameReading(rs[i], vs[i])
  }

  /** Every write of a walk that was tried worked, or only failed for want of room. */
  ghost predicate WritesWork(vs: seq<Visit>) {
    forall i | 0 <= i < |vs| :: vs[i].drop.ok && vs[i].widen.ok
  }

  lemma ReadableMore(keys: seq<Remote>, r: Remote)
    ensures Readable(keys + [r]) == Readable(keys) + if r.summed then [r] else []
  {
    assert (keys + [r])[..|keys|] == keys;
  }

  /** Readable keys are keys, and distinct if the keys are. */
  lemma {:induction false} ReadableFacts(keys: seq<Remote>)
    ensures forall r | r in Readable(keys) :: r in keys
    ensures DistinctKeys(keys) ==> DistinctKeys(Readable(keys))
  {
    if keys != [] {
      var n := |keys| - 1;
      ReadableFacts(keys[..n]);
      forall r | r in Readable(keys[..n]) && DistinctKeys(keys)
        ensures r.host != keys[n].host
      {
        var i :| 0 <= i < n && keys[i] == r;
      }
    }
  }

  ghost predicate DistinctKeys(keys: seq<Remote>) {
    forall i, j | 0 <= i < j < |keys| :: keys[i].host != keys[j].host
  }

  /** The keys of one remote map: each once, all of its family. */
  ghost predicate KeysOfFamily(keys: Option<seq<Remote>>, f: Family) {
    keys.Some? ==> DistinctKeys(keys.value) && forall i | 0 <= i < |keys.value| :: keys.value[i].host.family == f
  }

  lemma ReachedFacts(keys: Option<seq<Remote>>, budget: nat, f: Family)
    requires KeysOfFamily(keys, f)
    ensures DistinctKeys(Reached(keys, budget))
    ensures forall r | r in Reached(keys, budget) :: r.host.family == f
  {
    if keys.Some? {
      ReadableFacts(if |keys.value| <= budget then keys.value else keys.value[..budget]);
    }
  }

  /** Distinct map keys make distinct visits, as the first-walk theorem asks. */
  lemma DistinctKeysDistinctVisits(lim: Limits, r: Readings, t: TickInput)
    requires TickOf(lim, r, t) && KeysOfFamily(r.keys4, V4) && KeysOfFamily(r.keys6, V6)
    ensures DistinctHosts(t.visits)
  {
    hide Reached, KeysOfFamily;
    var a, b := Reached(r.keys4, Budget(lim)), Reached(r.keys6, Budget(lim));
    ReachedFacts(r.keys4, Budget(lim), V4);
    ReachedFacts(r.keys6, Budget(lim), V6);
    forall i, j | 0 <= i < j < |t.visits|
      ensures t.visits[i].host != t.visits[j].host
    {
      assert SameReading((a + b)[i], t.visits[i]) && SameReading((a + b)[j], t.visits[j]);
      if i < |a| <= j {
        assert a[i] in a && b[j - |a|] in b;
      }
    }
  }

  lemma VisitsSnoc(g: Gate, vs: seq<Visit>, v: Visit, dt: real)
    ensures Visits(g, vs + [v], dt) == PolicyVisit(Visits(g, vs, dt), v, dt)
  {
  }

  lemma VisitKeepsMode(g: Gate, v: Visit, dt: real)
    requires g.mode == Active
    ensures PolicyVisit(g, v, dt).mode == Active
  {
    hide DropAdd, Widen;
    var g1 := Snapshot(g, v);
    ArmUnused(g1, HostCidr(v.host), Policy, 0, true, v.drop);
    var g2 := DropAdd(g1, HostCidr(v.host), Policy, 0, true, v.drop).0;
    if g2.mode == Active {
      ArmUnused(g2, Widen(HostCidr(v.host)), Aggregate, 0, true, v.widen);
    }
  }

  lemma VisitsConcat(g: Gate, a: seq<Visit>, b: seq<Visit>, dt: real)
    ensures Visits(g, a + b, dt) == Visits(Visits(g, a, dt), b, dt)
  {
    hide PolicyVisit;
    if b == [] {
      assert a + b == a;
    } else {
      var n := |b| - 1;
      assert (a + b)[..|a + b| - 1] == a + b[..n];
      VisitsConcat(g, a, b[..n], dt);
    }
  }

  /** What one tick reads: clocks, metrics, and the remote maps in their key order. */
  datatype Readings = Readings(
    mono: real, metrics: Option<Metrics>, keys4: Option<seq<Remote>>, keys6: Option<seq<Remote>>,
    expireNow: int, quietNow: int, checkNow: int)

  const REMOTE_MAP_MAX: nat := 262144

  /** How many keys of each family one walk looks at. */
  function Budget(lim: Limits): nat {
    if lim.remoteMapSize == 0 then REMOTE_MAP_MAX else lim.remoteMapSize
  }

  /** The remotes one walk reports: IPv4 first, then IPv6. */
  function Reported(lim: Limits, r: Readings): seq<Remote> {
    Reached(r.keys4, Budget(lim)) + Reached(r.keys6, Budget(lim))
  }

  /** Both families were walked to their last key. */
  predicate WalkedAll(lim: Limits, r: Readings) {
    FamilyResult(r.keys4, Budget(lim)) == 1 && FamilyResult(r.keys6, Budget(lim)) == 1
  }

  /** A walk within its budget reports every key whose counters can be read, and never anything else. */
  lemma WalkReportsExactly(lim: Limits, r: Readings, x: Remote)
    requires WalkedAll(lim, r)
    ensures x in Reported(lim, r) <==> x.summed && (x in r.keys4.value || x in r.keys6.value)
  {
    hide Readable;
    ReadableExactly(r.keys4.value, x);
    ReadableExactly(r.keys6.value, x);
  }

  lemma {:induction false} ReadableExactly(keys: seq<Remote>, x: Remote)
    ensures x in Readable(keys) <==> x in keys && x.summed
  {
    if keys != [] {
      ReadableExactly(keys[..|keys| - 1], x);
      assert keys == keys[..|keys| - 1] + [keys[|keys| - 1]];
    }
  }

  /** The event is the tick of these readings: same clocks and metrics, and a visit for each remote reported. */
  ghost predicate TickOf(lim: Limits, r: Readings, t: TickInput) {
    && t.mono == r.mono && t.metrics == r.metrics
    && t.expireNow == r.expireNow && t.quietNow == r.quietNow && t.checkNow == r.checkNow
    && VisitsOf(t.visits, Reported(lim, r)) && t.complete == WalkedAll(lim, r)
  }

  ghost predicate TickWorks(t: TickInput) {
    t.armOk && WritesWork(t.visits) && t.stuck == {} && t.flushStuck == {} && t.commitOk
  }

  /** The tick in which no write is tried. */
  ghost function Plain(lim: Limits, r: Readings): TickInput {
    var rs := Reported(lim, r);
    TickInput(r.mono, r.metrics, true, seq(|rs|, i requires 0 <= i < |rs| => VisitOf(rs[i])), WalkedAll(lim, r),
              r.expireNow, {}, r.quietNow, r.checkNow, {}, true)
  }

  lemma PlainTick(lim: Limits, r: Readings)
    ensures TickOf(lim, r, Plain(lim, r)) && TickWorks(Plain(lim, r))
  {
  }

  lemma NoneRead(keys: seq<Remote>)
    ensures Readable(keys[..0]) == []
  {
  }

  lemma FamilyResults(keys: Option<seq<Remote>>, budget: nat)
    ensures FamilyResult(keys, budget) in {-1, 0, 1}
  {
  }

  lemma VisitKeepsConf(g: Gate, v: Visit, dt: real)
    ensures PolicyVisit(g, v, dt).conf == g.conf
  {
    hide Widen, Protected, IndexOf, CanAdd, Density;
  }

  lemma {:induction false} VisitsKeepConf(g: Gate, vs: seq<Visit>, dt: real)
    ensures Visits(g, vs, dt).conf == g.conf
  {
    hide PolicyVisit;
    if vs != [] {
      VisitsKeepConf(g, vs[..|vs| - 1], dt);
      VisitKeepsConf(Visits(g, vs[..|vs| - 1], dt), vs[|vs| - 1], dt);
    }
  }

  lemma WalkKeepsConf(g: Gate, vs: seq<Visit>, complete: bool, dt: real)
    ensures Walk(g, vs, complete, dt).conf == g.conf
  {
    VisitsKeepConf(g.(snaps := NextGen(g.snaps)), vs, dt);
  }

  // ---------------------------------------------------------------- every state of a reload

  lemma GrewTwice(log0: seq<Maps>, log1: seq<Maps>, before: Maps, mid: Maps, log2: seq<Maps>)
    requires Grew(log0, log1, before, DropMap, {}) && Grew(log1, log2, mid, DropMap, {})
    requires mid.drops.Keys <= before.drops.Keys && mid.allow == before.allow && mid.local == before.local
    ensures Grew(log0, log2, before, DropMap, {})
  {
  }

  lemma ExtendsTwice(log0: seq<Maps>, log1: seq<Maps>, log2: seq<Maps>)
    requires Extends(log0, log1) && Extends(log1, log2)
    ensures Extends(log0, log2)
  {
  }

  lemma PartwayMaps(g: Gate, w: Sweep, stuck: set<Cidr>, i: nat)
    requires i <= |g.list|
    ensures var m := Partway(g, w, stuck, i).maps;
            m.drops.Keys <= g.maps.drops.Keys && m.allow == g.maps.allow && m.local == g.maps.local
  {
  }


  /** From state n on, no logged state blackholes a live local or allowed address. */
  ghost predicate SafeFrom(log: seq<Maps>, n: nat) {
    forall i | n <= i < |log| :: LiveDisjoint(log[i])
  }

  /** No prefix of the one set shares an address with one of the other. */
  ghost predicate Clear(drops: set<Cidr>, keys: set<Cidr>) {
    forall d, c | d in drops && c in keys :: !Overlaps(d, c)
  }

  lemma PhaseSafe(log0: seq<Maps>, log: seq<Maps>, before: Maps, w: Lpm, extra: set<Cidr>)
    requires Grew(log0, log, before, w, if w == DropMap then {} else extra)
    requires Clear(before.drops.Keys, before.local + before.allow + extra)
    ensures SafeFrom(log, |log0|)
  {
  }

  lemma SafeAppend(log0: seq<Maps>, log1: seq<Maps>, n: nat)
    requires SafeFrom(log0, n) && |log0| <= |log1| && log1[..|log0|] == log0 && SafeFrom(log1, |log0|)
    ensures SafeFrom(log1, n)
  {
  }

  /** After a prune without failures, no drop is left that the new configuration protects. */
  lemma PruneClears(g: Gate, n: Config)
    requires LiveDisjoint(g.maps) && Keys(g.list) == g.maps.drops.Keys
    ensures var drops := SweepGate(g, Prune(n), {}).maps.drops.Keys;
            Clear(drops, g.maps.local + g.maps.allow + SetOf(n.allow) + SetOf(n.local))
  {
  }

  /** The prune and the commit: only drops go away, from maps that were safe. */
  lemma PruneSafe(g: Gate, n: Config, log0: seq<Maps>, log1: seq<Maps>, maps2: Maps, log2: seq<Maps>)
    requires LiveDisjoint(g.maps) && Keys(g.list) == g.maps.drops.Keys
    requires Grew(log0, log1, g.maps, DropMap, {})
    requires maps2.drops == SweepGate(g, Prune(n), {}).maps.drops
    requires maps2.local == g.maps.local && maps2.allow == g.maps.allow && log2 == log1 + [maps2]
    ensures SafeFrom(log2, |log0|)
    ensures Clear(maps2.drops.Keys, maps2.local + maps2.allow + SetOf(n.allow) + SetOf(n.local))
  {
    hide Overlaps, Keys, LiftedKeys, Survivors;
    PhaseSafe(log0, log1, g.maps, DropMap, {});
    PruneClears(g, n);
    assert LiveDisjoint(maps2);
    SafeAppend(log1, log2, |log0|);
  }

  /** The two refills: each state holds at most the old and the new keys. */
  lemma RefillSafe(n: Config, log2: seq<Maps>, maps2: Maps, log3: seq<Maps>, maps3: Maps, log4: seq<Maps>)
    requires Clear(maps2.drops.Keys, maps2.local + maps2.allow + SetOf(n.allow) + SetOf(n.local))
    requires Grew(log2, log3, maps2, AllowMap, SetOf(n.allow)) && Grew(log3, log4, maps3, LocalMap, SetOf(n.local))
    requires maps3.drops == maps2.drops && maps3.local == maps2.local && maps3.allow <= maps2.allow + SetOf(n.allow)
    ensures SafeFrom(log4, |log2|)
  {
    hide Overlaps, LiveDisjoint, SetOf;
    PhaseSafe(log2, log3, maps2, AllowMap, SetOf(n.allow));
    assert maps3.local + maps3.allow + SetOf(n.local) <= maps2.local + maps2.allow + SetOf(n.allow) + SetOf(n.local);
    PhaseSafe(log3, log4, maps3, LocalMap, SetOf(n.local));
    SafeAppend(log3, log4, |log2|);
  }

  lemma SweepFields(g: Gate, w: Sweep, stuck: set<Cidr>)
    ensures var g' := SweepGate(g, w, stuck);
            && g' == g.(list := g'.list, maps := g.maps.(drops := g'.maps.drops))
  {
  }

  lemma RefilledMaps(m: Maps, m': Maps, w: Lpm, want: seq<Cidr>, r: Refill)
    requires w != DropMap
    requires m' == WithKeys(WithoutKeys(m, w, KeysOf(m, w)), w, Refilled(KeysOf(m, w), want, r))
    ensures w == AllowMap ==> m' == m.(allow := Refilled(m.allow, want, r)) && m'.allow <= m.allow + SetOf(want)
    ensures w == LocalMap ==> m' == m.(local := Refilled(m.local, want, r))
  {
  }

  /** What the daemon's loop is woken for: a control command, or the tick. */
  datatype Input =
    | DropInput(p: Cidr, reason: Reason, expires: int, now: int)
    | UndropInput(p: Cidr)
    | ArmInput
    | DisarmInput
    | ReloadInput(conf: Config)
    | WakeInput(r: Readings)

  /** The event is what the input asks for; only the outcomes of the kernel writes are left open. */
  ghost predicate Matches(lim: Limits, i: Input, e: Event) {
    match i
    case DropInput(p, reason, expires, now) => e.DropCmd? && e.p == p && e.reason == reason && e.expires == expires && e.w.now == now
    case UndropInput(p) => e.UndropCmd? && e.p == p
    case ArmInput => e.ArmCmd?
    case DisarmInput => e.DisarmCmd?
    case ReloadInput(n) => e.ReloadCmd? && e.conf == n
    case WakeInput(r) => e.TickEvent? && TickOf(lim, r, e.t)
  }

  /** No write of the event failed. */
  ghost predicate AllWork(e: Event) {
    match e
    case DropCmd(_, _, _, armOk, w) => armOk && w.ok
    case UndropCmd(_, delOk) => delOk
    case ArmCmd(armOk) => armOk
    case DisarmCmd(stuck, commitOk) => stuck == {} && commitOk
    case ReloadCmd(_, stuck, commitOk, allow, local) => stuck == {} && commitOk && allow == local == Refill({}, {})
    case TickEvent(t) => TickWorks(t)
  }

  lemma WorkingIsClean(e: Event)
    requires AllWork(e)
    ensures Clean(e)
  {
  }

  /** The inputs ask for these events. */
  ghost predicate Follows(lim: Limits, inputs: seq<Input>, es: seq<Event>) {
    |es| == |inputs| && forall k | 0 <= k < |es| :: Matches(lim, inputs[k], es[k])
  }

  /** The input is no early way out for p, and no expiry pass of it comes at or after lift. */
  ghost predicate SparesInput(i: Input, p: Cidr, lift: Option<int>, b: nat) {
    match i
    case UndropInput(q) => q != p
    case DisarmInput => false
    case ReloadInput(n) => !Protected(n, p) && b <= n.banTime
    case WakeInput(r) => lift.None? || r.expireNow < lift.value
    case _ => true
  }

  /**
   The lifetime theorem in terms of what the daemon is asked: whatever fails, a listed
   prefix stays listed and lifts no earlier, as long as no input undrops it, disarms,
   reloads a configuration that protects it, or wakes the daemon at or after its lift time.
   */
  lemma BanOutlivesInputs(g0: Gate, inputs: seq<Input>, es: seq<Event>, p: Cidr, b: nat)
    requires Follows(g0.lim, inputs, es) && Inv(g0) && Listed(g0.list, p) && b <= g0.conf.banTime
    requires forall i | i in inputs :: SparesInput(i, p, LiftTime(RecordOf(g0.list, p), b), b)
    ensures StillBanned(g0.list, Run(g0, es).list, p, b)
  {
    hide Run, Inv, StillBanned, Protected, TickOf;
    var lift := LiftTime(RecordOf(g0.list, p), b);
    forall e | e in es
      ensures Spares(e, p, lift) && KeepsBanTime(e, b)
    {
      var k :| 0 <= k < |es| && es[k] == e;
      assert SparesInput(inputs[k], p, lift, b) && Matches(g0.lim, inputs[k], e);
      SparedInput(g0.lim, inputs[k], e, p, lift, b);
    }
    BanOutlivesRun(g0, es, p, b);
  }

  lemma SparedInput(lim: Limits, i: Input, e: Event, p: Cidr, lift: Option<int>, b: nat)
    requires Matches(lim, i, e) && SparesInput(i, p, lift, b)
    ensures Spares(e, p, lift) && KeepsBanTime(e, b)
  {
  }

  lemma RunSnoc(g: Gate, es: seq<Event>, e: Event)
    ensures Run(g, es + [e]) == Step(Run(g, es), e)
  {
  }

  /** A guarded gate stays safe through tame states. */
  lemma TameSafe(g: Gate, log0: seq<Maps>, log: seq<Maps>)
    requires Tame(log0, log, g.conf) && log0[|log0| - 1] == g.maps
    ensures Extends(log0, log)
    ensures Guarded(g) ==> SafeFrom(log, |log0|)
  {
    if Guarded(g) {
      forall i | |log0| <= i < |log|
        ensures LiveDisjoint(log[i])
      {
        assert TameState(g.maps, log[i], g.conf);
      }
    }
  }

  lemma ReloadSafe(g: Gate, e: Event, log0: seq<Maps>, log: seq<Maps>)
    requires e.ReloadCmd?
    requires LiveDisjoint(g.maps) && Keys(g.list) == g.maps.drops.Keys && e.stuck == {} ==> SafeFrom(log, |log0|)
    ensures Settled(g) && Clean(e) ==> SafeFrom(log, |log0|)
  {
    if Settled(g) {
      GuardedIsDisjoint(g);
    }
  }

  /** Safe states so far and safe states of the next event. */
  lemma OneMore(g0: Gate, es: seq<Event>, e: Event, log0: seq<Maps>, log1: seq<Maps>, log2: seq<Maps>)
    requires Extends(log0, log1) && Extends(log1, log2)
    requires Settled(g0) && (forall x | x in es :: Clean(x)) ==> SafeFrom(log1, |log0|)
    requires Settled(Run(g0, es)) && Clean(e) ==> SafeFrom(log2, |log1|)
    ensures Extends(log0, log2)
    ensures Settled(g0) && (forall x | x in es + [e] :: Clean(x)) ==> SafeFrom(log2, |log0|)
  {
    hide Settled, Clean, LiveDisjoint;
    ExtendsTwice(log0, log1, log2);
    if Settled(g0) && forall x | x in es + [e] :: Clean(x) {
      assert forall x | x in es :: x in es + [e];
      assert e in es + [e];
      RunKeepsSettled(g0, es);
      SafeAppend(log1, log2, |log0|);
    }
  }

  lemma LeftOver(drops: map<Cidr, DropEntry>, stuck: set<Cidr>)
    requires stuck <= drops.Keys
    ensures drops - (drops.Keys - stuck) == Flushed(drops, stuck)
  {
  }

  class Ctrl {
    const lim: Limits
    const kernel: Kernel
    const table: DropTable
    const snaps: SnapTable
    var mode: Mode
    var conf: Config
    var quietSince: int
    var meter: Meter

    ghost function Repr(): set<object> {
      {this, kernel, table, table.links, table.first, table.hash, table.recs, snaps, snaps.ent, snaps.heads}
    }

    ghost predicate Valid()
      reads Repr()
    {
      && table.Valid() && snaps.Valid() && kernel.Valid() && table.first != snaps.heads
      && table.cap == lim.poolCap && kernel.dropMax == lim.dropMax && snaps.ent.Length == lim.snapCap
    }

    ghost function View(): Gate
      reads Repr()
    {
      Gate(lim, mode, conf, table.Contents(), kernel.maps, quietSince, snaps.View(), meter)
    }

    constructor (lim: Limits, nb: nat, conf: Config, kernel: Kernel)
      requires nb > 0 && kernel.Valid() && kernel.dropMax == lim.dropMax
      ensures Valid() && this.kernel == kernel
      ensures View() == Init(lim, conf, {}).(maps := kernel.maps)
    {
      this.lim, this.conf, this.kernel := lim, conf, kernel;
      table := new DropTable(lim.poolCap, nb);
      snaps := new SnapTable(lim.snapCap);
      mode, quietSince, meter := Idle, 0, Meter(None, None, 0.0, 0.0);
    }

    /** `vg_ctrl_arm`. */
    method Arm() returns (ok: bool, ghost commitOk: bool)
      requires Valid()
      modifies Repr()
      ensures Valid() && (View(), ok) == GateModel.Arm(old(View()), commitOk)
      ensures Tame(old(kernel.log), kernel.log, conf) && conf == old(conf) && kernel.failures >= old(kernel.failures)
      ensures kernel.failures == old(kernel.failures) ==> commitOk
    {
      hide TableInv, StoreInv, Contents, Records, Tame, TameState;
      commitOk := true;
      if mode == Active {
        TameNone(kernel.log, conf);
        return true, true;
      }
      snaps.Reset();
      quietSince := 0;
      ok := kernel.Commit(true, conf);
      TameLess(old(kernel.log), kernel.maps, conf);
      commitOk := ok;
      if ok {
        mode := Active;
      }
    }

    /** `vg_ctrl_disarm`. */
    method Disarm() returns (ok: bool, ghost stuck: set<Cidr>, ghost commitOk: bool)
      requires Valid()
      modifies Repr()
      ensures Valid() && (View(), ok) == GateModel.Disarm(old(View()), stuck, commitOk)
      ensures Tame(old(kernel.log), kernel.log, conf) && conf == old(conf) && kernel.failures >= old(kernel.failures)
      ensures kernel.failures == old(kernel.failures) ==> stuck == {} && commitOk
    {
      hide TableInv, StoreInv, Contents, Records, Tame, TameState, Grew, Flushed;
      ghost var drops := kernel.maps.drops;
      stuck := kernel.FlushBoth(DropMap);
      ghost var log1 := kernel.log;
      GrewTame(old(kernel.log), log1, conf);
      LeftOver(drops, stuck);
      table.Reset();
      ok := kernel.Commit(false, conf);
      TameLess(log1, kernel.maps, conf);
      TameTwice(old(kernel.log), log1, kernel.log, conf);
      commitOk := ok;
      if ok {
        mode := Idle;
        quietSince := 0;
      }
    }

    /** The kernel write of `drop_add`; wrote is false only if it failed for another reason than want of room. */
    method KernelDrop(p: Cidr, reason: Reason, now: int) returns (ok: bool, ghost wrote: bool)
      requires kernel.Valid() && kernel.dropMax == lim.dropMax && !Protected(conf, p)
      modifies kernel
      ensures kernel.Valid() && ok == (wrote && CanAdd(old(kernel.maps), p, lim.dropMax))
      ensures kernel.maps == if ok then old(kernel.maps).(drops := old(kernel.maps).drops[p := DropEntry(reason, now % TWO32)])
                             else old(kernel.maps)
      ensures Tame(old(kernel.log), kernel.log, conf) && kernel.failures >= old(kernel.failures)
      ensures kernel.failures == old(kernel.failures) ==> wrote
    {
      hide CanAdd, Tame, TameState, Protected;
      ok := kernel.DropAdd(p, reason, now);
      wrote := ok || !CanAdd(old(kernel.maps), p, lim.dropMax);
      TameAdd(old(kernel.log), kernel.maps, p, conf);
    }

    /** `drop_add`, the prefix not yet listed. */
    method DropFresh(p: Cidr, reason: Reason, expires: int, now: int) returns (ok: bool, ghost wrote: bool)
      requires Valid() && IndexOf(table.Contents(), p) == |table.Contents()| && !Protected(conf, p)
      modifies Repr()
      ensures Valid() && (View(), ok) == DropNew(old(View()), p, reason, expires, Write(now, wrote))
      ensures Tame(old(kernel.log), kernel.log, conf) && conf == old(conf) && kernel.failures >= old(kernel.failures)
      ensures kernel.failures == old(kernel.failures) ==> wrote
    {
      hide TableInv, StoreInv, Contents, Records, Tame, TameState, Protected, CanAdd;
      wrote := true;
      TameNone(kernel.log, conf);
      var r := table.Alloc();
      if r.Null? {
        return false, true;
      }
      ok, wrote := KernelDrop(p, reason, now);
      if ok {
        table.Insert(r.slot, Drop(p, reason, now, expires));
      } else {
        table.Release(r.slot);
      }
    }

    /** A timed drop of record x first notes when it would have lifted; the later of the two times counts. */
    method MergeTimed(x: nat, ghost i: nat, expires: int) returns (e: int)
      requires Valid() && i < |table.listed| && table.listed[i] == x < table.recs.Length
      modifies table.recs
      ensures Valid() && table.listed == old(table.listed) && i < |old(table.Contents())|
      ensures var r := old(table.Contents())[i]; var was := if r.reason != Timed then r.inserted + conf.banTime else r.expires;
              && table.Contents() == old(table.Contents())[i := r.(expires := was)]
              && e == if expires < was then was else expires
    {
      hide TableInv, StoreInv, Contents, Records, Below, Nb, UniqueKeys;
      table.Slots(i);
      var r := table.recs[x];
      if r.reason != Timed {
        r := r.(expires := r.inserted + conf.banTime);
        table.Rewrite(x, r, i);
      }
      assert table.Contents() == old(table.Contents())[i := r];
      return if expires < r.expires then r.expires else expires;
    }

    /** `drop_add`, the prefix already listed in record x. */
    method DropListed(x: nat, ghost i: nat, p: Cidr, reason: Reason, expires: int, now: int) returns (ok: bool, ghost wrote: bool)
      requires Valid() && i < |table.listed| && table.listed[i] == x < table.recs.Length && table.Contents()[i].cidr == p
      requires !Protected(conf, p)
      modifies Repr()
      ensures Valid() && (View(), ok) == DropAgain(old(View()), i, p, reason, expires, Write(now, wrote))
      ensures Tame(old(kernel.log), kernel.log, conf) && conf == old(conf) && kernel.failures >= old(kernel.failures)
      ensures kernel.failures == old(kernel.failures) ==> wrote
    {
      hide TableInv, StoreInv, Contents, Records, CanAdd, Tame, TameState, Protected, Below, Nb, UniqueKeys;
      wrote := true;
      TameNone(kernel.log, conf);
      table.Slots(i);
      var e := expires;
      if reason == Timed {
        if table.recs[x].reason == Manual {
          return true, true;
        }
        e := MergeTimed(x, i, expires);
        table.Slots(i);
      }
      ghost var r := table.Contents()[i];
      assert table.Contents() == old(table.Contents())[i := r];
      ok, wrote := KernelDrop(p, reason, now);
      if ok && (reason == Manual || reason == Timed) {
        table.Rewrite(x, table.recs[x].(reason := reason, inserted := now, expires := e), i);
      }
      assert ok ==> table.Contents() == old(table.Contents())[i := GateModel.Rewrite(r, reason, e, now)];
    }

    /** `drop_add`. */
    method AddDrop(p: Cidr, reason: Reason, expires: int, now: int) returns (ok: bool, ghost armOk: bool, ghost wrote: bool)
      requires Valid()
      modifies Repr()
      ensures Valid() && (View(), ok) == DropAdd(old(View()), p, reason, expires, armOk, Write(now, wrote))
      ensures Tame(old(kernel.log), kernel.log, conf) && conf == old(conf) && kernel.failures >= old(kernel.failures)
      ensures kernel.failures == old(kernel.failures) ==> armOk && wrote
    {
      hide TableInv, StoreInv, Contents, Records, Protected, DropNew, DropAgain, IndexOf, GateModel.Arm, Tame, TameState, UniqueKeys, Below, Nb;
      armOk, wrote := true, true;
      ArmAgain(View(), true);
      TameNone(kernel.log, conf);
      var refused := IsProtected(conf, p);
      if refused {
        return false, true, true;
      }
      if mode != Active {
        ok, armOk := Arm();
        if !ok {
          return;
        }
      }
      ghost var log1 := kernel.log;
      var r := table.Find(p);
      if r.Null? {
        ok, wrote := DropFresh(p, reason, expires, now);
      } else {
        ghost var i := IndexOf(table.Contents(), p);
        table.Slots(i);
        ok, wrote := DropListed(r.slot, i, p, reason, expires, now);
      }
      TameTwice(old(kernel.log), log1, kernel.log, conf);
    }

    /** `drop_remove`: kernel first; "not found" counts as deleted, a failed delete keeps the record. */
    method Remove(x: nat, ghost k: nat) returns (ok: bool)
      requires Valid() && k < |table.listed| && table.listed[k] == x
      modifies Repr()
      ensures Valid()
      ensures k < |old(View()).list| && View() == if ok then RemoveAt(old(View()), k) else old(View())
      ensures table.listed == if ok then Without(old(table.listed), k) else old(table.listed)
      ensures kernel.failures == old(kernel.failures) + if ok then 0 else 1
      ensures Grew(old(kernel.log), kernel.log, old(kernel.maps), DropMap, {})
    {
      hide TableInv, StoreInv, Contents, Records;
      table.Slots(k);
      var r := kernel.Delete(DropMap, table.recs[x].cidr);
      if r == Failed {
        return false;
      }
      table.Remove(x, k);
      return true;
    }

    /** `vg_ctrl_undrop`. */
    method Undrop(p: Cidr) returns (ok: bool)
      requires Valid()
      modifies Repr()
      ensures Valid() && (View(), ok) == GateModel.Undrop(old(View()), p, ok)
      ensures Tame(old(kernel.log), kernel.log, conf) && conf == old(conf) && kernel.failures >= old(kernel.failures)
      ensures kernel.failures == old(kernel.failures) ==> ok
    {
      hide TableInv, StoreInv, Contents, Records, IndexOf, Tame, Grew, Protected;
      var r := table.Find(p);
      if r.To? {
        ghost var i := IndexOf(table.Contents(), p);
        table.Slots(i);
        ok := Remove(r.slot, i);
        GrewTame(old(kernel.log), kernel.log, conf);
      } else {
        var d := kernel.Delete(DropMap, p);
        ok := d != Failed;
        TameLess(old(kernel.log), kernel.maps, conf);
      }
    }

    method IsDoomed(w: Sweep, d: Drop) returns (doomed: bool)
      ensures doomed == Doomed(w, d)
    {
      match w {
        case Expire(now, banTime) =>
          doomed := !(d.reason == Manual || (if d.reason == Timed then now < d.expires else now - d.inserted < banTime));
        case Prune(conf) =>
          doomed := IsProtected(conf, d.cidr);
      }
    }

    /** One round of the safe walk, at record l. */
    method SweepOne(w: Sweep, l: nat, ghost g: Gate, ghost slots: seq<nat>, ghost kept: seq<nat>, ghost i: nat, ghost stuck: set<Cidr>)
      returns (ghost kept': seq<nat>, ghost stuck': set<Cidr>)
      requires Valid() && UniqueKeys(g.list) && i < |slots| == |g.list| && l == slots[i]
      requires table.listed == kept + slots[i..] && |kept| == |Survivors(w, stuck, g.list[..i])| && Below(slots, table.cap)
      requires View() == Partway(g, w, stuck, i) && Ahead(g.list, i, stuck)
      modifies Repr()
      ensures Valid() && View() == Partway(g, w, stuck', i + 1) && Ahead(g.list, i + 1, stuck')
      ensures table.listed == kept' + slots[i + 1..] && |kept'| == |Survivors(w, stuck', g.list[..i + 1])|
      ensures kernel.failures >= old(kernel.failures) && (stuck' != stuck ==> kernel.failures > old(kernel.failures))
      ensures Grew(old(kernel.log), kernel.log, old(kernel.maps), DropMap, {})
    {
      hide TableInv, StoreInv, Contents, Records, Doomed, Survivors, LiftedKeys, Partway, RemoveAt;
      hide UniqueKeys, Ahead, Below, Nb, Without, Between;
      table.Slots(|kept|);
      GrewNone(kernel.log, kernel.maps, DropMap);
      PartwayAt(g, w, stuck, i);
      AheadNext(g.list, i, stuck);
      Cursor(table.cap, slots, kept, i);
      kept', stuck' := kept, stuck;
      var doomed := IsDoomed(w, table.recs[l]);
      if doomed {
        var ok := Remove(l, |kept|);
        if ok {
          PartwayLift(g, w, stuck, i);
        } else {
          PartwayStuck(g, w, stuck, i);
          kept', stuck' := kept + [l], stuck + {g.list[i].cidr};
        }
      } else {
        PartwayKeep(g, w, stuck, i);
        kept' := kept + [l];
      }
    }

    /**
     The safe walk of `expire_drops` and `vg_ctrl_prune_protected`: the successor is read
     before the record may be unlinked.
     */
    method SweepList(w: Sweep) returns (ghost stuck: set<Cidr>)
      requires Valid()
      modifies Repr()
      ensures Valid() && View() == SweepGate(old(View()), w, stuck)
      ensures kernel.failures >= old(kernel.failures) && (stuck != {} ==> kernel.failures > old(kernel.failures))
      ensures Grew(old(kernel.log), kernel.log, old(kernel.maps), DropMap, {})
    {
      hide TableInv, StoreInv, Contents, Records, Doomed, Survivors, LiftedKeys, SweepGate;
      hide Partway, Ahead, UniqueKeys, Nb, Below, Between;
      stuck := {};
      ghost var g, slots, i := View(), table.listed, 0;
      ghost var kept: seq<nat> := [];
      table.Slots(0);
      SweptNone(g, w);
      GrewNone(kernel.log, kernel.maps, DropMap);
      Cursor(table.cap, slots, kept, 0);
      assert [] + slots[0..] == slots;
      var l := table.links[table.cap].next;
      var n := table.links[l].next;
      while l != table.cap
        invariant Valid() && 0 <= i <= |slots| == |g.list| && Below(slots, table.cap)
        invariant l == Nb(table.cap, slots, i) && (i < |slots| ==> n == Nb(table.cap, slots, i + 1))
        invariant table.listed == kept + slots[i..]
        invariant |kept| == |Survivors(w, stuck, g.list[..i])|
        invariant View() == Partway(g, w, stuck, i) && Ahead(g.list, i, stuck)
        invariant kernel.failures >= old(kernel.failures) && (stuck != {} ==> kernel.failures > old(kernel.failures))
        invariant Grew(old(kernel.log), kernel.log, old(kernel.maps), DropMap, {})
        decreases |slots| - i
      {
        Cursor(table.cap, slots, kept, i);
        PartwayMaps(g, w, stuck, i);
        ghost var log, mid := kernel.log, kernel.maps;
        kept, stuck := SweepOne(w, l, g, slots, kept, i, stuck);
        GrewTwice(old(kernel.log), log, g.maps, mid, kernel.log);
        i := i + 1;
        l := n;
        table.Slots(|kept|);
        Cursor(table.cap, slots, kept, i);
        n := table.links[l].next;
      }
      Cursor(table.cap, slots, kept, i);
      PartwayAll(g, w, stuck);
    }

    /** The walk of `maybe_aggregate` over the listed drops. */
    method CountInside(net: Cidr) returns (n: nat)
      requires Valid()
      ensures n == Density(table.Contents(), net)
    {
      hide TableInv, StoreInv, Contents, Records, Contains, Nb, Below, UniqueKeys;
      n := 0;
      ghost var list, slots, i := table.Contents(), table.listed, 0;
      table.Slots(0);
      Cursor(table.cap, slots, [], 0);
      var l := table.links[table.cap].next;
      while l != table.cap
        invariant 0 <= i <= |slots| == |list| && l == Nb(table.cap, slots, i)
        invariant n == Density(list[..i], net)
        decreases |slots| - i
      {
        table.Slots(i);
        Cursor(table.cap, slots, [], i);
        DensityOne(list, net, i);
        if table.recs[l].reason != Timed && Contains(net, table.recs[l].cidr) {
          n := n + 1;
        }
        l := table.links[l].next;
        i := i + 1;
      }
      Cursor(table.cap, slots, [], i);
      assert list[..|list|] == list;
    }

    /** `maybe_aggregate`. */
    method MaybeAggregate(host: Cidr, now: int) returns (ghost wrote: bool)
      requires Valid() && mode == Active
      modifies Repr()
      ensures Valid() && View() == GateModel.MaybeAggregate(old(View()), host, Write(now, wrote))
      ensures Tame(old(kernel.log), kernel.log, conf) && conf == old(conf) && kernel.failures >= old(kernel.failures)
      ensures kernel.failures == old(kernel.failures) ==> wrote
    {
      hide TableInv, StoreInv, Contents, Records, Contains, Widen, Density, DropAdd, Tame;
      wrote := true;
      TameNone(kernel.log, conf);
      var net := Widen(host);
      var n := CountInside(net);
      if n >= conf.aggregateK {
        ghost var armOk;
        ghost var g := View();
        var ok;
        ok, armOk, wrote := AddDrop(net, Aggregate, 0, now);
        ArmUnused(g, net, Aggregate, 0, armOk, Write(now, wrote));
      }
    }

    /** The snapshot half of `policy_one_remote`: the last counters, if there are any, and the new ones stored. */
    method TakeSnapshot(r: Remote) returns (last: Option<Snap>)
      requires Valid()
      modifies Repr()
      ensures Valid() && last == if r.host in old(View()).snaps.tab then Some(old(View()).snaps.tab[r.host].(gen := snaps.gen)) else None
      ensures forall v | SameReading(r, v) :: View() == Snapshot(old(View()), v)
      ensures kernel.log == old(kernel.log) && kernel.failures == old(kernel.failures)
    {
      hide TableInv, StoreInv, Contents, Records;
      var s, created := snaps.Get(r.host);
      if s.Null? {
        return None;
      }
      var x := s.slot;
      last := if created then None else Some(ValueOf(snaps.ent[x]));
      snaps.Put(x, r.pkts, r.bytes, r.host);
      assert snaps.View().tab == old(snaps.View()).tab[r.host := Snap(r.pkts, r.bytes, snaps.gen)];
    }

    /** `policy_one_remote`. */
    method OneRemote(r: Remote, dt: real) returns (ghost v: Visit)
      requires Valid() && mode == Active
      modifies Repr()
      ensures SameReading(r, v)
      ensures Valid() && View() == PolicyVisit(old(View()), v, dt)
      ensures Tame(old(kernel.log), kernel.log, conf) && conf == old(conf) && kernel.failures >= old(kernel.failures)
      ensures kernel.failures == old(kernel.failures) ==> v.drop.ok && v.widen.ok
    {
      hide TableInv, StoreInv, Contents, Records, DropAdd, GateModel.MaybeAggregate, Snapshot, Tame;
      v := VisitOf(r);
      TameNone(kernel.log, conf);
      ghost var g := View();
      var last := TakeSnapshot(r);
      ghost var g1 := View();
      SnapshotFacts(g, v);
      if last.None? || dt <= 0.0 {
        return;
      }
      var dp := Increase(r.pkts, last.value.pkts);
      var db := Increase(r.bytes, last.value.bytes);
      var pps := dp as real / dt;
      var bps := db as real * 8.0 / dt;
      if pps < conf.thresholdPps as real && bps < conf.thresholdMbps as real * 1000000.0 {
        return;
      }
      var p := HostCidr(r.host);
      var ok;
      ghost var armOk, wrote;
      ok, armOk, wrote := AddDrop(p, Policy, 0, r.dropNow);
      ArmUnused(g1, p, Policy, 0, armOk, Write(r.dropNow, wrote));
      v := v.(drop := Write(r.dropNow, wrote));
      assert g1 == Snapshot(g, v);
      if ok {
        ghost var log1 := kernel.log;
        wrote := MaybeAggregate(p, r.widenNow);
        TameTwice(old(kernel.log), log1, kernel.log, conf);
        v := v.(widen := Write(r.widenNow, wrote));
        assert g1 == Snapshot(g, v);
      }
    }

    /** `foreach_family`: at most `budget` keys, in the map's order. */
    method ForeachFamily(keys: Option<seq<Remote>>, budget: nat, dt: real) returns (rc: int, ghost vs: seq<Visit>)
      requires Valid() && mode == Active
      modifies Repr()
      ensures Valid() && mode == Active && View() == Visits(old(View()), vs, dt)
      ensures rc == FamilyResult(keys, budget) && VisitsOf(vs, Reached(keys, budget))
      ensures Tame(old(kernel.log), kernel.log, conf) && conf == old(conf) && kernel.failures >= old(kernel.failures)
      ensures kernel.failures == old(kernel.failures) ==> WritesWork(vs)
    {
      hide TableInv, StoreInv, Contents, Records, PolicyVisit, Tame, Readable;
      vs := [];
      TameNone(kernel.log, conf);
      if keys.None? {
        return -1, [];
      }
      var order := keys.value;
      var visited := 0;
      NoneRead(order);
      while visited < budget && visited < |order|
        invariant 0 <= visited <= |order| && visited <= budget
        invariant Valid() && mode == Active && View() == Visits(old(View()), vs, dt)
        invariant VisitsOf(vs, Readable(order[..visited]))
        invariant Tame(old(kernel.log), kernel.log, conf) && conf == old(conf) && kernel.failures >= old(kernel.failures)
        invariant kernel.failures == old(kernel.failures) ==> WritesWork(vs)
        decreases |order| - visited
      {
        var cur := order[visited];
        assert order[..visited + 1] == order[..visited] + [cur];
        ReadableMore(order[..visited], cur);
        visited := visited + 1;
        if cur.summed {
          ghost var g, log := View(), kernel.log;
          ghost var v := OneRemote(cur, dt);
          VisitsSnoc(old(View()), vs, v, dt);
          VisitKeepsMode(g, v, dt);
          TameTwice(old(kernel.log), log, kernel.log, conf);
          vs := vs + [v];
        }
      }
      assert visited == |order| ==> order[..visited] == order;
      rc := if visited < budget || visited == |order| then 1 else 0;
    }

    /** The generation step of `walk_remotes`. */
    method NextGeneration()
      requires Valid()
      modifies snaps, snaps.ent, snaps.heads
      ensures Valid() && View() == old(View()).(snaps := NextGen(old(View()).snaps))
    {
      hide TableInv, StoreInv, Contents, Records;
      snaps.gen := (snaps.gen + 1) % TWO32;
      if snaps.gen == 0 {
        snaps.Reset();
        snaps.gen := 1;
      }
    }

    /** `walk_remotes`, with `vg_remote_foreach` inlined: IPv4 remotes first, then IPv6. */
    method WalkRemotes(r: Readings, dt: real) returns (complete: bool, ghost vs: seq<Visit>)
      requires Valid() && mode == Active
      modifies Repr()
      ensures Valid() && View() == Walk(old(View()), vs, complete, dt)
      ensures complete == WalkedAll(lim, r) && VisitsOf(vs, Reported(lim, r))
      ensures Tame(old(kernel.log), kernel.log, conf) && conf == old(conf) && kernel.failures >= old(kernel.failures)
      ensures kernel.failures == old(kernel.failures) ==> WritesWork(vs)
    {
      hide TableInv, StoreInv, Contents, Records, PolicyVisit, Visits, PruneSnaps, NextGen, Tame, Reached, FamilyResult;
      var budget := if lim.remoteMapSize == 0 then REMOTE_MAP_MAX else lim.remoteMapSize;
      NextGeneration();
      ghost var g0 := View();
      var c4, c6;
      ghost var vs4, vs6;
      c4, vs4 := ForeachFamily(r.keys4, budget, dt);
      ghost var log1 := kernel.log;
      c6, vs6 := ForeachFamily(r.keys6, budget, dt);
      TameTwice(old(kernel.log), log1, kernel.log, conf);
      var rc := if c4 < 0 || c6 < 0 then -1 else if c4 != 0 && c6 != 0 then 1 else 0;
      FamilyResults(r.keys4, budget);
      FamilyResults(r.keys6, budget);
      complete, vs := rc == 1, vs4 + vs6;
      VisitsConcat(g0, vs4, vs6, dt);
      if complete {
        snaps.Prune();
      }
    }

    /** The first half of `vg_ctrl_tick`: the interval, and the rates over it. */
    method ReadMeter(r: Readings, ghost t: TickInput) returns (dt: real)
      requires t.mono == r.mono && t.metrics == r.metrics
      modifies this`meter
      ensures meter == Measure(old(meter), t) && dt == Dt(old(meter), t.mono)
    {
      dt := if meter.lastTick.None? then 0.0 else r.mono - meter.lastTick.value;
      meter := meter.(lastTick := Some(r.mono));
      if r.metrics.None? {
        return;
      }
      var cur := r.metrics.value;
      if meter.last.Some? && dt > 0.0 {
        var dp := Increase(cur.rxPkts, meter.last.value.rxPkts);
        var db := Increase(cur.rxBytes, meter.last.value.rxBytes);
        meter := meter.(rxPps := dp as real / dt, rxBps := db as real * 8.0 / dt);
      }
      meter := meter.(last := Some(cur));
    }

    /** `vg_ctrl_tick`, given what it reads; t is the event it amounts to. */
    method Tick(r: Readings) returns (ghost t: TickInput)
      requires Valid()
      modifies Repr()
      ensures TickOf(lim, r, t)
      ensures Valid() && View() == GateModel.Tick(old(View()), t)
      ensures Tame(old(kernel.log), kernel.log, conf) && conf == old(conf) && kernel.failures >= old(kernel.failures)
      ensures kernel.failures == old(kernel.failures) ==> TickWorks(t)
    {
      hide TableInv, StoreInv, Contents, Records, Walk, SweepGate, GateModel.Disarm, GateModel.Arm, Tame;
      hide VisitsOf, WritesWork, Reported, WalkedAll, Settle, WalkAndExpire;
      t := Plain(lim, r);
      PlainTick(lim, r);
      TameNone(kernel.log, conf);
      var dt := ReadMeter(r, t);
      if r.metrics.None? || dt <= 0.0 {
        return;
      }
      var ok;
      if mode == Idle {
        if meter.rxPps > conf.wakePps as real || meter.rxBps > conf.wakeMbps as real * 1000000.0 {
          ghost var armOk;
          ok, armOk := Arm();
          t := t.(armOk := armOk);
        }
        return;
      }
      t := ActiveTick(r, dt, t);
    }

    /** The walk and the expiry pass of an active tick. */
    method WalkThenExpire(r: Readings, dt: real, ghost t0: TickInput) returns (ghost t: TickInput)
      requires Valid() && mode == Active && TickOf(lim, r, t0) && TickWorks(t0)
      modifies Repr()
      ensures TickOf(lim, r, t) && t == t0.(visits := t.visits, stuck := t.stuck)
      ensures Valid() && View() == WalkAndExpire(old(View()), t, dt)
      ensures Tame(old(kernel.log), kernel.log, conf) && conf == old(conf) && kernel.failures >= old(kernel.failures)
      ensures kernel.failures == old(kernel.failures) ==> TickWorks(t)
    {
      hide TableInv, StoreInv, Contents, Records, Walk, SweepGate, VisitsOf, WritesWork, Grew, Tame, Reported, WalkedAll;
      ghost var vs, stuck;
      var complete;
      complete, vs := WalkRemotes(r, dt);
      ghost var log1 := kernel.log;
      WalkKeepsConf(old(View()), vs, complete, dt);
      ghost var g1 := View();
      var w := Expire(r.expireNow, conf.banTime);
      stuck := SweepList(w);
      SweepFields(g1, w, stuck);
      GrewTame(log1, kernel.log, conf);
      TameTwice(old(kernel.log), log1, kernel.log, conf);
      t := t0.(visits := vs, stuck := stuck);
    }

    /** The rest of an evaluated tick of an active gate. */
    method ActiveTick(r: Readings, dt: real, ghost t0: TickInput) returns (ghost t: TickInput)
      requires Valid() && mode == Active && TickOf(lim, r, t0) && TickWorks(t0)
      modifies Repr()
      ensures TickOf(lim, r, t) && t == t0.(visits := t.visits, stuck := t.stuck, flushStuck := t.flushStuck, commitOk := t.commitOk)
      ensures Valid() && View() == Settle(WalkAndExpire(old(View()), t, dt), t)
      ensures Tame(old(kernel.log), kernel.log, conf) && conf == old(conf) && kernel.failures >= old(kernel.failures)
      ensures kernel.failures == old(kernel.failures) ==> TickWorks(t)
    {
      hide TableInv, StoreInv, Contents, Records, Walk, SweepGate, GateModel.Disarm, UniqueKeys, Below, Nb;
      hide VisitsOf, WritesWork, Tame, Reported, WalkedAll;
      t := WalkThenExpire(r, dt, t0);
      if meter.rxPps < conf.wakePps as real && meter.rxBps < conf.wakeMbps as real * 1000000.0 {
        if quietSince == 0 {
          quietSince := r.quietNow;
        }
        table.Slots(0);
        if table.count == 0 && r.checkNow - quietSince >= conf.clearSeconds {
          var ok;
          ghost var flushStuck, commitOk;
          ghost var log1 := kernel.log;
          ok, flushStuck, commitOk := Disarm();
          TameTwice(old(kernel.log), log1, kernel.log, conf);
          t := t.(flushStuck := flushStuck, commitOk := commitOk);
        }
      } else {
        quietSince := 0;
      }
    }

    /** The refills of a reload, allow map first. */
    method RefillMaps(n: Config) returns (ghost allow: Refill, ghost local: Refill)
      requires kernel.Valid()
      modifies kernel
      ensures kernel.Valid() && kernel.failures >= old(kernel.failures)
      ensures kernel.failures == old(kernel.failures) ==> allow == local == Refill({}, {})
      ensures kernel.maps == old(kernel.maps).(allow := Refilled(old(kernel.maps).allow, n.allow, allow),
                                               local := Refilled(old(kernel.maps).local, n.local, local))
      ensures Extends(old(kernel.log), kernel.log)
      ensures var m := old(kernel.maps);
              Clear(m.drops.Keys, m.local + m.allow + SetOf(n.allow) + SetOf(n.local)) ==>
                SafeFrom(kernel.log, |old(kernel.log)|)
    {
      hide Overlaps, LiveDisjoint, Between, Refilled, SetOf, WithKeys;
      ghost var log2, maps2 := kernel.log, kernel.maps;
      allow := kernel.Populate(AllowMap, n.allow);
      RefilledMaps(maps2, kernel.maps, AllowMap, n.allow, allow);
      ghost var log3, maps3 := kernel.log, kernel.maps;
      local := kernel.Populate(LocalMap, n.local);
      RefilledMaps(maps3, kernel.maps, LocalMap, n.local, local);
      if Clear(maps2.drops.Keys, maps2.local + maps2.allow + SetOf(n.allow) + SetOf(n.local)) {
        RefillSafe(n, log2, maps2, log3, maps3, kernel.log);
      }
      ExtendsTwice(log2, log3, kernel.log);
    }

    /** The prune and the commit of a reload. */
    method PruneAndCommit(n: Config) returns (ok: bool, ghost stuck: set<Cidr>)
      requires Valid() && conf == n
      modifies Repr()
      ensures Valid()
      ensures var g := SweepGate(old(View()), Prune(n), stuck);
              View() == if ok then g.(maps := g.maps.(cfg := Committed(g.mode == Active, n))) else g
      ensures kernel.failures >= old(kernel.failures) && (!ok || stuck != {} ==> kernel.failures > old(kernel.failures))
      ensures Extends(old(kernel.log), kernel.log)
      ensures LiveDisjoint(old(kernel.maps)) && Keys(old(View()).list) == old(kernel.maps).drops.Keys && stuck == {} ==>
                && SafeFrom(kernel.log, |old(kernel.log)|)
                && Clear(kernel.maps.drops.Keys, kernel.maps.local + kernel.maps.allow + SetOf(n.allow) + SetOf(n.local))
    {
      hide TableInv, StoreInv, Contents, Records, SweepGate, Overlaps, Keys, LiveDisjoint, Between, SetOf;
      ghost var log0, g := kernel.log, View();
      stuck := SweepList(Prune(n));
      SweepFields(g, Prune(n), stuck);
      ghost var log1 := kernel.log;
      ok := kernel.Commit(mode == Active, n);
      if LiveDisjoint(g.maps) && Keys(g.list) == g.maps.drops.Keys && stuck == {} {
        PruneSafe(g, n, log0, log1, kernel.maps, kernel.log);
      }
      ExtendsTwice(log0, log1, kernel.log);
    }

    /**
     `vg_ctrl_reload` with a configuration that loaded.  If nothing live was blackholed
     before, the list mirrored the drop maps, and every delete of the prune works, then no
     map state that the XDP program can see at any point of the reload blackholes anything:
     not between two deletes, nor with the allow map half refilled, whatever else fails.
     */
    method Reload(n: Config) returns (ok: bool, ghost stuck: set<Cidr>, ghost commitOk: bool, ghost allow: Refill, ghost local: Refill)
      requires Valid()
      modifies Repr()
      ensures Valid() && (View(), ok) == GateModel.Reload(old(View()), n, stuck, commitOk, allow, local)
      ensures kernel.failures >= old(kernel.failures)
      ensures kernel.failures == old(kernel.failures) ==> AllWork(ReloadCmd(n, stuck, commitOk, allow, local))
      ensures Extends(old(kernel.log), kernel.log)
      ensures LiveDisjoint(old(kernel.maps)) && Keys(old(View()).list) == old(kernel.maps).drops.Keys && stuck == {} ==>
                forall i | |old(kernel.log)| <= i < |kernel.log| :: LiveDisjoint(kernel.log[i])
    {
      hide TableInv, StoreInv, Contents, Records, SweepGate, Overlaps, Keys, LiveDisjoint, Refilled, SetOf, Clear;
      ghost var log0 := kernel.log;
      conf := n;
      ghost var g := View();
      ok, stuck := PruneAndCommit(n);
      SweepFields(g, Prune(n), stuck);
      commitOk, allow, local := ok, Refill({}, {}), Refill({}, {});
      ghost var log2 := kernel.log;
      if ok {
        allow, local := RefillMaps(n);
        if SafeFrom(log2, |log0|) && SafeFrom(kernel.log, |log2|) {
          SafeAppend(log2, kernel.log, |log0|);
        }
        ExtendsTwice(log0, log2, kernel.log);
      }
    }

    /**
     One input, as the event of the state machine that it asks for.  The event reports a
     failed write only if a kernel write failed, and every map state on the way is safe.
     */
    method Handle(i: Input) returns (ghost e: Event)
      requires Valid()
      modifies Repr()
      ensures Matches(lim, i, e)
      ensures Valid() && View() == Step(old(View()), e)
      ensures kernel.failures >= old(kernel.failures) && (kernel.failures == old(kernel.failures) ==> AllWork(e))
      ensures Extends(old(kernel.log), kernel.log)
      ensures Settled(old(View())) && Clean(e) ==> SafeFrom(kernel.log, |old(kernel.log)|)
    {
      hide TableInv, StoreInv, Contents, Records, DropAdd, GateModel.Undrop, GateModel.Arm, GateModel.Disarm, GateModel.Reload;
      hide GateModel.Tick, TickOf, TickWorks, Tame, Inv, Exact, Guarded, LiveDisjoint, FlushesWork, SafeFrom;
      ghost var g := View();
      var ok;
      match i {
        case DropInput(p, reason, expires, now) =>
          ghost var armOk, wrote;
          ok, armOk, wrote := AddDrop(p, reason, expires, now);
          e := DropCmd(p, reason, expires, armOk, Write(now, wrote));
        case UndropInput(p) =>
          ok := Undrop(p);
          e := UndropCmd(p, ok);
        case ArmInput =>
          ghost var commitOk;
          ok, commitOk := Arm();
          e := ArmCmd(commitOk);
        case DisarmInput =>
          ghost var stuck, commitOk;
          ok, stuck, commitOk := Disarm();
          e := DisarmCmd(stuck, commitOk);
        case ReloadInput(n) =>
          ghost var stuck, commitOk, allow, local;
          ok, stuck, commitOk, allow, local := Reload(n);
          e := ReloadCmd(n, stuck, commitOk, allow, local);
          ReloadSafe(g, e, old(kernel.log), kernel.log);
          return;
        case WakeInput(r) =>
          ghost var t := Tick(r);
          e := TickEvent(t);
      }
      TameSafe(g, old(kernel.log), kernel.log);
    }

    /**
     The daemon's loop: whatever comes in and whatever fails, the stored state follows the
     run of the machine that the inputs ask for.  If no kernel write fails, no write of the
     run does.  And in a clean run the VM stays reachable in every state of the maps that
     the XDP program can meet, not only between inputs.
     */
    method Serve(inputs: seq<Input>) returns (ghost es: seq<Event>)
      requires Valid()
      modifies Repr()
      ensures Valid() && View() == Run(old(View()), es) && Follows(lim, inputs, es)
      ensures kernel.failures == old(kernel.failures) ==> forall e | e in es :: AllWork(e) && Clean(e)
      ensures Inv(old(View())) ==> Inv(View())
      ensures Settled(old(View())) && (forall e | e in es :: Clean(e)) ==>
                forall i | |old(kernel.log)| <= i < |kernel.log| :: LiveDisjoint(kernel.log[i]) && Xdp.Reachable(kernel.log[i])
    {
      hide TableInv, StoreInv, Contents, Records, Step, Inv, Settled, Matches, AllWork, Clean, LiveDisjoint, Xdp.Reachable;
      es := [];
      ghost var g0 := View();
      for k := 0 to |inputs|
        invariant Valid() && View() == Run(g0, es) && Follows(lim, inputs[..k], es)
        invariant kernel.failures >= old(kernel.failures)
        invariant kernel.failures == old(kernel.failures) ==> forall e | e in es :: AllWork(e) && Clean(e)
        invariant Extends(old(kernel.log), kernel.log)
        invariant Settled(g0) && (forall e | e in es :: Clean(e)) ==> SafeFrom(kernel.log, |old(kernel.log)|)
      {
        ghost var log := kernel.log;
        ghost var e := Handle(inputs[k]);
        RunSnoc(g0, es, e);
        OneMore(g0, es, e, old(kernel.log), log, kernel.log);
        if AllWork(e) {
          WorkingIsClean(e);
        }
        assert inputs[..k + 1] == inputs[..k] + [inputs[k]];
        es := es + [e];
      }
      assert inputs[..|inputs|] == inputs;
      if Inv(g0) {
        RunKeepsInv(g0, es);
      }
      forall i | |old(kernel.log)| <= i < |kernel.log| && LiveDisjoint(kernel.log[i])
        ensures Xdp.Reachable(kernel.log[i])
      {
        Xdp.DisjointIsReachable(kernel.log[i]);
      }
    }
  }
}
