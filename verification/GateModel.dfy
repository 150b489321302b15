/**
 The gate as a state machine (src/policy.c, and the reload of src/ctl_server.c).

 `Gate` is the control plane's state together with the kernel maps.  Each event
 carries everything the code reads from outside: clocks, metrics, the walked
 counters, and for every kernel write whether it succeeds.
 */
module GateModel {
  import opened Cidrs
  import opened KernelState

  datatype Mode = Idle | Active

  /** `struct vg_drop_rec`, without its links. */
  datatype Drop = Drop(cidr: Cidr, reason: Reason, inserted: int, expires: int)

  /** `struct vg_snap_ent`, without its key and link. */
  datatype Snap = Snap(pkts: nat, bytes: nat, gen: nat)

  datatype Snaps = Snaps(tab: map<Host, Snap>, gen: nat)

  datatype Metrics = Metrics(rxPkts: nat, rxBytes: nat)

  datatype Meter = Meter(lastTick: Option<real>, last: Option<Metrics>, rxPps: real, rxBps: real)

  /** Fixed at start: the record pool, each drop map, the snapshot pool, the configured remote map size. */
  datatype Limits = Limits(poolCap: nat, dropMax: nat, snapCap: nat, remoteMapSize: nat)

  datatype Gate = Gate(
    lim: Limits, mode: Mode, conf: Config, list: seq<Drop>, maps: Maps,
    quietSince: int, snaps: Snaps, meter: Meter)

  // ---------------------------------------------------------------- the drop list

  function Keys(list: seq<Drop>): set<Cidr> {
    set d | d in list :: d.cidr
  }

  predicate UniqueKeys(list: seq<Drop>) {
    forall i, j | 0 <= i < j < |list| :: list[i].cidr != list[j].cidr
  }

  /** The linear scan that `drops_find` must agree with: the first record of p, or |list|. */
  function IndexOf(list: seq<Drop>, p: Cidr): (i: nat)
    ensures i <= |list|
    ensures i < |list| ==> list[i].cidr == p
    ensures forall j | 0 <= j < i :: list[j].cidr != p
  {
    if list == [] || list[0].cidr == p then 0 else 1 + IndexOf(list[1..], p)
  }

  /** The moment a drop lifts by itself; None for a manual one. */
  function LiftTime(d: Drop, banTime: nat): Option<int> {
    match d.reason
    case Manual => None
    case Timed => Some(d.expires)
    case _ => Some(d.inserted + banTime)
  }

  /** An update of one drop map; a new key needs a free slot in its family's map. */
  predicate CanAdd(maps: Maps, p: Cidr, dropMax: nat) {
    p in maps.drops || |OfFamily(maps.drops.Keys, p.family)| < dropMax
  }

  /** The moment a drop happens and whether the kernel accepts the write. */
  datatype Write = Write(now: int, ok: bool)

  // ---------------------------------------------------------------- arm, drop, undrop

  /** `vg_ctrl_arm`. */
  function Arm(g: Gate, commitOk: bool): (Gate, bool) {
    if g.mode == Active then (g, true)
    else
      var g1 := g.(snaps := g.snaps.(tab := map[]), quietSince := 0);
      if commitOk then (g1.(mode := Active, maps := g1.maps.(cfg := Committed(true, g.conf))), true)
      else (g1, false)
  }

  /** What a flush leaves of the drop maps: the entries whose delete fails. */
  function Flushed(drops: map<Cidr, DropEntry>, stuck: set<Cidr>): map<Cidr, DropEntry> {
    map c | c in drops && c in stuck :: drops[c]
  }

  /** `vg_ctrl_disarm`; stuck holds the keys whose flush delete fails. */
  function Disarm(g: Gate, stuck: set<Cidr>, commitOk: bool): (Gate, bool) {
    var g1 := g.(list := [], maps := g.maps.(drops := Flushed(g.maps.drops, stuck)));
    if commitOk then
      (g1.(mode := Idle, quietSince := 0, maps := g1.maps.(cfg := Committed(false, g.conf))), true)
    else (g1, false)
  }

  /** The in-place rewrite of a listed record by an accepted re-drop. */
  function Rewrite(r: Drop, reason: Reason, expires: int, now: int): Drop {
    if reason == Manual || reason == Timed then r.(reason := reason, inserted := now, expires := expires) else r
  }

  function WithKernelDrop(g: Gate, p: Cidr, reason: Reason, now: int): Gate {
    g.(maps := g.maps.(drops := g.maps.drops[p := DropEntry(reason, now % TWO32)]))
  }

  /** The first listing of p. */
  function DropNew(g: Gate, p: Cidr, reason: Reason, expires: int, w: Write): (Gate, bool) {
    if |g.list| == g.lim.poolCap then (g, false)
    else if w.ok && CanAdd(g.maps, p, g.lim.dropMax) then
      (WithKernelDrop(g, p, reason, w.now).(list := g.list + [Drop(p, reason, w.now, expires)]), true)
    else (g, false)
  }

  /** A drop of p, already listed at i. */
  function DropAgain(g: Gate, i: nat, p: Cidr, reason: Reason, expires: int, w: Write): (Gate, bool)
    requires i < |g.list|
  {
    var r := g.list[i];
    if reason == Timed && r.reason == Manual then (g, true)
    else
      // A timed drop first notes, in the record itself, when the old one would have lifted.
      var r1 := if reason == Timed && r.reason != Timed then r.(expires := r.inserted + g.conf.banTime) else r;
      var e := if reason == Timed && expires < r1.expires then r1.expires else expires;
      var g1 := g.(list := g.list[i := r1]);
      if w.ok && CanAdd(g.maps, p, g.lim.dropMax) then
        (WithKernelDrop(g1, p, reason, w.now).(list := g.list[i := Rewrite(r1, reason, e, w.now)]), true)
      else (g1, false)
  }

  /** `drop_add` once the gate is armed. */
  function DropArmed(g: Gate, p: Cidr, reason: Reason, expires: int, w: Write): (Gate, bool) {
    var i := IndexOf(g.list, p);
    if i == |g.list| then DropNew(g, p, reason, expires, w) else DropAgain(g, i, p, reason, expires, w)
  }

  /** `drop_add`. */
  function DropAdd(g: Gate, p: Cidr, reason: Reason, expires: int, armOk: bool, w: Write): (Gate, bool) {
    if Protected(g.conf, p) then (g, false)
    else
      var (g1, armed) := Arm(g, armOk);
      if !armed then (g1, false) else DropArmed(g1, p, reason, expires, w)
  }

  /** A listed record goes away together with its kernel entry. */
  function RemoveAt(g: Gate, i: nat): Gate
    requires i < |g.list|
  {
    g.(list := g.list[..i] + g.list[i + 1..], maps := g.maps.(drops := g.maps.drops - {g.list[i].cidr}))
  }

  /** `vg_ctrl_undrop`; delOk also stands for "not found". */
  function Undrop(g: Gate, p: Cidr, delOk: bool): (Gate, bool) {
    var i := IndexOf(g.list, p);
    if !delOk then (g, false)
    else if i < |g.list| then (RemoveAt(g, i), true)
    else (g.(maps := g.maps.(drops := g.maps.drops - {p})), true)
  }

  // ---------------------------------------------------------------- sweeps over the list

  /** The two loops that lift drops while walking the list. */
  datatype Sweep = Expire(now: int, banTime: nat) | Prune(conf: Config)

  /** Which records a sweep tries to lift: `expire_drops` and `vg_ctrl_prune_protected`. */
  predicate Doomed(s: Sweep, d: Drop) {
    match s
    case Expire(now, banTime) =>
      !(d.reason == Manual || (if d.reason == Timed then now < d.expires else now - d.inserted < banTime))
    case Prune(conf) => Protected(conf, d.cidr)
  }

  predicate Lifted(s: Sweep, stuck: set<Cidr>, d: Drop) {
    Doomed(s, d) && d.cidr !in stuck
  }

  /** The records left after a sweep, in list order; stuck holds the keys whose delete fails. */
  function Survivors(s: Sweep, stuck: set<Cidr>, list: seq<Drop>): seq<Drop> {
    if list == [] then []
    else
      var n := |list| - 1;
      Survivors(s, stuck, list[..n]) + if Lifted(s, stuck, list[n]) then [] else [list[n]]
  }

  function LiftedKeys(s: Sweep, stuck: set<Cidr>, list: seq<Drop>): set<Cidr> {
    set d | d in list && Lifted(s, stuck, d) :: d.cidr
  }

  function SweepGate(g: Gate, s: Sweep, stuck: set<Cidr>): Gate {
    g.(list := Survivors(s, stuck, g.list),
       maps := g.maps.(drops := g.maps.drops - LiftedKeys(s, stuck, g.list)))
  }

  // ---------------------------------------------------------------- the policy walk

  /** One remote reported by the walk, and the outcome of the drops it may cause. */
  datatype Visit = Visit(host: Host, pkts: nat, bytes: nat, drop: Write, widen: Write)

  /** How many listed, non-timed prefixes lie inside net. */
  function Density(list: seq<Drop>, net: Cidr): nat {
    if list == [] then 0
    else
      var n := |list| - 1;
      Density(list[..n], net) + if list[n].reason != Timed && Contains(net, list[n].cidr) then 1 else 0
  }

  predicate WantsWidening(g: Gate, host: Cidr) {
    Density(g.list, Widen(host)) >= g.conf.aggregateK
  }

  /** `maybe_aggregate`. */
  function MaybeAggregate(g: Gate, host: Cidr, w: Write): Gate {
    if WantsWidening(g, host) then DropAdd(g, Widen(host), Aggregate, 0, true, w).0 else g
  }

  function Increase(cur: nat, last: nat): nat {
    if cur >= last then cur - last else 0
  }

  /** Rates of an increase over dt seconds reach a threshold. */
  predicate OverThreshold(conf: Config, dp: nat, db: nat, dt: real) {
    && dt > 0.0
    && !(&& dp as real / dt < conf.thresholdPps as real
         && db as real * 8.0 / dt < conf.thresholdMbps as real * 1000000.0)
  }

  /** `snap_get` followed by the store of the new counters. */
  function Snapshot(g: Gate, v: Visit): Gate {
    if v.host in g.snaps.tab || |g.snaps.tab| < g.lim.snapCap then
      g.(snaps := g.snaps.(tab := g.snaps.tab[v.host := Snap(v.pkts, v.bytes, g.snaps.gen)]))
    else g
  }

  /** The visit finds a snapshot to compare with, and an increase over a threshold. */
  predicate Triggers(g: Gate, v: Visit, dt: real) {
    && v.host in g.snaps.tab
    && OverThreshold(g.conf, Increase(v.pkts, g.snaps.tab[v.host].pkts),
                     Increase(v.bytes, g.snaps.tab[v.host].bytes), dt)
  }

  /** `policy_one_remote`. */
  function PolicyVisit(g: Gate, v: Visit, dt: real): Gate {
    var g1 := Snapshot(g, v);
    if !Triggers(g, v, dt) then g1
    else
      var (g2, dropped) := DropAdd(g1, HostCidr(v.host), Policy, 0, true, v.drop);
      if dropped then MaybeAggregate(g2, HostCidr(v.host), v.widen) else g2
  }

  function Visits(g: Gate, vs: seq<Visit>, dt: real): Gate {
    if vs == [] then g else PolicyVisit(Visits(g, vs[..|vs| - 1], dt), vs[|vs| - 1], dt)
  }

  /** The generation step at the start of a walk, 32-bit wrap-around included. */
  function NextGen(s: Snaps): Snaps {
    var gen := (s.gen + 1) % TWO32;
    if gen == 0 then Snaps(map[], 1) else s.(gen := gen)
  }

  /** `snap_prune`: forget the remotes this walk did not report. */
  function PruneSnaps(s: Snaps): Snaps {
    s.(tab := map h | h in s.tab && s.tab[h].gen == s.gen :: s.tab[h])
  }

  /** `walk_remotes`. */
  function Walk(g: Gate, vs: seq<Visit>, complete: bool, dt: real): Gate {
    var g1 := Visits(g.(snaps := NextGen(g.snaps)), vs, dt);
    if complete then g1.(snaps := PruneSnaps(g1.snaps)) else g1
  }

  // ---------------------------------------------------------------- the tick

  /** What one tick reads: the monotonic clock, the metrics, the walk, the wall clocks, the write outcomes. */
  datatype TickInput = TickInput(
    mono: real, metrics: Option<Metrics>, armOk: bool,
    visits: seq<Visit>, complete: bool,
    expireNow: int, stuck: set<Cidr>,
    quietNow: int, checkNow: int, flushStuck: set<Cidr>, commitOk: bool)

  /** `tick_dt`. */
  function Dt(m: Meter, mono: real): real {
    if m.lastTick.None? then 0.0 else mono - m.lastTick.value
  }

  /** The meter after the metrics of this tick are read. */
  function Measure(m: Meter, t: TickInput): Meter {
    var dt := Dt(m, t.mono);
    var m1 := m.(lastTick := Some(t.mono));
    match t.metrics
    case None => m1
    case Some(cur) =>
      var m2 := if m1.last.Some? && dt > 0.0 then
                  m1.(rxPps := Increase(cur.rxPkts, m1.last.value.rxPkts) as real / dt,
                      rxBps := Increase(cur.rxBytes, m1.last.value.rxBytes) as real * 8.0 / dt)
                else m1;
      m2.(last := Some(cur))
  }

  /** The tick gets past its early returns. */
  predicate Evaluated(m: Meter, t: TickInput) {
    t.metrics.Some? && Dt(m, t.mono) > 0.0
  }

  predicate AboveWake(conf: Config, m: Meter) {
    m.rxPps > conf.wakePps as real || m.rxBps > conf.wakeMbps as real * 1000000.0
  }

  predicate BelowWake(conf: Config, m: Meter) {
    m.rxPps < conf.wakePps as real && m.rxBps < conf.wakeMbps as real * 1000000.0
  }

  /** An evaluated tick of an active gate, up to and including the expiry pass. */
  function WalkAndExpire(g: Gate, t: TickInput, dt: real): Gate {
    SweepGate(Walk(g, t.visits, t.complete, dt), Expire(t.expireNow, g.conf.banTime), t.stuck)
  }

  /** The quiet timer once this tick is known to be quiet. */
  function QuietMark(g: Gate, t: TickInput): int {
    if g.quietSince == 0 then t.quietNow else g.quietSince
  }

  /** The attack is over: nothing listed, and quiet for long enough. */
  predicate Cleared(g: Gate, t: TickInput) {
    g.list == [] && t.checkNow - QuietMark(g, t) >= g.conf.clearSeconds
  }

  /** The end of an active tick: quiet timer and automatic disarm. */
  function Settle(g: Gate, t: TickInput): Gate {
    if !BelowWake(g.conf, g.meter) then g.(quietSince := 0)
    else
      var g1 := g.(quietSince := QuietMark(g, t));
      if Cleared(g, t) then Disarm(g1, t.flushStuck, t.commitOk).0 else g1
  }

  /** `vg_ctrl_tick`. */
  function Tick(g: Gate, t: TickInput): Gate {
    var dt := Dt(g.meter, t.mono);
    var g1 := g.(meter := Measure(g.meter, t));
    if !Evaluated(g.meter, t) then g1
    else if g.mode == Idle then
      if AboveWake(g.conf, g1.meter) then Arm(g1, t.armOk).0 else g1
    else Settle(WalkAndExpire(g1, t, dt), t)
  }

  // ---------------------------------------------------------------- reload

  /** Outcome of one flush-and-refill: keys whose delete fails, keys whose insert fails. */
  datatype Refill = Refill(stuck: set<Cidr>, failed: set<Cidr>)

  /** `vg_populate_allow` / `vg_populate_local`. */
  function Refilled(live: set<Cidr>, want: seq<Cidr>, r: Refill): set<Cidr> {
    (live * r.stuck) + (SetOf(want) - r.failed)
  }

  /** `vg_ctrl_reload` with a configuration that loaded. */
  function Reload(g: Gate, conf: Config, stuck: set<Cidr>, commitOk: bool, allow: Refill, local: Refill): (Gate, bool) {
    var g1 := SweepGate(g.(conf := conf), Prune(conf), stuck);
    if !commitOk then (g1, false)
    else
      (g1.(maps := g1.maps.(cfg := Committed(g1.mode == Active, conf),
                            allow := Refilled(g1.maps.allow, conf.allow, allow),
                            local := Refilled(g1.maps.local, conf.local, local))), true)
  }

  // ---------------------------------------------------------------- events and runs

  datatype Event =
    | DropCmd(p: Cidr, reason: Reason, expires: int, armOk: bool, w: Write)
    | UndropCmd(p: Cidr, delOk: bool)
    | ArmCmd(armOk: bool)
    | DisarmCmd(stuck: set<Cidr>, commitOk: bool)
    | ReloadCmd(conf: Config, stuck: set<Cidr>, commitOk: bool, allow: Refill, local: Refill)
    | TickEvent(t: TickInput)

  function Step(g: Gate, e: Event): Gate {
    match e
    case DropCmd(p, reason, expires, armOk, w) => DropAdd(g, p, reason, expires, armOk, w).0
    case UndropCmd(p, delOk) => Undrop(g, p, delOk).0
    case ArmCmd(armOk) => Arm(g, armOk).0
    case DisarmCmd(stuck, commitOk) => Disarm(g, stuck, commitOk).0
    case ReloadCmd(conf, stuck, commitOk, allow, local) => Reload(g, conf, stuck, commitOk, allow, local).0
    case TickEvent(t) => Tick(g, t)
  }

  function Run(g: Gate, es: seq<Event>): Gate {
    if es == [] then g else Step(Run(g, es[..|es| - 1]), es[|es| - 1])
  }

  /** `vg_ctrl_init` after the daemon's start-up writes; lost holds the keys whose insert failed. */
  function Init(lim: Limits, conf: Config, lost: set<Cidr>): Gate {
    Gate(lim, Idle, conf, [],
         Maps(Committed(false, conf), map[], SetOf(conf.allow) - lost, SetOf(conf.local) - lost),
         0, Snaps(map[], 0), Meter(None, None, 0.0, 0.0))
  }
}
