/**
 How long a drop stays: re-drops never shorten it, an expiry pass lifts exactly the
 due drops whose delete works, and over whole runs nothing else lifts a drop early
 except an undrop, a disarm, or a reload that protects it.
 */
module Lifetimes {
  import opened Cidrs
  import opened KernelState
  import opened GateModel
  import opened GateSafety
  import opened Widening

  ghost predicate Listed(list: seq<Drop>, p: Cidr) {
    IndexOf(list, p) < |list|
  }

  ghost function RecordOf(list: seq<Drop>, p: Cidr): Drop
    requires Listed(list, p)
  {
    list[IndexOf(list, p)]
  }

  /** Lift time a is not before lift time b; None never comes. */
  predicate NotBefore(a: Option<int>, b: Option<int>) {
    a.None? || (b.Some? && a.value >= b.value)
  }

  /** p is still listed and lifts no earlier. */
  ghost predicate StillBanned(list: seq<Drop>, list': seq<Drop>, p: Cidr, banTime: nat)
    requires Listed(list, p)
  {
    Listed(list', p) && NotBefore(LiftTime(RecordOf(list', p), banTime), LiftTime(RecordOf(list, p), banTime))
  }

  // ---------------------------------------------------------------- re-drops

  /** A list that keeps every prefix in place, and whose record of p lifts no earlier. */
  lemma SamePlace(list: seq<Drop>, list': seq<Drop>, p: Cidr, banTime: nat)
    requires Listed(list, p) && |list'| >= |list|
    requires forall j | 0 <= j < |list| :: list'[j].cidr == list[j].cidr
    requires forall j | 0 <= j < |list| :: NotBefore(LiftTime(list'[j], banTime), LiftTime(list[j], banTime))
    ensures StillBanned(list, list', p, banTime)
  {
  }

  /** Dropping q while armed keeps every record in place and never lowers a lift time. */
  lemma DropArmedNeverShortens(g: Gate, q: Cidr, reason: Reason, expires: int, w: Write, j: nat, b: nat)
    requires j < |g.list| && b <= g.conf.banTime
    ensures var list' := DropArmed(g, q, reason, expires, w).0.list;
            && |list'| >= |g.list| && list'[j].cidr == g.list[j].cidr
            && NotBefore(LiftTime(list'[j], b), LiftTime(g.list[j], b))
  {
  }

  /**
   Re-dropping a listed prefix, with any reason, ttl and outcome of the map write,
   keeps it listed and never brings its lift time forward, whether that is reckoned
   with the current ban_time or with any shorter one.
   */
  lemma RedropNeverShortens(g: Gate, q: Cidr, reason: Reason, expires: int, armOk: bool, w: Write, p: Cidr, b: nat)
    requires Inv(g) && Listed(g.list, p) && b <= g.conf.banTime
    ensures StillBanned(g.list, DropAdd(g, q, reason, expires, armOk, w).0.list, p, b)
  {
    if !Protected(g.conf, q) {
      var list' := DropArmed(g, q, reason, expires, w).0.list;
      forall j: nat | j < |g.list|
        ensures |list'| >= |g.list| && list'[j].cidr == g.list[j].cidr
        ensures NotBefore(LiftTime(list'[j], b), LiftTime(g.list[j], b))
      {
        DropArmedNeverShortens(g, q, reason, expires, w, j, b);
      }
      SamePlace(g.list, list', p, b);
    }
  }

  lemma IndexIs(list: seq<Drop>, p: Cidr, k: nat)
    requires k < |list| && list[k].cidr == p && forall m | 0 <= m < k :: list[m].cidr != p
    ensures IndexOf(list, p) == k
  {
  }

  function Later(a: int, b: int): int {
    if a < b then b else a
  }

  /**
   How an accepted drop of p leaves its record; `was` is the record before, if there was one.
   A new record is as asked.  A policy or aggregate repeat, and a timed drop of a manual
   one, leave the record alone.  A manual drop makes it manual.  A timed drop makes it timed,
   to lift at the later of the time asked for and the time it would have lifted.
   */
  ghost predicate Honoured(was: Option<Drop>, now: Drop, p: Cidr, reason: Reason, expires: int, t: int, banTime: nat) {
    match was
    case None => now == Drop(p, reason, t, expires)
    case Some(r) =>
      match reason
      case Manual => now.cidr == p && now.reason == Manual && now.inserted == t
      case Timed =>
        if r.reason == Manual then now == r
        else now == Drop(p, Timed, t, Later(expires, if r.reason == Timed then r.expires else r.inserted + banTime))
      case _ => now == r
  }

  ghost function FindRecord(list: seq<Drop>, p: Cidr): Option<Drop> {
    if Listed(list, p) then Some(RecordOf(list, p)) else None
  }

  /** Every record but that of p is as it was, where it was. */
  ghost predicate OthersStay(list: seq<Drop>, list': seq<Drop>, p: Cidr) {
    |list| <= |list'| && forall j | 0 <= j < |list| && list[j].cidr != p :: list'[j] == list[j]
  }

  /** The kernel entry is that of this drop, and all others are as they were. */
  ghost predicate Entered(m: Maps, m': Maps, p: Cidr, reason: Reason, t: int) {
    m'.drops == m.drops[p := DropEntry(reason, t % TWO32)] && m'.local == m.local && m'.allow == m.allow
  }

  lemma DropArmedPlace(g: Gate, p: Cidr, reason: Reason, expires: int, w: Write)
    ensures var (g', ok) := DropArmed(g, p, reason, expires, w); var i := IndexOf(g.list, p);
            && OthersStay(g.list, g'.list, p)
            && |g'.list| == |g.list| + (if ok && i == |g.list| then 1 else 0)
            && (ok || i < |g.list| ==> i < |g'.list| && g'.list[i].cidr == p && forall m | 0 <= m < i :: g'.list[m].cidr != p)
  {
  }

  lemma DropArmedHolds(g: Gate, p: Cidr, reason: Reason, expires: int, w: Write)
    ensures var (g', ok) := DropArmed(g, p, reason, expires, w);
            && (ok ==> Listed(g'.list, p)
                       && Honoured(FindRecord(g.list, p), RecordOf(g'.list, p), p, reason, expires, w.now, g.conf.banTime))
            && (ok ==> if reason == Timed && Listed(g.list, p) && RecordOf(g.list, p).reason == Manual
                       then g'.maps == g.maps else Entered(g.maps, g'.maps, p, reason, w.now))
            && (!ok ==> g'.maps == g.maps)
            && (!ok && Listed(g.list, p) ==>
                  Listed(g'.list, p)
                  && LiftTime(RecordOf(g'.list, p), g.conf.banTime) == LiftTime(RecordOf(g.list, p), g.conf.banTime))
  {
    hide IndexOf;
    var i := IndexOf(g.list, p);
    var (g', ok) := DropArmed(g, p, reason, expires, w);
    if ok || i < |g.list| {
      DropArmedPlace(g, p, reason, expires, w);
      IndexIs(g'.list, p, i);
    }
  }

  /**
   An accepted drop is listed as it must be and in the kernel map, and touches nothing else.
   A refused or failed one lists nothing, changes no lift time, and leaves the kernel drop
   maps as they were.
   */
  lemma AcceptedDropHolds(g: Gate, p: Cidr, reason: Reason, expires: int, armOk: bool, w: Write)
    requires Inv(g)
    ensures var (g', ok) := DropAdd(g, p, reason, expires, armOk, w);
            && OthersStay(g.list, g'.list, p)
            && |g'.list| == |g.list| + (if ok && !Listed(g.list, p) then 1 else 0)
            && (ok ==> g'.mode == Active && p in g'.maps.drops && Listed(g'.list, p)
                       && Honoured(FindRecord(g.list, p), RecordOf(g'.list, p), p, reason, expires, w.now, g.conf.banTime))
            && (ok ==> if reason == Timed && Listed(g.list, p) && RecordOf(g.list, p).reason == Manual
                       then g'.maps.drops == g.maps.drops else Entered(g.maps, g'.maps, p, reason, w.now))
            && (!ok ==> g'.maps.drops == g.maps.drops)
            && (!ok && Listed(g.list, p) ==>
                  Listed(g'.list, p)
                  && LiftTime(RecordOf(g'.list, p), g.conf.banTime) == LiftTime(RecordOf(g.list, p), g.conf.banTime))
  {
    hide DropArmed, Honoured, Protected, OthersStay, IndexOf, UniqueKeys, LiftTime;
    DropAddKeepsInv(g, p, reason, expires, armOk, w);
    var (g1, armed) := Arm(g, armOk);
    DropArmedHolds(g1, p, reason, expires, w);
    DropArmedPlace(g1, p, reason, expires, w);
    NobodyMoves(g.list, p);
    KeysHas(g.list, p);
    if armed {
      DropArmedKeepsInv(g1, p, reason, expires, w);
    }
  }

  lemma NobodyMoves(list: seq<Drop>, p: Cidr)
    ensures OthersStay(list, list, p)
  {
  }

  /**
   When a drop is accepted: exactly when the prefix is not protected, the gate is or can be
   armed, and it is a timed drop of a manual record or the prefix is or can be listed, its
   map has room, and the write works.  A protected prefix changes nothing at all.
   */
  lemma DropAcceptedExactly(g: Gate, p: Cidr, reason: Reason, expires: int, armOk: bool, w: Write)
    requires Inv(g)
    ensures DropAdd(g, p, reason, expires, armOk, w).1 <==>
            && !Protected(g.conf, p) && (g.mode == Active || armOk)
            && (|| (reason == Timed && Listed(g.list, p) && RecordOf(g.list, p).reason == Manual)
                || (w.ok && (Listed(g.list, p) || Takes(g, p, true))))
    ensures Protected(g.conf, p) ==> DropAdd(g, p, reason, expires, armOk, w).0 == g
  {
    hide Protected, ModeInv, SnapInv;
    KeysHas(g.list, p);
  }

  // ---------------------------------------------------------------- sweeps

  /** The expiry test is exactly "the lift time has come". */
  lemma DueIsLiftTime(d: Drop, now: int, banTime: nat)
    ensures Doomed(Expire(now, banTime), d) <==>
            LiftTime(d, banTime).Some? && LiftTime(d, banTime).value <= now
  {
  }

  /** Positions `at`, in increasing order, pick from the list exactly what `kept` holds. */
  ghost predicate Picks(at: seq<nat>, list: seq<Drop>, kept: seq<Drop>) {
    && |at| == |kept|
    && (forall k | 0 <= k < |at| :: at[k] < |list| && kept[k] == list[at[k]])
    && (forall k, l | 0 <= k < l < |at| :: at[k] < at[l])
  }

  lemma PicksMore(at: seq<nat>, list: seq<Drop>, kept: seq<Drop>, d: Drop)
    requires Picks(at, list, kept)
    ensures Picks(at, list + [d], kept)
    ensures Picks(at + [|list|], list + [d], kept + [d])
  {
  }

  /**
   A sweep visits every record once: the survivors are the records at strictly
   increasing positions, and every other record was doomed and its delete worked.
   */
  lemma {:induction false} SweepIsExact(s: Sweep, stuck: set<Cidr>, list: seq<Drop>) returns (at: seq<nat>)
    ensures Picks(at, list, Survivors(s, stuck, list))
    ensures forall i: nat | i < |list| :: i !in at <==> Lifted(s, stuck, list[i])
  {
    if list == [] {
      return [];
    }
    var n := |list| - 1;
    var front, d := list[..n], list[n];
    var lifted := Lifted(s, stuck, d);
    assert list == front + [d];
    assert Survivors(s, stuck, list) == Survivors(s, stuck, front) + if lifted then [] else [d];
    var at0 := SweepIsExact(s, stuck, front);
    PicksMore(at0, front, Survivors(s, stuck, front), d);
    at := if lifted then at0 else at0 + [n];
    if lifted {
      assert Survivors(s, stuck, list) == Survivors(s, stuck, front);
    }
    forall i: nat | i < |list|
      ensures i !in at <==> Lifted(s, stuck, list[i])
    {
      if i < n {
        assert list[i] == front[i];
      }
    }
  }

  lemma SurvivorKeepsRecord(s: Sweep, stuck: set<Cidr>, list: seq<Drop>, p: Cidr)
    requires UniqueKeys(list) && Listed(list, p) && !Lifted(s, stuck, RecordOf(list, p))
    ensures Listed(Survivors(s, stuck, list), p)
    ensures RecordOf(Survivors(s, stuck, list), p) == RecordOf(list, p)
  {
    var l, d := Survivors(s, stuck, list), RecordOf(list, p);
    SurvivorsFacts(s, stuck, list);
    assert d in l;
    KeysHas(l, p);
    assert RecordOf(l, p) in l;
    var j :| 0 <= j < |list| && list[j] == RecordOf(l, p);
    assert j == IndexOf(list, p);
  }

  // ---------------------------------------------------------------- undrops

  /** An accepted undrop unlists the prefix and clears its kernel entry, stray or not; a failed one changes nothing. */
  lemma UndropLifts(g: Gate, p: Cidr, delOk: bool)
    requires Inv(g)
    ensures var (g', ok) := Undrop(g, p, delOk);
            && ok == delOk
            && (ok ==> !Listed(g'.list, p) && g'.maps.drops == g.maps.drops - {p})
            && (!ok ==> g' == g)
  {
  }

  lemma UndropSpares(g: Gate, q: Cidr, delOk: bool, p: Cidr)
    requires Inv(g) && Listed(g.list, p) && q != p
    ensures Listed(Undrop(g, q, delOk).0.list, p)
    ensures RecordOf(Undrop(g, q, delOk).0.list, p) == RecordOf(g.list, p)
  {
    hide Inv;
    var i, j := IndexOf(g.list, q), IndexOf(g.list, p);
    if delOk && i < |g.list| {
      var l := g.list[..i] + g.list[i + 1..];
      var k := if j < i then j else j - 1;
      assert l[k] == g.list[j];
      assert forall m | 0 <= m < k :: l[m] == g.list[if m < i then m else m + 1];
      IndexIs(l, p, k);
    }
  }

  // ---------------------------------------------------------------- whole runs

  /** e is none of the three early ways out for p, and no expiry pass of e comes at or after lift. */
  ghost predicate Spares(e: Event, p: Cidr, lift: Option<int>) {
    match e
    case UndropCmd(q, _) => q != p
    case DisarmCmd(_, _) => false
    case ReloadCmd(conf, _, _, _, _) => !Protected(conf, p)
    case TickEvent(t) => lift.None? || t.expireNow < lift.value
    case _ => true
  }

  /** The event keeps ban_time at b or above. */
  ghost predicate KeepsBanTime(e: Event, b: nat) {
    e.ReloadCmd? ==> b <= e.conf.banTime
  }

  lemma VisitsNeverShorten(g: Gate, vs: seq<Visit>, dt: real, p: Cidr, b: nat)
    requires Inv(g) && g.mode == Active && g.snaps.gen >= 1 && Listed(g.list, p) && b <= g.conf.banTime
    ensures StillBanned(g.list, Visits(g, vs, dt).list, p, b)
  {
    if vs != [] {
      var n := |vs| - 1;
      VisitsKeepInv(g, vs[..n], dt);
      VisitsNeverShorten(g, vs[..n], dt, p, b);
      VisitNeverShortens(Visits(g, vs[..n], dt), vs[n], dt, p, b);
    }
  }

  lemma VisitNeverShortens(g: Gate, v: Visit, dt: real, p: Cidr, b: nat)
    requires Inv(g) && g.mode == Active && g.snaps.gen >= 1 && Listed(g.list, p) && b <= g.conf.banTime
    ensures StillBanned(g.list, PolicyVisit(g, v, dt).list, p, b)
  {
    var g1 := Snapshot(g, v);
    assert Inv(g1);
    DropAddKeepsInv(g1, HostCidr(v.host), Policy, 0, true, v.drop);
    RedropNeverShortens(g1, HostCidr(v.host), Policy, 0, true, v.drop, p, b);
    var g2 := DropAdd(g1, HostCidr(v.host), Policy, 0, true, v.drop).0;
    RedropNeverShortens(g2, Widen(HostCidr(v.host)), Aggregate, 0, true, v.widen, p, b);
  }

  lemma WalkAndExpireNeverShorten(g: Gate, t: TickInput, dt: real, p: Cidr, b: nat)
    requires Inv(g) && g.mode == Active && Listed(g.list, p) && b <= g.conf.banTime
    requires Spares(TickEvent(t), p, LiftTime(RecordOf(g.list, p), b))
    ensures StillBanned(g.list, WalkAndExpire(g, t, dt).list, p, b)
  {
    hide Visits, IndexOf, Survivors, LiftedKeys, UniqueKeys, Doomed;
    var g2 := Walk(g, t.visits, t.complete, dt);
    WalkKeepsInv(g, t.visits, t.complete, dt);
    VisitsNeverShorten(g.(snaps := NextGen(g.snaps)), t.visits, dt, p, b);
    DueIsLiftTime(RecordOf(g2.list, p), t.expireNow, g.conf.banTime);
    SurvivorKeepsRecord(Expire(t.expireNow, g.conf.banTime), t.stuck, g2.list, p);
  }

  lemma TickNeverShortens(g: Gate, t: TickInput, p: Cidr, b: nat)
    requires Inv(g) && Listed(g.list, p) && b <= g.conf.banTime
    requires Spares(TickEvent(t), p, LiftTime(RecordOf(g.list, p), b))
    ensures StillBanned(g.list, Tick(g, t).list, p, b)
    ensures Tick(g, t).conf == g.conf
  {
    var g1 := g.(meter := Measure(g.meter, t));
    assert Inv(g1);
    if Evaluated(g.meter, t) {
      WalkAndExpireNeverShorten(g1, t, Dt(g.meter, t.mono), p, b);
      WalkAndExpireKeepsInv(g1, t, Dt(g.meter, t.mono));
    }
  }

  lemma StepNeverShortens(g: Gate, e: Event, p: Cidr, b: nat)
    requires Inv(g) && Listed(g.list, p) && b <= g.conf.banTime && KeepsBanTime(e, b)
    requires Spares(e, p, LiftTime(RecordOf(g.list, p), b))
    ensures StillBanned(g.list, Step(g, e).list, p, b)
    ensures b <= Step(g, e).conf.banTime
  {
    match e
    case DropCmd(q, reason, expires, armOk, w) =>
      RedropNeverShortens(g, q, reason, expires, armOk, w, p, b);
      DropAddKeepsInv(g, q, reason, expires, armOk, w);
    case UndropCmd(q, delOk) => UndropSpares(g, q, delOk, p);
    case ArmCmd(armOk) =>
    case DisarmCmd(stuck, commitOk) =>
    case ReloadCmd(conf, stuck, commitOk, allow, local) =>
      SurvivorKeepsRecord(Prune(conf), stuck, g.list, p);
    case TickEvent(t) => TickNeverShortens(g, t, p, b);
  }

  /**
   Over every run, with ban_time changing freely: a listed prefix stays listed, and never
   lifts earlier than it would have at the start, as long as nobody undrops it, disarms,
   reloads a configuration that protects it, or runs an expiry pass at or after its lift
   time.  The lift time of a policy drop is reckoned with any b that ban_time stays at or
   above; that of a manual or timed drop does not depend on b, and zero will do.
   */
  lemma {:induction false} BanOutlivesRun(g: Gate, es: seq<Event>, p: Cidr, b: nat)
    requires Inv(g) && Listed(g.list, p)
    requires b <= g.conf.banTime && forall e | e in es :: KeepsBanTime(e, b)
    requires forall e | e in es :: Spares(e, p, LiftTime(RecordOf(g.list, p), b))
    ensures StillBanned(g.list, Run(g, es).list, p, b)
    ensures b <= Run(g, es).conf.banTime
  {
    if es != [] {
      var n := |es| - 1;
      BanOutlivesRun(g, es[..n], p, b);
      RunKeepsInv(g, es[..n]);
      assert es[n] in es;
      StepNeverShortens(Run(g, es[..n]), es[n], p, b);
    }
  }

  /**
   The other direction, event by event: over every run, with any ban_time in force, a drop
   that an event takes off the list was undropped, disarmed, protected by a reload, or
   past its lift time under the ban_time of that moment.
   */
  lemma DropEndsOnlyBy(g0: Gate, es: seq<Event>, k: nat, p: Cidr)
    requires Inv(g0) && k < |es|
    requires Listed(Run(g0, es[..k]).list, p) && !Listed(Run(g0, es[..k + 1]).list, p)
    ensures var g := Run(g0, es[..k]);
            match es[k]
            case UndropCmd(q, _) => q == p
            case DisarmCmd(_, _) => true
            case ReloadCmd(conf, _, _, _, _) => Protected(conf, p)
            case TickEvent(t) =>
              var lift := LiftTime(RecordOf(g.list, p), g.conf.banTime);
              lift.Some? && lift.value <= t.expireNow
            case _ => false
  {
    var g, e := Run(g0, es[..k]), es[k];
    RunKeepsInv(g0, es[..k]);
    assert es[..k + 1][..k] == es[..k];
    var b := if e.ReloadCmd? && e.conf.banTime < g.conf.banTime then e.conf.banTime else g.conf.banTime;
    if Spares(e, p, LiftTime(RecordOf(g.list, p), b)) {
      StepNeverShortens(g, e, p, b);
    }
  }

  // ---------------------------------------------------------------- due drops go

  /** The record's time has come. */
  ghost predicate Due(d: Drop, now: int, banTime: nat) {
    match d.reason
    case Manual => false
    case Timed => d.expires <= now
    case _ => d.inserted + banTime <= now
  }

  /** What an expiry pass leaves listed and what it leaves in the kernel map. */
  lemma ExpiryLeaves(g: Gate, now: int, stuck: set<Cidr>)
    requires Inv(g)
    ensures var g' := SweepGate(g, Expire(now, g.conf.banTime), stuck);
            && (forall d :: d in g'.list <==> d in g.list && (!Due(d, now, g.conf.banTime) || d.cidr in stuck))
            && (forall d | d in g.list && d !in g'.list :: d.cidr !in g'.maps.drops)
  {
    var s := Expire(now, g.conf.banTime);
    SurvivorsFacts(s, stuck, g.list);
  }

  lemma TickExpires(g: Gate, t: TickInput)
    requires Inv(g) && g.mode == Active && Evaluated(g.meter, t)
    ensures var g2 := Walk(g.(meter := Measure(g.meter, t)), t.visits, t.complete, Dt(g.meter, t.mono));
            var g3 := SweepGate(g2, Expire(t.expireNow, g.conf.banTime), t.stuck);
            && Inv(g2) && g2.conf == g.conf && g.list <= g2.list
            && Tick(g, t).list == g3.list && Tick(g, t).maps.drops.Keys <= g3.maps.drops.Keys
  {
    hide Visits, SweepGate, ListInv, SnapInv;
    var g1, dt := g.(meter := Measure(g.meter, t)), Dt(g.meter, t.mono);
    assert Inv(g1);
    WalkKeepsInv(g1, t.visits, t.complete, dt);
    StartsWalk(g1);
    VisitsKeepRecords(g1.(snaps := NextGen(g1.snaps)), t.visits, dt);
  }

  lemma StartsWalk(g: Gate)
    requires Inv(g)
    ensures Inv(g.(snaps := NextGen(g.snaps))) && NextGen(g.snaps).gen >= 1
  {
  }

  /**
   After an evaluated tick of an active gate nothing is listed that is due, except where
   the delete failed; a record that the tick took off the list is out of the drop maps too.
   */
  lemma TickLiftsDue(g: Gate, t: TickInput)
    requires Inv(g) && g.mode == Active && Evaluated(g.meter, t)
    ensures forall d | d in Tick(g, t).list :: !Due(d, t.expireNow, g.conf.banTime) || d.cidr in t.stuck
    ensures forall d | d in g.list && Due(d, t.expireNow, g.conf.banTime) && d.cidr !in t.stuck ::
              d !in Tick(g, t).list && d.cidr !in Keys(Tick(g, t).list) && d.cidr !in Tick(g, t).maps.drops
  {
    hide Walk, SweepGate, Tick, Evaluated, Due;
    TickExpires(g, t);
    var g2 := Walk(g.(meter := Measure(g.meter, t)), t.visits, t.complete, Dt(g.meter, t.mono));
    ExpiryLeaves(g2, t.expireNow, t.stuck);
    forall d | d in g.list && Due(d, t.expireNow, g.conf.banTime) && d.cidr !in t.stuck
      ensures d !in Tick(g, t).list && d.cidr !in Keys(Tick(g, t).list) && d.cidr !in Tick(g, t).maps.drops
    {
      assert d in g2.list;
      KeysOfSweep(g2, Expire(t.expireNow, g.conf.banTime), t.stuck, d);
    }
  }

  lemma KeysOfSweep(g: Gate, s: Sweep, stuck: set<Cidr>, d: Drop)
    requires Inv(g) && d in g.list && d !in SweepGate(g, s, stuck).list
    ensures d.cidr !in Keys(SweepGate(g, s, stuck).list)
  {
    SurvivorsFacts(s, stuck, g.list);
    forall e | e in SweepGate(g, s, stuck).list
      ensures e.cidr != d.cidr
    {
      var i :| 0 <= i < |g.list| && g.list[i] == d;
      var j :| 0 <= j < |g.list| && g.list[j] == e;
    }
  }

  /**
   Over every run: a drop that is due when an evaluated tick of an active gate comes, and
   whose delete works, is neither listed nor in the drop maps after that tick.
   */
  lemma DueDropIsGone(g0: Gate, es: seq<Event>, k: nat, p: Cidr)
    requires Inv(g0) && k < |es| && es[k].TickEvent?
    requires var g := Run(g0, es[..k]); var t := es[k].t;
             && g.mode == Active && Evaluated(g.meter, t) && Listed(g.list, p)
             && Due(RecordOf(g.list, p), t.expireNow, g.conf.banTime) && p !in t.stuck
    ensures !Listed(Run(g0, es[..k + 1]).list, p) && p !in Run(g0, es[..k + 1]).maps.drops
  {
    hide Tick, Due, Evaluated, Inv;
    var g := Run(g0, es[..k]);
    RunKeepsInv(g0, es[..k]);
    assert es[..k + 1][..k] == es[..k];
    TickLiftsDue(g, es[k].t);
    KeysHas(Tick(g, es[k].t).list, p);
  }
}
