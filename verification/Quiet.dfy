/**
 Waking and going idle: an idle gate wakes exactly on a flood, and an active one goes idle
 by itself exactly after an unbroken quiet spell of at least `clear_seconds`, with nothing
 left on the list.
 */
module Quiet {
  import opened Cidrs
  import opened KernelState
  import opened GateModel
  import opened GateSafety

  /** The state before event i of a run. */
  function At(g0: Gate, es: seq<Event>, i: nat): Gate
    requires i <= |es|
  {
    Run(g0, es[..i])
  }

  ghost predicate EvaluatedTick(g: Gate, e: Event) {
    e.TickEvent? && Evaluated(g.meter, e.t)
  }

  /** A tick is evaluated exactly when it reads metrics and the clock moved on since an earlier tick. */
  lemma EvaluatedMeans(m: Meter, t: TickInput)
    ensures Evaluated(m, t) <==> t.metrics.Some? && m.lastTick.Some? && t.mono > m.lastTick.value
    ensures m.lastTick.Some? ==> Dt(m, t.mono) == t.mono - m.lastTick.value
  {
  }

  /**
   Since the last reading fewer packets and fewer bits came in than the wake rates allow
   over the interval; counters that went backwards count as no traffic.  Without a last
   reading the rates stand as they were.
   */
  ghost predicate BelowRates(conf: Config, m: Meter, t: TickInput)
    requires Evaluated(m, t)
  {
    var dt, cur := Dt(m, t.mono), t.metrics.value;
    match m.last
    case None => m.rxPps < conf.wakePps as real && m.rxBps < conf.wakeMbps as real * 1000000.0
    case Some(last) =>
      && (if cur.rxPkts >= last.rxPkts then cur.rxPkts - last.rxPkts else 0) as real < conf.wakePps as real * dt
      && (if cur.rxBytes >= last.rxBytes then cur.rxBytes - last.rxBytes else 0) as real * 8.0 < conf.wakeMbps as real * 1000000.0 * dt
  }

  lemma BelowIsRates(conf: Config, m: Meter, t: TickInput)
    requires Evaluated(m, t)
    ensures BelowWake(conf, Measure(m, t)) <==> BelowRates(conf, m, t)
  {
    if m.last.Some? {
      var dt, last, cur := Dt(m, t.mono), m.last.value, t.metrics.value;
      OverRate(Increase(cur.rxPkts, last.rxPkts) as real, dt, conf.wakePps as real);
      OverRate(Increase(cur.rxBytes, last.rxBytes) as real * 8.0, dt, conf.wakeMbps as real * 1000000.0);
    }
  }

  /** The meter after a tick, whatever else the tick does: its clock and its metrics are the last ones. */
  lemma MeterFollows(g: Gate, t: TickInput)
    requires Inv(g)
    ensures var m := Tick(g, t).meter;
            && m.lastTick == Some(t.mono)
            && m.last == (if t.metrics.Some? then t.metrics else g.meter.last)
    ensures !Evaluated(g.meter, t) ==> Tick(g, t) == g.(meter := Tick(g, t).meter)
  {
    hide WalkAndExpire, ListInv, SnapInv, Disarm;
    var g1 := g.(meter := Measure(g.meter, t));
    assert Inv(g1);
    if Evaluated(g.meter, t) && g.mode == Active {
      WalkAndExpireKeepsInv(g1, t, Dt(g.meter, t.mono));
      DisarmEnds(WalkAndExpire(g1, t, Dt(g.meter, t.mono)).(quietSince := QuietMark(WalkAndExpire(g1, t, Dt(g.meter, t.mono)), t)),
                 t.flushStuck, t.commitOk);
    }
  }

  /** Other events leave the meter alone. */
  lemma MeterStays(g: Gate, e: Event)
    requires Inv(g) && !e.TickEvent?
    ensures Step(g, e).meter == g.meter
  {
    hide ListInv, SnapInv, DropArmed, Protected, Committed;
    match e
    case DropCmd(p, reason, expires, armOk, w) =>
      var (g1, armed) := Arm(g, armOk);
      if armed {
        ArmEnds(g, armOk);
        DropArmedKeepsInv(g1, p, reason, expires, w);
      }
    case UndropCmd(p, delOk) =>
    case ArmCmd(armOk) =>
    case DisarmCmd(stuck, commitOk) =>
    case ReloadCmd(conf, stuck, commitOk, allow, local) =>
  }

  // ---------------------------------------------------------------- the commands

  /**
   An arm whose commit works ends active and armed, with no snapshot and no quiet timer,
   and one whose commit fails stays as idle as it was; an active gate is left alone.
   */
  lemma ArmEnds(g: Gate, commitOk: bool)
    ensures var (g', ok) := Arm(g, commitOk);
            && ok == (g.mode == Active || commitOk)
            && g'.list == g.list && g'.maps.drops == g.maps.drops && g'.conf == g.conf && g'.meter == g.meter
            && (g.mode == Active ==> g' == g)
            && (g.mode == Idle ==> g'.snaps.tab == map[] && g'.quietSince == 0)
            && (g.mode == Idle && commitOk ==> g'.mode == Active && g'.maps.cfg.armed)
            && (g.mode == Idle && !commitOk ==> g'.mode == Idle && g'.maps == g.maps)
    ensures Inv(g) ==> Inv(Arm(g, commitOk).0)
  {
  }

  /**
   A disarm forgets the list and leaves in the drop maps exactly the keys whose delete
   failed.  If its commit works the gate is idle and not armed, otherwise mode and flag stay.
   */
  lemma DisarmEnds(g: Gate, stuck: set<Cidr>, commitOk: bool)
    ensures var (g', ok) := Disarm(g, stuck, commitOk);
            && ok == commitOk && g'.list == []
            && g'.maps.drops.Keys == g.maps.drops.Keys * stuck
            && g'.maps.local == g.maps.local && g'.maps.allow == g.maps.allow
            && g'.conf == g.conf && g'.meter == g.meter && g'.snaps == g.snaps
            && (commitOk ==> g'.mode == Idle && !g'.maps.cfg.armed && g'.quietSince == 0)
            && (!commitOk ==> g'.mode == g.mode && g'.maps.cfg == g.maps.cfg && g'.quietSince == g.quietSince)
  {
  }

  // ---------------------------------------------------------------- the quiet spell

  /** Event e meets an active gate and is not an evaluated tick at or above a wake rate. */
  ghost predicate StaysQuiet(g: Gate, e: Event) {
    g.mode == Active && (EvaluatedTick(g, e) ==> BelowRates(g.conf, g.meter, e.t))
  }

  /** Events j..k are an unbroken quiet spell that evaluated tick j opens. */
  ghost predicate QuietSpell(g0: Gate, es: seq<Event>, j: nat, k: nat) {
    && j < k <= |es|
    && EvaluatedTick(At(g0, es, j), es[j])
    && forall i: nat | j <= i < k :: StaysQuiet(At(g0, es, i), es[i])
  }

  /** Wherever the quiet timer comes from, the event stayed quiet. */
  lemma QuietStep(g: Gate, e: Event)
    requires Inv(g) && Step(g, e).quietSince != 0
    ensures StaysQuiet(g, e)
    ensures g.quietSince != 0 ==> Step(g, e).quietSince == g.quietSince
    ensures g.quietSince == 0 ==> EvaluatedTick(g, e) && Step(g, e).quietSince == e.t.quietNow
  {
    match e
    case DropCmd(p, reason, expires, armOk, w) => DropAddKeepsInv(g, p, reason, expires, armOk, w);
    case UndropCmd(p, delOk) => UndropKeepsInv(g, p, delOk);
    case ArmCmd(armOk) =>
    case DisarmCmd(stuck, commitOk) =>
    case ReloadCmd(conf, stuck, commitOk, allow, local) => SweepKeepsInv(g.(conf := conf), Prune(conf), stuck);
    case TickEvent(t) => QuietTick(g, t);
  }

  lemma QuietTick(g: Gate, t: TickInput)
    requires Inv(g) && Tick(g, t).quietSince != 0
    ensures g.mode == Active
    ensures Evaluated(g.meter, t) ==> BelowRates(g.conf, g.meter, t)
    ensures Tick(g, t).quietSince ==
            if Evaluated(g.meter, t) && g.quietSince == 0 then t.quietNow else g.quietSince
  {
    var g1 := g.(meter := Measure(g.meter, t));
    assert Inv(g1);
    if Evaluated(g.meter, t) && g.mode == Active {
      WalkAndExpireKeepsInv(g1, t, Dt(g.meter, t.mono));
      BelowIsRates(g.conf, g.meter, t);
    }
  }

  lemma AtInv(g0: Gate, es: seq<Event>, k: nat)
    requires Inv(g0) && k <= |es|
    ensures Inv(At(g0, es, k))
  {
    RunKeepsInv(g0, es[..k]);
  }

  lemma LastStep(g0: Gate, es: seq<Event>, k: nat)
    requires k < |es|
    ensures At(g0, es, k + 1) == Step(At(g0, es, k), es[k])
  {
    assert es[..k + 1][..k] == es[..k];
  }

  lemma AtStart(g0: Gate, es: seq<Event>)
    ensures At(g0, es, 0) == g0
  {
  }

  /** A running quiet timer was started by the tick that opens the current spell. */
  lemma {:induction false} TimerOpensSpell(g0: Gate, es: seq<Event>, k: nat) returns (j: nat)
    requires Inv(g0) && g0.quietSince == 0
    requires k <= |es| && At(g0, es, k).quietSince != 0
    ensures QuietSpell(g0, es, j, k) && es[j].t.quietNow == At(g0, es, k).quietSince
    decreases k
  {
    hide At, Step, StaysQuiet, Inv;
    AtStart(g0, es);
    var n := k - 1;
    AtInv(g0, es, n);
    LastStep(g0, es, n);
    QuietStep(At(g0, es, n), es[n]);
    j := n;
    if At(g0, es, n).quietSince != 0 {
      j := TimerOpensSpell(g0, es, n);
    }
  }

  /**
   An active gate's tick takes it idle exactly when the tick is evaluated and quiet, leaves
   nothing listed, comes `clear_seconds` or more after the quiet timer's start, and the
   disarm's commit works.
   */
  lemma TickDisarmsExactly(g: Gate, t: TickInput)
    requires Inv(g) && g.mode == Active
    ensures Tick(g, t).mode == Idle <==>
            && Evaluated(g.meter, t) && BelowRates(g.conf, g.meter, t)
            && Tick(g, t).list == []
            && t.checkNow - (if g.quietSince == 0 then t.quietNow else g.quietSince) >= g.conf.clearSeconds
            && t.commitOk
    ensures Tick(g, t).mode == Idle ==> !Tick(g, t).maps.cfg.armed
  {
    hide WalkAndExpire, Measure, BelowWake, BelowRates, Disarm;
    var g1, dt := g.(meter := Measure(g.meter, t)), Dt(g.meter, t.mono);
    assert Inv(g1);
    if Evaluated(g.meter, t) {
      BelowIsRates(g.conf, g.meter, t);
      WalkAndExpireKeepsInv(g1, t, dt);
      var g2 := WalkAndExpire(g1, t, dt);
      DisarmEnds(g2.(quietSince := QuietMark(g2, t)), t.flushStuck, t.commitOk);
    }
  }

  /** The quiet timer of a gate that stays active: running since the first quiet tick, stopped by any other. */
  lemma TimerExactly(g: Gate, t: TickInput)
    requires Inv(g) && g.mode == Active && Evaluated(g.meter, t) && Tick(g, t).mode == Active
    ensures Tick(g, t).quietSince ==
            if !BelowRates(g.conf, g.meter, t) then 0 else if g.quietSince == 0 then t.quietNow else g.quietSince
  {
    hide WalkAndExpire, Measure, BelowWake, BelowRates, Disarm;
    var g1, dt := g.(meter := Measure(g.meter, t)), Dt(g.meter, t.mono);
    assert Inv(g1);
    BelowIsRates(g.conf, g.meter, t);
    WalkAndExpireKeepsInv(g1, t, dt);
    var g2 := WalkAndExpire(g1, t, dt);
    DisarmEnds(g2.(quietSince := QuietMark(g2, t)), t.flushStuck, t.commitOk);
  }

  /**
   If event k of a run is a tick that takes the gate from active to idle, then some tick
   j <= k opened a spell in which every evaluated tick up to and including k was below
   both wake rates and the gate never left the active state; the spell lasted at least
   `clear_seconds`; and nothing is listed.
   */
  lemma DisarmsOnlyAfterQuiet(g0: Gate, es: seq<Event>, k: nat) returns (j: nat)
    requires Inv(g0) && g0.quietSince == 0
    requires k < |es| && es[k].TickEvent?
    requires At(g0, es, k).mode == Active && At(g0, es, k + 1).mode == Idle
    ensures QuietSpell(g0, es, j, k + 1)
    ensures es[k].t.checkNow - es[j].t.quietNow >= At(g0, es, k).conf.clearSeconds
    ensures At(g0, es, k + 1).list == []
  {
    hide At, Inv, WalkAndExpire, Tick, BelowRates;
    var g := At(g0, es, k);
    LastStep(g0, es, k);
    AtInv(g0, es, k);
    TickDisarmsExactly(g, es[k].t);
    assert StaysQuiet(g, es[k]);
    j := k;
    if g.quietSince != 0 {
      j := TimerOpensSpell(g0, es, k);
    }
  }

  // ---------------------------------------------------------------- waking

  /**
   An idle gate wakes exactly when, since the last reading, more packets or more bits came
   in than the wake rate allows over the interval, and the arming write works.
   */
  lemma WakesExactlyOnFlood(g: Gate, t: TickInput)
    requires g.mode == Idle && Evaluated(g.meter, t) && g.meter.last.Some?
    ensures var dt := Dt(g.meter, t.mono); var last := g.meter.last.value; var cur := t.metrics.value;
            Tick(g, t).mode == Active <==>
            && t.armOk
            && (|| (if cur.rxPkts >= last.rxPkts then cur.rxPkts - last.rxPkts else 0) as real > g.conf.wakePps as real * dt
                || (if cur.rxBytes >= last.rxBytes then cur.rxBytes - last.rxBytes else 0) as real * 8.0
                   > g.conf.wakeMbps as real * 1000000.0 * dt)
  {
    hide Tick;
    var dt, last, cur := Dt(g.meter, t.mono), g.meter.last.value, t.metrics.value;
    WakesWhenAbove(g, t);
    OverRate(Increase(cur.rxPkts, last.rxPkts) as real, dt, g.conf.wakePps as real);
    OverRate(Increase(cur.rxBytes, last.rxBytes) as real * 8.0, dt, g.conf.wakeMbps as real * 1000000.0);
  }

  lemma WakesWhenAbove(g: Gate, t: TickInput)
    requires g.mode == Idle && Evaluated(g.meter, t)
    ensures Tick(g, t).mode == Active <==> t.armOk && AboveWake(g.conf, Measure(g.meter, t))
  {
  }

  lemma OverRate(x: real, dt: real, rate: real)
    requires dt > 0.0
    ensures x / dt > rate <==> x > rate * dt
    ensures x / dt < rate <==> x < rate * dt
  {
  }
}
