/**
 What a visit adds to the list: the host itself, and the net around it exactly when enough
 listed prefixes lie inside it.
 */
module Widening {
  import opened Cidrs
  import opened KernelState
  import opened GateModel
  import opened GateSafety

  // ---------------------------------------------------------------- density

  function WithoutTimed(list: seq<Drop>): seq<Drop> {
    if list == [] then []
    else WithoutTimed(list[..|list| - 1]) + if list[|list| - 1].reason == Timed then [] else [list[|list| - 1]]
  }

  lemma {:induction false} DensityIgnoresTimed(list: seq<Drop>, net: Cidr)
    ensures Density(list, net) == Density(WithoutTimed(list), net)
  {
    if list != [] {
      var n := |list| - 1;
      DensityIgnoresTimed(list[..n], net);
      var w := WithoutTimed(list[..n]);
      if list[n].reason == Timed {
        assert w + [] == w;
      } else {
        assert (w + [list[n]])[..|w|] == w;
      }
    }
  }

  /** The listed, non-timed prefixes all of whose addresses lie in net. */
  ghost function Inside(list: seq<Drop>, net: Cidr): set<Cidr> {
    set d | d in list && d.reason != Timed && Addresses(d.cidr) <= Addresses(net) :: d.cidr
  }

  lemma InsideGrows(front: seq<Drop>, d: Drop, net: Cidr)
    requires forall e | e in front :: e.cidr != d.cidr
    ensures |Inside(front + [d], net)| ==
            |Inside(front, net)| + if d.reason != Timed && Contains(net, d.cidr) then 1 else 0
  {
    ContainsIsInclusion(net, d.cidr);
    assert d.cidr !in Inside(front, net);
    if d.reason != Timed && Contains(net, d.cidr) {
      assert Inside(front + [d], net) == Inside(front, net) + {d.cidr};
    } else {
      assert Inside(front + [d], net) == Inside(front, net);
    }
  }

  lemma {:induction false} DensityCounts(list: seq<Drop>, net: Cidr)
    requires UniqueKeys(list)
    ensures Density(list, net) == |Inside(list, net)|
  {
    if list == [] {
      assert Inside(list, net) == {};
    } else {
      var n := |list| - 1;
      assert list == list[..n] + [list[n]];
      DensityCounts(list[..n], net);
      InsideGrows(list[..n], list[n], net);
    }
  }

  /** The net around a host is masked, contains it, and is a /24 or a /64. */
  lemma NetHoldsHost(h: Host)
    ensures var net := Widen(HostCidr(h));
            Canonical(net) && h in Addresses(net) && net.plen == if h.family == V4 then 24 else 64
  {
    WidenContains(HostCidr(h));
    HostIsOneAddress(h);
  }

  // ---------------------------------------------------------------- drops of an armed gate

  /** A new record for p would be taken: not protected, room in the pool and in its map, and the write works. */
  predicate Takes(g: Gate, p: Cidr, ok: bool) {
    && !Protected(g.conf, p) && |g.list| < g.lim.poolCap && ok
    && (p in g.maps.drops || |OfFamily(g.maps.drops.Keys, p.family)| < g.lim.dropMax)
  }

  /** A policy or aggregate drop, exactly: one new record at the end, or the list as it was. */
  lemma DropsExactly(g: Gate, p: Cidr, reason: Reason, w: Write)
    requires Inv(g) && g.mode == Active && (reason == Policy || reason == Aggregate)
    ensures var (g', ok) := DropAdd(g, p, reason, 0, true, w);
            && g'.list == (if p !in Keys(g.list) && Takes(g, p, w.ok) then g.list + [Drop(p, reason, w.now, 0)] else g.list)
            && (p !in Keys(g.list) ==> ok == Takes(g, p, w.ok))
            && (p in Keys(g.list) ==> ok == (!Protected(g.conf, p) && w.ok))
            && SameFrame(g, g') && Inv(g')
  {
    hide Protected, SnapInv;
    KeysHas(g.list, p);
    DropAddKeepsInv(g, p, reason, 0, true, w);
    var i := IndexOf(g.list, p);
    if i < |g.list| {
      assert g.list[i := g.list[i]] == g.list;
    }
  }

  /**
   Widening, exactly: the net gets a record when `aggregate_k` distinct listed, non-timed
   prefixes have all their addresses in it, it is not listed yet, and it is taken.
   Otherwise the list stays as it was.
   */
  lemma WidensExactly(g: Gate, host: Cidr, w: Write)
    requires Inv(g) && g.mode == Active
    ensures var net := Widen(host);
            MaybeAggregate(g, host, w).list ==
            if |Inside(g.list, net)| >= g.conf.aggregateK && net !in Keys(g.list) && Takes(g, net, w.ok)
            then g.list + [Drop(net, Aggregate, w.now, 0)] else g.list
    ensures |Inside(g.list, Widen(host))| < g.conf.aggregateK ==> MaybeAggregate(g, host, w) == g
  {
    hide DropAdd, Takes, Inside, Density, Widen;
    DensityCounts(g.list, Widen(host));
    DropsExactly(g, Widen(host), Aggregate, w);
  }

  /** Timed bans do not count: gates whose lists differ only in them add the same net, or both none. */
  lemma WideningIgnoresTimed(g: Gate, g': Gate, host: Cidr, w: Write)
    requires Inv(g) && Inv(g') && g.mode == g'.mode == Active && g.conf == g'.conf
    requires WithoutTimed(g.list) == WithoutTimed(g'.list)
    requires var net := Widen(host); Takes(g, net, w.ok) && Takes(g', net, w.ok) && net !in Keys(g.list) && net !in Keys(g'.list)
    ensures MaybeAggregate(g, host, w).list[|g.list|..] == MaybeAggregate(g', host, w).list[|g'.list|..]
  {
    hide Takes, MaybeAggregate, Widen, Inside, Density;
    WidensExactly(g, host, w);
    WidensExactly(g', host, w);
    DensityIgnoresTimed(g.list, Widen(host));
    DensityIgnoresTimed(g'.list, Widen(host));
    DensityCounts(g.list, Widen(host));
    DensityCounts(g'.list, Widen(host));
  }

  // ---------------------------------------------------------------- visits

  ghost function HostRecord(v: Visit): Drop {
    Drop(HostCidr(v.host), Policy, v.drop.now, 0)
  }

  ghost function NetRecord(v: Visit): Drop {
    Drop(Widen(HostCidr(v.host)), Aggregate, v.widen.now, 0)
  }

  /** What a visit may add: the host, then its net, the latter only to a list dense enough in it. */
  ghost predicate AddsOnly(list: seq<Drop>, list': seq<Drop>, v: Visit, k: nat) {
    && list <= list'
    && forall j | |list| <= j < |list'| ::
         || list'[j] == HostRecord(v)
         || (list'[j] == NetRecord(v) && |Inside(list'[..j], Widen(HostCidr(v.host)))| >= k)
  }

  /**
   A visit keeps every record as it is and adds at most the host and, if at least
   `aggregate_k` listed non-timed prefixes lie in it, the net around the host.
   */
  lemma VisitListsOnly(g: Gate, v: Visit, dt: real)
    requires Inv(g) && g.mode == Active && g.snaps.gen >= 1
    ensures AddsOnly(g.list, PolicyVisit(g, v, dt).list, v, g.conf.aggregateK)
  {
    hide Takes, DropAdd, MaybeAggregate, Inside, Widen, Triggers;
    var p, g1 := HostCidr(v.host), Snapshot(g, v);
    assert Inv(g1);
    DropsExactly(g1, p, Policy, v.drop);
    var (g2, ok) := DropAdd(g1, p, Policy, 0, true, v.drop);
    WidensExactly(g2, p, v.widen);
    var g3 := MaybeAggregate(g2, p, v.widen);
    assert g3.list != g2.list ==> g3.list[..|g2.list|] == g2.list;
  }

  lemma {:induction false} VisitsKeepRecords(g: Gate, vs: seq<Visit>, dt: real)
    requires Inv(g) && g.mode == Active && g.snaps.gen >= 1
    ensures g.list <= Visits(g, vs, dt).list
  {
    hide PolicyVisit, Inv;
    if vs != [] {
      var n := |vs| - 1;
      VisitsKeepRecords(g, vs[..n], dt);
      VisitsKeepInv(g, vs[..n], dt);
      VisitListsOnly(Visits(g, vs[..n], dt), vs[n], dt);
    }
  }
}
