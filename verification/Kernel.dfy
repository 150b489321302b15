/**
 The kernel maps behind the daemon's writers (src/maps.c).  Every update and delete may
 fail, without effect; a new drop key also needs room in its family's map.  `log` holds
 every state the maps went through, one per write, and ends with the present one: the XDP
 program may run in any of them.  `failures` counts the writes that failed.
 */
module Kernels {
  import opened Cidrs
  import opened KernelState
  import opened GateModel

  datatype Lpm = DropMap | AllowMap | LocalMap

  datatype DelResult = Deleted | NotFound | Failed

  function KeysOf(m: Maps, w: Lpm): set<Cidr> {
    match w
    case DropMap => m.drops.Keys
    case AllowMap => m.allow
    case LocalMap => m.local
  }

  /** The maps without some keys of one of them. */
  function WithoutKeys(m: Maps, w: Lpm, keys: set<Cidr>): Maps {
    match w
    case DropMap => m.(drops := m.drops - keys)
    case AllowMap => m.(allow := m.allow - keys)
    case LocalMap => m.(local := m.local - keys)
  }

  /** The maps with a key more in the local or allow map. */
  function WithKeys(m: Maps, w: Lpm, keys: set<Cidr>): Maps {
    match w
    case DropMap => m
    case AllowMap => m.(allow := m.allow + keys)
    case LocalMap => m.(local := m.local + keys)
  }

  /** Every state logged after the first n lies between: nothing gained beyond `extra`, nothing else changed. */
  ghost predicate Between(log: seq<Maps>, n: nat, before: Maps, w: Lpm, extra: set<Cidr>) {
    forall i | n <= i < |log| ::
      && KeysOf(log[i], w) <= KeysOf(before, w) + extra
      && (w != DropMap ==> log[i].drops == before.drops)
      && (w != AllowMap ==> log[i].allow == before.allow)
      && (w != LocalMap ==> log[i].local == before.local)
  }

  ghost predicate Extends(log0: seq<Maps>, log: seq<Maps>) {
    |log0| <= |log| && log[..|log0|] == log0
  }

  /** The log grew from log0, and every new state lies between. */
  ghost predicate Grew(log0: seq<Maps>, log: seq<Maps>, before: Maps, w: Lpm, extra: set<Cidr>) {
    Extends(log0, log) && Between(log, |log0|, before, w, extra)
  }

  /** Against m0, the state m gained no drop that the configuration protects, and kept local and allow. */
  ghost predicate TameState(m0: Maps, m: Maps, conf: Config) {
    m.local == m0.local && m.allow == m0.allow && forall d | d in m.drops :: d in m0.drops || !Protected(conf, d)
  }

  /** The log grew from log0, and every new state is tame against the last one of log0. */
  ghost predicate Tame(log0: seq<Maps>, log: seq<Maps>, conf: Config) {
    && log0 != [] && Extends(log0, log)
    && forall i | |log0| <= i < |log| :: TameState(log0[|log0| - 1], log[i], conf)
  }

  lemma TameNone(log: seq<Maps>, conf: Config)
    requires log != []
    ensures Tame(log, log, conf)
  {
  }

  /** A write that adds no drop, or one that is not protected. */
  lemma TameLess(log: seq<Maps>, m: Maps, conf: Config)
    requires log != [] && m.drops.Keys <= log[|log| - 1].drops.Keys
    requires m.local == log[|log| - 1].local && m.allow == log[|log| - 1].allow
    ensures Tame(log, log + [m], conf)
  {
  }

  lemma TameAdd(log: seq<Maps>, m: Maps, p: Cidr, conf: Config)
    requires log != [] && !Protected(conf, p) && m.drops.Keys <= log[|log| - 1].drops.Keys + {p}
    requires m.local == log[|log| - 1].local && m.allow == log[|log| - 1].allow
    ensures Tame(log, log + [m], conf)
  {
  }

  lemma TameTwice(log0: seq<Maps>, log1: seq<Maps>, log2: seq<Maps>, conf: Config)
    requires Tame(log0, log1, conf) && Tame(log1, log2, conf)
    ensures Tame(log0, log2, conf)
  {
    hide Protected;
    forall i | |log0| <= i < |log2|
      ensures TameState(log0[|log0| - 1], log2[i], conf)
    {
      if i < |log1| {
        assert log2[i] == log1[i];
      } else {
        assert TameState(log1[|log1| - 1], log2[i], conf);
      }
    }
  }

  /** Losing drops is tame. */
  lemma GrewTame(log0: seq<Maps>, log: seq<Maps>, conf: Config)
    requires log0 != [] && Grew(log0, log, log0[|log0| - 1], DropMap, {})
    ensures Tame(log0, log, conf)
  {
    hide Protected;
    forall i | |log0| <= i < |log|
      ensures TameState(log0[|log0| - 1], log[i], conf)
    {
      assert KeysOf(log[i], DropMap) <= KeysOf(log0[|log0| - 1], DropMap) + {};
    }
  }

  lemma GrewNone(log: seq<Maps>, m: Maps, w: Lpm)
    ensures Grew(log, log, m, w, {})
  {
  }

  /** One more write that only lost keys. */
  lemma GrewLost(log0: seq<Maps>, log: seq<Maps>, before: Maps, w: Lpm, gone: set<Cidr>)
    requires Grew(log0, log, before, w, {})
    ensures Grew(log0, log + [WithoutKeys(before, w, gone)], before, w, {})
  {
  }

  /** The entry `vg_cfg_commit` fills: zeroed, then the count cut to the slots, then one slot after the other. */
  method FillCfg(armed: bool, conf: Config) returns (c: CfgEntry)
    ensures c == Committed(armed, conf)
  {
    var ports := seq(MAX_ALLOW_PORTS, i => 0 as bv16);
    var count := |conf.ports| % 0x1_0000;
    if count > MAX_ALLOW_PORTS {
      count := MAX_ALLOW_PORTS;
    }
    for i := 0 to count
      invariant |ports| == MAX_ALLOW_PORTS
      invariant forall j | 0 <= j < MAX_ALLOW_PORTS :: ports[j] == if j < i then conf.ports[j] else 0
    {
      ports := ports[i := conf.ports[i]];
    }
    return CfgEntry(armed, ports, count);
  }

  class Kernel {
    const dropMax: nat
    var maps: Maps
    ghost var log: seq<Maps>
    ghost var failures: nat

    ghost predicate Valid()
      reads this
    {
      log != [] && log[|log| - 1] == maps
    }

    constructor (dropMax: nat, maps: Maps)
      ensures Valid() && this.dropMax == dropMax && this.maps == maps
    {
      this.dropMax, this.maps, this.log, this.failures := dropMax, maps, [maps], 0;
    }

    /** Every write leaves its state in the log, and counts if it failed. */
    ghost method Note(failed: bool)
      modifies this`log, this`failures
      ensures Valid() && log == old(log) + [maps] && failures == old(failures) + if failed then 1 else 0
    {
      log, failures := log + [maps], failures + if failed then 1 else 0;
    }

    /** `vg_cfg_commit`. */
    method Commit(armed: bool, conf: Config) returns (ok: bool)
      modifies this
      ensures Valid() && log == old(log) + [maps] && failures == old(failures) + if ok then 0 else 1
      ensures maps == if ok then old(maps).(cfg := Committed(armed, conf)) else old(maps)
    {
      var entry := FillCfg(armed, conf);
      ok := *;
      if ok {
        maps := maps.(cfg := entry);
      }
      Note(!ok);
    }

    /** `vg_drop_add`; a full map refuses a new key. */
    method DropAdd(p: Cidr, reason: Reason, now: int) returns (ok: bool)
      modifies this
      ensures Valid() && log == old(log) + [maps] && failures >= old(failures)
      ensures ok ==> CanAdd(old(maps), p, dropMax)
      ensures CanAdd(old(maps), p, dropMax) ==> failures == old(failures) + if ok then 0 else 1
      ensures maps == if ok then old(maps).(drops := old(maps).drops[p := DropEntry(reason, now % TWO32)]) else old(maps)
    {
      var fails: bool := *;
      ok := !fails && CanAdd(maps, p, dropMax);
      if ok {
        maps := maps.(drops := maps.drops[p := DropEntry(reason, now % TWO32)]);
      }
      Note(fails);
    }

    /** `lpm_delete`. */
    method Delete(w: Lpm, p: Cidr) returns (r: DelResult)
      modifies this
      ensures Valid() && log == old(log) + [maps] && failures == old(failures) + if r == Failed then 1 else 0
      ensures r == NotFound ==> p !in KeysOf(old(maps), w)
      ensures maps == if r == Failed then old(maps) else WithoutKeys(old(maps), w, {p})
    {
      var fails: bool := *;
      if fails {
        r := Failed;
      } else {
        r := if p in KeysOf(maps, w) then Deleted else NotFound;
        maps := WithoutKeys(maps, w, {p});
      }
      Note(fails);
    }

    /** `lpm_update` on the local or allow map. */
    method Insert(w: Lpm, p: Cidr) returns (ok: bool)
      requires w != DropMap
      modifies this
      ensures Valid() && log == old(log) + [maps] && failures == old(failures) + if ok then 0 else 1
      ensures maps == if ok then WithKeys(old(maps), w, {p}) else old(maps)
    {
      ok := *;
      if ok {
        maps := WithKeys(maps, w, {p});
      }
      Note(!ok);
    }

    /** The order in which `bpf_map_get_next_key` walks a family's keys: some order, each key once. */
    method KeyOrder(w: Lpm, f: Family) returns (order: seq<Cidr>)
      ensures SetOf(order) == OfFamily(KeysOf(maps, w), f)
      ensures forall i, j | 0 <= i < j < |order| :: order[i] != order[j]
    {
      hide OfFamily, KeysOf;
      var rest := OfFamily(KeysOf(maps, w), f);
      order := [];
      assert SetOf(order) == {};
      while rest != {}
        invariant SetOf(order) + rest == OfFamily(KeysOf(maps, w), f) && SetOf(order) !! rest
        invariant forall i, j | 0 <= i < j < |order| :: order[i] != order[j]
        decreases |rest|
      {
        var c :| c in rest;
        assert c !in SetOf(order);
        assert c !in order;
        SetOfMore(order, c);
        rest := rest - {c};
        order := order + [c];
      }
    }

    /** `flush_lpm`: the next key is looked up before the current one is deleted, and no failure stops the walk. */
    method FlushLpm(w: Lpm, f: Family) returns (ghost stuck: set<Cidr>)
      requires Valid()
      modifies this
      ensures Valid() && failures >= old(failures) && (stuck != {} ==> failures > old(failures))
      ensures stuck <= OfFamily(KeysOf(old(maps), w), f)
      ensures maps == WithoutKeys(old(maps), w, OfFamily(KeysOf(old(maps), w), f) - stuck)
      ensures Grew(old(log), log, old(maps), w, {})
    {
      hide Grew, Between;
      GrewNone(log, maps, w);
      var order := KeyOrder(w, f);
      stuck := {};
      if order == [] {
        return;
      }
      var i := 0;
      ghost var gone: set<Cidr> := {};
      while true
        invariant 0 <= i < |order| && Valid()
        invariant failures >= old(failures) && (stuck != {} ==> failures > old(failures))
        invariant gone + stuck == SetOf(order[..i]) && gone !! stuck
        invariant maps == WithoutKeys(old(maps), w, gone)
        invariant Grew(old(log), log, old(maps), w, {})
        decreases |order| - i
      {
        var more := i + 1 < |order|;
        var key := order[i];
        assert key !in SetOf(order[..i]);
        assert order[..i + 1] == order[..i] + [key];
        SetOfMore(order[..i], key);
        var r := Delete(w, key);
        if r == Failed {
          stuck := stuck + {key};
        } else {
          gone := gone + {key};
        }
        assert maps == WithoutKeys(old(maps), w, gone);
        GrewLost(old(log), log[..|log| - 1], old(maps), w, gone);
        if !more {
          break;
        }
        i := i + 1;
      }
      assert order[..|order|] == order;
      assert OfFamily(KeysOf(old(maps), w), f) - stuck == gone;
    }

    /** Both families of one map, as `vg_drop_flush` and the populate calls flush them. */
    method FlushBoth(w: Lpm) returns (ghost stuck: set<Cidr>)
      requires Valid()
      modifies this
      ensures Valid() && failures >= old(failures) && (stuck != {} ==> failures > old(failures))
      ensures stuck <= KeysOf(old(maps), w)
      ensures maps == WithoutKeys(old(maps), w, KeysOf(old(maps), w) - stuck)
      ensures Grew(old(log), log, old(maps), w, {})
    {
      ghost var keys := KeysOf(maps, w);
      ghost var s4 := FlushLpm(w, V4);
      ghost var s6 := FlushLpm(w, V6);
      stuck := s4 + s6;
      assert OfFamily(keys, V4) + OfFamily(keys, V6) == keys;
      assert OfFamily(keys - (OfFamily(keys, V4) - s4), V6) == OfFamily(keys, V6);
      assert keys - stuck == (OfFamily(keys, V4) - s4) + (OfFamily(keys, V6) - s6);
    }

    /** `vg_populate_allow` and `vg_populate_local`: flush, then insert; a failed insert is only logged. */
    method Populate(w: Lpm, want: seq<Cidr>) returns (ghost r: Refill)
      requires Valid() && w != DropMap
      modifies this
      ensures Valid() && failures >= old(failures) && (r != Refill({}, {}) ==> failures > old(failures))
      ensures maps == WithKeys(WithoutKeys(old(maps), w, KeysOf(old(maps), w)), w, Refilled(KeysOf(old(maps), w), want, r))
      ensures Grew(old(log), log, old(maps), w, SetOf(want))
    {
      ghost var stuck := FlushBoth(w);
      ghost var flushed, live := maps, KeysOf(old(maps), w);
      ghost var added: set<Cidr> := {};
      for i := 0 to |want|
        invariant Valid() && added <= SetOf(want)
        invariant failures >= old(failures) && (stuck != {} || !(SetOf(want[..i]) <= added) ==> failures > old(failures))
        invariant maps == WithKeys(flushed, w, added)
        invariant Grew(old(log), log, old(maps), w, SetOf(want))
      {
        assert want[..i + 1] == want[..i] + [want[i]];
        SetOfMore(want[..i], want[i]);
        var ok := Insert(w, want[i]);
        if ok {
          added := added + {want[i]};
        }
      }
      assert want[..|want|] == want;
      r := Refill(stuck, SetOf(want) - added);
      assert SetOf(want) - r.failed == added;
      assert live - (live - stuck) == live * stuck;
      assert KeysOf(flushed, w) == live * stuck;
    }
  }
}
