/**
 The XDP program run on a frame (src/bpf/voidgate.bpf.c): verdict, metrics, and the host
 and remote counters, over the maps the daemon wrote.
 */
module Xdp {
  import opened Cidrs
  import opened KernelState
  import opened Datapath

  datatype Verdict = Pass | Drop

  /** `struct vg_metrics`, summed over CPUs. */
  datatype Counts = Counts(rxPkts: nat, rxBytes: nat, passed: nat, dropped: nat, nonIp: nat, mapFull: nat, parseErr: nat)

  /** `struct host_counters`. */
  datatype Traffic = Traffic(pkts: nat, bytes: nat)

  // ---------------------------------------------------------------- the verdict, declared

  /** How a frame leaves the program. */
  datatype Outcome = Unarmed | TooShort | NotIp | Judged(ends: Ends, drop: bool, bad: bool)

  function Judge(m: Maps, f: Frame, p: Payload): Outcome
    requires HasHeader(f, p)
  {
    var e, s := EndsAt(f, p), SeenAt(f, p);
    Judged(e, !Exempts(m, e, s, HopLimit(f, p)) && (Hits(m.drops.Keys, e.src) || Hits(m.drops.Keys, e.dst)), s.bad)
  }

  function Classify(m: Maps, f: Frame): Outcome {
    if !m.cfg.armed then Unarmed
    else
      match EtherPayload(f)
      case None => TooShort
      case Some(p) =>
        if p.kind != ETH_IP && p.kind != ETH_IPV6 then NotIp
        else if !HasHeader(f, p) then TooShort
        else Judge(m, f, p)
  }

  /**
   The verdict is a drop exactly when the gate is armed, both addresses can be read, the
   frame is not rightly exempt, and a drop prefix contains one of the two addresses.
   */
  lemma DropExactly(m: Maps, f: Frame)
    requires NonZeroPorts(m.cfg)
    ensures (Classify(m, f).Judged? && Classify(m, f).drop) <==>
            && m.cfg.armed
            && EndsOf(f).Some?
            && var e := EndsOf(f).value; var p := EtherPayload(f).value;
               && !RightlyExempt(m, e, Transport(f, p), HopLimit(f, p))
               && exists c | c in m.drops :: e.src in Addresses(c) || e.dst in Addresses(c)
  {
    if EtherPayload(f).Some? && HasHeader(f, EtherPayload(f).value) {
      var p := EtherPayload(f).value;
      var e := EndsAt(f, p);
      hide Exempts, RightlyExempt, SeenAt, Transport;
      ExemptsOnlyRightly(m, f, p, e);
      HitsMeaning(m.drops.Keys, e.src);
      HitsMeaning(m.drops.Keys, e.dst);
    }
  }

  lemma HitsMeaning(keys: set<Cidr>, h: Host)
    ensures Hits(keys, h) <==> exists c | c in keys :: h in Addresses(c)
  {
    forall c | c in keys
      ensures Covers(c, h) <==> h in Addresses(c)
    {
      CoversMeaning(c, h);
    }
  }

  /** Nothing is blackholed: a frame to a live local address passes unless a live drop contains its source. */
  ghost predicate Reachable(m: Maps) {
    forall f, c | EndsOf(f).Some? && c in m.local && EndsOf(f).value.dst in Addresses(c)
                  && (forall d | d in m.drops :: EndsOf(f).value.src !in Addresses(d)) ::
      !(Classify(m, f).Judged? && Classify(m, f).drop)
  }

  lemma DisjointIsReachable(m: Maps)
    requires LiveDisjoint(m)
    ensures Reachable(m)
  {
    forall f, c | EndsOf(f).Some? && c in m.local && EndsOf(f).value.dst in Addresses(c)
                  && (forall d | d in m.drops :: EndsOf(f).value.src !in Addresses(d))
      ensures !(Classify(m, f).Judged? && Classify(m, f).drop)
    {
      ReachesFrame(m, f, c);
    }
  }

  lemma ReachesFrame(m: Maps, f: Frame, c: Cidr)
    requires LiveDisjoint(m) && EndsOf(f).Some? && c in m.local && EndsOf(f).value.dst in Addresses(c)
    requires forall d | d in m.drops :: EndsOf(f).value.src !in Addresses(d)
    ensures !(Classify(m, f).Judged? && Classify(m, f).drop)
  {
    hide Addresses, Overlaps, Exempts, SeenAt, Hits;
    var e := EndsOf(f).value;
    HitsMeaning(m.drops.Keys, e.src);
    HitsMeaning(m.drops.Keys, e.dst);
    forall d | d in m.drops
      ensures e.dst !in Addresses(d)
    {
      OverlapIsIntersection(d, c);
    }
  }

  // ---------------------------------------------------------------- the counters

  /** The metrics after one frame; full counts the host and remote inserts that failed. */
  function Account(c: Counts, o: Outcome, len: nat, full: nat): Counts {
    var r := c.(rxPkts := c.rxPkts + 1, rxBytes := c.rxBytes + len);
    match o
    case Unarmed => r.(passed := r.passed + 1)
    case TooShort => r.(parseErr := r.parseErr + 1)
    case NotIp => r.(passed := r.passed + 1, nonIp := r.nonIp + 1)
    case Judged(_, drop, bad) =>
      var q := r.(parseErr := r.parseErr + if bad then 1 else 0);
      if drop then q.(dropped := q.dropped + 1) else q.(passed := q.passed + 1, mapFull := q.mapFull + full)
  }

  /** A frame as it arrives: the maps it meets, its bytes, and how many counter inserts fail. */
  datatype Arrival = Arrival(maps: Maps, frame: Frame, full: nat)

  function AccountAll(c: Counts, s: seq<Arrival>): Counts {
    if s == [] then c
    else
      var a := s[|s| - 1];
      Account(AccountAll(c, s[..|s| - 1]), Classify(a.maps, a.frame), |a.frame|, a.full)
  }

  /** How many frames of the traffic leave the program in one of the ways that count. */
  ghost function Among(s: seq<Arrival>, counts: Outcome -> bool): nat {
    if s == [] then 0
    else Among(s[..|s| - 1], counts) + if counts(Classify(s[|s| - 1].maps, s[|s| - 1].frame)) then 1 else 0
  }

  ghost function LengthOf(s: seq<Arrival>): nat {
    if s == [] then 0 else LengthOf(s[..|s| - 1]) + |s[|s| - 1].frame|
  }

  predicate IsTooShort(o: Outcome) {
    o == TooShort
  }

  predicate IsNotIp(o: Outcome) {
    o == NotIp
  }

  predicate IsDropped(o: Outcome) {
    o.Judged? && o.drop
  }

  predicate IsFaulty(o: Outcome) {
    o == TooShort || (o.Judged? && o.bad)
  }

  /**
   Over any traffic, with the maps changing under it, each counter counts what it says: all
   frames and their bytes, the dropped ones, those that are not IP, and as parse errors the
   too short ones and the badly formed ones.  Every frame is passed, dropped, or too short.
   */
  lemma {:induction false} FramesAreConserved(s: seq<Arrival>)
    ensures var c := AccountAll(Counts(0, 0, 0, 0, 0, 0, 0), s);
            && c.rxPkts == |s| && c.rxBytes == LengthOf(s)
            && c.dropped == Among(s, IsDropped) && c.nonIp == Among(s, IsNotIp) && c.parseErr == Among(s, IsFaulty)
            && c.rxPkts == c.passed + c.dropped + Among(s, IsTooShort)
            && c.passed + c.dropped <= c.rxPkts <= c.passed + c.dropped + c.parseErr
  {
    hide Classify, Account;
    if s != [] {
      var n := |s| - 1;
      FramesAreConserved(s[..n]);
      OneFrame(AccountAll(Counts(0, 0, 0, 0, 0, 0, 0), s[..n]), Classify(s[n].maps, s[n].frame), |s[n].frame|, s[n].full);
    }
  }

  /** While the gate is idle, every frame counts as passed and nothing else moves. */
  lemma {:induction false} IdleFramesPass(s: seq<Arrival>)
    requires forall a | a in s :: !a.maps.cfg.armed
    ensures var c := AccountAll(Counts(0, 0, 0, 0, 0, 0, 0), s);
            c.passed == c.rxPkts == |s| && c.dropped == c.nonIp == c.mapFull == c.parseErr == 0
  {
    if s != [] {
      IdleFramesPass(s[..|s| - 1]);
      assert s[|s| - 1] in s;
    }
  }

  lemma OneFrame(c: Counts, o: Outcome, len: nat, full: nat)
    ensures var r := Account(c, o, len, full);
            && r.rxPkts == c.rxPkts + 1 && r.rxBytes == c.rxBytes + len
            && r.dropped == c.dropped + (if IsDropped(o) then 1 else 0)
            && r.nonIp == c.nonIp + (if IsNotIp(o) then 1 else 0)
            && r.parseErr == c.parseErr + (if IsFaulty(o) then 1 else 0)
            && r.passed + r.dropped == c.passed + c.dropped + (if IsTooShort(o) then 0 else 1)
  {
  }

  // ---------------------------------------------------------------- the program

  /**
   A traffic table after one more frame of h: its counters moved by that frame, every other
   entry as it was.  Only a new entry may push others out, and only in an LRU table.
   A failed insert changes nothing.
   */
  predicate Accounted(t: map<Host, Traffic>, t': map<Host, Traffic>, h: Host, len: nat, lru: bool, failed: bool) {
    if failed then t' == t && h !in t
    else
      var before := if h in t then t[h] else Traffic(0, 0);
      && h in t' && t'[h] == Traffic(before.pkts + 1, before.bytes + len)
      && (forall k | k in t' && k != h :: k in t && t'[k] == t[k])
      && (h in t || !lru ==> t.Keys <= t'.Keys)
  }

  /** `VG_HASH_GET` followed by `acc_in`, on a plain or an LRU table. */
  method CountFrame(t: map<Host, Traffic>, h: Host, len: nat, lru: bool) returns (t': map<Host, Traffic>, failed: bool)
    ensures Accounted(t, t', h, len, lru, failed)
  {
    t', failed := t, false;
    if h !in t {
      var inserted: bool := *;
      if !inserted {
        return t, true;
      }
      if lru {
        var evicted: set<Host> := *;
        t' := t' - evicted;
      }
      t' := t'[h := Traffic(0, 0)];
    }
    t' := t'[h := Traffic(t'[h].pkts + 1, t'[h].bytes)];
    t' := t'[h := Traffic(t'[h].pkts, t'[h].bytes + len)];
  }

  function Full(noHost: bool, noRemote: bool): nat {
    (if noHost then 1 else 0) + (if noRemote then 1 else 0)
  }

  class Program {
    var maps: Maps
    var counts: Counts
    var host: map<Host, Traffic>
    var remote: map<Host, Traffic>

    constructor (maps: Maps)
      ensures this.maps == maps && counts == Counts(0, 0, 0, 0, 0, 0, 0) && host == map[] && remote == map[]
    {
      this.maps, counts, host, remote := maps, Counts(0, 0, 0, 0, 0, 0, 0), map[], map[];
    }

    /** The common end of both families: exemptions, the drop lookup, the traffic tables. */
    method Decide(e: Ends, s: Seen, hopLimit: bv8, len: nat) returns (v: Verdict, ghost noHost: bool, ghost noRemote: bool)
      modifies this
      ensures maps == old(maps)
      ensures v == Drop <==> !Exempts(maps, e, s, hopLimit) && (Hits(maps.drops.Keys, e.src) || Hits(maps.drops.Keys, e.dst))
      ensures counts == if v == Drop then old(counts).(dropped := old(counts).dropped + 1)
                        else old(counts).(passed := old(counts).passed + 1, mapFull := old(counts).mapFull + Full(noHost, noRemote))
      ensures if v == Pass && Hits(maps.local, e.dst)
              then Accounted(old(host), host, e.dst, len, false, noHost) && Accounted(old(remote), remote, e.src, len, true, noRemote)
              else host == old(host) && remote == old(remote) && !noHost && !noRemote
    {
      hide Hits, Accounted;
      noHost, noRemote := false, false;
      if !Exempts(maps, e, s, hopLimit) {
        if Hits(maps.drops.Keys, e.src) || Hits(maps.drops.Keys, e.dst) {
          counts := counts.(dropped := counts.dropped + 1);
          return Drop, false, false;
        }
      }
      if Hits(maps.local, e.dst) {
        var failed;
        host, failed := CountFrame(host, e.dst, len, false);
        if failed {
          counts := counts.(mapFull := counts.mapFull + 1);
        }
        noHost := failed;
        remote, failed := CountFrame(remote, e.src, len, true);
        if failed {
          counts := counts.(mapFull := counts.mapFull + 1);
        }
        noRemote := failed;
      }
      counts := counts.(passed := counts.passed + 1);
      v := Pass;
    }

    /** The VLAN loop of `voidgate_xdp`. */
    static method StripVlans(f: Frame) returns (r: Option<Payload>)
      requires |f| >= 14
      ensures r == EtherPayload(f)
    {
      var p := Payload(Be16(f, 12), 14);
      for i := 0 to MAX_VLANS
        invariant EtherPayload(f) == SkipVlans(f, p, MAX_VLANS - i)
      {
        if !IsVlan(p.kind) {
          break;
        }
        if p.off + 4 > |f| {
          return None;
        }
        p := Payload(Be16(f, p.off + 2), p.off + 4);
      }
      return Some(p);
    }

    /** `parse_l4`, with the ports and type it leaves behind. */
    static method ReadL4(f: Frame, off: nat, proto: bv8, v6: bool) returns (rc: int, l: L4)
      requires off <= |f|
      ensures rc == 0 ==> ParseL4(f, off, proto, v6) == Some(l)
      ensures rc != 0 ==> rc == -1 && ParseL4(f, off, proto, v6).None? && l == NO_L4
    {
      hide Be16;
      rc, l := 0, L4(0, 0, 0);
      if proto == TCP {
        if off + 20 > |f| {
          return -1, l;
        }
        l := l.(sport := Be16(f, off), dport := Be16(f, off + 2));
        return;
      }
      if proto == UDP {
        if off + 8 > |f| {
          return -1, l;
        }
        l := l.(sport := Be16(f, off), dport := Be16(f, off + 2));
        return;
      }
      if proto == ICMPV6 && v6 {
        if off + 4 > |f| {
          return -1, l;
        }
        l := l.(icmp := f[off]);
      }
    }

    /** The IPv4 part of `voidgate_xdp` up to the exemptions. */
    static method See4(f: Frame, ip: nat) returns (s: Seen)
      requires ip + 20 <= |f|
      ensures s == Seen4(f, ip)
    {
      hide Be16, ParseL4;
      s := Seen(f[ip + 9], NO_L4, false);
      var ihl := (f[ip] & 0x0f) as nat;
      var l4 := ip + ihl * 4;
      var firstFrag := Be16(f, ip + 6) & 0x1fff == 0;
      if ihl < 5 || l4 > |f| {
        s := s.(bad := true);
      } else if firstFrag {
        var rc, l := ReadL4(f, l4, s.proto, false);
        s := s.(l4 := l, bad := rc < 0);
      }
    }

    /** The IPv6 part of `voidgate_xdp` up to the exemptions. */
    static method See6(f: Frame, ip: nat) returns (s: Seen)
      requires ip + 40 <= |f|
      ensures s == Seen6(f, ip)
    {
      hide WalkChain, Be16;
      var rc, l4, proto := WalkExt(f, ip + 40, f[ip + 6]);
      if rc < 0 {
        return Seen(proto, NO_L4, true);
      }
      if rc == 0 {
        return Seen(proto, NO_L4, false);
      }
      BoundedWalkAgrees(f, ip + 40, f[ip + 6], MAX_EXT);
      var r, l := ReadL4(f, l4, proto, true);
      return Seen(proto, l, r < 0);
    }

    /** `voidgate_xdp`. */
    method Run(f: Frame) returns (v: Verdict, ghost noHost: bool, ghost noRemote: bool)
      modifies this
      ensures maps == old(maps)
      ensures v == Drop <==> Classify(maps, f).Judged? && Classify(maps, f).drop
      ensures counts == Account(old(counts), Classify(maps, f), |f|, Full(noHost, noRemote))
      ensures v == Drop || !Classify(maps, f).Judged? || !Hits(maps.local, Classify(maps, f).ends.dst) ==>
                host == old(host) && remote == old(remote)
      ensures v == Pass && Classify(maps, f).Judged? && Hits(maps.local, Classify(maps, f).ends.dst) ==>
                && Accounted(old(host), host, Classify(maps, f).ends.dst, |f|, false, noHost)
                && Accounted(old(remote), remote, Classify(maps, f).ends.src, |f|, true, noRemote)
    {
      hide Hits, Exempts, Seen4, Seen6, SkipVlans, Be16, Accounted;
      noHost, noRemote := false, false;
      counts := counts.(rxPkts := counts.rxPkts + 1, rxBytes := counts.rxBytes + |f|);
      if !maps.cfg.armed {
        counts := counts.(passed := counts.passed + 1);
        return Pass, false, false;
      }
      if 14 > |f| {
        counts := counts.(parseErr := counts.parseErr + 1);
        return Pass, false, false;
      }
      var payload := StripVlans(f);
      if payload.None? {
        counts := counts.(parseErr := counts.parseErr + 1);
        return Pass, false, false;
      }
      var p := payload.value;
      if p.kind != ETH_IP && p.kind != ETH_IPV6 {
        counts := counts.(nonIp := counts.nonIp + 1);
        counts := counts.(passed := counts.passed + 1);
        return Pass, false, false;
      }
      if !HasHeader(f, p) {
        counts := counts.(parseErr := counts.parseErr + 1);
        return Pass, false, false;
      }
      var s;
      if p.kind == ETH_IP {
        s := See4(f, p.off);
      } else {
        s := See6(f, p.off);
      }
      if s.bad {
        counts := counts.(parseErr := counts.parseErr + 1);
      }
      v, noHost, noRemote := Decide(EndsAt(f, p), s, HopLimit(f, p), |f|);
    }
  }
}
