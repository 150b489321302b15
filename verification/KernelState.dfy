/**
 The values both halves share (src/config.h, src/bpf/voidgate.h): the daemon's
 configuration, and the contents of the kernel maps that the daemon writes and
 the XDP program reads.
 */
module KernelState {
  import opened Cidrs

  datatype Option<+T> = None | Some(value: T)

  const MAX_ALLOW_PORTS: nat := 8
  const TWO32: nat := 0x1_0000_0000

  /** `struct vg_config`, the fields the policy and the datapath depend on. */
  datatype Config = Config(
    wakePps: nat, wakeMbps: nat, clearSeconds: nat,
    thresholdPps: nat, thresholdMbps: nat,
    banTime: nat, aggregateK: nat,
    ports: seq<bv16>, local: seq<Cidr>, allow: seq<Cidr>)

  datatype Reason = Manual | Policy | Aggregate | Timed

  /** `struct drop_entry`. */
  datatype DropEntry = DropEntry(reason: Reason, insertTime: nat)

  /** `struct vg_cfg`: eight port slots and how many of them are in use. */
  datatype CfgEntry = CfgEntry(armed: bool, ports: seq<bv16>, count: nat)

  /** The kernel maps; each prefix map holds both families, a key carries its own. */
  datatype Maps = Maps(cfg: CfgEntry, drops: map<Cidr, DropEntry>, allow: set<Cidr>, local: set<Cidr>)

  /** `vg_cfg_commit`: what it writes for a configuration. */
  function Committed(armed: bool, conf: Config): CfgEntry {
    var count := if |conf.ports| % 0x1_0000 > MAX_ALLOW_PORTS then MAX_ALLOW_PORTS else |conf.ports| % 0x1_0000;
    CfgEntry(armed, seq(MAX_ALLOW_PORTS, i requires 0 <= i < MAX_ALLOW_PORTS => if i < count then conf.ports[i] else 0), count)
  }

  /** `vg_cidr_is_protected`: p shares an address with a local or allowed prefix. */
  predicate Protected(conf: Config, p: Cidr) {
    || (exists c | c in conf.local :: Overlaps(p, c))
    || (exists c | c in conf.allow :: Overlaps(p, c))
  }

  function SetOf<T>(s: seq<T>): set<T> {
    set x | x in s
  }

  lemma SetOfMore<T>(s: seq<T>, x: T)
    ensures SetOf(s + [x]) == SetOf(s) + {x}
  {
  }

  lemma SubsetSize<T>(a: set<T>, b: set<T>)
    requires a <= b
    ensures |a| <= |b|
    ensures |a| == |b| ==> a == b
  {
    assert b == a + (b - a);
    assert |b| == |a| + |b - a|;
  }

  /** Keys of one family: the entries of drop_v4 or of drop_v6. */
  function OfFamily(keys: set<Cidr>, f: Family): set<Cidr> {
    set c | c in keys && c.family == f
  }

  /** A prefix map lookup: some key covers the address. */
  predicate Hits(keys: set<Cidr>, h: Host) {
    exists c | c in keys :: Covers(c, h)
  }

  /** No live drop prefix shares an address with a live local or allow prefix. */
  predicate LiveDisjoint(m: Maps) {
    forall d, c | d in m.drops && c in m.local + m.allow :: !Overlaps(d, c)
  }
}
