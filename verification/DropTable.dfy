/**
 The drop list as the daemon stores it (src/policy.c): a fixed pool of records, each on
 the circular list of listed drops or on the list of lifted ones, and a hash index over
 the listed ones.  A record's address is its pool slot.  `Contents()` is the list as a
 sequence; every operation is specified by what it does to that sequence.
 */
module DropTables {
  import opened Cidrs
  import opened KernelState
  import opened GateModel
  import opened Lists

  // ---------------------------------------------------------------- hashing

  const FNV_PRIME: nat := 16777619

  /** One round of the 32-bit hash: xor a byte in, then multiply. */
  function Mix(h: nat, b: bv8): nat {
    (h - h % 256 + ((h % 256) as bv8 ^ b) as nat) * FNV_PRIME % TWO32
  }

  function MixAll(h: nat, s: seq<bv8>): nat {
    if s == [] then h else Mix(MixAll(h, s[..|s| - 1]), s[|s| - 1])
  }

  /** `drop_hash`; the bucket count is a power of two, so its mask is a remainder. */
  function HashOf(p: Cidr, nb: nat): (b: nat)
    requires nb > 0
    ensures b < nb
  {
    var family := if p.family == V4 then 2 else 10;
    MixAll(Mix(family * FNV_PRIME % TWO32, p.plen as bv8), p.addr) % nb
  }

  // ---------------------------------------------------------------- the invariant, on values

  /** Slots 0..used are split between the listed, the lifted, and those being handed over. */
  ghost predicate Partition(used: nat, listed: seq<nat>, free: seq<nat>, out: set<nat>) {
    && Below(listed, used) && Below(free, used)
    && (forall x | x in out :: x < used && x !in listed && x !in free)
    && (forall x | x in listed :: x !in free)
    && (forall x: nat | x < used :: x in listed || x in free || x in out)
  }

  ghost predicate PoolInv(l: seq<Node>, cap: nat, used: nat, listed: seq<nat>, free: seq<nat>, out: set<nat>) {
    && |l| == cap + 2 && used <= cap
    && Ring(l, cap, listed) && Ring(l, cap + 1, free)
    && Partition(used, listed, free, out)
  }

  /** Bucket b is to chain exactly the listed records whose prefix hashes to b. */
  ghost predicate Routed(recs: seq<Drop>, nb: nat, listed: seq<nat>, chains: seq<seq<nat>>) {
    && |chains| == nb > 0 && Below(listed, |recs|)
    && (forall b, i | 0 <= b < nb && 0 <= i < |chains[b]| ::
          chains[b][i] in listed && chains[b][i] < |recs| && HashOf(recs[chains[b][i]].cidr, nb) == b)
    && (forall i | 0 <= i < |listed| :: listed[i] in chains[HashOf(recs[listed[i]].cidr, nb)])
  }

  /** And the bucket memory holds those chains. */
  ghost predicate IndexInv(m: HMem, recs: seq<Drop>, nb: nat, listed: seq<nat>, chains: seq<seq<nat>>) {
    && |m.first| == nb && |m.node| == |recs| && Routed(recs, nb, listed, chains)
    && forall b | 0 <= b < nb :: Chain(m, b, chains[b])
  }

  const NO_DROP := Drop(RawCidr(V4, [0, 0, 0, 0], 0), Manual, 0, 0)

  /** The records at the listed slots. */
  function Records(recs: seq<Drop>, listed: seq<nat>): seq<Drop> {
    seq(|listed|, i requires 0 <= i < |listed| => if listed[i] < |recs| then recs[listed[i]] else NO_DROP)
  }

  /** Everything the table stores, with the lists it stands for. */
  datatype Table = Table(l: seq<Node>, m: HMem, recs: seq<Drop>, used: nat,
                         listed: seq<nat>, free: seq<nat>, chains: seq<seq<nat>>)

  /** The table with the records `out` handed out but not yet listed or given back. */
  ghost predicate TableInv(t: Table, out: set<nat>) {
    && PoolInv(t.l, |t.recs|, t.used, t.listed, t.free, out)
    && IndexInv(t.m, t.recs, |t.m.first|, t.listed, t.chains)
    && UniqueKeys(Records(t.recs, t.listed))
  }

  /** The two list heads, behind the pool's nodes. */
  function AllHead(t: Table): nat { |t.recs| }

  function FreeHead(t: Table): nat { |t.recs| + 1 }

  // ---------------------------------------------------------------- the pool lists

  ghost function Range(n: nat): (s: set<nat>)
    ensures forall x: nat :: x in s <==> x < n
    ensures |s| == n
  {
    if n == 0 then {} else Range(n - 1) + {n - 1}
  }

  ghost function Elems(xs: seq<nat>): (s: set<nat>)
    ensures forall x: nat :: x in s <==> x in xs
    ensures Distinct(xs) ==> |s| == |xs|
  {
    if xs == [] then {}
    else
      assert xs == [xs[0]] + xs[1..];
      Elems(xs[1..]) + {xs[0]}
  }

  /** Distinct slots below cap are cap many exactly when none is missing. */
  lemma FullOrMissing(xs: seq<nat>, cap: nat, x: nat)
    requires Distinct(xs) && Below(xs, cap)
    ensures |xs| <= cap
    ensures x < cap && x !in xs ==> |xs| < cap
    ensures (forall y: nat | y < cap :: y in xs) ==> |xs| == cap
  {
    var range, elems := Range(cap), Elems(xs);
    assert elems <= range;
    SubsetSize(elems, range);
    if x < cap && x !in xs {
      assert elems <= range - {x};
      SubsetSize(elems, range - {x});
    } else if forall y: nat | y < cap :: y in xs {
      assert range == elems;
    }
  }

  /** What `drop_alloc` reads off the lists. */
  lemma AllocFacts(l: seq<Node>, cap: nat, used: nat, listed: seq<nat>, free: seq<nat>)
    requires PoolInv(l, cap, used, listed, free, {})
    ensures |l| == cap + 2 && used <= cap
    ensures l[cap + 1].next == if free == [] then cap + 1 else free[0]
    ensures free != [] ==> free[0] < cap && free[0] !in listed
    ensures |listed| <= cap && (|listed| == cap <==> free == [] && used == cap)
  {
    if free != [] {
      FullOrMissing(listed, cap, free[0]);
    } else {
      FullOrMissing(listed, cap, used);
    }
  }

  lemma PoolTakesFree(l: seq<Node>, cap: nat, used: nat, listed: seq<nat>, free: seq<nat>)
    requires PoolInv(l, cap, used, listed, free, {}) && free != []
    ensures |l| == cap + 2 && free[0] < cap && l[free[0]].prev < |l| && l[free[0]].next < |l| && l[free[0]].prev != free[0]
    ensures PoolInv(Unlink(l, free[0]), cap, used, listed, Without(free, 0), {free[0]})
  {
    RingNode(l, cap + 1, free, 0);
    UnlinkRing(l, cap + 1, free, 0);
    WithoutFacts(free, 0);
    UnlinkLeaves(l, cap + 1, free, 0, cap, listed);
    assert Below(Without(free, 0), used);
  }

  lemma PoolTakesFresh(l: seq<Node>, cap: nat, used: nat, listed: seq<nat>, free: seq<nat>)
    requires PoolInv(l, cap, used, listed, free, {}) && used < cap
    ensures PoolInv(l, cap, used + 1, listed, free, {used})
  {
  }

  lemma PoolLists(l: seq<Node>, cap: nat, used: nat, listed: seq<nat>, free: seq<nat>, x: nat)
    requires PoolInv(l, cap, used, listed, free, {x})
    ensures |l| == cap + 2 && x < cap && x !in listed
    ensures l[cap].prev < |l| && l[cap].prev != x
    ensures PoolInv(AddTail(l, x, cap), cap, used, listed + [x], free, {})
  {
    AddTailRing(l, cap, listed, x);
    AddTailLeaves(l, cap, listed, x, cap + 1, free);
  }

  lemma PoolReleases(l: seq<Node>, cap: nat, used: nat, listed: seq<nat>, free: seq<nat>, x: nat)
    requires PoolInv(l, cap, used, listed, free, {x})
    ensures |l| == cap + 2 && x < cap && x !in listed
    ensures l[cap + 1].prev < |l| && l[cap + 1].prev != x
    ensures PoolInv(AddTail(l, x, cap + 1), cap, used, listed, free + [x], {})
  {
    AddTailRing(l, cap + 1, free, x);
    AddTailLeaves(l, cap + 1, free, x, cap, listed);
  }

  lemma PoolBelow(l: seq<Node>, cap: nat, used: nat, listed: seq<nat>, free: seq<nat>)
    requires PoolInv(l, cap, used, listed, free, {})
    ensures Below(listed, cap)
  {
  }

  lemma PoolUnlists(l: seq<Node>, cap: nat, used: nat, listed: seq<nat>, free: seq<nat>, k: nat)
    requires PoolInv(l, cap, used, listed, free, {}) && k < |listed|
    ensures |l| == cap + 2 && listed[k] < cap && Distinct(listed)
    ensures l[listed[k]].prev < |l| && l[listed[k]].next < |l| && l[listed[k]].prev != listed[k]
    ensures PoolInv(Unlink(l, listed[k]), cap, used, Without(listed, k), free, {listed[k]})
  {
    RingNode(l, cap, listed, k);
    UnlinkRing(l, cap, listed, k);
    WithoutFacts(listed, k);
    UnlinkLeaves(l, cap, listed, k, cap + 1, free);
    assert Below(Without(listed, k), used);
  }

  lemma UnlinkLeaves(l: seq<Node>, head: nat, xs: seq<nat>, k: nat, other: nat, ys: seq<nat>)
    requires Ring(l, head, xs) && Ring(l, other, ys) && k < |xs|
    requires head != other && head !in ys && other !in xs && (forall x | x in xs :: x !in ys)
    ensures l[xs[k]].prev < |l| && l[xs[k]].next < |l| && Ring(Unlink(l, xs[k]), other, ys)
  {
    UnlinkOutside(l, head, xs, k, other);
    forall i | 0 <= i < |ys|
      ensures Unlink(l, xs[k])[ys[i]] == l[ys[i]]
    {
      UnlinkOutside(l, head, xs, k, ys[i]);
    }
    RingFrame(l, Unlink(l, xs[k]), other, ys);
  }

  lemma AddTailLeaves(l: seq<Node>, head: nat, xs: seq<nat>, node: nat, other: nat, ys: seq<nat>)
    requires Ring(l, head, xs) && Ring(l, other, ys)
    requires node < |l| && node != head && node !in xs && node != other && node !in ys
    requires head != other && head !in ys && other !in xs && (forall x | x in xs :: x !in ys)
    ensures Ring(AddTail(l, node, head), other, ys)
  {
  }

  // ---------------------------------------------------------------- the index

  lemma RoutedMore(recs: seq<Drop>, nb: nat, listed: seq<nat>, chains: seq<seq<nat>>, x: nat)
    requires Routed(recs, nb, listed, chains) && x < |recs|
    ensures var b := HashOf(recs[x].cidr, nb); Routed(recs, nb, listed + [x], chains[b := [x] + chains[b]])
  {
  }

  lemma StillRouted(recs: seq<Drop>, nb: nat, listed: seq<nat>, chains: seq<seq<nat>>, k: nat, b: nat, j: nat, c: nat, y: nat)
    requires Routed(recs, nb, listed, chains) && Distinct(listed) && k < |listed|
    requires b < nb && Distinct(chains[b]) && j < |chains[b]| && chains[b][j] == listed[k]
    requires c < nb && y in chains[b := Without(chains[b], j)][c]
    ensures y in Without(listed, k) && y < |recs| && HashOf(recs[y].cidr, nb) == c
  {
    WithoutFacts(listed, k);
    WithoutFacts(chains[b], j);
    var i :| 0 <= i < |chains[c]| && chains[c][i] == y;
    assert HashOf(recs[chains[c][i]].cidr, nb) == c;
    assert HashOf(recs[chains[b][j]].cidr, nb) == b;
  }

  lemma StillChained(recs: seq<Drop>, nb: nat, listed: seq<nat>, chains: seq<seq<nat>>, k: nat, b: nat, j: nat, y: nat)
    requires Routed(recs, nb, listed, chains) && Distinct(listed) && k < |listed|
    requires b < nb && Distinct(chains[b]) && j < |chains[b]| && chains[b][j] == listed[k]
    requires y in Without(listed, k)
    ensures y < |recs| && y in chains[b := Without(chains[b], j)][HashOf(recs[y].cidr, nb)]
  {
    WithoutFacts(listed, k);
    WithoutFacts(chains[b], j);
    var i :| 0 <= i < |listed| && listed[i] == y;
    assert listed[i] in chains[HashOf(recs[listed[i]].cidr, nb)];
  }

  lemma RoutedLess(recs: seq<Drop>, nb: nat, listed: seq<nat>, chains: seq<seq<nat>>, k: nat, b: nat, j: nat)
    requires Routed(recs, nb, listed, chains) && Distinct(listed) && k < |listed|
    requires b < nb && Distinct(chains[b]) && j < |chains[b]| && chains[b][j] == listed[k]
    ensures Routed(recs, nb, Without(listed, k), chains[b := Without(chains[b], j)])
  {
    var listed', chains' := Without(listed, k), chains[b := Without(chains[b], j)];
    forall c, i | 0 <= c < nb && 0 <= i < |chains'[c]|
      ensures var y := chains'[c][i]; y in listed' && y < |recs| && HashOf(recs[y].cidr, nb) == c
    {
      StillRouted(recs, nb, listed, chains, k, b, j, c, chains'[c][i]);
    }
    forall i | 0 <= i < |listed'|
      ensures listed'[i] < |recs| && listed'[i] in chains'[HashOf(recs[listed'[i]].cidr, nb)]
    {
      StillChained(recs, nb, listed, chains, k, b, j, listed'[i]);
    }
  }

  lemma DisjointChains(recs: seq<Drop>, nb: nat, listed: seq<nat>, chains: seq<seq<nat>>, b: nat, c: nat)
    requires Routed(recs, nb, listed, chains) && b < nb && c < nb && b != c
    ensures forall x | x in chains[b] :: x !in chains[c]
  {
  }

  lemma AddHeadChains(m: HMem, recs: seq<Drop>, nb: nat, listed: seq<nat>, chains: seq<seq<nat>>, x: nat, c: nat)
    requires IndexInv(m, recs, nb, listed, chains) && x < |recs| && x !in listed && c < nb
    ensures var b := HashOf(recs[x].cidr, nb);
            && (m.first[b].To? ==> m.first[b].slot < |m.node|)
            && Chain(AddHead(m, x, b), c, if c == b then [x] + chains[b] else chains[c])
            && |AddHead(m, x, b).node| == |m.node| && |AddHead(m, x, b).first| == |m.first|
  {
    var b := HashOf(recs[x].cidr, nb);
    assert Chain(m, b, chains[b]) && Chain(m, c, chains[c]);
    assert x !in chains[b] && x !in chains[c];
    AddHeadChain(m, b, chains[b], x);
    if c != b {
      DisjointChains(recs, nb, listed, chains, b, c);
      OtherChain(m, b, chains[b], c, chains[c], x);
    }
  }

  lemma IndexAdds(m: HMem, recs: seq<Drop>, nb: nat, listed: seq<nat>, chains: seq<seq<nat>>, x: nat)
    requires IndexInv(m, recs, nb, listed, chains) && x < |recs| && x !in listed
    ensures var b := HashOf(recs[x].cidr, nb);
            && (m.first[b].To? ==> m.first[b].slot < |m.node|)
            && IndexInv(AddHead(m, x, b), recs, nb, listed + [x], chains[b := [x] + chains[b]])
  {
    RoutedMore(recs, nb, listed, chains, x);
    forall c: nat | c < nb
      ensures var b := HashOf(recs[x].cidr, nb);
              && (m.first[b].To? ==> m.first[b].slot < |m.node|)
              && Chain(AddHead(m, x, b), c, if c == b then [x] + chains[b] else chains[c])
    {
      AddHeadChains(m, recs, nb, listed, chains, x, c);
    }
    AddHeadChains(m, recs, nb, listed, chains, x, 0);
  }

  lemma DelChains(m: HMem, recs: seq<Drop>, nb: nat, listed: seq<nat>, chains: seq<seq<nat>>, b: nat, j: nat, c: nat)
    requires IndexInv(m, recs, nb, listed, chains)
    requires b < nb && c < nb && j < |chains[b]|
    ensures Inside(m, chains[b][j])
    ensures Chain(Del(m, chains[b][j]), c, if c == b then Without(chains[b], j) else chains[c])
    ensures var m' := Del(m, chains[b][j]); |m'.node| == |m.node| && |m'.first| == |m.first|
  {
    assert Chain(m, b, chains[b]) && Chain(m, c, chains[c]);
    DelChain(m, b, chains[b], j);
    DelDeletes(m, chains[b][j]);
    if c != b {
      DisjointChains(recs, nb, listed, chains, b, c);
      OtherChain(m, b, chains[b], c, chains[c], chains[b][j]);
    }
  }

  lemma IndexDrops(m: HMem, recs: seq<Drop>, nb: nat, listed: seq<nat>, chains: seq<seq<nat>>, k: nat)
    returns (chains': seq<seq<nat>>)
    requires IndexInv(m, recs, nb, listed, chains) && Distinct(listed) && k < |listed|
    ensures Inside(m, listed[k])
    ensures IndexInv(Del(m, listed[k]), recs, nb, Without(listed, k), chains')
  {
    var x := listed[k];
    var b := HashOf(recs[x].cidr, nb);
    var j :| 0 <= j < |chains[b]| && chains[b][j] == x;
    chains' := chains[b := Without(chains[b], j)];
    assert Chain(m, b, chains[b]);
    RoutedLess(recs, nb, listed, chains, k, b, j);
    DelChains(m, recs, nb, listed, chains, b, j, b);
    forall c: nat | c < nb
      ensures Chain(Del(m, x), c, chains'[c])
    {
      DelChains(m, recs, nb, listed, chains, b, j, c);
    }
  }

  /** A record may change in place as long as its prefix stays. */
  lemma IndexIgnoresValues(m: HMem, recs: seq<Drop>, nb: nat, listed: seq<nat>, chains: seq<seq<nat>>, x: nat, d: Drop)
    requires IndexInv(m, recs, nb, listed, chains) && x < |recs|
    requires x in listed ==> d.cidr == recs[x].cidr
    ensures IndexInv(m, recs[x := d], nb, listed, chains)
  {
  }

  lemma Linked(m: HMem, recs: seq<Drop>, nb: nat, listed: seq<nat>, chains: seq<seq<nat>>, k: nat)
    requires IndexInv(m, recs, nb, listed, chains) && k < |listed|
    ensures m.node[listed[k]].pprev != NextOf(listed[k])
  {
  }

  // ---------------------------------------------------------------- records as a sequence

  lemma RecordsWithout(recs: seq<Drop>, listed: seq<nat>, k: nat)
    requires k < |listed|
    ensures Records(recs, Without(listed, k)) == Records(recs, listed)[..k] + Records(recs, listed)[k + 1..]
    ensures UniqueKeys(Records(recs, listed)) ==> UniqueKeys(Records(recs, Without(listed, k)))
  {
  }

  lemma RecordsInsert(recs: seq<Drop>, listed: seq<nat>, x: nat, d: Drop)
    requires x < |recs| && x !in listed
    requires UniqueKeys(Records(recs, listed)) && forall e | e in Records(recs, listed) :: e.cidr != d.cidr
    ensures Records(recs[x := d], listed + [x]) == Records(recs, listed) + [d]
    ensures UniqueKeys(Records(recs[x := d], listed + [x]))
  {
  }

  lemma RecordsRewrite(recs: seq<Drop>, listed: seq<nat>, k: nat, d: Drop)
    requires Below(listed, |recs|) && Distinct(listed) && k < |listed|
    requires UniqueKeys(Records(recs, listed)) && d.cidr == Records(recs, listed)[k].cidr
    ensures Records(recs[listed[k] := d], listed) == Records(recs, listed)[k := d]
    ensures UniqueKeys(Records(recs[listed[k] := d], listed))
  {
  }

  /** Of records with distinct prefixes, the one found is the one the scan finds. */
  lemma FoundIsFirst(list: seq<Drop>, k: nat)
    requires UniqueKeys(list) && k < |list|
    ensures IndexOf(list, list[k].cidr) == k
  {
  }

  /** What the bucket walk meets at position i of a chain. */
  lemma WalkStep(t: Table, b: nat, i: nat)
    requires TableInv(t, {}) && b < |t.m.first|
    ensures |Records(t.recs, t.listed)| == |t.listed|
    ensures |t.m.node| == |t.recs| && b < |t.chains| && t.m.first[b] == LinkAt(t.chains[b], 0)
    ensures i < |t.chains[b]| ==> t.chains[b][i] < |t.recs| && t.chains[b][i] in t.listed
                                  && t.m.node[t.chains[b][i]].next == LinkAt(t.chains[b], i + 1)
  {
    assert Chain(t.m, b, t.chains[b]);
  }

  lemma WalkFinds(t: Table, x: nat)
    requires TableInv(t, {}) && x in t.listed && x < |t.recs|
    ensures var k := IndexOf(Records(t.recs, t.listed), t.recs[x].cidr); k < |t.listed| && t.listed[k] == x
  {
    var k :| 0 <= k < |t.listed| && t.listed[k] == x;
    assert Records(t.recs, t.listed)[k] == t.recs[x];
    FoundIsFirst(Records(t.recs, t.listed), k);
  }

  lemma WalkMisses(t: Table, p: Cidr)
    requires TableInv(t, {})
    requires var xs := t.chains[HashOf(p, |t.m.first|)];
             forall j | 0 <= j < |xs| :: xs[j] < |t.recs| && t.recs[xs[j]].cidr != p
    ensures IndexOf(Records(t.recs, t.listed), p) == |t.listed|
  {
    hide PoolInv, UniqueKeys, MixAll, Mix, Chain;
    forall k | 0 <= k < |t.listed|
      ensures Records(t.recs, t.listed)[k].cidr != p
    {
      assert t.listed[k] in t.chains[HashOf(t.recs[t.listed[k]].cidr, |t.m.first|)];
    }
  }

  // ---------------------------------------------------------------- the operations, on values

  function AfterRelease(t: Table, x: nat): Table
    requires FreeHead(t) < |t.l| && x < FreeHead(t) && t.l[FreeHead(t)].prev < |t.l| && t.l[FreeHead(t)].prev != x
  {
    t.(l := AddTail(t.l, x, FreeHead(t)), free := t.free + [x])
  }

  lemma ReleaseKeeps(t: Table, x: nat)
    requires TableInv(t, {x})
    ensures FreeHead(t) < |t.l| && x < FreeHead(t) && t.l[FreeHead(t)].prev < |t.l| && t.l[FreeHead(t)].prev != x
    ensures TableInv(AfterRelease(t, x), {})
  {
    hide PoolInv, IndexInv;
    PoolReleases(t.l, |t.recs|, t.used, t.listed, t.free, x);
  }

  function AfterInsert(t: Table, x: nat, d: Drop): Table
    requires x < |t.recs| < |t.l| && t.l[AllHead(t)].prev < |t.l| && t.l[AllHead(t)].prev != x
    requires var nb := |t.m.first|; |t.m.node| == |t.recs| && nb > 0 && |t.chains| == nb
    requires var b := HashOf(d.cidr, |t.m.first|); t.m.first[b].To? ==> t.m.first[b].slot < |t.m.node|
  {
    var b := HashOf(d.cidr, |t.m.first|);
    t.(recs := t.recs[x := d], m := AddHead(t.m, x, b), l := AddTail(t.l, x, AllHead(t)),
       listed := t.listed + [x], chains := t.chains[b := [x] + t.chains[b]])
  }

  lemma InsertReady(t: Table, x: nat, d: Drop)
    requires TableInv(t, {x})
    ensures x < |t.recs| < |t.l| && t.l[AllHead(t)].prev < |t.l| && t.l[AllHead(t)].prev != x
    ensures var nb := |t.m.first|; |t.m.node| == |t.recs| && nb > 0 && |t.chains| == nb
    ensures var b := HashOf(d.cidr, |t.m.first|); t.m.first[b].To? ==> t.m.first[b].slot < |t.m.node|
  {
    PoolLists(t.l, |t.recs|, t.used, t.listed, t.free, x);
    var b := HashOf(d.cidr, |t.m.first|);
    assert Chain(t.m, b, t.chains[b]);
  }

  lemma InsertKeeps(t: Table, x: nat, d: Drop)
    requires TableInv(t, {x}) && forall e | e in Records(t.recs, t.listed) :: e.cidr != d.cidr
    ensures x < |t.recs| < |t.l| && t.l[AllHead(t)].prev < |t.l| && t.l[AllHead(t)].prev != x
    ensures var nb := |t.m.first|; |t.m.node| == |t.recs| && nb > 0 && |t.chains| == nb
    ensures var b := HashOf(d.cidr, |t.m.first|); t.m.first[b].To? ==> t.m.first[b].slot < |t.m.node|
    ensures TableInv(AfterInsert(t, x, d), {})
    ensures Records(AfterInsert(t, x, d).recs, AfterInsert(t, x, d).listed) == Records(t.recs, t.listed) + [d]
  {
    hide PoolInv, IndexInv, AddTail, AddHead, HashOf, Records, UniqueKeys;
    InsertReady(t, x, d);
    PoolLists(t.l, |t.recs|, t.used, t.listed, t.free, x);
    var nb := |t.m.first|;
    IndexIgnoresValues(t.m, t.recs, nb, t.listed, t.chains, x, d);
    IndexAdds(t.m, t.recs[x := d], nb, t.listed, t.chains, x);
    AddHeadSize(t.m, x, HashOf(d.cidr, nb));
    RecordsInsert(t.recs, t.listed, x, d);
  }

  lemma AddHeadSize(m: HMem, x: nat, b: nat)
    requires x < |m.node| && b < |m.first| && (m.first[b].To? ==> m.first[b].slot < |m.node|)
    ensures |AddHead(m, x, b).first| == |m.first|
  {
  }

  /** The list memory after a record moves from the listed to the lifted. */
  function AfterMove(l: seq<Node>, x: nat, freeHead: nat): seq<Node>
    requires x < |l| && l[x].prev < |l| && l[x].next < |l|
    requires freeHead < |l| && x != freeHead
    requires Unlink(l, x)[freeHead].prev < |l| && Unlink(l, x)[freeHead].prev != x
  {
    AddTail(Unlink(l, x), x, freeHead)
  }

  ghost predicate RemoveReady(t: Table, x: nat) {
    && x < |t.recs| && FreeHead(t) < |t.l|
    && t.l[x].prev < |t.l| && t.l[x].next < |t.l| && t.l[x].prev != x
    && Unlink(t.l, x)[FreeHead(t)].prev < |t.l| && Unlink(t.l, x)[FreeHead(t)].prev != x
    && Inside(t.m, x) && t.m.node[x].pprev != NextOf(x)
  }

  lemma RemoveKeeps(t: Table, k: nat) returns (chains: seq<seq<nat>>)
    requires TableInv(t, {}) && k < |t.listed|
    ensures RemoveReady(t, t.listed[k])
    ensures var x := t.listed[k];
            var t' := t.(m := Del(t.m, x), l := AfterMove(t.l, x, FreeHead(t)),
                         listed := Without(t.listed, k), free := t.free + [x], chains := chains);
            TableInv(t', {})
    ensures Records(t.recs, Without(t.listed, k)) == Records(t.recs, t.listed)[..k] + Records(t.recs, t.listed)[k + 1..]
  {
    hide PoolInv, IndexInv;
    var x, cap, nb := t.listed[k], |t.recs|, |t.m.first|;
    PoolUnlists(t.l, cap, t.used, t.listed, t.free, k);
    PoolReleases(Unlink(t.l, x), cap, t.used, Without(t.listed, k), t.free, x);
    chains := IndexDrops(t.m, t.recs, nb, t.listed, t.chains, k);
    Linked(t.m, t.recs, nb, t.listed, t.chains, k);
    DelDeletes(t.m, x);
    RecordsWithout(t.recs, t.listed, k);
  }

  lemma RewriteKeeps(t: Table, k: nat, d: Drop)
    requires TableInv(t, {}) && k < |t.listed| && d.cidr == Records(t.recs, t.listed)[k].cidr
    ensures t.listed[k] < |t.recs|
    ensures TableInv(t.(recs := t.recs[t.listed[k] := d]), {})
    ensures Records(t.recs[t.listed[k] := d], t.listed) == Records(t.recs, t.listed)[k := d]
  {
    hide PoolInv, IndexInv;
    PoolUnlists(t.l, |t.recs|, t.used, t.listed, t.free, k);
    PoolBelow(t.l, |t.recs|, t.used, t.listed, t.free);
    IndexIgnoresValues(t.m, t.recs, |t.m.first|, t.listed, t.chains, t.listed[k], d);
    RecordsRewrite(t.recs, t.listed, k, d);
  }

  lemma AllocKeeps(t: Table)
    requires TableInv(t, {})
    ensures FreeHead(t) < |t.l| && |t.listed| <= |t.recs|
    ensures t.l[FreeHead(t)].next == if t.free == [] then FreeHead(t) else t.free[0]
    ensures |t.listed| == |t.recs| <==> t.free == [] && t.used >= |t.recs|
    ensures t.free != [] ==>
              var x := t.free[0];
              && x < |t.recs| && t.l[x].prev < |t.l| && t.l[x].next < |t.l| && t.l[x].prev != x
              && TableInv(t.(l := Unlink(t.l, x), free := Without(t.free, 0)), {x})
    ensures t.free == [] && t.used < |t.recs| ==> TableInv(t.(used := t.used + 1), {t.used})
  {
    hide PoolInv, IndexInv;
    var cap := |t.recs|;
    AllocFacts(t.l, cap, t.used, t.listed, t.free);
    if t.free != [] {
      PoolTakesFree(t.l, cap, t.used, t.listed, t.free);
    } else if t.used < cap {
      PoolTakesFresh(t.l, cap, t.used, t.listed, t.free);
    }
  }

  lemma EmptyTable(t: Table)
    requires |t.l| == |t.recs| + 2 == |t.m.node| + 2 && |t.m.first| > 0
    requires t.l[AllHead(t)] == Node(AllHead(t), AllHead(t)) && t.l[FreeHead(t)] == Node(FreeHead(t), FreeHead(t))
    requires forall b | 0 <= b < |t.m.first| :: t.m.first[b] == Null
    requires t.used == 0 && t.listed == [] && t.free == [] && t.chains == seq(|t.m.first|, _ => [])
    ensures TableInv(t, {})
  {
  }

  // ---------------------------------------------------------------- the table

  class DropTable {
    const cap: nat                 // drop_pool_cap
    const nb: nat                  // drop_nbuckets
    const links: array<Node>       // the pool's list nodes, then drop_all, then drop_free
    const first: array<Link>       // drop_heads
    const hash: array<HNode>       // the pool's hash nodes
    const recs: array<Drop>        // the pool's records
    var used: nat                  // drop_used
    var count: nat                 // drop_count
    ghost var listed: seq<nat>     // drop_all, in order
    ghost var free: seq<nat>       // drop_free, in order
    ghost var chains: seq<seq<nat>>

    ghost function Stored(): Table
      reads this, links, first, hash, recs
    {
      Table(links[..], HMem(first[..], hash[..]), recs[..], used, listed, free, chains)
    }

    ghost predicate ValidBut(out: set<nat>)
      reads this, links, first, hash, recs
    {
      && links.Length == cap + 2 && first.Length == nb > 0 && hash.Length == cap && recs.Length == cap
      && TableInv(Stored(), out)
      && count == |listed|
    }

    ghost predicate Valid()
      reads this, links, first, hash, recs
    {
      ValidBut({})
    }

    /** The listed drops, oldest first. */
    ghost function Contents(): (s: seq<Drop>)
      reads this, recs
    {
      Records(recs[..], listed)
    }

    /** `vg_ctrl_init`: an empty table over a fresh pool. */
    constructor (cap: nat, nb: nat)
      requires nb > 0
      ensures Valid() && Contents() == [] && this.cap == cap && this.nb == nb
      ensures fresh(links) && fresh(first) && fresh(hash) && fresh(recs)
    {
      this.cap, this.nb := cap, nb;
      links := new Node[cap + 2](i => Node(i, i));
      first := new Link[nb](_ => Null);
      hash := new HNode[cap](_ => HNode(Null, Nowhere));
      recs := new Drop[cap](_ => NO_DROP);
      used, count := 0, 0;
      listed, free, chains := [], [], seq(nb, _ => []);
      new;
      EmptyTable(Stored());
    }

    /** `drops_reset`: forget every record at once. */
    method Reset()
      requires Valid()
      modifies this, links, first
      ensures Valid() && Contents() == []
    {
      hide TableInv;
      ClearHeads(first);
      ListInit(links, cap + 1);
      ListInit(links, cap);
      used, count := 0, 0;
      listed, free, chains := [], [], seq(nb, _ => []);
      EmptyTable(Stored());
    }

    /** `drops_find`: the bucket walk finds what a scan of the whole list finds. */
    method Find(p: Cidr) returns (r: Link)
      requires Valid()
      ensures r.Null? <==> IndexOf(Contents(), p) == |Contents()|
      ensures r.To? ==> r.slot == listed[IndexOf(Contents(), p)]
    {
      hide TableInv, HashOf, IndexOf;
      var b := HashOf(p, nb);
      ghost var t, i := Stored(), 0;
      WalkStep(t, b, 0);
      ghost var xs := t.chains[b];
      r := first[b];
      while r.To?
        invariant 0 <= i <= |xs| && r == LinkAt(xs, i)
        invariant forall j | 0 <= j < i :: xs[j] < |t.recs| && t.recs[xs[j]].cidr != p
        decreases |xs| - i
      {
        WalkStep(t, b, i);
        if recs[r.slot].cidr == p {
          WalkFinds(t, r.slot);
          return;
        }
        r := hash[r.slot].next;
        i := i + 1;
      }
      WalkMisses(t, p);
    }

    /** `drop_alloc`: a lifted record, else the next unused one; Null only when all are listed. */
    method Alloc() returns (r: Link)
      requires Valid()
      modifies this, links
      ensures r.Null? <==> |old(Contents())| == cap
      ensures r.Null? ==> Valid()
      ensures r.To? ==> r.slot < cap && ValidBut({r.slot})
      ensures Contents() == old(Contents())
    {
      hide TableInv, AddTail, Unlink, AddHead, Del;
      AllocKeeps(Stored());
      var l := links[cap + 1].next;
      if l != cap + 1 {
        r := To(l);
        ListDel(links, l);
        free := Without(free, 0);
      } else if used < cap {
        r := To(used);
        used := used + 1;
      } else {
        r := Null;
      }
    }

    /** The end of `drop_add` for a new prefix: fill the record in, index it, list it last. */
    method Insert(x: nat, d: Drop)
      requires ValidBut({x})
      requires forall e | e in Contents() :: e.cidr != d.cidr
      modifies this, links, first, hash, recs
      ensures Valid() && Contents() == old(Contents()) + [d]
    {
      hide TableInv, AddTail, Unlink, AddHead, Del;
      InsertKeeps(Stored(), x, d);
      recs[x] := d;
      var b := HashOf(d.cidr, nb);
      HListAddHead(first, hash, x, b);
      ListAddTail(links, x, cap);
      count := count + 1;
      listed, chains := listed + [x], chains[b := [x] + chains[b]];
    }

    /** A record handed out but not used goes back. */
    method Release(x: nat)
      requires ValidBut({x})
      modifies this, links
      ensures Valid() && Contents() == old(Contents())
    {
      hide TableInv, AddTail, Unlink, AddHead, Del;
      ReleaseKeeps(Stored(), x);
      ListAddTail(links, x, cap + 1);
      free := free + [x];
    }

    /** The list half of `drop_remove`: unindex, unlist, keep for reuse. */
    method Remove(x: nat, ghost k: nat)
      requires Valid() && k < |listed| && listed[k] == x
      modifies this, links, first, hash
      ensures Valid() && listed == Without(old(listed), k)
      ensures Contents() == old(Contents())[..k] + old(Contents())[k + 1..]
    {
      hide TableInv, AddTail, Unlink, AddHead, Del;
      ghost var chains' := RemoveKeeps(Stored(), k);
      HListDel(first, hash, x);
      ListDel(links, x);
      ListAddTail(links, x, cap + 1);
      count := count - 1;
      chains, listed, free := chains', Without(listed, k), free + [x];
    }

    /** An in-place change of a listed record that keeps its prefix. */
    method Rewrite(x: nat, d: Drop, ghost k: nat)
      requires Valid() && k < |listed| && listed[k] == x && d.cidr == Contents()[k].cidr
      modifies recs
      ensures Valid() && Contents() == old(Contents())[k := d]
    {
      hide TableInv, AddTail, Unlink, AddHead, Del;
      RewriteKeeps(Stored(), k, d);
      recs[x] := d;
    }

    /** The slot behind position k of the contents, and where the list goes on from there. */
    lemma Slots(k: nat)
      requires Valid()
      ensures |Contents()| == |listed| && UniqueKeys(Contents()) && Below(listed, cap)
      ensures links[cap].next == Nb(cap, listed, 0) < links.Length
      ensures k < |listed| ==> listed[k] < cap && Contents()[k] == recs[listed[k]]
      ensures k < |listed| ==> links[listed[k]].next == Nb(cap, listed, k + 1) < links.Length
    {
      PoolBelow(links[..], cap, used, listed, free);
      if k < |listed| {
        RingNode(links[..], cap, listed, k);
      }
    }
  }
}
