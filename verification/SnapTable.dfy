/**
 The rate snapshots as the daemon stores them (src/policy.c): a pool of entries, each in
 the bucket chain of its remote or on the free list.  `Contents()` is the table as a map.
 */
module SnapTables {
  import opened Cidrs
  import opened KernelState
  import opened GateModel
  import opened Lists
  import opened DropTables

  const SNAP_BUCKETS: nat := 4096

  /** `snap_hash`. */
  function SnapHash(h: Host): (b: nat)
    ensures b < SNAP_BUCKETS
  {
    MixAll((if h.family == V4 then 2 else 10) * FNV_PRIME % TWO32, h.bytes) % SNAP_BUCKETS
  }

  /** `struct vg_snap_ent`. */
  datatype Entry = Entry(host: Host, pkts: nat, bytes: nat, gen: nat, next: Link)

  /** Everything the table stores, with the chains it stands for. */
  datatype Store = Store(ent: seq<Entry>, heads: seq<Link>, free: Link,
                         chains: seq<seq<nat>>, spare: seq<nat>, index: map<Host, nat>)

  // ---------------------------------------------------------------- the invariant, on values

  /** From `link` on, the entries xs follow each other, and then nothing. */
  ghost predicate Linked(ent: seq<Entry>, link: Link, xs: seq<nat>) {
    && Below(xs, |ent|) && Distinct(xs)
    && link == LinkAt(xs, 0)
    && forall i {:trigger ent[xs[i]]} | 0 <= i < |xs| :: ent[xs[i]].next == LinkAt(xs, i + 1)
  }

  ghost predicate AllLinked(s: Store) {
    && |s.heads| == SNAP_BUCKETS == |s.chains|
    && Linked(s.ent, s.free, s.spare)
    && forall b | 0 <= b < SNAP_BUCKETS :: Linked(s.ent, s.heads[b], s.chains[b])
  }

  /** A chained entry is the only one of its remote, and in its remote's bucket. */
  ghost predicate ChainOk(s: Store, b: nat, x: nat) {
    && x < |s.ent| && s.ent[x].host in s.index && s.index[s.ent[x].host] == x
    && SnapHash(s.ent[x].host) == b
  }

  ghost predicate ChainsOk(s: Store) {
    && |s.chains| == SNAP_BUCKETS
    && forall b: nat, i: nat | b < SNAP_BUCKETS && i < |s.chains[b]| :: ChainOk(s, b, s.chains[b][i])
  }

  /** The entry of a remote is chained in its bucket and not spare. */
  ghost predicate HostOk(s: Store, h: Host)
    requires h in s.index && |s.chains| == SNAP_BUCKETS
  {
    && s.index[h] < |s.ent| && s.ent[s.index[h]].host == h
    && s.index[h] in s.chains[SnapHash(h)] && s.index[h] !in s.spare
  }

  /** Chains and free list split the pool, one entry per remote. */
  ghost predicate Indexed(s: Store) {
    && ChainsOk(s)
    && (forall h | h in s.index :: HostOk(s, h))
    && |s.index| + |s.spare| == |s.ent|
  }

  ghost predicate StoreInv(s: Store) {
    AllLinked(s) && Indexed(s)
  }

  function ValueOf(e: Entry): Snap {
    Snap(e.pkts, e.bytes, e.gen)
  }

  /** The snapshots by remote. */
  ghost function Contents(s: Store): map<Host, Snap> {
    map h | h in s.index && s.index[h] < |s.ent| :: ValueOf(s.ent[s.index[h]])
  }

  /** The entries of every remote but h keep their place and value. */
  ghost predicate SameBut(s: Store, s': Store, h: Host) {
    forall g | g in s.index && g != h ::
      s.index[g] < |s.ent| && s.index[g] < |s'.ent| && ValueOf(s'.ent[s.index[g]]) == ValueOf(s.ent[s.index[g]])
  }

  lemma ContentsAdd(s: Store, s': Store, h: Host, x: nat)
    requires s'.index == s.index[h := x] && x < |s'.ent| && SameBut(s, s', h)
    ensures Contents(s') == Contents(s)[h := ValueOf(s'.ent[x])]
  {
  }

  lemma ContentsRemove(s: Store, s': Store, h: Host)
    requires s'.index == s.index - {h} && SameBut(s, s', h)
    ensures Contents(s') == Contents(s) - {h}
  {
  }

  // ---------------------------------------------------------------- chains

  lemma LinkedFrame(ent: seq<Entry>, ent': seq<Entry>, link: Link, xs: seq<nat>)
    requires Linked(ent, link, xs) && |ent'| == |ent|
    requires forall i | 0 <= i < |xs| :: ent'[xs[i]].next == ent[xs[i]].next
    ensures Linked(ent', link, xs)
  {
  }

  lemma ChainedNotSpare(s: Store, b: nat)
    requires Indexed(s) && b < SNAP_BUCKETS
    ensures forall x | x in s.chains[b] :: x !in s.spare
  {
  }

  // ---------------------------------------------------------------- storing values

  /** New counters or a new mark in an entry in use. */
  function AfterSet(s: Store, x: nat, pkts: nat, bytes: nat, gen: nat): Store
    requires x < |s.ent|
  {
    s.(ent := s.ent[x := s.ent[x].(pkts := pkts, bytes := bytes, gen := gen)])
  }

  lemma SetLinked(s: Store, x: nat, pkts: nat, bytes: nat, gen: nat)
    requires AllLinked(s) && x < |s.ent|
    ensures AllLinked(AfterSet(s, x, pkts, bytes, gen))
  {
  }

  lemma SetContents(s: Store, h: Host, pkts: nat, bytes: nat, gen: nat)
    requires |s.chains| == SNAP_BUCKETS && h in s.index && forall g | g in s.index :: HostOk(s, g)
    ensures HostOk(s, h)
    ensures Contents(AfterSet(s, s.index[h], pkts, bytes, gen)) == Contents(s)[h := Snap(pkts, bytes, gen)]
  {
    var s' := AfterSet(s, s.index[h], pkts, bytes, gen);
    forall g | g in s.index && g != h
      ensures s.index[g] < |s.ent| && s.index[g] != s.index[h]
    {
      assert HostOk(s, g) && HostOk(s, h);
    }
    assert s'.index == s'.index[h := s.index[h]];
    ContentsAdd(s, s', h, s.index[h]);
  }

  lemma SetIndexed(s: Store, h: Host, pkts: nat, bytes: nat, gen: nat)
    requires Indexed(s) && h in s.index
    ensures s.index[h] < |s.ent|
    ensures var s' := AfterSet(s, s.index[h], pkts, bytes, gen);
            Indexed(s') && Contents(s') == Contents(s)[h := Snap(pkts, bytes, gen)]
  {
    var s' := AfterSet(s, s.index[h], pkts, bytes, gen);
    assert HostOk(s, h);
    assert forall x: nat | x < |s.ent| :: s'.ent[x].host == s.ent[x].host;
    forall b: nat, i: nat | b < SNAP_BUCKETS && i < |s'.chains[b]|
      ensures ChainOk(s', b, s'.chains[b][i])
    {
      assert ChainOk(s, b, s.chains[b][i]);
    }
    forall g | g in s'.index
      ensures HostOk(s', g)
    {
      assert HostOk(s, g);
    }
    SetContents(s, h, pkts, bytes, gen);
  }

  lemma SetKeeps(s: Store, h: Host, pkts: nat, bytes: nat, gen: nat)
    requires StoreInv(s) && h in s.index
    ensures s.index[h] < |s.ent|
    ensures var s' := AfterSet(s, s.index[h], pkts, bytes, gen);
            StoreInv(s') && Contents(s') == Contents(s)[h := Snap(pkts, bytes, gen)]
  {
    hide AllLinked, Indexed;
    SetIndexed(s, h, pkts, bytes, gen);
    SetLinked(s, s.index[h], pkts, bytes, gen);
  }

  // ---------------------------------------------------------------- taking a spare entry

  function AfterTake(s: Store, h: Host, gen: nat): Store
    requires s.spare != [] && s.spare[0] < |s.ent| && SnapHash(h) < |s.heads| && SnapHash(h) < |s.chains|
  {
    var x, b := s.spare[0], SnapHash(h);
    Store(s.ent[x := Entry(h, 0, 0, gen, s.heads[b])], s.heads[b := To(x)], s.ent[x].next,
          s.chains[b := [x] + s.chains[b]], s.spare[1..], s.index[h := x])
  }

  lemma LinkedPush(ent: seq<Entry>, link: Link, xs: seq<nat>, x: nat, e: Entry)
    requires Linked(ent, link, xs) && x < |ent| && x !in xs && e.next == link
    ensures Linked(ent[x := e], To(x), [x] + xs)
  {
  }

  lemma LinkedPop(ent: seq<Entry>, link: Link, xs: seq<nat>, e: Entry)
    requires Linked(ent, link, xs) && xs != []
    ensures Linked(ent[xs[0] := e], ent[xs[0]].next, xs[1..])
  {
  }

  /** Slots in chains and on the free list are different ones. */
  ghost predicate Apart(s: Store) {
    && (forall b, c | 0 <= b < |s.chains| && 0 <= c < |s.chains| && b != c :: forall x | x in s.chains[b] :: x !in s.chains[c])
    && (forall b | 0 <= b < |s.chains| :: forall x | x in s.chains[b] :: x !in s.spare)
  }

  lemma IndexedApart(s: Store)
    requires Indexed(s)
    ensures Apart(s)
  {
  }

  lemma TakeLinked(s: Store, h: Host, gen: nat)
    requires AllLinked(s) && Apart(s) && s.spare != []
    ensures s.spare[0] < |s.ent|
    ensures AllLinked(AfterTake(s, h, gen))
  {
    var x, b := s.spare[0], SnapHash(h);
    var e := Entry(h, 0, 0, gen, s.heads[b]);
    var s' := AfterTake(s, h, gen);
    LinkedPop(s.ent, s.free, s.spare, e);
    assert x in s.spare;
    forall c: nat | c < SNAP_BUCKETS
      ensures Linked(s'.ent, s'.heads[c], s'.chains[c])
    {
      assert Linked(s.ent, s.heads[c], s.chains[c]);
      assert x !in s.chains[c];
      if c == b {
        LinkedPush(s.ent, s.heads[b], s.chains[b], x, e);
      } else {
        LinkedFrame(s.ent, s'.ent, s.heads[c], s.chains[c]);
      }
    }
  }

  lemma TakeChain(s: Store, h: Host, gen: nat, c: nat, i: nat)
    requires Indexed(s) && s.spare != [] && s.spare[0] < |s.ent| && h !in s.index && |s.heads| == SNAP_BUCKETS
    requires c < SNAP_BUCKETS && i < |AfterTake(s, h, gen).chains[c]|
    ensures ChainOk(AfterTake(s, h, gen), c, AfterTake(s, h, gen).chains[c][i])
  {
    hide SnapHash;
    var s', b := AfterTake(s, h, gen), SnapHash(h);
    if c != b || i > 0 {
      var y := s.chains[c][if c == b then i - 1 else i];
      assert y == s'.chains[c][i];
      assert ChainOk(s, c, y);
      ChainedNotSpare(s, c);
      assert y in s.chains[c] && s.spare[0] in s.spare;
    }
  }

  lemma TakeHost(s: Store, h: Host, gen: nat, g: Host)
    requires Indexed(s) && s.spare != [] && s.spare[0] < |s.ent| && h !in s.index && |s.heads| == SNAP_BUCKETS
    requires Distinct(s.spare) && g in AfterTake(s, h, gen).index
    ensures HostOk(AfterTake(s, h, gen), g)
    ensures g != h ==> s.index[g] != s.spare[0]
  {
    var s', b := AfterTake(s, h, gen), SnapHash(h);
    if g == h {
      assert s'.chains[b][0] == s.spare[0];
    } else {
      assert HostOk(s, g);
      assert s.spare[0] in s.spare;
    }
  }

  lemma TakeContents(s: Store, h: Host, gen: nat)
    requires Indexed(s) && s.spare != [] && s.spare[0] < |s.ent| && h !in s.index && |s.heads| == SNAP_BUCKETS
    requires Distinct(s.spare)
    ensures Contents(AfterTake(s, h, gen)) == Contents(s)[h := Snap(0, 0, gen)]
  {
    hide SnapHash, ChainOk;
    var s' := AfterTake(s, h, gen);
    forall g | g in s.index
      ensures s.index[g] < |s.ent| && s.index[g] != s.spare[0]
    {
      assert HostOk(s, g) && s.spare[0] in s.spare;
    }
    ContentsAdd(s, s', h, s.spare[0]);
  }

  lemma TakeIndexed(s: Store, h: Host, gen: nat)
    requires Indexed(s) && s.spare != [] && s.spare[0] < |s.ent| && h !in s.index && |s.heads| == SNAP_BUCKETS
    requires Distinct(s.spare)
    ensures Indexed(AfterTake(s, h, gen))
  {
    hide ChainOk, HostOk, SnapHash;
    var s' := AfterTake(s, h, gen);
    forall c: nat, i: nat | c < SNAP_BUCKETS && i < |s'.chains[c]|
      ensures ChainOk(s', c, s'.chains[c][i])
    {
      TakeChain(s, h, gen, c, i);
    }
    forall g | g in s'.index
      ensures HostOk(s', g)
    {
      TakeHost(s, h, gen, g);
    }
  }

  lemma TakeKeeps(s: Store, h: Host, gen: nat)
    requires StoreInv(s) && s.spare != [] && h !in s.index
    ensures |s.heads| == SNAP_BUCKETS == |s.chains| && s.spare[0] < |s.ent|
    ensures var s' := AfterTake(s, h, gen);
            StoreInv(s') && Contents(s') == Contents(s)[h := Snap(0, 0, gen)]
  {
    hide Indexed, Apart;
    IndexedApart(s);
    TakeLinked(s, h, gen);
    TakeIndexed(s, h, gen);
    TakeContents(s, h, gen);
  }

  // ---------------------------------------------------------------- giving an entry back

  /** `*link = e->next`, then the entry goes to the front of the free list. */
  function AfterUnchain(s: Store, b: nat, k: nat): Store
    requires b < |s.chains| && b < |s.heads| && k < |s.chains[b]|
    requires s.chains[b][k] < |s.ent| && (k > 0 ==> s.chains[b][k - 1] < |s.ent|)
  {
    var x := s.chains[b][k];
    var n := s.ent[x].next;
    var ent := if k == 0 then s.ent else s.ent[s.chains[b][k - 1] := s.ent[s.chains[b][k - 1]].(next := n)];
    Store(ent[x := ent[x].(gen := 0, next := s.free)], if k == 0 then s.heads[b := n] else s.heads, To(x),
          s.chains[b := Without(s.chains[b], k)], [x] + s.spare, s.index - {s.ent[x].host})
  }

  lemma LinkedDrop(ent: seq<Entry>, link: Link, xs: seq<nat>, k: nat, e: Entry)
    requires Linked(ent, link, xs) && k < |xs|
    ensures var n := ent[xs[k]].next;
            var ent1 := if k == 0 then ent else ent[xs[k - 1] := ent[xs[k - 1]].(next := n)];
            Linked(ent1[xs[k] := e], if k == 0 then n else link, Without(xs, k))
  {
  }

  lemma UnchainLinked(s: Store, b: nat, k: nat)
    requires AllLinked(s) && Apart(s) && b < SNAP_BUCKETS && k < |s.chains[b]|
    ensures s.chains[b][k] < |s.ent| && (k > 0 ==> s.chains[b][k - 1] < |s.ent|)
    ensures AllLinked(AfterUnchain(s, b, k))
  {
    var xs, x := s.chains[b], s.chains[b][k];
    assert Linked(s.ent, s.heads[b], xs);
    var s' := AfterUnchain(s, b, k);
    assert x in xs && (k > 0 ==> xs[k - 1] in xs);
    LinkedDrop(s.ent, s.heads[b], xs, k, s'.ent[x]);
    var ent1 := if k == 0 then s.ent else s.ent[xs[k - 1] := s.ent[xs[k - 1]].(next := s.ent[x].next)];
    LinkedFrame(s.ent, ent1, s.free, s.spare);
    LinkedPush(ent1, s.free, s.spare, x, s'.ent[x]);
    forall c: nat | c < SNAP_BUCKETS && c != b
      ensures Linked(s'.ent, s'.heads[c], s'.chains[c])
    {
      assert Linked(s.ent, s.heads[c], s.chains[c]);
      assert forall y | y in xs :: y !in s.chains[c];
      LinkedFrame(s.ent, s'.ent, s.heads[c], s.chains[c]);
    }
  }

  lemma UnchainChain(s: Store, b: nat, k: nat, c: nat, i: nat)
    requires Indexed(s) && |s.heads| == SNAP_BUCKETS && b < SNAP_BUCKETS && k < |s.chains[b]| && Distinct(s.chains[b])
    requires s.chains[b][k] < |s.ent| && (k > 0 ==> s.chains[b][k - 1] < |s.ent|)
    requires c < SNAP_BUCKETS && i < |AfterUnchain(s, b, k).chains[c]|
    ensures ChainOk(AfterUnchain(s, b, k), c, AfterUnchain(s, b, k).chains[c][i])
  {
    hide SnapHash;
    var s', x := AfterUnchain(s, b, k), s.chains[b][k];
    var y := s.chains[c][if c == b && i >= k then i + 1 else i];
    assert y == s'.chains[c][i];
    assert ChainOk(s, c, y) && ChainOk(s, b, x);
  }

  lemma UnchainHost(s: Store, b: nat, k: nat, g: Host)
    requires Indexed(s) && |s.heads| == SNAP_BUCKETS && b < SNAP_BUCKETS && k < |s.chains[b]| && Distinct(s.chains[b])
    requires s.chains[b][k] < |s.ent| && (k > 0 ==> s.chains[b][k - 1] < |s.ent|)
    requires g in s.index && g != s.ent[s.chains[b][k]].host
    ensures HostOk(AfterUnchain(s, b, k), g) && s.index[g] != s.chains[b][k]
  {
    hide SnapHash;
    assert HostOk(s, g) && ChainOk(s, b, s.chains[b][k]);
    WithoutFacts(s.chains[b], k);
  }

  lemma UnchainIndexed(s: Store, b: nat, k: nat)
    requires Indexed(s) && |s.heads| == SNAP_BUCKETS && b < SNAP_BUCKETS && k < |s.chains[b]| && Distinct(s.chains[b])
    requires s.chains[b][k] < |s.ent| && (k > 0 ==> s.chains[b][k - 1] < |s.ent|)
    ensures Indexed(AfterUnchain(s, b, k))
  {
    hide HostOk, SnapHash;
    var s', x := AfterUnchain(s, b, k), s.chains[b][k];
    assert ChainOk(s, b, x);
    forall c: nat, i: nat | c < SNAP_BUCKETS && i < |s'.chains[c]|
      ensures ChainOk(s', c, s'.chains[c][i])
    {
      UnchainChain(s, b, k, c, i);
    }
    forall g | g in s'.index
      ensures HostOk(s', g)
    {
      UnchainHost(s, b, k, g);
    }
    assert s.index == s'.index[s.ent[x].host := x];
  }

  lemma UnchainContents(s: Store, b: nat, k: nat)
    requires Indexed(s) && |s.heads| == SNAP_BUCKETS && b < SNAP_BUCKETS && k < |s.chains[b]| && Distinct(s.chains[b])
    requires s.chains[b][k] < |s.ent| && (k > 0 ==> s.chains[b][k - 1] < |s.ent|)
    ensures Contents(AfterUnchain(s, b, k)) == Contents(s) - {s.ent[s.chains[b][k]].host}
  {
    hide SnapHash, ChainOk;
    var s', x := AfterUnchain(s, b, k), s.chains[b][k];
    forall g | g in s'.index
      ensures s.index[g] < |s.ent| && s.index[g] != x
    {
      assert HostOk(s, g);
      UnchainHost(s, b, k, g);
    }
    ContentsRemove(s, s', s.ent[x].host);
  }

  lemma UnchainKeeps(s: Store, b: nat, k: nat)
    requires StoreInv(s) && b < SNAP_BUCKETS && b < |s.chains| && k < |s.chains[b]|
    ensures |s.heads| == SNAP_BUCKETS == |s.chains|
    ensures s.chains[b][k] < |s.ent| && (k > 0 ==> s.chains[b][k - 1] < |s.ent|)
    ensures var s' := AfterUnchain(s, b, k);
            StoreInv(s') && Contents(s') == Contents(s) - {s.ent[s.chains[b][k]].host}
  {
    hide Indexed, Apart;
    IndexedApart(s);
    UnchainLinked(s, b, k);
    assert Linked(s.ent, s.heads[b], s.chains[b]);
    UnchainIndexed(s, b, k);
    UnchainContents(s, b, k);
  }

  // ---------------------------------------------------------------- walking and resetting

  lemma EmptyStore(s: Store)
    requires |s.heads| == SNAP_BUCKETS && s.chains == seq(SNAP_BUCKETS, _ => []) && s.index == map[]
    requires s.spare == seq(|s.ent|, i => i) && s.free == LinkAt(s.spare, 0)
    requires forall b | 0 <= b < SNAP_BUCKETS :: s.heads[b] == Null
    requires forall i | 0 <= i < |s.ent| :: s.ent[i].next == LinkAt(s.spare, i + 1)
    ensures StoreInv(s) && Contents(s) == map[]
  {
  }

  /** What a bucket walk meets at position k of a chain. */
  lemma SnapStep(s: Store, b: nat, k: nat)
    requires StoreInv(s) && b < SNAP_BUCKETS
    ensures |s.heads| == SNAP_BUCKETS == |s.chains| && s.heads[b] == LinkAt(s.chains[b], 0)
    ensures k < |s.chains[b]| ==>
              var x := s.chains[b][k];
              ChainOk(s, b, x) && s.ent[x].next == LinkAt(s.chains[b], k + 1)
    ensures k < |s.chains[b]| ==> Contents(s)[s.ent[s.chains[b][k]].host] == ValueOf(s.ent[s.chains[b][k]])
  {
  }

  lemma SnapMiss(s: Store, h: Host)
    requires StoreInv(s) && |s.chains| == SNAP_BUCKETS
    requires forall k: nat | k < |s.chains[SnapHash(h)]| ::
               s.chains[SnapHash(h)][k] < |s.ent| && s.ent[s.chains[SnapHash(h)][k]].host != h
    ensures h !in s.index && h !in Contents(s)
  {
  }

  /** Contents and index name the same remotes; the free list is what the pool has left. */
  lemma StoreFacts(s: Store)
    requires StoreInv(s)
    ensures Contents(s).Keys == s.index.Keys
    ensures |s.heads| == SNAP_BUCKETS == |s.chains| && s.free == LinkAt(s.spare, 0)
    ensures |Contents(s)| + |s.spare| == |s.ent|
  {
  }

  /** What leaves a bucket's walker in place: the chain closes up, earlier entries keep their marks. */
  lemma UnchainEffect(s: Store, b: nat, k: nat)
    requires StoreInv(s) && b < SNAP_BUCKETS && b < |s.chains| && k < |s.chains[b]|
    ensures |s.heads| == SNAP_BUCKETS == |s.chains|
    ensures s.chains[b][k] < |s.ent| && (k > 0 ==> s.chains[b][k - 1] < |s.ent| && s.chains[b][k - 1] != s.chains[b][k])
    ensures s.ent[s.chains[b][k]].next == LinkAt(Without(s.chains[b], k), k)
    ensures var s' := AfterUnchain(s, b, k);
            && s'.chains == s.chains[b := Without(s.chains[b], k)] && |s'.ent| == |s.ent|
            && forall j: nat | j < k :: s.chains[b][j] < |s.ent| && s'.ent[s.chains[b][j]].gen == s.ent[s.chains[b][j]].gen
  {
    hide Indexed, Contents, SnapHash;
    assert Linked(s.ent, s.heads[b], s.chains[b]);
    assert s.ent[s.chains[b][k]].next == LinkAt(s.chains[b], k + 1);
  }

  /** tab' is tab without some stale remotes of bucket b. */
  ghost predicate Trimmed(tab: map<Host, Snap>, tab': map<Host, Snap>, b: nat, gen: nat) {
    && (forall h | h in tab' :: h in tab && tab'[h] == tab[h])
    && (forall h | h in tab && h !in tab' :: SnapHash(h) == b && tab[h].gen != gen)
  }

  /** tab with the stale remotes of the first n buckets gone. */
  ghost predicate TrimmedUpTo(tab: map<Host, Snap>, tab': map<Host, Snap>, n: nat, gen: nat) {
    && (forall h | h in tab' :: h in tab && tab'[h] == tab[h] && (SnapHash(h) < n ==> tab[h].gen == gen))
    && (forall h | h in tab && h !in tab' :: tab[h].gen != gen)
  }

  lemma BucketCurrent(s: Store, b: nat, gen: nat)
    requires StoreInv(s) && b < SNAP_BUCKETS && |s.chains| == SNAP_BUCKETS
    requires forall k: nat | k < |s.chains[b]| :: s.chains[b][k] < |s.ent| && s.ent[s.chains[b][k]].gen == gen
    ensures forall h | h in Contents(s) && SnapHash(h) == b :: Contents(s)[h].gen == gen
  {
  }

  // ---------------------------------------------------------------- the table

  class SnapTable {
    const ent: array<Entry>        // snap_pool
    const heads: array<Link>       // snaps
    var free: Link                 // snap_free
    var gen: nat                   // snap_gen, 32 bits
    ghost var chains: seq<seq<nat>>
    ghost var spare: seq<nat>
    ghost var index: map<Host, nat>

    ghost function Stored(): Store
      reads this, ent, heads
    {
      Store(ent[..], heads[..], free, chains, spare, index)
    }

    ghost predicate Valid()
      reads this, ent, heads
    {
      heads.Length == SNAP_BUCKETS && StoreInv(Stored())
    }

    ghost function View(): Snaps
      reads this, ent, heads
    {
      Snaps(Contents(Stored()), gen)
    }

    constructor (cap: nat)
      ensures Valid() && View() == Snaps(map[], 0) && ent.Length == cap
      ensures fresh(ent) && fresh(heads)
    {
      ent := new Entry[cap](i requires i >= 0 => Entry(RawHost(V4, [0, 0, 0, 0]), 0, 0, 0, if i + 1 < cap then To(i + 1) else Null));
      heads := new Link[SNAP_BUCKETS](_ => Null);
      free, gen := if cap > 0 then To(0) else Null, 0;
      chains, spare, index := seq(SNAP_BUCKETS, _ => []), seq(cap, i => i), map[];
      new;
      EmptyStore(Stored());
    }

    /** `snap_reset_pool`. */
    method Reset()
      requires Valid()
      modifies this, ent, heads
      ensures Valid() && View() == Snaps(map[], old(gen))
    {
      hide StoreInv;
      ClearHeads(heads);
      for i := 0 to ent.Length
        modifies ent
        invariant forall k | 0 <= k < i :: ent[k].next == if k + 1 < ent.Length then To(k + 1) else Null
      {
        ent[i] := ent[i].(gen := 0, next := if i + 1 < ent.Length then To(i + 1) else Null);
      }
      free := if ent.Length > 0 then To(0) else Null;
      chains, spare, index := seq(SNAP_BUCKETS, _ => []), seq(ent.Length, i => i), map[];
      EmptyStore(Stored());
    }

    /** The bucket walk of `snap_get`. */
    method Seek(h: Host) returns (e: Link)
      requires Valid()
      ensures e == if h in index then To(index[h]) else Null
      ensures e.To? ==> e.slot < ent.Length && h in View().tab && View().tab[h] == ValueOf(ent[e.slot])
    {
      hide StoreInv, SnapHash, Contents;
      ghost var s, k: nat := Stored(), 0;
      var b := SnapHash(h);
      SnapStep(s, b, 0);
      StoreFacts(s);
      e := heads[b];
      while e.To?
        invariant k <= |s.chains[b]| && e == LinkAt(s.chains[b], k)
        invariant forall j: nat | j < k :: s.chains[b][j] < |s.ent| && s.ent[s.chains[b][j]].host != h
        decreases |s.chains[b]| - k
      {
        SnapStep(s, b, k);
        if ent[e.slot].host == h {
          return;
        }
        e := ent[e.slot].next;
        k := k + 1;
      }
      SnapMiss(s, h);
    }

    /** `snap_get`: the entry of a remote, marked current; a spare one, zeroed, if it is new; Null if there is none. */
    method Get(h: Host) returns (r: Link, created: bool)
      requires Valid()
      modifies this, ent, heads
      ensures Valid() && gen == old(gen)
      ensures created <==> r.To? && h !in old(View()).tab
      ensures r.Null? <==> h !in old(View()).tab && |old(View()).tab| == ent.Length
      ensures |old(View()).tab| <= ent.Length
      ensures r.Null? ==> View() == old(View())
      ensures r.To? ==> h in index && r.slot == index[h] && r.slot < ent.Length
      ensures r.To? ==> h in View().tab && View().tab[h] == ValueOf(ent[r.slot])
      ensures r.To? ==> var old' := old(View()).tab;
                        View().tab == old'[h := if h in old' then old'[h].(gen := gen) else Snap(0, 0, gen)]
    {
      hide StoreInv, SnapHash, Contents;
      created := false;
      ghost var s := Stored();
      StoreFacts(s);
      var b := SnapHash(h);
      var e := Seek(h);
      if e.To? {
        SetKeeps(s, h, s.ent[e.slot].pkts, s.ent[e.slot].bytes, gen);
        ent[e.slot] := ent[e.slot].(gen := gen);
        assert Stored() == AfterSet(s, e.slot, s.ent[e.slot].pkts, s.ent[e.slot].bytes, gen);
        return e, false;
      }
      if free.Null? {
        return Null, false;
      }
      TakeKeeps(s, h, gen);
      var x := free.slot;
      free := ent[x].next;
      ent[x] := Entry(h, 0, 0, gen, heads[b]);
      heads[b] := To(x);
      chains, spare, index := chains[b := [x] + chains[b]], spare[1..], index[h := x];
      return To(x), true;
    }

    /** The caller's store of the counters it just read. */
    method Put(x: nat, pkts: nat, bytes: nat, ghost h: Host)
      requires Valid() && h in index && x == index[h] && x < ent.Length
      modifies ent
      ensures Valid() && View() == old(View()).(tab := old(View()).tab[h := Snap(pkts, bytes, old(ent[x].gen))])
    {
      hide StoreInv, SnapHash, Contents;
      SetKeeps(Stored(), h, pkts, bytes, ent[x].gen);
      ent[x] := ent[x].(pkts := pkts);
      ent[x] := ent[x].(bytes := bytes);
      assert ent[..] == old(ent[..])[x := old(ent[x]).(pkts := pkts, bytes := bytes, gen := old(ent[x]).gen)];
    }

    /** Entry x, at position k of bucket b, leaves its chain; `link` is Null for the head of the bucket. */
    method Unchain(b: nat, link: Link, x: nat, ghost k: nat)
      requires Valid() && b < SNAP_BUCKETS && b < |chains| && k < |chains[b]| && x == chains[b][k]
      requires link == if k == 0 then Null else To(chains[b][k - 1])
      requires x < ent.Length && (k > 0 ==> link.slot < ent.Length && link.slot != x)
      modifies this, ent, heads
      ensures gen == old(gen)
      ensures Stored() == AfterUnchain(old(Stored()), b, k)
    {
      hide StoreInv, SnapHash, Contents;
      ghost var s := Stored();
      if link.Null? {
        heads[b] := ent[x].next;
      } else {
        ent[link.slot] := ent[link.slot].(next := ent[x].next);
      }
      ent[x] := ent[x].(gen := 0);
      ent[x] := ent[x].(next := free);
      free := To(x);
      index := index - {s.ent[x].host};
      chains, spare := chains[b := Without(chains[b], k)], [x] + spare;
      assert ent[..] == AfterUnchain(s, b, k).ent;
    }

    /** One bucket of `snap_prune`: `link` is the head of the bucket or the next field of the entry before. */
    method PruneBucket(b: nat)
      requires Valid() && b < SNAP_BUCKETS
      modifies this, ent, heads
      ensures Valid() && gen == old(gen)
      ensures Trimmed(old(View()).tab, View().tab, b, gen)
      ensures forall h | h in View().tab && SnapHash(h) == b :: View().tab[h].gen == gen
    {
      hide StoreInv, SnapHash, Contents, AfterUnchain;
      var link := Null;
      ghost var k: nat := 0;
      SnapStep(Stored(), b, 0);
      var e := heads[b];
      while e.To?
        invariant Valid() && gen == old(gen) && |chains| == SNAP_BUCKETS
        invariant k <= |chains[b]| && e == LinkAt(chains[b], k)
        invariant link == if k == 0 then Null else To(chains[b][k - 1])
        invariant forall j: nat | j < k :: chains[b][j] < ent.Length && ent[chains[b][j]].gen == gen
        invariant Trimmed(old(View()).tab, View().tab, b, gen)
        decreases |chains[b]| - k
      {
        ghost var s := Stored();
        SnapStep(s, b, k);
        var x := e.slot;
        if ent[x].gen != gen {
          UnchainKeeps(s, b, k);
          UnchainEffect(s, b, k);
          e := ent[x].next;
          Unchain(b, link, x, k);
        } else {
          link := e;
          e := ent[x].next;
          k := k + 1;
        }
      }
      BucketCurrent(Stored(), b, gen);
    }

    /** `snap_prune`: only the remotes this walk marked stay. */
    method Prune()
      requires Valid()
      modifies this, ent, heads
      ensures Valid() && View() == PruneSnaps(old(View()))
    {
      hide StoreInv, SnapHash, Contents;
      for i := 0 to SNAP_BUCKETS
        invariant Valid() && gen == old(gen)
        invariant TrimmedUpTo(old(View()).tab, View().tab, i, gen)
      {
        PruneBucket(i);
      }
    }
  }
}
