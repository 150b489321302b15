/**
 Intrusive lists (src/list.h).

 A node's address is a number: its slot in the memory `l`.  The circular list keeps
 `prev` and `next`; the hash list keeps `next` and `pprev`, the cell that points at the
 node, which is either the head of a bucket or the next field of another node.  The
 methods write one memory cell after the other as the source does; the lemmas say what
 the writes mean for the list as a sequence, and that they leave other lists alone.
 */
module Lists {

  ghost predicate Distinct(xs: seq<nat>) {
    forall i, j | 0 <= i < j < |xs| :: xs[i] != xs[j]
  }

  ghost predicate Below(xs: seq<nat>, n: nat) {
    forall i | 0 <= i < |xs| :: xs[i] < n
  }

  function Without(xs: seq<nat>, k: nat): seq<nat>
    requires k < |xs|
  {
    xs[..k] + xs[k + 1..]
  }

  lemma WithoutFacts(xs: seq<nat>, k: nat)
    requires k < |xs| && Distinct(xs)
    ensures Distinct(Without(xs, k))
    ensures forall x :: x in Without(xs, k) <==> x in xs && x != xs[k]
  {
  }

  // ---------------------------------------------------------------- circular list

  /** `struct vg_list`. */
  datatype Node = Node(prev: nat, next: nat)

  /** The neighbour at position i of a list; the sentinel is past both ends. */
  ghost function Nb(head: nat, xs: seq<nat>, i: int): nat {
    if 0 <= i < |xs| then xs[i] else head
  }

  /** The memory holds a circular list with sentinel `head` and nodes `xs`, in order. */
  ghost predicate Ring(l: seq<Node>, head: nat, xs: seq<nat>) {
    && head < |l| && head !in xs
    && Below(xs, |l|)
    && Distinct(xs)
    && l[head] == Node(Nb(head, xs, |xs| - 1), Nb(head, xs, 0))
    && (forall i {:trigger l[xs[i]]} | 0 <= i < |xs| ::
          l[xs[i]] == Node(Nb(head, xs, i - 1), Nb(head, xs, i + 1)))
  }

  /** The memory after `vg_list_add_tail`. */
  function AddTail(l: seq<Node>, node: nat, head: nat): seq<Node>
    requires node < |l| && head < |l| && node != head
    requires l[head].prev < |l| && l[head].prev != node
  {
    var last := l[head].prev;
    var l1 := l[node := Node(last, head)];
    var l2 := l1[last := l1[last].(next := node)];
    l2[head := l2[head].(prev := node)]
  }

  /** The memory after `vg_list_del`. */
  function Unlink(l: seq<Node>, node: nat): seq<Node>
    requires node < |l| && l[node].prev < |l| && l[node].next < |l|
  {
    var Node(p, n) := l[node];
    var l1 := l[p := l[p].(next := n)];
    var l2 := l1[n := l1[n].(prev := p)];
    l2[node := Node(node, node)]
  }

  lemma AddTailRing(l: seq<Node>, head: nat, xs: seq<nat>, node: nat)
    requires Ring(l, head, xs) && node < |l| && node != head && node !in xs
    ensures Ring(AddTail(l, node, head), head, xs + [node])
  {
  }

  /** l' is l with a node unlinked: what that does to every other cell. */
  ghost predicate Unlinked(l: seq<Node>, l': seq<Node>, node: nat)
    requires node < |l|
  {
    && |l'| == |l|
    && forall y: nat | y < |l| && y != node ::
         l'[y] == Node(if l[node].next == y then l[node].prev else l[y].prev,
                       if l[node].prev == y then l[node].next else l[y].next)
  }

  lemma UnlinkUnlinks(l: seq<Node>, node: nat)
    requires node < |l| && l[node].prev < |l| && l[node].next < |l|
    ensures Unlinked(l, Unlink(l, node), node)
  {
  }

  lemma RingNode(l: seq<Node>, head: nat, xs: seq<nat>, k: nat)
    requires Ring(l, head, xs) && k < |xs|
    ensures l[xs[k]] == Node(Nb(head, xs, k - 1), Nb(head, xs, k + 1))
    ensures l[xs[k]].prev < |l| && l[xs[k]].next < |l|
  {
  }

  lemma UnlinkRing(l: seq<Node>, head: nat, xs: seq<nat>, k: nat)
    requires Ring(l, head, xs) && k < |xs|
    ensures l[xs[k]].prev < |l| && l[xs[k]].next < |l|
    ensures Ring(Unlink(l, xs[k]), head, Without(xs, k))
  {
    RingNode(l, head, xs, k);
    UnlinkUnlinks(l, xs[k]);
    UnlinkedRing(l, Unlink(l, xs[k]), head, xs, k);
  }

  lemma UnlinkedAt(l: seq<Node>, l': seq<Node>, head: nat, xs: seq<nat>, k: nat, i: int)
    requires Ring(l, head, xs) && k < |xs| && Unlinked(l, l', xs[k]) && -1 <= i < |xs| - 1
    ensures var ys := Without(xs, k);
            l'[Nb(head, ys, i)] == Node(Nb(head, ys, if i == -1 then |ys| - 1 else i - 1), Nb(head, ys, i + 1))
  {
  }

  lemma UnlinkedRing(l: seq<Node>, l': seq<Node>, head: nat, xs: seq<nat>, k: nat)
    requires Ring(l, head, xs) && k < |xs| && Unlinked(l, l', xs[k])
    ensures Ring(l', head, Without(xs, k))
  {
    var ys := Without(xs, k);
    WithoutFacts(xs, k);
    assert Below(ys, |l'|);
    UnlinkedAt(l, l', head, xs, k, -1);
    forall i | 0 <= i < |ys|
      ensures l'[ys[i]] == Node(Nb(head, ys, i - 1), Nb(head, ys, i + 1))
    {
      UnlinkedAt(l, l', head, xs, k, i);
    }
  }

  /** A list whose own cells did not change is still there. */
  lemma RingFrame(l: seq<Node>, l': seq<Node>, head: nat, xs: seq<nat>)
    requires Ring(l, head, xs) && |l'| == |l|
    requires l'[head] == l[head] && forall i | 0 <= i < |xs| :: l'[xs[i]] == l[xs[i]]
    ensures Ring(l', head, xs)
  {
  }

  /** Unlinking from one list writes no cell outside it. */
  lemma UnlinkOutside(l: seq<Node>, head: nat, xs: seq<nat>, k: nat, y: nat)
    requires Ring(l, head, xs) && k < |xs|
    requires y < |l| && y != head && y !in xs
    ensures l[xs[k]].prev < |l| && l[xs[k]].next < |l| && Unlink(l, xs[k])[y] == l[y]
  {
  }

  /** `vg_list_init`. */
  method ListInit(l: array<Node>, head: nat)
    requires head < l.Length
    modifies l
    ensures l[..] == old(l[..])[head := Node(head, head)]
    ensures Ring(l[..], head, [])
  {
    l[head] := l[head].(prev := head);
    l[head] := l[head].(next := head);
  }

  /** `vg_list_add_tail`. */
  method ListAddTail(l: array<Node>, node: nat, head: nat)
    requires node < l.Length && head < l.Length && node != head
    requires l[head].prev < l.Length && l[head].prev != node
    modifies l
    ensures l[..] == AddTail(old(l[..]), node, head)
  {
    l[node] := l[node].(prev := l[head].prev);
    l[node] := l[node].(next := head);
    var last := l[head].prev;
    l[last] := l[last].(next := node);
    l[head] := l[head].(prev := node);
  }

  /** `vg_list_del`. */
  method ListDel(l: array<Node>, node: nat)
    requires node < l.Length && l[node].prev < l.Length && l[node].next < l.Length
    requires l[node].prev != node || l[node].next == node
    modifies l
    ensures l[..] == Unlink(old(l[..]), node)
  {
    var p := l[node].prev;
    l[p] := l[p].(next := l[node].next);
    var n := l[node].next;
    l[n] := l[n].(prev := l[node].prev);
    l[node] := l[node].(prev := node);
    l[node] := l[node].(next := node);
  }

  // ---------------------------------------------------------------- hash list

  datatype Link = Null | To(slot: nat)

  /** What `pprev` points at. */
  datatype Cell = Nowhere | HeadOf(bucket: nat) | NextOf(slot: nat)

  /** `struct vg_hlist_node`. */
  datatype HNode = HNode(next: Link, pprev: Cell)

  /** The bucket heads and the nodes. */
  datatype HMem = HMem(first: seq<Link>, node: seq<HNode>)

  function LinkAt(xs: seq<nat>, i: nat): Link {
    if i < |xs| then To(xs[i]) else Null
  }

  /** Bucket b holds the nodes xs, in order, and every pprev points back. */
  ghost predicate Chain(m: HMem, b: nat, xs: seq<nat>) {
    && b < |m.first|
    && Below(xs, |m.node|)
    && Distinct(xs)
    && m.first[b] == LinkAt(xs, 0)
    && (forall i {:trigger m.node[xs[i]]} | 0 <= i < |xs| ::
          m.node[xs[i]] == HNode(LinkAt(xs, i + 1), if i == 0 then HeadOf(b) else NextOf(xs[i - 1])))
  }

  /** The write `*cell = link`. */
  function Store(m: HMem, c: Cell, link: Link): HMem
    requires c.HeadOf? ==> c.bucket < |m.first|
    requires c.NextOf? ==> c.slot < |m.node|
  {
    match c
    case HeadOf(b) => m.(first := m.first[b := link])
    case NextOf(i) => m.(node := m.node[i := m.node[i].(next := link)])
    case Nowhere => m
  }

  function SetPprev(m: HMem, link: Link, c: Cell): HMem
    requires link.To? ==> link.slot < |m.node|
  {
    if link.To? then m.(node := m.node[link.slot := m.node[link.slot].(pprev := c)]) else m
  }

  /** The memory after `vg_hlist_add_head`. */
  function AddHead(m: HMem, x: nat, b: nat): HMem
    requires x < |m.node| && b < |m.first|
    requires m.first[b].To? ==> m.first[b].slot < |m.node|
  {
    var n := m.first[b];
    var m1 := m.(node := m.node[x := m.node[x].(next := n)]);
    var m2 := SetPprev(m1, n, NextOf(x));
    HMem(m2.first[b := To(x)], m2.node[x := m2.node[x].(pprev := HeadOf(b))])
  }

  /** The node's cells point inside the memory. */
  predicate Inside(m: HMem, x: nat) {
    && x < |m.node|
    && (m.node[x].pprev.HeadOf? ==> m.node[x].pprev.bucket < |m.first|)
    && (m.node[x].pprev.NextOf? ==> m.node[x].pprev.slot < |m.node|)
    && (m.node[x].next.To? ==> m.node[x].next.slot < |m.node|)
  }

  /** The memory after `vg_hlist_del`. */
  function Del(m: HMem, x: nat): HMem
    requires Inside(m, x)
  {
    var HNode(n, c) := m.node[x];
    var m1 := Store(m, c, n);
    var m2 := SetPprev(m1, n, c);
    m2.(node := m2.node[x := HNode(Null, Nowhere)])
  }

  lemma AddHeadChain(m: HMem, b: nat, xs: seq<nat>, x: nat)
    requires Chain(m, b, xs) && x < |m.node| && x !in xs
    ensures Chain(AddHead(m, x, b), b, [x] + xs)
    ensures |AddHead(m, x, b).node| == |m.node| && |AddHead(m, x, b).first| == |m.first|
  {
  }

  /** m' is m with x unlinked: what that does to every other cell. */
  ghost predicate Deleted(m: HMem, m': HMem, x: nat)
    requires x < |m.node|
  {
    var HNode(n, c) := m.node[x];
    && |m'.node| == |m.node| && |m'.first| == |m.first|
    && (forall y: nat | y < |m.node| && y != x ::
          m'.node[y] == HNode(if c == NextOf(y) then n else m.node[y].next,
                              if n == To(y) then c else m.node[y].pprev))
    && (forall d: nat | d < |m.first| :: m'.first[d] == if c == HeadOf(d) then n else m.first[d])
  }

  lemma DelDeletes(m: HMem, x: nat)
    requires Inside(m, x)
    ensures Deleted(m, Del(m, x), x)
  {
  }

  lemma ChainNode(m: HMem, b: nat, xs: seq<nat>, k: nat)
    requires Chain(m, b, xs) && k < |xs|
    ensures m.node[xs[k]] == HNode(LinkAt(xs, k + 1), if k == 0 then HeadOf(b) else NextOf(xs[k - 1]))
    ensures Inside(m, xs[k])
  {
  }

  ghost function PprevAt(b: nat, xs: seq<nat>, i: nat): Cell
    requires i <= |xs|
  {
    if i == 0 then HeadOf(b) else NextOf(xs[i - 1])
  }

  /** The neighbours of the unlinked node now point at each other. */
  lemma DeletedNode(m: HMem, m': HMem, b: nat, xs: seq<nat>, k: nat, j: nat)
    requires Chain(m, b, xs) && k < |xs| && j < |xs| && j != k && Deleted(m, m', xs[k])
    ensures m'.node[xs[j]] == HNode(LinkAt(xs, if j + 1 == k then k + 1 else j + 1),
                                    PprevAt(b, xs, if j == k + 1 then k else j))
  {
    var x, y := xs[k], xs[j];
    assert y != x && y < |m.node|;
    var HNode(n, c) := m.node[x];
    assert n == LinkAt(xs, k + 1) && c == PprevAt(b, xs, k);
    assert m.node[y] == HNode(LinkAt(xs, j + 1), PprevAt(b, xs, j));
    assert c == NextOf(y) <==> j + 1 == k;
    assert n == To(y) <==> j == k + 1;
  }

  lemma WithoutLinks(b: nat, xs: seq<nat>, k: nat, i: nat)
    requires k < |xs| && i < |xs| - 1
    ensures var ys := Without(xs, k); var j := if i < k then i else i + 1;
            && ys[i] == xs[j]
            && LinkAt(ys, i + 1) == LinkAt(xs, if j + 1 == k then k + 1 else j + 1)
            && PprevAt(b, ys, i) == PprevAt(b, xs, if j == k + 1 then k else j)
  {
  }

  lemma DeletedAt(m: HMem, m': HMem, b: nat, xs: seq<nat>, k: nat, i: nat)
    requires Chain(m, b, xs) && k < |xs| && Deleted(m, m', xs[k]) && i < |xs| - 1
    ensures var ys := Without(xs, k);
            ys[i] < |m'.node| && m'.node[ys[i]] == HNode(LinkAt(ys, i + 1), PprevAt(b, ys, i))
  {
    WithoutLinks(b, xs, k, i);
    DeletedNode(m, m', b, xs, k, if i < k then i else i + 1);
  }

  lemma DeletedChain(m: HMem, m': HMem, b: nat, xs: seq<nat>, k: nat)
    requires Chain(m, b, xs) && k < |xs| && Deleted(m, m', xs[k])
    ensures Chain(m', b, Without(xs, k))
  {
    WithoutFacts(xs, k);
    var ys := Without(xs, k);
    forall i | 0 <= i < |ys|
      ensures ys[i] < |m'.node| && m'.node[ys[i]] == HNode(LinkAt(ys, i + 1), PprevAt(b, ys, i))
    {
      DeletedAt(m, m', b, xs, k, i);
    }
    assert m'.first[b] == LinkAt(ys, 0) by {
      ChainNode(m, b, xs, k);
    }
  }

  lemma DelChain(m: HMem, b: nat, xs: seq<nat>, k: nat)
    requires Chain(m, b, xs) && k < |xs|
    ensures Inside(m, xs[k])
    ensures Chain(Del(m, xs[k]), b, Without(xs, k))
  {
    ChainNode(m, b, xs, k);
    DelDeletes(m, xs[k]);
    DeletedChain(m, Del(m, xs[k]), b, xs, k);
  }

  /** Adding to or deleting from one bucket leaves every other bucket alone. */
  lemma OtherChain(m: HMem, b: nat, xs: seq<nat>, c: nat, ys: seq<nat>, x: nat)
    requires Chain(m, b, xs) && Chain(m, c, ys) && b != c && (forall y | y in xs :: y !in ys)
    requires x < |m.node| && x !in ys
    ensures x !in xs ==> Chain(AddHead(m, x, b), c, ys)
    ensures x in xs ==> Inside(m, x) && Chain(Del(m, x), c, ys)
  {
  }

  /** All buckets empty, as `memset` leaves them. */
  method ClearHeads(first: array<Link>)
    modifies first
    ensures forall b | 0 <= b < first.Length :: first[b] == Null
  {
    for b := 0 to first.Length
      invariant forall c | 0 <= c < b :: first[c] == Null
    {
      first[b] := Null;
    }
  }

  /** `vg_hlist_add_head`. */
  method HListAddHead(first: array<Link>, node: array<HNode>, x: nat, b: nat)
    requires x < node.Length && b < first.Length
    requires first[b].To? ==> first[b].slot < node.Length
    modifies first, node
    ensures HMem(first[..], node[..]) == AddHead(old(HMem(first[..], node[..])), x, b)
  {
    node[x] := node[x].(next := first[b]);
    if node[x].next.To? {
      var n := node[x].next.slot;
      node[n] := node[n].(pprev := NextOf(x));
    }
    first[b] := To(x);
    node[x] := node[x].(pprev := HeadOf(b));
  }

  /** `vg_hlist_del`. */
  method HListDel(first: array<Link>, node: array<HNode>, x: nat)
    requires Inside(HMem(first[..], node[..]), x) && node[x].pprev != NextOf(x)
    modifies first, node
    ensures HMem(first[..], node[..]) == Del(old(HMem(first[..], node[..])), x)
  {
    match node[x].pprev {
      case HeadOf(b) => first[b] := node[x].next;
      case NextOf(i) => node[i] := node[i].(next := node[x].next);
      case Nowhere =>
    }
    if node[x].next.To? {
      var n := node[x].next.slot;
      node[n] := node[n].(pprev := node[x].pprev);
    }
    node[x] := node[x].(next := Null);
    node[x] := node[x].(pprev := Nowhere);
  }
}
