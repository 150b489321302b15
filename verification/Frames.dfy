/**
 Frames built from their parts, as a sender would lay them out (IEEE 802.1Q tags, RFC 791,
 section 4 of RFC 8200, section 2.2 of RFC 4302), and what the XDP program reads back.
 */
module Frames {
  import opened Cidrs
  import opened KernelState
  import opened Datapath
  import opened Xdp

  // ---------------------------------------------------------------- Ethernet

  /** One VLAN tag: 802.1Q or 802.1ad, and its control bytes. */
  datatype Tag = Tag(ad: bool, tci: (bv8, bv8))

  function TagBytes(t: Tag): seq<bv8> {
    (if t.ad then [0x88, 0xa8] else [0x81, 0x00]) + [t.tci.0, t.tci.1]
  }

  function TagsBytes(ts: seq<Tag>): (s: seq<bv8>)
    ensures |s| == 4 * |ts|
  {
    if ts == [] then [] else TagBytes(ts[0]) + TagsBytes(ts[1..])
  }

  /** Addresses, tags, and the two bytes of the payload's type. */
  function Ethernet(mac: seq<bv8>, ts: seq<Tag>, kind: (bv8, bv8)): seq<bv8> {
    mac + TagsBytes(ts) + [kind.0, kind.1]
  }

  /** A field read from the middle of a frame is the field that was put there. */
  lemma Be16At(pre: seq<bv8>, b: seq<bv8>, post: seq<bv8>, i: nat)
    requires i + 2 <= |b|
    ensures Be16(pre + b + post, |pre| + i) == Be16(b, i)
  {
  }

  lemma TagKind(f: Frame, o: nat, t: Tag)
    requires o + 2 <= |f| && f[o..o + 2] == TagBytes(t)[..2]
    ensures |TagBytes(t)| == 4 && IsVlan(Be16(f, o)) && Be16(f, o) != ETH_IP && Be16(f, o) != ETH_IPV6
  {
    assert f[o] == f[o..o + 2][0] && f[o + 1] == f[o..o + 2][1];
  }

  lemma {:induction false} SkipsTags(pre: seq<bv8>, ts: seq<Tag>, kind: (bv8, bv8), post: seq<bv8>, n: nat)
    requires |ts| <= n && !IsVlan(Be16([kind.0, kind.1], 0))
    ensures var f := pre + TagsBytes(ts) + [kind.0, kind.1] + post;
            && |pre| + 2 <= |f|
            && SkipVlans(f, Payload(Be16(f, |pre|), |pre| + 2), n)
               == Some(Payload(Be16([kind.0, kind.1], 0), |pre| + 4 * |ts| + 2))
    decreases n
  {
    hide TagBytes, Be16;
    var k := [kind.0, kind.1];
    var f := pre + TagsBytes(ts) + k + post;
    if ts == [] {
      Be16At(pre, k, post, 0);
      assert f == pre + k + post;
    } else {
      var t := TagBytes(ts[0]);
      var rest := TagsBytes(ts[1..]) + k + post;
      assert f == pre + t + rest;
      Be16At(pre, t, rest, 0);
      TagKind(t, 0, ts[0]);
      SkipsTags(pre + t, ts[1..], kind, post, n - 1);
      assert f == (pre + t) + TagsBytes(ts[1..]) + k + post;
      assert |pre + t| == |pre| + 4;
    }
  }

  /** Up to two tags are skipped, whatever they are. */
  lemma EthernetReadsBack(mac: seq<bv8>, ts: seq<Tag>, kind: (bv8, bv8), rest: seq<bv8>)
    requires |mac| == 12 && |ts| <= MAX_VLANS && !IsVlan(Be16([kind.0, kind.1], 0))
    ensures EtherPayload(Ethernet(mac, ts, kind) + rest) == Some(Payload(Be16([kind.0, kind.1], 0), 14 + 4 * |ts|))
  {
    SkipsTags(mac, ts, kind, rest, MAX_VLANS);
    assert Ethernet(mac, ts, kind) + rest == mac + TagsBytes(ts) + [kind.0, kind.1] + rest;
  }

  // ---------------------------------------------------------------- extension headers

  /**
   An extension header without its next-header byte: options or routing headers give their
   length in 8-byte units beyond the first, an authentication header in 4-byte units minus
   two, a first fragment has eight bytes and offset zero.
   */
  datatype Ext = Plain(kind: bv8, len: bv8, body: seq<bv8>) | Auth(len: bv8, body: seq<bv8>) | Fragment(body: seq<bv8>)

  predicate WellFormed(e: Ext) {
    match e
    case Plain(kind, len, body) =>
      (kind == HOPOPTS || kind == ROUTING || kind == DSTOPTS) && |body| + 2 == (len as nat + 1) * 8
    case Auth(len, body) => |body| + 2 == (len as nat + 2) * 4
    case Fragment(body) => |body| == 7 && body[1] == 0 && body[2] & 0xf8 == 0
  }

  function KindOf(e: Ext): bv8 {
    match e
    case Plain(kind, _, _) => kind
    case Auth(_, _) => AH
    case Fragment(_) => FRAGMENT
  }

  function ExtBytes(e: Ext, next: bv8): seq<bv8> {
    match e
    case Plain(_, len, body) => [next, len] + body
    case Auth(len, body) => [next, len] + body
    case Fragment(body) => [next] + body
  }

  /** The next-header value that announces the chain. */
  function FirstKind(es: seq<Ext>, proto: bv8): bv8 {
    if es == [] then proto else KindOf(es[0])
  }

  function ChainBytes(es: seq<Ext>, proto: bv8): seq<bv8> {
    if es == [] then [] else ExtBytes(es[0], FirstKind(es[1..], proto)) + ChainBytes(es[1..], proto)
  }

  lemma OneHeader(pre: seq<bv8>, e: Ext, next: bv8, post: seq<bv8>)
    requires WellFormed(e)
    ensures ExtStep(pre + ExtBytes(e, next) + post, |pre|, KindOf(e)) == Next(|pre| + |ExtBytes(e, next)|, next)
  {
    var b := ExtBytes(e, next);
    var f := pre + b + post;
    assert f[|pre|] == b[0] == next;
    assert |b| >= 2 && f[|pre| + 1] == b[1];
    if e.Fragment? {
      assert f[|pre| + 2] == e.body[1] && f[|pre| + 3] == e.body[2];
      FragmentHeaderStops(f, |pre|);
    }
  }

  lemma NoHeader(f: Frame, off: nat, proto: bv8)
    requires !IsExt(proto)
    ensures ExtStep(f, off, proto) == Stop
  {
  }

  /** Any number of well-formed headers is skipped, whatever follows them. */
  lemma {:induction false} ChainSkips(pre: seq<bv8>, es: seq<Ext>, proto: bv8, post: seq<bv8>)
    requires forall i | 0 <= i < |es| :: WellFormed(es[i])
    ensures var f := pre + ChainBytes(es, proto) + post; var end := |pre| + |ChainBytes(es, proto)|;
            && ReadChain(f, |pre|, FirstKind(es, proto)) == ReadChain(f, end, proto)
            && ChainLength(f, |pre|, FirstKind(es, proto)) == |es| + ChainLength(f, end, proto)
    decreases |es|
  {
    hide ExtStep, ExtBytes, WellFormed;
    var f := pre + ChainBytes(es, proto) + post;
    if es != [] {
      var b := ExtBytes(es[0], FirstKind(es[1..], proto));
      var rest := ChainBytes(es[1..], proto);
      assert f == pre + b + (rest + post);
      OneHeader(pre, es[0], FirstKind(es[1..], proto), rest + post);
      ChainSkips(pre + b, es[1..], proto, post);
      assert f == (pre + b) + rest + post;
    }
  }

  /** The chain reads back: where the transport starts, and which it is. */
  lemma ChainReadsBack(pre: seq<bv8>, es: seq<Ext>, proto: bv8, post: seq<bv8>)
    requires !IsExt(proto) && forall i | 0 <= i < |es| :: WellFormed(es[i])
    ensures var f := pre + ChainBytes(es, proto) + post;
            && ReadChain(f, |pre|, FirstKind(es, proto)) == AtL4(|pre| + |ChainBytes(es, proto)|, proto)
            && ChainLength(f, |pre|, FirstKind(es, proto)) == |es|
  {
    hide ExtStep, ChainBytes, FirstKind, WellFormed;
    ChainSkips(pre, es, proto, post);
    NoHeader(pre + ChainBytes(es, proto) + post, |pre| + |ChainBytes(es, proto)|, proto);
  }

  /** The eight bytes of a later fragment's header. */
  predicate IsLaterFragment(b: seq<bv8>) {
    |b| == 8 && (b[2] != 0 || b[3] & 0xf8 != 0)
  }

  /** A later fragment ends the chain without a transport. */
  lemma ChainEndsInFragment(pre: seq<bv8>, es: seq<Ext>, b: seq<bv8>, post: seq<bv8>)
    requires IsLaterFragment(b) && forall i | 0 <= i < |es| :: WellFormed(es[i])
    ensures var f := pre + ChainBytes(es, 44) + b + post;
            && ReadChain(f, |pre|, FirstKind(es, 44)).NoL4?
            && ChainLength(f, |pre|, FirstKind(es, 44)) == |es| + 1
  {
    hide ChainBytes, FirstKind, WellFormed;
    var f := pre + ChainBytes(es, 44) + b + post;
    var end := |pre| + |ChainBytes(es, 44)|;
    ChainSkips(pre, es, 44, b + post);
    assert f == pre + ChainBytes(es, 44) + (b + post);
    assert f[end + 2] == b[2] && f[end + 3] == b[3];
    FragmentHeaderStops(f, end);
    hide ExtStep;
  }

  // ---------------------------------------------------------------- IP

  /** The payload holds the whole header that the protocol calls for. */
  predicate Carries(proto: bv8, l4: seq<bv8>, v6: bool) {
    (proto == 6 ==> |l4| >= 20) && (proto == 17 ==> |l4| >= 8) && (v6 && proto == 58 ==> |l4| >= 4)
  }

  /** What a transport header says: source and destination port, or its type. */
  function Says(proto: bv8, l4: seq<bv8>, v6: bool): L4
    requires Carries(proto, l4, v6)
  {
    if proto == 6 || proto == 17 then L4(l4[0] as bv16 * 256 + l4[1] as bv16, l4[2] as bv16 * 256 + l4[3] as bv16, 0)
    else if proto == 58 && v6 then L4(0, 0, l4[0])
    else L4(0, 0, 0)
  }

  lemma TransportReadsBack(pre: seq<bv8>, proto: bv8, l4: seq<bv8>, v6: bool)
    requires Carries(proto, l4, v6)
    ensures var f := pre + l4; !CutOff(f, |pre|, proto, v6) && HeaderSays(f, |pre|, proto, v6) == Says(proto, l4, v6)
  {
    var f := pre + l4;
    assert forall i | 0 <= i < |l4| :: f[|pre| + i] == l4[i];
  }

  /** The parts of an IPv4 header besides protocol and addresses; x holds bytes the gate never looks at. */
  datatype Ip4Head = Ip4Head(first: bv8, flags: bv8, low: bv8, x: seq<bv8>, ttl: bv8, opts: seq<bv8>)

  /** The header length counts the options. */
  predicate Sound(h: Ip4Head) {
    |h.x| == 7 && 4 * (h.first & 0x0f) as nat == 20 + |h.opts|
  }

  /** Fragment offset zero; the three flags may be anything. */
  predicate IsFirst(h: Ip4Head) {
    h.flags & 0x1f == 0 && h.low == 0
  }

  function Ip4(h: Ip4Head, proto: bv8, src: seq<bv8>, dst: seq<bv8>): seq<bv8>
    requires Sound(h)
  {
    [h.first, h.x[0], h.x[1], h.x[2], h.x[3], h.x[4], h.flags, h.low, h.ttl, proto, h.x[5], h.x[6]] + src + dst + h.opts
  }

  /** An IPv6 header announcing `next`. */
  function Ip6(x: seq<bv8>, next: bv8, hop: bv8, src: seq<bv8>, dst: seq<bv8>): seq<bv8>
    requires |x| == 5
  {
    [0x60, x[0], x[1], x[2], x[3], x[4], next, hop] + src + dst
  }

  lemma Ip4Fields(pre: seq<bv8>, h: Ip4Head, proto: bv8, src: Host, dst: Host, rest: seq<bv8>)
    requires Sound(h) && src.family == V4 && dst.family == V4
    ensures var b := Ip4(h, proto, src.bytes, dst.bytes); var f := pre + b + rest; var p := Payload(ETH_IP, |pre|);
            && |b| == 4 * (h.first & 0x0f) as nat >= 20 && HasHeader(f, p) && EndsAt(f, p) == Ends(src, dst)
            && HopLimit(f, p) == h.ttl && f[|pre|] == h.first && f[|pre| + 9] == proto
            && (LaterFragment4(f, |pre|) <==> !IsFirst(h))
  {
    var b := Ip4(h, proto, src.bytes, dst.bytes);
    var f := pre + b + rest;
    assert |b| == 20 + |h.opts| && b[12..16] == src.bytes && b[16..20] == dst.bytes;
    assert f[|pre| + 12..|pre| + 16] == b[12..16] && f[|pre| + 16..|pre| + 20] == b[16..20];
    assert f[|pre|] == h.first && f[|pre| + 9] == proto && f[|pre| + 8] == h.ttl;
    assert f[|pre| + 6] == h.flags && f[|pre| + 7] == h.low;
  }

  /** What the program sees of an IPv4 frame: the transport of a first fragment, nothing of a later one. */
  ghost function Sight4(h: Ip4Head, proto: bv8, l4: seq<bv8>): Seen
    requires IsFirst(h) ==> Carries(proto, l4, false)
  {
    Seen(proto, if IsFirst(h) then Says(proto, l4, false) else L4(0, 0, 0), false)
  }

  lemma Ip4ReadsBack(pre: seq<bv8>, h: Ip4Head, proto: bv8, src: Host, dst: Host, l4: seq<bv8>)
    requires Sound(h) && src.family == V4 && dst.family == V4 && (IsFirst(h) ==> Carries(proto, l4, false))
    ensures var f := pre + Ip4(h, proto, src.bytes, dst.bytes) + l4; var p := Payload(ETH_IP, |pre|);
            && HasHeader(f, p) && EndsAt(f, p) == Ends(src, dst) && HopLimit(f, p) == h.ttl
            && Transport(f, p) == (if IsFirst(h) then Some(Sight4(h, proto, l4)) else None)
            && SeenAt(f, p) == Sight4(h, proto, l4)
  {
    hide Says, Carries, HeaderSays, CutOff, ParseL4, Ip4, Sound, EndsAt, HopLimit, FirstFragment4, LaterFragment4, IsFirst;
    var b := Ip4(h, proto, src.bytes, dst.bytes);
    var f, p := pre + b + l4, Payload(ETH_IP, |pre|);
    Ip4Fields(pre, h, proto, src, dst, l4);
    if IsFirst(h) {
      TransportReadsBack(pre + b, proto, l4, false);
    }
    SeenIsTransportOrNothing(f, p);
    BadExactly(f, p);
    SeenProto4(f, p);
  }

  lemma SeenProto4(f: Frame, p: Payload)
    requires HasHeader(f, p) && p.kind == ETH_IP
    ensures SeenAt(f, p).proto == f[p.off + 9]
  {
  }

  lemma Ip6Fields(pre: seq<bv8>, x: seq<bv8>, next: bv8, hop: bv8, src: Host, dst: Host, rest: seq<bv8>)
    requires |x| == 5 && src.family == V6 && dst.family == V6
    ensures var h := Ip6(x, next, hop, src.bytes, dst.bytes); var f := pre + h + rest; var p := Payload(ETH_IPV6, |pre|);
            && |h| == 40 && HasHeader(f, p) && EndsAt(f, p) == Ends(src, dst)
            && f[|pre| + 6] == next && f[|pre| + 7] == hop
  {
    var h := Ip6(x, next, hop, src.bytes, dst.bytes);
    var f := pre + h + rest;
    assert |h| == 40 && h[8..24] == src.bytes && h[24..40] == dst.bytes;
    assert f[|pre| + 8..|pre| + 24] == h[8..24] && f[|pre| + 24..|pre| + 40] == h[24..40];
  }

  lemma Ip6ReadsBack(pre: seq<bv8>, x: seq<bv8>, hop: bv8, src: Host, dst: Host, es: seq<Ext>, proto: bv8, l4: seq<bv8>)
    requires |x| == 5 && src.family == V6 && dst.family == V6 && Carries(proto, l4, true) && !IsExt(proto)
    requires |es| <= 8 && forall i | 0 <= i < |es| :: WellFormed(es[i])
    ensures var f := pre + Ip6(x, FirstKind(es, proto), hop, src.bytes, dst.bytes) + ChainBytes(es, proto) + l4;
            var p := Payload(ETH_IPV6, |pre|);
            && HasHeader(f, p) && EndsAt(f, p) == Ends(src, dst) && HopLimit(f, p) == hop
            && Transport(f, p) == Some(Seen(proto, Says(proto, l4, true), false))
  {
    hide Says, Carries, HeaderSays, CutOff, ReadChain, ChainLength, WellFormed, ChainBytes, FirstKind, IsExt, Ip6;
    var h := Ip6(x, FirstKind(es, proto), hop, src.bytes, dst.bytes);
    var chain := ChainBytes(es, proto);
    Ip6Fields(pre, x, FirstKind(es, proto), hop, src, dst, chain + l4);
    assert pre + h + chain + l4 == pre + h + (chain + l4);
    ChainReadsBack(pre + h, es, proto, l4);
    TransportReadsBack(pre + h + chain, proto, l4, true);
  }

  /**
   An IPv6 frame that has nothing to show: behind its chain comes a later fragment, or the
   chain has more than eight headers.  No ports, no type, and no parse error.
   */
  lemma Ip6ShowsNothing(pre: seq<bv8>, x: seq<bv8>, hop: bv8, src: Host, dst: Host, es: seq<Ext>, next: bv8, rest: seq<bv8>)
    requires |x| == 5 && src.family == V6 && dst.family == V6 && forall i | 0 <= i < |es| :: WellFormed(es[i])
    requires |es| > 8 || (next == 44 && |rest| >= 8 && IsLaterFragment(rest[..8]))
    ensures var f := pre + Ip6(x, FirstKind(es, next), hop, src.bytes, dst.bytes) + ChainBytes(es, next) + rest;
            var p := Payload(ETH_IPV6, |pre|);
            && HasHeader(f, p) && EndsAt(f, p) == Ends(src, dst) && HopLimit(f, p) == hop
            && SeenAt(f, p).l4 == L4(0, 0, 0) && !SeenAt(f, p).bad && Transport(f, p).None?
  {
    hide CutOff, HeaderSays, ReadChain, ChainLength, WellFormed, ChainBytes, FirstKind, Ip6, SeenAt, ExtStep;
    var h := Ip6(x, FirstKind(es, next), hop, src.bytes, dst.bytes);
    var chain := ChainBytes(es, next);
    var f, p := pre + h + chain + rest, Payload(ETH_IPV6, |pre|);
    Ip6Fields(pre, x, FirstKind(es, next), hop, src, dst, chain + rest);
    assert f == pre + h + (chain + rest);
    ChainSkips(pre + h, es, next, rest);
    if |es| <= 8 {
      ChainEndsInFragment(pre + h, es, rest[..8], rest[8..]);
      assert f == pre + h + chain + rest[..8] + rest[8..];
    }
    SeenIsTransportOrNothing(f, p);
    BadExactly(f, p);
  }

  // ---------------------------------------------------------------- frames that must pass

  /** The frame, whole: any two addresses of the link, up to two tags, then IPv4. */
  function Frame4(mac: seq<bv8>, ts: seq<Tag>, h: Ip4Head, src: Host, dst: Host, proto: bv8, l4: seq<bv8>): Frame
    requires Sound(h)
  {
    Ethernet(mac, ts, (0x08, 0x00)) + Ip4(h, proto, src.bytes, dst.bytes) + l4
  }

  function Frame6(mac: seq<bv8>, ts: seq<Tag>, x: seq<bv8>, hop: bv8, src: Host, dst: Host, es: seq<Ext>, proto: bv8, l4: seq<bv8>): Frame
    requires |x| == 5
  {
    Ethernet(mac, ts, (0x86, 0xdd)) + Ip6(x, FirstKind(es, proto), hop, src.bytes, dst.bytes) + ChainBytes(es, proto) + l4
  }

  /** A service on the VM: TCP to an allowed port of a local address, or from one. */
  predicate IsService(m: Maps, e: Ends, l: L4) {
    || (Hits(m.local, e.dst) && exists i | 0 <= i < |m.cfg.ports| && i < m.cfg.count && i < 8 :: m.cfg.ports[i] == l.dport)
    || (Hits(m.local, e.src) && exists i | 0 <= i < |m.cfg.ports| && i < m.cfg.count && i < 8 :: m.cfg.ports[i] == l.sport)
  }

  /** The program reads the frame as it was put together. */
  ghost predicate ReadAs(f: Frame, p: Payload, e: Ends, hop: bv8, s: Seen) {
    && EtherPayload(f) == Some(p) && HasHeader(f, p) && EndsAt(f, p) == e && HopLimit(f, p) == hop
    && SeenAt(f, p) == s
  }

  lemma Frame4Reads(mac: seq<bv8>, ts: seq<Tag>, h: Ip4Head, src: Host, dst: Host, proto: bv8, l4: seq<bv8>)
    requires |mac| == 12 && |ts| <= 2 && Sound(h) && src.family == V4 && dst.family == V4
    requires IsFirst(h) ==> Carries(proto, l4, false)
    ensures ReadAs(Frame4(mac, ts, h, src, dst, proto, l4), Payload(ETH_IP, 14 + 4 * |ts|), Ends(src, dst), h.ttl,
                   Sight4(h, proto, l4))
  {
    hide Sound, IsFirst, Sight4, Carries, Transport, SeenAt, Ip4, EtherPayload, EndsAt;
    var f := Frame4(mac, ts, h, src, dst, proto, l4);
    var eth := Ethernet(mac, ts, (0x08, 0x00));
    var rest := Ip4(h, proto, src.bytes, dst.bytes) + l4;
    assert f == eth + rest && |eth| == 14 + 4 * |ts|;
    assert Be16([0x08, 0x00], 0) == ETH_IP;
    EthernetReadsBack(mac, ts, (0x08, 0x00), rest);
    Ip4ReadsBack(eth, h, proto, src, dst, l4);
  }

  lemma Frame6Reads(mac: seq<bv8>, ts: seq<Tag>, x: seq<bv8>, hop: bv8, src: Host, dst: Host, es: seq<Ext>, proto: bv8, l4: seq<bv8>)
    requires |mac| == 12 && |ts| <= 2 && |x| == 5 && src.family == V6 && dst.family == V6 && Carries(proto, l4, true) && !IsExt(proto)
    requires |es| <= 8 && forall i | 0 <= i < |es| :: WellFormed(es[i])
    ensures ReadAs(Frame6(mac, ts, x, hop, src, dst, es, proto, l4), Payload(ETH_IPV6, 14 + 4 * |ts|), Ends(src, dst), hop,
                   Seen(proto, Says(proto, l4, true), false))
  {
    hide Says, Carries, Transport, SeenAt, Ip6, EtherPayload, EndsAt, WellFormed, ChainBytes, FirstKind;
    var f := Frame6(mac, ts, x, hop, src, dst, es, proto, l4);
    var eth := Ethernet(mac, ts, (0x86, 0xdd));
    var rest := Ip6(x, FirstKind(es, proto), hop, src.bytes, dst.bytes) + ChainBytes(es, proto) + l4;
    assert f == eth + rest && |eth| == 14 + 4 * |ts|;
    assert Be16([0x86, 0xdd], 0) == ETH_IPV6;
    EthernetReadsBack(mac, ts, (0x86, 0xdd), rest);
    Ip6ReadsBack(eth, x, hop, src, dst, es, proto, l4);
    assert f == eth + Ip6(x, FirstKind(es, proto), hop, src.bytes, dst.bytes) + ChainBytes(es, proto) + l4;
    SeenIsTransportOrNothing(f, Payload(ETH_IPV6, |eth|));
  }

  /**
   IPv4: with any tags, flags and options, the transport header whole, and neither end
   allowed, the frame escapes the drop lists exactly as a service of the VM, or as DHCP
   between the right pair of ports to the VM or to everyone; and a later fragment never.
   */
  lemma Frame4Verdict(m: Maps, mac: seq<bv8>, ts: seq<Tag>, h: Ip4Head, src: Host, dst: Host, proto: bv8, l4: seq<bv8>)
    requires |mac| == 12 && |ts| <= 2 && Sound(h) && src.family == V4 && dst.family == V4
    requires if IsFirst(h) then Carries(proto, l4, false) else NonZeroPorts(m.cfg)
    requires m.cfg.armed && !Hits(m.allow, src) && !Hits(m.allow, dst)
    ensures var o := Classify(m, Frame4(mac, ts, h, src, dst, proto, l4));
            && o.Judged? && o.ends == Ends(src, dst) && !o.bad
            && (o.drop <==>
                && (Hits(m.drops.Keys, src) || Hits(m.drops.Keys, dst))
                && (IsFirst(h) ==>
                      var l := Says(proto, l4, false);
                      && !(proto == 6 && IsService(m, Ends(src, dst), l))
                      && !(proto == 17 && (Hits(m.local, dst) || dst.bytes == [255, 255, 255, 255])
                           && ((l.sport == 67 && l.dport == 68) || (l.sport == 68 && l.dport == 67) || (l.sport == 67 && l.dport == 67)))))
  {
    hide Says, Carries, Hits, SeenAt, EtherPayload, EndsAt, HopLimit, Frame4, IsFirst;
    Frame4Reads(mac, ts, h, src, dst, proto, l4);
  }

  /**
   IPv6 likewise, behind any well-formed chain of at most eight extension headers: link
   scope on either end, neighbour discovery with hop limit 255, a service of the VM, or
   DHCPv6 between the right pair of ports to the VM.
   */
  lemma Frame6Verdict(m: Maps, mac: seq<bv8>, ts: seq<Tag>, x: seq<bv8>, hop: bv8, src: Host, dst: Host,
                      es: seq<Ext>, proto: bv8, l4: seq<bv8>)
    requires |mac| == 12 && |ts| <= 2 && |x| == 5 && src.family == V6 && dst.family == V6 && Carries(proto, l4, true) && !IsExt(proto)
    requires |es| <= 8 && forall i | 0 <= i < |es| :: WellFormed(es[i])
    requires m.cfg.armed && !Hits(m.allow, src) && !Hits(m.allow, dst)
    ensures var o := Classify(m, Frame6(mac, ts, x, hop, src, dst, es, proto, l4)); var l := Says(proto, l4, true);
            && o.Judged? && o.ends == Ends(src, dst) && !o.bad
            && (o.drop <==>
                && (Hits(m.drops.Keys, src) || Hits(m.drops.Keys, dst))
                && !LinkScope(src) && !LinkScope(dst)
                && !(proto == 58 && hop == 255 && 133 <= l4[0] <= 137)
                && !(proto == 6 && IsService(m, Ends(src, dst), l))
                && !(proto == 17 && Hits(m.local, dst)
                     && ((l.sport == 547 && l.dport == 546) || (l.sport == 546 && l.dport == 547) || (l.sport == 547 && l.dport == 547))))
  {
    hide Hits, SeenAt, EtherPayload, EndsAt, HopLimit, Frame6, WellFormed, LinkScope, Be16;
    Frame6Reads(mac, ts, x, hop, src, dst, es, proto, l4);
  }

  lemma Frame6ShowsNothing(mac: seq<bv8>, ts: seq<Tag>, x: seq<bv8>, hop: bv8, src: Host, dst: Host, es: seq<Ext>, next: bv8, rest: seq<bv8>)
    requires |mac| == 12 && |ts| <= 2 && |x| == 5 && src.family == V6 && dst.family == V6
    requires forall i | 0 <= i < |es| :: WellFormed(es[i])
    requires |es| > 8 || (next == 44 && |rest| >= 8 && IsLaterFragment(rest[..8]))
    ensures var f := Frame6(mac, ts, x, hop, src, dst, es, next, rest); var p := Payload(ETH_IPV6, 14 + 4 * |ts|);
            && EtherPayload(f) == Some(p) && HasHeader(f, p) && EndsAt(f, p) == Ends(src, dst)
            && SeenAt(f, p).l4 == L4(0, 0, 0) && !SeenAt(f, p).bad
  {
    hide SeenAt, Ip6, EtherPayload, EndsAt, WellFormed, ChainBytes, FirstKind, IsLaterFragment, Transport;
    var f := Frame6(mac, ts, x, hop, src, dst, es, next, rest);
    var eth := Ethernet(mac, ts, (0x86, 0xdd));
    var packet := Ip6(x, FirstKind(es, next), hop, src.bytes, dst.bytes) + ChainBytes(es, next) + rest;
    assert f == eth + packet && |eth| == 14 + 4 * |ts|;
    assert Be16([0x86, 0xdd], 0) == ETH_IPV6;
    EthernetReadsBack(mac, ts, (0x86, 0xdd), packet);
    Ip6ShowsNothing(eth, x, hop, src, dst, es, next, rest);
    assert f == eth + Ip6(x, FirstKind(es, next), hop, src.bytes, dst.bytes) + ChainBytes(es, next) + rest;
  }

  /** A later IPv6 fragment, or a chain of more than eight headers, escapes the drop lists by link scope only. */
  lemma Frame6BlindVerdict(m: Maps, mac: seq<bv8>, ts: seq<Tag>, x: seq<bv8>, hop: bv8, src: Host, dst: Host,
                           es: seq<Ext>, next: bv8, rest: seq<bv8>)
    requires |mac| == 12 && |ts| <= 2 && |x| == 5 && src.family == V6 && dst.family == V6
    requires forall i | 0 <= i < |es| :: WellFormed(es[i])
    requires |es| > 8 || (next == 44 && |rest| >= 8 && IsLaterFragment(rest[..8]))
    requires m.cfg.armed && NonZeroPorts(m.cfg) && !Hits(m.allow, src) && !Hits(m.allow, dst)
    ensures var o := Classify(m, Frame6(mac, ts, x, hop, src, dst, es, next, rest));
            && o.Judged? && o.ends == Ends(src, dst) && !o.bad
            && (o.drop <==> (Hits(m.drops.Keys, src) || Hits(m.drops.Keys, dst)) && !LinkScope(src) && !LinkScope(dst))
  {
    hide Hits, SeenAt, EtherPayload, EndsAt, HopLimit, Frame6, LinkScope, WellFormed, IsLaterFragment;
    Frame6ShowsNothing(mac, ts, x, hop, src, dst, es, next, rest);
  }

  /** Behind a third tag nothing is read: the frame passes as not IP. */
  lemma ThirdTagPasses(m: Maps, mac: seq<bv8>, a: Tag, b: Tag, c: Tag, rest: seq<bv8>)
    requires |mac| == 12 && m.cfg.armed
    ensures Classify(m, mac + TagsBytes([a, b, c]) + rest) == NotIp
  {
    var f := mac + TagsBytes([a, b, c]) + rest;
    var t0, t1, t2 := TagBytes(a), TagBytes(b), TagBytes(c);
    assert TagsBytes([c]) == t2 && [b, c][1..] == [c] && [a, b, c][1..] == [b, c];
    assert TagsBytes([b, c]) == t1 + t2;
    assert TagsBytes([a, b, c]) == t0 + (t1 + t2);
    assert f[12..14] == t0[..2] && f[16..18] == t1[..2] && f[20..22] == t2[..2];
    TagKind(f, 12, a);
    TagKind(f, 16, b);
    TagKind(f, 20, c);
  }

  /** Link scope is fe80::/10 and ff02::/16, as address sets. */
  lemma LinkScopeIsTwoPrefixes(h: Host)
    requires h.family == V6
    ensures LinkScope(h) <==>
            || h in Addresses(RawCidr(V6, [0xfe, 0x80, 0, 0, 0, 0, 0, 0, 0, 0, 0, 0, 0, 0, 0, 0], 10))
            || h in Addresses(RawCidr(V6, [0xff, 0x02, 0, 0, 0, 0, 0, 0, 0, 0, 0, 0, 0, 0, 0, 0], 16))
  {
    hide Addresses;
    var ll: Cidr := RawCidr(V6, [0xfe, 0x80, 0, 0, 0, 0, 0, 0, 0, 0, 0, 0, 0, 0, 0, 0], 10);
    var mc: Cidr := RawCidr(V6, [0xff, 0x02, 0, 0, 0, 0, 0, 0, 0, 0, 0, 0, 0, 0, 0, 0], 16);
    CoversMeaning(ll, h);
    CoversMeaning(mc, h);
    assert ll.addr[..1] == [0xfe] && h.bytes[..1] == [h.bytes[0]];
    assert mc.addr[..2] == [0xff, 0x02] && h.bytes[..2] == [h.bytes[0], h.bytes[1]];
  }
}
