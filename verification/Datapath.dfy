/**
 The XDP program (src/bpf/voidgate.bpf.c): what it reads from a frame, which frames it
 exempts, and its verdict and counters.  A frame is an arbitrary byte sequence.
 */
module Datapath {
  import opened Cidrs
  import opened KernelState

  const MAX_VLANS: nat := 2
  const MAX_EXT: nat := 8

  const ETH_IP: bv16 := 0x0800
  const ETH_IPV6: bv16 := 0x86dd
  const ETH_8021Q: bv16 := 0x8100
  const ETH_8021AD: bv16 := 0x88a8

  const TCP: bv8 := 6
  const UDP: bv8 := 17
  const ICMPV6: bv8 := 58
  const FRAGMENT: bv8 := 44
  const HOPOPTS: bv8 := 0
  const ROUTING: bv8 := 43
  const AH: bv8 := 51
  const DSTOPTS: bv8 := 60

  const NDISC_RS: bv8 := 133
  const NDISC_REDIRECT: bv8 := 137
  const NDISC_HOP_LIMIT: bv8 := 255

  type Frame = seq<bv8>

  /** A big-endian 16-bit field. */
  function Be16(f: Frame, o: nat): bv16
    requires o + 2 <= |f|
  {
    ((f[o] as bv16) << 8) | (f[o + 1] as bv16)
  }

  // ---------------------------------------------------------------- Ethernet

  datatype Payload = Payload(kind: bv16, off: nat)

  predicate IsVlan(kind: bv16) {
    kind == ETH_8021Q || kind == ETH_8021AD
  }

  /** What follows at most n VLAN tags; None if a tag does not fit. */
  function SkipVlans(f: Frame, p: Payload, n: nat): Option<Payload>
    decreases n
  {
    if n == 0 || !IsVlan(p.kind) then Some(p)
    else if p.off + 4 > |f| then None
    else SkipVlans(f, Payload(Be16(f, p.off + 2), p.off + 4), n - 1)
  }

  function EtherPayload(f: Frame): Option<Payload> {
    if |f| < 14 then None else SkipVlans(f, Payload(Be16(f, 12), 14), MAX_VLANS)
  }

  /** The two addresses of an IP frame whose fixed header is all there. */
  datatype Ends = Ends(src: Host, dst: Host)

  predicate HasHeader(f: Frame, p: Payload) {
    (p.kind == ETH_IP && p.off + 20 <= |f|) || (p.kind == ETH_IPV6 && p.off + 40 <= |f|)
  }

  function EndsAt(f: Frame, p: Payload): Ends
    requires HasHeader(f, p)
  {
    if p.kind == ETH_IP then
      Ends(RawHost(V4, f[p.off + 12..p.off + 16]), RawHost(V4, f[p.off + 16..p.off + 20]))
    else
      Ends(RawHost(V6, f[p.off + 8..p.off + 24]), RawHost(V6, f[p.off + 24..p.off + 40]))
  }

  function EndsOf(f: Frame): Option<Ends> {
    match EtherPayload(f)
    case None => None
    case Some(p) => if HasHeader(f, p) then Some(EndsAt(f, p)) else None
  }

  // ---------------------------------------------------------------- IPv6 extension headers

  /** One header of the chain: not an extension, cut off, a later fragment, or skipped. */
  datatype ExtHeader = Stop | Cut | LaterFragment(off: nat, proto: bv8) | Next(off: nat, proto: bv8)

  predicate IsExt(proto: bv8) {
    proto == FRAGMENT || proto == HOPOPTS || proto == ROUTING || proto == DSTOPTS || proto == AH
  }

  function ExtStep(f: Frame, off: nat, proto: bv8): (s: ExtHeader)
    ensures s == Stop <==> !IsExt(proto)
    ensures s.Next? || s.LaterFragment? ==> off + 8 <= s.off <= |f|
  {
    if proto == FRAGMENT then
      if off + 8 > |f| then Cut
      else if Be16(f, off + 2) & 0xfff8 != 0 then LaterFragment(off + 8, f[off])
      else Next(off + 8, f[off])
    else if proto != HOPOPTS && proto != ROUTING && proto != DSTOPTS && proto != AH then Stop
    else if off + 2 > |f| then Cut
    else
      var len := if proto == AH then (f[off + 1] as nat + 2) * 4 else (f[off + 1] as nat + 1) * 8;
      if off + len > |f| then Cut else Next(off + len, f[off])
  }

  datatype ChainEnd = Truncated | NoL4(off: nat, proto: bv8) | AtL4(off: nat, proto: bv8)

  /** The whole chain, read without a bound. */
  function ReadChain(f: Frame, off: nat, proto: bv8): ChainEnd
    decreases if off <= |f| then |f| - off else 0
  {
    match ExtStep(f, off, proto)
    case Stop => AtL4(off, proto)
    case Cut => Truncated
    case LaterFragment(o, p) => NoL4(o, p)
    case Next(o, p) => ReadChain(f, o, p)
  }

  /** How many extension headers the chain has, a cut off one included. */
  function ChainLength(f: Frame, off: nat, proto: bv8): nat
    decreases if off <= |f| then |f| - off else 0
  {
    match ExtStep(f, off, proto)
    case Stop => 0
    case Cut => 1
    case LaterFragment(_, _) => 1
    case Next(o, p) => 1 + ChainLength(f, o, p)
  }

  /** The chain read for at most n headers. */
  function WalkChain(f: Frame, off: nat, proto: bv8, n: nat): ChainEnd
    decreases n
  {
    if n == 0 then AtL4(off, proto)
    else
      match ExtStep(f, off, proto)
      case Stop => AtL4(off, proto)
      case Cut => Truncated
      case LaterFragment(o, p) => NoL4(o, p)
      case Next(o, p) => WalkChain(f, o, p, n - 1)
  }

  /** A bound that the chain keeps does not show; a longer chain ends on an extension header, which is no transport. */
  lemma {:induction false} BoundedWalkAgrees(f: Frame, off: nat, proto: bv8, n: nat)
    ensures ChainLength(f, off, proto) <= n ==> WalkChain(f, off, proto, n) == ReadChain(f, off, proto)
    ensures ChainLength(f, off, proto) > n ==>
              var w := WalkChain(f, off, proto, n);
              w.AtL4? && IsExt(w.proto) && w.proto != TCP && w.proto != UDP && w.proto != ICMPV6
    ensures var w := WalkChain(f, off, proto, n); w.AtL4? || w.NoL4? ==> off <= w.off && (w.off == off || w.off <= |f|)
    decreases n
  {
    if n > 0 {
      var s := ExtStep(f, off, proto);
      if s.Next? {
        BoundedWalkAgrees(f, s.off, s.proto, n - 1);
      }
    }
  }

  lemma WalkUnfold(f: Frame, off: nat, proto: bv8, n: nat)
    requires n > 0
    ensures WalkChain(f, off, proto, n) ==
            match ExtStep(f, off, proto)
            case Stop => AtL4(off, proto)
            case Cut => Truncated
            case LaterFragment(o, p) => NoL4(o, p)
            case Next(o, p) => WalkChain(f, o, p, n - 1)
    ensures WalkChain(f, off, proto, 0) == AtL4(off, proto)
  {
  }

  /** `v6_walk_ext`: the unrolled loop over cursor and protocol.  A truncated chain leaves both untouched. */
  method WalkExt(f: Frame, off: nat, proto: bv8) returns (rc: int, l4: nat, p: bv8)
    ensures match WalkChain(f, off, proto, MAX_EXT)
            case Truncated => rc == -1 && l4 == off && p == proto
            case NoL4(o, q) => rc == 0 && l4 == o && p == q
            case AtL4(o, q) => rc == 1 && l4 == o && p == q
  {
    hide WalkChain, Be16;
    l4, p := off, proto;
    WalkUnfold(f, off, proto, MAX_EXT);
    var cur: nat, next := off, proto;
    for i := 0 to MAX_EXT
      invariant l4 == off && p == proto
      invariant WalkChain(f, off, proto, MAX_EXT) == WalkChain(f, cur, next, MAX_EXT - i)
    {
      WalkUnfold(f, cur, next, MAX_EXT - i);
      if next == FRAGMENT {
        if cur + 8 > |f| {
          return -1, off, proto;
        }
        next, cur := f[cur], cur + 8;
        if Be16(f, cur - 6) & 0xfff8 != 0 {
          return 0, cur, next;
        }
        continue;
      }
      if next != HOPOPTS && next != ROUTING && next != DSTOPTS && next != AH {
        break;
      }
      if cur + 2 > |f| {
        return -1, off, proto;
      }
      var len := if next == AH then (f[cur + 1] as nat + 2) * 4 else (f[cur + 1] as nat + 1) * 8;
      if cur + len > |f| {
        return -1, off, proto;
      }
      next, cur := f[cur], cur + len;
    }
    WalkUnfold(f, cur, next, 1);
    return 1, cur, next;
  }

  // ---------------------------------------------------------------- transport headers

  /** Ports and ICMPv6 type; zero is what the program holds when it read none. */
  datatype L4 = L4(sport: bv16, dport: bv16, icmp: bv8)

  const NO_L4 := L4(0, 0, 0)

  /** `parse_l4`: None when the header is cut off. */
  function ParseL4(f: Frame, off: nat, proto: bv8, v6: bool): Option<L4> {
    if proto == TCP then
      if off + 20 > |f| then None else Some(L4(Be16(f, off), Be16(f, off + 2), 0))
    else if proto == UDP then
      if off + 8 > |f| then None else Some(L4(Be16(f, off), Be16(f, off + 2), 0))
    else if proto == ICMPV6 && v6 then
      if off + 4 > |f| then None else Some(L4(0, 0, f[off]))
    else Some(NO_L4)
  }

  /** What the program knows about the transport once the IP header is read. */
  datatype Seen = Seen(proto: bv8, l4: L4, bad: bool)

  function Ihl(f: Frame, ip: nat): nat
    requires ip < |f|
  {
    (f[ip] & 0x0f) as nat
  }

  predicate FirstFragment4(f: Frame, ip: nat)
    requires ip + 20 <= |f|
  {
    Be16(f, ip + 6) & 0x1fff == 0
  }

  /** The IPv4 half: a bad header length or a cut off transport header leaves the ports zero. */
  function Seen4(f: Frame, ip: nat): Seen
    requires ip + 20 <= |f|
  {
    var proto, l4 := f[ip + 9], ip + 4 * Ihl(f, ip);
    if Ihl(f, ip) < 5 || l4 > |f| then Seen(proto, NO_L4, true)
    else if !FirstFragment4(f, ip) then Seen(proto, NO_L4, false)
    else
      match ParseL4(f, l4, proto, false)
      case None => Seen(proto, NO_L4, true)
      case Some(r) => Seen(proto, r, false)
  }

  /** The IPv6 half. */
  function Seen6(f: Frame, ip: nat): Seen
    requires ip + 40 <= |f|
  {
    match WalkChain(f, ip + 40, f[ip + 6], MAX_EXT)
    case Truncated => Seen(f[ip + 6], NO_L4, true)
    case NoL4(_, proto) => Seen(proto, NO_L4, false)
    case AtL4(off, proto) =>
      match ParseL4(f, off, proto, true)
      case None => Seen(proto, NO_L4, true)
      case Some(r) => Seen(proto, r, false)
  }

  // ---------------------------------------------------------------- exemptions

  predicate PortAllowed(c: CfgEntry, port: bv16) {
    exists i | 0 <= i < |c.ports| && i < c.count && i < MAX_ALLOW_PORTS :: c.ports[i] == port
  }

  /** `port_allowed`. */
  method CheckPort(c: CfgEntry, port: bv16) returns (r: bool)
    requires |c.ports| == MAX_ALLOW_PORTS
    ensures r == PortAllowed(c, port)
  {
    for i := 0 to MAX_ALLOW_PORTS
      invariant forall j | 0 <= j < i :: j < c.count && c.ports[j] != port
    {
      if i >= c.count {
        return false;
      }
      if c.ports[i] == port {
        return true;
      }
    }
    return false;
  }

  /** `v4_tcp_allowed` and `v6_tcp_allowed`. */
  predicate TcpAllowed(m: Maps, e: Ends, l: L4) {
    || (PortAllowed(m.cfg, l.dport) && Hits(m.local, e.dst))
    || (PortAllowed(m.cfg, l.sport) && Hits(m.local, e.src))
  }

  /** `v4_dhcp_allowed` and `v6_dhcp_allowed`. */
  predicate DhcpAllowed(m: Maps, e: Ends, l: L4) {
    if e.dst.family == V4 then
      && ((l.dport == 68 && l.sport == 67) || (l.dport == 67 && (l.sport == 68 || l.sport == 67)))
      && (e.dst.bytes == [0xff, 0xff, 0xff, 0xff] || Hits(m.local, e.dst))
    else
      && ((l.dport == 546 && l.sport == 547) || (l.dport == 547 && (l.sport == 546 || l.sport == 547)))
      && Hits(m.local, e.dst)
  }

  predicate LinkScope(h: Host) {
    && h.family == V6
    && ((h.bytes[0] == 0xfe && h.bytes[1] & 0xc0 == 0x80) || (h.bytes[0] == 0xff && h.bytes[1] == 0x02))
  }

  predicate IsNdp(hopLimit: bv8, l: L4) {
    hopLimit == NDISC_HOP_LIMIT && NDISC_RS <= l.icmp <= NDISC_REDIRECT
  }

  /** What the program lets through before it looks at the drop maps. */
  predicate Exempts(m: Maps, e: Ends, s: Seen, hopLimit: bv8) {
    || (e.dst.family == V6 && (LinkScope(e.src) || LinkScope(e.dst) || IsNdp(hopLimit, s.l4)))
    || Hits(m.allow, e.src) || Hits(m.allow, e.dst)
    || (s.proto == TCP && TcpAllowed(m, e, s.l4))
    || (s.proto == UDP && DhcpAllowed(m, e, s.l4))
  }

  // ---------------------------------------------------------------- trustworthy transports

  /** The frame ends before the transport header that its protocol calls for. */
  ghost predicate CutOff(f: Frame, off: nat, proto: bv8, v6: bool) {
    |f| < off + if proto == 6 then 20 else if proto == 17 then 8 else if proto == 58 && v6 then 4 else 0
  }

  /** The bytes say that this is not the first fragment. */
  ghost predicate LaterFragment4(f: Frame, ip: nat)
    requires ip + 20 <= |f|
  {
    f[ip + 6] & 0x1f != 0 || f[ip + 7] != 0
  }

  /** What a whole transport header says, byte by byte; other protocols have neither ports nor type. */
  ghost function HeaderSays(f: Frame, off: nat, proto: bv8, v6: bool): L4
    requires !CutOff(f, off, proto, v6)
  {
    if proto == 6 || proto == 17 then
      L4((f[off] as bv16) * 256 + f[off + 1] as bv16, (f[off + 2] as bv16) * 256 + f[off + 3] as bv16, 0)
    else L4(0, 0, if v6 && proto == 58 then f[off] else 0)
  }

  /**
   A transport header one can rely on, read off the bytes: a sound IPv4 header length and a
   first fragment, or an IPv6 chain of at most eight headers that is neither cut off nor a
   later fragment; and the whole transport header.
   */
  ghost function Transport(f: Frame, p: Payload): Option<Seen> {
    if p.kind == ETH_IP && p.off + 20 <= |f| then
      var l4, proto := p.off + 4 * (f[p.off] & 0x0f) as nat, f[p.off + 9];
      if l4 < p.off + 20 || l4 > |f| || LaterFragment4(f, p.off) || CutOff(f, l4, proto, false) then None
      else Some(Seen(proto, HeaderSays(f, l4, proto, false), false))
    else if p.kind == ETH_IPV6 && p.off + 40 <= |f| then
      var w := ReadChain(f, p.off + 40, f[p.off + 6]);
      if ChainLength(f, p.off + 40, f[p.off + 6]) > 8 || !w.AtL4? || CutOff(f, w.off, w.proto, true) then None
      else Some(Seen(w.proto, HeaderSays(f, w.off, w.proto, true), false))
    else None
  }

  /** No port slot in use holds port zero. */
  ghost predicate NonZeroPorts(c: CfgEntry) {
    !PortAllowed(c, 0)
  }

  /** Exempt for a reason a reader of the frame can confirm. */
  ghost predicate RightlyExempt(m: Maps, e: Ends, t: Option<Seen>, hopLimit: bv8) {
    || (e.dst.family == V6 && (LinkScope(e.src) || LinkScope(e.dst)))
    || Hits(m.allow, e.src) || Hits(m.allow, e.dst)
    || (t.Some? && (|| (e.dst.family == V6 && IsNdp(hopLimit, t.value.l4))
                    || (t.value.proto == TCP && TcpAllowed(m, e, t.value.l4))
                    || (t.value.proto == UDP && DhcpAllowed(m, e, t.value.l4))))
  }

  /** The IP header's view of the frame. */
  function SeenAt(f: Frame, p: Payload): Seen
    requires HasHeader(f, p)
  {
    if p.kind == ETH_IP then Seen4(f, p.off) else Seen6(f, p.off)
  }

  function HopLimit(f: Frame, p: Payload): bv8
    requires HasHeader(f, p)
  {
    if p.kind == ETH_IP then f[p.off + 8] else f[p.off + 7]
  }

  /** The parsed header is the whole header, or nothing when it is cut off. */
  lemma ParseReadsBytes(f: Frame, off: nat, proto: bv8, v6: bool)
    requires off <= |f|
    ensures ParseL4(f, off, proto, v6) == if CutOff(f, off, proto, v6) then None else Some(HeaderSays(f, off, proto, v6))
  {
    if off + 4 <= |f| {
      Be16IsSum(f[off], f[off + 1]);
      Be16IsSum(f[off + 2], f[off + 3]);
    }
  }

  lemma Be16IsSum(hi: bv8, lo: bv8)
    ensures ((hi as bv16) << 8) | (lo as bv16) == (hi as bv16) * 256 + lo as bv16
  {
  }

  lemma FirstFragmentBytes(f: Frame, ip: nat)
    requires ip + 20 <= |f|
    ensures FirstFragment4(f, ip) <==> !LaterFragment4(f, ip)
  {
    OffsetBytes(f[ip + 6], f[ip + 7]);
  }

  lemma OffsetBytes(hi: bv8, lo: bv8)
    ensures (((hi as bv16) << 8) | (lo as bv16)) & 0x1fff == 0 <==> hi & 0x1f == 0 && lo == 0
  {
  }

  /** The program either read a trustworthy transport or holds no ports and no type. */
  lemma SeenIsTransportOrNothing(f: Frame, p: Payload)
    requires HasHeader(f, p)
    ensures Transport(f, p).Some? ==> SeenAt(f, p) == Transport(f, p).value
    ensures Transport(f, p).None? ==> SeenAt(f, p).l4 == NO_L4
  {
    hide ReadChain, ChainLength, WalkChain, Be16, FirstFragment4, LaterFragment4, ParseL4, CutOff, HeaderSays;
    if p.kind == ETH_IPV6 {
      var w := WalkChain(f, p.off + 40, f[p.off + 6], MAX_EXT);
      BoundedWalkAgrees(f, p.off + 40, f[p.off + 6], MAX_EXT);
      if w.AtL4? {
        ParseReadsBytes(f, w.off, w.proto, true);
        NoExtHeader(f, w.off, w.proto);
      }
    } else {
      FirstFragmentBytes(f, p.off);
      var l4 := p.off + 4 * (f[p.off] & 0x0f) as nat;
      if l4 <= |f| {
        ParseReadsBytes(f, l4, f[p.off + 9], false);
      }
    }
  }

  lemma NoExtHeader(f: Frame, off: nat, proto: bv8)
    ensures IsExt(proto) ==> ParseL4(f, off, proto, true) == Some(NO_L4)
  {
  }

  /**
   When the program counts a judged frame as a parse error: exactly for a bad IPv4 header
   length, an IPv6 chain cut off within its first eight headers, or a transport header cut
   off where one has to be.
   */
  lemma BadExactly(f: Frame, p: Payload)
    requires HasHeader(f, p)
    ensures SeenAt(f, p).bad <==>
            if p.kind == ETH_IP then
              var l4 := p.off + 4 * (f[p.off] & 0x0f) as nat;
              l4 < p.off + 20 || l4 > |f| || (!LaterFragment4(f, p.off) && CutOff(f, l4, f[p.off + 9], false))
            else
              var w := ReadChain(f, p.off + 40, f[p.off + 6]);
              && ChainLength(f, p.off + 40, f[p.off + 6]) <= 8
              && (w.Truncated? || (w.AtL4? && CutOff(f, w.off, w.proto, true)))
  {
    hide ReadChain, ChainLength, WalkChain, Be16, FirstFragment4, LaterFragment4, ParseL4, CutOff, HeaderSays;
    if p.kind == ETH_IPV6 {
      var w := WalkChain(f, p.off + 40, f[p.off + 6], MAX_EXT);
      BoundedWalkAgrees(f, p.off + 40, f[p.off + 6], MAX_EXT);
      if w.AtL4? {
        ParseReadsBytes(f, w.off, w.proto, true);
        NoExtHeader(f, w.off, w.proto);
      }
    } else {
      FirstFragmentBytes(f, p.off);
      var l4 := p.off + 4 * (f[p.off] & 0x0f) as nat;
      if l4 <= |f| {
        ParseReadsBytes(f, l4, f[p.off + 9], false);
      }
    }
  }

  /** A later IPv4 fragment has no ports, whatever its payload looks like. */
  lemma LaterFragmentHasNoPorts(f: Frame, p: Payload)
    requires HasHeader(f, p) && p.kind == ETH_IP && (f[p.off + 6] & 0x1f != 0 || f[p.off + 7] != 0)
    ensures SeenAt(f, p).l4 == NO_L4 && Transport(f, p).None?
  {
    SeenIsTransportOrNothing(f, p);
  }

  /** A fragment header stops the chain exactly when its offset bytes are not zero. */
  lemma FragmentHeaderStops(f: Frame, off: nat)
    requires off + 8 <= |f|
    ensures ExtStep(f, off, 44) == if f[off + 2] != 0 || f[off + 3] & 0xf8 != 0
                                   then LaterFragment(off + 8, f[off]) else Next(off + 8, f[off])
  {
    FragmentBytes(f[off + 2], f[off + 3]);
  }

  lemma FragmentBytes(hi: bv8, lo: bv8)
    ensures (((hi as bv16) << 8) | (lo as bv16)) & 0xfff8 == 0 <==> hi == 0 && lo & 0xf8 == 0
  {
  }

  /**
   As long as port zero is not an allowed port, the program exempts a frame exactly when
   that is right: without a trustworthy transport header no frame gains a TCP, DHCP or
   NDP exemption.
   */
  lemma ExemptsOnlyRightly(m: Maps, f: Frame, p: Payload, e: Ends)
    requires HasHeader(f, p) && e == EndsAt(f, p)
    requires NonZeroPorts(m.cfg)
    ensures Exempts(m, e, SeenAt(f, p), HopLimit(f, p)) <==> RightlyExempt(m, e, Transport(f, p), HopLimit(f, p))
  {
    hide Hits, Transport, SeenAt;
    SeenIsTransportOrNothing(f, p);
  }

  /** After a commit the program's port test accepts exactly the configured ports. */
  lemma CommitKeepsPorts(armed: bool, conf: Config, port: bv16)
    requires |conf.ports| <= MAX_ALLOW_PORTS
    ensures PortAllowed(Committed(armed, conf), port) <==> port in conf.ports
  {
    var c := Committed(armed, conf);
    if port in conf.ports {
      var i :| 0 <= i < |conf.ports| && conf.ports[i] == port;
      assert c.ports[i] == port;
    }
  }

  /** Port zero is allowed only if it was configured. */
  lemma CommitKeepsNonZero(armed: bool, conf: Config)
    requires forall i | 0 <= i < |conf.ports| :: conf.ports[i] != 0
    ensures NonZeroPorts(Committed(armed, conf)) && |Committed(armed, conf).ports| == MAX_ALLOW_PORTS
  {
  }
}
