/**
 The text side of the daemon: the control-socket reader and ttl of src/ctl_server.c, the
 prefix length of src/ipaddr.c, and the port list of src/config.c.
 */
module ControlLine {
  import opened Cidrs
  import opened KernelState

  // ---------------------------------------------------------------- reading one command

  const REQ_SIZE: nat := 256

  /** How the peer's bytes end: a closed write side, or a read error. */
  datatype End = Eof | ReadError

  /** What the server makes of a connection. */
  datatype Request = Silence | BadCommand | TooLong | Command(line: string)

  /** The position of the first c in s, or |s|. */
  function Find(s: string, c: char): (i: nat)
    ensures i <= |s| && c !in s[..i]
    ensures i < |s| ==> s[i] == c
  {
    if s == [] then 0
    else if s[0] == c then 0
    else
      var i := 1 + Find(s[1..], c);
      assert s[..i] == [s[0]] + s[1..][..i - 1];
      i
  }

  /** The request in a byte stream, with no notion of reads. */
  function Extract(stream: string, end: End): Request {
    var window := Window(stream);
    var n := Find(window, '\n');
    if '\0' in window[..n] then BadCommand
    else if n < |window| then Command(window[..n])
    else if |window| == REQ_SIZE - 1 then TooLong
    else if end == ReadError || window == [] then Silence
    else Command(window)
  }

  lemma FindUnique(s: string, c: char, i: nat)
    requires i <= |s| && c !in s[..i] && (i < |s| ==> s[i] == c)
    ensures Find(s, c) == i
  {
  }

  function Window(stream: string): string {
    if |stream| < REQ_SIZE then stream else stream[..REQ_SIZE - 1]
  }

  /** What a chunk of the stream decides. */
  lemma ChunkDecides(stream: string, end: End, used: nat, n: nat)
    requires used < REQ_SIZE - 1 && n > 0 && used + n <= |stream| && used + n <= REQ_SIZE - 1
    requires '\n' !in stream[..used] && '\0' !in stream[..used]
    ensures var chunk := stream[used..used + n]; var len := Find(chunk, '\n');
            && ('\0' in chunk[..len] ==> Extract(stream, end) == BadCommand)
            && ('\0' !in chunk[..len] ==> '\n' !in stream[..used + len] && '\0' !in stream[..used + len])
            && ('\0' !in chunk[..len] && len < n ==> Extract(stream, end) == Command(stream[..used + len]))
            && ('\0' !in chunk[..len] && len == n && used + n == REQ_SIZE - 1 ==> Extract(stream, end) == TooLong)
  {
    hide Find;
    var chunk := stream[used..used + n];
    var len := Find(chunk, '\n');
    var window := Window(stream);
    assert stream[..used + len] == stream[..used] + chunk[..len];
    assert window[..used + len] == stream[..used + len];
    if len < n {
      assert window[used + len] == chunk[len];
      FindUnique(window, '\n', used + len);
    } else {
      FirstAfter(window, '\n', used + len);
      if '\0' in chunk[..len] {
        var k :| 0 <= k < len && chunk[k] == '\0';
        assert window[..Find(window, '\n')][used + k] == '\0';
      } else if used + n == REQ_SIZE - 1 {
        assert window[..|window|] == window;
      }
    }
  }

  lemma FirstAfter(s: string, c: char, i: nat)
    requires i <= |s| && c !in s[..i]
    ensures Find(s, c) >= i
  {
  }

  lemma StreamEnds(stream: string, end: End)
    requires |stream| < REQ_SIZE - 1 && '\n' !in stream && '\0' !in stream
    ensures Extract(stream, end) == if end == ReadError || stream == [] then Silence else Command(stream)
  {
  }

  /** One `read`: as few or as many of the waiting bytes as the socket likes, after those in use. */
  method Receive(req: array<char>, used: nat, stream: string) returns (n: nat)
    requires req.Length == REQ_SIZE && used < REQ_SIZE - 1 && used < |stream| && req[..used] == stream[..used]
    modifies req
    ensures 1 <= n && used + n <= REQ_SIZE - 1 && used + n <= |stream|
    ensures req[..used + n] == stream[..used + n]
  {
    n :| 1 <= n <= REQ_SIZE - 1 - used && n <= |stream| - used;
    forall k | 0 <= k < n {
      req[used + k] := stream[used + k];
    }
    assert forall k | 0 <= k < used :: req[k] == old(req[..used])[k];
  }

  /**
   The read loop of `vg_ctl_server_handle`: reads may split the stream anywhere and may be
   interrupted; the request is that of the stream however it is split, and the buffer
   index stays below 256.
   */
  method ReadRequest(stream: string, end: End, interrupts: nat) returns (r: Request)
    ensures r == Extract(stream, end)
  {
    hide Find, Extract;
    var req := new char[REQ_SIZE](_ => ' ');
    var used: nat, intr := 0, interrupts;
    while true
      invariant used < REQ_SIZE - 1 && used <= |stream| && req[..used] == stream[..used]
      invariant '\n' !in stream[..used] && '\0' !in stream[..used]
      decreases |stream| - used, intr
    {
      if intr > 0 {
        var interrupted: bool := *;
        if interrupted {
          intr := intr - 1;
          continue;
        }
      }
      if used == |stream| {
        assert stream[..used] == stream;
        StreamEnds(stream, end);
        return if end == ReadError || used == 0 then Silence else Command(req[..used]);
      }
      var n := Receive(req, used, stream);
      var chunk := req[used..used + n];
      assert chunk == req[..used + n][used..] == stream[used..used + n];
      ChunkDecides(stream, end, used, n);
      var len := Find(chunk, '\n');
      if '\0' in chunk[..len] {
        return BadCommand;
      }
      used := used + len;
      assert req[..used] == stream[..used];
      if len < n {
        return Command(req[..used]);
      }
      if used == REQ_SIZE - 1 {
        return TooLong;
      }
    }
  }

  /** A command is a prefix of the stream of at most 254 bytes, without newline or NUL. */
  lemma CommandShape(stream: string, end: End)
    requires Extract(stream, end).Command?
    ensures var line := Extract(stream, end).line;
            |line| <= REQ_SIZE - 2 && line <= stream && '\n' !in line && '\0' !in line
  {
  }

  /** Every command of at most 254 bytes gets through, ended by a newline or by the end of the stream. */
  lemma CommandGetsThrough(line: string, rest: string, end: End)
    requires |line| <= 254 && '\n' !in line && '\0' !in line
    ensures Extract(line + ['\n'] + rest, end) == Command(line)
    ensures line != [] ==> Extract(line, Eof) == Command(line)
  {
    var s := line + ['\n'] + rest;
    var w := Window(s);
    assert w[|line|] == '\n' && w[..|line|] == line;
    FindUnique(w, '\n', |line|);
    if line != [] {
      StreamEnds(line, Eof);
    }
  }

  /** What is no command: a NUL before the end of the line, 255 bytes without an end, nothing, or a read error. */
  lemma OtherStreams(s: string, end: End)
    requires '\n' !in s
    ensures '\0' in Window(s) ==> Extract(s, end) == BadCommand
    ensures '\0' !in Window(s) && |s| >= 255 ==> Extract(s, end) == TooLong
    ensures '\0' !in s && |s| < 255 && (s == [] || end == ReadError) ==> Extract(s, end) == Silence
  {
    var w := Window(s);
    FindUnique(w, '\n', |w|);
    assert w[..|w|] == w;
  }

  // ---------------------------------------------------------------- digits

  predicate IsDigit(c: char) {
    '0' <= c <= '9'
  }

  predicate AllDigits(s: string) {
    forall i | 0 <= i < |s| :: IsDigit(s[i])
  }

  /** The number a string of decimal digits denotes. */
  function Decimal(s: string): nat
    requires AllDigits(s)
  {
    if s == [] then 0 else 10 * Decimal(s[..|s| - 1]) + (s[|s| - 1] as int - '0' as int)
  }

  function Power(b: nat, n: nat): nat {
    if n == 0 then 1 else b * Power(b, n - 1)
  }

  /** Digit by digit from the front: each counts for itself times ten to the number of digits behind it. */
  lemma {:induction false} DecimalByPowers(s: string)
    requires AllDigits(s) && s != []
    ensures Decimal(s) == (s[0] as int - '0' as int) * Power(10, |s| - 1) + Decimal(s[1..])
  {
    var n := |s| - 1;
    if n > 0 {
      DecimalByPowers(s[..n]);
      assert s[..n][1..] == s[1..][..n - 1] && s[1..][n - 1] == s[n];
    }
  }

  lemma {:induction false} DecimalGrows(s: string, n: nat)
    requires AllDigits(s) && n <= |s|
    ensures AllDigits(s[..n]) && Decimal(s[..n]) <= Decimal(s)
  {
    if n < |s| {
      assert AllDigits(s[..|s| - 1]);
      DecimalGrows(s[..|s| - 1], n);
      assert s[..|s| - 1][..n] == s[..n];
    } else {
      assert s[..n] == s;
    }
  }

  /**
   The digit loop shared by `parse_ttl` and `vg_parse_cidr_len`, with 32-bit arithmetic:
   a limit tested before each digit means the value cannot wrap, and it rejects only
   numbers above the limit.
   */
  method ReadDigits(s: string, limit: nat) returns (r: Option<nat>)
    requires limit < 400000000
    ensures !AllDigits(s) ==> r.None?
    ensures AllDigits(s) ==> (r.Some? ==> r.value == Decimal(s)) && (r.None? ==> Decimal(s) > limit)
  {
    var v: nat := 0;
    for i := 0 to |s|
      invariant AllDigits(s[..i]) && v == Decimal(s[..i])
    {
      assert s[..i + 1][..i] == s[..i];
      if s[i] < '0' || s[i] > '9' || v > limit {
        if AllDigits(s) {
          DecimalGrows(s, i);
        }
        return None;
      }
      v := (v * 10 + (s[i] as int - '0' as int)) % TWO32;
    }
    assert s[..|s|] == s;
    return Some(v);
  }

  const MAX_DROP_TTL: nat := 31536000

  /** The text form of a ttl option and what it stands for. */
  ghost predicate IsTtl(s: string, v: nat) {
    && |s| >= 4 && s[..4] == "ttl="
    && AllDigits(s[4..]) && v == Decimal(s[4..]) && 1 <= v <= MAX_DROP_TTL
  }

  /** `parse_ttl`. */
  method ParseTtl(s: string) returns (r: Option<nat>)
    ensures r.Some? ==> IsTtl(s, r.value)
    ensures r.None? ==> forall v :: !IsTtl(s, v)
  {
    if |s| < 4 || s[..4] != "ttl=" {
      return None;
    }
    r := ReadDigits(s[4..], MAX_DROP_TTL);
    if r.Some? && (r.value < 1 || r.value > MAX_DROP_TTL) {
      r := None;
    }
  }

  /** The prefix length after the slash, for a family of the given width in bits. */
  method ParsePrefixLen(s: string, width: nat) returns (r: Option<nat>)
    requires width == 32 || width == 128
    ensures r.Some? <==> s != [] && AllDigits(s) && Decimal(s) <= width
    ensures r.Some? ==> r.value == Decimal(s)
  {
    if s == [] {
      return None;
    }
    r := ReadDigits(s, 128);
    if r.Some? && r.value > width {
      r := None;
    }
  }

  const CIDR_SIZE: nat := 128

  /** `inet_pton`: what the address part of a text stands for, if anything. */
  type Pton = (Family, string) -> Option<seq<bv8>>

  ghost predicate GivesAddresses(pton: Pton) {
    forall f, a :: pton(f, a).Some? ==> |pton(f, a).value| == Width(f)
  }

  /** The address part of a text, and the family its look decides. */
  function AddrPart(s: string): string {
    s[..Find(s, '/')]
  }

  function FamilyOf(addr: string): Family {
    if ':' in addr then V6 else V4
  }

  /** Which texts are prefixes: short enough, an address, and after a slash a length within the width. */
  ghost predicate IsCidrText(s: string, pton: Pton) {
    var k := Find(s, '/');
    var f := FamilyOf(AddrPart(s));
    && |s| < CIDR_SIZE && '\0' !in s && pton(f, AddrPart(s)).Some?
    && (k < |s| ==> k + 1 < |s| && AllDigits(s[k + 1..]) && Decimal(s[k + 1..]) <= 8 * Width(f))
  }

  /** The prefix such a text stands for, masked; without a slash it is a single address. */
  ghost function CidrOf(s: string, pton: Pton): Cidr
    requires GivesAddresses(pton) && IsCidrText(s, pton)
  {
    var k := Find(s, '/');
    var f := FamilyOf(AddrPart(s));
    Mask(RawCidr(f, pton(f, AddrPart(s)).value, if k < |s| then Decimal(s[k + 1..]) else 8 * Width(f)))
  }

  /** `vg_parse_cidr_len`. */
  method ParseCidr(s: string, pton: Pton) returns (r: Option<Cidr>)
    requires GivesAddresses(pton)
    ensures r.Some? <==> IsCidrText(s, pton)
    ensures r.Some? ==> r.value == CidrOf(s, pton) && Canonical(r.value)
  {
    hide Find, Decimal, MaskBytes;
    if |s| >= CIDR_SIZE || '\0' in s {
      return None;
    }
    var k := Find(s, '/');
    var f := FamilyOf(s[..k]);
    var plen := 8 * Width(f);
    if k < |s| {
      var digits := ParsePrefixLen(s[k + 1..], 8 * Width(f));
      if digits.None? {
        return None;
      }
      plen := digits.value;
    }
    var addr := pton(f, s[..k]);
    if addr.None? {
      return None;
    }
    var c: Cidr := RawCidr(f, addr.value, plen);
    MaskKeepsAddresses(c);
    return Some(Mask(c));
  }

  /** A text without a slash stands for exactly the address it spells. */
  lemma BareAddressIsOneHost(s: string, pton: Pton)
    requires GivesAddresses(pton) && IsCidrText(s, pton) && '/' !in s
    ensures var f := FamilyOf(s);
            pton(f, s).Some? && Addresses(CidrOf(s, pton)) == iset{RawHost(f, pton(f, s).value)}
  {
    var f := FamilyOf(AddrPart(s));
    assert AddrPart(s) == s;
    var h: Host := RawHost(f, pton(f, s).value);
    HostIsOneAddress(h);
    MaskKeepsAddresses(HostCidr(h));
  }

  /** With a slash, the addresses are those that agree on as many leading bits as the digits say. */
  lemma SlashGivesLength(s: string, pton: Pton, k: nat)
    requires GivesAddresses(pton) && IsCidrText(s, pton) && k < |s| && s[k] == '/' && '/' !in s[..k]
    ensures var f := FamilyOf(s[..k]);
            && pton(f, s[..k]).Some? && AllDigits(s[k + 1..]) && Decimal(s[k + 1..]) <= 8 * Width(f)
            && Addresses(CidrOf(s, pton)) == Addresses(RawCidr(f, pton(f, s[..k]).value, Decimal(s[k + 1..])))
  {
    FindUnique(s, '/', k);
    var f := FamilyOf(s[..k]);
    MaskKeepsAddresses(RawCidr(f, pton(f, s[..k]).value, Decimal(s[k + 1..])));
  }

  /** Leading zeros are read and change nothing, so a prefix length may have more than three digits. */
  lemma {:induction false} LeadingZeros(z: string, s: string)
    requires AllDigits(s) && forall i | 0 <= i < |z| :: z[i] == '0'
    ensures AllDigits(z + s) && Decimal(z + s) == Decimal(s)
  {
    if s != [] {
      assert (z + s)[..|z + s| - 1] == z + s[..|s| - 1];
      LeadingZeros(z, s[..|s| - 1]);
    } else if z != [] {
      assert z + s == z && z[..|z| - 1] + [] == z[..|z| - 1];
      LeadingZeros(z[..|z| - 1], []);
    }
  }

  /**
   `parse_allow_ports`, on the values of its tokens: empty tokens are skipped, a malformed
   one is None.
   */
  method ParseAllowPorts(tokens: seq<Option<nat>>) returns (r: Option<seq<bv16>>)
    ensures r.Some? <==> |tokens| <= MAX_ALLOW_PORTS && forall i | 0 <= i < |tokens| :: tokens[i].Some? && 1 <= tokens[i].value <= 65535
    ensures r.Some? ==> |r.value| == |tokens| && forall i | 0 <= i < |tokens| :: r.value[i] == tokens[i].value as bv16 && r.value[i] != 0
  {
    var ports: seq<bv16> := [];
    for k := 0 to |tokens|
      invariant |ports| == k <= MAX_ALLOW_PORTS
      invariant forall i | 0 <= i < k :: tokens[i].Some? && 1 <= tokens[i].value <= 65535
      invariant forall i | 0 <= i < k :: ports[i] == tokens[i].value as bv16 && ports[i] != 0
    {
      if k >= MAX_ALLOW_PORTS {
        return None;
      }
      if tokens[k].None? || tokens[k].value < 1 || tokens[k].value > 65535 {
        return None;
      }
      ports := ports + [tokens[k].value as bv16];
    }
    return Some(ports);
  }

}
