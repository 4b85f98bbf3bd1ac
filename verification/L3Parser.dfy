/** The two parsers of a frame: the generic TC parser with its IPv4/UDP projection, and the
    FakeTCP L3 parser for IPv4 and IPv6. A frame is its linear bytes `data`, addressable
    through packet pointers, and its full length `frameLen`, which may be larger. */
module L3Parser {
  import opened Bytes
  import opened Checksum

  const ICMP: Byte := 1
  const TCP: Byte := 6
  const UDP: Byte := 17
  const NEXTHDR_HOP: Byte := 0
  const NEXTHDR_ROUTING: Byte := 43
  const NEXTHDR_FRAGMENT: Byte := 44
  const NEXTHDR_AUTH: Byte := 51
  const NEXTHDR_ICMPV6: Byte := 58
  const NEXTHDR_NONE: Byte := 59
  const NEXTHDR_DEST: Byte := 60
  const MAX_EXTENSION_HEADERS := 8
  const MAX_EXTENSION_BYTES := 512

  datatype Family = IPV4 | IPV6

  datatype Status =
    | OK | SAFE_BYPASS | TRUNCATED | MALFORMED | UNSUPPORTED
    | FIRST_FRAGMENT | NONINITIAL_FRAGMENT | EXTENSION_TOO_DEEP

  datatype Info = Info(
    l3Off: nat, l3Len: nat, l4Off: nat, l4Len: nat, l3HeaderLen: nat, l4HeaderLen: nat,
    fragmentOffset: nat, family: Family, protocol: Byte, extensions: nat,
    options: bool, df: bool, mf: bool, hasExtensions: bool, fragment: bool)

  datatype Parsed = Parsed(status: Status, info: Info)

  function Fresh(l3Off: nat, family: Family): Info {
    Info(l3Off, 0, 0, 0, 0, 0, 0, family, 0, 0, false, false, false, false, false)
  }

  function U16(data: seq<Byte>, off: nat): (n: nat)
    requires off + 2 <= |data|
    ensures n < 0x1_0000
  {
    (data[off] as int) * 256 + (data[off + 1] as int)
  }

  // ----- IPv4 header fields -----

  predicate HasFixedHeader(data: seq<Byte>, off: nat) { off + 20 <= |data| }

  function Version(data: seq<Byte>, off: nat): Byte requires HasFixedHeader(data, off) { data[off] >> 4 }

  function HeaderLen(data: seq<Byte>, off: nat): nat requires HasFixedHeader(data, off) {
    ((data[off] & 0x0f) as int) * 4
  }

  function TotalLen(data: seq<Byte>, off: nat): nat requires HasFixedHeader(data, off) { U16(data, off + 2) }

  predicate Reserved(data: seq<Byte>, off: nat) requires HasFixedHeader(data, off) { data[off + 6] & 0x80 != 0 }

  predicate DontFragment(data: seq<Byte>, off: nat) requires HasFixedHeader(data, off) { data[off + 6] & 0x40 != 0 }

  predicate MoreFragments(data: seq<Byte>, off: nat) requires HasFixedHeader(data, off) { data[off + 6] & 0x20 != 0 }

  function FragmentOffset(data: seq<Byte>, off: nat): nat requires HasFixedHeader(data, off) {
    ((data[off + 6] & 0x1f) as int) * 256 + (data[off + 7] as int)
  }

  function Protocol(data: seq<Byte>, off: nat): Byte requires HasFixedHeader(data, off) { data[off + 9] }

  // ----- FakeTCP L3 parser -----

  function ValidateTransport(data: seq<Byte>, frameLen: nat, info: Info): Parsed {
    if info.l4Off + info.l4Len > frameLen then Parsed(TRUNCATED, info)
    else if info.protocol == UDP then
      if info.l4Len < 8 then Parsed(MALFORMED, info)
      else if info.l4Off + 8 > |data| then Parsed(TRUNCATED, info)
      else
        var udpLen := U16(data, info.l4Off + 4);
        if udpLen < 8 || udpLen != info.l4Len then Parsed(MALFORMED, info)
        else Parsed(OK, info.(l4HeaderLen := 8))
    else if info.protocol == TCP then
      if info.l4Len < 20 then Parsed(MALFORMED, info)
      else if info.l4Off + 20 > |data| then Parsed(TRUNCATED, info)
      else
        var tcpLen := ((data[info.l4Off + 12] >> 4) as int) * 4;
        if tcpLen < 20 || tcpLen > info.l4Len then Parsed(MALFORMED, info)
        else if info.l4Off + tcpLen > |data| then Parsed(TRUNCATED, info)
        else Parsed(OK, info.(l4HeaderLen := tcpLen))
    else Parsed(UNSUPPORTED, info)
  }

  function ParseIpv4(data: seq<Byte>, frameLen: nat, off: nat): Parsed {
    var info := Fresh(off, IPV4);
    if off > frameLen || off + 20 > |data| then Parsed(TRUNCATED, info)
    else if Version(data, off) != 4 then Parsed(MALFORMED, info)
    else
      var ihl := HeaderLen(data, off);
      var total := TotalLen(data, off);
      if ihl < 20 then Parsed(MALFORMED, info)
      else if ihl > frameLen - off || off + ihl > |data| then Parsed(TRUNCATED, info)
      else if total < ihl then Parsed(MALFORMED, info)
      else if total > frameLen - off then Parsed(TRUNCATED, info)
      else
        var shaped := info.(l3Len := total, l3HeaderLen := ihl, l4Off := off + ihl, l4Len := total - ihl,
                            protocol := Protocol(data, off), options := ihl > 20);
        if Reserved(data, off) then Parsed(MALFORMED, shaped)
        else
          var df := DontFragment(data, off);
          var mf := MoreFragments(data, off);
          var fragOff := FragmentOffset(data, off);
          var marked := shaped.(df := df, mf := mf, fragment := mf || fragOff != 0, fragmentOffset := fragOff * 8);
          if df && (mf || fragOff != 0) then Parsed(MALFORMED, shaped.(df := df))
          else if fragOff != 0 then Parsed(NONINITIAL_FRAGMENT, marked)
          else if mf then Parsed(FIRST_FRAGMENT, marked)
          else if Protocol(data, off) == ICMP then Parsed(SAFE_BYPASS, marked)
          else if Protocol(data, off) != TCP && Protocol(data, off) != UDP then Parsed(UNSUPPORTED, marked)
          else ValidateTransport(data, frameLen, marked)
  }

  // The sole narrower gate before any transform.
  function ManagedTransformStatus(info: Info, protocol: Byte): Status {
    if info.family != IPV4 || info.l3HeaderLen != 20 || info.protocol != protocol then UNSUPPORTED
    else if (protocol == UDP && info.l4HeaderLen == 8) || (protocol == TCP && info.l4HeaderLen == 20) then OK
    else UNSUPPORTED
  }

  // ----- Generic TC parser, IPv4 branch -----

  datatype Generic = PARSE_OK | PARSE_SHORT | PARSE_NOT_UDP | PARSE_NON_FIRST_FRAGMENT | PARSE_FIRST_FRAGMENT

  /** What the generic parser hands over: packet_info and the header scalars it observed. */
  datatype Packet = Packet(
    ipOff: nat, udpOff: nat, payloadOff: nat, payloadLen: nat, srcPort: nat, dstPort: nat, csumZero: bool,
    totalLen: nat, headerLen: nat, version: Byte, protocol: Byte,
    reserved: bool, df: bool, mf: bool, fragOff: nat, udpLen: nat, frameLen: nat)

  datatype GenericParsed = GenericParsed(status: Generic, packet: Packet)

  const NO_PACKET := Packet(0, 0, 0, 0, 0, 0, false, 0, 0, 0, 0, false, false, false, 0, 0, 0)

  function ParseUdpAt(data: seq<Byte>, seen: Packet, off: nat, udpOff: nat, requireWord: bool): GenericParsed {
    if udpOff + 8 > |data| then GenericParsed(PARSE_SHORT, seen)
    else
      var udpLen := U16(data, udpOff + 4);
      if udpLen < 8 then GenericParsed(PARSE_SHORT, seen.(udpLen := udpLen))
      else
        var packet := seen.(
          udpLen := udpLen, ipOff := off, udpOff := udpOff, payloadOff := udpOff + 8, payloadLen := udpLen - 8,
          srcPort := U16(data, udpOff), dstPort := U16(data, udpOff + 2), csumZero := U16(data, udpOff + 6) == 0);
        if requireWord && udpLen - 8 < 4 then GenericParsed(PARSE_SHORT, packet)
        else GenericParsed(PARSE_OK, packet)
  }

  function ParseGeneric(data: seq<Byte>, frameLen: nat, off: nat): GenericParsed {
    var none := NO_PACKET.(frameLen := frameLen);
    if off + 20 > |data| then GenericParsed(PARSE_SHORT, none)
    else
      var ihl := HeaderLen(data, off);
      if ihl < 20 || off + ihl > |data| then GenericParsed(PARSE_SHORT, none)
      else
        var seen := none.(
          totalLen := TotalLen(data, off), headerLen := ihl, version := Version(data, off),
          protocol := Protocol(data, off), reserved := Reserved(data, off), df := DontFragment(data, off),
          mf := MoreFragments(data, off), fragOff := FragmentOffset(data, off));
        if seen.protocol != UDP then GenericParsed(PARSE_NOT_UDP, seen)
        else if seen.fragOff != 0 then GenericParsed(PARSE_NON_FIRST_FRAGMENT, seen)
        else
          var parsed := ParseUdpAt(data, seen, off, off + ihl, !seen.mf);
          if parsed.status == PARSE_OK && seen.mf then GenericParsed(PARSE_FIRST_FRAGMENT, parsed.packet) else parsed
  }

  // Projection of the observed scalars onto the L3 descriptor.
  function Project(p: Packet): Parsed {
    var info := Fresh(p.ipOff, IPV4);
    if p.version != 4 || p.headerLen < 20 then Parsed(MALFORMED, info)
    else if p.ipOff > p.frameLen || p.totalLen > p.frameLen - p.ipOff then Parsed(TRUNCATED, info)
    else if p.totalLen < p.headerLen then Parsed(MALFORMED, info)
    else
      var shaped := info.(l3Len := p.totalLen, l3HeaderLen := p.headerLen, l4Off := p.ipOff + p.headerLen,
                          l4Len := p.totalLen - p.headerLen, protocol := p.protocol, options := p.headerLen > 20);
      if p.reserved then Parsed(MALFORMED, shaped)
      else
        var marked := shaped.(df := p.df);
        if p.df && (p.mf || p.fragOff != 0) then Parsed(MALFORMED, marked)
        else if p.fragOff != 0 then Parsed(NONINITIAL_FRAGMENT, marked)
        else if p.mf then Parsed(FIRST_FRAGMENT, marked)
        else if p.protocol != UDP then Parsed(UNSUPPORTED, marked)
        else if p.udpLen < 8 || p.udpLen != marked.l4Len then Parsed(MALFORMED, marked)
        else Parsed(OK, marked.(l4HeaderLen := 8))
  }

  function StatusFromGeneric(g: Generic): Status {
    match g
    case PARSE_SHORT => TRUNCATED
    case PARSE_FIRST_FRAGMENT => FIRST_FRAGMENT
    case PARSE_NON_FIRST_FRAGMENT => NONINITIAL_FRAGMENT
    case _ => UNSUPPORTED
  }

  /** The egress descriptor: generic parser, then projection. */
  function ParseEgress(data: seq<Byte>, frameLen: nat, off: nat): Parsed {
    var g := ParseGeneric(data, frameLen, off);
    if g.status == PARSE_OK then Project(g.packet) else Parsed(StatusFromGeneric(g.status), Fresh(0, IPV4))
  }

  /** A whole UDP datagram in one unfragmented IPv4 packet (section 3.1 of RFC 791): headers in
      the linear data, the declared packet inside the frame and exactly filled by the datagram. */
  predicate WholeUdp(data: seq<Byte>, frameLen: nat, off: nat) {
    && off <= frameLen && off + 20 <= |data| && Version(data, off) == 4
    && var ihl, total := HeaderLen(data, off), TotalLen(data, off);
    && 20 <= ihl && off + ihl + 8 <= |data| && off + total <= frameLen
    && Protocol(data, off) == UDP
    && !Reserved(data, off) && !MoreFragments(data, off) && FragmentOffset(data, off) == 0
    && 8 <= U16(data, off + ihl + 4) == total - ihl
  }

  function UdpInfo(data: seq<Byte>, off: nat): Info
    requires off + 20 <= |data| && HeaderLen(data, off) <= TotalLen(data, off)
  {
    var ihl, total := HeaderLen(data, off), TotalLen(data, off);
    Info(off, total, off + ihl, total - ihl, ihl, 8, 0, IPV4, UDP, 0, ihl > 20, DontFragment(data, off), false,
         false, false)
  }

  lemma L3AcceptsWholeUdp(data: seq<Byte>, frameLen: nat, off: nat)
    requires WholeUdp(data, frameLen, off)
    ensures ParseIpv4(data, frameLen, off) == Parsed(OK, UdpInfo(data, off))
  {}

  function TcpHeaderLen(data: seq<Byte>, at: nat): nat
    requires at + 20 <= |data|
  {
    ((data[at + 12] >> 4) as int) * 4
  }

  /** The same for a TCP segment, whose header may carry options. */
  predicate WholeTcp(data: seq<Byte>, frameLen: nat, off: nat) {
    && off <= frameLen && off + 20 <= |data| && Version(data, off) == 4
    && var ihl, total := HeaderLen(data, off), TotalLen(data, off);
    && 20 <= ihl && off + ihl + 20 <= |data| && off + total <= frameLen
    && Protocol(data, off) == TCP
    && !Reserved(data, off) && !MoreFragments(data, off) && FragmentOffset(data, off) == 0
    && var tcpLen := TcpHeaderLen(data, off + ihl);
    && 20 <= tcpLen <= total - ihl && off + ihl + tcpLen <= |data|
  }

  lemma L3AcceptsWholeTcp(data: seq<Byte>, frameLen: nat, off: nat)
    requires WholeTcp(data, frameLen, off)
    ensures var p := ParseIpv4(data, frameLen, off);
      && p.status == OK && p.info.family == IPV4 && p.info.protocol == TCP && p.info.l3Len == TotalLen(data, off)
      && p.info.l3HeaderLen == HeaderLen(data, off)
      && p.info.l4HeaderLen == TcpHeaderLen(data, off + HeaderLen(data, off))
  {}

  lemma L3OnlyWholeUdp(data: seq<Byte>, frameLen: nat, off: nat)
    requires var p := ParseIpv4(data, frameLen, off); p.status == OK && p.info.protocol == UDP
    ensures WholeUdp(data, frameLen, off)
  {}

  // What the projection demands of the scalars it is handed.
  predicate WholeScalars(p: Packet) {
    && p.version == 4 && 20 <= p.headerLen <= p.totalLen && p.ipOff + p.totalLen <= p.frameLen
    && p.protocol == UDP && !p.reserved && !p.mf && p.fragOff == 0
    && 8 <= p.udpLen == p.totalLen - p.headerLen
  }

  lemma ProjectIffWhole(p: Packet)
    ensures Project(p).status == OK <==> WholeScalars(p)
    ensures Project(p).status == OK ==>
              Project(p).info ==
              Info(p.ipOff, p.totalLen, p.ipOff + p.headerLen, p.totalLen - p.headerLen, p.headerLen, 8, 0, IPV4, UDP,
                   0, p.headerLen > 20, p.df, false, false, false)
  {}

  // The scalars of a packet the generic parser accepts are those of the frame.
  lemma GenericScalars(data: seq<Byte>, frameLen: nat, off: nat)
    requires ParseGeneric(data, frameLen, off).status == PARSE_OK
    ensures var p := ParseGeneric(data, frameLen, off).packet;
      && off + 20 <= |data| && p.ipOff == off && p.frameLen == frameLen && p.version == Version(data, off)
      && p.headerLen == HeaderLen(data, off) && p.totalLen == TotalLen(data, off) && p.protocol == Protocol(data, off)
      && p.reserved == Reserved(data, off) && p.df == DontFragment(data, off) && p.mf == MoreFragments(data, off)
      && p.fragOff == FragmentOffset(data, off)
      && off + p.headerLen + 8 <= |data| && p.udpLen == U16(data, off + p.headerLen + 4)
  {}

  lemma ProjectionAcceptsWholeUdp(data: seq<Byte>, frameLen: nat, off: nat)
    requires |data| <= frameLen && ParseGeneric(data, frameLen, off).status == PARSE_OK
    ensures var p := Project(ParseGeneric(data, frameLen, off).packet);
      && (p.status == OK <==> WholeUdp(data, frameLen, off))
      && (p.status == OK ==> p.info == UdpInfo(data, off))
  {
    GenericScalars(data, frameLen, off);
    ProjectIffWhole(ParseGeneric(data, frameLen, off).packet);
  }

  lemma GenericAcceptsWholeUdp(data: seq<Byte>, frameLen: nat, off: nat)
    requires WholeUdp(data, frameLen, off)
    ensures ParseGeneric(data, frameLen, off).status == PARSE_OK <==>
            TotalLen(data, off) - HeaderLen(data, off) >= 12
  {}

  /** The two parsers accept the same UDP frames with the same descriptor, for every frame and
      link offset, except that the generic one also demands a four-byte payload word. */
  lemma ParsersAgree(data: seq<Byte>, frameLen: nat, off: nat)
    requires |data| <= frameLen
    ensures var tc, l3 := ParseEgress(data, frameLen, off), ParseIpv4(data, frameLen, off);
      && (tc.status == OK <==> l3.status == OK && l3.info.protocol == UDP && l3.info.l4Len >= 12)
      && (tc.status == OK ==> tc.info == l3.info)
  {
    var l3 := ParseIpv4(data, frameLen, off);
    if l3.status == OK && l3.info.protocol == UDP { L3OnlyWholeUdp(data, frameLen, off); }
    if ParseGeneric(data, frameLen, off).status == PARSE_OK { ProjectionAcceptsWholeUdp(data, frameLen, off); }
    if WholeUdp(data, frameLen, off) {
      L3AcceptsWholeUdp(data, frameLen, off);
      GenericAcceptsWholeUdp(data, frameLen, off);
    }
  }

  /** An accepted IPv4 frame keeps its transport region inside the declared packet and frame. */
  lemma Ipv4Inside(data: seq<Byte>, frameLen: nat, off: nat)
    requires |data| <= frameLen
    ensures var p := ParseIpv4(data, frameLen, off);
      p.status == OK ==>
        && p.info.l4Off + p.info.l4Len == off + p.info.l3Len <= frameLen
        && off + 20 <= p.info.l4Off && p.info.l4Off + p.info.l4HeaderLen <= |data|
        && p.info.l4HeaderLen <= p.info.l4Len
  {}

  // ----- IPv6 extension walk -----

  predicate IsTransport(next: Byte) { next == TCP || next == UDP }

  predicate IsOption(next: Byte) { next == NEXTHDR_HOP || next == NEXTHDR_ROUTING || next == NEXTHDR_DEST }

  /** Where a walk stands: an offset and the header type announced for it. */
  datatype Spot = Spot(off: nat, next: Byte)

  function After(data: seq<Byte>, at: Spot): Spot
    requires at.off + 2 <= |data|
  {
    Spot(at.off + ((data[at.off + 1] as int) + 1) * 8, data[at.off])
  }

  // The spot after n extension headers.
  function Stand(data: seq<Byte>, start: Spot, n: nat): Spot {
    if n == 0 then start
    else
      var at := Stand(data, start, n - 1);
      if at.off + 2 <= |data| then After(data, at) else at
  }

  // A hop-by-hop, routing or destination header that lies inside the packet and the linear data.
  predicate ExtensionAt(data: seq<Byte>, end: nat, at: Spot, first: bool) {
    && IsOption(at.next) && (at.next == NEXTHDR_HOP ==> first)
    && at.off + 2 <= |data| && After(data, at).off <= end && After(data, at).off <= |data|
  }

  ghost predicate Steps(data: seq<Byte>, end: nat, start: Spot, n: nat) {
    forall i :: 0 <= i < n ==> ExtensionAt(data, end, Stand(data, start, i), i == 0)
  }

  /** Section 4 of RFC 8200 with this parser's limits: n extension headers, hop-by-hop only as
      the first, at most 8 headers and 512 bytes, followed by TCP or UDP. */
  ghost predicate Reaches(data: seq<Byte>, end: nat, start: Spot, n: nat) {
    && n <= MAX_EXTENSION_HEADERS
    && Steps(data, end, start, n)
    && Stand(data, start, n).off - start.off <= MAX_EXTENSION_BYTES
    && IsTransport(Stand(data, start, n).next)
  }

  function Start(data: seq<Byte>, off: nat): Spot
    requires off + 40 <= |data|
  {
    Spot(off + 40, data[off + 6])
  }

  function Ipv6Info(data: seq<Byte>, off: nat, n: nat): Info
    requires off + 40 <= |data|
  {
    var total := 40 + U16(data, off + 4);
    var at := Stand(data, Start(data, off), n);
    Fresh(off, IPV6).(
      l3Len := total, l3HeaderLen := 40, l4Off := at.off,
      l4Len := if at.off <= off + total then off + total - at.off else 0,
      protocol := at.next, extensions := n, hasExtensions := n > 0)
  }

  ghost predicate Accepts(data: seq<Byte>, frameLen: nat, off: nat, n: nat) {
    && Ipv6Header(data, frameLen, off)
    && Reaches(data, off + 40 + U16(data, off + 4), Start(data, off), n)
    && ValidateTransport(data, frameLen, Ipv6Info(data, off, n)).status == OK
  }

  lemma {:induction false} StandGrows(data: seq<Byte>, start: Spot, m: nat, n: nat)
    requires m <= n
    ensures Stand(data, start, m).off <= Stand(data, start, n).off
    decreases n
  {
    if m < n { StandGrows(data, start, m, n - 1); }
  }

  ghost predicate StepsTo(data: seq<Byte>, end: nat, start: Spot, n: nat, at: Spot) {
    Steps(data, end, start, n) && Stand(data, start, n) == at
  }

  lemma OneMoreStep(data: seq<Byte>, end: nat, start: Spot, n: nat, at: Spot)
    requires StepsTo(data, end, start, n, at) && ExtensionAt(data, end, at, n == 0)
    ensures StepsTo(data, end, start, n + 1, After(data, at)) && at.off < After(data, at).off <= end
  {}

  // A walk that can neither stop nor go on at spot k reaches no transport header at all.
  lemma Stuck(data: seq<Byte>, end: nat, start: Spot, k: nat)
    requires Steps(data, end, start, k)
    requires !IsTransport(Stand(data, start, k).next)
    requires k == MAX_EXTENSION_HEADERS || !ExtensionAt(data, end, Stand(data, start, k), k == 0)
    ensures forall n: nat :: !Reaches(data, end, start, n)
  {
    forall n: nat ensures !Reaches(data, end, start, n) {
      if n < k { assert ExtensionAt(data, end, Stand(data, start, n), n == 0); }
      if k < n <= MAX_EXTENSION_HEADERS {
        assert !ExtensionAt(data, end, Stand(data, start, k), k == 0);
      }
    }
  }

  lemma TooLong(data: seq<Byte>, end: nat, start: Spot, k: nat)
    requires Steps(data, end, start, k)
    requires Stand(data, start, k).off - start.off > MAX_EXTENSION_BYTES
    ensures forall n: nat :: !Reaches(data, end, start, n)
  {
    forall n: nat ensures !Reaches(data, end, start, n) {
      if n < k {
        assert ExtensionAt(data, end, Stand(data, start, n), n == 0);
      } else {
        StandGrows(data, start, k, n);
      }
    }
  }

  lemma OptionsBefore(data: seq<Byte>, end: nat, start: Spot, n: nat)
    requires Reaches(data, end, start, n)
    ensures forall i: nat :: i < n ==> !IsTransport(Stand(data, start, i).next)
  {
    forall i: nat | i < n ensures !IsTransport(Stand(data, start, i).next) {
      assert ExtensionAt(data, end, Stand(data, start, i), i == 0);
    }
  }

  lemma OneWalk(data: seq<Byte>, end: nat, start: Spot, k: nat, n: nat)
    requires Reaches(data, end, start, k) && Reaches(data, end, start, n)
    ensures k == n
  {
    OptionsBefore(data, end, start, k);
    OptionsBefore(data, end, start, n);
  }

  // A header the walk does not step over: the packet is not accepted.
  method Obstacle(data: seq<Byte>, end: nat, headerOff: nat, next: Byte, depth: nat, info: Info) returns (p: Parsed)
    requires headerOff <= end && !IsTransport(next) && !IsOption(next)
    ensures p.status != OK && p.info.l3Off == info.l3Off && p.info.family == info.family
  {
    if next == NEXTHDR_ICMPV6 || next == NEXTHDR_NONE {
      return Parsed(SAFE_BYPASS, info.(l4Off := headerOff, l4Len := end - headerOff, protocol := next));
    }
    if next == NEXTHDR_FRAGMENT {
      if depth == MAX_EXTENSION_HEADERS { return Parsed(EXTENSION_TOO_DEEP, info); }
      if 8 > end - headerOff { return Parsed(MALFORMED, info); }
      if headerOff + 8 > |data| { return Parsed(TRUNCATED, info); }
      if data[headerOff + 1] != 0 || data[headerOff + 3] & 0x06 != 0 { return Parsed(MALFORMED, info); }
      var fragOff := (data[headerOff + 2] as int) * 256 + ((data[headerOff + 3] & 0xf8) as int);
      return Parsed(
          if fragOff != 0 then NONINITIAL_FRAGMENT else FIRST_FRAGMENT,
          info.(hasExtensions := true, fragment := true, extensions := info.extensions + 1,
                protocol := data[headerOff], fragmentOffset := fragOff, mf := data[headerOff + 3] & 0x01 != 0));
    }
    if next == NEXTHDR_AUTH {
      if depth == MAX_EXTENSION_HEADERS { return Parsed(EXTENSION_TOO_DEEP, info); }
      if 2 > end - headerOff { return Parsed(MALFORMED, info); }
      if headerOff + 2 > |data| { return Parsed(TRUNCATED, info); }
      var len := ((data[headerOff + 1] as int) + 2) * 4;
      if len < 12 || len > end - headerOff { return Parsed(MALFORMED, info); }
      return Parsed(UNSUPPORTED, info.(hasExtensions := true, extensions := info.extensions + 1, protocol := next));
    }
    return Parsed(UNSUPPORTED, info.(protocol := next));
  }

  // Whether the walk may step over the header at this spot.
  method StepOver(data: seq<Byte>, end: nat, at: Spot, depth: nat, info: Info) returns (p: Parsed)
    requires at.off <= end && !IsTransport(at.next)
    ensures p.status == OK <==> depth != MAX_EXTENSION_HEADERS && ExtensionAt(data, end, at, depth == 0)
    ensures p.info.l3Off == info.l3Off && p.info.family == info.family
  {
    if !IsOption(at.next) {
      p := Obstacle(data, end, at.off, at.next, depth, info);
    } else if depth == MAX_EXTENSION_HEADERS {
      p := Parsed(EXTENSION_TOO_DEEP, info);
    } else if (at.next == NEXTHDR_HOP && depth != 0) || 2 > end - at.off {
      p := Parsed(MALFORMED, info);
    } else if at.off + 2 > |data| {
      p := Parsed(TRUNCATED, info);
    } else if After(data, at).off > end {
      p := Parsed(MALFORMED, info);
    } else if After(data, at).off > |data| {
      p := Parsed(TRUNCATED, info);
    } else {
      p := Parsed(OK, info);
    }
  }

  lemma ReachedTransport(data: seq<Byte>, frameLen: nat, off: nat, n: nat)
    requires |data| <= frameLen && Ipv6Header(data, frameLen, off)
    requires Reaches(data, off + 40 + U16(data, off + 4), Start(data, off), n)
    requires Stand(data, Start(data, off), n).off <= off + 40 + U16(data, off + 4)
    ensures var p := ValidateTransport(data, frameLen, Ipv6Info(data, off, n));
      p.status == OK ==> Ipv6Inside(data, frameLen, off, n, p.info)
  {}

  lemma NoOtherWalk(data: seq<Byte>, frameLen: nat, off: nat, n: nat)
    requires Ipv6Header(data, frameLen, off)
    requires Reaches(data, off + 40 + U16(data, off + 4), Start(data, off), n)
    ensures forall m: nat :: Accepts(data, frameLen, off, m) ==> m == n
  {
    forall m: nat | Accepts(data, frameLen, off, m) ensures m == n {
      OneWalk(data, off + 40 + U16(data, off + 4), Start(data, off), m, n);
    }
  }

  // The chain it walked, and a transport region that ends with the declared packet inside the frame.
  predicate Ipv6Inside(data: seq<Byte>, frameLen: nat, off: nat, n: nat, info: Info)
    requires off + 40 <= |data|
  {
    && info.(l4HeaderLen := 0) == Ipv6Info(data, off, n)
    && info.l4Off + info.l4Len == off + info.l3Len <= frameLen
    && info.l4HeaderLen <= info.l4Len && info.l4Off + info.l4HeaderLen <= |data|
    && info.l4Off <= off + 40 + MAX_EXTENSION_BYTES && info.extensions <= MAX_EXTENSION_HEADERS
  }

  function Marked(info: Info, depth: nat): Info { info.(extensions := depth, hasExtensions := depth > 0) }

  // What the walk reports: a chain that reaches a transport header, or that there is none.
  ghost predicate Walked(data: seq<Byte>, end: nat, start: Spot, first: Info, p: Parsed, at: Spot) {
    var n := p.info.extensions;
    && p.info.l3Off == first.l3Off && p.info.family == first.family
    && (p.status == OK ==>
          Reaches(data, end, start, n) && at == Stand(data, start, n) && at.off <= end && p.info == Marked(first, n))
    && (p.status != OK ==> forall m: nat :: !Reaches(data, end, start, m))
  }

  /** The walk over extension headers: a loop of at most nine rounds. It stops with OK exactly
      when the chain reaches a transport header within the limits, and reports where. */
  method WalkExtensions(data: seq<Byte>, end: nat, start: Spot, first: Info) returns (p: Parsed, at: Spot)
    requires start.off <= end && start.off <= |data| && first.extensions == 0 && !first.hasExtensions
    ensures Walked(data, end, start, first, p, at)
  {
    var bytes := 0;
    var depth := 0;
    at := start;
    while !IsTransport(at.next)
      invariant Walking(data, end, start, depth, at) && bytes == at.off - start.off
      decreases MAX_EXTENSION_HEADERS - depth
    {
      p := StepOver(data, end, at, depth, Marked(first, depth));
      if p.status != OK {
        Stuck(data, end, start, depth);
        return;
      }
      var stepped := After(data, at);
      OneMoreStep(data, end, start, depth, at);
      bytes := bytes + stepped.off - at.off;
      if bytes > MAX_EXTENSION_BYTES {
        TooLong(data, end, start, depth + 1);
        return Parsed(EXTENSION_TOO_DEEP, Marked(first, depth)), at;
      }
      at := stepped;
      depth := depth + 1;
    }
    p := Parsed(OK, Marked(first, depth));
  }

  // depth headers walked, within the limits.
  ghost predicate Walking(data: seq<Byte>, end: nat, start: Spot, depth: nat, at: Spot) {
    && depth <= MAX_EXTENSION_HEADERS && start.off <= at.off <= end && at.off - start.off <= MAX_EXTENSION_BYTES
    && StepsTo(data, end, start, depth, at)
  }

  predicate Ipv6Header(data: seq<Byte>, frameLen: nat, off: nat) {
    && off + 40 <= |data| && data[off] >> 4 == 6
    && U16(data, off + 4) != 0 && off + 40 + U16(data, off + 4) <= frameLen
  }

  method ParseIpv6Header(data: seq<Byte>, frameLen: nat, off: nat) returns (p: Parsed)
    requires |data| <= frameLen
    ensures p.status == OK <==> Ipv6Header(data, frameLen, off)
    ensures p.status == OK ==> p.info == Fresh(off, IPV6).(l3Len := 40 + U16(data, off + 4), l3HeaderLen := 40)
  {
    var info := Fresh(off, IPV6);
    if off > frameLen || off + 40 > |data| { return Parsed(TRUNCATED, info); }
    if data[off] >> 4 != 6 { return Parsed(MALFORMED, info); }
    var payloadLen := U16(data, off + 4);
    var total := 40 + payloadLen;
    if total > frameLen - off { return Parsed(TRUNCATED, info); }
    info := info.(l3Len := total, l3HeaderLen := 40);
    if payloadLen == 0 {
      var next := data[off + 6];
      return Parsed(if next == NEXTHDR_NONE then SAFE_BYPASS else UNSUPPORTED, info.(protocol := next));
    }
    return Parsed(OK, info);
  }

  /** The IPv6 parser accepts exactly the packets whose header chain reaches a valid TCP or UDP
      header, and then reports that chain and the transport region. */
  method ParseIpv6(data: seq<Byte>, frameLen: nat, off: nat) returns (p: Parsed, ghost n: nat)
    requires |data| <= frameLen
    ensures p.status == OK ==> Accepts(data, frameLen, off, n) && Ipv6Inside(data, frameLen, off, n, p.info)
    ensures p.status != OK ==> forall m: nat :: !Accepts(data, frameLen, off, m)
  {
    n := 0;
    p := ParseIpv6Header(data, frameLen, off);
    if p.status != OK { return; }
    var end := off + p.info.l3Len;
    var at;
    p, at := WalkExtensions(data, end, Spot(off + 40, data[off + 6]), p.info);
    if p.status != OK { return; }
    n := p.info.extensions;
    ReachedTransport(data, frameLen, off, n);
    NoOtherWalk(data, frameLen, off, n);
    var info := p.info.(l4Off := at.off, l4Len := end - at.off, protocol := at.next);
    assert info == Ipv6Info(data, off, n);
    p := ValidateTransport(data, frameLen, info);
  }
}
