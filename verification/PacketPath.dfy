/** The whole path of one packet: type word, mask and rotation on the way out, admission,
    inverse rotation, type word and mask on the way in. */
module PacketPath {
  import opened Bytes
  import opened Checksum
  import opened Outcomes
  import opened PacketBuffer
  import opened TypeWord
  import opened FakeTcpWire
  import G = GsoTransform
  import L = L3Parser
  import S = Session
  import X = XorChain

  // ----- Byte order -----

  lemma HalfSumSwap(n: nat)
    requires n < 0x1_0000
    ensures Cong(HalfSum(n, true), 256 * n) && Cong(n, 256 * HalfSum(n, true))
  {
    var h, l := n / 256, n % 256;
    assert n == 256 * h + l;
    CongByQuotient(HalfSum(n, true), 256 * n, -h);
    CongByQuotient(n, 256 * HalfSum(n, true), -l);
  }

  /** The whole sum in one byte order is 256 times the sum in the other. */
  lemma SegmentSumSwap(addresses: seq<Byte>, protocol: nat, segment: seq<Byte>)
    requires |segment| < 0x1_0000
    ensures Cong(SegmentSum(addresses, protocol, segment, true), 256 * SegmentSum(addresses, protocol, segment, false))
    ensures Cong(SegmentSum(addresses, protocol, segment, false), 256 * SegmentSum(addresses, protocol, segment, true))
  {
    var n := |segment|;
    var a, b := Sum(addresses, true), Sum(addresses, false);
    var c := HalfSum(n, true);
    var e, f := Sum(segment, true), Sum(segment, false);
    assert Cong(a, 256 * b) && Cong(b, 256 * a) by { SumSwap(addresses); }
    assert Cong(c, 256 * n) && Cong(n, 256 * c) by { HalfSumSwap(n); }
    assert Cong(e, 256 * f) && Cong(f, 256 * e) by { SumSwap(segment); }
    SegmentSumIs(addresses, protocol, segment);
    SwapSums(a, b, c, n, e, f, protocol,
             SegmentSum(addresses, protocol, segment, true), SegmentSum(addresses, protocol, segment, false));
  }

  lemma SegmentSumIs(addresses: seq<Byte>, protocol: nat, segment: seq<Byte>)
    requires |segment| < 0x1_0000
    ensures SegmentSum(addresses, protocol, segment, true) ==
            Sum(addresses, true) + (256 * protocol + HalfSum(|segment|, true)) + Sum(segment, true)
    ensures SegmentSum(addresses, protocol, segment, false) ==
            Sum(addresses, false) + (protocol + |segment|) + Sum(segment, false)
  {}

  lemma SwapSums(a: int, b: int, c: int, d: int, e: int, f: int, p: int, s: int, t: int)
    requires Cong(a, 256 * b) && Cong(b, 256 * a) && Cong(c, 256 * d) && Cong(d, 256 * c)
    requires Cong(e, 256 * f) && Cong(f, 256 * e)
    requires s == a + (256 * p + c) + e && t == b + (p + d) + f
    ensures Cong(s, 256 * t) && Cong(t, 256 * s)
  {
    SwapThree(a, b, c, d, e, f, p);
  }

  lemma SwapThree(a: int, b: int, c: int, d: int, e: int, f: int, p: int)
    requires Cong(a, 256 * b) && Cong(b, 256 * a) && Cong(c, 256 * d) && Cong(d, 256 * c)
    requires Cong(e, 256 * f) && Cong(f, 256 * e)
    ensures Cong(a + (256 * p + c) + e, 256 * (b + (p + d) + f))
    ensures Cong(b + (p + d) + f, 256 * (a + (256 * p + c) + e))
  {
    var i := CongQuotient(a, 256 * b);
    var j := CongQuotient(b, 256 * a);
    var k := CongQuotient(c, 256 * d);
    var l := CongQuotient(d, 256 * c);
    var m := CongQuotient(e, 256 * f);
    var n := CongQuotient(f, 256 * e);
    CongByQuotient(a + (256 * p + c) + e, 256 * (b + (p + d) + f), i + k + m);
    CongByQuotient(b + (p + d) + f, 256 * (a + (256 * p + c) + e), j + l + n - p);
  }

  lemma ScaledZero(x: int, y: int)
    requires Cong(x, 256 * y) && Cong(y, 0)
    ensures Cong(x, 0)
  {
    var k := CongQuotient(x, 256 * y);
    var l := CongQuotient(y, 0);
    CongByQuotient(x, 0, k + 256 * l);
  }

  lemma VerifiesNative(addresses: seq<Byte>, protocol: nat, segment: seq<Byte>, native: bool)
    requires |segment| < 0x1_0000
    ensures Verifies(addresses, protocol, segment) <==> Cong(SegmentSum(addresses, protocol, segment, native), 0)
  {
    SegmentSumSwap(addresses, protocol, segment);
    var t, f := SegmentSum(addresses, protocol, segment, true), SegmentSum(addresses, protocol, segment, false);
    if Cong(t, 0) { ScaledZero(f, t); }
    if Cong(f, 0) { ScaledZero(t, f); }
  }

  /** A decoded datagram verifies exactly when the TCP segment on the wire did, for every payload
      length, odd or even, and in either native byte order. */
  lemma DecodedVerifiesIff(w: seq<Byte>, o: seq<Byte>, off: nat, len: nat, native: bool)
    requires Decoded(w, o, off, len, native)
    ensures Verifies(w[off + 12..off + 20], UDP, o[off + 20..off + 28 + len]) <==>
            Verifies(w[off + 12..off + 20], TCP, w[off + 20..off + 40 + len])
  {
    var addresses, u, t := w[off + 12..off + 20], o[off + 20..off + 28 + len], w[off + 20..off + 40 + len];
    VerifiesNative(addresses, UDP, u, native);
    VerifiesNative(addresses, TCP, t, native);
    var x, y := SegmentSum(addresses, UDP, u, native), SegmentSum(addresses, TCP, t, native);
    if Cong(y, 0) { CongTrans(x, y, 0); }
    if Cong(x, 0) {
      CongTrans(x, y, y);
      CongTrans(y, x, 0);
    }
  }

  // ----- Payload on the way out and in -----

  type Cipher = G.Cipher

  predicate UsableCipher(cipher: Option<Cipher>) {
    cipher.Some? ==> |cipher.value.table| == 256 && 0 < cipher.value.maxBytes <= X.MAX_XOR_BYTES
  }

  // xor_payload_target: an overlong payload is refused unless only its prefix is masked.
  predicate HasTarget(cipher: Option<Cipher>, len: nat) {
    cipher.Some? ==> len != 0 && (len <= cipher.value.maxBytes || cipher.value.prefix)
  }

  /** A payload egress accepts: a standard message of a valid length that the cipher can mask. */
  predicate Accepted(cipher: Option<Cipher>, p: seq<Byte>) {
    |p| >= 4 && ValidLen(KindFromStandard(p[..4]), |p|) && HasTarget(cipher, |p|)
  }

  function Egress(profile: Profile, cipher: Option<Cipher>, p: seq<Byte>): (q: seq<Byte>)
    requires WellFormed(profile) && UsableCipher(cipher)
    ensures |q| == |p|
  {
    G.TransformedOne(profile, cipher, p)
  }

  // The first word of a received payload with the mask taken off.
  function Unmasked(cipher: Option<Cipher>, word: seq<Byte>): (r: seq<Byte>)
    requires UsableCipher(cipher)
    ensures |r| == |word|
  {
    if cipher.Some? then X.Masked(word, cipher.value.table, 0) else word
  }

  /** Ingress restores the type word by hand and masks the rest from byte 4; a target shorter
      than the word is refused. */
  function Ingress(profile: Profile, cipher: Option<Cipher>, q: seq<Byte>): Option<seq<Byte>>
    requires WellFormed(profile) && UsableCipher(cipher)
  {
    if |q| < 4 || !HasTarget(cipher, |q|) then None
    else
      var kind := KindFromMixed(profile, Unmasked(cipher, q[..4]));
      if kind < 0 || !ValidLen(kind, |q|) then None
      else
        var typed := profile.standard[kind] + q[4..];
        if cipher.None? then Some(typed)
        else
          var target := G.TargetLength(cipher.value, |q|);
          if target < 4 then None else Some(X.Xored(typed, 0, cipher.value.table, 4, target))
  }

  // With at least four bytes masked, the first word on the wire is the masked disguise.
  lemma EgressWord(profile: Profile, cipher: Option<Cipher>, p: seq<Byte>)
    requires Matching(profile) && UsableCipher(cipher) && Accepted(cipher, p)
    requires cipher.Some? ==> cipher.value.maxBytes >= 4
    ensures Unmasked(cipher, Egress(profile, cipher, p)[..4]) == profile.mixed[KindFromStandard(p[..4])]
  {
    if cipher.Some? {
      X.WordUnmasked(G.Retagged(profile, p), cipher.value.table, G.TargetLength(cipher.value, |p|));
    }
  }

  lemma RestOfPayload(profile: Profile, cipher: Cipher, p: seq<Byte>, kind: int)
    requires Matching(profile) && UsableCipher(Some(cipher)) && cipher.maxBytes >= 4
    requires |p| >= 4 && kind == KindFromStandard(p[..4]) && kind >= 0
    ensures var q := Egress(profile, Some(cipher), p);
      X.Xored(profile.standard[kind] + q[4..], 0, cipher.table, 4, G.TargetLength(cipher, |p|)) == p
  {
    assert profile.standard[kind] == p[..4];
    X.RestUnmasked(p, G.Retagged(profile, p), cipher.table, G.TargetLength(cipher, |p|));
  }

  /** Ingress gives back every payload egress accepted, for every matching profile and cipher,
      exactly when the cipher masks at least the type word. */
  lemma PayloadRoundTrip(profile: Profile, cipher: Option<Cipher>, p: seq<Byte>)
    requires Matching(profile) && UsableCipher(cipher) && Accepted(cipher, p)
    ensures Ingress(profile, cipher, Egress(profile, cipher, p)) == Some(p) <==>
            (cipher.Some? ==> cipher.value.maxBytes >= 4)
  {
    var kind := KindFromStandard(p[..4]);
    if cipher.Some? ==> cipher.value.maxBytes >= 4 {
      EgressWord(profile, cipher, p);
      KindRoundTrip(profile, kind);
      if cipher.Some? {
        RestOfPayload(profile, cipher.value, p, kind);
      } else {
        assert profile.standard[kind] + Egress(profile, cipher, p)[4..] == p;
      }
    }
  }

  /** A mask of one byte is such a cipher: this message goes out and does not come back. */
  lemma ShortMaskIsLost() returns (profile: Profile, cipher: Option<Cipher>, p: seq<Byte>)
    ensures Matching(profile) && UsableCipher(cipher) && Accepted(cipher, p)
    ensures Ingress(profile, cipher, Egress(profile, cipher, p)) != Some(p)
  {
    profile := Profile([[9, 0, 0, 0], [10, 0, 0, 0], [11, 0, 0, 0], [12, 0, 0, 0]], STANDARD);
    cipher := Some(G.Cipher(Zeros(256), 1, true));
    p := STANDARD[3] + Zeros(28);
    assert p[..4] == STANDARD[3];
    PayloadRoundTrip(profile, cipher, p);
  }

  // ----- Admission at XDP -----

  datatype Decision = DROP | TRANSFORM(kind: int) | CONTROL | KEEPALIVE | CLOSE

  const FLAG_FIN: Byte := 0x01
  const FLAG_SYN: Byte := 0x02
  const FLAG_RST: Byte := 0x04
  const FLAG_PSH: Byte := 0x08
  const FLAG_ACK: Byte := 0x10

  /** What the checkpoint looks up besides the frame: the listener's generation and WireGuard ID, the
      session map, and the runtime identity. */
  datatype Peer = Peer(generation: nat, wgId: nat, sessions: map<S.Key, S.Value>, incarnation: Option<nat>)

  // The session key of a frame on the receiving side.
  function SessionKey(data: seq<Byte>, off: nat, ifindex: nat, peer: Peer): S.Key
    requires off + 24 <= |data|
  {
    S.Key(peer.generation, Be32Value(data[off + 16..off + 20]), Be32Value(data[off + 12..off + 16]), ifindex,
          L.U16(data, off + 22), L.U16(data, off + 20), peer.wgId, 0)
  }

  // An established session under this key.
  predicate Established(peer: Peer, key: S.Key) {
    key in peer.sessions && S.MetadataValid(peer.sessions[key], peer.generation)
  }

  // Its session belongs to the runtime that runs now.
  predicate SameRuntime(peer: Peer, key: S.Key) {
    key in peer.sessions && peer.incarnation == Some(peer.sessions[key].identity.incarnation)
  }

  /** The single checkpoint for a frame to a managed port with a valid listener of this generation. */
  function Checkpoint(data: seq<Byte>, off: nat, ifindex: nat, profile: Profile, cipher: Option<Cipher>,
                      peer: Peer): Decision
    requires WellFormed(profile) && (cipher.Some? ==> |cipher.value.table| == 256)
  {
    var parsed := L.ParseIpv4(data, |data|, off);
    if parsed.status != L.OK || L.ManagedTransformStatus(parsed.info, L.TCP) != L.OK || off + 24 > |data| then DROP
    else
      var key := SessionKey(data, off, ifindex, peer);
      WireDecision(data, off, parsed.info.l3Len, ifindex, profile, cipher, Established(peer, key),
          SameRuntime(peer, key))
  }

  function WireDecision(data: seq<Byte>, off: nat, total: nat, ifindex: nat, profile: Profile, cipher: Option<Cipher>,
                        established: bool, sameRuntime: bool): Decision
    requires WellFormed(profile) && (cipher.Some? ==> |cipher.value.table| == 256)
  {
    if total < 40 || total > MAX_IPV4_TOTAL_LEN + DELTA || off + total > |data| then DROP
    else
      var len := total - 40;
      var flags := data[off + 33];
      if L.U16(data, off + 20) == 0 || L.U16(data, off + 22) == 0 || ifindex == 0 then DROP
      else if !Closing(flags) && len != 0 && !(UsableCipher(cipher) && HasTarget(cipher, len)) then DROP
      else if !established then (if Closing(flags) then DROP else CONTROL)
      else if !sameRuntime then DROP
      else if Closing(flags) then CLOSE
      else if flags & FLAG_SYN != 0 then CONTROL
      else if len == 0 && flags == FLAG_ACK then KEEPALIVE
      else if !DataFlags(flags) || len < DELTA then DROP
      else
        var kind := KindFromMixed(profile, Unmasked(cipher, data[off + total - DELTA..off + total - DELTA + 4]));
        if kind < 0 || profile.standard[kind] != STANDARD[kind] || !ValidLen(kind, len) then DROP
        else TRANSFORM(kind)
  }

  predicate Closing(flags: Byte) { flags & (FLAG_RST | FLAG_FIN) != 0 }

  predicate DataFlags(flags: Byte) { flags & !(FLAG_ACK | FLAG_PSH) == 0 && flags & FLAG_ACK != 0 }

  lemma U16IsValue(d: seq<Byte>, off: nat)
    requires off + 2 <= |d|
    ensures L.U16(d, off) == Be16Value(d[off..off + 2])
  {
    assert d[off..off + 2] == [d[off], d[off + 1]];
    TwoByteSum(d[off], d[off + 1], false);
  }

  // The header bytes the parser looks at, before and after encoding.
  lemma EncodedHeader(d: seq<Byte>, w: seq<Byte>, ip: nat, len: nat, tx: S.MutationResult, native: bool)
    requires Encoded(d, w, ip, len, tx, native)
    ensures |w| == ip + 40 + len
    ensures w[ip] == d[ip] && w[ip + 6] == d[ip + 6] && w[ip + 7] == d[ip + 7] && w[ip + 9] == 6
    ensures L.U16(w, ip + 2) == 40 + len
    ensures w[ip + 32] == 0x50 && w[ip + 33] == 0x18
    ensures w[ip + 12..ip + 20] == d[ip + 12..ip + 20] && w[ip + 20..ip + 24] == d[ip + 20..ip + 24]
  {
    var h, r, t := d[ip..ip + 20], w[ip..ip + 20], w[ip + 20..ip + 40];
    assert w[ip] == r[..2][0] == h[..2][0] == d[ip];
    assert w[ip + 6] == r[4..9][2] == h[4..9][2] == d[ip + 6];
    assert w[ip + 7] == r[4..9][3] == h[4..9][3] == d[ip + 7];
    U16IsValue(w, ip + 2);
    assert r[2..4] == w[ip + 2..ip + 4];
    assert w[ip + 12..ip + 20] == r[12..] == h[12..] == d[ip + 12..ip + 20];
    assert w[ip + 20..ip + 24] == t[..4];
    assert w[ip + 32] == t[12] && w[ip + 33] == t[13];
  }

  lemma EncodedParses(d: seq<Byte>, w: seq<Byte>, ip: nat, len: nat, tx: S.MutationResult, native: bool)
    requires Encoded(d, w, ip, len, tx, native) && L.WholeUdp(d, |d|, ip) && L.HeaderLen(d, ip) == 20
    ensures var parsed := L.ParseIpv4(w, |w|, ip);
      && parsed.status == L.OK && parsed.info.l3Len == 40 + len
      && L.ManagedTransformStatus(parsed.info, L.TCP) == L.OK
  {
    EncodedHeader(d, w, ip, len, tx, native);
    EncodedShape(d, w, ip, len);
    L.L3AcceptsWholeTcp(w, |w|, ip);
  }

  lemma FiveWords()
    ensures ((0x50 as bv8) >> 4) as int == 5
  {}

  // The header bytes the parser looks at are those of the datagram, with TCP for UDP.
  lemma EncodedShape(d: seq<Byte>, w: seq<Byte>, ip: nat, len: nat)
    requires L.WholeUdp(d, |d|, ip) && L.HeaderLen(d, ip) == 20 && |w| == ip + 40 + len
    requires w[ip] == d[ip] && w[ip + 6] == d[ip + 6] && w[ip + 7] == d[ip + 7] && w[ip + 9] == 6
    requires L.U16(w, ip + 2) == 40 + len && w[ip + 32] == 0x50
    ensures L.WholeTcp(w, |w|, ip) && L.HeaderLen(w, ip) == 20 && L.TotalLen(w, ip) == 40 + len
    ensures L.TcpHeaderLen(w, ip + 20) == 20
  {
    FiveWords();
  }

  lemma EncodedTail(d: seq<Byte>, w: seq<Byte>, ip: nat, len: nat, tx: S.MutationResult, native: bool)
    requires Encoded(d, w, ip, len, tx, native)
    ensures |w| == ip + 40 + len && w[ip + 28 + len..ip + 32 + len] == d[ip + 28..][..4]
  {
    var wire := w[ip + 40..];
    assert wire == Rotated(d[ip + 28..]);
    assert w[ip + 28 + len..ip + 32 + len] == wire[len - DELTA..len - DELTA + 4];
  }

  lemma SameKey(d: seq<Byte>, w: seq<Byte>, ip: nat, ifindex: nat, peer: Peer)
    requires ip + 24 <= |d| && ip + 24 <= |w|
    requires w[ip + 12..ip + 20] == d[ip + 12..ip + 20] && w[ip + 20..ip + 24] == d[ip + 20..ip + 24]
    ensures SessionKey(w, ip, ifindex, peer) == SessionKey(d, ip, ifindex, peer)
  {
    SamePorts(d, w, ip);
    SliceInWindow(w, ip + 12, ip + 20, ip + 12, ip + 16);
    SliceInWindow(d, ip + 12, ip + 20, ip + 12, ip + 16);
    SliceInWindow(w, ip + 12, ip + 20, ip + 16, ip + 20);
    SliceInWindow(d, ip + 12, ip + 20, ip + 16, ip + 20);
  }

  /** Every packet the egress path emits is admitted by the peer's checkpoint as a data packet of its own
      message type, if the peer has an established session of its running runtime for the addresses and
      ports of the original datagram. */
  lemma EncodedIsAdmitted(p: seq<Byte>, d: seq<Byte>, w: seq<Byte>, ip: nat, tx: S.MutationResult, native: bool,
                          profile: Profile, cipher: Option<Cipher>, ifindex: nat, peer: Peer)
    requires Matching(profile) && UsableCipher(cipher) && Accepted(cipher, p)
    requires cipher.Some? ==> cipher.value.maxBytes >= 4
    requires Encoded(d, w, ip, |p|, tx, native) && d[ip + 28..] == Egress(profile, cipher, p)
    requires L.WholeUdp(d, |d|, ip) && L.HeaderLen(d, ip) == 20
    requires L.U16(d, ip + 20) != 0 && L.U16(d, ip + 22) != 0 && ifindex != 0
    requires var key := SessionKey(d, ip, ifindex, peer); Established(peer, key) && SameRuntime(peer, key)
    ensures Checkpoint(w, ip, ifindex, profile, cipher, peer) == TRANSFORM(KindFromStandard(p[..4]))
  {
    EncodedParses(d, w, ip, |p|, tx, native);
    EncodedHeader(d, w, ip, |p|, tx, native);
    SameKey(d, w, ip, ifindex, peer);
    EncodedDecides(p, d, w, ip, tx, native, profile, cipher, ifindex);
  }

  lemma EncodedDecides(p: seq<Byte>, d: seq<Byte>, w: seq<Byte>, ip: nat, tx: S.MutationResult, native: bool,
                       profile: Profile, cipher: Option<Cipher>, ifindex: nat)
    requires Matching(profile) && UsableCipher(cipher) && Accepted(cipher, p)
    requires cipher.Some? ==> cipher.value.maxBytes >= 4
    requires Encoded(d, w, ip, |p|, tx, native) && d[ip + 28..] == Egress(profile, cipher, p)
    requires L.U16(d, ip + 20) != 0 && L.U16(d, ip + 22) != 0 && ifindex != 0
    ensures WireDecision(w, ip, 40 + |p|, ifindex, profile, cipher, true, true) == TRANSFORM(KindFromStandard(p[..4]))
  {
    var kind := KindFromStandard(p[..4]);
    EncodedHeader(d, w, ip, |p|, tx, native);
    EncodedTail(d, w, ip, |p|, tx, native);
    EgressWord(profile, cipher, p);
    KindRoundTrip(profile, kind);
    SamePorts(d, w, ip);
    DataPacketPasses(w, ip, |p|, ifindex, profile, cipher, kind);
  }

  // A well-formed ACK|PSH packet whose rotated word decodes is a data packet.
  lemma DataPacketPasses(w: seq<Byte>, off: nat, len: nat, ifindex: nat, profile: Profile, cipher: Option<Cipher>,
                         kind: int)
    requires WellFormed(profile) && UsableCipher(cipher) && HasTarget(cipher, len)
    requires |w| == off + 40 + len && DELTA <= len <= MAX_IPV4_TOTAL_LEN - 28 && w[off + 33] == 0x18
    requires L.U16(w, off + 20) != 0 && L.U16(w, off + 22) != 0 && ifindex != 0
    requires 0 <= kind < 4 && profile.standard[kind] == STANDARD[kind] && ValidLen(kind, len)
    requires KindFromMixed(profile, Unmasked(cipher, w[off + 28 + len..off + 32 + len])) == kind
    ensures WireDecision(w, off, 40 + len, ifindex, profile, cipher, true, true) == TRANSFORM(kind)
  {
    assert 40 + len - DELTA == 28 + len;
    AckPush();
  }

  lemma AckPush()
    ensures !Closing(0x18) && DataFlags(0x18) && 0x18 & FLAG_SYN == 0
  {}

  lemma SamePorts(d: seq<Byte>, w: seq<Byte>, ip: nat)
    requires ip + 24 <= |d| && ip + 24 <= |w| && w[ip + 20..ip + 24] == d[ip + 20..ip + 24]
    ensures L.U16(w, ip + 20) == L.U16(d, ip + 20) && L.U16(w, ip + 22) == L.U16(d, ip + 22)
  {
    var a, b := w[ip + 20..ip + 24], d[ip + 20..ip + 24];
    assert w[ip + 20] == a[0] && w[ip + 21] == a[1] && w[ip + 22] == a[2] && w[ip + 23] == a[3];
    assert d[ip + 20] == b[0] && d[ip + 21] == b[1] && d[ip + 22] == b[2] && d[ip + 23] == b[3];
  }

  /** Decoding an encoded frame restores it: link header, IPv4 fields, addresses, ports, lengths and
      payload are the original ones, and both checksums verify. */
  lemma FrameRoundTrip(d: seq<Byte>, w: seq<Byte>, o: seq<Byte>, ip: nat, len: nat, tx: S.MutationResult, native: bool)
    requires Encoded(d, w, ip, len, tx, native) && Decoded(w, o, ip, len, native)
    ensures |o| == |d| && o[..ip] == d[..ip] && o[ip + 28..] == d[ip + 28..]
    ensures o[ip + 20..ip + 24] == d[ip + 20..ip + 24] && o[ip + 12..ip + 20] == d[ip + 12..ip + 20]
    ensures o[ip..ip + 2] == d[ip..ip + 2] && o[ip + 4..ip + 9] == d[ip + 4..ip + 9] && o[ip + 9] == 17
    ensures Be16Value(o[ip + 2..ip + 4]) == Be16Value(d[ip + 2..ip + 4])
    ensures Be16Value(o[ip + 24..ip + 26]) == Be16Value(d[ip + 24..ip + 26])
    ensures Cong(Sum(o[ip..ip + 20], native), 0)
    ensures Verifies(o[ip + 12..ip + 20], UDP, o[ip + 20..])
  {
    EncodedHeader(d, w, ip, len, tx, native);
    PayloadRestored(d, w, o, ip, len, tx, native);
    HeaderRestored(d, w, o, ip, 28 + len, native);
    DecodedVerifiesIff(w, o, ip, len, native);
    assert w[ip + 20..ip + 40 + len] == w[ip + 20..] && o[ip + 20..ip + 28 + len] == o[ip + 20..];
    VerifiesNative(d[ip + 12..ip + 20], TCP, w[ip + 20..], native);
  }

  lemma PayloadRestored(d: seq<Byte>, w: seq<Byte>, o: seq<Byte>, ip: nat, len: nat, tx: S.MutationResult, native: bool)
    requires Encoded(d, w, ip, len, tx, native) && Decoded(w, o, ip, len, native)
    ensures o[ip + 28..] == d[ip + 28..]
  {
    assert w[ip + 40..ip + 40 + len] == w[ip + 40..];
    RotationInverts(d[ip + 28..]);
    assert o[ip + 28..ip + 28 + len] == o[ip + 28..];
  }

  lemma HeaderRestored(d: seq<Byte>, w: seq<Byte>, o: seq<Byte>, ip: nat, total: nat, native: bool)
    requires ip + 20 <= |d| && ip + 20 <= |w| && ip + 20 <= |o|
    requires IpRewritten(d[ip..ip + 20], w[ip..ip + 20], total + DELTA, 6, native)
    requires IpDecoded(w[ip..ip + 20], o[ip..ip + 20], total, native)
    ensures o[ip + 12..ip + 20] == d[ip + 12..ip + 20] && o[ip + 9] == 17
    ensures o[ip..ip + 2] == d[ip..ip + 2] && o[ip + 4..ip + 9] == d[ip + 4..ip + 9]
    ensures Be16Value(o[ip + 2..ip + 4]) == total
  {
    SliceInWindow(d, ip, ip + 20, ip, ip + 2);
    SliceInWindow(o, ip, ip + 20, ip, ip + 2);
    SliceInWindow(o, ip, ip + 20, ip + 2, ip + 4);
    SliceInWindow(d, ip, ip + 20, ip + 4, ip + 9);
    SliceInWindow(o, ip, ip + 20, ip + 4, ip + 9);
    SliceInWindow(d, ip, ip + 20, ip + 12, ip + 20);
    SliceInWindow(o, ip, ip + 20, ip + 12, ip + 20);
    assert o[ip + 9] == o[ip..ip + 20][9];
  }

  /** End to end: what the receiver's stack is handed is the payload the sender's stack produced. */
  lemma PathRoundTrip(p: seq<Byte>, d: seq<Byte>, w: seq<Byte>, o: seq<Byte>, ip: nat, tx: S.MutationResult,
                      native: bool, profile: Profile, cipher: Option<Cipher>)
    requires Matching(profile) && UsableCipher(cipher) && Accepted(cipher, p)
    requires cipher.Some? ==> cipher.value.maxBytes >= 4
    requires Encoded(d, w, ip, |p|, tx, native) && d[ip + 28..] == Egress(profile, cipher, p)
    requires Decoded(w, o, ip, |p|, native)
    ensures Ingress(profile, cipher, o[ip + 28..]) == Some(p)
  {
    FrameRoundTrip(d, w, o, ip, |p|, tx, native);
    PayloadRoundTrip(profile, cipher, p);
  }

  // ----- The programs that transform the payload -----

  function Target(cipher: Option<Cipher>, len: nat): nat {
    if cipher.Some? then G.TargetLength(cipher.value, len) else 0
  }

  lemma XoredWindow(d: seq<Byte>, off: nat, len: nat, table: seq<Byte>, lo: nat, hi: nat)
    requires |table| == 256 && off + len <= |d| && hi <= len
    ensures X.Xored(d, off, table, lo, hi)[off..off + len] == X.Xored(d[off..off + len], 0, table, lo, hi)
    ensures X.Xored(d, off, table, lo, hi)[..off] == d[..off]
    ensures X.Xored(d, off, table, lo, hi)[off + len..] == d[off + len..]
  {}

  // A new first word seen from the payload.
  lemma RetypedWindow(d: seq<Byte>, off: nat, len: nat, word: seq<Byte>)
    requires |word| == 4 <= len && off + len <= |d|
    ensures var r := Splice(d, off, word);
      && r[off..off + len] == word + d[off..off + len][4..]
      && r[..off] == d[..off] && r[off + len..] == d[off + len..]
  {
    var r := Splice(d, off, word);
    var a, b := r[off..off + len], word + d[off..off + len][4..];
    forall i | 0 <= i < len ensures a[i] == b[i] {
      assert a[i] == r[off + i];
    }
  }

  /** Replace the type word and, when the datagram carries a checksum, repair it by the difference. */
  method UpdateTypeWord(buf: Buffer, off: nat, was: seq<Byte>, now: seq<Byte>, manual: bool, native: bool,
                        ghost end: nat)
    returns (ok: bool)
    requires off >= 8 && |was| == 4 && |now| == 4 && off + 4 <= end <= |buf.data| && buf.data[off..off + 4] == was
    modifies buf
    ensures ok ==>
              && |buf.data| == |old(buf.data)|
              && EqualExceptCheck(Splice(old(buf.data), off, now), buf.data, off)
              && Kept(manual, old(buf.data), buf.data, off, end, native)
              && (!manual ==> buf.data == Splice(old(buf.data), off, now))
  {
    ghost var d := buf.data;
    if !manual {
      ok := buf.Store(off, now);
      return;
    }
    var diff := CsumDiff(was, now, 0, native);
    if diff < 0 { return false; }
    ghost var field;
    ok, field := ReplaceL4(buf, off - 2, diff, native);
    if !ok { return; }
    ok := buf.Store(off, now);
    if !ok { return; }
    TypeWordResidual(d, off, now, diff, field, end, native);
  }

  // A datagram that carries a checksum keeps its residual.
  predicate Kept(carries: bool, was: seq<Byte>, now: seq<Byte>, off: nat, end: nat, native: bool)
    requires off >= 8
  {
    carries ==> X.ResidualKept(was, now, off - 8, end, native)
  }

  lemma KeptTrans(carries: bool, a: seq<Byte>, b: seq<Byte>, c: seq<Byte>, off: nat, end: nat, native: bool)
    requires off >= 8 && |a| == |b| && Kept(carries, a, b, off, end, native) && Kept(carries, b, c, off, end, native)
    ensures Kept(carries, a, c, off, end, native)
  {
    if carries { X.ResidualTrans(a, b, c, off - 8, end, native); }
  }

  // Equal outside the payload and the two checksum bytes in front of it; without maintenance those are equal too.
  predicate Around(manual: bool, a: seq<Byte>, b: seq<Byte>, off: nat, len: nat) {
    && |a| == |b|
    && forall i :: 0 <= i < |a| && !((if manual then off - 2 else off) <= i < off + len) ==> b[i] == a[i]
  }

  // Equal but for the two bytes of the UDP checksum in front of the payload.
  predicate EqualExceptCheck(a: seq<Byte>, b: seq<Byte>, off: nat) {
    |a| == |b| && forall i :: 0 <= i < |a| && !(off - 2 <= i < off) ==> b[i] == a[i]
  }

  lemma TypeWordResidual(d: seq<Byte>, off: nat, now: seq<Byte>, diff: nat, field: seq<Byte>, end: nat, native: bool)
    requires off >= 8 && |now| == 4 && off + 4 <= end <= |d| && |field| == 2
    requires Cong(diff, 0 - Sum(d[off..off + 4], native) + Sum(now, native))
    requires var check := Sum(d[off - 2..off], native);
      (Sum(field, native) == 0 <==> check == 0) && (check != 0 ==> Cong(Sum(field, native) + diff, check))
    ensures X.ResidualKept(d, Splice(Splice(d, off - 2, field), off, now), off - 8, end, native)
  {
    var mid := Splice(d, off, now);
    var r := Splice(Splice(d, off - 2, field), off, now);
    SplicesCommute(d, off - 2, field, off, now);
    TypeWordTracks(d, off, now, diff, end, native);
    X.FieldAbsorbs(d, mid, r, off - 8, end, diff, field, native);
  }

  lemma TypeWordTracks(d: seq<Byte>, off: nat, now: seq<Byte>, diff: nat, end: nat, native: bool)
    requires off >= 8 && |now| == 4 && off + 4 <= end <= |d|
    requires Cong(diff, 0 - Sum(d[off..off + 4], native) + Sum(now, native))
    ensures var mid := Splice(d, off, now);
      X.Tracks(diff, d, mid, off - 8, end, native) && mid[off - 2..off] == d[off - 2..off]
  {
    var mid := Splice(d, off, now);
    var before, after := Sum(d[off - 8..end], native), Sum(mid[off - 8..end], native);
    assert after == before - Sum(d[off..off + 4], native) + Sum(now, native) by
        { WindowSum(d, off, now, off - 8, end, native); }
    CongSame(diff, 0 - Sum(d[off..off + 4], native) + Sum(now, native), after - before);
  }

  // The payload as it lies in a frame whose checksum field may differ.
  lemma PayloadOf(a: seq<Byte>, b: seq<Byte>, off: nat, len: nat)
    requires EqualExceptCheck(a, b, off) && off + len <= |a|
    ensures b[off..off + len] == a[off..off + len]
  {}

  // Masking from byte lo after the type word was replaced: the new image of the payload.
  lemma NewImage(d: seq<Byte>, mid: seq<Byte>, now: seq<Byte>, off: nat, len: nat, word: seq<Byte>, table: seq<Byte>,
                 lo: nat, target: nat)
    requires |table| == 256 && |word| == 4 <= len && off + len <= |d| && target <= len
    requires EqualExceptCheck(Splice(d, off, word), mid, off)
    requires EqualExceptCheck(X.Xored(mid, off, table, lo, target), now, off)
    ensures now[off..off + len] == X.Xored(word + d[off..off + len][4..], 0, table, lo, target)
  {
    RetypedWindow(d, off, len, word);
    PayloadOf(Splice(d, off, word), mid, off, len);
    XoredWindow(mid, off, len, table, lo, target);
    PayloadOf(X.Xored(mid, off, table, lo, target), now, off, len);
  }

  // Mask from byte `start` through the chain, with checksum maintenance where it is wanted.
  method Mask(buf: Buffer, off: nat, len: nat, cipher: Cipher, start: nat, manual: bool, native: bool)
    returns (ok: bool)
    requires UsableCipher(Some(cipher)) && off >= 8 && off + len <= |buf.data| && G.TargetLength(cipher, len) >= 4
    requires start == 0 || start == 4
    modifies buf
    ensures ok ==>
              && |buf.data| == |old(buf.data)|
              && EqualExceptCheck(X.Xored(old(buf.data), off, cipher.table, start, G.TargetLength(cipher, len)),
                  buf.data, off)
              && Kept(manual, old(buf.data), buf.data, off, off + len, native)
              && (!manual ==> buf.data == X.Xored(old(buf.data), off, cipher.table, start, G.TargetLength(cipher, len)))
  {
    var verdict, programs;
    if manual {
      verdict, programs := X.RunDiffChain(buf, cipher.table, off, G.TargetLength(cipher, len), start, native, off +
          len);
    } else {
      verdict, programs := X.RunChain(buf, cipher.table, off, G.TargetLength(cipher, len), start);
    }
    ok := verdict == X.PASSED;
  }

  // Unmask the first word and find its message type; the length has to fit it.
  method DecodeWord(buf: Buffer, off: nat, len: nat, profile: Profile, cipher: Option<Cipher>)
    returns (ok: bool, word: seq<Byte>, kind: int)
    requires WellFormed(profile) && UsableCipher(cipher) && off + len <= |buf.data|
    ensures ok ==>
              && len >= 4 && |word| == 4 && buf.data[off..off + 4] == word && 0 <= kind < 4
              && (cipher.Some? ==> Target(cipher, len) >= 4)
              && Ingress(profile, cipher, buf.data[off..off + len]) ==
                   Some(Remade(cipher, buf.data[off..off + len], profile.standard[kind], 4))
  {
    ok, word, kind := false, [], -1;
    if len < 4 || !HasTarget(cipher, len) { return; }
    ok, word := buf.Load(off, 4);
    if !ok { return; }
    assert word == buf.data[off..off + len][..4];
    kind := KindFromMixed(profile, Unmasked(cipher, word));
    ok := kind >= 0 && ValidLen(kind, len) && (cipher.Some? ==> Target(cipher, len) >= 4);
  }

  // The payload with a new first word, masked from byte `start`.
  function Remade(cipher: Option<Cipher>, q: seq<Byte>, word: seq<Byte>, start: nat): seq<Byte>
    requires UsableCipher(cipher) && |word| == 4 <= |q|
  {
    if cipher.Some? then X.Xored(word + q[4..], 0, cipher.value.table, start, Target(cipher, |q|)) else word + q[4..]
  }

  // Both directions: replace the type word, then mask.
  method Remake(buf: Buffer, off: nat, len: nat, was: seq<Byte>, now: seq<Byte>, cipher: Option<Cipher>, start: nat,
                manual: bool, native: bool)
    returns (ok: bool)
    requires UsableCipher(cipher) && off >= 8 && 4 <= len && off + len <= |buf.data| && |was| == 4 && |now| == 4
    requires buf.data[off..off + 4] == was && (cipher.Some? ==> Target(cipher, len) >= 4) && (start == 0 || start == 4)
    modifies buf
    ensures ok ==>
              && |buf.data| == |old(buf.data)|
              && buf.data[off..off + len] == Remade(cipher, old(buf.data)[off..off + len], now, start)
              && Kept(manual, old(buf.data), buf.data, off, off + len, native)
              && Around(manual, old(buf.data), buf.data, off, len)
  {
    ghost var d := buf.data;
    ok := UpdateTypeWord(buf, off, was, now, manual, native, off + len);
    if !ok { return; }
    ghost var mid := buf.data;
    AroundWord(manual, d, mid, off, len, now);
    if cipher.None? {
      RetypedWindow(d, off, len, now);
      PayloadOf(Splice(d, off, now), mid, off, len);
      return;
    }
    ok := Mask(buf, off, len, cipher.value, start, manual, native);
    if !ok { return; }
    KeptTrans(manual, d, mid, buf.data, off, off + len, native);
    NewImage(d, mid, buf.data, off, len, now, cipher.value.table, start, Target(cipher, len));
    AroundMask(manual, mid, buf.data, off, len, cipher.value.table, start, Target(cipher, len));
    AroundTrans(manual, d, mid, buf.data, off, len);
  }

  lemma AroundWord(manual: bool, d: seq<Byte>, mid: seq<Byte>, off: nat, len: nat, word: seq<Byte>)
    requires off >= 8 && |word| == 4 <= len && off + len <= |d|
    requires EqualExceptCheck(Splice(d, off, word), mid, off) && (!manual ==> mid == Splice(d, off, word))
    ensures Around(manual, d, mid, off, len)
  {
    var r := Splice(d, off, word);
    forall i | 0 <= i < |d| && !((if manual then off - 2 else off) <= i < off + len) ensures mid[i] == d[i] {
      assert r[i] == d[i];
    }
  }

  lemma AroundMask(manual: bool, mid: seq<Byte>, now: seq<Byte>, off: nat, len: nat, table: seq<Byte>, lo: nat,
                   target: nat)
    requires |table| == 256 && off >= 8 && off + len <= |mid| && target <= len
    requires EqualExceptCheck(X.Xored(mid, off, table, lo, target), now, off)
    requires !manual ==> now == X.Xored(mid, off, table, lo, target)
    ensures Around(manual, mid, now, off, len)
  {
    var r := X.Xored(mid, off, table, lo, target);
    forall i | 0 <= i < |mid| && !((if manual then off - 2 else off) <= i < off + len) ensures now[i] == mid[i] {
      assert r[i] == mid[i];
    }
  }

  lemma AroundTrans(manual: bool, a: seq<Byte>, b: seq<Byte>, c: seq<Byte>, off: nat, len: nat)
    requires Around(manual, a, b, off, len) && Around(manual, b, c, off, len)
    ensures Around(manual, a, c, off, len)
  {
    forall i | 0 <= i < |a| && !((if manual then off - 2 else off) <= i < off + len) ensures c[i] == a[i] {
      assert c[i] == b[i];
    }
  }

  /** The ingress programs: unmask and decode the type word, restore it, then mask the rest from
      byte 4. The payload becomes its ingress image, a datagram that carried a checksum keeps its
      residual, so it verifies exactly when it did before, and no other byte changes. */
  method TransformIngress(buf: Buffer, off: nat, len: nat, profile: Profile, cipher: Option<Cipher>, native: bool)
    returns (ok: bool)
    requires WellFormed(profile) && UsableCipher(cipher) && off >= 8 && off + len <= |buf.data|
    modifies buf
    ensures ok ==>
              && |buf.data| == |old(buf.data)|
              && Ingress(profile, cipher, old(buf.data)[off..off + len]) == Some(buf.data[off..off + len])
              && var manual := Sum(old(buf.data)[off - 2..off], native) != 0;
              && Kept(manual, old(buf.data), buf.data, off, off + len, native)
              && Around(manual, old(buf.data), buf.data, off, len)
  {
    ghost var d := buf.data;
    var word, kind;
    ok, word, kind := DecodeWord(buf, off, len, profile, cipher);
    if !ok { return; }
    var gotCheck, check := buf.Load(off - 2, 2);
    if !gotCheck { return false; }
    var manual := NativeValue(check, native) != 0;
    ok := Remake(buf, off, len, word, profile.standard[kind], cipher, 4, manual, native);
  }

  /** The egress programs: look the type word up, disguise it, then mask the prefix through the tail-call
      chain. The payload becomes its egress image and nothing else changes. An IPv6 datagram has its
      checksum maintained by hand and keeps its residual; for IPv4 the kernel recomputes it later. */
  method TransformEgress(buf: Buffer, off: nat, len: nat, profile: Profile, cipher: Option<Cipher>, ipv6: bool,
                         native: bool)
    returns (ok: bool)
    requires WellFormed(profile) && UsableCipher(cipher) && off >= 8 && off + len <= |buf.data|
    modifies buf
    ensures ok ==>
              && |buf.data| == |old(buf.data)|
              && var p := old(buf.data)[off..off + len];
              && Accepted(cipher, p) && (cipher.Some? ==> Target(cipher, len) >= 4)
              && buf.data[off..off + len] == Egress(profile, cipher, p)
              && Kept(ipv6, old(buf.data), buf.data, off, off + len, native)
              && Around(ipv6, old(buf.data), buf.data, off, len)
  {
    ghost var p := buf.data[off..off + len];
    if len < 4 { return false; }
    var loaded, word := buf.Load(off, 4);
    if !loaded { return false; }
    assert word == p[..4];
    var kind := KindFromStandard(word);
    if kind < 0 || !ValidLen(kind, len) || !HasTarget(cipher, len) { return false; }
    if cipher.Some? && Target(cipher, len) < 4 { return false; }
    ok := Remake(buf, off, len, word, profile.mixed[kind], cipher, 0, ipv6, native);
    assert Remade(cipher, p, profile.mixed[kind], 0) == Egress(profile, cipher, p);
  }
}
