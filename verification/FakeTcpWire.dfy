/** UDP datagrams disguised as TCP segments: the twelve extra header bytes are made room for by
    moving the first twelve payload bytes to the tail. This module holds the encoder, the XDP
    decoder and their checksum arithmetic. */
module FakeTcpWire {
  import opened Bytes
  import opened Checksum
  import opened PacketBuffer
  import S = Session

  const DELTA := 12
  const MAX_IPV4_TOTAL_LEN := 2304
  const CHUNK_BYTES := 32
  const CHUNK_COUNT := 72
  const UDP: nat := 17
  const TCP: nat := 6

  // ----- Rotation -----

  function Rotated(p: seq<Byte>): (w: seq<Byte>)
    requires |p| >= DELTA
    ensures |w| == |p|
  {
    p[DELTA..] + p[..DELTA]
  }

  function Unrotated(w: seq<Byte>): (p: seq<Byte>)
    requires |w| >= DELTA
    ensures |p| == |w|
  {
    w[|w| - DELTA..] + w[..|w| - DELTA]
  }

  lemma RotationInverts(p: seq<Byte>)
    requires |p| >= DELTA
    ensures Unrotated(Rotated(p)) == p && Rotated(Unrotated(p)) == p
  {}

  /** Moving the head to the tail leaves the sum alone at even lengths; at odd lengths the head
      lands on odd offsets and counts with its bytes swapped. */
  lemma RotationSum(w: seq<Byte>, native: bool)
    requires |w| >= DELTA
    ensures var head := w[|w| - DELTA..];
      Sum(w, native) - Sum(Unrotated(w), native) ==
        if |w| % 2 == 0 then 0 else Sum(head, !native) - Sum(head, native)
  {
    var head, rest := w[|w| - DELTA..], w[..|w| - DELTA];
    assert w == rest + head;
    SumCat(rest, head, native);
    SumCat(head, rest, native);
  }

  // ----- Headers -----

  function Be16Value(s: seq<Byte>): nat requires |s| == 2 { Sum(s, false) }

  function Be32Value(s: seq<Byte>): nat requires |s| == 4 { Sum(s[..2], false) * 0x1_0000 + Sum(s[2..], false) }

  /** A TCP header with ACK|PSH, five words, no options and no urgent pointer. */
  predicate TcpFields(t: seq<Byte>, ports: seq<Byte>, sequence: nat, ack: nat, window: nat) {
    && |t| == 20 && |ports| == 4 && t[..4] == ports
    && Be32Value(t[4..8]) == sequence && Be32Value(t[8..12]) == ack
    && t[12] == 0x50 && t[13] == 0x18
    && Be16Value(t[14..16]) == window && t[18..] == [0, 0]
  }

  method PutBe32(n: nat) returns (s: seq<Byte>)
    requires n < 0x1_0000_0000
    ensures |s| == 4 && Be32Value(s) == n
  {
    var high := PutBe16(n / 0x1_0000);
    var low := PutBe16(n % 0x1_0000);
    s := high + low;
    assert s[..2] == high && s[2..] == low;
  }

  method BuildTcp(ports: seq<Byte>, sequence: nat, ack: nat, window: nat) returns (t: seq<Byte>)
    requires |ports| == 4 && sequence < 0x1_0000_0000 && ack < 0x1_0000_0000 && window < 0x1_0000
    ensures TcpFields(t, ports, sequence, ack, window) && t[16..18] == [0, 0]
  {
    var a := PutBe32(sequence);
    var b := PutBe32(ack);
    var c := PutBe16(window);
    t := ports + a + b + [0x50, 0x18] + c + [0, 0, 0, 0];
    assert t[4..8] == a && t[8..12] == b && t[14..16] == c;
  }

  function ProtocolSum(protocol: nat, native: bool): nat { if native then 256 * protocol else protocol }

  /** The sum a receiver takes over pseudo-header, transport header and payload. */
  function SegmentSum(addresses: seq<Byte>, protocol: nat, segment: seq<Byte>, native: bool): nat
    requires |segment| < 0x1_0000
  {
    PseudoSum(addresses, protocol, |segment|, native) + Sum(segment, native)
  }

  /** A transport checksum verifies when the big-endian sum is zero modulo 65535. */
  predicate Verifies(addresses: seq<Byte>, protocol: nat, segment: seq<Byte>)
    requires |segment| < 0x1_0000
  {
    Cong(SegmentSum(addresses, protocol, segment, false), 0)
  }

  lemma ZeroWord(native: bool)
    ensures Sum([0, 0], native) == 0
  {
    TwoByteSum(0, 0, native);
  }

  // The last four bytes of a pseudo-header.
  method PseudoTail(protocol: nat, length: nat, native: bool) returns (s: seq<Byte>)
    requires protocol < 256 && length < 0x1_0000
    ensures |s| == 4 && Sum(s, native) == ProtocolSum(protocol, native) + HalfSum(length, native)
  {
    var tail := PutBe16(length);
    var b := ToByte(protocol);
    s := [0, b] + tail;
    TwoByteSum(0, b, native);
    SumCat([0, b], tail, native);
  }

  // ----- Checksum of a built TCP segment -----

  /** Walk the payload in 32-byte chunks and zero pad the last; the chunk budget always covers it. */
  method SumPayload(buf: Buffer, off: nat, len: nat, seed: nat, native: bool) returns (ok: bool, sum: int)
    requires off + len <= |buf.data| && len <= MAX_IPV4_TOTAL_LEN && seed < WSUM
    ensures ok ==> 0 <= sum < WSUM && Cong(sum, seed + Sum(buf.data[off..off + len], native))
  {
    ok, sum := false, seed;
    var processed, rounds := 0, 0;
    SummedStarts(buf.data, off, seed, native);
    while rounds < CHUNK_COUNT && processed + CHUNK_BYTES <= len
      invariant rounds <= CHUNK_COUNT && processed == CHUNK_BYTES * rounds <= len
      invariant Summed(buf.data, off, processed, seed, sum, native)
    {
      sum := SumPiece(buf, off, processed, CHUNK_BYTES, 0, seed, sum, native);
      if sum < 0 { return; }
      processed := processed + CHUNK_BYTES;
      rounds := rounds + 1;
    }
    if processed < len {
      sum := SumPiece(buf, off, processed, len - processed, CHUNK_BYTES - (len - processed), seed, sum, native);
      if sum < 0 { return; }
    }
    ok := true;
  }

  // sum is the seed and the first done bytes from off.
  ghost predicate Summed(d: seq<Byte>, off: nat, done: nat, seed: int, sum: int, native: bool) {
    off + done <= |d| && 0 <= sum < WSUM && Cong(sum, seed + Sum(d[off..off + done], native))
  }

  lemma SummedStarts(d: seq<Byte>, off: nat, seed: nat, native: bool)
    requires off <= |d| && seed < WSUM
    ensures Summed(d, off, 0, seed, seed, native)
  {
    assert d[off..off + 0] == [];
  }

  // Add n more bytes, zero padded to whole words.
  method SumPiece(buf: Buffer, off: nat, done: nat, n: nat, pad: nat, ghost seed: int, sum: nat, native: bool)
    returns (next: int)
    requires (n + pad) % 4 == 0 && done % 2 == 0 && Summed(buf.data, off, done, seed, sum, native)
    ensures next >= 0 ==> Summed(buf.data, off, done + n, seed, next, native)
  {
    var loaded, chunk := buf.Load(off + done, n);
    if !loaded { return -1; }
    next := CsumAdd(chunk + Zeros(pad), sum, native);
    if next >= 0 {
      SumPadded(chunk, pad, native);
      ChunkAdds(buf.data, off, done, n, seed, sum, next, native);
    }
  }

  /** The checksum field of a built TCP segment: the one value that makes it verify. */
  method MaterializeTcpChecksum(buf: Buffer, addresses: seq<Byte>, tcp: seq<Byte>, off: nat, len: nat, native: bool)
    returns (ok: bool, check: int)
    requires |addresses| == 8 && |tcp| == 20 && off + len <= |buf.data| && len < 0x1_0000 - 20
    ensures 0 <= check < 0x1_0000
    ensures ok ==> check == FieldFor(SegmentSum(addresses, TCP, tcp + buf.data[off..off + len], native))
  {
    ok, check := false, 0;
    if len > MAX_IPV4_TOTAL_LEN - 28 { return; }
    var sum := AddPseudo(addresses, TCP, 20 + len, native);
    if sum < 0 { return; }
    var withHeader := CsumAdd(tcp, sum, native);
    if withHeader < 0 { return; }
    var all;
    ok, all := SumPayload(buf, off, len, withHeader, native);
    if !ok { return; }
    check := FoldToField(all);
    ghost var payload := buf.data[off..off + len];
    AddThree(PseudoSum(addresses, TCP, 20 + len, native), sum, Sum(tcp, native), withHeader, Sum(payload, native), all);
    SegmentSplit(addresses, TCP, tcp, payload, native);
    FieldForCong(all, SegmentSum(addresses, TCP, tcp + payload, native));
  }

  method AddPseudo(addresses: seq<Byte>, protocol: nat, length: nat, native: bool) returns (sum: int)
    requires |addresses| == 8 && protocol < 256 && length < 0x1_0000
    ensures sum < WSUM
    ensures sum >= 0 ==> Cong(sum, 0 + PseudoSum(addresses, protocol, length, native))
  {
    var tail := PseudoTail(protocol, length, native);
    sum := CsumAdd(addresses + tail, 0, native);
    SumCat(addresses, tail, native);
  }

  function PseudoSum(addresses: seq<Byte>, protocol: nat, length: nat, native: bool): nat
    requires length < 0x1_0000
  {
    Sum(addresses, native) + (ProtocolSum(protocol, native) + HalfSum(length, native))
  }

  lemma SegmentSplit(addresses: seq<Byte>, protocol: nat, header: seq<Byte>, payload: seq<Byte>, native: bool)
    requires |header| % 2 == 0 && |header| + |payload| < 0x1_0000
    ensures SegmentSum(addresses, protocol, header + payload, native) ==
            PseudoSum(addresses, protocol, |header| + |payload|, native) + (Sum(header, native) + Sum(payload, native))
  {
    var segment, n := header + payload, |header| + |payload|;
    assert SegmentSum(addresses, protocol, segment, native) == PseudoSum(addresses, protocol, n, native) +
        Sum(segment, native);
    assert Sum(segment, native) == Sum(header, native) + Sum(payload, native) by { SumCat(header, payload, native); }
  }

  lemma AddThree(a: int, sum: int, b: int, withHeader: int, c: int, all: int)
    requires Cong(sum, 0 + a) && Cong(withHeader, sum + b) && Cong(all, withHeader + c)
    ensures Cong(all, a + (b + c))
  {
    var k := CongQuotient(sum, a);
    var l := CongQuotient(withHeader, sum + b);
    var m := CongQuotient(all, withHeader + c);
    CongByQuotient(all, a + (b + c), k + l + m);
  }

  lemma ChunkAdds(d: seq<Byte>, off: nat, done: nat, n: nat, fixed: int, sum: int, next: int, native: bool)
    requires off + done + n <= |d| && done % 2 == 0
    requires Cong(sum, fixed + Sum(d[off..off + done], native))
    requires Cong(next, sum + Sum(d[off + done..off + done + n], native))
    ensures Cong(next, fixed + Sum(d[off..off + done + n], native))
  {
    var a, b := d[off..off + done], d[off + done..off + done + n];
    assert d[off..off + done + n] == a + b;
    SumCat(a, b, native);
    var k := CongQuotient(sum, fixed + Sum(a, native));
    var l := CongQuotient(next, sum + Sum(b, native));
    CongByQuotient(next, fixed + Sum(a, native) + Sum(b, native), k + l);
  }

  // ----- IPv4 header rewrite -----

  // New length and protocol, all other fields kept, and a header checksum with the same residual.
  predicate IpRewritten(h: seq<Byte>, r: seq<Byte>, total: nat, protocol: Byte, native: bool) {
    && |h| == 20 && |r| == 20
    && Be16Value(r[2..4]) == total && r[9] == protocol
    && r[..2] == h[..2] && r[4..9] == h[4..9] && r[12..] == h[12..]
    && Cong(Sum(r, native), Sum(h, native))
  }

  // One word replaced and the checksum field moved the other way: the residual stays.
  lemma FieldOffsets(sum: int, was: int, now: int, from: int, to: int)
    requires Cong(now + to, was + from)
    ensures Cong(sum - was + now - from + to, sum)
  {
    var k := CongQuotient(now + to, was + from);
    CongByQuotient(sum - was + now - from + to, sum, k);
  }

  lemma HeaderSlices(d: seq<Byte>, mid: seq<Byte>, now: seq<Byte>, ip: nat, len: seq<Byte>, word: seq<Byte>)
    requires ip + 20 <= |d| && |len| == 2 && |word| == 2
    requires mid == Splice(d, ip + 10, word) && now == Splice(mid, ip + 2, len)
    ensures var h, r := d[ip..ip + 20], now[ip..ip + 20];
      && now[..ip] == d[..ip] && now[ip + 20..] == d[ip + 20..] && mid[ip + 2..ip + 4] == d[ip + 2..ip + 4]
      && r[2..4] == len && r[9] == h[9] && r[..2] == h[..2] && r[4..9] == h[4..9] && r[12..] == h[12..]
  {
    var h, r := d[ip..ip + 20], now[ip..ip + 20];
    assert forall i :: 0 <= i < 20 && i != 2 && i != 3 && i != 10 && i != 11 ==> r[i] == h[i];
    assert r[2..4] == now[ip + 2..ip + 4];
  }

  method ReplaceTotalLength(buf: Buffer, ip: nat, to: nat, native: bool) returns (ok: bool)
    requires ip + 20 <= |buf.data| && to < 0x1_0000
    modifies buf
    ensures ok ==>
              && |buf.data| == |old(buf.data)|
              && buf.data[..ip] == old(buf.data)[..ip] && buf.data[ip + 20..] == old(buf.data)[ip + 20..]
              && IpRewritten(old(buf.data)[ip..ip + 20], buf.data[ip..ip + 20], to, old(buf.data)[ip + 9], native)
  {
    ghost var d := buf.data;
    ghost var word;
    var from := buf.data[ip + 2..ip + 4];
    var bytes := PutBe16(to);
    ok, word := ReplaceL3(buf, ip + 10, from, bytes, native);
    if !ok { return; }
    ghost var mid := buf.data;
    ok := buf.Store(ip + 2, bytes);
    if !ok { return; }
    WindowSum(d, ip + 10, word, ip, ip + 20, native);
    WindowSum(mid, ip + 2, bytes, ip, ip + 20, native);
    HeaderSlices(d, mid, buf.data, ip, bytes, word);
    FieldOffsets(Sum(d[ip..ip + 20], native), Sum(d[ip + 10..ip + 12], native), Sum(word, native),
                 Sum(from, native), Sum(bytes, native));
  }

  lemma ProtocolWord(ttl: Byte, from: Byte, to: Byte, native: bool)
    ensures Sum([ttl, to], native) - Sum([ttl, from], native) == Sum([0, to], native) - Sum([0, from], native)
  {
    TwoByteSum(ttl, from, native); TwoByteSum(ttl, to, native);
    TwoByteSum(0, from, native); TwoByteSum(0, to, native);
  }

  lemma ProtocolSlices(d: seq<Byte>, mid: seq<Byte>, now: seq<Byte>, ip: nat, to: Byte, word: seq<Byte>)
    requires ip + 20 <= |d| && |word| == 2
    requires mid == Splice(d, ip + 10, word) && now == Splice(mid, ip + 9, [to])
    ensures now == Splice(mid, ip + 8, [d[ip + 8], to]) && mid[ip + 8..ip + 10] == [d[ip + 8], d[ip + 9]]
    ensures var h, r := d[ip..ip + 20], now[ip..ip + 20];
      && now[..ip] == d[..ip] && now[ip + 20..] == d[ip + 20..]
      && r[..9] == h[..9] && r[9] == to && r[12..] == h[12..]
  {
    var z, h, r := Splice(mid, ip + 8, [d[ip + 8], to]), d[ip..ip + 20], now[ip..ip + 20];
    assert forall i :: 0 <= i < |d| && i != ip + 9 && i != ip + 10 && i != ip + 11 ==> now[i] == d[i];
    forall i | 0 <= i < |d| ensures now[i] == z[i] {}
    forall i | 0 <= i < 20 && i != 9 && i != 10 && i != 11 ensures r[i] == h[i] {
      assert r[i] == now[ip + i] && h[i] == d[ip + i];
    }
    assert mid[ip + 8] == d[ip + 8] && mid[ip + 9] == d[ip + 9];
  }

  method ReplaceProtocol(buf: Buffer, ip: nat, to: Byte, native: bool) returns (ok: bool)
    requires ip + 20 <= |buf.data|
    modifies buf
    ensures ok ==>
              && |buf.data| == |old(buf.data)|
              && buf.data[..ip] == old(buf.data)[..ip] && buf.data[ip + 20..] == old(buf.data)[ip + 20..]
              && var h, r := old(buf.data)[ip..ip + 20], buf.data[ip..ip + 20];
              && r[..9] == h[..9] && r[9] == to && r[12..] == h[12..]
              && Cong(Sum(r, native), Sum(h, native))
  {
    ghost var d := buf.data;
    ghost var word;
    var from := buf.data[ip + 9];
    ok, word := ReplaceL3(buf, ip + 10, [0, from], [0, to], native);
    if !ok { return; }
    ghost var mid := buf.data;
    ok := buf.Store(ip + 9, [to]);
    if !ok { return; }
    ghost var ttl := d[ip + 8];
    ProtocolSlices(d, mid, buf.data, ip, to, word);
    WindowSum(d, ip + 10, word, ip, ip + 20, native);
    WindowSum(mid, ip + 8, [ttl, to], ip, ip + 20, native);
    ProtocolWord(ttl, from, to, native);
    FieldOffsets(Sum(d[ip..ip + 20], native), Sum(d[ip + 10..ip + 12], native), Sum(word, native),
                 Sum([0, from], native), Sum([0, to], native));
  }

  method RewriteIpHeader(buf: Buffer, ip: nat, total: nat, protocol: Byte, native: bool) returns (ok: bool)
    requires ip + 20 <= |buf.data| && total < 0x1_0000
    modifies buf
    ensures ok ==>
              && |buf.data| == |old(buf.data)|
              && buf.data[..ip] == old(buf.data)[..ip] && buf.data[ip + 20..] == old(buf.data)[ip + 20..]
              && IpRewritten(old(buf.data)[ip..ip + 20], buf.data[ip..ip + 20], total, protocol, native)
  {
    ghost var h := buf.data[ip..ip + 20];
    ok := ReplaceTotalLength(buf, ip, total, native);
    if !ok { return; }
    ghost var m := buf.data[ip..ip + 20];
    ok := ReplaceProtocol(buf, ip, protocol, native);
    if !ok { return; }
    ghost var r := buf.data[ip..ip + 20];
    CongTrans(Sum(r, native), Sum(m, native), Sum(h, native));
    assert r[2..4] == r[..9][2..4] == m[..9][2..4] == m[2..4];
    assert r[..2] == r[..9][..2] == m[..9][..2] == m[..2] && r[4..9] == r[..9][4..9] == m[..9][4..9] == m[4..9];
  }

  // ----- Encoder -----

  /** An admitted egress packet: where its parts lie, and the addresses and ports of its session key. */
  datatype Egress = Egress(ipOff: nat, udpOff: nat, payloadOff: nat, payloadLen: nat, addresses: seq<Byte>,
      ports: seq<Byte>)

  // A frame that ends with one fixed-header IPv4 UDP datagram of this payload length.
  predicate UdpFrame(d: seq<Byte>, ip: nat, len: nat) {
    && |d| == ip + 28 + len && DELTA <= len <= MAX_IPV4_TOTAL_LEN - 28
    && Be16Value(d[ip + 2..ip + 4]) == 28 + len
    && Be16Value(d[ip + 24..ip + 26]) == 8 + len
  }

  /** The wire frame of a datagram: link header kept, IPv4 header rewritten, and a TCP segment
      over the rotated payload that verifies. */
  predicate Encoded(d: seq<Byte>, w: seq<Byte>, ip: nat, len: nat, tx: S.MutationResult, native: bool) {
    && UdpFrame(d, ip, len) && |w| == |d| + DELTA
    && w[..ip] == d[..ip]
    && IpRewritten(d[ip..ip + 20], w[ip..ip + 20], 40 + len, 6, native)
    && TcpFields(w[ip + 20..ip + 40], d[ip + 20..ip + 24], tx.sequence, tx.acknowledgement,
                 if tx.window != 0 then tx.window else 0xFFFF)
    && w[ip + 40..] == Rotated(d[ip + 28..])
    && Sum(w[ip + 36..ip + 38], native) != 0
    && Cong(SegmentSum(d[ip + 12..ip + 20], TCP, w[ip + 20..], native), 0)
  }

  // Make room at the tail and copy the first twelve payload bytes there.
  method MoveHead(buf: Buffer, payloadOff: nat) returns (ok: bool)
    requires payloadOff <= |buf.data|
    modifies buf
    ensures ok ==>
              && payloadOff + DELTA <= |old(buf.data)|
              && buf.data == old(buf.data) + old(buf.data)[payloadOff..payloadOff + DELTA]
  {
    ghost var d := buf.data;
    var loaded, head := buf.Load(payloadOff, DELTA);
    if !loaded { return false; }
    ok := buf.Grow(DELTA);
    if !ok { return; }
    ok := buf.Store(|buf.data| - DELTA, head);
    if ok { assert buf.data == d + head; }
  }

  // The header with its checksum filled in makes the segment verify.
  lemma CheckedSegment(addresses: seq<Byte>, bare: seq<Byte>, field: seq<Byte>, payload: seq<Byte>, native: bool)
    requires |bare| == 20 && bare[16..18] == [0, 0] && |field| == 2 && 20 + |payload| < 0x1_0000
    requires Sum(field, native) == FieldFor(SegmentSum(addresses, TCP, bare + payload, native))
    ensures Cong(SegmentSum(addresses, TCP, Splice(bare, 16, field) + payload, native), 0)
  {
    SegmentSplit(addresses, TCP, bare, payload, native);
    SegmentSplit(addresses, TCP, Splice(bare, 16, field), payload, native);
    SpliceSum(bare, 16, field, native);
    ZeroWord(native);
  }

  lemma CheckedFields(bare: seq<Byte>, field: seq<Byte>, ports: seq<Byte>, sequence: nat, ack: nat, window: nat)
    requires TcpFields(bare, ports, sequence, ack, window) && |field| == 2
    ensures TcpFields(Splice(bare, 16, field), ports, sequence, ack, window)
  {
    var t := Splice(bare, 16, field);
    assert t[..4] == bare[..4] && t[4..8] == bare[4..8] && t[8..12] == bare[8..12] && t[14..16] == bare[14..16]
           && t[18..] == bare[18..];
  }

  /** Build the TCP header for a rotated payload that starts twenty bytes further on, and store it. */
  method WriteTcp(buf: Buffer, udp: nat, len: nat, addresses: seq<Byte>, ports: seq<Byte>, tx: S.MutationResult,
                  native: bool)
    returns (ok: bool)
    requires |addresses| == 8 && |ports| == 4 && |buf.data| == udp + 20 + len && len < 0x1_0000 - 20
    requires tx.sequence < S.U32 && tx.acknowledgement < S.U32 && tx.window < 0x1_0000
    modifies buf
    ensures ok ==>
              && |buf.data| == |old(buf.data)|
              && buf.data[..udp] == old(buf.data)[..udp] && buf.data[udp + 20..] == old(buf.data)[udp + 20..]
              && TcpFields(buf.data[udp..udp + 20], ports, tx.sequence, tx.acknowledgement,
                           if tx.window != 0 then tx.window else 0xFFFF)
              && Sum(buf.data[udp + 16..udp + 18], native) != 0
              && Cong(SegmentSum(addresses, TCP, buf.data[udp..], native), 0)
  {
    ghost var d := buf.data;
    var bare := BuildTcp(ports, tx.sequence, tx.acknowledgement, if tx.window != 0 then tx.window else 0xFFFF);
    var check;
    ok, check := MaterializeTcpChecksum(buf, addresses, bare, udp + 20, len, native);
    if !ok { return; }
    var field := PutNative16(check, native);
    assert d[udp + 20..udp + 20 + len] == d[udp + 20..];
    CheckedSegment(addresses, bare, field, d[udp + 20..], native);
    CheckedFields(bare, field, ports, tx.sequence, tx.acknowledgement, if tx.window != 0 then tx.window else 0xFFFF);
    var tcp := Splice(bare, 16, field);
    ok := buf.Store(udp, tcp);
    if !ok { return; }
    SpliceParts(d, udp, tcp);
    SpliceParts(bare, 16, field);
    SliceInWindow(buf.data, udp, udp + 20, udp + 16, udp + 18);
  }

  // What rotation and the header writes leave behind, put together.
  lemma EncodedParts(d: seq<Byte>, m: seq<Byte>, t: seq<Byte>, w: seq<Byte>, ip: nat, len: nat, tx: S.MutationResult,
                     native: bool)
    requires UdpFrame(d, ip, len) && m == d + d[ip + 28..ip + 40] && |t| == |m| && |w| == |m|
    requires t[..ip + 20] == m[..ip + 20] && t[ip + 40..] == m[ip + 40..]
    requires TcpFields(t[ip + 20..ip + 40], d[ip + 20..ip + 24], tx.sequence, tx.acknowledgement,
        if tx.window != 0 then tx.window else 0xFFFF)
    requires Sum(t[ip + 36..ip + 38], native) != 0
    requires Cong(SegmentSum(d[ip + 12..ip + 20], TCP, t[ip + 20..], native), 0)
    requires w[..ip] == t[..ip] && w[ip + 20..] == t[ip + 20..]
    requires IpRewritten(t[ip..ip + 20], w[ip..ip + 20], 40 + len, 6, native)
    ensures Encoded(d, w, ip, len, tx, native)
  {
    SamePrefix(t, m, ip + 20, ip, ip + 20);
    assert t[ip..ip + 20] == d[ip..ip + 20];
    SamePrefix(t, m, ip + 20, 0, ip);
    assert t[..ip] == t[0..ip] == m[0..ip] == d[..ip];
    SameSuffix(w, t, ip + 20, ip + 40, |w|);
    assert w[ip + 40..] == w[ip + 40..|w|] == t[ip + 40..|w|] == t[ip + 40..];
    assert m[ip + 40..] == Rotated(d[ip + 28..]);
    SameSuffix(w, t, ip + 20, ip + 20, ip + 40);
    SameSuffix(w, t, ip + 20, ip + 36, ip + 38);
  }

  // Headers re-read and compared with the session key and the declared lengths.
  method CheckEnvelope(buf: Buffer, e: Egress) returns (ok: bool)
    requires |e.addresses| == 8 && |e.ports| == 4
    ensures ok ==>
              && e.udpOff == e.ipOff + 20 && e.payloadOff == e.ipOff + 28
              && e.ipOff + 28 + e.payloadLen == |buf.data| && 28 + e.payloadLen <= MAX_IPV4_TOTAL_LEN
              && Be16Value(buf.data[e.ipOff + 2..e.ipOff + 4]) == 28 + e.payloadLen
              && Be16Value(buf.data[e.ipOff + 24..e.ipOff + 26]) == 8 + e.payloadLen
              && buf.data[e.ipOff + 12..e.ipOff + 20] == e.addresses && buf.data[e.ipOff + 20..e.ipOff + 24] == e.ports
  {
    var ip := e.ipOff;
    if e.udpOff != ip + 20 || e.payloadOff != ip + 28 || |buf.data| < ip + 28 { return false; }
    var loaded, headers := buf.Load(ip, 28);
    if !loaded || headers[12..20] != e.addresses || headers[20..24] != e.ports { return false; }
    HeaderBytes(buf.data, ip, headers);
    var total, udpLen := NativeValue(headers[2..4], false), NativeValue(headers[24..26], false);
    ok := udpLen == e.payloadLen + 8 && total == 20 + udpLen && total <= MAX_IPV4_TOTAL_LEN && |buf.data| - ip == total;
  }

  /** The established-session encoder. A packet leaves only if it matched its session key, the
      session admitted exactly one TX of its length, and the frame is the encoded one. */
  method Encode(buf: Buffer, e: Egress, session: S.Stored?, generation: nat, now: nat,
                authority: S.Authority, projection: S.Projection, native: bool)
    returns (passed: bool, ghost tx: S.MutationResult)
    requires session != null ==> S.InRange(session.Snapshot())
    requires |e.addresses| == 8 && |e.ports| == 4
    modifies buf, if session == null then {} else {session}
    ensures passed ==>
              && session != null
              && var was, call :=
                   old(session.Snapshot()), S.Call(generation, now, S.TX, e.payloadLen, authority, projection);
              && S.Admits(was, call) && session.Snapshot() == S.Mutated(was, call)
              && tx == S.MutationResult(was.tx, was.rx, was.identity.window)
              && Encoded(old(buf.data), buf.data, e.ipOff, e.payloadLen, tx, native)
              && old(buf.data)[e.ipOff + 12..e.ipOff + 20] == e.addresses
              && old(buf.data)[e.ipOff + 20..e.ipOff + 24] == e.ports
  {
    passed := false;
    tx := S.MutationResult(0, 0, 0);
    var ok := CheckEnvelope(buf, e);
    if !ok || session == null { return; }
    ghost var d := buf.data;
    ok := MoveHead(buf, e.payloadOff);
    if !ok { return; }
    ghost var m := buf.data;
    var admitted, result := session.Mutate(S.Call(generation, now, S.TX, e.payloadLen, authority, projection));
    if !admitted { return; }
    tx := result;
    ok := WriteTcp(buf, e.udpOff, e.payloadLen, e.addresses, e.ports, result, native);
    if !ok { return; }
    ghost var t := buf.data;
    passed := RewriteIpHeader(buf, e.ipOff, 40 + e.payloadLen, 6, native);
    if passed { EncodedParts(d, m, t, buf.data, e.ipOff, e.payloadLen, tx, native); }
  }

  lemma HeaderBytes(d: seq<Byte>, ip: nat, headers: seq<Byte>)
    requires ip + 28 <= |d| && headers == d[ip..ip + 28]
    ensures headers[2..4] == d[ip + 2..ip + 4] && headers[24..26] == d[ip + 24..ip + 26]
    ensures headers[12..20] == d[ip + 12..ip + 20] && headers[20..24] == d[ip + 20..ip + 24]
    ensures d[ip + 12..ip + 24] == headers[12..20] + headers[20..24]
  {
    SliceInWindow(d, ip, ip + 28, ip + 2, ip + 4);
    SliceInWindow(d, ip, ip + 28, ip + 24, ip + 26);
    SliceInWindow(d, ip, ip + 28, ip + 12, ip + 20);
    SliceInWindow(d, ip, ip + 28, ip + 20, ip + 24);
  }

  // ----- XDP decoder -----

  /** Correction for a twelve-byte block that moves by one byte: `inverse` takes the shifted
      copy out and puts the aligned one in. */
  method RotationChecksum(head: seq<Byte>, seed: nat, inverse: bool, native: bool) returns (r: int)
    requires |head| == DELTA && seed < WSUM
    ensures r < WSUM
    ensures r >= 0 ==>
              Cong(r, if inverse then seed - Sum(head, !native) + Sum(head, native)
                      else seed - Sum(head, native) + Sum(head, !native))
  {
    var aligned := head + Zeros(4);
    var shifted := [0] + (head + Zeros(3));
    SumPadded(head, 4, native);
    SumPadded(head, 3, !native);
    SumCat([0], head + Zeros(3), native);
    OneZero(native);
    if inverse {
      r := CsumDiff(shifted, aligned, seed, native);
    } else {
      r := CsumDiff(aligned, shifted, seed, native);
    }
  }

  lemma OneZero(native: bool)
    ensures Sum([0], native) == 0
  {
    assert Sum([0], native) == (0 as bv8 as int) * (if native then 1 else 256) + Sum([], !native);
  }

  // What swapping the head's alignment adds at this payload length.
  function Shift(head: seq<Byte>, len: nat, native: bool): int {
    if len % 2 == 0 then 0 else Sum(head, !native) - Sum(head, native)
  }

  function TransportSum(protocol: nat, length: nat, header: seq<Byte>, native: bool): nat
    requires length < 0x1_0000
  {
    ProtocolSum(protocol, native) + HalfSum(length, native) + Sum(header, native)
  }

  // The checksum field that turns the TCP sum into the UDP sum.
  method DeriveField(tcp: seq<Byte>, bare: seq<Byte>, tail: seq<Byte>, len: nat, native: bool)
    returns (ok: bool, check: nat)
    requires |tcp| == 20 && |bare| == 8 && |tail| == DELTA && len < 0x1_0000 - 20
    ensures check < 0x1_0000
    ensures ok ==>
              && check != 0
              && Cong(TransportSum(UDP, len + 8, bare, native) + check, TransportSum(TCP, len + 20, tcp, native) +
                  Shift(tail, len, native))
  {
    ok, check := false, 0;
    var oldTail := PseudoTail(TCP, len + 20, native);
    var newTail := PseudoTail(UDP, len + 8, native);
    var seed := 65535 - NativeValue(tcp[16..18], native);
    var zeroed := Splice(tcp, 16, [0, 0]);
    var a := CsumDiff(oldTail, newTail, seed, native);
    if a < 0 { return; }
    var b := CsumDiff(zeroed, bare, a, native);
    if b < 0 { return; }
    var c := b;
    if len % 2 == 1 {
      c := RotationChecksum(tail, b, true, native);
      if c < 0 { return; }
    }
    check := FoldToField(c);
    ok := true;
    SpliceSum(tcp, 16, [0, 0], native);
    ZeroWord(native);
    DerivedField(Sum(tcp[16..18], native), Sum(oldTail, native), Sum(newTail, native), Sum(zeroed, native),
                 Sum(bare, native), Shift(tail, len, native), a, b, c, check);
  }

  /** The UDP header for a decoded packet: its checksum is derived from the TCP checksum alone,
      without reading the payload. */
  method DeriveUdp(tcp: seq<Byte>, tail: seq<Byte>, len: nat, native: bool) returns (ok: bool, udp: seq<Byte>)
    requires |tcp| == 20 && |tail| == DELTA && len < 0x1_0000 - 20
    ensures ok ==> HeaderDerived(tcp, tail, udp, len, native)
  {
    var udpLen := PutBe16(len + 8);
    var bare := tcp[..4] + udpLen + [0, 0];
    var check;
    ok, check := DeriveField(tcp, bare, tail, len, native);
    var field := PutNative16(check, native);
    udp := Splice(bare, 6, field);
    assert bare[6..8] == [0, 0] && udp[6..] == field && udp[4..6] == udpLen && udp[..4] == bare[..4] == tcp[..4];
    SpliceSum(bare, 6, field, native);
    ZeroWord(native);
  }

  // The arithmetic of the derivation, on plain integers.
  lemma DerivedField(check: int, oldTail: int, newTail: int, tcp: int, udp: int, shift: int, a: int, b: int, c: int,
                     field: int)
    requires Cong(a, 65535 - check - oldTail + newTail) && Cong(b, a - tcp + udp) && Cong(c, b - shift)
    requires field == FieldFor(c)
    ensures Cong(newTail + (udp + field), oldTail + (tcp + check) + shift)
  {
    var j := CongQuotient(a, 65535 - check - oldTail + newTail);
    var k := CongQuotient(b, a - tcp + udp);
    var l := CongQuotient(c, b - shift);
    var m := CongQuotient(c + field, 0);
    CongByQuotient(newTail + (udp + field), oldTail + (tcp + check) + shift, m - j - k - l - 1);
  }

  /** The decoded frame: the same link header, addresses and ports, lengths shorter by twelve, the
      payload rotated back, an IPv4 header that verifies, and a UDP datagram with the same
      checksum residual as the TCP segment on the wire. */
  predicate Decoded(w: seq<Byte>, o: seq<Byte>, off: nat, len: nat, native: bool) {
    && DELTA <= len < 0x1_0000 - 40 && off + 40 + len <= |w| && |o| == |w| - DELTA
    && o[..off] == w[..off]
    && IpDecoded(w[off..off + 20], o[off..off + 20], 28 + len, native)
    && o[off + 20..off + 24] == w[off + 20..off + 24]
    && Be16Value(o[off + 24..off + 26]) == 8 + len
    && Sum(o[off + 26..off + 28], native) != 0
    && o[off + 28..off + 28 + len] == Unrotated(w[off + 40..off + 40 + len])
    && Cong(SegmentSum(w[off + 12..off + 20], UDP, o[off + 20..off + 28 + len], native),
            SegmentSum(w[off + 12..off + 20], TCP, w[off + 20..off + 40 + len], native))
  }

  predicate IpDecoded(h: seq<Byte>, r: seq<Byte>, total: nat, native: bool) {
    && |h| == 20 && |r| == 20
    && Be16Value(r[2..4]) == total && r[9] == 17
    && r[..2] == h[..2] && r[4..9] == h[4..9] && r[12..] == h[12..]
    && Cong(Sum(r, native), 0)
  }

  // The whole header recomputed.
  method RebuildIp(h: seq<Byte>, total: nat, native: bool) returns (ok: bool, r: seq<Byte>)
    requires |h| == 20 && total < 0x1_0000
    ensures ok ==> IpDecoded(h, r, total, native)
  {
    var bytes := PutBe16(total);
    var bare := h[..2] + bytes + h[4..9] + [17, 0, 0] + h[12..];
    r := [];
    var sum := CsumAdd(bare, 0, native);
    if sum < 0 { return false, []; }
    var check := FoldPlain(sum);
    var field := PutNative16(check, native);
    r := Splice(bare, 10, field);
    ok := true;
    assert bare[10..12] == [0, 0];
    SpliceSum(bare, 10, field, native);
    ZeroWord(native);
    CongTrans(0 + Sum(bare, native), sum, sum);
    CongAdd(0 + Sum(bare, native), sum, check, check);
    CongTrans(Sum(bare, native) + check, sum + check, 0);
    assert r[2..4] == bytes && r[..2] == h[..2] && r[4..9] == h[4..9] && r[12..] == h[12..];
  }

  // Header and payload parts of the residual, put together.
  lemma ResidualParts(addresses: seq<Byte>, tcp: seq<Byte>, wire: seq<Byte>, udp: seq<Byte>, native: bool)
    requires |tcp| == 20 && |udp| == 8 && DELTA <= |wire| < 0x1_0000 - 20
    requires Cong(TransportSum(UDP, |wire| + 8, udp, native),
                  TransportSum(TCP, |wire| + 20, tcp, native) + Shift(wire[|wire| - DELTA..], |wire|, native))
    ensures Cong(SegmentSum(addresses, UDP, udp + Unrotated(wire), native),
        SegmentSum(addresses, TCP, tcp + wire, native))
  {
    SegmentSplit(addresses, UDP, udp, Unrotated(wire), native);
    SegmentSplit(addresses, TCP, tcp, wire, native);
    RotationSum(wire, native);
    ShiftedSum(Sum(addresses, native), TransportSum(UDP, |wire| + 8, udp, native),
               TransportSum(TCP, |wire| + 20, tcp, native), Sum(Unrotated(wire), native), Sum(wire, native),
               Shift(wire[|wire| - DELTA..], |wire|, native));
  }

  lemma ShiftedSum(addresses: int, udp: int, tcp: int, payload: int, wire: int, shift: int)
    requires Cong(udp, tcp + shift) && wire - payload == shift
    ensures Cong(addresses + udp + payload, addresses + tcp + wire)
  {
    var k := CongQuotient(udp, tcp + shift);
    CongByQuotient(addresses + udp + payload, addresses + tcp + wire, k);
  }

  // The header stands for the wire header at this payload length.
  predicate HeaderDerived(tcp: seq<Byte>, tail: seq<Byte>, udp: seq<Byte>, len: nat, native: bool)
    requires len < 0x1_0000 - 20
  {
    && |tcp| == 20 && |udp| == 8 && udp[..4] == tcp[..4] && Be16Value(udp[4..6]) == len + 8
    && Sum(udp[6..], native) != 0
    && Cong(TransportSum(UDP, len + 8, udp, native), TransportSum(TCP, len + 20, tcp, native) +
        Shift(tail, len, native))
  }

  lemma DecodedResidual(w: seq<Byte>, o: seq<Byte>, off: nat, len: nat, udp: seq<Byte>, native: bool)
    requires DELTA <= len < 0x1_0000 - 40 && off + 40 + len <= |w| && |o| == |w| - DELTA
    requires HeaderDerived(w[off + 20..off + 40], w[off + 28 + len..off + 40 + len], udp, len, native)
    requires o[off + 20..off + 28 + len] == udp + Unrotated(w[off + 40..off + 40 + len])
    ensures Cong(SegmentSum(w[off + 12..off + 20], UDP, o[off + 20..off + 28 + len], native),
                 SegmentSum(w[off + 12..off + 20], TCP, w[off + 20..off + 40 + len], native))
  {
    var tcp, wire := w[off + 20..off + 40], w[off + 40..off + 40 + len];
    assert wire[len - DELTA..] == w[off + 28 + len..off + 40 + len];
    assert w[off + 20..off + 40 + len] == tcp + wire;
    ResidualParts(w[off + 12..off + 20], tcp, wire, udp, native);
  }

  // The stores and the trim, put together.
  lemma DecodedParts(w: seq<Byte>, o: seq<Byte>, off: nat, len: nat, udp: seq<Byte>, ip: seq<Byte>, native: bool)
    requires DELTA <= len < 0x1_0000 - 40 && off + 40 + len <= |w|
    requires IpDecoded(w[off..off + 20], ip, 28 + len, native)
    requires HeaderDerived(w[off + 20..off + 40], w[off + 28 + len..off + 40 + len], udp, len, native)
    requires o == (w[..off] + ip + udp + w[off + 28 + len..off + 40 + len] + w[off + 40..])[..|w| - DELTA]
    ensures Decoded(w, o, off, len, native)
  {
    var tail, wire := w[off + 28 + len..off + 40 + len], w[off + 40..off + 40 + len];
    assert tail == wire[len - DELTA..];
    DecodedSlices(w, o, off, len, udp, ip, tail, wire);
    assert o[off + 20..off + 28 + len] == o[off + 20..off + 28] + o[off + 28..off + 28 + len];
    DecodedResidual(w, o, off, len, udp, native);
    assert w[off + 20..off + 40][..4] == w[off + 20..off + 24];
  }

  lemma DecodedSlices(w: seq<Byte>, o: seq<Byte>, off: nat, len: nat, udp: seq<Byte>, ip: seq<Byte>, tail: seq<Byte>,
                      wire: seq<Byte>)
    requires DELTA <= len && off + 40 + len <= |w| && |udp| == 8 && |ip| == 20 && |tail| == DELTA && |wire| == len
    requires wire == w[off + 40..off + 40 + len] && tail == wire[len - DELTA..]
    requires o == (w[..off] + ip + udp + tail + w[off + 40..])[..|w| - DELTA]
    ensures o[..off] == w[..off] && o[off..off + 20] == ip && o[off + 20..off + 28] == udp
    ensures o[off + 20..off + 24] == udp[..4] && o[off + 24..off + 26] == udp[4..6] && o[off + 26..off + 28] == udp[6..]
    ensures o[off + 28..off + 28 + len] == Unrotated(wire)
  {
    var all := w[..off] + ip + udp + tail + w[off + 40..];
    assert forall i :: 0 <= i < |o| ==> o[i] == all[i];
    assert forall i :: 0 <= i < off ==> all[i] == w[i];
    assert forall i :: 0 <= i < 20 ==> all[off + i] == ip[i];
    assert forall i :: 0 <= i < 8 ==> all[off + 20 + i] == udp[i];
    assert o[off + 20..off + 28] == udp;
    SliceInWindow(o, off + 20, off + 28, off + 20, off + 24);
    SliceInWindow(o, off + 20, off + 28, off + 24, off + 26);
    SliceInWindow(o, off + 20, off + 28, off + 26, off + 28);
    var p, q := o[off + 28..off + 28 + len], Unrotated(wire);
    forall i | 0 <= i < len ensures p[i] == q[i] {
      assert p[i] == o[off + 28 + i];
      if i >= DELTA {
        assert o[off + 28 + i] == w[off + 28 + i] == wire[i - DELTA];
      } else {
        assert o[off + 28 + i] == tail[i];
      }
    }
  }

  lemma ThreeStores(w: seq<Byte>, off: nat, ip: seq<Byte>, udp: seq<Byte>, tail: seq<Byte>)
    requires off + 40 <= |w| && |ip| == 20 && |udp| == 8 && |tail| == DELTA
    ensures Splice(Splice(Splice(w, off + 20, udp), off + 28, tail), off, ip) == w[..off] + ip + udp + tail +
        w[off + 40..]
  {
    var a := Splice(w, off + 20, udp);
    var b := Splice(a, off + 28, tail);
    SpliceParts(w, off + 20, udp);
    SpliceParts(a, off + 28, tail);
    SpliceParts(b, off, ip);
    assert a[off + 40..] == a[off + 28..][12..] == w[off + 40..];
    assert b[off + 20..] == b[..off + 28][off + 20..] + b[off + 28..];
    assert b[..off + 28][off + 20..] == a[..off + 28][off + 20..] == udp;
    assert b[..off] == b[..off + 28][..off] == a[..off + 28][..off] == a[..off + 20][..off] == w[..off];
  }

  /** The transform half of the XDP program, on a packet its checkpoint admitted. The frame may
      carry link padding after the packet. The packet passes only if the session admitted the
      receive position it announces. */
  method Decode(buf: Buffer, off: nat, len: nat, sequence: nat, session: S.Stored, generation: nat, now: nat,
                authority: S.Authority, projection: S.Projection, native: bool)
    returns (passed: bool)
    requires DELTA <= len < 0x1_0000 - 40 && off + 40 + len <= |buf.data| && sequence < S.U32
    requires S.InRange(session.Snapshot())
    modifies buf, session
    ensures passed ==>
              && Decoded(old(buf.data), buf.data, off, len, native)
              && var was := old(session.Snapshot());
              && var call := S.Call(generation, now, S.RX, (sequence + len) % S.U32, authority, projection);
              && S.Admits(was, call) && session.Snapshot() == S.Mutated(was, call)
  {
    passed := false;
    ghost var w := buf.data;
    var gotTail, tail := buf.Load(off + 28 + len, DELTA);
    if !gotTail { return; }
    var tcp, header := buf.data[off + 20..off + 40], buf.data[off..off + 20];
    var ok, udp := DeriveUdp(tcp, tail, len, native);
    if !ok { return; }
    ok := buf.Store(off + 20, udp);
    if !ok { return; }
    ok := buf.Store(off + 28, tail);
    if !ok { return; }
    var ip;
    ok, ip := RebuildIp(header, 28 + len, native);
    if !ok { return; }
    ok := buf.Store(off, ip);
    if !ok { return; }
    ThreeStores(w, off, ip, udp, tail);
    ok := buf.Trim(DELTA);
    if !ok { return; }
    DecodedParts(w, buf.data, off, len, udp, ip, native);
    var result;
    passed, result := session.Mutate(S.Call(generation, now, S.RX, (sequence + len) % S.U32, authority, projection));
  }
}
