/** UDP datagrams rewritten as ICMP echo messages. Short messages are summed afresh; for long ones
    the ICMP checksum is derived from the UDP checksum by one's-complement differences
    (section 3 of RFC 1624). */
module IcmpRewrite {
  import opened Bytes
  import opened Checksum
  import opened PacketBuffer
  import opened FakeTcpWire

  const MAX_CSUM_BYTES := 256
  const CSUM_CHUNK := 16

  // csum_sub_word: adding the complement of a word takes it out.
  function Without(word: nat): int { 65535 - word }

  lemma FourByteSum(s: seq<Byte>, swapped: bool)
    requires |s| == 4
    ensures Sum(s, swapped) == Sum(s[..2], swapped) + Sum(s[2..], swapped)
  {
    assert s == s[..2] + s[2..];
    SumCat(s[..2], s[2..], swapped);
  }

  // A 32-bit word taken out as its two halves.
  method SubWord32(s: seq<Byte>) returns (n: nat)
    requires |s| == 4
    ensures n == 2 * 65535 - Sum(s, false) && n <= 2 * 65535
  {
    FourByteSum(s, false);
    n := 2 * 65535 - NativeValue(s[..2], false) - NativeValue(s[2..], false);
  }

  // The words of the datagram and its pseudo-header that the echo message does not have.
  function Leaving(d: seq<Byte>, ip: nat, udp: nat): nat
    requires udp + 8 <= |d| && ip + 20 <= |d|
  {
    UDP + Sum(d[udp..udp + 2], false) + Sum(d[udp + 2..udp + 4], false) + Sum(d[udp + 6..udp + 8], false)
    + 2 * Sum(d[udp + 4..udp + 6], false) + Sum(d[ip + 12..ip + 16], false) + Sum(d[ip + 16..ip + 20], false)
  }

  // All of them taken out of an empty accumulator; a datagram without a checksum is refused.
  method TakeOut(buf: Buffer, ip: nat, udp: nat) returns (ok: bool, sum: int)
    requires udp + 8 <= |buf.data| && ip + 20 <= |buf.data|
    ensures ok ==> 0 <= sum == 10 * 65535 - Leaving(buf.data, ip, udp) && Sum(buf.data[udp + 6..udp + 8], false) != 0
  {
    ok := false;
    var src, dst := NativeValue(buf.data[udp..udp + 2], false), NativeValue(buf.data[udp + 2..udp + 4], false);
    sum := Without(UDP) + Without(src) + Without(dst);
    var gotCheck, check := buf.Load(udp + 6, 2);
    if !gotCheck || NativeValue(check, false) == 0 { return; }
    sum := sum + Without(NativeValue(check, false));
    var gotLen, length := buf.Load(udp + 4, 2);
    if !gotLen { return; }
    sum := sum + Without(NativeValue(length, false)) + Without(NativeValue(length, false));
    var gotSource, source := buf.Load(ip + 12, 4);
    if !gotSource { return; }
    var takenSource := SubWord32(source);
    var gotDest, dest := buf.Load(ip + 16, 4);
    if !gotDest { return; }
    var takenDest := SubWord32(dest);
    sum := sum + takenSource + takenDest;
    ok := true;
  }

  /** The checksum of the echo message, from the UDP checksum and the fields that change. */
  method DeriveChecksum(buf: Buffer, ip: nat, udp: nat, kind: nat, id: nat, sequence: nat, was: seq<Byte>,
                        now: seq<Byte>)
    returns (ok: bool, check: nat)
    requires udp + 8 <= |buf.data| && ip + 20 <= |buf.data| && kind < 256 && id < 0x1_0000 && sequence < 0x1_0000
    requires |was| == 4 && |now| == 4
    ensures check < 0x1_0000
    ensures ok ==>
              && Sum(buf.data[udp + 6..udp + 8], false) != 0
              && Cong(check + (kind * 256 + id + sequence + Sum(now, false)), Sum(was, false) +
                  Leaving(buf.data, ip, udp))
  {
    check := 0;
    var taken;
    ok, taken := TakeOut(buf, ip, udp);
    if !ok { return; }
    var takenWas := SubWord32(was);
    FourByteSum(now, false);
    var added := NativeValue(now[..2], false) + NativeValue(now[2..], false);
    var sum := taken + takenWas + kind * 256 + id + sequence + added;
    check := FoldPlain(sum);
    Complemented(sum, check, kind * 256 + id + sequence + Sum(now, false), Sum(was, false) +
        Leaving(buf.data, ip, udp), 12);
  }

  // n words taken out in complemented form cost n times 65535, which is nothing.
  lemma Complemented(sum: int, check: int, added: int, taken: int, n: int)
    requires sum == added - taken + 65535 * n && Cong(sum + check, 0)
    ensures Cong(check + added, taken)
  {
    var k := CongQuotient(sum + check, 0);
    CongByQuotient(check + added, taken, k - n);
  }

  // ----- The rewrite -----

  /** Sum a short message afresh, in 16-byte chunks and then words. */
  method SumSmall(buf: Buffer, off: nat, len: nat, native: bool) returns (ok: bool, check: nat)
    requires off <= |buf.data|
    ensures check < 0x1_0000
    ensures ok ==> off + len <= |buf.data| && Cong(Sum(buf.data[off..off + len], native) + check, 0)
    ensures ok ==> 0 < len <= MAX_CSUM_BYTES && len % 4 == 0
  {
    ok, check := false, 0;
    if len == 0 || len > MAX_CSUM_BYTES || len % 4 != 0 { return; }
    var sum, processed, rounds := 0, 0, 0;
    SummedStarts(buf.data, off, 0, native);
    while rounds < 16 && processed + CSUM_CHUNK <= len
      invariant rounds <= 16 && processed == CSUM_CHUNK * rounds <= len
      invariant Summed(buf.data, off, processed, 0, sum, native)
    {
      sum := SumPiece(buf, off, processed, CSUM_CHUNK, 0, 0, sum, native);
      if sum < 0 { return; }
      processed := processed + CSUM_CHUNK;
      rounds := rounds + 1;
    }
    ghost var chunks, words := rounds, len / 4;
    rounds := 0;
    while rounds < 3 && processed + 4 <= len
      invariant rounds <= 3 && processed == CSUM_CHUNK * chunks + 4 * rounds <= len == 4 * words
      invariant words - 4 * chunks < 4
      invariant Summed(buf.data, off, processed, 0, sum, native)
    {
      sum := SumPiece(buf, off, processed, 4, 0, 0, sum, native);
      if sum < 0 { return; }
      processed := processed + 4;
      rounds := rounds + 1;
    }
    check := FoldPlain(sum);
    ok := true;
    Negated(sum, check, Sum(buf.data[off..off + processed], native));
  }

  lemma Negated(sum: int, check: int, total: int)
    requires Cong(sum, 0 + total) && Cong(sum + check, 0)
    ensures Cong(total + check, 0)
  {
    var k := CongQuotient(sum, total);
    var l := CongQuotient(sum + check, 0);
    CongByQuotient(total + check, 0, l - k);
  }

  // The echo message that replaces the datagram d[udp..end].
  function Message(d: seq<Byte>, udp: nat, end: nat, header: seq<Byte>, now: seq<Byte>): seq<Byte>
    requires udp + 12 <= end <= |d|
  {
    header + now + d[udp + 12..end]
  }

  // The IPv4 header but for protocol and checksum, and any options.
  predicate HeaderKept(d: seq<Byte>, r: seq<Byte>, ip: nat, udp: nat) {
    && ip + 20 <= udp <= |d| && |r| == |d|
    && r[ip..ip + 9] == d[ip..ip + 9] && r[ip + 12..ip + 20] == d[ip + 12..ip + 20]
    && r[ip + 20..udp] == d[ip + 20..udp]
  }

  // Store the new word and the header, and change the protocol in the IPv4 header.
  method StoreMessage(buf: Buffer, ip: nat, udp: nat, end: nat, header: seq<Byte>, now: seq<Byte>, native: bool)
    returns (ok: bool)
    requires ip + 20 <= udp && udp + 12 <= end <= |buf.data| && |header| == 8 && |now| == 4
    modifies buf
    ensures ok ==>
              && |buf.data| == |old(buf.data)|
              && buf.data[udp..end] == Message(old(buf.data), udp, end, header, now)
              && buf.data[..ip] == old(buf.data)[..ip] && buf.data[end..] == old(buf.data)[end..]
              && HeaderKept(old(buf.data), buf.data, ip, udp)
              && buf.data[ip + 9] == 1
              && Cong(Sum(buf.data[ip..ip + 20], native), Sum(old(buf.data)[ip..ip + 20], native))
  {
    ghost var d := buf.data;
    ok := StoreEcho(buf, udp, header, now);
    if !ok { return; }
    ghost var b := buf.data;
    ok := ReplaceProtocol(buf, ip, 1, native);
    if !ok { return; }
    MessageStored(d, b, buf.data, ip, udp, end, header, now);
  }

  method StoreEcho(buf: Buffer, udp: nat, header: seq<Byte>, now: seq<Byte>) returns (ok: bool)
    requires udp + 12 <= |buf.data| && |header| == 8 && |now| == 4
    modifies buf
    ensures ok ==> buf.data == Splice(old(buf.data), udp, header + now)
  {
    ghost var d := buf.data;
    ok := buf.Store(udp + 8, now);
    if !ok { return; }
    ok := buf.Store(udp, header);
    if ok { AdjacentStores(d, udp, header, now); }
  }

  lemma AdjacentStores(d: seq<Byte>, at: nat, a: seq<Byte>, b: seq<Byte>)
    requires at + |a| + |b| <= |d|
    ensures Splice(Splice(d, at + |a|, b), at, a) == Splice(d, at, a + b)
  {
    var x, y := Splice(Splice(d, at + |a|, b), at, a), Splice(d, at, a + b);
    forall i | 0 <= i < |d| ensures x[i] == y[i] {}
  }

  lemma MessageStored(d: seq<Byte>, b: seq<Byte>, r: seq<Byte>, ip: nat, udp: nat, end: nat, header: seq<Byte>,
                      now: seq<Byte>)
    requires ip + 20 <= udp && udp + 12 <= end <= |d| && |header| == 8 && |now| == 4
    requires b == Splice(d, udp, header + now)
    requires |r| == |b| && r[..ip] == b[..ip] && r[ip + 20..] == b[ip + 20..] && r[ip..ip + 20][9] == 1
    requires r[ip..ip + 20][..9] == b[ip..ip + 20][..9] && r[ip..ip + 20][12..] == b[ip..ip + 20][12..]
    ensures HeaderKept(d, r, ip, udp)
    ensures r[udp..end] == Message(d, udp, end, header, now) && r[..ip] == d[..ip] && r[end..] == d[end..]
    ensures r[ip + 9] == 1
    ensures b[ip..ip + 20] == d[ip..ip + 20]
  {
    SameSuffix(r, b, ip + 20, udp, end);
    SameSuffix(r, b, ip + 20, end, |r|);
    var x, y := b[udp..end], Message(d, udp, end, header, now);
    forall i | 0 <= i < |x| ensures x[i] == y[i] {
      assert x[i] == b[udp + i];
    }
    assert r[end..] == r[end..|r|] == b[end..|r|] == d[end..];
    assert b[..ip] == d[..ip];
    assert b[ip..ip + 20] == d[ip..ip + 20];
    SliceInWindow(r, ip, ip + 20, ip, ip + 9);
    SliceInWindow(d, ip, ip + 20, ip, ip + 9);
    SliceInWindow(r, ip, ip + 20, ip + 12, ip + 20);
    SliceInWindow(d, ip, ip + 20, ip + 12, ip + 20);
    SameSuffix(r, b, ip + 20, ip + 20, udp);
    assert b[ip + 20..udp] == d[ip + 20..udp];
  }

  // The echo header: type, code 0, checksum, identifier, sequence number.
  predicate EchoHeader(h: seq<Byte>, kind: nat, id: nat, sequence: nat) {
    && |h| == 8 && h[0] as int == kind && h[1] == 0
    && Sum(h[4..6], false) == id && Sum(h[6..8], false) == sequence
  }

  method BuildHeader(kind: nat, id: nat, sequence: nat, check: seq<Byte>) returns (h: seq<Byte>)
    requires kind < 256 && id < 0x1_0000 && sequence < 0x1_0000 && |check| == 2
    ensures EchoHeader(h, kind, id, sequence) && h[2..4] == check
    ensures Sum(h, false) == kind * 256 + Sum(check, false) + id + sequence
  {
    var first := [ToByte(kind), 0];
    var a := PutBe16(id);
    var b := PutBe16(sequence);
    h := first + (check + (a + b));
    assert h[4..6] == a && h[6..8] == b && h[2..4] == check;
    SumCat(a, b, false);
    SumCat(check, a + b, false);
    SumCat(first, check + (a + b), false);
    TwoByteSum(first[0], 0, false);
  }

  /** The sum of a datagram that declares its own length, over the bytes up to `end`; the pseudo-header
      takes the declared length. */
  function DeclaredSum(d: seq<Byte>, ip: nat, udp: nat, end: nat): nat
    requires ip + 20 <= udp && udp + 8 <= end <= |d| && Sum(d[udp + 4..udp + 6], false) < 0x1_0000
  {
    PseudoSum(d[ip + 12..ip + 20], UDP, Sum(d[udp + 4..udp + 6], false), false) + Sum(d[udp..end], false)
  }

  // It is the sum a receiver takes when the declared length is the real one.
  lemma WholeDatagram(d: seq<Byte>, ip: nat, udp: nat, end: nat)
    requires ip + 20 <= udp && udp + 8 <= end <= |d| && Sum(d[udp + 4..udp + 6], false) == end - udp < 0x1_0000
    ensures Cong(DeclaredSum(d, ip, udp, end), 0) <==> Verifies(d[ip + 12..ip + 20], UDP, d[udp..end])
  {
    assert DeclaredSum(d, ip, udp, end) == SegmentSum(d[ip + 12..ip + 20], UDP, d[udp..end], false);
  }

  // The datagram as header words and payload, in big-endian order.
  lemma DatagramSum(d: seq<Byte>, ip: nat, udp: nat, end: nat)
    requires ip + 20 <= udp && udp + 12 <= end <= |d| && Sum(d[udp + 4..udp + 6], false) < 0x1_0000
    ensures DeclaredSum(d, ip, udp, end) ==
            Leaving(d, ip, udp) + (Sum(d[udp + 8..udp + 12], false) + Sum(d[udp + 12..end], false))
  {
    var a, b := d[ip + 12..ip + 16], d[ip + 16..ip + 20];
    assert d[ip + 12..ip + 20] == a + b;
    SumCat(a, b, false);
    HeaderSum(d, udp);
    var h, w, r := d[udp..udp + 8], d[udp + 8..udp + 12], d[udp + 12..end];
    assert d[udp..end] == h + (w + r);
    SumCat(w, r, false);
    SumCat(h, w + r, false);
  }

  lemma HeaderSum(d: seq<Byte>, udp: nat)
    requires udp + 8 <= |d|
    ensures Sum(d[udp..udp + 8], false) ==
            Sum(d[udp..udp + 2], false) + Sum(d[udp + 2..udp + 4], false) + Sum(d[udp + 4..udp + 6], false) +
                Sum(d[udp + 6..udp + 8], false)
  {
    var a, b, c, e := d[udp..udp + 2], d[udp + 2..udp + 4], d[udp + 4..udp + 6], d[udp + 6..udp + 8];
    assert d[udp..udp + 8] == a + (b + (c + e));
    SumFour(a, b, c, e);
  }

  lemma SumFour(a: seq<Byte>, b: seq<Byte>, c: seq<Byte>, e: seq<Byte>)
    requires |a| % 2 == 0 && |b| % 2 == 0 && |c| % 2 == 0
    ensures Sum(a + (b + (c + e)), false) == Sum(a, false) + Sum(b, false) + Sum(c, false) + Sum(e, false)
  {
    SumCat(a, b + (c + e), false);
    SumCat(b, c + e, false);
    SumCat(c, e, false);
  }

  /** The derived message has the residual of the datagram it came from. */
  lemma DerivedResidual(d: seq<Byte>, ip: nat, udp: nat, end: nat, header: seq<Byte>, now: seq<Byte>, rest: nat,
                        check: nat)
    requires ip + 20 <= udp && udp + 12 <= end <= |d| && Sum(d[udp + 4..udp + 6], false) < 0x1_0000
    requires |header| == 8 && |now| == 4 && Sum(header, false) == check + rest
    requires Cong(check + (rest + Sum(now, false)), Sum(d[udp + 8..udp + 12], false) + Leaving(d, ip, udp))
    ensures Cong(Sum(Message(d, udp, end, header, now), false), DeclaredSum(d, ip, udp, end))
  {
    var tail := d[udp + 12..end];
    var message, word := Sum(Message(d, udp, end, header, now), false), Sum(d[udp + 8..udp + 12], false);
    assert message == check + rest + Sum(now, false) + Sum(tail, false) by { MessageSum(d, udp, end, header, now); }
    assert DeclaredSum(d, ip, udp, end) == Leaving(d, ip, udp) + (word + Sum(tail, false)) by {
      DatagramSum(d, ip, udp, end);
    }
    AddTail(check + (rest + Sum(now, false)), word + Leaving(d, ip, udp), Sum(tail, false), message,
            DeclaredSum(d, ip, udp, end));
  }

  lemma MessageSum(d: seq<Byte>, udp: nat, end: nat, header: seq<Byte>, now: seq<Byte>)
    requires udp + 12 <= end <= |d| && |header| == 8 && |now| == 4
    ensures Sum(Message(d, udp, end, header, now), false) == Sum(header, false) + Sum(now, false) +
        Sum(d[udp + 12..end], false)
  {
    var tail := d[udp + 12..end];
    assert Message(d, udp, end, header, now) == header + (now + tail);
    SumCat(now, tail, false);
    SumCat(header, now + tail, false);
  }

  lemma AddTail(a: int, b: int, tail: int, x: int, y: int)
    requires Cong(a, b) && x == a + tail && y == b + tail
    ensures Cong(x, y)
  {
    var k := CongQuotient(a, b);
    CongByQuotient(x, y, k);
  }

  /** What the rewrite leaves: an echo message with the new type word and the rest of the payload,
      protocol ICMP under the same IPv4 header residual, and nothing else changed. */
  predicate Rewritten(d: seq<Byte>, r: seq<Byte>, ip: nat, udp: nat, end: nat, kind: nat, id: nat, sequence: nat,
                      now: seq<Byte>, native: bool)
    requires ip + 20 <= udp && udp + 12 <= end <= |d|
  {
    && |r| == |d| && r[..ip] == d[..ip] && r[end..] == d[end..] && HeaderKept(d, r, ip, udp)
    && EchoHeader(r[udp..udp + 8], kind, id, sequence)
    && r[udp + 8..end] == now + d[udp + 12..end]
    && r[ip + 9] == 1 && Cong(Sum(r[ip..ip + 20], native), Sum(d[ip..ip + 20], native))
  }

  lemma MessageParts(d: seq<Byte>, udp: nat, end: nat, header: seq<Byte>, now: seq<Byte>, r: seq<Byte>)
    requires udp + 12 <= end <= |d| && |r| == |d| && |header| == 8 && |now| == 4
    requires r[udp..end] == Message(d, udp, end, header, now)
    ensures r[udp..udp + 8] == header && r[udp + 8..end] == now + d[udp + 12..end]
  {
    assert r[udp..end][..8] == header && r[udp..end][8..] == now + d[udp + 12..end];
    assert r[udp..end][..8] == r[udp..udp + 8] && r[udp..end][8..] == r[udp + 8..end];
  }

  // Filling in the checksum of a stored message leaves the rest of the rewrite in place.
  lemma CheckStored(d: seq<Byte>, m: seq<Byte>, ip: nat, udp: nat, end: nat, kind: nat, id: nat, sequence: nat,
                    now: seq<Byte>, field: seq<Byte>, native: bool)
    requires ip + 20 <= udp && udp + 12 <= end <= |d| && |field| == 2
    requires Rewritten(d, m, ip, udp, end, kind, id, sequence, now, native)
    ensures Rewritten(d, Splice(m, udp + 2, field), ip, udp, end, kind, id, sequence, now, native)
  {
    var r := Splice(m, udp + 2, field);
    SpliceParts(m, udp + 2, field);
    SamePrefix(r, m, udp + 2, 0, ip);
    assert r[..ip] == r[0..ip] == m[0..ip] == m[..ip];
    SamePrefix(r, m, udp + 2, ip, ip + 20);
    SamePrefix(r, m, udp + 2, ip, ip + 9);
    SamePrefix(r, m, udp + 2, ip + 12, ip + 20);
    SamePrefix(r, m, udp + 2, ip + 20, udp);
    SameSuffix(r, m, udp + 4, udp + 8, end);
    SameSuffix(r, m, udp + 4, end, |r|);
    assert r[end..] == r[end..|r|] == m[end..|r|] == m[end..];
    assert r[ip + 9] == r[ip..ip + 20][9] == m[ip..ip + 20][9] == m[ip + 9];
    SpliceInWindow(m, udp + 2, field, udp, udp + 8);
    EchoFilled(m[udp..udp + 8], kind, id, sequence, field);
  }

  lemma EchoFilled(h: seq<Byte>, kind: nat, id: nat, sequence: nat, field: seq<Byte>)
    requires EchoHeader(h, kind, id, sequence) && |field| == 2
    ensures EchoHeader(Splice(h, 2, field), kind, id, sequence)
  {
    var g := Splice(h, 2, field);
    assert g[4..6] == h[4..6] && g[6..8] == h[6..8];
  }

  // Where the datagram ends in the frame, which a declared length may run past.
  function FrameEnd(d: seq<Byte>, udp: nat, len: nat): nat { if udp + 8 + len <= |d| then udp + 8 + len else |d| }

  method RewriteSmall(buf: Buffer, ip: nat, udp: nat, len: nat, kind: nat, id: nat, sequence: nat, now: seq<Byte>,
                      native: bool)
    returns (ok: bool)
    requires ip + 20 <= udp && 4 <= len && udp + 12 <= |buf.data|
    requires kind < 256 && id < 0x1_0000 && sequence < 0x1_0000 && |now| == 4
    modifies buf
    ensures ok ==>
              && udp + 8 + len <= |old(buf.data)|
              && Rewritten(old(buf.data), buf.data, ip, udp, udp + 8 + len, kind, id, sequence, now, native)
              && Cong(Sum(buf.data[udp..udp + 8 + len], native), 0)
  {
    ghost var d := buf.data;
    var end := FrameEnd(buf.data, udp, len);
    var header := BuildHeader(kind, id, sequence, [0, 0]);
    ok := StoreMessage(buf, ip, udp, end, header, now, native);
    if !ok { return; }
    ghost var m := buf.data;
    MessageParts(d, udp, end, header, now, m);
    var check;
    ok, check := SumSmall(buf, udp, 8 + len, native);
    if !ok { return; }
    ok := FillIn(buf, ip, udp, end, kind, id, sequence, now, check, native, d);
  }

  // Store the checksum of a message that was written with a zero one.
  method FillIn(buf: Buffer, ghost ip: nat, udp: nat, ghost end: nat, ghost kind: nat, ghost id: nat,
                ghost sequence: nat,
                ghost now: seq<Byte>, check: nat, native: bool, ghost d: seq<Byte>)
    returns (ok: bool)
    requires ip + 20 <= udp && udp + 12 <= end <= |d| && check < 0x1_0000
    requires Rewritten(d, buf.data, ip, udp, end, kind, id, sequence, now, native)
    requires buf.data[udp..udp + 8][2..4] == [0, 0] && Cong(Sum(buf.data[udp..end], native) + check, 0)
    modifies buf
    ensures ok ==>
              && Rewritten(d, buf.data, ip, udp, end, kind, id, sequence, now, native)
              && Cong(Sum(buf.data[udp..end], native), 0)
  {
    ghost var m := buf.data;
    var field := PutNative16(check, native);
    ok := buf.Store(udp + 2, field);
    if !ok { return; }
    CheckStored(d, m, ip, udp, end, kind, id, sequence, now, field, native);
    FilledIn(m, udp, end, field, native);
  }

  lemma FilledIn(m: seq<Byte>, udp: nat, end: nat, field: seq<Byte>, native: bool)
    requires udp + 8 <= end <= |m| && |field| == 2 && m[udp..udp + 8][2..4] == [0, 0]
    requires Cong(Sum(m[udp..end], native) + Sum(field, native), 0)
    ensures Cong(Sum(Splice(m, udp + 2, field)[udp..end], native), 0)
  {
    WindowSum(m, udp + 2, field, udp, end, native);
    SliceInWindow(m, udp, udp + 8, udp + 2, udp + 4);
    ZeroWord(native);
  }

  method RewriteLarge(buf: Buffer, ip: nat, udp: nat, len: nat, kind: nat, id: nat, sequence: nat, now: seq<Byte>,
                      native: bool)
    returns (ok: bool)
    requires ip + 20 <= udp && 4 <= len < 0x1_0000 - 8 && udp + 12 <= |buf.data|
    requires Sum(buf.data[udp + 4..udp + 6], false) == 8 + len
    requires kind < 256 && id < 0x1_0000 && sequence < 0x1_0000 && |now| == 4
    modifies buf
    ensures ok ==>
              var d, end := old(buf.data), FrameEnd(old(buf.data), udp, len);
              && Rewritten(d, buf.data, ip, udp, end, kind, id, sequence, now, native)
              && Sum(d[udp + 6..udp + 8], false) != 0
              && Cong(Sum(buf.data[udp..end], false), DeclaredSum(d, ip, udp, end))
  {
    ghost var d := buf.data;
    var end := FrameEnd(buf.data, udp, len);
    var was := buf.data[udp + 8..udp + 12];
    var check;
    ok, check := DeriveChecksum(buf, ip, udp, kind, id, sequence, was, now);
    if !ok { return; }
    var field := PutBe16(check);
    var header := BuildHeader(kind, id, sequence, field);
    DerivedResidual(d, ip, udp, end, header, now, kind * 256 + id + sequence, check);
    ok := StoreMessage(buf, ip, udp, end, header, now, native);
    if !ok { return; }
    MessageParts(d, udp, end, header, now, buf.data);
  }

  /** The whole rewrite. A short message always verifies, and a short datagram whose declared length runs
      past the frame is refused. A long message verifies exactly when the UDP datagram did, because it has
      the same residual; that holds for the bytes in the frame also when the declared length runs past it. */
  method RewriteUdpToIcmp(buf: Buffer, ip: nat, udp: nat, len: nat, kind: nat, id: nat, sequence: nat, now: seq<Byte>,
                          native: bool)
    returns (ok: bool)
    requires ip + 20 <= udp && 4 <= len < 0x1_0000 - 8 && udp + 12 <= |buf.data|
    requires Sum(buf.data[udp + 4..udp + 6], false) == 8 + len
    requires kind < 256 && id < 0x1_0000 && sequence < 0x1_0000 && |now| == 4
    modifies buf
    ensures ok ==>
              var d, end := old(buf.data), FrameEnd(old(buf.data), udp, len);
              && Rewritten(d, buf.data, ip, udp, end, kind, id, sequence, now, native)
              && (8 + len <= MAX_CSUM_BYTES ==> end == udp + 8 + len)
              && (Cong(Sum(buf.data[udp..end], false), 0) <==>
                    8 + len <= MAX_CSUM_BYTES || Cong(DeclaredSum(d, ip, udp, end), 0))
              && (end == udp + 8 + len ==>
                    (Cong(DeclaredSum(d, ip, udp, end), 0) <==> Verifies(d[ip + 12..ip + 20], UDP, d[udp..end])))
  {
    ghost var d, end := buf.data, FrameEnd(buf.data, udp, len);
    if end == udp + 8 + len { WholeDatagram(d, ip, udp, end); }
    if 8 + len <= MAX_CSUM_BYTES {
      ok := RewriteSmall(buf, ip, udp, len, kind, id, sequence, now, native);
      if ok { VerifiesInEitherOrder(buf.data[udp..udp + 8 + len]); }
    } else {
      ok := RewriteLarge(buf, ip, udp, len, kind, id, sequence, now, native);
      if ok { SameResidualSameVerdict(Sum(buf.data[udp..end], false), DeclaredSum(d, ip, udp, end)); }
    }
  }

  lemma SameResidualSameVerdict(a: int, b: int)
    requires Cong(a, b)
    ensures Cong(a, 0) <==> Cong(b, 0)
  {
    CongTrans(a, b, b);
    if Cong(a, 0) { CongTrans(b, a, 0); }
    if Cong(b, 0) { CongTrans(a, b, 0); }
  }

  lemma BadDatagram(size: seq<Byte>, check: seq<Byte>)
    requires |size| == 2 && Sum(size, false) == 308 && |check| == 2 && Sum(check, false) == 1
    ensures var d := Zeros(24) + size + check + Zeros(300);
      && d[24..26] == size && d[26..28] == check
      && !Cong(DeclaredSum(d, 0, 20, |d|), 0)
  {
    var d := Zeros(24) + size + check + Zeros(300);
    assert d[24..26] == size && d[26..28] == check && d[12..20] == Zeros(8);
    assert d[20..|d|] == Zeros(4) + (size + (check + Zeros(300)));
    SumFour(Zeros(4), size, check, Zeros(300));
    SumZeros(8, false);
    SumZeros(4, false);
    SumZeros(300, false);
    assert DeclaredSum(d, 0, 20, |d|) == 17 + 308 + 308 + 1;
  }

  /** A long datagram with a wrong checksum: its echo message does not verify either. */
  lemma LongDatagramMayFail() returns (d: seq<Byte>, ip: nat, udp: nat, len: nat)
    ensures ip + 20 <= udp && 4 <= len && udp + 8 + len == |d| && MAX_CSUM_BYTES < 8 + len < 0x1_0000
    ensures Sum(d[udp + 4..udp + 6], false) == 8 + len && Sum(d[udp + 6..udp + 8], false) != 0
    ensures !Cong(DeclaredSum(d, ip, udp, |d|), 0)
  {
    ip, udp, len := 0, 20, 300;
    var declared, wrong := 8 + len, len - 299;
    var size, check := Word16(declared, false), Word16(wrong, false);
    BadDatagram(size, check);
    d := Zeros(24) + size + check + Zeros(300);
  }
}
