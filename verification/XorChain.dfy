/** The segmented XOR of a payload prefix: eight tail-called programs, each of which masks one
    256-byte segment in 64- or 32-byte chunks, then words, then a tail of one to three bytes. */
module XorChain {
  import opened Bytes
  import opened Checksum
  import opened PacketBuffer

  const MAX_XOR_BYTES := 2048
  const SEGMENT_BYTES := 256
  const SEGMENT_COUNT := 8

  // ----- Key expansion -----

  predicate SupportedKeyLen(n: nat) { n == 16 || n == 32 || n == 64 || n == 256 }

  /** The control plane fills the 256-byte table in place by repeating the key. */
  method ExpandKey(key: array<Byte>, keyLen: nat)
    requires key.Length == 256 && SupportedKeyLen(keyLen)
    modifies key
    ensures Expanded(key[..], old(key[..keyLen]))
  {
    var i := keyLen;
    while i < key.Length
      invariant keyLen <= i <= 256
      invariant key[..keyLen] == old(key[..keyLen])
      invariant forall j :: 0 <= j < i ==> key[j] == old(key[..keyLen])[j % keyLen]
    {
      key[i] := key[i % keyLen];
      i := i + 1;
    }
  }

  predicate Expanded(table: seq<Byte>, key: seq<Byte>) {
    |table| == 256 && SupportedKeyLen(|key|) && forall j :: 0 <= j < 256 ==> table[j] == key[j % |key|]
  }

  lemma LowBits(off: nat)
    ensures off % 256 % 16 == off % 16 && off % 256 % 32 == off % 32 && off % 256 % 64 == off % 64
  {
    LowBits16(off);
    LowBits32(off);
    LowBits64(off);
  }

  lemma LowBits16(off: nat)
    ensures off % 256 % 16 == off % 16
  {}

  lemma LowBits32(off: nat)
    ensures off % 256 % 32 == off % 32
  {}

  lemma LowBits64(off: nat)
    ensures off % 256 % 64 == off % 64
  {}

  /** Indexing the table with the low eight bits of an offset is indexing the key modulo its length. */
  lemma TableIsPeriodic(table: seq<Byte>, key: seq<Byte>, off: nat)
    requires Expanded(table, key)
    ensures table[off % 256] == key[off % |key|]
  {
    LowBits(off);
  }

  // ----- Specification: masking a byte range -----

  function Masked(bytes: seq<Byte>, table: seq<Byte>, from: nat): (r: seq<Byte>)
    requires |table| == 256
    ensures |r| == |bytes|
  {
    seq(|bytes|, j requires 0 <= j < |bytes| => bytes[j] ^ table[(from + j) % 256])
  }

  /** The packet with payload bytes [lo, hi) masked and every other byte as it was. */
  function Xored(d: seq<Byte>, base: nat, table: seq<Byte>, lo: nat, hi: nat): (r: seq<Byte>)
    requires |table| == 256
    ensures |r| == |d|
  {
    seq(|d|, i requires 0 <= i < |d| =>
      if base + lo <= i < base + hi then d[i] ^ table[(i - base) % 256] else d[i])
  }

  /** What the configured key promises: byte i of the payload is masked with key byte i modulo its length. */
  function KeyMasked(d: seq<Byte>, base: nat, key: seq<Byte>, lo: nat, hi: nat): (r: seq<Byte>)
    requires |key| > 0
    ensures |r| == |d|
  {
    seq(|d|, i requires 0 <= i < |d| =>
      if base + lo <= i < base + hi then d[i] ^ key[(i - base) % |key|] else d[i])
  }

  /** Masking with the expanded table is masking with the key. */
  lemma TableMaskIsKeyMask(d: seq<Byte>, base: nat, table: seq<Byte>, key: seq<Byte>, lo: nat, hi: nat)
    requires Expanded(table, key)
    ensures Xored(d, base, table, lo, hi) == KeyMasked(d, base, key, lo, hi)
  {
    var x, y := Xored(d, base, table, lo, hi), KeyMasked(d, base, key, lo, hi);
    forall i | 0 <= i < |d| ensures x[i] == y[i] {
      if base + lo <= i < base + hi { TableIsPeriodic(table, key, i - base); }
    }
  }

  lemma XorCancels(b: Byte, k: Byte)
    ensures (b ^ k) ^ k == b
  {}

  lemma XoredTwice(d: seq<Byte>, base: nat, table: seq<Byte>, lo: nat, hi: nat)
    requires |table| == 256
    ensures Xored(Xored(d, base, table, lo, hi), base, table, lo, hi) == d
  {
    var r := Xored(d, base, table, lo, hi);
    forall i | 0 <= i < |d| ensures Xored(r, base, table, lo, hi)[i] == d[i] {
      if base + lo <= i < base + hi {
        XorCancels(d[i], table[(i - base) % 256]);
      }
    }
  }

  lemma MaskedTwice(s: seq<Byte>, table: seq<Byte>, from: nat)
    requires |table| == 256
    ensures Masked(Masked(s, table, from), table, from) == s
  {
    var r := Masked(Masked(s, table, from), table, from);
    forall j | 0 <= j < |s| ensures r[j] == s[j] {
      XorCancels(s[j], table[(from + j) % 256]);
    }
  }

  // Taking the mask off the first word alone.
  lemma WordUnmasked(s: seq<Byte>, table: seq<Byte>, hi: nat)
    requires |table| == 256 && 4 <= hi && 4 <= |s|
    ensures Masked(Xored(s, 0, table, 0, hi)[..4], table, 0) == s[..4]
  {
    assert Xored(s, 0, table, 0, hi)[..4] == Masked(s[..4], table, 0);
    MaskedTwice(s[..4], table, 0);
  }

  // Taking the mask off everything after the first word, which may have been replaced.
  lemma RestUnmasked(p: seq<Byte>, s: seq<Byte>, table: seq<Byte>, hi: nat)
    requires |table| == 256 && |p| == |s| >= 4 && p[4..] == s[4..]
    ensures Xored(p[..4] + Xored(s, 0, table, 0, hi)[4..], 0, table, 4, hi) == p
  {
    var x, y := p[..4] + Xored(s, 0, table, 0, hi)[4..], Xored(p, 0, table, 4, hi);
    forall i | 0 <= i < |p| ensures x[i] == y[i] {
      if i >= 4 { assert p[i] == p[4..][i - 4] == s[4..][i - 4] == s[i]; }
    }
    assert x == y;
    XoredTwice(p, 0, table, 4, hi);
  }

  lemma XoredSplit(d: seq<Byte>, base: nat, table: seq<Byte>, lo: nat, mid: nat, hi: nat)
    requires |table| == 256 && lo <= mid <= hi
    ensures Xored(Xored(d, base, table, lo, mid), base, table, mid, hi) == Xored(d, base, table, lo, hi)
  {}

  lemma NextByte(d: seq<Byte>, mid: seq<Byte>, base: nat, table: seq<Byte>, lo: nat, done: nat, n: nat, i: nat)
    requires |table| == 256 && lo <= done && mid == Xored(d, base, table, lo, done)
    requires base + done <= i < base + done + n <= |d|
    ensures var at := base + done;
      Masked(mid[at..at + n], table, done)[i - at] == Xored(d, base, table, lo, done + n)[i]
  {
    var at := base + done;
    assert mid[at..at + n][i - at] == mid[i] == d[i];
    assert done + (i - at) == i - base;
  }

  // One more piece: masking the next n bytes of a packet already masked up to `done`.
  lemma XoredNext(d: seq<Byte>, mid: seq<Byte>, base: nat, table: seq<Byte>, lo: nat, done: nat, n: nat)
    requires |table| == 256 && lo <= done && mid == Xored(d, base, table, lo, done) && base + done + n <= |d|
    ensures var at := base + done;
      Splice(mid, at, Masked(mid[at..at + n], table, done)) == Xored(d, base, table, lo, done + n)
  {
    var at := base + done;
    var r := Splice(mid, at, Masked(mid[at..at + n], table, done));
    var want := Xored(d, base, table, lo, done + n);
    forall i | 0 <= i < |d| ensures r[i] == want[i] {
      if at <= i < at + n { NextByte(d, mid, base, table, lo, done, n, i); }
    }
    assert r == want;
  }

  // ----- One segment -----

  datatype Code = DONE | MORE | STORE_ERROR | CSUM_ERROR | LENGTH_ERROR | LOAD_ERROR

  datatype Bounds = NoBounds | Bounds(lo: nat, hi: nat, hasMore: bool)

  function SegmentBounds(target: nat, segment: nat, start: nat): Bounds {
    var segStart := segment * SEGMENT_BYTES;
    var segEnd := segStart + SEGMENT_BYTES;
    if segment >= SEGMENT_COUNT || target <= segStart then NoBounds
    else
      var lo := if segStart < start then start else segStart;
      if target < lo then NoBounds
      else Bounds(lo, if target < segEnd then target else segEnd, target > segEnd)
  }

  method XorPiece(buf: Buffer, table: seq<Byte>, base: nat, done: nat, n: nat) returns (code: Code)
    requires |table| == 256
    modifies buf
    ensures code == DONE || code == LOAD_ERROR || code == STORE_ERROR
    ensures code == DONE ==>
              var at := base + done;
              && at + n <= |old(buf.data)|
              && buf.data == Splice(old(buf.data), at, Masked(old(buf.data)[at..at + n], table, done))
  {
    var ok, chunk := buf.Load(base + done, n);
    if !ok { return LOAD_ERROR; }
    ok := buf.Store(base + done, Masked(chunk, table, done));
    return if ok then DONE else STORE_ERROR;
  }

  // The packet with [lo, done) masked.
  ghost predicate MaskedTo(was: seq<Byte>, now: seq<Byte>, base: nat, table: seq<Byte>, lo: nat, done: nat)
    requires |table| == 256
  {
    now == Xored(was, base, table, lo, done)
  }

  lemma MaskedToStarts(was: seq<Byte>, base: nat, table: seq<Byte>, lo: nat)
    requires |table| == 256
    ensures MaskedTo(was, was, base, table, lo, lo)
  {
    assert Xored(was, base, table, lo, lo) == was;
  }

  /** Mask [done, to), after [lo, done). */
  method XorStep(buf: Buffer, table: seq<Byte>, base: nat, done: nat, to: nat, ghost was: seq<Byte>, ghost lo: nat)
    returns (code: Code)
    requires |table| == 256 && lo <= done <= to && MaskedTo(was, buf.data, base, table, lo, done)
    modifies buf
    ensures code == DONE || code == LOAD_ERROR || code == STORE_ERROR
    ensures code == DONE ==> MaskedTo(was, buf.data, base, table, lo, to)
  {
    ghost var mid := buf.data;
    code := XorPiece(buf, table, base, done, to - done);
    if code == DONE { XoredNext(was, mid, base, table, lo, done, to - done); }
  }

  /** A bounded run of equal pieces: mask `size` bytes at a time while a whole piece fits. */
  method XorRun(buf: Buffer, table: seq<Byte>, base: nat, from: nat, hi: nat, size: nat, rounds: nat,
                ghost was: seq<Byte>, ghost lo: nat)
    returns (code: Code, done: nat)
    requires |table| == 256 && lo <= from <= hi && size % 4 == 0 && size > 0 && hi - from < size * (rounds + 1)
    requires MaskedTo(was, buf.data, base, table, lo, from)
    modifies buf
    ensures code == DONE || code == LOAD_ERROR || code == STORE_ERROR
    ensures code == DONE ==> from <= done <= hi && hi - done < size && MaskedTo(was, buf.data, base, table, lo, done)
  {
    done := from;
    var round := 0;
    while round < rounds && done + size <= hi
      invariant round <= rounds && done == from + round * size <= hi
      invariant MaskedTo(was, buf.data, base, table, lo, done)
    {
      code := XorStep(buf, table, base, done, done + size, was, lo);
      if code != DONE { return; }
      done := done + size;
      round := round + 1;
    }
    code := DONE;
    RunCovers(hi - from, size, round, rounds);
  }

  lemma RunCovers(span: nat, size: nat, round: nat, rounds: nat)
    requires size > 0 && span < size * (rounds + 1) && round <= rounds && round * size <= span
    requires round == rounds || span < round * size + size
    ensures span - round * size < size
  {
    if round == rounds { assert size * (rounds + 1) == round * size + size; }
  }

  /** Mask one segment without touching the checksum. Chunks of 64, then words, then the tail
      cover the segment exactly, so the closing length check never fires. */
  method XorSegment(buf: Buffer, table: seq<Byte>, base: nat, target: nat, segment: nat, start: nat)
    returns (code: Code)
    requires |table| == 256 && (start == 0 || start == 4)
    modifies buf
    ensures code == LENGTH_ERROR <==> SegmentBounds(target, segment, start) == NoBounds
    ensures code == DONE || code == MORE ==>
              var b := SegmentBounds(target, segment, start);
              && buf.data == Xored(old(buf.data), base, table, b.lo, b.hi)
              && (code == MORE <==> b.hasMore)
  {
    var b := SegmentBounds(target, segment, start);
    if b == NoBounds { return LENGTH_ERROR; }
    ghost var d := buf.data;
    MaskedToStarts(d, base, table, b.lo);
    var done;
    code, done := XorRun(buf, table, base, b.lo, b.hi, 64, 4, d, b.lo);
    if code != DONE { return; }
    code, done := XorRun(buf, table, base, done, b.hi, 4, 15, d, b.lo);
    if code != DONE { return; }
    if done < b.hi {
      code := XorStep(buf, table, base, done, b.hi, d, b.lo);
      if code != DONE { return; }
    }
    return if b.hasMore then MORE else DONE;
  }

  // ----- One segment with checksum maintenance -----

  // The change of the window sum [lo, hi) since `was`, as far as the window lies in the packet.
  predicate Tracks(diff: int, was: seq<Byte>, now: seq<Byte>, lo: nat, hi: nat, native: bool) {
    lo <= hi <= |was| && |now| == |was| ==>
      Cong(diff, Sum(now[lo..hi], native) - Sum(was[lo..hi], native))
  }

  function PadWord(s: seq<Byte>): (r: seq<Byte>)
    ensures |r| % 4 == 0
  {
    s + Zeros((4 - |s| % 4) % 4)
  }

  lemma PadWordSum(s: seq<Byte>, native: bool)
    ensures Sum(PadWord(s), native) == Sum(s, native)
  {
    SumPadded(s, (4 - |s| % 4) % 4, native);
  }

  // bpf_csum_diff takes whole words; a short piece is zero padded on both sides.
  method PaddedDiff(chunk: seq<Byte>, masked: seq<Byte>, seed: nat, native: bool) returns (r: int)
    requires seed < WSUM
    ensures r < WSUM
    ensures r >= 0 ==> Cong(r, seed - Sum(chunk, native) + Sum(masked, native))
  {
    r := CsumDiff(PadWord(chunk), PadWord(masked), seed, native);
    PadWordSum(chunk, native);
    PadWordSum(masked, native);
  }

  /** Mask one piece and add its change to the running difference; a short tail is zero padded
      to a word on both sides. */
  method XorDiffPiece(buf: Buffer, table: seq<Byte>, base: nat, done: nat, n: nat, seed: nat, native: bool)
    returns (code: Code, diff: nat)
    requires |table| == 256 && seed < WSUM
    modifies buf
    ensures code == DONE || code == LOAD_ERROR || code == STORE_ERROR || code == CSUM_ERROR
    ensures code == DONE ==> PieceDone(old(buf.data), buf.data, base + done, n, table, done, seed, diff, native)
  {
    diff := 0;
    ghost var d := buf.data;
    var at := base + done;
    var ok, chunk := buf.Load(at, n);
    if !ok { return LOAD_ERROR, 0; }
    var masked := Masked(chunk, table, done);
    var r := PaddedDiff(chunk, masked, seed, native);
    if r < 0 { return CSUM_ERROR, 0; }
    ok := buf.Store(at, masked);
    if !ok { return STORE_ERROR, 0; }
    code, diff := DONE, r;
    assert PieceDone(d, buf.data, at, n, table, done, seed, diff, native);
  }

  // n bytes at `at` masked, and the change of their sum added to the seed.
  ghost predicate PieceDone(was: seq<Byte>, now: seq<Byte>, at: nat, n: nat, table: seq<Byte>, done: nat, seed: nat,
                            diff: nat, native: bool)
    requires |table| == 256
  {
    && at + n <= |was| && diff < WSUM
    && var masked := Masked(was[at..at + n], table, done);
       now == Splice(was, at, masked) && Cong(diff, seed - Sum(was[at..at + n], native) + Sum(masked, native))
  }

  lemma PieceTracked(was: seq<Byte>, before: seq<Byte>, now: seq<Byte>, udpOff: nat, at: nat, n: nat,
                     table: seq<Byte>, done: nat, seed: nat, diff: nat, end: nat, native: bool)
    requires |table| == 256 && |was| == |before| && udpOff <= at && (at - udpOff) % 2 == 0 && at + n <= end
    requires Tracks(seed, was, before, udpOff, end, native)
    requires PieceDone(before, now, at, n, table, done, seed, diff, native)
    ensures Tracks(diff, was, now, udpOff, end, native)
  {
    var masked := Masked(before[at..at + n], table, done);
    if end <= |was| {
      assert Sum(now[udpOff..end], native) ==
        Sum(before[udpOff..end], native) - Sum(before[at..at + n], native) + Sum(masked, native) by {
        WindowSum(before, at, masked, udpOff, end, native);
      }
      TrackStep(diff, seed, Sum(was[udpOff..end], native), Sum(before[udpOff..end], native),
                Sum(now[udpOff..end], native), Sum(before[at..at + n], native), Sum(masked, native));
    }
  }

  lemma TrackStep(r: int, seed: int, was: int, before: int, now: int, chunk: int, masked: int)
    requires Cong(seed, before - was) && Cong(r, seed - chunk + masked) && now == before - chunk + masked
    ensures Cong(r, now - was)
  {
    var k := CongQuotient(seed, before - was);
    var l := CongQuotient(r, seed - chunk + masked);
    CongByQuotient(r, now - was, k + l);
  }

  // The packet with [lo, done) masked, and `diff` holding the change of the window sum so far.
  ghost predicate Masking(was: seq<Byte>, now: seq<Byte>, base: nat, table: seq<Byte>, lo: nat, done: nat, diff: nat,
                          end: nat, native: bool)
    requires |table| == 256 && base >= 8
  {
    diff < WSUM && now == Xored(was, base, table, lo, done) && Tracks(diff, was, now, base - 8, end, native)
  }

  lemma MaskingStarts(was: seq<Byte>, base: nat, table: seq<Byte>, lo: nat, end: nat, native: bool)
    requires |table| == 256 && base >= 8
    ensures Masking(was, was, base, table, lo, lo, 0, end, native)
  {
    assert Xored(was, base, table, lo, lo) == was;
  }

  lemma MaskingStep(was: seq<Byte>, mid: seq<Byte>, now: seq<Byte>, base: nat, table: seq<Byte>, lo: nat, done: nat,
                    n: nat, seed: nat, diff: nat, end: nat, native: bool)
    requires |table| == 256 && base >= 8 && lo <= done && done % 4 == 0 && base + done + n <= end
    requires Masking(was, mid, base, table, lo, done, seed, end, native)
    requires PieceDone(mid, now, base + done, n, table, done, seed, diff, native)
    ensures Masking(was, now, base, table, lo, done + n, diff, end, native)
  {
    var udpOff, at := base - 8, base + done;
    assert at - udpOff == done + 8 && (done + 8) % 2 == 0;
    assert Tracks(diff, was, now, udpOff, end, native) by {
      PieceTracked(was, mid, now, udpOff, at, n, table, done, seed, diff, end, native);
    }
    XoredNext(was, mid, base, table, lo, done, n);
  }

  // One piece more.
  method XorDiffStep(buf: Buffer, table: seq<Byte>, base: nat, done: nat, n: nat, seed: nat, native: bool,
                     ghost end: nat, ghost was: seq<Byte>, ghost lo: nat)
    returns (code: Code, diff: nat)
    requires |table| == 256 && base >= 8 && lo <= done && done % 4 == 0 && base + done + n <= end
    requires Masking(was, buf.data, base, table, lo, done, seed, end, native)
    modifies buf
    ensures code == DONE || code == LOAD_ERROR || code == STORE_ERROR || code == CSUM_ERROR
    ensures code == DONE ==> Masking(was, buf.data, base, table, lo, done + n, diff, end, native)
  {
    ghost var mid := buf.data;
    code, diff := XorDiffPiece(buf, table, base, done, n, seed, native);
    if code == DONE { MaskingStep(was, mid, buf.data, base, table, lo, done, n, seed, diff, end, native); }
  }

  method XorDiffRun(buf: Buffer, table: seq<Byte>, base: nat, from: nat, hi: nat, size: nat, rounds: nat,
                    seed: nat, native: bool, ghost end: nat, ghost was: seq<Byte>, ghost lo: nat)
    returns (code: Code, done: nat, diff: nat)
    requires |table| == 256 && lo <= from <= hi && size % 4 == 0 && size > 0 && hi - from < size * (rounds + 1)
    requires base >= 8 && from % 4 == 0 && base + hi <= end
    requires Masking(was, buf.data, base, table, lo, from, seed, end, native)
    modifies buf
    ensures code == DONE || code == LOAD_ERROR || code == STORE_ERROR || code == CSUM_ERROR
    ensures code == DONE ==>
              && from <= done <= hi && hi - done < size && done % 4 == 0
              && Masking(was, buf.data, base, table, lo, done, diff, end, native)
  {
    done, diff := from, seed;
    var round := 0;
    while round < rounds && done + size <= hi
      invariant round <= rounds && done == from + round * size <= hi && done % 4 == 0
      invariant Masking(was, buf.data, base, table, lo, done, diff, end, native)
    {
      code, diff := XorDiffStep(buf, table, base, done, size, diff, native, end, was, lo);
      if code != DONE { return; }
      NextRound(round, size, done);
      done := done + size;
      round := round + 1;
    }
    code := DONE;
    RunCovers(hi - from, size, round, rounds);
  }

  lemma NextRound(round: nat, size: nat, done: nat)
    requires done % 4 == 0 && size % 4 == 0
    ensures (round + 1) * size == round * size + size && (done + size) % 4 == 0
  {
    assert (done / 4 + size / 4) * 4 == done + size;
  }

  // Mask [lo, hi) in chunks of 32, words and a tail, collecting the change of the sum.
  method XorSegmentBytes(buf: Buffer, table: seq<Byte>, base: nat, lo: nat, hi: nat, native: bool, ghost end: nat)
    returns (code: Code, diff: nat)
    requires |table| == 256 && lo < hi <= lo + SEGMENT_BYTES && lo % 4 == 0 && base >= 8 && base + hi <= end
    modifies buf
    ensures code == DONE || code == LOAD_ERROR || code == STORE_ERROR || code == CSUM_ERROR
    ensures code == DONE ==>
              && buf.data == Xored(old(buf.data), base, table, lo, hi)
              && Tracks(diff, old(buf.data), buf.data, base - 8, end, native)
  {
    ghost var d := buf.data;
    MaskingStarts(d, base, table, lo, end, native);
    var done;
    code, done, diff := XorDiffRun(buf, table, base, lo, hi, 32, 8, 0, native, end, d, lo);
    if code != DONE { return; }
    code, done, diff := XorDiffRun(buf, table, base, done, hi, 4, 7, diff, native, end, d, lo);
    if code != DONE { return; }
    if done < hi {
      code, diff := XorDiffStep(buf, table, base, done, hi - done, diff, native, end, d, lo);
    }
  }

  // The UDP checksum still verifies as before, or the datagram carries none.
  predicate ResidualKept(was: seq<Byte>, now: seq<Byte>, udpOff: nat, end: nat, native: bool) {
    udpOff + 8 <= end <= |was| && |now| == |was| ==>
      var check := Sum(was[udpOff + 6..udpOff + 8], native);
      && (check == 0 <==> Sum(now[udpOff + 6..udpOff + 8], native) == 0)
      && (check != 0 ==> Cong(Sum(now[udpOff..end], native), Sum(was[udpOff..end], native)))
  }

  // The field absorbs the tracked difference of the rest of the window.
  lemma FieldAbsorbs(was: seq<Byte>, mid: seq<Byte>, now: seq<Byte>, udpOff: nat, end: nat, diff: nat,
                     word: seq<Byte>, native: bool)
    requires |mid| == |was| && Tracks(diff, was, mid, udpOff, end, native)
    requires WordSpliced(mid, now, udpOff + 6, word) && mid[udpOff + 6..udpOff + 8] == was[udpOff + 6..udpOff + 8]
    requires var check := Sum(mid[udpOff + 6..udpOff + 8], native);
      (Sum(word, native) == 0 <==> check == 0) && (check != 0 ==> Cong(Sum(word, native) + diff, check))
    ensures ResidualKept(was, now, udpOff, end, native)
  {
    assert now[udpOff + 6..udpOff + 8] == word;
    if udpOff + 8 <= end <= |was| && Sum(was[udpOff + 6..udpOff + 8], native) != 0 {
      WindowSum(mid, udpOff + 6, word, udpOff, end, native);
      var check := Sum(mid[udpOff + 6..udpOff + 8], native);
      var k := CongQuotient(diff, Sum(mid[udpOff..end], native) - Sum(was[udpOff..end], native));
      var l := CongQuotient(Sum(word, native) + diff, check);
      CongByQuotient(Sum(now[udpOff..end], native), Sum(was[udpOff..end], native), l - k);
    }
  }

  // Exactly the bytes [lo, hi) masked, and nothing else changed but the UDP checksum field.
  predicate MaskedExcept(was: seq<Byte>, now: seq<Byte>, base: nat, table: seq<Byte>, lo: nat, hi: nat)
    requires |table| == 256
  {
    && |now| == |was|
    && forall i :: 0 <= i < |was| && !(base - 2 <= i < base) ==> now[i] == Xored(was, base, table, lo, hi)[i]
  }

  lemma FieldStored(d: seq<Byte>, mid: seq<Byte>, now: seq<Byte>, base: nat, table: seq<Byte>, lo: nat, hi: nat,
                    word: seq<Byte>)
    requires |table| == 256 && base >= 8 && mid == Xored(d, base, table, lo, hi)
    requires WordSpliced(mid, now, base - 2, word)
    ensures mid[base - 2..base] == d[base - 2..base]
    ensures MaskedExcept(d, now, base, table, lo, hi)
  {}

  // Fold the collected difference into the UDP checksum field.
  method RepairField(buf: Buffer, base: nat, diff: nat, native: bool, ghost table: seq<Byte>, ghost lo: nat,
                     ghost hi: nat,
                     ghost end: nat, ghost d: seq<Byte>)
    returns (ok: bool)
    requires |table| == 256 && base >= 8 && buf.data == Xored(d, base, table, lo, hi)
    requires Tracks(diff, d, buf.data, base - 8, end, native)
    modifies buf
    ensures ok ==> MaskedExcept(d, buf.data, base, table, lo, hi) && ResidualKept(d, buf.data, base - 8, end, native)
  {
    ghost var mid := buf.data;
    ghost var word;
    ok, word := ReplaceL4(buf, base - 2, diff, native);
    if ok {
      FieldStored(d, mid, buf.data, base, table, lo, hi, word);
      FieldAbsorbs(d, mid, buf.data, base - 8, end, diff, word, native);
    }
  }

  /** Mask one segment and repair the UDP checksum: the window from the UDP header to any end
      of the datagram at or after the masked bytes keeps its residual. */
  method XorSegmentDiff(buf: Buffer, table: seq<Byte>, base: nat, target: nat, segment: nat, start: nat,
                        native: bool, ghost end: nat)
    returns (code: Code)
    requires |table| == 256 && (start == 0 || start == 4) && base >= 8 && base + target <= end
    modifies buf
    ensures code == LENGTH_ERROR <==> SegmentBounds(target, segment, start) == NoBounds
    ensures code == DONE || code == MORE ==>
              var b := SegmentBounds(target, segment, start);
              && (code == MORE <==> b.hasMore)
              && MaskedExcept(old(buf.data), buf.data, base, table, b.lo, b.hi)
              && ResidualKept(old(buf.data), buf.data, base - 8, end, native)
  {
    var b := SegmentBounds(target, segment, start);
    if b == NoBounds { return LENGTH_ERROR; }
    ghost var d := buf.data;
    if b.lo == b.hi { return if b.hasMore then MORE else DONE; }
    var diff;
    code, diff := XorSegmentBytes(buf, table, base, b.lo, b.hi, native, end);
    if code != DONE { return; }
    var ok := RepairField(buf, base, diff, native, table, b.lo, b.hi, end, d);
    if !ok { return CSUM_ERROR; }
    return if b.hasMore then MORE else DONE;
  }

  // ----- The tail-call chain -----

  // How far the chain has masked when it is about to run `segment`.
  function MaskedUpTo(segment: nat, start: nat, target: nat): nat {
    var from := segment * SEGMENT_BYTES;
    if segment == 0 then start else if from < target then from else target
  }

  datatype Verdict = PASSED | DISPATCH_FAILED | FAILED(code: Code)

  /** Eight programs that tail-call one another: the chain ends within eight of them, never
      reports its own length error, and masks exactly the bytes [start, target). */
  method RunChain(buf: Buffer, table: seq<Byte>, base: nat, target: nat, start: nat)
    returns (verdict: Verdict, programs: nat)
    requires |table| == 256 && (start == 0 || start == 4) && 4 <= target <= MAX_XOR_BYTES
    modifies buf
    ensures programs <= SEGMENT_COUNT && verdict != FAILED(LENGTH_ERROR)
    ensures verdict == PASSED ==> buf.data == Xored(old(buf.data), base, table, start, target)
  {
    ghost var d := buf.data;
    programs := 0;
    assert buf.data == Xored(d, base, table, start, start);
    while true
      invariant programs < SEGMENT_COUNT && programs * SEGMENT_BYTES < target
      invariant buf.data == Xored(d, base, table, start, MaskedUpTo(programs, start, target))
      decreases SEGMENT_COUNT - programs
    {
      var segment := programs;
      programs := programs + 1;
      var code := XorSegment(buf, table, base, target, segment, start);
      if code != DONE && code != MORE { return FAILED(code), programs; }
      ghost var b := SegmentBounds(target, segment, start);
      XoredSplit(d, base, table, start, b.lo, b.hi);
      if code == DONE { return PASSED, programs; }
      var dispatched: bool := *;
      if !dispatched { return DISPATCH_FAILED, programs; }
    }
  }

  lemma ResidualTrans(a: seq<Byte>, b: seq<Byte>, c: seq<Byte>, udpOff: nat, end: nat, native: bool)
    requires |b| == |a| && ResidualKept(a, b, udpOff, end, native) && ResidualKept(b, c, udpOff, end, native)
    ensures ResidualKept(a, c, udpOff, end, native)
  {
    if udpOff + 8 <= end <= |a| && |c| == |a| && Sum(a[udpOff + 6..udpOff + 8], native) != 0 {
      CongTrans(Sum(c[udpOff..end], native), Sum(b[udpOff..end], native), Sum(a[udpOff..end], native));
    }
  }

  lemma MaskedExceptSplit(a: seq<Byte>, b: seq<Byte>, c: seq<Byte>, base: nat, table: seq<Byte>, lo: nat, mid: nat,
                          hi: nat)
    requires |table| == 256 && lo <= mid <= hi
    requires MaskedExcept(a, b, base, table, lo, mid) && MaskedExcept(b, c, base, table, mid, hi)
    ensures MaskedExcept(a, c, base, table, lo, hi)
  {}

  /** The same chain in manual checksum mode: it also keeps the residual of the UDP datagram,
      whichever end at or after the masked bytes the datagram has. */
  method RunDiffChain(buf: Buffer, table: seq<Byte>, base: nat, target: nat, start: nat, native: bool, ghost end: nat)
    returns (verdict: Verdict, programs: nat)
    requires |table| == 256 && (start == 0 || start == 4) && 4 <= target <= MAX_XOR_BYTES
    requires base >= 8 && base + target <= end
    modifies buf
    ensures programs <= SEGMENT_COUNT && verdict != FAILED(LENGTH_ERROR)
    ensures verdict == PASSED ==>
              && MaskedExcept(old(buf.data), buf.data, base, table, start, target)
              && ResidualKept(old(buf.data), buf.data, base - 8, end, native)
  {
    ghost var d := buf.data;
    programs := 0;
    while true
      invariant programs < SEGMENT_COUNT && programs * SEGMENT_BYTES < target
      invariant MaskedExcept(d, buf.data, base, table, start, MaskedUpTo(programs, start, target))
      invariant ResidualKept(d, buf.data, base - 8, end, native)
      decreases SEGMENT_COUNT - programs
    {
      var segment := programs;
      programs := programs + 1;
      ghost var mid := buf.data;
      var code := XorSegmentDiff(buf, table, base, target, segment, start, native, end);
      if code != DONE && code != MORE { return FAILED(code), programs; }
      ghost var b := SegmentBounds(target, segment, start);
      MaskedExceptSplit(d, mid, buf.data, base, table, start, b.lo, b.hi);
      ResidualTrans(d, mid, buf.data, base - 8, end, native);
      if code == DONE { return PASSED, programs; }
      var dispatched: bool := *;
      if !dispatched { return DISPATCH_FAILED, programs; }
    }
  }

  /** From the configured key to the packet: expand the key, run the chain, and every byte from start to
      target is masked with its own key byte and no other byte changes. */
  method RunKeyed(buf: Buffer, key: array<Byte>, keyLen: nat, base: nat, target: nat, start: nat)
    returns (verdict: Verdict)
    requires key.Length == 256 && SupportedKeyLen(keyLen) && (start == 0 || start == 4) && 4 <= target <= MAX_XOR_BYTES
    modifies buf, key
    ensures verdict == PASSED ==> buf.data == KeyMasked(old(buf.data), base, old(key[..keyLen]), start, target)
  {
    ghost var d, k := buf.data, key[..keyLen];
    ExpandKey(key, keyLen);
    var programs;
    verdict, programs := RunChain(buf, key[..], base, target, start);
    if verdict == PASSED { TableMaskIsKeyMask(d, base, key[..], k, start, target); }
  }

  /** Egress masks from byte 0, ingress takes the first four bytes out by hand and masks from
      byte 4: together they give the payload back. */
  lemma IngressUndoesEgress(d: seq<Byte>, base: nat, table: seq<Byte>, target: nat)
    requires |table| == 256 && 4 <= target && base + target <= |d|
    ensures Xored(Xored(Xored(d, base, table, 0, target), base, table, 0, 4), base, table, 4, target) == d
  {
    var x := Xored(d, base, table, 0, target);
    XoredSplit(x, base, table, 0, 4, target);
    XoredTwice(d, base, table, 0, target);
  }
}
