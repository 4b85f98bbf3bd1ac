/** The per-segment transform of a UDP GSO aggregate: every logical segment of gso_size bytes is
    retagged and masked in place by flat loops over the whole aggregate. */
module GsoTransform {
  import opened Bytes
  import opened Checksum
  import opened Outcomes
  import opened PacketBuffer
  import opened TypeWord
  import X = XorChain

  const MAX_PAYLOAD := 65495   // 0xffff - 20 - 8 - 12
  const CHUNK_BYTES := 32

  datatype Cipher = Cipher(table: seq<Byte>, maxBytes: nat, prefix: bool)

  // ----- Splitting -----

  /** The wire packets of an aggregate: payloads of gso_size bytes, the last one shorter. */
  function Split(p: seq<Byte>, g: nat): (segs: seq<seq<Byte>>)
    requires g > 0
    ensures |segs| > 0
    decreases |p|
  {
    if |p| <= g then [p] else [p[..g]] + Split(p[g..], g)
  }

  function Flatten(segs: seq<seq<Byte>>): seq<Byte> {
    if segs == [] then [] else segs[0] + Flatten(segs[1..])
  }

  // Every segment but the last is full, and the last is neither empty nor overfull.
  predicate Shaped(segs: seq<seq<Byte>>, g: nat) {
    && |segs| > 0
    && (forall i :: 0 <= i < |segs| - 1 ==> |segs[i]| == g)
    && 0 < |segs[|segs| - 1]| <= g
  }

  lemma {:induction false} SplitShaped(p: seq<Byte>, g: nat)
    requires g > 0 && |p| > 0
    ensures Shaped(Split(p, g), g) && Flatten(Split(p, g)) == p
    decreases |p|
  {
    if |p| > g {
      SplitShaped(p[g..], g);
      var rest := Split(p[g..], g);
      assert Split(p, g)[1..] == rest;
      assert p == p[..g] + p[g..];
    } else {
      assert [p][1..] == [];
      assert p + [] == p;
    }
  }

  /** Splitting is the only way to cut an aggregate: any shaped list of segments is the split
      of its own concatenation. */
  lemma {:induction false} SplitFlatten(segs: seq<seq<Byte>>, g: nat)
    requires g > 0 && Shaped(segs, g)
    ensures Split(Flatten(segs), g) == segs
    decreases |segs|
  {
    if |segs| == 1 {
      assert segs[1..] == [] && Flatten(segs) == segs[0] + [] == segs[0];
    } else {
      var rest := segs[1..];
      SplitFlatten(rest, g);
      FlattenLength(rest, |rest| - 1, g);
      assert Flatten(segs)[..g] == segs[0] && Flatten(segs)[g..] == Flatten(rest);
      assert [segs[0]] + rest == segs;
    }
  }

  lemma {:induction false} FlattenCat(a: seq<seq<Byte>>, b: seq<seq<Byte>>)
    ensures Flatten(a + b) == Flatten(a) + Flatten(b)
    decreases |a|
  {
    if a == [] {
      assert a + b == b;
    } else {
      FlattenCat(a[1..], b);
      assert (a + b)[1..] == a[1..] + b;
    }
  }

  // Segment i starts at i * g.
  lemma {:induction false} FlattenLength(segs: seq<seq<Byte>>, i: nat, g: nat)
    requires Shaped(segs, g) && i < |segs|
    ensures |Flatten(segs[..i])| == i * g
    ensures |Flatten(segs)| > i * g
    decreases i
  {
    if i > 0 {
      var rest := segs[1..];
      FlattenLength(rest, i - 1, g);
      assert segs[..i][1..] == rest[..i - 1];
      assert i * g == g + (i - 1) * g;
    }
  }

  lemma SplitCount(p: seq<Byte>, g: nat)
    requires g > 0 && |p| > 0
    ensures |Split(p, g)| == (|p| + g - 1) / g
  {
    SplitShaped(p, g);
    var segs := Split(p, g);
    var n := |segs|;
    FlattenLength(segs, n - 1, g);
    FlattenCat(segs[..n - 1], segs[n - 1..]);
    assert segs == segs[..n - 1] + segs[n - 1..];
    assert segs[n - 1..][1..] == [] && Flatten(segs[n - 1..]) == segs[n - 1] + [];
    assert |p| == (n - 1) * g + |segs[n - 1]|;
    CeilDiv(|p|, g, n);
  }

  lemma CeilDiv(len: nat, g: nat, n: nat)
    requires g > 0 && n > 0 && (n - 1) * g < len <= (n - 1) * g + g
    ensures (len + g - 1) / g == n
  {
    var e := (len + g - 1) / g;
    assert e * g <= len + g - 1 < e * g + g;
    if e < n { MulMono(e, n - 1, g); }
    if e > n { MulMono(n + 1, e, g); }
  }

  lemma MulMono(a: nat, b: nat, g: nat)
    requires a <= b
    ensures a * g <= b * g && (a + 1) * g == a * g + g
  {}

  function SegmentOffset(off: nat, i: nat, g: nat): nat { off + i * g }

  predicate AtLeast(segs: seq<seq<Byte>>, n: nat) { forall i :: 0 <= i < |segs| ==> |segs[i]| >= n }

  // The first k segments carry a standard message type.
  predicate Typed(segs: seq<seq<Byte>>, k: nat)
    requires AtLeast(segs, 4)
  {
    forall i :: 0 <= i < k && i < |segs| ==> KindFromStandard(segs[i][..4]) >= 0
  }

  // ----- The transform of one wire packet -----

  function Retagged(profile: Profile, s: seq<Byte>): (r: seq<Byte>)
    requires WellFormed(profile)
    ensures |r| == |s|
  {
    if |s| >= 4 && KindFromStandard(s[..4]) >= 0 then profile.mixed[KindFromStandard(s[..4])] + s[4..] else s
  }

  function TargetLength(cipher: Cipher, len: nat): nat { if len < cipher.maxBytes then len else cipher.maxBytes }

  function MaskedPrefix(cipher: Cipher, s: seq<Byte>): (r: seq<Byte>)
    requires |cipher.table| == 256
    ensures |r| == |s|
  {
    X.Xored(s, 0, cipher.table, 0, TargetLength(cipher, |s|))
  }

  function RetagAll(profile: Profile, segs: seq<seq<Byte>>): (r: seq<seq<Byte>>)
    requires WellFormed(profile)
    ensures |r| == |segs|
  {
    seq(|segs|, i requires 0 <= i < |segs| => Retagged(profile, segs[i]))
  }

  function MaskAll(cipher: Cipher, segs: seq<seq<Byte>>): (r: seq<seq<Byte>>)
    requires |cipher.table| == 256
    ensures |r| == |segs|
  {
    seq(|segs|, i requires 0 <= i < |segs| => MaskedPrefix(cipher, segs[i]))
  }

  // ----- Where a segment lies in the packet -----

  function Layout(pre: seq<Byte>, segs: seq<seq<Byte>>, suf: seq<Byte>): seq<Byte> { pre + Flatten(segs) + suf }

  lemma LayoutAt(pre: seq<Byte>, segs: seq<seq<Byte>>, suf: seq<Byte>, i: nat, s: seq<Byte>)
    requires i < |segs|
    ensures Layout(pre, segs[i := s], suf) ==
            (pre + Flatten(segs[..i])) + s + (Flatten(segs[i + 1..]) + suf)
  {
    var t := segs[i := s];
    assert t == segs[..i] + t[i..] && t[i..][1..] == segs[i + 1..];
    FlattenCat(segs[..i], t[i..]);
  }

  lemma XoredInside(a: seq<Byte>, s: seq<Byte>, b: seq<Byte>, table: seq<Byte>, lo: nat, hi: nat)
    requires |table| == 256 && hi <= |s|
    ensures X.Xored(a + s + b, |a|, table, lo, hi) == a + X.Xored(s, 0, table, lo, hi) + b
  {}

  // Masking part of one segment changes that segment and nothing else.
  lemma MaskSegment(pre: seq<Byte>, segs: seq<seq<Byte>>, suf: seq<Byte>, g: nat, i: nat, table: seq<Byte>, lo: nat,
                    hi: nat)
    requires |table| == 256 && Shaped(segs, g) && i < |segs| && hi <= |segs[i]|
    ensures X.Xored(Layout(pre, segs, suf), SegmentOffset(|pre|, i, g), table, lo, hi) ==
            Layout(pre, segs[i := X.Xored(segs[i], 0, table, lo, hi)], suf)
  {
    FlattenLength(segs, i, g);
    LayoutAt(pre, segs, suf, i, segs[i]);
    assert segs[i := segs[i]] == segs;
    LayoutAt(pre, segs, suf, i, X.Xored(segs[i], 0, table, lo, hi));
    XoredInside(pre + Flatten(segs[..i]), segs[i], Flatten(segs[i + 1..]) + suf, table, lo, hi);
  }

  lemma WordInside(a: seq<Byte>, s: seq<Byte>, b: seq<Byte>, word: seq<Byte>)
    requires |word| == 4 <= |s|
    ensures (a + s + b)[|a|..|a| + 4] == s[..4]
    ensures Splice(a + s + b, |a|, word) == a + (word + s[4..]) + b
  {}

  // Likewise for a new type word.
  lemma RetagSegment(pre: seq<Byte>, segs: seq<seq<Byte>>, suf: seq<Byte>, g: nat, i: nat, word: seq<Byte>)
    requires Shaped(segs, g) && i < |segs| && |word| == 4 <= |segs[i]|
    ensures var d, at := Layout(pre, segs, suf), SegmentOffset(|pre|, i, g);
      && at + 4 <= |d| && d[at..at + 4] == segs[i][..4]
      && Splice(d, at, word) == Layout(pre, segs[i := word + segs[i][4..]], suf)
  {
    FlattenLength(segs, i, g);
    LayoutAt(pre, segs, suf, i, segs[i]);
    assert segs[i := segs[i]] == segs;
    LayoutAt(pre, segs, suf, i, word + segs[i][4..]);
    WordInside(pre + Flatten(segs[..i]), segs[i], Flatten(segs[i + 1..]) + suf, word);
  }

  // The first k segments done, the others as they were.
  function Upto(done: seq<seq<Byte>>, before: seq<seq<Byte>>, k: nat): (r: seq<seq<Byte>>)
    requires |done| == |before| && k <= |done|
    ensures |r| == |done|
  {
    done[..k] + before[k..]
  }

  lemma UptoShaped(done: seq<seq<Byte>>, before: seq<seq<Byte>>, k: nat, g: nat)
    requires |done| == |before| && k <= |done| && Shaped(before, g)
    requires forall i :: 0 <= i < |done| ==> |done[i]| == |before[i]|
    ensures Shaped(Upto(done, before, k), g)
  {}

  lemma UptoNext(done: seq<seq<Byte>>, before: seq<seq<Byte>>, k: nat)
    requires |done| == |before| && k < |done|
    ensures Upto(done, before, k)[k] == before[k]
    ensures Upto(done, before, k)[k := done[k]] == Upto(done, before, k + 1)
  {}

  // ----- The two loops -----

  // The packet after the first k rounds of the retagging loop.
  ghost predicate Retagging(d: seq<Byte>, pre: seq<Byte>, segs: seq<seq<Byte>>, suf: seq<Byte>, profile: Profile,
                            k: nat)
    requires WellFormed(profile) && k <= |segs| && AtLeast(segs, 4)
  {
    d == Layout(pre, Upto(RetagAll(profile, segs), segs, k), suf) && Typed(segs, k)
  }

  lemma RetagStep(d: seq<Byte>, pre: seq<Byte>, segs: seq<seq<Byte>>, suf: seq<Byte>, g: nat, i: nat, profile: Profile)
    requires WellFormed(profile) && Shaped(segs, g) && i < |segs| && AtLeast(segs, 4)
    requires Retagging(d, pre, segs, suf, profile, i)
    ensures var at := SegmentOffset(|pre|, i, g);
      && at + 4 <= |d|
      && var kind := KindFromStandard(d[at..at + 4]);
         (kind >= 0 ==> Retagging(Splice(d, at, profile.mixed[kind]), pre, segs, suf, profile, i + 1))
  {
    var done := RetagAll(profile, segs);
    var now := Upto(done, segs, i);
    UptoShaped(done, segs, i, g);
    UptoNext(done, segs, i);
    var kind := KindFromStandard(segs[i][..4]);
    RetagSegment(pre, now, suf, g, i, if kind >= 0 then profile.mixed[kind] else segs[i][..4]);
    if kind >= 0 { assert done[i] == profile.mixed[kind] + segs[i][4..]; }
  }

  lemma RetagEnds(pre: seq<Byte>, segs: seq<seq<Byte>>, suf: seq<Byte>, profile: Profile)
    requires WellFormed(profile) && AtLeast(segs, 4)
    ensures Upto(RetagAll(profile, segs), segs, 0) == segs
    ensures Upto(RetagAll(profile, segs), segs, |segs|) == RetagAll(profile, segs)
  {}

  // One round: load the word, look its type up, store the disguise.
  method RetagOne(buf: Buffer, at: nat, profile: Profile) returns (ok: bool)
    requires WellFormed(profile)
    modifies buf
    ensures ok ==>
              && at + 4 <= |old(buf.data)|
              && var kind := KindFromStandard(old(buf.data)[at..at + 4]);
              && kind >= 0 && buf.data == Splice(old(buf.data), at, profile.mixed[kind])
  {
    var loaded, word := buf.Load(at, 4);
    if !loaded { return false; }
    var kind := KindFromStandard(word);
    if kind < 0 { return false; }
    ok := buf.Store(at, profile.mixed[kind]);
  }

  /** Retag the first word of every segment; the loop runs once per logical segment. */
  method RewriteTypes(buf: Buffer, off: nat, g: nat, n: nat, profile: Profile,
                      ghost pre: seq<Byte>, ghost segs: seq<seq<Byte>>, ghost suf: seq<Byte>)
    returns (ok: bool)
    requires WellFormed(profile) && Shaped(segs, g) && n == |segs| && |pre| == off
    requires AtLeast(segs, 4)
    requires buf.data == Layout(pre, segs, suf)
    modifies buf
    ensures ok ==> buf.data == Layout(pre, RetagAll(profile, segs), suf) && Typed(segs, n)
  {
    RetagEnds(pre, segs, suf, profile);
    var index := 0;
    while index < n
      invariant index <= n
      invariant Retagging(buf.data, pre, segs, suf, profile, index)
    {
      RetagStep(buf.data, pre, segs, suf, g, index, profile);
      ok := RetagOne(buf, SegmentOffset(off, index, g), profile);
      if !ok { return; }
      index := index + 1;
    }
    return true;
  }

  // ----- Masking by flat chunk index -----

  // Segment s with its first r chunks masked, never past its target.
  function MaskedChunks(cipher: Cipher, s: seq<Byte>, r: nat): (m: seq<Byte>)
    requires |cipher.table| == 256
    ensures |m| == |s|
  {
    var t := TargetLength(cipher, |s|);
    X.Xored(s, 0, cipher.table, 0, if CHUNK_BYTES * r < t then CHUNK_BYTES * r else t)
  }

  // The packet when segments before q are done and segment q has r chunks masked.
  ghost predicate Masking(d: seq<Byte>, pre: seq<Byte>, segs: seq<seq<Byte>>, suf: seq<Byte>, cipher: Cipher, q: nat,
                          r: nat)
    requires |cipher.table| == 256 && q <= |segs|
  {
    var now := Upto(MaskAll(cipher, segs), segs, q);
    d == Layout(pre, if q < |segs| then now[q := MaskedChunks(cipher, segs[q], r)] else now, suf)
  }

  lemma MaskingStarts(pre: seq<Byte>, segs: seq<seq<Byte>>, suf: seq<Byte>, cipher: Cipher, q: nat)
    requires |cipher.table| == 256 && q <= |segs|
    ensures Masking(Layout(pre, Upto(MaskAll(cipher, segs), segs, q), suf), pre, segs, suf, cipher, q, 0)
  {
    if q < |segs| {
      assert MaskedChunks(cipher, segs[q], 0) == segs[q];
      var now := Upto(MaskAll(cipher, segs), segs, q);
      assert now[q := segs[q]] == now;
    }
  }

  // A segment whose chunks are exhausted is done: the state is that of the next segment.
  lemma MaskingCarries(d: seq<Byte>, pre: seq<Byte>, segs: seq<seq<Byte>>, suf: seq<Byte>, cipher: Cipher, q: nat,
                       c: nat)
    requires |cipher.table| == 256 && q < |segs| && TargetLength(cipher, |segs[q]|) <= CHUNK_BYTES * c
    requires Masking(d, pre, segs, suf, cipher, q, c)
    ensures Masking(d, pre, segs, suf, cipher, q + 1, 0)
  {
    var all := MaskAll(cipher, segs);
    UptoNext(all, segs, q);
    assert MaskedChunks(cipher, segs[q], c) == all[q];
    MaskingStarts(pre, segs, suf, cipher, q + 1);
  }

  // The bytes chunk r of a segment of this length still has to mask: [32r, 32r + result).
  function ChunkLength(cipher: Cipher, len: nat, r: nat): nat {
    var t := TargetLength(cipher, len);
    if CHUNK_BYTES * r >= t then 0 else if t - CHUNK_BYTES * r > CHUNK_BYTES then CHUNK_BYTES else t - CHUNK_BYTES * r
  }

  lemma ChunkAdds(cipher: Cipher, s: seq<Byte>, r: nat)
    requires |cipher.table| == 256 && ChunkLength(cipher, |s|, r) > 0
    ensures var from, n := CHUNK_BYTES * r, ChunkLength(cipher, |s|, r);
      && from + n <= |s|
      && MaskedChunks(cipher, s, r + 1) == X.Xored(MaskedChunks(cipher, s, r), 0, cipher.table, from, from + n)
  {
    var from, n := CHUNK_BYTES * r, ChunkLength(cipher, |s|, r);
    X.XoredSplit(s, 0, cipher.table, 0, from, from + n);
  }

  lemma MaskingStep(d: seq<Byte>, pre: seq<Byte>, segs: seq<seq<Byte>>, suf: seq<Byte>, g: nat, cipher: Cipher,
                    q: nat, r: nat)
    requires |cipher.table| == 256 && Shaped(segs, g) && q < |segs|
    requires Masking(d, pre, segs, suf, cipher, q, r)
    ensures var from, n := CHUNK_BYTES * r, ChunkLength(cipher, |segs[q]|, r);
      Masking(X.Xored(d, SegmentOffset(|pre|, q, g), cipher.table, from, from + n), pre, segs, suf, cipher, q, r + 1)
  {
    var from, n := CHUNK_BYTES * r, ChunkLength(cipher, |segs[q]|, r);
    if n == 0 {
      X.MaskedToStarts(d, SegmentOffset(|pre|, q, g), cipher.table, from);
      assert MaskedChunks(cipher, segs[q], r + 1) == MaskedChunks(cipher, segs[q], r);
    } else {
      MaskingMoves(pre, segs, suf, g, cipher, q, r);
    }
  }

  lemma MaskingMoves(pre: seq<Byte>, segs: seq<seq<Byte>>, suf: seq<Byte>, g: nat, cipher: Cipher, q: nat, r: nat)
    requires |cipher.table| == 256 && Shaped(segs, g) && q < |segs| && ChunkLength(cipher, |segs[q]|, r) > 0
    ensures var from, n := CHUNK_BYTES * r, ChunkLength(cipher, |segs[q]|, r);
      var some := Upto(MaskAll(cipher, segs), segs, q);
      X.Xored(Layout(pre, some[q := MaskedChunks(cipher, segs[q], r)], suf), SegmentOffset(|pre|, q, g),
              cipher.table, from, from + n) ==
      Layout(pre, some[q := MaskedChunks(cipher, segs[q], r + 1)], suf)
  {
    var from, n := CHUNK_BYTES * r, ChunkLength(cipher, |segs[q]|, r);
    var some := Upto(MaskAll(cipher, segs), segs, q);
    UptoShaped(MaskAll(cipher, segs), segs, q, g);
    ChunkAdds(cipher, segs[q], r);
    var now := some[q := MaskedChunks(cipher, segs[q], r)];
    MaskSegment(pre, now, suf, g, q, cipher.table, from, from + n);
    assert now[q := MaskedChunks(cipher, segs[q], r + 1)] == some[q := MaskedChunks(cipher, segs[q], r + 1)];
  }

  /** One chunk: a whole one in one load and store, a short one word by word and then its tail. */
  method XorChunk(buf: Buffer, base: nat, table: seq<Byte>, from: nat, n: nat) returns (ok: bool)
    requires |table| == 256 && n <= CHUNK_BYTES
    modifies buf
    ensures ok ==> buf.data == X.Xored(old(buf.data), base, table, from, from + n)
  {
    ghost var d := buf.data;
    X.MaskedToStarts(d, base, table, from);
    var code;
    if n == 0 {
      return true;
    }
    if n == CHUNK_BYTES {
      code := X.XorStep(buf, table, base, from, from + n, d, from);
      return code == X.DONE;
    }
    var done;
    code, done := X.XorRun(buf, table, base, from, from + n, 4, 8, d, from);
    if code != X.DONE { return false; }
    if done < from + n {
      code := X.XorStep(buf, table, base, done, from + n, d, from);
      if code != X.DONE { return false; }
    }
    return true;
  }

  lemma DivUnique(x: nat, c: nat, q: nat, r: nat)
    requires r < c && x == q * c + r
    ensures x / c == q && x % c == r
  {
    var e := x / c;
    assert x == e * c + x % c;
    if e < q { MulMono(e + 1, q, c); MulMono(e, e, c); }
    if e > q { MulMono(q + 1, e, c); MulMono(q, q, c); }
  }

  // The length the source computes for a segment is the segment's length.
  lemma SegmentLength(segs: seq<seq<Byte>>, g: nat, i: nat)
    requires Shaped(segs, g) && i < |segs|
    ensures i * g < |Flatten(segs)|
    ensures |segs[i]| == if |Flatten(segs)| - i * g < g then |Flatten(segs)| - i * g else g
  {
    FlattenLength(segs, i, g);
    FlattenCat(segs[..i], segs[i..]);
    assert segs == segs[..i] + segs[i..];
    if i + 1 < |segs| {
      FlattenLength(segs[i..], 1, g);
      assert segs[i..][..1] == [segs[i]];
    } else {
      assert segs[i..][1..] == [];
      assert Flatten(segs[i..]) == segs[i] + [];
    }
  }

  method SegmentLengthAt(len: nat, g: nat, i: nat, ghost segs: seq<seq<Byte>>) returns (segLen: nat)
    requires Shaped(segs, g) && i < |segs| && len == |Flatten(segs)|
    ensures segLen == |segs[i]|
  {
    SegmentLength(segs, g, i);
    var remaining := len - i * g;
    segLen := if remaining < g then remaining else g;
  }

  /** The flat masking loop: chunk index i belongs to segment i / c at chunk i % c. Every chunk is
      visited once, so every segment ends up with exactly its own prefix masked. */
  method XorChunks(buf: Buffer, off: nat, len: nat, g: nat, n: nat, cipher: Cipher,
                   ghost pre: seq<Byte>, ghost segs: seq<seq<Byte>>, ghost suf: seq<Byte>)
    returns (ok: bool, chunks: nat)
    requires |cipher.table| == 256 && cipher.maxBytes > 0 && Shaped(segs, g) && n == |segs| && |pre| == off
    requires len == |Flatten(segs)| && buf.data == Layout(pre, segs, suf)
    modifies buf
    ensures ok ==> buf.data == Layout(pre, MaskAll(cipher, segs), suf)
    ensures chunks == ChunksPerSegment(cipher, g) * n
  {
    var c := ChunksPerSegment(cipher, g);
    chunks := c * n;
    ghost var q, r := 0, 0;
    FirstChunk(pre, segs, suf, cipher, c);
    var index := 0;
    while index < chunks
      invariant index <= chunks && AtChunk(buf.data, pre, segs, suf, cipher, c, index, q, r)
    {
      var segIndex, chunk := ChunkPlace(index, c, n, q, r);
      var segLen := SegmentLengthAt(len, g, segIndex, segs);
      ghost var d := buf.data;
      ok := XorChunk(buf, SegmentOffset(off, segIndex, g), cipher.table, CHUNK_BYTES * chunk,
                     ChunkLength(cipher, segLen, chunk));
      if !ok { return; }
      q, r := NextChunk(d, pre, segs, suf, g, cipher, c, index, q, r);
      index := index + 1;
    }
    LastChunk(buf.data, pre, segs, suf, cipher, c, index, q, r);
    return true, chunks;
  }

  // The packet before chunk `index`, which is chunk r of segment q.
  ghost predicate AtChunk(d: seq<Byte>, pre: seq<Byte>, segs: seq<seq<Byte>>, suf: seq<Byte>, cipher: Cipher, c: nat,
                          index: nat, q: nat, r: nat)
    requires |cipher.table| == 256
  {
    && q <= |segs| && (q < |segs| || r == 0) && index == q * c + r && r < c
    && Masking(d, pre, segs, suf, cipher, q, r)
  }

  method ChunkPlace(index: nat, c: nat, n: nat, ghost q: nat, ghost r: nat) returns (segIndex: nat, chunk: nat)
    requires r < c && index == q * c + r < c * n
    ensures segIndex == q < n && chunk == r
  {
    InsideChunks(q, r, c, n);
    DivUnique(index, c, q, r);
    segIndex, chunk := index / c, index % c;
  }

  lemma FirstChunk(pre: seq<Byte>, segs: seq<seq<Byte>>, suf: seq<Byte>, cipher: Cipher, c: nat)
    requires |cipher.table| == 256 && c > 0
    ensures AtChunk(Layout(pre, segs, suf), pre, segs, suf, cipher, c, 0, 0, 0)
  {
    assert Upto(MaskAll(cipher, segs), segs, 0) == segs;
    MaskingStarts(pre, segs, suf, cipher, 0);
  }

  lemma LastChunk(d: seq<Byte>, pre: seq<Byte>, segs: seq<seq<Byte>>, suf: seq<Byte>, cipher: Cipher, c: nat,
                  index: nat, q: nat, r: nat)
    requires |cipher.table| == 256 && AtChunk(d, pre, segs, suf, cipher, c, index, q, r) && index >= c * |segs|
    ensures d == Layout(pre, MaskAll(cipher, segs), suf)
  {
    AllChunks(q, r, c, |segs|);
    assert Upto(MaskAll(cipher, segs), segs, |segs|) == MaskAll(cipher, segs);
  }

  lemma NextChunk(d: seq<Byte>, pre: seq<Byte>, segs: seq<seq<Byte>>, suf: seq<Byte>, g: nat, cipher: Cipher, c: nat,
                  index: nat, q: nat, r: nat)
    returns (q2: nat, r2: nat)
    requires |cipher.table| == 256 && cipher.maxBytes > 0 && Shaped(segs, g) && c == ChunksPerSegment(cipher, g)
    requires q < |segs| && AtChunk(d, pre, segs, suf, cipher, c, index, q, r)
    ensures var from, n := CHUNK_BYTES * r, ChunkLength(cipher, |segs[q]|, r);
      AtChunk(X.Xored(d, SegmentOffset(|pre|, q, g), cipher.table, from, from + n), pre, segs, suf, cipher, c,
              index + 1, q2, r2)
  {
    var from, n := CHUNK_BYTES * r, ChunkLength(cipher, |segs[q]|, r);
    var now := X.Xored(d, SegmentOffset(|pre|, q, g), cipher.table, from, from + n);
    MaskingStep(d, pre, segs, suf, g, cipher, q, r);
    if r + 1 < c {
      q2, r2 := q, r + 1;
    } else {
      MaskingCarries(now, pre, segs, suf, cipher, q, c);
      q2, r2 := q + 1, 0;
      assert (q + 1) * c == q * c + c;
    }
  }

  function ChunksPerSegment(cipher: Cipher, g: nat): (c: nat)
    requires cipher.maxBytes > 0
    ensures g > 0 ==> c > 0
    ensures TargetLength(cipher, g) <= CHUNK_BYTES * c < TargetLength(cipher, g) + CHUNK_BYTES
  {
    (TargetLength(cipher, g) + CHUNK_BYTES - 1) / CHUNK_BYTES
  }

  lemma InsideChunks(q: nat, r: nat, c: nat, n: nat)
    requires r < c && q * c + r < c * n
    ensures q < n
  {
    if n <= q { MulMono(n, q, c); }
  }

  lemma AllChunks(q: nat, r: nat, c: nat, n: nat)
    requires r < c && q <= n && q * c + r >= c * n && (q < n || r == 0)
    ensures q == n
  {
    if q < n { MulMono(q + 1, n, c); MulMono(q, q, c); }
  }

  // ----- Projection -----

  /** The geometry the projection admits. */
  predicate Admitted(len: nat, g: nat, gsoSegs: nat, cipher: Option<Cipher>) {
    && 32 <= g < len <= MAX_PAYLOAD
    && gsoSegs == (len + g - 1) / g >= 2
    && len - (gsoSegs - 1) * g >= 32
    && (cipher.Some? ==> |cipher.value.table| == 256 && 0 < cipher.value.maxBytes <= X.MAX_XOR_BYTES)
  }

  /** Loop bounds: at most 2046 segments, and at most 3968 chunks over all of them. */
  lemma GeometryBounds(len: nat, g: nat, n: nat, cipher: Option<Cipher>)
    requires Admitted(len, g, n, cipher)
    ensures n <= 2046
    ensures cipher.Some? ==> ChunksPerSegment(cipher.value, g) * n <= 3968
  {
    MulLower(n - 1, 32, g);
    if cipher.Some? {
      var c := ChunksPerSegment(cipher.value, g);
      if c == 2 {
        MulLower(n - 1, 33, g);
      } else if c >= 3 {
        MulLower(n - 1, 65, g);
        MulLower(n - 1, 32 * c - 31, g);
        ChunkProduct(c, n);
      }
    }
  }

  lemma MulLower(n: nat, a: int, g: int)
    requires a <= g
    ensures n * a <= n * g
  {}

  lemma ChunkProduct(c: nat, n: nat)
    requires 3 <= c <= 64 && 1 <= n <= 1008 && (n - 1) * (32 * c - 31) <= 65463
    ensures c * n <= 3968
  {
    var m := c * (n - 1);
    assert (n - 1) * (32 * c - 31) == 32 * m - 31 * (n - 1);
    assert c * n == m + c;
  }

  // Every logical segment is a whole message of a standard type, and fits a non-prefix cipher.
  predicate SegmentValid(s: seq<Byte>, cipher: Option<Cipher>) {
    && |s| >= 12
    && ValidLen(KindFromStandard(s[..4]), |s|)
    && (cipher.Some? && |s| > cipher.value.maxBytes ==> cipher.value.prefix)
  }

  /** The validation loop reads the type word of every logical segment. */
  method ValidateSegments(buf: Buffer, off: nat, len: nat, g: nat, n: nat, cipher: Option<Cipher>,
                          ghost pre: seq<Byte>, ghost segs: seq<seq<Byte>>, ghost suf: seq<Byte>)
    returns (ok: bool)
    requires Shaped(segs, g) && n == |segs| && |pre| == off && AtLeast(segs, 4)
    requires len == |Flatten(segs)| && buf.data == Layout(pre, segs, suf)
    ensures ok ==> forall i :: 0 <= i < n ==> SegmentValid(segs[i], cipher)
  {
    var index := 0;
    while index < n
      invariant index <= n
      invariant forall i :: 0 <= i < index ==> SegmentValid(segs[i], cipher)
    {
      var segLen := SegmentLengthAt(len, g, index, segs);
      if segLen < 12 { return false; }
      var loaded, word := buf.Load(SegmentOffset(off, index, g), 4);
      if !loaded { return false; }
      assert word == segs[index][..4] by { RetagSegment(pre, segs, suf, g, index, word); }
      var kind := KindFromStandard(word);
      if kind < 0 || !ValidLen(kind, segLen) { return false; }
      if cipher.Some? && segLen > cipher.value.maxBytes && !cipher.value.prefix { return false; }
      index := index + 1;
    }
    return true;
  }

  function TransformedOne(profile: Profile, cipher: Option<Cipher>, s: seq<Byte>): (r: seq<Byte>)
    requires WellFormed(profile) && (cipher.Some? ==> |cipher.value.table| == 256)
    ensures |r| == |s|
  {
    if cipher.Some? then MaskedPrefix(cipher.value, Retagged(profile, s)) else Retagged(profile, s)
  }

  function TransformedAll(profile: Profile, cipher: Option<Cipher>, segs: seq<seq<Byte>>): (r: seq<seq<Byte>>)
    requires WellFormed(profile) && (cipher.Some? ==> |cipher.value.table| == 256)
    ensures |r| == |segs|
  {
    seq(|segs|, i requires 0 <= i < |segs| => TransformedOne(profile, cipher, segs[i]))
  }

  lemma TransformedSplit(profile: Profile, cipher: Option<Cipher>, segs: seq<seq<Byte>>, g: nat)
    requires WellFormed(profile) && (cipher.Some? ==> |cipher.value.table| == 256) && g > 0 && Shaped(segs, g)
    ensures Split(Flatten(TransformedAll(profile, cipher, segs)), g) == TransformedAll(profile, cipher, segs)
    ensures Shaped(RetagAll(profile, segs), g) && |Flatten(RetagAll(profile, segs))| == |Flatten(segs)|
  {
    SplitFlatten(TransformedAll(profile, cipher, segs), g);
    SameLengths(RetagAll(profile, segs), segs);
  }

  lemma {:induction false} SameLengths(a: seq<seq<Byte>>, b: seq<seq<Byte>>)
    requires |a| == |b| && forall i :: 0 <= i < |a| ==> |a[i]| == |b[i]|
    ensures |Flatten(a)| == |Flatten(b)|
    decreases |a|
  {
    if a != [] { SameLengths(a[1..], b[1..]); }
  }

  /** Transforming the aggregate in place is transforming every wire packet on its own: the
      payload afterwards splits by gso_size into the transformed segments, and not a byte outside
      the payload changes. */
  method TransformAggregate(buf: Buffer, off: nat, len: nat, g: nat, gsoSegs: nat, profile: Profile,
                            cipher: Option<Cipher>)
    returns (ok: bool)
    requires WellFormed(profile) && (cipher.Some? ==> |cipher.value.table| == 256)
    modifies buf
    ensures ok ==>
              && Admitted(len, g, gsoSegs, cipher) && off + len <= |old(buf.data)|
              && var segs := Split(old(buf.data)[off..off + len], g);
              && |segs| == gsoSegs
              && (forall i :: 0 <= i < |segs| ==> SegmentValid(segs[i], cipher))
              && |buf.data| == |old(buf.data)|
              && Split(buf.data[off..off + len], g) == TransformedAll(profile, cipher, segs)
              && buf.data[..off] == old(buf.data)[..off] && buf.data[off + len..] == old(buf.data)[off + len..]
  {
    if !Admitted(len, g, gsoSegs, cipher) || off + len > |buf.data| { return false; }
    ghost var d := buf.data;
    ghost var pre, p, suf := d[..off], d[off..off + len], d[off + len..];
    ghost var segs := Split(p, g);
    SplitShaped(p, g);
    SplitCount(p, g);
    assert d == Layout(pre, segs, suf);
    EverySegmentAtLeast(segs, g, len, gsoSegs);
    ok := ValidateSegments(buf, off, len, g, gsoSegs, cipher, pre, segs, suf);
    if !ok { return; }
    ok := RewriteTypes(buf, off, g, gsoSegs, profile, pre, segs, suf);
    if !ok { return; }
    ghost var tagged := RetagAll(profile, segs);
    TransformedSplit(profile, cipher, segs, g);
    ghost var result := TransformedAll(profile, cipher, segs);
    if cipher.Some? {
      var chunks;
      ok, chunks := XorChunks(buf, off, len, g, gsoSegs, cipher.value, pre, tagged, suf);
      if !ok { return; }
      assert MaskAll(cipher.value, tagged) == result;
    } else {
      assert tagged == result;
    }
    SameLengths(result, segs);
    LayoutParts(pre, result, suf);
  }

  lemma LayoutParts(pre: seq<Byte>, segs: seq<seq<Byte>>, suf: seq<Byte>)
    ensures var d, n := Layout(pre, segs, suf), |Flatten(segs)|;
      d[..|pre|] == pre && d[|pre|..|pre| + n] == Flatten(segs) && d[|pre| + n..] == suf
  {}

  lemma EverySegmentAtLeast(segs: seq<seq<Byte>>, g: nat, len: nat, n: nat)
    requires Shaped(segs, g) && n == |segs| && len == |Flatten(segs)| && g >= 32 && len - (n - 1) * g >= 32
    ensures AtLeast(segs, 32) && AtLeast(segs, 4)
  {
    SegmentLength(segs, g, n - 1);
  }
}
