/** The packet as the dataplane sees it: a byte string reached only through helpers, each of
    which may fail. A load or store outside the packet always fails. */
module PacketBuffer {
  import opened Bytes
  import opened Checksum

  function Splice(d: seq<Byte>, off: nat, b: seq<Byte>): (r: seq<Byte>)
    requires off + |b| <= |d|
    ensures |r| == |d| && r[off..off + |b|] == b
    ensures forall i :: off <= i < off + |b| ==> r[i] == b[i - off]
    ensures forall i :: 0 <= i < |d| && !(off <= i < off + |b|) ==> r[i] == d[i]
  {
    d[..off] + b + d[off + |b|..]
  }

  lemma SpliceParts(d: seq<Byte>, off: nat, b: seq<Byte>)
    requires off + |b| <= |d|
    ensures var r := Splice(d, off, b);
      r[..off] == d[..off] && r[off..off + |b|] == b && r[off + |b|..] == d[off + |b|..] && r[off..] == b +
          d[off + |b|..]
  {
    var r := Splice(d, off, b);
    assert r == d[..off] + (b + d[off + |b|..]);
    assert r == (d[..off] + b) + d[off + |b|..];
  }

  lemma SplicesCommute(d: seq<Byte>, x: nat, a: seq<Byte>, y: nat, b: seq<Byte>)
    requires x + |a| <= y && y + |b| <= |d|
    ensures Splice(Splice(d, x, a), y, b) == Splice(Splice(d, y, b), x, a)
  {
    var p, q := Splice(Splice(d, x, a), y, b), Splice(Splice(d, y, b), x, a);
    forall i | 0 <= i < |d| ensures p[i] == q[i] {}
  }

  class Buffer {
    var data: seq<Byte>

    constructor (bytes: seq<Byte>)
      ensures data == bytes
    {
      data := bytes;
    }

    method Load(off: nat, n: nat) returns (ok: bool, bytes: seq<Byte>)
      ensures ok ==> off + n <= |data| && bytes == data[off..off + n]
    {
      ok := *;
      if !ok || off + n > |data| { return false, []; }
      bytes := data[off..off + n];
    }

    method Store(off: nat, bytes: seq<Byte>) returns (ok: bool)
      modifies this
      ensures ok ==> off + |bytes| <= |old(data)| && data == Splice(old(data), off, bytes)
      ensures !ok ==> data == old(data)
    {
      ok := *;
      if !ok || off + |bytes| > |data| { return false; }
      data := Splice(data, off, bytes);
    }

    // Grow the tail by n zero bytes.
    method Grow(n: nat) returns (ok: bool)
      modifies this
      ensures ok ==> data == old(data) + Zeros(n)
      ensures !ok ==> data == old(data)
    {
      ok := *;
      if ok { data := data + Zeros(n); }
    }

    method Trim(n: nat) returns (ok: bool)
      modifies this
      ensures ok ==> n <= |old(data)| && data == old(data)[..|old(data)| - n]
      ensures !ok ==> data == old(data)
    {
      ok := *;
      if !ok || n > |data| { return false; }
      data := data[..|data| - n];
    }
  }

  /** Replacing a slice at an even distance changes the sum by exactly that slice. */
  lemma SpliceSum(d: seq<Byte>, off: nat, b: seq<Byte>, swapped: bool)
    requires off + |b| <= |d| && off % 2 == 0
    ensures Sum(Splice(d, off, b), swapped) == Sum(d, swapped) - Sum(d[off..off + |b|], swapped) + Sum(b, swapped)
  {
    var was := d[off..off + |b|];
    assert d == d[..off] + (was + d[off + |b|..]);
    assert Splice(d, off, b) == d[..off] + (b + d[off + |b|..]);
    SumCat(d[..off], was + d[off + |b|..], swapped);
    SumCat(d[..off], b + d[off + |b|..], swapped);
    SumCat(was, d[off + |b|..], swapped);
    SumCat(b, d[off + |b|..], swapped);
  }

  lemma SliceInWindow(d: seq<Byte>, lo: nat, hi: nat, a: nat, b: nat)
    requires lo <= a <= b <= hi <= |d|
    ensures d[lo..hi][a - lo..b - lo] == d[a..b]
  {
    var x, y := d[lo..hi][a - lo..b - lo], d[a..b];
    forall k | 0 <= k < |y| ensures x[k] == y[k] {}
  }

  // Two packets equal up to n, or from n on, are equal on every range there.
  lemma SamePrefix(x: seq<Byte>, y: seq<Byte>, n: nat, a: nat, b: nat)
    requires a <= b <= n <= |x| && n <= |y| && x[..n] == y[..n]
    ensures x[a..b] == y[a..b]
  {
    var p, q := x[a..b], y[a..b];
    forall k | 0 <= k < |p| ensures p[k] == q[k] {
      assert p[k] == x[..n][a + k] && q[k] == y[..n][a + k];
    }
  }

  lemma SameSuffix(x: seq<Byte>, y: seq<Byte>, n: nat, a: nat, b: nat)
    requires n <= a <= b <= |x| && |y| == |x| && x[n..] == y[n..]
    ensures x[a..b] == y[a..b]
  {
    var p, q := x[a..b], y[a..b];
    forall k | 0 <= k < |p| ensures p[k] == q[k] {
      assert p[k] == x[n..][a - n + k] && q[k] == y[n..][a - n + k];
    }
  }

  lemma SpliceInWindow(d: seq<Byte>, off: nat, b: seq<Byte>, lo: nat, hi: nat)
    requires lo <= off && off + |b| <= hi <= |d|
    ensures Splice(d, off, b)[lo..hi] == Splice(d[lo..hi], off - lo, b)
  {
    var x, y := Splice(d, off, b)[lo..hi], Splice(d[lo..hi], off - lo, b);
    forall k | 0 <= k < |y| ensures x[k] == y[k] {}
  }

  // The same inside a window of the packet.
  lemma WindowSum(d: seq<Byte>, off: nat, b: seq<Byte>, lo: nat, hi: nat, swapped: bool)
    requires lo <= off && off + |b| <= hi <= |d| && (off - lo) % 2 == 0
    ensures Sum(Splice(d, off, b)[lo..hi], swapped) ==
            Sum(d[lo..hi], swapped) - Sum(d[off..off + |b|], swapped) + Sum(b, swapped)
  {
    var w, at := d[lo..hi], off - lo;
    SpliceSum(w, at, b, swapped);
    assert w[at..at + |b|] == d[off..off + |b|] by { SliceInWindow(d, lo, hi, off, off + |b|); }
    assert Splice(d, off, b)[lo..hi] == Splice(w, at, b) by { SpliceInWindow(d, off, b, lo, hi); }
  }

  predicate WordSpliced(was: seq<Byte>, now: seq<Byte>, off: nat, word: seq<Byte>) {
    |word| == 2 && off + 2 <= |was| && now == Splice(was, off, word)
  }

  /** bpf_l4_csum_replace on the packet: the field absorbs a precomputed difference. */
  method ReplaceL4(buf: Buffer, off: nat, diff: nat, native: bool) returns (ok: bool, ghost word: seq<Byte>)
    modifies buf
    ensures ok ==>
              && WordSpliced(old(buf.data), buf.data, off, word)
              && var was := Sum(old(buf.data)[off..off + 2], native);
              && (Sum(word, native) == 0 <==> was == 0)
              && (was != 0 ==> Cong(Sum(word, native) + diff, was))
  {
    word := [];
    var loaded, bytes := buf.Load(off, 2);
    if !loaded { return false, []; }
    var check := NativeValue(bytes, native);
    var failed, r := L4Replace(check, diff);
    if failed { return false, []; }
    word := Word16(r, native);
    ok := buf.Store(off, Word16(r, native));
  }

  /** bpf_l3_csum_replace on the packet: one 16-bit word of the header is about to change. */
  method ReplaceL3(buf: Buffer, off: nat, from: seq<Byte>, to: seq<Byte>, native: bool)
    returns (ok: bool, ghost word: seq<Byte>)
    requires |from| == 2 && |to| == 2
    modifies buf
    ensures ok ==>
              && WordSpliced(old(buf.data), buf.data, off, word)
              && Cong(Sum(word, native) + Sum(to, native), Sum(old(buf.data)[off..off + 2], native) + Sum(from, native))
  {
    word := [];
    var loaded, bytes := buf.Load(off, 2);
    if !loaded { return false, []; }
    var failed, r := L3Replace(NativeValue(bytes, native), NativeValue(from, native), NativeValue(to, native));
    if failed { return false, []; }
    word := Word16(r, native);
    ok := buf.Store(off, Word16(r, native));
  }

  function NativeValue(s: seq<Byte>, native: bool): (n: int)
    requires |s| == 2
    ensures 0 <= n < 0x1_0000 && n == Sum(s, native)
  {
    assert Sum(s[1..], !native) == (s[1] as int) * (if native then 256 else 1) by { assert s[1..][1..] == []; }
    if native then (s[0] as int) + (s[1] as int) * 256 else (s[0] as int) * 256 + (s[1] as int)
  }
}
