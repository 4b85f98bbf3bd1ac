/** Internet checksum arithmetic (section 2 of RFC 1071) and the kernel helpers the
    dataplane uses to update it. Sums are taken over byte strings in either byte order:
    the kernel accumulates in native order, the wire format is big-endian, and the two
    agree up to a factor of 256 modulo 65535. */
module Checksum {
  import opened Bytes

  // ----- Congruence modulo 65535 -----

  predicate Cong(a: int, b: int) { (a - b) % 65535 == 0 }

  lemma CongQuotient(a: int, b: int) returns (k: int)
    requires Cong(a, b)
    ensures a == b + 65535 * k
  {
    k := (a - b) / 65535;
  }

  lemma CongByQuotient(a: int, b: int, k: int)
    requires a == b + 65535 * k
    ensures Cong(a, b)
  {}

  lemma CongAdd(a: int, b: int, c: int, d: int)
    requires Cong(a, b) && Cong(c, d)
    ensures Cong(a + c, b + d) && Cong(a - c, b - d)
  {
    var k := CongQuotient(a, b);
    var l := CongQuotient(c, d);
    CongByQuotient(a + c, b + d, k + l);
    CongByQuotient(a - c, b - d, k - l);
  }

  lemma CongTrans(a: int, b: int, c: int)
    requires Cong(a, b) && Cong(b, c)
    ensures Cong(a, c) && Cong(c, a)
  {
    var k := CongQuotient(a, b);
    var l := CongQuotient(b, c);
    CongByQuotient(a, c, k + l);
    CongByQuotient(c, a, -k - l);
  }

  lemma CongSame(a: int, b: int, c: int)
    requires Cong(a, b) && b == c
    ensures Cong(a, c)
  {}

  // ----- Sums of 16-bit words -----

  /** Sum of the 16-bit words of s, the last byte padded with zero. With `swapped` the first
      byte of each word is the low one: little-endian accumulation, or a string that starts
      at an odd offset of a larger big-endian one. */
  function Sum(s: seq<Byte>, swapped: bool): nat {
    if s == [] then 0
    else (s[0] as int) * (if swapped then 1 else 256) + Sum(s[1..], !swapped)
  }

  lemma {:induction false} SumCat(a: seq<Byte>, b: seq<Byte>, swapped: bool)
    ensures Sum(a + b, swapped) == Sum(a, swapped) + Sum(b, if |a| % 2 == 0 then swapped else !swapped)
    decreases |a|
  {
    if a == [] {
      assert a + b == b;
    } else {
      SumCat(a[1..], b, !swapped);
      assert (a + b)[1..] == a[1..] + b;
    }
  }

  function Zeros(n: nat): (z: seq<Byte>)
    ensures |z| == n && forall i :: 0 <= i < n ==> z[i] == 0
  {
    seq(n, i => 0)
  }

  lemma {:induction false} SumZeros(n: nat, swapped: bool)
    ensures Sum(Zeros(n), swapped) == 0
  {
    if n > 0 {
      SumZeros(n - 1, !swapped);
      assert Zeros(n)[1..] == Zeros(n - 1);
    }
  }

  // Padding with zero bytes does not change the sum.
  lemma SumPadded(s: seq<Byte>, n: nat, swapped: bool)
    ensures Sum(s + Zeros(n), swapped) == Sum(s, swapped)
  {
    SumCat(s, Zeros(n), swapped);
    SumZeros(n, swapped);
    SumZeros(n, !swapped);
  }

  /** Byte-order independence: swapping the bytes of every word multiplies the sum by 256. */
  lemma {:induction false} SumSwap(s: seq<Byte>)
    ensures Cong(Sum(s, true), 256 * Sum(s, false))
    ensures Cong(Sum(s, false), 256 * Sum(s, true))
    decreases |s|
  {
    if s != [] {
      SumSwap(s[1..]);
      var b := s[0] as int;
      var k := CongQuotient(Sum(s[1..], false), 256 * Sum(s[1..], true));
      var l := CongQuotient(Sum(s[1..], true), 256 * Sum(s[1..], false));
      CongByQuotient(Sum(s, true), 256 * Sum(s, false), k - b);
      CongByQuotient(Sum(s, false), 256 * Sum(s, true), l);
    }
  }

  /** A message verifies in big-endian order exactly when it verifies in native order. */
  lemma VerifiesInEitherOrder(s: seq<Byte>)
    ensures Cong(Sum(s, false), 0) <==> Cong(Sum(s, true), 0)
  {
    SumSwap(s);
    var k := CongQuotient(Sum(s, false), 256 * Sum(s, true));
    var l := CongQuotient(Sum(s, true), 256 * Sum(s, false));
    if Cong(Sum(s, true), 0) {
      var m := CongQuotient(Sum(s, true), 0);
      CongByQuotient(Sum(s, false), 0, k + 256 * m);
    }
    if Cong(Sum(s, false), 0) {
      var m := CongQuotient(Sum(s, false), 0);
      CongByQuotient(Sum(s, true), 0, l + 256 * m);
    }
  }

  // ----- Words and bytes -----

  /** The two bytes of a 16-bit value, high byte first unless swapped. */
  function Word16(n: int, swapped: bool): (s: seq<Byte>)
    requires 0 <= n < 0x1_0000
    ensures |s| == 2 && Sum(s, swapped) == n
  {
    var s := if swapped then [ToByte(n % 256), ToByte(n / 256)] else [ToByte(n / 256), ToByte(n % 256)];
    assert Sum(s[1..], !swapped) == (s[1] as int) * (if swapped then 256 else 1) by {
      assert s[1..][1..] == [];
    }
    s
  }

  /** What the big-endian bytes of n add to a native sum. */
  function HalfSum(n: nat, native: bool): nat
    requires n < 0x1_0000
  {
    if native then n % 256 * 256 + n / 256 else n
  }

  method PutBe16(n: nat) returns (s: seq<Byte>)
    requires n < 0x1_0000
    ensures |s| == 2 && Sum(s, false) == n && Sum(s, true) == HalfSum(n, true)
  {
    s := [ToByte(n / 256), ToByte(n % 256)];
    TwoByteSum(s[0], s[1], false);
    TwoByteSum(s[0], s[1], true);
  }

  method PutNative16(n: nat, native: bool) returns (s: seq<Byte>)
    requires n < 0x1_0000
    ensures |s| == 2 && Sum(s, native) == n
  {
    s := Word16(n, native);
  }

  lemma TwoByteSum(a: Byte, b: Byte, native: bool)
    ensures Sum([a, b], native) == if native then (a as int) + 256 * (b as int) else 256 * (a as int) + (b as int)
  {
    assert [a, b][1..] == [b] && [b][1..] == [];
    assert Sum([b], !native) == (b as int) * (if native then 256 else 1) + Sum([], native);
  }

  // ----- Folding -----

  function FoldOnce(x: nat): nat { x % 0x1_0000 + x / 0x1_0000 }

  function FoldFour(x: nat): nat { FoldOnce(FoldOnce(FoldOnce(FoldOnce(x)))) }

  /** Four folds of a 64-bit accumulator, then the complement of the low 16 bits. */
  function FoldCsum(sum: nat): int { 65535 - FoldFour(sum) % 0x1_0000 }

  lemma FoldOnceCong(x: nat, sum: int)
    requires Cong(x, sum)
    ensures Cong(FoldOnce(x), sum)
  {
    var k := CongQuotient(x, sum);
    var q, r := x / 0x1_0000, x % 0x1_0000;
    assert x == 0x1_0000 * q + r;
    CongByQuotient(q + r, sum, k - q);
  }

  lemma FoldOnceZero(x: nat)
    ensures FoldOnce(x) == 0 <==> x == 0
  {}

  lemma FoldBounds(x: nat)
    ensures x < 0x1_0000_0000_0000_0000 ==> FoldOnce(x) <= 0x1_0000_0000_FFFE
    ensures x <= 0x1_0000_0000_FFFE ==> FoldOnce(x) <= 0x1_0000_FFFE
    ensures x <= 0x1_0000_FFFE ==> FoldOnce(x) <= 0x1_FFFE
    ensures x <= 0x1_FFFE ==> FoldOnce(x) <= 0xFFFF
  {}

  lemma FoldFourCong(sum: nat)
    ensures Cong(FoldFour(sum), sum)
  {
    FoldOnceCong(sum, sum);
    FoldOnceCong(FoldOnce(sum), sum);
    FoldOnceCong(FoldOnce(FoldOnce(sum)), sum);
    FoldOnceCong(FoldOnce(FoldOnce(FoldOnce(sum))), sum);
  }

  lemma FoldFourRange(sum: nat)
    requires sum < 0x1_0000_0000_0000_0000
    ensures FoldFour(sum) <= 0xFFFF && (FoldFour(sum) == 0 <==> sum == 0)
  {
    var a := FoldOnce(sum);
    var b := FoldOnce(a);
    var c := FoldOnce(b);
    FoldBounds(sum); FoldBounds(a); FoldBounds(b); FoldBounds(c);
    FoldOnceZero(sum); FoldOnceZero(a); FoldOnceZero(b); FoldOnceZero(c);
  }

  // The residue of sum, picked from 1..65535.
  lemma Residue(d: int, sum: nat)
    requires 0 < d <= 0xFFFF && Cong(d, sum)
    ensures d == if sum % 65535 == 0 then 0xFFFF else sum % 65535
  {
    var k := CongQuotient(d, sum);
    var q, r := sum / 65535, sum % 65535;
    assert d == r + 65535 * (k + q);
  }

  lemma Complement(d: nat, sum: nat)
    requires d <= 0xFFFF && Cong(d, sum) && (d == 0 <==> sum == 0)
    ensures 65535 - d % 0x1_0000 ==
            if sum == 0 then 0xFFFF else if sum % 65535 == 0 then 0 else 65535 - sum % 65535
  {
    if d != 0 { Residue(d, sum); }
  }

  /** Four folds lose no carry for any 64-bit accumulator: the truncation to 16 bits
      drops nothing, and the result is the complement of the sum modulo 65535. */
  lemma FoldExact(sum: nat)
    requires sum < 0x1_0000_0000_0000_0000
    ensures FoldFour(sum) <= 0xFFFF
    ensures FoldCsum(sum) ==
            if sum == 0 then 0xFFFF else if sum % 65535 == 0 then 0 else 65535 - sum % 65535
  {
    FoldFourRange(sum);
    FoldFourCong(sum);
    Complement(FoldFour(sum), sum);
  }

  // Three folds would not always be enough.
  lemma ThreeFoldsLoseACarry()
    ensures FoldOnce(FoldOnce(FoldOnce(0xFFFF_0000_0000_FFFF))) == 0x1_FFFE
  {
    assert FoldOnce(0xFFFF_0000_0000_FFFF) == 0xFFFF_0000_FFFF;
    assert FoldOnce(0xFFFF_0000_FFFF) == 0xFFFF_FFFF;
  }

  /** The value a checksum field must hold so that a message whose other words add up to
      `rest` verifies, with zero written as 0xffff. */
  function FieldFor(rest: int): (r: int)
    ensures 0 < r <= 0xFFFF && Cong(rest + r, 0)
  {
    var r := 65535 - rest % 65535;
    CongByQuotient(rest + r, 0, rest / 65535 + 1);
    r
  }

  function NonZero(check: int): int { if check == 0 then 0xFFFF else check }

  // The field depends on the sum modulo 65535 alone.
  lemma FieldForCong(a: int, b: int)
    requires Cong(a, b)
    ensures FieldFor(a) == FieldFor(b)
  {
    var k := CongQuotient(a, b);
    SameResidue(a, b, k);
  }

  lemma SameResidue(a: int, b: int, k: int)
    requires a == b + 65535 * k
    ensures a % 65535 == b % 65535
  {
    assert a == 65535 * (b / 65535 + k) + b % 65535;
  }

  /** Fold an accumulator, complement it, and write zero as 0xffff. */
  method FoldToField(sum: nat) returns (check: int)
    requires sum < 0x1_0000_0000_0000_0000
    ensures check == FieldFor(sum)
  {
    check := NonZero(FoldCsum(sum));
    FoldExact(sum);
    FieldFromFold(FoldCsum(sum), sum);
  }

  /** Fold and complement without the substitution, as for an IPv4 header. */
  method FoldPlain(sum: nat) returns (check: nat)
    requires sum < 0x1_0000_0000_0000_0000
    ensures check < 0x1_0000 && Cong(sum + check, 0)
  {
    check := FoldCsum(sum);
    FoldExact(sum);
    FoldNegates(FoldCsum(sum), sum);
  }

  lemma FoldNegates(folded: int, sum: nat)
    requires folded == if sum == 0 then 0xFFFF else if sum % 65535 == 0 then 0 else 65535 - sum % 65535
    ensures 0 <= folded < 0x1_0000 && Cong(sum + folded, 0)
  {
    var q, r := sum / 65535, sum % 65535;
    assert sum == 65535 * q + r;
    CongByQuotient(sum + folded, 0, if sum == 0 || r != 0 then q + 1 else q);
  }

  lemma FieldFromFold(folded: int, sum: nat)
    requires folded == if sum == 0 then 0xFFFF else if sum % 65535 == 0 then 0 else 65535 - sum % 65535
    ensures NonZero(folded) == FieldFor(sum)
  {
    var r := sum % 65535;
    assert 0 <= r < 65535 && (sum == 0 ==> r == 0);
  }

  // ----- Kernel helpers, by contract -----

  const WSUM: nat := 0x1_0000_0000

  /** bpf_csum_diff: either an error, or a 32-bit partial sum in the native byte order that
      is congruent to the seed with `from` taken out and `to` put in. */
  method CsumDiff(from: seq<Byte>, to: seq<Byte>, seed: nat, native: bool) returns (r: int)
    requires |from| % 4 == 0 && |to| % 4 == 0 && seed < WSUM
    ensures r < WSUM
    ensures r >= 0 ==> Cong(r, seed - Sum(from, native) + Sum(to, native))
  {
    var failed: bool := *;
    if failed { return -1; }
    var exact := seed - Sum(from, native) + Sum(to, native);
    CongByQuotient(exact % 65535, exact, -(exact / 65535));
    r :| 0 <= r < WSUM && Cong(r, exact);
  }

  // The same helper with nothing to take out.
  method CsumAdd(to: seq<Byte>, seed: nat, native: bool) returns (r: int)
    requires |to| % 4 == 0 && seed < WSUM
    ensures r < WSUM
    ensures r >= 0 ==> Cong(r, seed + Sum(to, native))
  {
    r := CsumDiff([], to, seed, native);
    if r >= 0 {
      var k := CongQuotient(r, seed - Sum([], native) + Sum(to, native));
      CongByQuotient(r, seed + Sum(to, native), k);
    }
  }

  /** bpf_l3_csum_replace on one 16-bit word: the new field offsets the change of the word. */
  method L3Replace(check: int, from: int, to: int) returns (failed: bool, r: int)
    requires 0 <= check < 0x1_0000
    ensures 0 <= r < 0x1_0000
    ensures !failed ==> Cong(r + to, check + from)
  {
    failed := *;
    if failed { return true, check; }
    var exact := check + from - to;
    CongByQuotient(exact % 65535, exact, -(exact / 65535));
    r :| 0 <= r < 0x1_0000 && Cong(r, exact);
    CongAdd(r, exact, to, to);
  }

  /** bpf_l4_csum_replace with a precomputed difference and BPF_F_MARK_MANGLED_0: a zero field
      means no checksum and stays zero; otherwise the field absorbs the difference and
      a zero result is written as 0xffff. */
  method L4Replace(check: int, diff: nat) returns (failed: bool, r: int)
    requires 0 <= check < 0x1_0000
    ensures 0 <= r < 0x1_0000
    ensures !failed ==> (r == 0 <==> check == 0) && (check != 0 ==> Cong(r + diff, check))
  {
    failed := *;
    if failed || check == 0 { return failed, check; }
    r := FieldFor(diff - check);
    var k := CongQuotient(diff - check + r, 0);
    CongByQuotient(r + diff, check, k);
  }
}
