/** The WireGuard message type word and its per-profile disguise. Type words are kept as the
    four bytes on the wire: the source compares them as little-endian 32-bit integers, which
    is the same comparison. */
module TypeWord {
  import opened Bytes
  import opened Checksum

  datatype Profile = Profile(mixed: seq<seq<Byte>>, standard: seq<seq<Byte>>)

  const STANDARD: seq<seq<Byte>> := [[1, 0, 0, 0], [2, 0, 0, 0], [3, 0, 0, 0], [4, 0, 0, 0]]

  predicate WellFormed(p: Profile) {
    && |p.mixed| == 4 && |p.standard| == 4
    && forall k :: 0 <= k < 4 ==> |p.mixed[k]| == 4 && |p.standard[k]| == 4
  }

  /** What profile construction guarantees: distinct disguises and the identity way back. */
  predicate Matching(p: Profile) {
    && WellFormed(p) && p.standard == STANDARD
    && forall j, k :: 0 <= j < k < 4 ==> p.mixed[j] != p.mixed[k]
  }

  function KindFromStandard(wire: seq<Byte>): (kind: int)
    ensures -1 <= kind < 4
    ensures kind >= 0 ==> wire == STANDARD[kind]
  {
    if wire == STANDARD[0] then 0
    else if wire == STANDARD[1] then 1
    else if wire == STANDARD[2] then 2
    else if wire == STANDARD[3] then 3
    else -1
  }

  // First match wins.
  function KindFromMixed(p: Profile, wire: seq<Byte>): (kind: int)
    requires WellFormed(p)
    ensures -1 <= kind < 4
    ensures kind >= 0 ==> wire == p.mixed[kind]
  {
    if wire == p.mixed[0] then 0
    else if wire == p.mixed[1] then 1
    else if wire == p.mixed[2] then 2
    else if wire == p.mixed[3] then 3
    else -1
  }

  predicate ValidLen(kind: int, len: nat) {
    (kind == 0 && len == 148) || (kind == 1 && len == 92) || (kind == 2 && len == 64) || (kind == 3 && len >= 32)
  }

  /** A matching profile decodes exactly what it encodes. */
  lemma KindRoundTrip(p: Profile, kind: int)
    requires Matching(p) && 0 <= kind < 4
    ensures KindFromMixed(p, p.mixed[kind]) == kind && KindFromStandard(p.standard[kind]) == kind
  {
    assert STANDARD[0][0] == 1 && STANDARD[1][0] == 2 && STANDARD[2][0] == 3 && STANDARD[3][0] == 4;
  }
}
