/** One FakeTCP session value: every packet-path mutation and the userspace delete claim run
    under the value's own spin lock, so a run is a sequence of whole operations. */
module Session {

  const U32: nat := 0x1_0000_0000
  const HALF: nat := 0x8000_0000
  const REVISION_MAX: nat := 0xFFFF_FFFF_FFFF_FFFF
  const ESTABLISHED := 3
  const DELETE_CLAIMED := 4

  /** The fields fixed for one session lifetime. */
  datatype Identity = Identity(
    generation: nat, localIsn: nat, remoteIsn: nat, window: nat, flags: nat,
    pad: nat, reserved: nat, sessionId: nat, incarnation: nat)

  datatype Value = Value(identity: Identity, lastSeen: nat, tx: nat, rx: nat, state: nat, revision: nat)

  predicate InRange(v: Value) {
    v.tx < U32 && v.rx < U32 && v.revision <= REVISION_MAX && v.identity.window < 0x1_0000
  }

  datatype Authority = Authority(sessionId: nat, incarnation: nat)

  datatype Projection = Projection(localIsn: nat, remoteIsn: nat, window: nat, state: nat, flags: nat)

  datatype Op = TX | RX | TOUCH | OTHER

  datatype Call = Call(
    generation: nat, now: nat, op: Op, argument: nat, authority: Authority, projection: Projection)

  datatype MutationResult = MutationResult(sequence: nat, acknowledgement: nat, window: nat)

  datatype Key = Key(
    generation: nat, localIpv4: nat, remoteIpv4: nat, underlay: nat,
    localPort: nat, remotePort: nat, wgId: nat, pad: nat)

  datatype ClaimRequest = ClaimRequest(key: Key, expected: Value, lockWord: nat)

  datatype ClaimResult = MALFORMED | ABSENT | DIFFERENT | CLAIMED

  predicate MetadataValid(v: Value, generation: nat) {
    && v.identity.generation == generation
    && v.state == ESTABLISHED
    && v.identity.flags == 0 && v.identity.pad == 0 && v.identity.reserved == 0
    && v.revision != 0 && v.identity.sessionId != 0 && v.identity.incarnation != 0
  }

  predicate AuthorityMatches(v: Value, generation: nat, authority: Authority, projection: Projection) {
    && MetadataValid(v, generation)
    && v.identity.sessionId == authority.sessionId
    && v.identity.incarnation == authority.incarnation
    && projection == Projection(v.identity.localIsn, v.identity.remoteIsn, v.identity.window, v.state, v.identity.flags)
  }

  predicate Admits(v: Value, c: Call) {
    c.op != OTHER && AuthorityMatches(v, c.generation, c.authority, c.projection) && v.revision != REVISION_MAX
  }

  // The signed 32-bit comparison (s32)(argument - rx) > 0, as a forward distance.
  function Ahead(rx: nat, argument: nat): (d: nat)
    ensures d < U32
  {
    (argument - rx) % U32
  }

  function Mutated(v: Value, c: Call): Value {
    if !Admits(v, c) then v
    else
      v.(tx := if c.op == TX then (v.tx + c.argument) % U32 else v.tx,
         rx := if c.op == RX && 0 < Ahead(v.rx, c.argument) < HALF then c.argument else v.rx,
         lastSeen := if c.op != TX && c.now > v.lastSeen then c.now else v.lastSeen,
         revision := v.revision + 1)
  }

  predicate MatchesExpected(v: Value, expected: Value, permitClaimed: bool) {
    && v.(state := expected.state) == expected
    && (v.state == expected.state ||
        (permitClaimed && v.state == DELETE_CLAIMED && expected.state == ESTABLISHED))
  }

  predicate KeyValid(k: Key) {
    && k.generation != 0 && k.localIpv4 != 0 && k.remoteIpv4 != 0 && k.underlay != 0
    && k.localPort != 0 && k.remotePort != 0 && k.wgId != 0 && k.pad == 0
  }

  predicate RequestValid(r: ClaimRequest) {
    && KeyValid(r.key) && r.lockWord == 0
    && MetadataValid(r.expected, r.key.generation)
  }

  predicate Claims(v: Value, expected: Value) { MatchesExpected(v, expected, true) }

  function Claimed(v: Value, expected: Value): Value {
    if Claims(v, expected) then v.(state := DELETE_CLAIMED) else v
  }

  // ----- The stored object -----

  class Stored {
    var identity: Identity
    var lastSeen: nat
    var tx: nat
    var rx: nat
    var state: nat
    var revision: nat

    constructor (v: Value)
      ensures Snapshot() == v
    {
      identity, lastSeen, tx, rx, state, revision := v.identity, v.lastSeen, v.tx, v.rx, v.state, v.revision;
    }

    function Snapshot(): Value
      reads this
    {
      Value(identity, lastSeen, tx, rx, state, revision)
    }

    /** The one writer of every packet path. */
    method Mutate(c: Call) returns (admitted: bool, result: MutationResult)
      requires InRange(Snapshot()) && c.argument < U32
      modifies this
      ensures InRange(Snapshot()) && Snapshot() == Mutated(old(Snapshot()), c)
      ensures admitted == Admits(old(Snapshot()), c)
      ensures admitted && c.op == TX ==> result == MutationResult(old(tx), old(rx), old(identity.window))
    {
      result := MutationResult(0, 0, 0);
      if c.op == OTHER { return false, result; }
      admitted := AuthorityMatches(Snapshot(), c.generation, c.authority, c.projection) && revision != REVISION_MAX;
      if admitted {
        if c.op == TX {
          result := MutationResult(tx, rx, identity.window);
          tx := (tx + c.argument) % U32;
        } else if c.op == RX && 0 < Ahead(rx, c.argument) < HALF {
          rx := c.argument;
        }
        if c.op != TX && c.now > lastSeen {
          lastSeen := c.now;
        }
        revision := revision + 1;
      }
    }
  }

  /** The delete-claim program, run by userspace against the session found under the key. */
  method RunClaim(found: Stored?, request: ClaimRequest) returns (result: ClaimResult)
    modifies if found == null then {} else {found}
    ensures result == MALFORMED <==> !RequestValid(request)
    ensures result == ABSENT <==> RequestValid(request) && found == null
    ensures result == CLAIMED <==>
              RequestValid(request) && found != null && Claims(old(found.Snapshot()), request.expected)
    ensures found != null && result == CLAIMED ==> found.Snapshot() == Claimed(old(found.Snapshot()), request.expected)
    ensures found != null && result != CLAIMED ==> found.Snapshot() == old(found.Snapshot())
  {
    if !RequestValid(request) { return MALFORMED; }
    if found == null { return ABSENT; }
    result := DIFFERENT;
    if MatchesExpected(found.Snapshot(), request.expected, true) {
      if found.state == ESTABLISHED {
        found.state := DELETE_CLAIMED;
      }
      result := CLAIMED;
    }
  }

  // ----- Serialised runs -----

  datatype Event = Mutation(call: Call) | Claim(request: ClaimRequest)

  predicate WellFormed(events: seq<Event>) {
    forall e :: e in events ==> e.Mutation? ==> e.call.argument < U32
  }

  function Next(v: Value, e: Event): Value {
    match e
    case Mutation(c) => Mutated(v, c)
    case Claim(r) => if RequestValid(r) then Claimed(v, r.expected) else v
  }

  function Play(v: Value, events: seq<Event>): Value
    decreases |events|
  {
    if events == [] then v else Play(Next(v, events[0]), events[1..])
  }

  predicate Counts(v: Value, e: Event) { e.Mutation? && Admits(v, e.call) }

  function AdmittedCount(v: Value, events: seq<Event>): nat
    decreases |events|
  {
    if events == [] then 0
    else (if Counts(v, events[0]) then 1 else 0) + AdmittedCount(Next(v, events[0]), events[1..])
  }

  /** One transmitted packet: the sequence number it was given and its payload length. */
  datatype Range = Range(sequence: nat, length: nat)

  function Sent(v: Value, events: seq<Event>): seq<Range>
    decreases |events|
  {
    if events == [] then []
    else if Counts(v, events[0]) && events[0].call.op == TX then
      [Range(v.tx, events[0].call.argument)] + Sent(Next(v, events[0]), events[1..])
    else Sent(Next(v, events[0]), events[1..])
  }

  function TotalLength(ranges: seq<Range>): nat {
    if ranges == [] then 0 else ranges[0].length + TotalLength(ranges[1..])
  }

  function RxStep(v: Value, e: Event): nat {
    if Counts(v, e) && e.call.op == RX && Ahead(v.rx, e.call.argument) < HALF then Ahead(v.rx, e.call.argument) else 0
  }

  /** How far the receive position moved forward, without wrap-around. */
  function RxAdvance(v: Value, events: seq<Event>): nat
    decreases |events|
  {
    if events == [] then 0 else RxStep(v, events[0]) + RxAdvance(Next(v, events[0]), events[1..])
  }

  // Clock readings of admitted peer activity; transmissions are not among them.
  function PeerTimes(v: Value, events: seq<Event>): seq<nat>
    decreases |events|
  {
    if events == [] then []
    else if Counts(v, events[0]) && events[0].call.op != TX then
      [events[0].call.now] + PeerTimes(Next(v, events[0]), events[1..])
    else PeerTimes(Next(v, events[0]), events[1..])
  }

  lemma WrapOnce(a: nat, b: nat)
    ensures (a % U32 + b) % U32 == (a + b) % U32
  {
    assert a == U32 * (a / U32) + a % U32;
  }

  lemma RxStepMoves(v: Value, e: Event)
    requires InRange(v) && (e.Mutation? ==> e.call.argument < U32)
    ensures Next(v, e).rx == (v.rx + RxStep(v, e)) % U32 && RxStep(v, e) < HALF
  {}

  lemma {:induction false} TxTotal(v: Value, events: seq<Event>)
    requires InRange(v) && WellFormed(events)
    ensures Play(v, events).tx == (v.tx + TotalLength(Sent(v, events))) % U32
    decreases |events|
  {
    if events != [] {
      var n := Next(v, events[0]);
      TxTotal(n, events[1..]);
      if Counts(v, events[0]) && events[0].call.op == TX {
        assert Sent(v, events)[1..] == Sent(n, events[1..]);
        WrapOnce(v.tx + events[0].call.argument, TotalLength(Sent(n, events[1..])));
      }
    }
  }

  lemma {:induction false} RxTotal(v: Value, events: seq<Event>)
    requires InRange(v) && WellFormed(events)
    ensures Play(v, events).rx == (v.rx + RxAdvance(v, events)) % U32
    decreases |events|
  {
    if events != [] {
      var n := Next(v, events[0]);
      RxTotal(n, events[1..]);
      RxStepMoves(v, events[0]);
      WrapOnce(v.rx + RxStep(v, events[0]), RxAdvance(n, events[1..]));
    }
  }

  lemma {:induction false} RevisionTotal(v: Value, events: seq<Event>)
    requires InRange(v) && WellFormed(events)
    ensures var w := Play(v, events);
      InRange(w) && w.identity == v.identity && w.revision == v.revision + AdmittedCount(v, events)
    decreases |events|
  {
    if events != [] {
      RevisionTotal(Next(v, events[0]), events[1..]);
    }
  }

  /** Over every run: the revision counts exactly the admitted mutations and never wraps, the
      transmit sequence is the sum of the transmitted lengths modulo 2^32, the receive sequence
      is the unwrapped receive position modulo 2^32, and no identity field ever changes. */
  lemma RunTotals(v: Value, events: seq<Event>)
    requires InRange(v) && WellFormed(events)
    ensures var w := Play(v, events);
      && InRange(w)
      && w.identity == v.identity
      && w.revision == v.revision + AdmittedCount(v, events) <= REVISION_MAX
      && w.tx == (v.tx + TotalLength(Sent(v, events))) % U32
      && w.rx == (v.rx + RxAdvance(v, events)) % U32
  {
    TxTotal(v, events);
    RxTotal(v, events);
    RevisionTotal(v, events);
  }

  /** Successive transmissions are contiguous: packet i starts where the lengths before it
      end, so the unwrapped ranges of two packets never overlap. */
  lemma {:induction false} TxRangesContiguous(v: Value, events: seq<Event>, i: nat, j: nat)
    requires InRange(v) && WellFormed(events) && i < j < |Sent(v, events)|
    ensures var sent := Sent(v, events);
      && sent[i].sequence == (v.tx + TotalLength(sent[..i])) % U32
      && sent[j].sequence == (v.tx + TotalLength(sent[..j])) % U32
      && TotalLength(sent[..i]) + sent[i].length <= TotalLength(sent[..j])
  {
    TxRangeStart(v, events, i);
    TxRangeStart(v, events, j);
    var sent := Sent(v, events);
    TotalSplit(sent[..j], i);
    assert sent[..j][..i] == sent[..i] && sent[..j][i..][0] == sent[i];
  }

  lemma {:induction false} TotalSplit(ranges: seq<Range>, i: nat)
    requires i <= |ranges|
    ensures TotalLength(ranges) == TotalLength(ranges[..i]) + TotalLength(ranges[i..])
    decreases i
  {
    if i > 0 {
      TotalSplit(ranges[1..], i - 1);
      assert ranges[1..][..i - 1] == ranges[..i][1..] && ranges[1..][i - 1..] == ranges[i..];
    } else {
      assert ranges[0..] == ranges;
    }
  }

  lemma {:induction false} TxRangeStart(v: Value, events: seq<Event>, i: nat)
    requires InRange(v) && WellFormed(events) && i < |Sent(v, events)|
    ensures Sent(v, events)[i].sequence == (v.tx + TotalLength(Sent(v, events)[..i])) % U32
    decreases |events|
  {
    var n := Next(v, events[0]);
    var sent, rest := Sent(v, events), Sent(n, events[1..]);
    if Counts(v, events[0]) && events[0].call.op == TX {
      if i > 0 {
        TxRangeStart(n, events[1..], i - 1);
        assert sent[..i][1..] == rest[..i - 1];
        WrapOnce(v.tx + events[0].call.argument, TotalLength(rest[..i - 1]));
      }
    } else {
      TxRangeStart(n, events[1..], i);
    }
  }

  /** last_seen is the latest of its first value and the admitted peer activity, and nothing else. */
  lemma {:induction false} LastSeenIsPeerMaximum(v: Value, events: seq<Event>)
    ensures var last := Play(v, events).lastSeen;
      && (last == v.lastSeen || last in PeerTimes(v, events))
      && v.lastSeen <= last
      && (forall t :: t in PeerTimes(v, events) ==> t <= last)
    decreases |events|
  {
    if events != [] {
      LastSeenIsPeerMaximum(Next(v, events[0]), events[1..]);
    }
  }

  lemma {:induction false} RunSplits(v: Value, a: seq<Event>, b: seq<Event>)
    ensures Play(v, a + b) == Play(Play(v, a), b)
    ensures RxAdvance(v, a + b) == RxAdvance(v, a) + RxAdvance(Play(v, a), b)
    ensures AdmittedCount(v, a + b) == AdmittedCount(v, a) + AdmittedCount(Play(v, a), b)
    decreases |a|
  {
    if a == [] {
      assert a + b == b;
    } else {
      RunSplits(Next(v, a[0]), a[1..], b);
      assert (a + b)[1..] == a[1..] + b;
    }
  }

  /** The unwrapped receive position, of which rx is the residue modulo 2^32, never goes back. */
  lemma RxNeverGoesBack(v: Value, a: seq<Event>, b: seq<Event>)
    requires InRange(v) && WellFormed(a) && WellFormed(a + b)
    ensures var before, after := v.rx + RxAdvance(v, a), v.rx + RxAdvance(v, a + b);
      && Play(v, a).rx == before % U32 && Play(v, a + b).rx == after % U32
      && before <= after
  {
    RunSplits(v, a, b);
    RxTotal(v, a);
    RxTotal(v, a + b);
  }

  // ----- Delete claim -----

  lemma {:induction false} Unmutated(v: Value, events: seq<Event>)
    requires AdmittedCount(v, events) == 0
    ensures var w := Play(v, events);
      w == v || (w == v.(state := DELETE_CLAIMED) && v.state == ESTABLISHED)
    decreases |events|
  {
    if events != [] {
      Unmutated(Next(v, events[0]), events[1..]);
    }
  }

  /** No ABA: a claim that names the snapshot v succeeds after any later run exactly when no
      mutation was admitted in between. */
  lemma ClaimIffUnmutated(v: Value, events: seq<Event>, generation: nat)
    requires InRange(v) && WellFormed(events) && MetadataValid(v, generation)
    ensures Claims(Play(v, events), v) <==> AdmittedCount(v, events) == 0
  {
    RunTotals(v, events);
    if AdmittedCount(v, events) == 0 { Unmutated(v, events); }
  }

  /** A claimed value is frozen: no mutation is admitted and no field changes, whatever follows. */
  lemma {:induction false} ClaimIsFinal(v: Value, events: seq<Event>)
    requires v.state == DELETE_CLAIMED
    ensures Play(v, events) == v && AdmittedCount(v, events) == 0
    decreases |events|
  {
    if events != [] {
      ClaimIsFinal(v, events[1..]);
    }
  }

  /** Repeating a claim that succeeded succeeds again and changes nothing; of two valid
      requests that claim the same stored value both name the same expected value. */
  lemma ClaimRepeats(v: Value, r: ClaimRequest, s: ClaimRequest, events: seq<Event>)
    requires RequestValid(r) && RequestValid(s) && Claims(v, r.expected)
    ensures var w := Play(Next(v, Claim(r)), events);
      && w == v.(state := DELETE_CLAIMED)
      && Claims(w, r.expected) && Next(w, Claim(r)) == w
      && (Claims(w, s.expected) ==> s.expected == r.expected)
  {
    ClaimIsFinal(Next(v, Claim(r)), events);
  }
}
