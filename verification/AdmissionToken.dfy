/** The single-use admission token of one CPU. A checkpoint issues it, the XOR segment programs
    advance it, and the continuation consumes it before it looks at anything else. Each program
    run is one method call; the nonce it presents comes from skb->cb and may be stale or made up,
    and any program may be entered at any time. */
module AdmissionToken {
  import X = XorChain

  const U64_MAX: nat := 0xFFFF_FFFF_FFFF_FFFF

  datatype TokenState = FREE | ARMED | XOR_COMPLETE

  datatype Token = Token(
    nonce: nat, state: TokenState, xor: bool, generation: nat, cipherId: nat, payloadOff: nat, target: nat, mode: nat)

  const NO_TOKEN := Token(0, FREE, false, 0, 0, 0, 0, 0)

  /** What the slot has been through. */
  datatype Event =
    | Issued(nonce: nat)
    | Completed(nonce: nat, target: nat, segment: nat)   // ARMED -> XOR_COMPLETE
    | Consumed(nonce: nat)                               // cleared by the matching nonce
    | Cleared                                            // cleared by any other nonce
    | Transformed(nonce: nat)                            // a continuation encoded the packet

  predicate LastSegment(target: nat, segment: nat) {
    segment * X.SEGMENT_BYTES < target <= (segment + 1) * X.SEGMENT_BYTES
  }

  // Nonces are issued in strictly increasing order, starting above zero.
  ghost predicate Increasing(log: seq<Event>, next: nat) {
    && (forall i, j :: 0 <= i < j < |log| && log[i].Issued? && log[j].Issued? ==> log[i].nonce < log[j].nonce)
    && (forall i :: 0 <= i < |log| && log[i].Issued? ==> 0 < log[i].nonce <= next)
  }

  // No nonce is consumed twice, and only issued ones are.
  ghost predicate SingleUse(log: seq<Event>) {
    && (forall i, j :: 0 <= i < j < |log| && log[i].Consumed? && log[j].Consumed? ==> log[i].nonce != log[j].nonce)
    && (forall i :: 0 <= i < |log| && log[i].Consumed? ==> Issued(log[i].nonce) in log[..i])
  }

  ghost predicate WasCompleted(log: seq<Event>, nonce: nat) {
    exists k :: 0 <= k < |log| && log[k].Completed? && log[k].nonce == nonce
      && LastSegment(log[k].target, log[k].segment) && Issued(nonce) in log[..k]
  }

  // A packet is transformed only right after its token was consumed, a token that had been
  // completed by the last segment of its own target.
  ghost predicate Justified(log: seq<Event>) {
    forall k :: 0 <= k < |log| && log[k].Transformed? ==>
      k > 0 && log[k - 1] == Consumed(log[k].nonce) && WasCompleted(log[..k - 1], log[k].nonce)
  }

  ghost predicate NotCompleted(log: seq<Event>, nonce: nat) {
    forall i :: 0 <= i < |log| && log[i].Completed? ==> log[i].nonce != nonce
  }

  // No nonce is completed twice, and none beyond the counter.
  ghost predicate CompletedOnce(log: seq<Event>, next: nat) {
    && (forall i, j :: 0 <= i < j < |log| && log[i].Completed? && log[j].Completed? ==> log[i].nonce != log[j].nonce)
    && (forall i :: 0 <= i < |log| && log[i].Completed? ==> log[i].nonce <= next)
  }

  // The active token was issued, not yet consumed, and is complete exactly if a last segment made it so.
  ghost predicate ActiveLogged(log: seq<Event>, t: Token) {
    t.nonce != 0 ==>
      && Issued(t.nonce) in log && Consumed(t.nonce) !in log
      && (t.state == XOR_COMPLETE ==> WasCompleted(log, t.nonce))
      && (t.state == ARMED ==> NotCompleted(log, t.nonce))
  }

  ghost predicate Consistent(log: seq<Event>, t: Token, next: nat) {
    && Increasing(log, next) && SingleUse(log) && CompletedOnce(log, next) && Justified(log) && ActiveLogged(log, t)
    && next <= U64_MAX
  }

  lemma JustifiedGrows(log: seq<Event>, e: Event)
    requires Justified(log)
    requires e.Transformed? ==>
               log != [] && log[|log| - 1] == Consumed(e.nonce) && WasCompleted(log[..|log| - 1], e.nonce)
    ensures Justified(log + [e])
  {
    var now := log + [e];
    forall k | 0 <= k < |now| && now[k].Transformed?
      ensures k > 0 && now[k - 1] == Consumed(now[k].nonce) && WasCompleted(now[..k - 1], now[k].nonce)
    {
      if k < |log| {
        assert log[k].Transformed? && now[..k - 1] == log[..k - 1];
      } else {
        assert now[..k - 1] == log[..|log| - 1];
      }
    }
  }

  lemma SingleUseGrows(log: seq<Event>, e: Event)
    requires SingleUse(log)
    requires e.Consumed? ==> Issued(e.nonce) in log && Consumed(e.nonce) !in log
    ensures SingleUse(log + [e])
  {
    var now := log + [e];
    forall i | 0 <= i < |now| && now[i].Consumed? ensures Issued(now[i].nonce) in now[..i] {
      assert now[..i] == log[..i];
    }
  }

  lemma IssueKeeps(log: seq<Event>, next: nat, t: Token)
    requires Consistent(log, NO_TOKEN, next) && next < U64_MAX && t.nonce == next + 1 && t.state == ARMED
    ensures Consistent(log + [Issued(next + 1)], t, next + 1)
  {
    var now := log + [Issued(next + 1)];
    JustifiedGrows(log, Issued(next + 1));
    SingleUseGrows(log, Issued(next + 1));
  }

  lemma ClearKeeps(log: seq<Event>, next: nat, t: Token, matched: bool)
    requires Consistent(log, t, next) && (matched ==> t.nonce != 0)
    ensures Consistent(log + [if matched then Consumed(t.nonce) else Cleared], NO_TOKEN, next)
  {
    var e := if matched then Consumed(t.nonce) else Cleared;
    JustifiedGrows(log, e);
    SingleUseGrows(log, e);
  }

  lemma CompleteKeeps(log: seq<Event>, next: nat, t: Token, segment: nat)
    requires Consistent(log, t, next) && t.nonce != 0 && t.state == ARMED && LastSegment(t.target, segment)
    ensures Consistent(log + [Completed(t.nonce, t.target, segment)], t.(state := XOR_COMPLETE), next)
  {
    var e := Completed(t.nonce, t.target, segment);
    JustifiedGrows(log, e);
    SingleUseGrows(log, e);
    var now := log + [e];
    assert now[|log|] == e && now[..|log|] == log;
  }

  lemma TransformKeeps(log: seq<Event>, next: nat, nonce: nat)
    requires Consistent(log, NO_TOKEN, next) && log != [] && log[|log| - 1] == Consumed(nonce)
    requires WasCompleted(log[..|log| - 1], nonce)
    ensures Consistent(log + [Transformed(nonce)], NO_TOKEN, next)
  {
    JustifiedGrows(log, Transformed(nonce));
    SingleUseGrows(log, Transformed(nonce));
  }

  // A token the segment programs accept.
  predicate Armed(t: Token) {
    && t.state == ARMED && t.xor && t.generation != 0 && t.cipherId != 0 && t.payloadOff >= 8
    && 4 <= t.target <= X.MAX_XOR_BYTES && t.mode <= 2
  }

  // The nonce names an armed token with payload in this segment.
  predicate Serves(t: Token, nonce: nat, segment: nat) {
    nonce != 0 && t.nonce == nonce && Armed(t) && segment < X.SEGMENT_COUNT && segment * X.SEGMENT_BYTES < t.target
  }

  // ----- What each program run does to the slot -----

  datatype SlotState = SlotState(active: Token, nextNonce: nat, log: seq<Event>)

  const FRESH := SlotState(NO_TOKEN, 0, [])

  function ClearEvent(t: Token, nonce: nat): Event {
    if nonce != 0 && t.nonce == nonce then Consumed(nonce) else Cleared
  }

  function AfterConsume(s: SlotState, nonce: nat): SlotState {
    SlotState(NO_TOKEN, s.nextNonce, s.log + [ClearEvent(s.active, nonce)])
  }

  function AfterIssue(s: SlotState, t: Token): SlotState {
    if s.active.nonce != 0 then AfterConsume(s, s.active.nonce)
    else if s.nextNonce == U64_MAX then s
    else
      var nonce := s.nextNonce + 1;
      SlotState(t.(nonce := nonce, state := ARMED), nonce, s.log + [Issued(nonce)])
  }

  function AfterComplete(s: SlotState, segment: nat): SlotState {
    s.(active := s.active.(state := XOR_COMPLETE), log := s.log + [Completed(s.active.nonce, s.active.target, segment)])
  }

  function AfterSegment(s: SlotState, nonce: nat, segment: nat, loads: bool, stores: bool,
                        dispatches: bool): SlotState {
    if !(loads && stores && Serves(s.active, nonce, segment)) then AfterConsume(s, nonce)
    else
      var done := if LastSegment(s.active.target, segment) then AfterComplete(s, segment) else s;
      if dispatches then done else AfterConsume(done, nonce)
  }

  predicate Transforms(s: SlotState, nonce: nat, loads: bool, coherent: bool) {
    loads && coherent && nonce != 0 && s.active.nonce == nonce && s.active.state == XOR_COMPLETE
  }

  function AfterContinue(s: SlotState, nonce: nat, loads: bool, coherent: bool): SlotState {
    var c := AfterConsume(s, nonce);
    if Transforms(s, nonce, loads, coherent) then c.(log := c.log + [Transformed(nonce)]) else c
  }

  function AfterAggregate(s: SlotState, t: Token, matches: bool): SlotState {
    var i := AfterIssue(s, t);
    if i.active.nonce == 0 || !matches then i else AfterConsume(i, i.active.nonce)
  }

  /** One program run on the CPU: which program, the nonce its packet presents, and how its helpers fared. */
  datatype Entry =
    | Checkpoint(token: Token)
    | Segment(nonce: nat, segment: nat, loads: bool, stores: bool, dispatches: bool)
    | Continuation(nonce: nat, loads: bool, coherent: bool)
    | Aggregate(token: Token, matches: bool, transforms: bool)

  function After(s: SlotState, e: Entry): SlotState {
    match e
    case Checkpoint(t) => AfterIssue(s, t)
    case Segment(nonce, segment, loads, stores, dispatches) =>
      AfterSegment(s, nonce, segment, loads, stores, dispatches)
    case Continuation(nonce, loads, coherent) => AfterContinue(s, nonce, loads, coherent)
    case Aggregate(t, matches, _) => AfterAggregate(s, t, matches)
  }

  function Run(s: SlotState, entries: seq<Entry>): SlotState
    decreases |entries|
  {
    if entries == [] then s else Run(After(s, entries[0]), entries[1..])
  }

  // ----- The slot -----

  class Slot {
    var active: Token
    var nextNonce: nat
    ghost var log: seq<Event>

    ghost function State(): SlotState reads this { SlotState(active, nextNonce, log) }

    constructor ()
      ensures State() == FRESH
    {
      active, nextNonce, log := NO_TOKEN, 0, [];
    }

    /** The only consume primitive: it clears the slot whatever nonce is presented, and succeeds
        only for the active one. */
    method Consume(nonce: nat) returns (ok: bool, token: Token)
      modifies this
      ensures State() == AfterConsume(old(State()), nonce) && token == old(active)
      ensures ok <==> nonce != 0 && old(active).nonce == nonce
    {
      token := active;
      ok := nonce != 0 && active.nonce == nonce;
      log := log + [if ok then Consumed(nonce) else Cleared];
      active := NO_TOKEN;
    }

    /** The checkpoint's last act. A slot still in use is cleared and the packet dropped; the nonce
        counter saturates instead of wrapping. */
    method Issue(t: Token) returns (nonce: nat)
      modifies this
      ensures State() == AfterIssue(old(State()), t)
      ensures nonce != 0 <==> old(active).nonce == 0 && old(nextNonce) != U64_MAX
      ensures nonce != 0 ==> nonce == active.nonce == nextNonce
    {
      if active.nonce != 0 {
        var ok, token := Consume(active.nonce);
        return 0;
      }
      if nextNonce == U64_MAX { return 0; }
      nextNonce := nextNonce + 1;
      nonce := nextNonce;
      active := t.(nonce := nonce, state := ARMED);
      log := log + [Issued(nonce)];
    }

    // The token a presented nonce names, if it is the active one.
    function Named(nonce: nat): Token
      reads this
    {
      if nonce != 0 && active.nonce == nonce then active else NO_TOKEN
    }

    /** One XOR segment program on a FakeTCP packet. `loads` is whether skb->cb parsed and the
        cipher was found, `stores` whether masking the segment worked, `dispatches` whether the
        tail call took over. A token becomes complete only through its own last segment. */
    method RunSegment(nonce: nat, segment: nat, loads: bool, stores: bool, dispatches: bool)
      modifies this
      ensures State() == AfterSegment(old(State()), nonce, segment, loads, stores, dispatches)
      ensures active == if !(loads && stores && dispatches && Serves(old(active), nonce, segment)) then NO_TOKEN
                        else if LastSegment(old(active).target, segment) then old(active).(state := XOR_COMPLETE)
                        else old(active)
    {
      var t := Named(nonce);
      var b := X.SegmentBounds(t.target, segment, 0);
      if !loads || !Armed(t) || b == X.NoBounds || !stores {
        var ok, token := Consume(nonce);
        return;
      }
      if !b.hasMore {
        log := log + [Completed(nonce, t.target, segment)];
        active := active.(state := XOR_COMPLETE);
      }
      if !dispatches { var ok, token := Consume(nonce); }
    }

    /** The continuation: consume first, then encode only an XOR_COMPLETE token whose packet and
        policy still match. */
    method Continue(nonce: nat, loads: bool, coherent: bool) returns (transformed: bool)
      modifies this
      ensures State() == AfterContinue(old(State()), nonce, loads, coherent)
      ensures transformed <==> Transforms(old(State()), nonce, loads, coherent)
    {
      var ok, token := Consume(nonce);
      transformed := loads && ok && coherent && token.state == XOR_COMPLETE;
      if transformed { log := log + [Transformed(nonce)]; }
    }

    /** The aggregate path: one program issues the token, transforms and consumes it. Only a
        mismatch right after the issue leaves it behind, for the next checkpoint to clear. */
    method RunAggregate(t: Token, matches: bool, transforms: bool) returns (passed: bool)
      modifies this
      ensures State() == AfterAggregate(old(State()), t, matches)
      ensures passed <==> old(active).nonce == 0 && old(nextNonce) != U64_MAX && matches && transforms
    {
      passed := false;
      var nonce := Issue(t);
      if nonce == 0 || !matches { return; }
      var ok, token := Consume(nonce);
      passed := transforms;
    }
  }

  /** A CPU runs any programs in any order, each with whatever nonce its packet carries. */
  method Drive(entries: seq<Entry>) returns (slot: Slot)
    ensures fresh(slot) && slot.State() == Run(FRESH, entries)
  {
    slot := new Slot();
    var i := 0;
    assert entries[0..] == entries;
    while i < |entries|
      invariant i <= |entries| && fresh(slot)
      invariant Run(slot.State(), entries[i..]) == Run(FRESH, entries)
    {
      match entries[i] {
        case Checkpoint(t) => var nonce := slot.Issue(t);
        case Segment(nonce, segment, loads, stores, dispatches) =>
          slot.RunSegment(nonce, segment, loads, stores, dispatches);
        case Continuation(nonce, loads, coherent) => var done := slot.Continue(nonce, loads, coherent);
        case Aggregate(t, matches, transforms) => var passed := slot.RunAggregate(t, matches, transforms);
      }
      i := i + 1;
    }
  }

  // ----- Every run -----

  ghost predicate Inv(s: SlotState) { Consistent(s.log, s.active, s.nextNonce) }

  lemma ConsumeKeeps(s: SlotState, nonce: nat)
    requires Inv(s)
    ensures Inv(AfterConsume(s, nonce))
  {
    ClearKeeps(s.log, s.nextNonce, s.active, nonce != 0 && s.active.nonce == nonce);
  }

  lemma ForgetActive(log: seq<Event>, t: Token, next: nat)
    requires Consistent(log, t, next)
    ensures Consistent(log, NO_TOKEN, next)
  {}

  lemma FreshTokenKeeps(s: SlotState, u: Token)
    requires Inv(s) && s.nextNonce < U64_MAX && u.nonce == s.nextNonce + 1 && u.state == ARMED
    ensures Inv(SlotState(u, s.nextNonce + 1, s.log + [Issued(s.nextNonce + 1)]))
  {
    ForgetActive(s.log, s.active, s.nextNonce);
    IssueKeeps(s.log, s.nextNonce, u);
  }

  lemma CheckpointKeeps(s: SlotState, t: Token)
    requires Inv(s)
    ensures Inv(AfterIssue(s, t))
  {
    if s.active.nonce != 0 {
      ConsumeKeeps(s, s.active.nonce);
      assert AfterIssue(s, t) == AfterConsume(s, s.active.nonce);
    } else if s.nextNonce != U64_MAX {
      var u := t.(nonce := s.nextNonce + 1, state := ARMED);
      FreshTokenKeeps(s, u);
      assert AfterIssue(s, t) == SlotState(u, s.nextNonce + 1, s.log + [Issued(s.nextNonce + 1)]);
    } else {
      assert AfterIssue(s, t) == s;
    }
  }

  lemma SegmentKeeps(s: SlotState, nonce: nat, segment: nat, loads: bool, stores: bool, dispatches: bool)
    requires Inv(s)
    ensures Inv(AfterSegment(s, nonce, segment, loads, stores, dispatches))
  {
    if !(loads && stores && Serves(s.active, nonce, segment)) {
      ConsumeKeeps(s, nonce);
    } else {
      var done := if LastSegment(s.active.target, segment) then AfterComplete(s, segment) else s;
      if LastSegment(s.active.target, segment) { CompleteKeeps(s.log, s.nextNonce, s.active, segment); }
      if !dispatches { ConsumeKeeps(done, nonce); }
    }
  }

  lemma ContinueKeeps(s: SlotState, nonce: nat, loads: bool, coherent: bool)
    requires Inv(s)
    ensures Inv(AfterContinue(s, nonce, loads, coherent))
  {
    ConsumeKeeps(s, nonce);
    if Transforms(s, nonce, loads, coherent) {
      var log := AfterConsume(s, nonce).log;
      assert log[..|log| - 1] == s.log;
      TransformKeeps(log, s.nextNonce, nonce);
    }
  }

  lemma AggregateKeeps(s: SlotState, t: Token, matches: bool)
    requires Inv(s)
    ensures Inv(AfterAggregate(s, t, matches))
  {
    CheckpointKeeps(s, t);
    var i := AfterIssue(s, t);
    ConsumeKeeps(i, i.active.nonce);
  }

  lemma {:induction false} RunKeeps(s: SlotState, entries: seq<Entry>)
    requires Inv(s)
    ensures Inv(Run(s, entries))
    decreases |entries|
  {
    if entries != [] {
      match entries[0] {
        case Checkpoint(t) => CheckpointKeeps(s, t);
        case Segment(nonce, segment, loads, stores, dispatches) =>
          SegmentKeeps(s, nonce, segment, loads, stores, dispatches);
        case Continuation(nonce, loads, coherent) => ContinueKeeps(s, nonce, loads, coherent);
        case Aggregate(t, matches, _) => AggregateKeeps(s, t, matches);
      }
      RunKeeps(After(s, entries[0]), entries[1..]);
    }
  }

  // The nonce of event k was issued, then completed by the last segment of its target, then consumed.
  ghost predicate HasHistory(log: seq<Event>, k: nat)
    requires k < |log| && log[k].Transformed?
  {
    && k > 0 && log[k - 1] == Consumed(log[k].nonce)
    && exists i, j ::
      && 0 <= i < j < k - 1 && log[i] == Issued(log[k].nonce)
      && log[j].Completed? && log[j].nonce == log[k].nonce && LastSegment(log[j].target, log[j].segment)
  }

  lemma JustifiedHistory(log: seq<Event>, k: nat)
    requires Justified(log) && k < |log| && log[k].Transformed?
    ensures HasHistory(log, k)
  {
    var n, before := log[k].nonce, log[..k - 1];
    assert WasCompleted(before, n);
    var j :| 0 <= j < |before| && before[j].Completed? && before[j].nonce == n
      && LastSegment(before[j].target, before[j].segment) && Issued(n) in before[..j];
    var i :| 0 <= i < j && before[..j][i] == Issued(n);
    assert log[j] == before[j] && log[i] == before[i] == Issued(n);
  }

  /** In every run a transformed packet has a whole story behind it: its nonce was issued, completed by
      the last segment of its target, and consumed, in that order. */
  lemma TransformHasHistory(entries: seq<Entry>)
    ensures var log := Run(FRESH, entries).log;
      forall k :: 0 <= k < |log| && log[k].Transformed? ==> HasHistory(log, k)
  {
    RunKeeps(FRESH, entries);
    var log := Run(FRESH, entries).log;
    forall k | 0 <= k < |log| && log[k].Transformed? ensures HasHistory(log, k) { JustifiedHistory(log, k); }
  }

  // The same thing happened to the same nonce.
  predicate Repeats(a: Event, b: Event) {
    a == b || (a.Completed? && b.Completed? && a.nonce == b.nonce)
  }

  /** In every run no nonce is issued, completed, consumed or transformed twice. */
  lemma EverythingOnce(entries: seq<Entry>)
    ensures var log := Run(FRESH, entries).log;
      forall a, b :: 0 <= a < b < |log| && Repeats(log[a], log[b]) ==> log[a].Cleared?
  {
    RunKeeps(FRESH, entries);
    var log := Run(FRESH, entries).log;
    forall a, b | 0 <= a < b < |log| && Repeats(log[a], log[b]) ensures log[a].Cleared? {
      if log[a].Transformed? {
        JustifiedHistory(log, a);
        JustifiedHistory(log, b);
      }
    }
  }

  /** In every run the nonces are issued in strictly increasing order, up to the counter, and only an
      issued nonce is ever consumed. */
  lemma NoncesIncrease(entries: seq<Entry>)
    ensures var s := Run(FRESH, entries);
      && s.nextNonce <= U64_MAX
      && (forall a, b :: 0 <= a < b < |s.log| && s.log[a].Issued? && s.log[b].Issued? ==>
          s.log[a].nonce < s.log[b].nonce)
      && (forall a :: 0 <= a < |s.log| && s.log[a].Issued? ==> 0 < s.log[a].nonce <= s.nextNonce)
      && (forall a :: 0 <= a < |s.log| && s.log[a].Consumed? ==> Issued(s.log[a].nonce) in s.log[..a])
  {
    RunKeeps(FRESH, entries);
  }

  /** No run moves the history or the counter back, whatever follows. */
  lemma {:induction false} HistoryGrows(s: SlotState, entries: seq<Entry>)
    ensures s.log <= Run(s, entries).log && s.nextNonce <= Run(s, entries).nextNonce
    decreases |entries|
  {
    if entries != [] { HistoryGrows(After(s, entries[0]), entries[1..]); }
  }
}
