/** The kernel objects of one unpinned collection, reached through operations that may all fail.
    Every operation records the world it leaves behind; the record starts in the empty world, ends
    in the present one and takes one operation at a time, so a property of the record is a property
    of every intermediate step. Packets keep running in between: while the gate is open or draining
    they may advance the cursor of a control policy, and the last of them may seal a draining gate. */
module KernelState {
  import opened Outcomes

  datatype Gate = UNUSED | OPENED | DRAINING | SEALED | POISONED

  datatype Phase = CONTROL | PORT | INTERFACE

  function Rank(p: Phase): nat {
    match p
    case CONTROL => 0
    case PORT => 1
    case INTERFACE => 2
  }

  datatype PolicyKey = PolicyKey(phase: Phase, id: nat)

  // A policy value: the fields userspace owns, and the cursor BPF owns.
  datatype PolicyValue = PolicyValue(fixed: nat, cursor: nat)

  datatype World = World(
    control: nat,                             // generation selected by control_map, 0 for none
    gate: Gate,
    core: map<nat, nat>,                      // baseline entries and tail-call slots
    bank: nat,                                // program ID in the generation's egress bank, 0 for none
    policy: map<PolicyKey, PolicyValue>,
    xdp: set<nat>,                            // attached interfaces
    tc: set<nat>,
    released: bool)                           // the collection has begun to close

  function Start(): World { World(0, UNUSED, map[], 0, map[], {}, {}, false) }

  // What packets can do to the gate: the last exit seals one that drains.
  predicate Drifted(a: Gate, b: Gate) { a == b || (a == DRAINING && b == SEALED) }

  predicate SameButCursors(a: World, b: World) {
    && a.(policy := b.policy, gate := b.gate) == b && Drifted(a.gate, b.gate) && a.policy.Keys == b.policy.Keys
    && (forall k :: k in a.policy ==> a.policy[k].fixed == b.policy[k].fixed)
    && (forall k :: k in a.policy && (k.phase != CONTROL || (a.gate != OPENED && a.gate != DRAINING)) ==>
          a.policy[k] == b.policy[k])
  }

  // Control policies with their cursors moved.
  function Advanced(policy: map<PolicyKey, PolicyValue>, drift: map<PolicyKey, nat>): (now: map<PolicyKey, PolicyValue>)
    ensures now.Keys == policy.Keys
    ensures forall k :: k in policy ==> now[k].fixed == policy[k].fixed && (k.phase != CONTROL ==> now[k] == policy[k])
  {
    map k | k in policy ::
      if k.phase == CONTROL && k in drift then policy[k].(cursor := drift[k]) else policy[k]
  }

  predicate OneKey<K, V(==)>(a: map<K, V>, b: map<K, V>, k: K) { a - {k} == b - {k} }

  lemma OneKeyMoved<K, V>(m: map<K, V>, k: K, v: V)
    ensures OneKey(m, m[k := v], k) && OneKey(m, m - {k}, k)
  {}

  /** One operation: packets ran, or one field changed, and of a map at most one key. */
  ghost predicate OneStep(a: World, b: World) {
    || SameButCursors(a, b)
    || b == a.(control := b.control) || b == a.(gate := b.gate) || b == a.(bank := b.bank)
    || b == a.(xdp := b.xdp) || b == a.(tc := b.tc) || b == a.(released := b.released)
    || (b == a.(core := b.core) && exists k :: OneKey(a.core, b.core, k))
    || (b == a.(policy := b.policy) && exists k :: OneKey(a.policy, b.policy, k))
  }

  ghost predicate Stepwise(history: seq<World>) {
    forall i :: 0 <= i < |history| - 1 ==> OneStep(history[i], history[i + 1])
  }

  /** A record of everything since the collection was created, up to the world w. */
  ghost predicate RecordOf(history: seq<World>, w: World) {
    |history| > 0 && history[0] == Start() && history[|history| - 1] == w && Stepwise(history)
  }

  lemma RecordGrows(history: seq<World>, w: World, next: World)
    requires RecordOf(history, w) && OneStep(w, next)
    ensures RecordOf(history + [next], next)
  {
    var now := history + [next];
    forall i | 0 <= i < |now| - 1 ensures OneStep(now[i], now[i + 1]) {
      if i < |history| - 1 { assert OneStep(history[i], history[i + 1]); }
    }
  }

  class Kernel {
    var w: World
    ghost var history: seq<World>

    ghost predicate Recorded() reads this { RecordOf(history, w) }

    constructor ()
      ensures w == Start() && history == [w] && Recorded()
    {
      w, history := Start(), [Start()];
    }

    // Record the world an operation left behind.
    ghost method Note(was: World)
      requires RecordOf(history, was) && OneStep(was, w)
      modifies this`history
      ensures history == old(history) + [w] && Recorded()
    {
      RecordGrows(history, was, w);
      history := history + [w];
    }

    // Packets ran.
    method Traffic()
      requires Recorded()
      modifies this
      ensures Recorded() && SameButCursors(old(w), w) && history == old(history) + [w]
    {
      ghost var was := w;
      var drift: map<PolicyKey, nat> := *;
      if w.gate == OPENED || w.gate == DRAINING {
        w := w.(policy := Advanced(w.policy, drift));
      }
      var last: bool := *;
      if w.gate == DRAINING && last { w := w.(gate := SEALED); }
      Note(was);
    }

    // ----- control_map -----

    method LookupControl() returns (r: Found<nat>)
      requires Recorded()
      modifies this
      ensures Recorded() && SameButCursors(old(w), w) && history == old(history) + [w]
      ensures r == Failed || r == Present(w.control)
    {
      Traffic();
      var ok: bool := *;
      r := if ok then Present(w.control) else Failed;
    }

    /** An update that reports an error inserted nothing, except that a zero write may have taken
        effect anyway. */
    method UpdateControl(value: nat) returns (ok: bool)
      requires Recorded()
      modifies this
      ensures Recorded() && history == old(history) + [w]
      ensures ok ==> w == old(w).(control := value)
      ensures !ok ==> w == old(w) || (value == 0 && w == old(w).(control := 0))
    {
      ghost var was := w;
      ok := *;
      var late: bool := *;
      if ok || (value == 0 && late) { w := w.(control := value); }
      Note(was);
    }

    // ----- policy maps -----

    method LookupPolicy(key: PolicyKey) returns (r: Found<PolicyValue>)
      requires Recorded()
      modifies this
      ensures Recorded() && SameButCursors(old(w), w) && history == old(history) + [w]
      ensures r == Failed || r == (if key in w.policy then Present(w.policy[key]) else Absent)
    {
      Traffic();
      var ok: bool := *;
      if !ok { return Failed; }
      r := if key in w.policy then Present(w.policy[key]) else Absent;
    }

    method InsertPolicy(key: PolicyKey, value: PolicyValue) returns (ok: bool)
      requires Recorded()
      modifies this
      ensures Recorded() && history == old(history) + [w]
      ensures ok ==> key !in old(w).policy && w == old(w).(policy := old(w).policy[key := value])
      ensures !ok ==> w == old(w)
    {
      ghost var was := w;
      ok := *;
      ok := ok && key !in w.policy;
      OneKeyMoved(w.policy, key, value);
      if ok { w := w.(policy := w.policy[key := value]); }
      Note(was);
    }

    // A deletion that reports an error may have happened all the same.
    method DeletePolicy(key: PolicyKey) returns (r: Found<()>)
      requires Recorded()
      modifies this
      ensures Recorded() && history == old(history) + [w]
      ensures w == old(w) || w == old(w).(policy := old(w).policy - {key})
      ensures r == Absent ==> key !in old(w).policy
      ensures r == Present(()) ==> key !in w.policy
    {
      ghost var was := w;
      var effective: bool := *;
      var reported: bool := *;
      if key !in w.policy {
        Note(was);
        return if reported then Absent else Failed;
      }
      OneKeyMoved(w.policy, key, w.policy[key]);
      if effective { w := w.(policy := w.policy - {key}); }
      Note(was);
      r := if effective && reported then Present(()) else Failed;
    }

    // ----- generation gate -----

    method AssertInactive() returns (ok: bool)
      ensures ok ==> w.gate == UNUSED
    {
      ok := *;
      ok := ok && w.gate == UNUSED;
    }

    method OpenGate() returns (ok: bool)
      requires Recorded()
      modifies this
      ensures Recorded() && history == old(history) + [w]
      ensures w == old(w).(gate := w.gate)
      ensures w.gate == old(w).gate || (w.gate == OPENED && old(w).gate == UNUSED)
      ensures ok ==> w.gate == OPENED
    {
      ghost var was := w;
      ok := *;
      var effective: bool := *;
      if effective && w.gate == UNUSED { w := w.(gate := OPENED); }
      ok := ok && w.gate == OPENED;
      Note(was);
    }

    /** Quiesce: success leaves the gate sealed; a failure may leave it sealed, draining or poisoned,
        but never opens it. */
    method Quiesce() returns (ok: bool)
      requires Recorded()
      modifies this
      ensures Recorded() && history == old(history) + [w]
      ensures w == old(w).(gate := w.gate)
      ensures w.gate == OPENED ==> old(w).gate == OPENED
      ensures ok ==> w.gate == SEALED
    {
      ghost var was := w;
      var g: Gate := *;
      if g != OPENED && g != UNUSED { w := w.(gate := g); }
      ok := *;
      ok := ok && w.gate == SEALED;
      Note(was);
    }

    // ----- baseline maps and tail-call arrays -----

    method LookupCore(key: nat) returns (r: Found<nat>)
      requires Recorded()
      modifies this
      ensures Recorded() && SameButCursors(old(w), w) && history == old(history) + [w]
      ensures r == Failed || r == (if key in w.core then Present(w.core[key]) else Absent)
    {
      Traffic();
      var ok: bool := *;
      if !ok { return Failed; }
      r := if key in w.core then Present(w.core[key]) else Absent;
    }

    method InsertCore(key: nat, value: nat) returns (ok: bool)
      requires Recorded()
      modifies this
      ensures Recorded() && history == old(history) + [w]
      ensures ok ==> w == old(w).(core := old(w).core[key := value])
      ensures !ok ==> w == old(w)
    {
      ghost var was := w;
      ok := *;
      OneKeyMoved(w.core, key, value);
      if ok { w := w.(core := w.core[key := value]); }
      Note(was);
    }

    method DeleteCore(key: nat) returns (r: Found<()>)
      requires Recorded()
      modifies this
      ensures Recorded() && history == old(history) + [w]
      ensures w == old(w) || w == old(w).(core := old(w).core - {key})
      ensures r != Failed ==> key !in w.core
    {
      ghost var was := w;
      var effective: bool := *;
      var reported: bool := *;
      OneKeyMoved(w.core, key, 0);
      if effective { w := w.(core := w.core - {key}); }
      Note(was);
      if key in w.core || !reported { return Failed; }
      r := if effective then Present(()) else Absent;
    }

    // ----- the generation's program bank -----

    method LookupBank() returns (r: Found<nat>)
      requires Recorded()
      modifies this
      ensures Recorded() && SameButCursors(old(w), w) && history == old(history) + [w]
      ensures r == Failed || r == (if w.bank == 0 then Absent else Present(w.bank))
    {
      Traffic();
      var ok: bool := *;
      if !ok { return Failed; }
      r := if w.bank == 0 then Absent else Present(w.bank);
    }

    // Zero empties the bank; an error may hide an emptying that happened.
    method WriteBank(program: nat) returns (ok: bool)
      requires Recorded()
      modifies this
      ensures Recorded() && history == old(history) + [w]
      ensures w == old(w).(bank := w.bank) && (ok ==> w.bank == program)
      ensures !ok ==> w.bank == old(w).bank || w.bank == program == 0
    {
      ghost var was := w;
      ok := *;
      var late: bool := *;
      if ok || (program == 0 && late) { w := w.(bank := program); }
      Note(was);
    }

    // ----- attachments and the collection itself -----

    // Attach to every interface, or fail with some of them attached.
    method AttachXdp(links: set<nat>) returns (ok: bool)
      requires Recorded()
      modifies this
      ensures Recorded() && history == old(history) + [w]
      ensures w == old(w).(xdp := w.xdp)
      ensures ok ==> w.xdp == links
    {
      ghost var was := w;
      ok := *;
      var some: set<nat> := *;
      w := w.(xdp := if ok then links else some);
      Note(was);
    }

    method DetachXdp() returns (ok: bool)
      requires Recorded()
      modifies this
      ensures Recorded() && history == old(history) + [w]
      ensures w == old(w).(xdp := w.xdp) && w.xdp <= old(w).xdp
      ensures ok ==> w.xdp == {}
    {
      ghost var was := w;
      var some: set<nat> := *;
      w := w.(xdp := w.xdp * some);
      ok := *;
      ok := ok && w.xdp == {};
      Note(was);
    }

    method AttachTc(links: set<nat>) returns (ok: bool)
      requires Recorded()
      modifies this
      ensures Recorded() && history == old(history) + [w]
      ensures w == old(w).(tc := w.tc)
      ensures ok ==> w.tc == links
    {
      ghost var was := w;
      ok := *;
      var some: set<nat> := *;
      w := w.(tc := if ok then links else some);
      Note(was);
    }

    method DetachTc() returns (ok: bool)
      requires Recorded()
      modifies this
      ensures Recorded() && history == old(history) + [w]
      ensures w == old(w).(tc := w.tc) && w.tc <= old(w).tc
      ensures ok ==> w.tc == {}
    {
      ghost var was := w;
      var some: set<nat> := *;
      w := w.(tc := w.tc * some);
      ok := *;
      ok := ok && w.tc == {};
      Note(was);
    }

    // Closing begins to release handles whether or not it reports success.
    method CloseCollection() returns (ok: bool)
      requires Recorded()
      modifies this
      ensures Recorded() && history == old(history) + [w]
      ensures w == old(w).(released := true)
    {
      ghost var was := w;
      w := w.(released := true);
      ok := *;
      Note(was);
    }
  }
}
