/** Staging and rolling back the FakeTCP policy of one generation. Control policies go in first,
    then ports, then the interface latches that make the generation reachable from XDP; they come
    out in the opposite order, and only after the gate was quiesced. */
module PolicyTransaction {
  import opened KernelState
  import opened Outcomes

  datatype Op = Op(key: PolicyKey, value: PolicyValue)

  predicate Distinct(ops: seq<Op>) { forall i, j :: 0 <= i < j < |ops| ==> ops[i].key != ops[j].key }

  predicate Ordered(ops: seq<Op>) {
    forall i, j :: 0 <= i < j < |ops| ==> Rank(ops[i].key.phase) <= Rank(ops[j].key.phase)
  }

  // The operations of one plan: controls, then ports, then interfaces, every key once.
  predicate IsPlan(ops: seq<Op>) { Distinct(ops) && Ordered(ops) }

  // ----- The plan -----

  datatype Entry = Entry(id: nat, value: PolicyValue)

  predicate NoDuplicates(entries: seq<Entry>) {
    forall i, j :: 0 <= i < j < |entries| ==> entries[i].id != entries[j].id
  }

  function KeysOf(entries: seq<Entry>): set<nat> { set e | e in entries :: e.id }

  /** The map a list of entries makes. Its size tells whether a key was listed twice. */
  method Snapshot(entries: seq<Entry>) returns (m: map<nat, PolicyValue>)
    ensures m.Keys == KeysOf(entries)
    ensures |m| == |entries| <==> NoDuplicates(entries)
  {
    m := map[];
    var i := 0;
    while i < |entries|
      invariant i <= |entries| && m == MapOf(entries[..i])
    {
      assert entries[..i + 1][..i] == entries[..i];
      m := m[entries[i].id := entries[i].value];
      i := i + 1;
    }
    assert entries[..|entries|] == entries;
    MapSize(entries);
  }

  function MapOf(entries: seq<Entry>): map<nat, PolicyValue> {
    if entries == [] then map[]
    else
      var last := entries[|entries| - 1];
      MapOf(entries[..|entries| - 1])[last.id := last.value]
  }

  lemma {:induction false} MapSize(entries: seq<Entry>)
    ensures MapOf(entries).Keys == KeysOf(entries) && |MapOf(entries)| <= |entries|
    ensures |MapOf(entries)| == |entries| <==> NoDuplicates(entries)
    decreases |entries|
  {
    if entries != [] {
      var n := |entries| - 1;
      MapSize(entries[..n]);
      assert entries[..n + 1] == entries;
      AnotherEntry(entries, n, KeysOf(entries[..n]));
      MapGrows(MapOf(entries[..n]), entries[n].id, entries[n].value);
    }
  }

  lemma MapGrows(m: map<nat, PolicyValue>, id: nat, v: PolicyValue)
    ensures m[id := v].Keys == m.Keys + {id} && |m[id := v]| == if id in m then |m| else |m| + 1
  {
    assert m[id := v].Keys == m.Keys + {id};
    assert |m[id := v]| == |m[id := v].Keys| && |m| == |m.Keys|;
    if id in m { assert m.Keys + {id} == m.Keys; }
  }

  lemma AnotherEntry(entries: seq<Entry>, i: nat, ids: set<nat>)
    requires i < |entries| && ids == KeysOf(entries[..i])
    ensures KeysOf(entries[..i + 1]) == ids + {entries[i].id}
    ensures NoDuplicates(entries[..i + 1]) <==> NoDuplicates(entries[..i]) && entries[i].id !in ids
  {
    var a, b := entries[..i], entries[..i + 1];
    assert b == a + [entries[i]];
    if entries[i].id in ids {
      var e :| e in a && e.id == entries[i].id;
      var k :| 0 <= k < |a| && a[k] == e;
      assert b[k].id == b[i].id;
    }
    if NoDuplicates(b) {
      forall x, y | 0 <= x < y < |a| ensures a[x].id != a[y].id { assert b[x] == a[x] && b[y] == a[y]; }
    }
    if entries[i].id !in ids {
      forall k | 0 <= k < |a| ensures a[k].id != entries[i].id { assert a[k] in a; }
    }
  }

  function OpsOf(phase: Phase, entries: seq<Entry>): (ops: seq<Op>)
    ensures |ops| == |entries|
    ensures forall i :: 0 <= i < |ops| ==> ops[i] == Op(PolicyKey(phase, entries[i].id), entries[i].value)
  {
    seq(|entries|, i requires 0 <= i < |entries| => Op(PolicyKey(phase, entries[i].id), entries[i].value))
  }

  method AppendPhase(ops: seq<Op>, phase: Phase, entries: seq<Entry>) returns (all: seq<Op>)
    ensures all == ops + OpsOf(phase, entries)
  {
    all := ops;
    var i := 0;
    while i < |entries|
      invariant i <= |entries| && all == ops + OpsOf(phase, entries)[..i]
    {
      all := all + [Op(PolicyKey(phase, entries[i].id), entries[i].value)];
      i := i + 1;
    }
  }

  method Operations(controls: seq<Entry>, ports: seq<Entry>, interfaces: seq<Entry>) returns (ops: seq<Op>)
    ensures ops == OpsOf(CONTROL, controls) + OpsOf(PORT, ports) + OpsOf(INTERFACE, interfaces)
  {
    ops := AppendPhase([], CONTROL, controls);
    assert [] + OpsOf(CONTROL, controls) == OpsOf(CONTROL, controls);
    ops := AppendPhase(ops, PORT, ports);
    ops := AppendPhase(ops, INTERFACE, interfaces);
  }

  /** The operations of a generation: refused exactly when a phase lists a key twice, and otherwise
      controls, ports and interfaces in this order, every key once. */
  method BuildPlan(controls: seq<Entry>, ports: seq<Entry>, interfaces: seq<Entry>) returns (ok: bool, ops: seq<Op>)
    ensures ok <==> NoDuplicates(controls) && NoDuplicates(ports) && NoDuplicates(interfaces)
    ensures ok ==> IsPlan(ops) && ops == OpsOf(CONTROL, controls) + OpsOf(PORT, ports) + OpsOf(INTERFACE, interfaces)
  {
    ops := [];
    var seen := Snapshot(controls);
    if |seen| != |controls| { return false, ops; }
    seen := Snapshot(ports);
    if |seen| != |ports| { return false, ops; }
    seen := Snapshot(interfaces);
    if |seen| != |interfaces| { return false, ops; }
    ops := Operations(controls, ports, interfaces);
    PhasesInOrder(controls, ports, interfaces);
    ok := true;
  }

  lemma PhasesInOrder(controls: seq<Entry>, ports: seq<Entry>, interfaces: seq<Entry>)
    requires NoDuplicates(controls) && NoDuplicates(ports) && NoDuplicates(interfaces)
    ensures IsPlan(OpsOf(CONTROL, controls) + OpsOf(PORT, ports) + OpsOf(INTERFACE, interfaces))
  {}

  // ----- What holds at every step -----

  /** A key of a later phase is present only if every key of the earlier phases is. */
  predicate Latched(ops: seq<Op>, policy: map<PolicyKey, PolicyValue>) {
    forall i, j :: 0 <= i < |ops| && 0 <= j < |ops| && Rank(ops[i].key.phase) < Rank(ops[j].key.phase) ==>
      ops[j].key in policy ==> ops[i].key in policy
  }

  ghost predicate AlwaysLatched(ops: seq<Op>, history: seq<World>) {
    forall i :: 0 <= i < |history| ==> Latched(ops, history[i].policy)
  }

  // The value is the one the plan gave this key, with at most its cursor changed, and then only behind a sealed gate.
  predicate Exact(ops: seq<Op>, key: PolicyKey, value: PolicyValue, gate: Gate) {
    exists i :: 0 <= i < |ops| && ops[i].key == key && ops[i].value.fixed == value.fixed
      && (value == ops[i].value || (key.phase == CONTROL && gate == SEALED))
  }

  /** No step overwrites an entry, and what it takes out is exactly what the plan put in. */
  ghost predicate ExactStep(ops: seq<Op>, a: World, b: World) {
    forall key :: key in a.policy ==>
      if key in b.policy then b.policy[key].fixed == a.policy[key].fixed
      else Exact(ops, key, a.policy[key], a.gate)
  }

  ghost predicate AlwaysExact(ops: seq<Op>, history: seq<World>) {
    forall i :: 0 <= i < |history| - 1 ==> ExactStep(ops, history[i], history[i + 1])
  }

  // Exactly the first k operations are in place.
  predicate Prefix(ops: seq<Op>, policy: map<PolicyKey, PolicyValue>, k: nat) {
    k <= |ops| && forall i :: 0 <= i < |ops| ==> (ops[i].key in policy <==> i < k)
  }

  predicate NoneAbove(ops: seq<Op>, policy: map<PolicyKey, PolicyValue>, rank: int) {
    forall i :: 0 <= i < |ops| && Rank(ops[i].key.phase) > rank ==> ops[i].key !in policy
  }

  lemma PrefixLatched(ops: seq<Op>, policy: map<PolicyKey, PolicyValue>, k: nat)
    requires IsPlan(ops) && Prefix(ops, policy, k)
    ensures Latched(ops, policy)
  {}

  // Removing a key of the highest phase still present keeps the latch order.
  lemma RemoveTop(ops: seq<Op>, policy: map<PolicyKey, PolicyValue>, j: nat)
    requires IsPlan(ops) && j < |ops| && Latched(ops, policy) && NoneAbove(ops, policy, Rank(ops[j].key.phase))
    ensures Latched(ops, policy - {ops[j].key}) && NoneAbove(ops, policy - {ops[j].key}, Rank(ops[j].key.phase))
  {}

  // A record up to the world w that kept the latch order throughout and took every entry out exactly.
  ghost predicate Lawful(ops: seq<Op>, history: seq<World>, w: World) {
    && IsPlan(ops) && RecordOf(history, w) && Latched(ops, w.policy)
    && AlwaysLatched(ops, history) && AlwaysExact(ops, history)
  }

  lemma LawfulGrows(ops: seq<Op>, history: seq<World>, w: World, next: World)
    requires Lawful(ops, history, w) && RecordOf(history + [next], next)
    requires Latched(ops, next.policy) && ExactStep(ops, w, next)
    ensures Lawful(ops, history + [next], next)
  {
    var now := history + [next];
    forall i | 0 <= i < |now| - 1 ensures ExactStep(ops, now[i], now[i + 1]) {
      if i < |history| - 1 { assert ExactStep(ops, history[i], history[i + 1]); }
    }
  }

  // What holds at every step, and of the policy as it stands.
  ghost predicate PolicyInv(ops: seq<Op>, k: Kernel)
    reads k
  {
    Lawful(ops, k.history, k.w)
  }

  predicate SameOutside(a: World, b: World) {
    a == b.(policy := a.policy, gate := a.gate) && (a.gate == OPENED ==> b.gate == OPENED)
  }

  // The steps since `before` touched only policy entries and, on the way down, the gate.
  ghost predicate OnlyPolicy(before: seq<World>, now: seq<World>, base: World) {
    before <= now && forall i :: |before| <= i < |now| ==> SameOutside(now[i], base)
  }

  // ----- One operation -----

  // Behind a shut gate nothing drifts.
  predicate Still(g: Gate) { g != OPENED && g != DRAINING }

  method Look(k: Kernel, ghost ops: seq<Op>, key: PolicyKey) returns (found: Found<PolicyValue>)
    requires PolicyInv(ops, k) && Still(k.w.gate)
    modifies k
    ensures PolicyInv(ops, k) && k.w == old(k.w) && OnlyPolicy(old(k.history), k.history, k.w)
    ensures found == Failed || found == (if key in k.w.policy then Present(k.w.policy[key]) else Absent)
  {
    found := k.LookupPolicy(key);
    assert k.w == old(k.w);
    LawfulGrows(ops, old(k.history), k.w, k.w);
  }

  // Take one plan key out of the highest phase still present.
  method TakeOut(k: Kernel, ghost ops: seq<Op>, ghost j: nat, key: PolicyKey) returns (r: Found<()>)
    requires PolicyInv(ops, k) && j < |ops| && key == ops[j].key && NoneAbove(ops, k.w.policy, Rank(key.phase))
    requires key in k.w.policy && Exact(ops, key, k.w.policy[key], k.w.gate)
    modifies k
    ensures PolicyInv(ops, k) && NoneAbove(ops, k.w.policy, Rank(key.phase))
    ensures k.w == old(k.w) || k.w == old(k.w).(policy := old(k.w).policy - {key})
    ensures OnlyPolicy(old(k.history), k.history, old(k.w))
    ensures r == Absent || r == Present(()) ==> key !in k.w.policy
  {
    RemoveTop(ops, k.w.policy, j);
    r := k.DeletePolicy(key);
    LawfulGrows(ops, old(k.history), old(k.w), k.w);
  }

  method Shut(k: Kernel, ghost ops: seq<Op>) returns (ok: bool)
    requires PolicyInv(ops, k)
    modifies k
    ensures PolicyInv(ops, k) && k.w == old(k.w).(gate := k.w.gate) && SameOutside(k.w, old(k.w))
    ensures OnlyPolicy(old(k.history), k.history, old(k.w))
    ensures ok ==> k.w.gate == SEALED
  {
    ok := k.Quiesce();
    LawfulGrows(ops, old(k.history), old(k.w), k.w);
  }

  method PutIn(k: Kernel, ghost ops: seq<Op>, ghost n: nat, op: Op) returns (ok: bool)
    requires PolicyInv(ops, k) && n < |ops| && op == ops[n] && Prefix(ops, k.w.policy, n)
    modifies k
    ensures PolicyInv(ops, k) && k.w == old(k.w).(policy := k.w.policy)
    ensures Prefix(ops, k.w.policy, if ok then n + 1 else n)
    ensures OnlyPolicy(old(k.history), k.history, old(k.w))
  {
    InsertNext(ops, k.w.policy, n);
    ok := k.InsertPolicy(op.key, op.value);
    LawfulGrows(ops, old(k.history), old(k.w), k.w);
  }

  // ----- Rollback -----

  // Still the value this operation put in; once the gate is quiesced, the cursor of a control policy may differ.
  predicate Ours(op: Op, value: PolicyValue, quiescedControl: bool) {
    value == op.value || (quiescedControl && value.fixed == op.value.fixed)
  }

  /** Undo one operation: leave a changed value alone, delete our own, and confirm it is gone. */
  method RollbackOp(k: Kernel, ghost ops: seq<Op>, ghost j: nat, op: Op, quiescedControl: bool) returns (ok: bool)
    requires PolicyInv(ops, k) && j < |ops| && op == ops[j] && NoneAbove(ops, k.w.policy, Rank(op.key.phase))
    requires k.w.gate == SEALED && (quiescedControl ==> op.key.phase == CONTROL)
    modifies k
    ensures PolicyInv(ops, k) && NoneAbove(ops, k.w.policy, Rank(op.key.phase))
    ensures k.w == old(k.w).(policy := k.w.policy)
    ensures k.w.policy == old(k.w).policy || k.w.policy == old(k.w).policy - {op.key}
    ensures OnlyPolicy(old(k.history), k.history, old(k.w))
    ensures ok ==> op.key !in k.w.policy
    ensures op.key in old(k.w).policy && !Ours(op, old(k.w).policy[op.key], quiescedControl) ==> !ok && k.w == old(k.w)
  {
    var found := Look(k, ops, op.key);
    if found == Absent { return true; }
    if found == Failed { return false; }
    if !Ours(op, found.value, quiescedControl) { return false; }
    assert Exact(ops, op.key, found.value, k.w.gate);
    var r := TakeOut(k, ops, j, op.key);
    if r == Absent { return true; }
    if r == Failed { return false; }
    found := Look(k, ops, op.key);
    ok := found == Absent;
  }

  /** Undo one phase in reverse order. An error does not stop the phase, only what comes after it. */
  method RollbackPhase(k: Kernel, ghost ops: seq<Op>, applied: seq<Op>, phase: Phase) returns (ok: bool)
    requires PolicyInv(ops, k) && applied <= ops && NoneAbove(ops, k.w.policy, Rank(phase))
    requires forall i :: |applied| <= i < |ops| ==> ops[i].key !in k.w.policy
    requires k.w.gate == SEALED
    modifies k
    ensures PolicyInv(ops, k) && NoneAbove(ops, k.w.policy, Rank(phase))
    ensures k.w == old(k.w).(policy := k.w.policy) && k.w.policy.Keys <= old(k.w).policy.Keys
    ensures OnlyPolicy(old(k.history), k.history, old(k.w))
    ensures ok ==> NoneAbove(ops, k.w.policy, Rank(phase) - 1)
  {
    ok := true;
    var index := |applied|;
    while index > 0
      invariant 0 <= index <= |applied|
      invariant PolicyInv(ops, k) && NoneAbove(ops, k.w.policy, Rank(phase))
      invariant k.w == old(k.w).(policy := k.w.policy) && k.w.policy.Keys <= old(k.w).policy.Keys
      invariant OnlyPolicy(old(k.history), k.history, old(k.w))
      invariant ok ==> forall i :: index <= i < |ops| && ops[i].key.phase == phase ==> ops[i].key !in k.w.policy
    {
      index := index - 1;
      if applied[index].key.phase == phase {
        var undone := RollbackOp(k, ops, index, applied[index], phase == CONTROL);
        ok := ok && undone;
      }
    }
    if ok { PhaseEmpty(ops, k.w.policy, phase); }
  }

  lemma PhaseEmpty(ops: seq<Op>, policy: map<PolicyKey, PolicyValue>, phase: Phase)
    requires NoneAbove(ops, policy, Rank(phase))
    requires forall i :: 0 <= i < |ops| && ops[i].key.phase == phase ==> ops[i].key !in policy
    ensures NoneAbove(ops, policy, Rank(phase) - 1)
  {
    forall i | 0 <= i < |ops| && Rank(ops[i].key.phase) > Rank(phase) - 1 ensures ops[i].key !in policy {
      if ops[i].key.phase != phase { assert Rank(ops[i].key.phase) > Rank(phase); }
    }
  }

  /** Rollback: quiesce, then interfaces, ports, controls, each phase only if the one before came
      out clean. Success leaves no key of the plan behind and the gate sealed. */
  method Rollback(k: Kernel, ghost ops: seq<Op>, applied: seq<Op>) returns (ok: bool)
    requires PolicyInv(ops, k) && applied <= ops
    requires forall i :: |applied| <= i < |ops| ==> ops[i].key !in k.w.policy
    modifies k
    ensures PolicyInv(ops, k)
    ensures SameOutside(k.w, old(k.w)) && k.w.policy.Keys <= old(k.w).policy.Keys
    ensures OnlyPolicy(old(k.history), k.history, old(k.w))
    ensures ok ==> k.w.gate == SEALED && forall i :: 0 <= i < |ops| ==> ops[i].key !in k.w.policy
  {
    var held: bool := *;
    if !held { return false; }
    ok := Shut(k, ops);
    if !ok { return; }
    ok := RollbackPhase(k, ops, applied, INTERFACE);
    if !ok { return; }
    ok := RollbackPhase(k, ops, applied, PORT);
    if !ok { return; }
    ok := RollbackPhase(k, ops, applied, CONTROL);
  }

  // ----- Staging -----

  lemma InsertNext(ops: seq<Op>, policy: map<PolicyKey, PolicyValue>, n: nat)
    requires IsPlan(ops) && n < |ops| && Prefix(ops, policy, n)
    ensures var next := policy[ops[n].key := ops[n].value];
      Prefix(ops, next, n + 1) && Latched(ops, next)
  {
    PrefixLatched(ops, policy[ops[n].key := ops[n].value], n + 1);
  }

  /** Insert and verify every operation in plan order, stopping at the first failure. `applied`
      are the operations that went in; whatever is in the maps is exactly that prefix. */
  method InsertAll(k: Kernel, ops: seq<Op>) returns (ok: bool, applied: seq<Op>)
    requires PolicyInv(ops, k) && Prefix(ops, k.w.policy, 0) && k.w.gate == UNUSED
    modifies k
    ensures PolicyInv(ops, k) && applied <= ops && Prefix(ops, k.w.policy, |applied|)
    ensures k.w == old(k.w).(policy := k.w.policy)
    ensures OnlyPolicy(old(k.history), k.history, old(k.w))
    ensures ok ==> applied == ops
  {
    applied := [];
    while |applied| < |ops|
      invariant applied <= ops && PolicyInv(ops, k) && Prefix(ops, k.w.policy, |applied|)
      invariant k.w == old(k.w).(policy := k.w.policy)
      invariant OnlyPolicy(old(k.history), k.history, old(k.w))
    {
      var op := ops[|applied|];
      var cancelled: bool := *;
      if cancelled { return false, applied; }
      var inserted := PutIn(k, ops, |applied|, op);
      if !inserted { return false, applied; }
      applied := ops[..|applied| + 1];
      var found := Look(k, ops, op.key);
      if found != Present(op.value) { return false, applied; }
    }
    var expired: bool := *;
    return !expired, ops;
  }

  /** Reject the whole generation before the first write if any of its keys exists. */
  method Preflight(k: Kernel, ops: seq<Op>) returns (ok: bool)
    requires PolicyInv(ops, k) && k.w.gate == UNUSED
    modifies k
    ensures PolicyInv(ops, k) && k.w == old(k.w) && OnlyPolicy(old(k.history), k.history, old(k.w))
    ensures ok ==> Prefix(ops, k.w.policy, 0)
  {
    var index := 0;
    while index < |ops|
      invariant 0 <= index <= |ops|
      invariant PolicyInv(ops, k) && k.w == old(k.w) && OnlyPolicy(old(k.history), k.history, old(k.w))
      invariant forall i :: 0 <= i < index ==> ops[i].key !in k.w.policy
    {
      var found := Look(k, ops, ops[index].key);
      if found != Absent { return false; }
      index := index + 1;
    }
    return true;
  }

  datatype StageState = NONE | ACTIVE | ROLLBACK_PENDING | ROLLED_BACK | DISARMED

  predicate Live(s: StageState) { s == ACTIVE || s == ROLLBACK_PENDING }

  /** A single-use generation transaction: it holds the lifecycle lease until it is closed. */
  class Transaction {
    const ops: seq<Op>
    var state: StageState
    var operations: seq<Op>
    var owned: bool          // the stage is bound to the collection it lives in
    var closed: bool
    var leaseHeld: bool

    /** The lease is never released under a live stage, and the maps hold what the stage says. */
    ghost predicate Valid(k: Kernel)
      reads this, k
    {
      && PolicyInv(ops, k)
      && leaseHeld == !closed && (closed ==> !Live(state))
      && operations <= ops
      && (state == NONE || state == ROLLED_BACK ==> Prefix(ops, k.w.policy, 0))
      && (Live(state) ==> forall i :: |operations| <= i < |ops| ==> ops[i].key !in k.w.policy)
      && (state == ACTIVE || state == DISARMED ==> Prefix(ops, k.w.policy, |ops|))
      && (state == ACTIVE ==> operations == ops)
    }

    constructor (k: Kernel, plan: seq<Op>)
      requires PolicyInv(plan, k) && Prefix(plan, k.w.policy, 0)
      ensures Valid(k) && ops == plan && state == NONE && !closed
    {
      ops, state, operations, owned, closed, leaseHeld := plan, NONE, [], false, false, true;
    }

    /** Stage a generation. Success leaves every entry of the plan in place; failure leaves none of
        them, or a pending rollback that still holds the lease. */
    method Stage(k: Kernel) returns (ok: bool)
      requires Valid(k)
      modifies this, k
      ensures Valid(k) && closed == old(closed)
      ensures SameOutside(k.w, old(k.w)) && OnlyPolicy(old(k.history), k.history, old(k.w))
      ensures ok ==> state == ACTIVE && k.w.gate == UNUSED
      ensures !ok ==> state == old(state) || state == ROLLBACK_PENDING
      ensures old(state) != NONE ==> !ok && state == old(state)
    {
      if closed || state != NONE { return false; }
      var inactive := k.AssertInactive();
      if !inactive { return false; }
      ok := Preflight(k, ops);
      if !ok { return; }
      var applied;
      ok, applied := InsertAll(k, ops);
      if ok {
        state, operations := ACTIVE, applied;
        return;
      }
      var undone := Rollback(k, ops, applied);
      if !undone { state, operations := ROLLBACK_PENDING, applied; }
    }

    // Bind a live stage to the collection that owns its maps.
    method BindOwner(ghost k: Kernel) returns (ok: bool)
      requires Valid(k)
      modifies this`owned
      ensures Valid(k) && (owned <==> old(owned) || ok) && (ok ==> !closed && state != NONE)
    {
      ok := *;
      ok := ok && !closed && state != NONE;
      owned := owned || ok;
    }

    // OPEN the generation's gate.
    method Activate(k: Kernel) returns (ok: bool)
      requires Valid(k)
      modifies k
      ensures Valid(k) && k.w == old(k.w).(gate := k.w.gate)
      ensures k.history == old(k.history) || (state == ACTIVE && k.history == old(k.history) + [k.w])
      ensures k.w.gate == OPENED && old(k.w).gate != OPENED ==> state == ACTIVE
      ensures ok ==> state == ACTIVE && k.w.gate == OPENED
    {
      if closed || state != ACTIVE { return false; }
      ok := k.OpenGate();
      LawfulGrows(ops, old(k.history), old(k.w), k.w);
    }

    method RollbackStage(k: Kernel) returns (ok: bool)
      requires Valid(k)
      modifies this, k
      ensures Valid(k) && closed == old(closed)
      ensures SameOutside(k.w, old(k.w)) && OnlyPolicy(old(k.history), k.history, old(k.w))
      ensures ok && old(Live(state)) ==> state == ROLLED_BACK && k.w.gate == SEALED
      ensures ok ==> !Live(state)
      ensures !ok ==> Live(state) == old(Live(state))
      ensures !old(Live(state)) ==> state == old(state)
    {
      if closed || state == NONE { return false; }
      if !Live(state) { return true; }
      state := ROLLBACK_PENDING;
      ok := Rollback(k, ops, operations);
      if ok { state, operations := ROLLED_BACK, []; }
    }

    /** Transfer the staged entries to the running dataplane and give the lease up in one step. A
        refusal leaves the stage owned by the transaction. */
    method Commit(ghost k: Kernel, programStaged: bool) returns (committed: bool, ok: bool)
      requires Valid(k)
      modifies this
      ensures Valid(k)
      ensures committed <==> !old(closed) && old(state) == ACTIVE && old(owned) && programStaged
      ensures committed ==> closed && state == DISARMED
      ensures !committed ==> state == old(state) && closed == old(closed) && !ok
    {
      if closed || state != ACTIVE || !owned || !programStaged { return false, false; }
      operations, state := [], DISARMED;
      closed, leaseHeld := true, false;
      committed := true;
      ok := *;
    }

    /** Closing is refused while a stage is live, so the lease outlives every entry it protects. */
    method Close(ghost k: Kernel) returns (ok: bool)
      requires Valid(k)
      modifies this
      ensures Valid(k) && state == old(state)
      ensures closed <==> old(closed) || !old(Live(state))
      ensures !closed ==> leaseHeld && !ok
    {
      if closed { return true; }
      if Live(state) { return false; }
      closed, leaseHeld := true, false;
      ok := *;
    }
  }
}
