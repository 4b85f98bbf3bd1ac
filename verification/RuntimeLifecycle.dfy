/** Building, committing and tearing down one generation. Every map, attachment and close operation
    may fail at any point; a failed attempt keeps its owners and may be repeated. The property
    kept throughout: control_map never selects a generation that is not whole, and the collection
    is released only after nothing can reach it. */
module RuntimeLifecycle {
  import opened KernelState
  import opened Outcomes
  import C = CoreStage
  import P = PolicyTransaction

  /** Owners that hold no kernel state of their own; each close may fail and be repeated. */
  class Handles {
    var slowPath: bool
    var sessions: bool
    var events: bool
    var checksum: bool

    constructor ()
      ensures slowPath && sessions && events && checksum
    {
      slowPath, sessions, events, checksum := true, true, true, true;
    }

    method CloseSlowPath() returns (ok: bool)
      modifies this
      ensures ok <==> !slowPath
      ensures unchanged(`sessions, `events, `checksum)
    {
      ok := *;
      slowPath := slowPath && !ok;
      ok := !slowPath;
    }

    // Sessions and events first; the checksum stage only after both.
    method CloseRest() returns (ok: bool)
      modifies this
      ensures ok <==> !sessions && !events && !checksum
      ensures old(checksum) && !checksum ==> !sessions && !events
      ensures unchanged(`slowPath)
    {
      var s: bool, e: bool, c: bool := *, *, *;
      sessions, events := sessions && !s, events && !e;
      if !sessions && !events { checksum := checksum && !c; }
      ok := !sessions && !events && !checksum;
    }
  }

  class Runtime {
    const plan: C.Plan
    const kernel: Kernel
    const transaction: P.Transaction
    const handles: Handles

    // Owners; a cleared flag means the owner was closed or never created.
    var core: C.Stage?
    var program: bool
    var xdp: bool
    var tc: bool
    var collection: bool
    var claim: bool
    var committed: bool

    ghost predicate Apart()
      reads this
    {
      && transaction as object != kernel && transaction as object != this && kernel as object != this
      && (core != null ==> core as object != kernel && core as object != transaction && core as object != this)
    }

    /** What holds between any two operations. */
    ghost predicate Valid()
      reads this, kernel, transaction, core
    {
      && Apart() && C.WellFormed(plan) && transaction.ops == plan.policy && transaction.Valid(kernel)
      && C.Sound(plan, kernel.history, kernel.w)
      && (core == null ==> kernel.w.control == 0)
      && (core != null ==> core.plan == plan && core.Valid(kernel))
      && (kernel.w.released ==> core == null && !program) && (!collection ==> kernel.w.released)
      && (kernel.w.gate == OPENED ==> P.Live(transaction.state) || transaction.state == P.DISARMED)
      && (committed <==> transaction.state == P.DISARMED) && (committed ==> !program)
      && (kernel.w.xdp != {} ==> xdp) && (kernel.w.tc != {} ==> tc)
    }

    constructor (p: C.Plan)
      requires C.WellFormed(p)
      ensures Valid() && plan == p && core == null && !committed && !kernel.w.released && collection
      ensures fresh(kernel) && fresh(transaction) && fresh(handles)
    {
      var k := new Kernel();
      kernel := k;
      transaction := new P.Transaction(k, p.policy);
      plan := p;
      core, program, xdp, tc, committed := null, false, false, false, false;
      handles := new Handles();
      collection, claim := true, true;
    }

    // Stage the baseline; a failed attempt undoes what it can and drops the stage.
    method StageCore() returns (ok: bool)
      requires Valid() && core == null && !kernel.w.released
      modifies this, kernel
      ensures old(kernel.history) <= kernel.history
      ensures Valid() && C.SameButCore(old(kernel.w), kernel.w)
      ensures core == null || fresh(core)
      ensures ok ==> core != null && !core.committed && !core.closed && C.CoreInPlace(plan.core, kernel.w.core)
      ensures !ok ==> core == null
      ensures unchanged(this`program, this`xdp, this`tc, this`committed)
    {
      var stage := new C.Stage(plan);
      ok := stage.StageOrUndo(kernel);
      if ok { core := stage; }
    }

    method ReadBank() returns (found: Found<nat>)
      requires Valid()
      modifies kernel
      ensures old(kernel.history) <= kernel.history
      ensures Valid() && SameButCursors(old(kernel.w), kernel.w)
      ensures found == Failed || found == (if kernel.w.bank == 0 then Absent else Present(kernel.w.bank))
    {
      found := kernel.LookupBank();
      C.SoundGrows(plan, old(kernel.history), old(kernel.w), kernel.w);
    }

    predicate OursOrEmpty(bank: nat) { bank == 0 || bank == plan.program }

    method SetBank(value: nat) returns (ok: bool)
      requires Valid() && !kernel.w.released && kernel.w.control == 0 && OursOrEmpty(kernel.w.bank)
      modifies kernel
      ensures old(kernel.history) <= kernel.history
      ensures Valid() && kernel.w == old(kernel.w).(bank := kernel.w.bank)
      ensures ok ==> kernel.w.bank == value
    {
      ok := kernel.WriteBank(value);
      C.SoundGrows(plan, old(kernel.history), old(kernel.w), kernel.w);
    }

    // Put our program into the generation's bank, or borrow an identical one.
    method StageProgram() returns (ok: bool)
      requires Valid() && !committed && !kernel.w.released && kernel.w.control == 0
      modifies this`program, kernel
      ensures old(kernel.history) <= kernel.history
      ensures Valid() && SameButCursors(old(kernel.w).(bank := kernel.w.bank), kernel.w)
      ensures ok ==> kernel.w.bank == plan.program
    {
      var found := ReadBank();
      if found == Failed { return false; }
      if found.Present? { return found.value == plan.program; }
      ok := SetBank(plan.program);
      if !ok { return; }
      program := true;
      found := ReadBank();
      ok := found == Present(plan.program);
    }

    method StageXdp(links: set<nat>) returns (ok: bool)
      requires Valid() && !kernel.w.released
      modifies this`xdp, kernel
      ensures old(kernel.history) <= kernel.history
      ensures Valid() && kernel.w == old(kernel.w).(xdp := kernel.w.xdp)
    {
      ok := kernel.AttachXdp(links);
      C.SoundGrows(plan, old(kernel.history), old(kernel.w), kernel.w);
      xdp := xdp || ok || kernel.w.xdp != {};
    }

    /** The commit callback, run with everything attached: policy entries, OPEN, the control write,
        and the release of the lease, in this order. */
    method CommitAttached() returns (ok: bool)
      requires Valid() && core != null && !core.committed && !core.closed && !committed
      requires C.CoreInPlace(plan.core, kernel.w.core) && kernel.w.bank == plan.program
      modifies this`committed, this`program, kernel, transaction, core
      ensures old(kernel.history) <= kernel.history
      ensures Valid() && kernel.w.xdp == old(kernel.w).xdp && kernel.w.tc == old(kernel.w).tc
      ensures ok ==> committed && kernel.w.control == plan.generation
    {
      ok := StagePolicy();
      if !ok { return; }
      ok := Select();
      if !ok { return; }
      committed, ok := transaction.Commit(kernel, true);
      program := program && !committed;
    }

    // OPEN the gate of a staged generation, then select it.
    method Select() returns (ok: bool)
      requires Valid() && core != null && !core.committed && !committed && transaction.state == P.ACTIVE
      requires C.CoreInPlace(plan.core, kernel.w.core) && kernel.w.bank == plan.program && !kernel.w.released
      modifies kernel, core
      ensures old(kernel.history) <= kernel.history
      ensures Valid() && kernel.w.xdp == old(kernel.w).xdp && kernel.w.tc == old(kernel.w).tc
      ensures ok ==> kernel.w.control == plan.generation
    {
      var expired: bool := *;
      if expired { return false; }
      ok := OpenGate();
      if !ok { return; }
      expired := *;
      if expired { return false; }
      ok := core.CommitControl(kernel);
    }

    method OpenGate() returns (ok: bool)
      requires Valid() && kernel.w.control == 0 && !kernel.w.released
      modifies kernel
      ensures old(kernel.history) <= kernel.history
      ensures Valid() && kernel.w == old(kernel.w).(gate := kernel.w.gate)
      ensures ok ==> transaction.state == P.ACTIVE && kernel.w.gate == OPENED
    {
      ok := transaction.Activate(kernel);
      if kernel.history != old(kernel.history) {
        C.SoundGrows(plan, old(kernel.history), old(kernel.w), kernel.w);
      }
    }

    // Stage the policy entries and bind them to the collection.
    method StagePolicy() returns (ok: bool)
      requires Valid() && core != null && !core.committed && !committed
      modifies kernel, transaction
      ensures old(kernel.history) <= kernel.history
      ensures Valid() && P.SameOutside(kernel.w, old(kernel.w))
      ensures ok ==> transaction.state == P.ACTIVE
    {
      ok := transaction.Stage(kernel);
      C.SoundAround(plan, old(kernel.history), old(kernel.w), kernel.history, kernel.w);
      var bound := transaction.BindOwner(kernel);
      ok := ok && bound;
    }

    /** Attach TC with the commit callback inside the attachment transaction; an error detaches again. */
    method StageTc(links: set<nat>) returns (ok: bool)
      requires Valid() && core != null && !core.committed && !core.closed && !committed
      requires C.CoreInPlace(plan.core, kernel.w.core) && kernel.w.bank == plan.program
      modifies this`committed, this`tc, this`program, kernel, transaction, core
      ensures old(kernel.history) <= kernel.history
      ensures Valid()
      ensures ok ==> committed && kernel.w.control == plan.generation
    {
      ok := AttachTc(links);
      if ok { ok := CommitAttached(); }
      if !ok { DetachTc(); }
    }

    method AttachTc(links: set<nat>) returns (ok: bool)
      requires Valid() && !kernel.w.released
      modifies this`tc, kernel
      ensures old(kernel.history) <= kernel.history
      ensures Valid() && kernel.w == old(kernel.w).(tc := kernel.w.tc)
    {
      ok := kernel.AttachTc(links);
      C.SoundGrows(plan, old(kernel.history), old(kernel.w), kernel.w);
      tc := true;
    }

    method DetachXdp()
      requires Valid()
      modifies this`xdp, kernel
      ensures old(kernel.history) <= kernel.history
      ensures Valid() && kernel.w == old(kernel.w).(xdp := kernel.w.xdp)
      ensures !xdp ==> kernel.w.xdp == {}
    {
      var detached := kernel.DetachXdp();
      C.SoundGrows(plan, old(kernel.history), old(kernel.w), kernel.w);
      xdp := !detached;
    }

    method DetachTc()
      requires Valid()
      modifies this`tc, kernel
      ensures old(kernel.history) <= kernel.history
      ensures Valid() && kernel.w == old(kernel.w).(tc := kernel.w.tc)
      ensures !tc ==> kernel.w.tc == {}
    {
      var detached := kernel.DetachTc();
      C.SoundGrows(plan, old(kernel.history), old(kernel.w), kernel.w);
      tc := !detached;
    }

    /** Make the generation reachable: baseline, bank, XDP, then TC with the commit inside. */
    method Activate(xdpLinks: set<nat>, tcLinks: set<nat>) returns (ok: bool)
      requires Valid() && !committed && core == null && !kernel.w.released
      modifies this, kernel, transaction
      ensures old(kernel.history) <= kernel.history
      ensures Valid() && (core == null || fresh(core))
      ensures ok ==> committed && core != null && kernel.w.control == plan.generation && C.Whole(plan, kernel.w)
    {
      ok := StageCore();
      if !ok { return; }
      var expired: bool := *;
      if expired { return false; }
      ok := StageProgram();
      if !ok { return; }
      expired := *;
      if expired { return false; }
      ok := StageXdp(xdpLinks);
      if !ok { return; }
      expired := *;
      if expired { return false; }
      ok := StageTc(tcLinks);
    }

    // The bank is emptied only if it still holds our program.
    method EmptyBank() returns (ok: bool)
      requires Valid() && !kernel.w.released && kernel.w.control == 0
      modifies kernel
      ensures old(kernel.history) <= kernel.history
      ensures Valid() && SameButCursors(old(kernel.w).(bank := kernel.w.bank), kernel.w)
      ensures ok ==> kernel.w.bank == 0
      ensures !OursOrEmpty(old(kernel.w).bank) ==> !ok && kernel.w.bank == old(kernel.w).bank
    {
      var found := ReadBank();
      if found == Failed { return false; }
      if found == Absent { return true; }
      if found.value != plan.program { return false; }
      ok := SetBank(0);
      if !ok { return; }
      found := ReadBank();
      ok := found == Absent;
    }

    method RollbackProgram() returns (ok: bool)
      requires Valid() && kernel.w.control == 0
      modifies this`program, kernel
      ensures old(kernel.history) <= kernel.history
      ensures Valid() && SameButCursors(old(kernel.w).(bank := kernel.w.bank), kernel.w)
      ensures ok ==> !program
    {
      if !program { return true; }
      ok := EmptyBank();
      if ok { program := false; }
    }

    // Detach whatever is attached.
    method Detach() returns (ok: bool)
      requires Valid()
      modifies this`xdp, this`tc, kernel
      ensures old(kernel.history) <= kernel.history
      ensures Valid() && kernel.w == old(kernel.w).(xdp := kernel.w.xdp, tc := kernel.w.tc)
      ensures ok ==> kernel.w.xdp == {} && kernel.w.tc == {} && !xdp && !tc
    {
      if xdp { DetachXdp(); }
      if tc { DetachTc(); }
      ok := !xdp && !tc;
    }

    // Deactivate: nothing is selected any more, or the stage says so.
    method DeactivateCore() returns (ok: bool)
      requires Valid()
      modifies kernel, core
      ensures old(kernel.history) <= kernel.history
      ensures Valid() && SameButCursors(old(kernel.w).(control := kernel.w.control), kernel.w)
      ensures ok ==> kernel.w.control == 0 && (core != null ==> !core.committed)
    {
      if core == null { return true; }
      ok := core.Deactivate(kernel);
    }

    method CloseCore() returns (ok: bool)
      requires Valid() && kernel.w.control == 0 && (core != null ==> !core.committed)
      modifies this`core, kernel, core
      ensures old(kernel.history) <= kernel.history
      ensures Valid() && C.SameButCore(old(kernel.w), kernel.w)
      ensures core == null || core == old(core)
      ensures ok ==> core == null
    {
      if core == null { return true; }
      ok := core.Close(kernel);
      if ok { core := null; }
    }

    /** Release the collection: only with nothing selected, the gate shut and nothing attached. */
    method ReleaseCollection() returns (ok: bool)
      requires Valid() && core == null && !program && kernel.w.gate != OPENED && kernel.w.xdp == {} && kernel.w.tc == {}
      modifies this`collection, kernel
      ensures old(kernel.history) <= kernel.history
      ensures Valid() && kernel.w.(released := true) == old(kernel.w).(released := true)
      ensures ok ==> !collection
      ensures old(collection) ==> kernel.w.released
    {
      if !collection { return true; }
      ok := kernel.CloseCollection();
      C.SoundGrows(plan, old(kernel.history), old(kernel.w), kernel.w);
      if ok { collection := false; }
    }

    /** Cleanup of a build that never committed; may be repeated until it reports completion. */
    method CleanupUncommitted() returns (complete: bool)
      requires Valid() && !committed
      modifies this, kernel, transaction, core, handles
      ensures old(kernel.history) <= kernel.history
      ensures Valid() && !committed
      ensures core == null || core == old(core)
      ensures complete ==> core == null && !collection && kernel.w.control == 0 && kernel.w.gate != OPENED
    {
      complete := false;
      var fenced := handles.CloseSlowPath();
      if !fenced { return; }
      var inactive := DeactivateCore();
      if !inactive { return; }
      var undone := RollbackPolicy();
      if !undone { return; }
      complete := CleanupDetached();
    }

    // Roll a live policy stage back, with nothing selected any more.
    method RollbackPolicy() returns (ok: bool)
      requires Valid() && kernel.w.control == 0 && !committed && (core != null ==> !core.committed)
      modifies kernel, transaction
      ensures old(kernel.history) <= kernel.history
      ensures Valid() && P.SameOutside(kernel.w, old(kernel.w))
      ensures ok ==> kernel.w.gate != OPENED
    {
      if !P.Live(transaction.state) { return true; }
      ok := transaction.RollbackStage(kernel);
      C.SoundAround(plan, old(kernel.history), old(kernel.w), kernel.history, kernel.w);
    }

    // The rest, once the control selector is zero and the policy is rolled back.
    method CleanupDetached() returns (complete: bool)
      requires Valid() && !committed && kernel.w.control == 0 && kernel.w.gate != OPENED
      requires (core != null ==> !core.committed)
      modifies this, kernel, transaction, core, handles
      ensures old(kernel.history) <= kernel.history
      ensures Valid() && !committed
      ensures core == null || core == old(core)
      ensures complete ==> core == null && !collection && kernel.w.control == 0 && kernel.w.gate != OPENED
    {
      complete := TearDown();
      if !complete || !claim { return; }
      complete := transaction.Close(kernel);
      if complete { claim := false; }
    }

    // Attachments, bank, baseline, handles, and last the collection itself.
    method TearDown() returns (ok: bool)
      requires Valid() && kernel.w.control == 0 && kernel.w.gate != OPENED && (core != null ==> !core.committed)
      modifies this`xdp, this`tc, this`program, this`core, this`collection, kernel, core, handles
      ensures old(kernel.history) <= kernel.history
      ensures Valid() && kernel.w.control == 0 && kernel.w.gate != OPENED
      ensures core == null || core == old(core)
      ensures ok ==> core == null && !collection
    {
      ok := Dismantle();
      if !ok { return; }
      ok := handles.CloseRest();
      if !ok { return; }
      ok := ReleaseCollection();
    }

    method Dismantle() returns (ok: bool)
      requires Valid() && kernel.w.control == 0 && kernel.w.gate != OPENED && (core != null ==> !core.committed)
      modifies this`xdp, this`tc, this`program, this`core, kernel, core
      ensures old(kernel.history) <= kernel.history
      ensures Valid() && kernel.w.control == 0 && kernel.w.gate != OPENED
      ensures core == null || core == old(core)
      ensures ok ==> core == null && !program && kernel.w.xdp == {} && kernel.w.tc == {}
    {
      ok := Detach();
      if !ok { return; }
      ok := RollbackProgram();
      if !ok { return; }
      ok := CloseCore();
    }

    // Quiesce the gate of a generation nothing selects any more.
    method Quiesce() returns (ok: bool)
      requires Valid() && kernel.w.control == 0
      modifies kernel
      ensures old(kernel.history) <= kernel.history
      ensures Valid() && kernel.w == old(kernel.w).(gate := kernel.w.gate)
      ensures ok ==> kernel.w.gate == SEALED
    {
      ok := kernel.Quiesce();
      C.SoundGrows(plan, old(kernel.history), old(kernel.w), kernel.w);
    }

    /** Close a committed runtime; may be repeated. The order is the whole point: slow path, selector,
        gate, attachments, baseline, handles, collection. The bank is not emptied: a committed runtime does
        not own its program stage any more. */
    method Close() returns (complete: bool)
      requires Valid() && committed
      modifies this, kernel, core, handles
      ensures old(kernel.history) <= kernel.history
      ensures Valid() && committed
      ensures core == null || core == old(core)
      ensures complete ==> core == null && !collection && kernel.w.control == 0 && kernel.w.gate != OPENED
    {
      complete := false;
      var fenced := handles.CloseSlowPath();
      if !fenced { return; }
      var ok := DeactivateCore();
      if !ok { return; }
      ok := Quiesce();
      if !ok { return; }
      complete := TearDown();
    }
  }

  /** At every step of a record: a selected generation is whole, its latches are in order, and the
      collection is not released while selector, gate or attachments are live; nothing is overwritten, and
      what is taken out of a map is what the plan put in, a drifted cursor only behind a sealed gate. */
  ghost predicate EveryStep(p: C.Plan, history: seq<World>) {
    && (forall i :: 0 <= i < |history| ==>
          var w := history[i];
          && (w.control != 0 ==> w.control == p.generation && C.Whole(p, w))
          && (w.control != 0 || w.gate == OPENED || w.xdp != {} || w.tc != {} ==> !w.released)
          && P.Latched(p.policy, w.policy))
    && (forall i :: 0 <= i < |history| - 1 ==>
          P.ExactStep(p.policy, history[i], history[i + 1]) && C.OwnStep(p, history[i], history[i + 1]))
  }

  lemma ValidSteps(r: Runtime)
    requires r.Valid()
    ensures RecordOf(r.kernel.history, r.kernel.w) && EveryStep(r.plan, r.kernel.history)
  {
    var history := r.kernel.history;
    forall i | 0 <= i < |history| ensures C.Safe(r.plan, history[i]) && P.Latched(r.plan.policy, history[i].policy) {}
  }

  /** One generation from its plan to its end: activate, then clean up or close again and again until an
      attempt reports completion or nobody tries any more. The record holds every operation of that run,
      one at a time from the empty world on, and each of them was safe. */
  method Lifetime(generation: nat, entries: seq<C.Entry>, program: nat, controls: seq<P.Entry>, ports: seq<P.Entry>,
                  interfaces: seq<P.Entry>, xdpLinks: set<nat>, tcLinks: set<nat>, attempts: nat)
    returns (r: Runtime?, complete: bool)
    requires generation != 0 && program != 0
    requires forall i, j :: 0 <= i < j < |entries| ==> entries[i].key != entries[j].key
    ensures r == null <==> !(P.NoDuplicates(controls) && P.NoDuplicates(ports) && P.NoDuplicates(interfaces))
    ensures r != null ==>
              && r.plan.generation == generation && r.plan.core == entries && r.plan.program == program
              && r.plan.policy == P.OpsOf(CONTROL, controls) + P.OpsOf(PORT, ports) + P.OpsOf(INTERFACE, interfaces)
              && RecordOf(r.kernel.history, r.kernel.w) && EveryStep(r.plan, r.kernel.history)
    ensures r != null && complete ==>
              && r.core == null && r.kernel.w.released && r.kernel.w.control == 0 && r.kernel.w.gate != OPENED
              && r.kernel.w.xdp == {} && r.kernel.w.tc == {}
  {
    r, complete := null, false;
    var ok, ops := P.BuildPlan(controls, ports, interfaces);
    if !ok { return; }
    var runtime := new Runtime(C.Plan(generation, entries, program, ops));
    complete := LiveOn(runtime, xdpLinks, tcLinks, attempts);
    ValidSteps(runtime);
    r := runtime;
  }

  method LiveOn(r: Runtime, xdpLinks: set<nat>, tcLinks: set<nat>, attempts: nat) returns (complete: bool)
    requires r.Valid() && !r.committed && r.core == null && !r.kernel.w.released && r.collection
    modifies r, r.kernel, r.transaction, r.handles
    ensures old(r.kernel.history) <= r.kernel.history && r.Valid()
    ensures complete ==> r.core == null && !r.collection
  {
    var ok := r.Activate(xdpLinks, tcLinks);
    complete := false;
    var attempt := 0;
    while attempt < attempts && !complete
      invariant old(r.kernel.history) <= r.kernel.history && r.Valid()
      invariant r.core != null ==> fresh(r.core)
      invariant complete ==> r.core == null && !r.collection
    {
      if r.committed { complete := r.Close(); } else { complete := r.CleanupUncommitted(); }
      attempt := attempt + 1;
    }
  }
}
