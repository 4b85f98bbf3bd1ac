/** The baseline core of a generation: data-map entries and tail-call slots staged while control_map
    is zero, one control write that makes them reachable, and an exact undo. */
module CoreStage {
  import opened KernelState
  import opened Outcomes
  import P = PolicyTransaction

  datatype Entry = Entry(key: nat, value: nat)

  datatype Plan = Plan(generation: nat, core: seq<Entry>, program: nat, policy: seq<P.Op>)

  predicate WellFormed(p: Plan) {
    && p.generation != 0 && p.program != 0 && P.IsPlan(p.policy)
    && forall i, j :: 0 <= i < j < |p.core| ==> p.core[i].key != p.core[j].key
  }

  predicate CoreInPlace(entries: seq<Entry>, core: map<nat, nat>) {
    forall e :: e in entries ==> e.key in core && core[e.key] == e.value
  }

  predicate PolicyInPlace(ops: seq<P.Op>, policy: map<PolicyKey, PolicyValue>) {
    forall i :: 0 <= i < |ops| ==> ops[i].key in policy
  }

  /** A generation is whole: gate open and every entry it needs present. */
  predicate Whole(p: Plan, w: World) {
    && w.gate == OPENED && CoreInPlace(p.core, w.core) && w.bank == p.program && PolicyInPlace(p.policy, w.policy)
  }

  /** Never select a generation that is not whole; never release the collection while anything can
      still reach it. */
  predicate Safe(p: Plan, w: World) {
    && (w.control != 0 ==> w.control == p.generation && Whole(p, w))
    && (w.released ==> w.control == 0 && w.gate != OPENED && w.xdp == {} && w.tc == {})
  }

  ghost predicate AlwaysSafe(p: Plan, history: seq<World>) {
    forall i :: 0 <= i < |history| ==> Safe(p, history[i])
  }

  /** No step overwrites a core entry or a program in the bank, and what it takes out is the plan's own. */
  ghost predicate OwnStep(p: Plan, a: World, b: World) {
    && (forall key :: key in a.core ==>
          if key in b.core then b.core[key] == a.core[key] else Entry(key, a.core[key]) in p.core)
    && (a.bank != b.bank ==> a.bank == 0 || a.bank == p.program)
  }

  ghost predicate AlwaysOwn(p: Plan, history: seq<World>) {
    forall i :: 0 <= i < |history| - 1 ==> OwnStep(p, history[i], history[i + 1])
  }

  /** A record up to the world w that was safe throughout, lawful for the policy, and took out only its own. */
  ghost predicate Sound(p: Plan, history: seq<World>, w: World) {
    P.Lawful(p.policy, history, w) && Safe(p, w) && AlwaysSafe(p, history) && AlwaysOwn(p, history)
  }

  // One more operation that leaves the policy entries as they are, up to cursors.
  lemma SoundGrows(p: Plan, history: seq<World>, w: World, next: World)
    requires Sound(p, history, w) && RecordOf(history + [next], next)
    requires w.policy == next.policy || SameButCursors(w, next)
    requires Safe(p, next) && OwnStep(p, w, next)
    ensures Sound(p, history + [next], next)
  {
    P.LawfulGrows(p.policy, history, w, next);
    OwnGrows(p, history, w, next);
  }

  lemma OwnGrows(p: Plan, history: seq<World>, w: World, next: World)
    requires RecordOf(history, w) && AlwaysOwn(p, history) && OwnStep(p, w, next)
    ensures AlwaysOwn(p, history + [next])
  {
    var now := history + [next];
    forall i | 0 <= i < |now| - 1 ensures OwnStep(p, now[i], now[i + 1]) {
      if i < |history| - 1 { assert OwnStep(p, history[i], history[i + 1]); }
    }
  }

  // Operations of the policy transaction alone, with nothing selected.
  lemma SoundAround(p: Plan, before: seq<World>, w: World, now: seq<World>, next: World)
    requires Sound(p, before, w) && P.Lawful(p.policy, now, next) && P.OnlyPolicy(before, now, w)
    requires w.control == 0
    ensures Sound(p, now, next)
  {
    forall i | 0 <= i < |now| ensures Safe(p, now[i]) {
      if i < |before| { assert Safe(p, before[i]); } else { assert P.SameOutside(now[i], w); }
    }
    forall i | 0 <= i < |now| - 1 ensures OwnStep(p, now[i], now[i + 1]) {
      if i < |before| - 1 { assert OwnStep(p, before[i], before[i + 1]); }
      else { assert now[i].core == w.core && now[i].bank == w.bank && P.SameOutside(now[i + 1], w); }
    }
  }

  // Only these entries went away, and only with the values given.
  predicate OnlyThese(entries: seq<Entry>, before: map<nat, nat>, now: map<nat, nat>) {
    && now.Keys <= before.Keys
    && (forall key :: key in before ==> (key in now && now[key] == before[key]) || Entry(key, before[key]) in entries)
  }

  // No generation is selected in the steps since `before`.
  ghost predicate Unselected(before: seq<World>, now: seq<World>) {
    forall i :: |before| <= i < |now| ==> now[i].control == 0
  }

  // Everything but the core entries and the cursors.
  predicate SameButCore(a: World, b: World) { SameButCursors(a.(core := b.core), b) }

  class Stage {
    const plan: Plan
    var committed: bool
    var changes: seq<Entry>
    var closed: bool

    constructor (p: Plan)
      ensures plan == p && !committed && changes == [] && !closed
    {
      plan, committed, changes, closed := p, false, [], false;
    }

    ghost predicate Valid(k: Kernel)
      reads this, k
    {
      && Sound(plan, k.history, k.w)
      && (forall e :: e in changes ==> e in plan.core)
      && (!committed ==> k.w.control == 0)
      && (closed ==> !committed && changes == [])
    }

    method Read(k: Kernel, key: nat) returns (found: Found<nat>)
      requires Valid(k)
      modifies k
      ensures Valid(k) && SameButCursors(old(k.w), k.w) && k.history == old(k.history) + [k.w]
      ensures found == Failed || found == (if key in k.w.core then Present(k.w.core[key]) else Absent)
    {
      found := k.LookupCore(key);
      SoundGrows(plan, old(k.history), old(k.w), k.w);
    }

    method ReadControl(k: Kernel) returns (found: Found<nat>)
      requires Valid(k)
      modifies k
      ensures Valid(k) && SameButCursors(old(k.w), k.w) && k.history == old(k.history) + [k.w]
      ensures found == Failed || found == Present(k.w.control)
    {
      found := k.LookupControl();
      SoundGrows(plan, old(k.history), old(k.w), k.w);
    }

    // Write the selector: zero, or the generation once it is whole.
    method WriteControl(k: Kernel, value: nat) returns (ok: bool)
      requires Valid(k) && !k.w.released
      requires value == 0 || (value == plan.generation && Whole(plan, k.w) && !closed)
      modifies this`committed, k
      ensures k.history == old(k.history) + [k.w]
      ensures Valid(k) && k.w == old(k.w).(control := k.w.control)
      ensures k.w.control == old(k.w).control || k.w.control == value
      ensures ok ==> k.w.control == value
      ensures committed <==> old(committed) || (ok && value != 0)
    {
      ok := k.UpdateControl(value);
      SoundGrows(plan, old(k.history), old(k.w), k.w);
      committed := committed || (ok && value != 0);
    }

    method Insert(k: Kernel, e: Entry) returns (ok: bool)
      requires Valid(k) && !committed && !k.w.released && e.key !in k.w.core
      modifies k
      ensures Valid(k) && k.history == old(k.history) + [k.w]
      ensures k.w == old(k.w).(core := if ok then old(k.w).core[e.key := e.value] else old(k.w).core)
    {
      ok := k.InsertCore(e.key, e.value);
      SoundGrows(plan, old(k.history), old(k.w), k.w);
    }

    // What staging keeps while `changes` of the plan are in place.
    ghost predicate Staging(k: Kernel)
      reads this, k
    {
      && Valid(k) && !committed && !closed && !k.w.released && changes <= plan.core
      && (WellFormed(plan) ==> CoreInPlace(changes, k.w.core))
    }

    // Insert and verify the next entry.
    method StageNext(k: Kernel) returns (ok: bool)
      requires Staging(k) && changes < plan.core
      modifies this`changes, k
      ensures old(k.history) <= k.history && Unselected(old(k.history), k.history)
      ensures Staging(k) && SameButCore(old(k.w), k.w)
      ensures ok ==> |changes| == |old(changes)| + 1
    {
      var e := plan.core[|changes|];
      var existing := Read(k, e.key);
      if existing != Absent { return false; }
      InsertInPlace(plan, changes, k.w.core);
      var inserted := Insert(k, e);
      if !inserted { return false; }
      changes := plan.core[..|changes| + 1];
      var found := Read(k, e.key);
      ok := found == Present(e.value);
    }

    /** Insert and verify every entry in order. Nothing is reachable yet. */
    method StageEntries(k: Kernel) returns (ok: bool)
      requires Valid(k) && !committed && !closed && changes == [] && !k.w.released
      modifies this, k
      ensures old(k.history) <= k.history && Unselected(old(k.history), k.history)
      ensures Valid(k) && !committed && !closed && SameButCore(old(k.w), k.w)
      ensures ok ==> changes == plan.core && (WellFormed(plan) ==> CoreInPlace(plan.core, k.w.core))
    {
      while |changes| < |plan.core|
        invariant old(k.history) <= k.history && Unselected(old(k.history), k.history)
        invariant Staging(k) && SameButCore(old(k.w), k.w)
        decreases |plan.core| - |changes|
      {
        ok := StageNext(k);
        if !ok { return; }
      }
      ok := true;
    }

    // Stage everything, or undo what went in as far as possible.
    method StageOrUndo(k: Kernel) returns (ok: bool)
      requires Valid(k) && !committed && !closed && changes == [] && !k.w.released
      modifies this, k
      ensures old(k.history) <= k.history
      ensures Valid(k) && !committed && SameButCore(old(k.w), k.w)
      ensures ok ==> !closed && (WellFormed(plan) ==> CoreInPlace(plan.core, k.w.core))
    {
      ok := StageEntries(k);
      if !ok { var undone := Close(k); }
    }

    /** The reachability point: one write, allowed only when the generation is whole. */
    method CommitControl(k: Kernel) returns (ok: bool)
      requires Valid(k) && !k.w.released && plan.generation != 0 && Whole(plan, k.w)
      modifies this, k
      ensures old(k.history) <= k.history
      ensures Valid(k) && closed == old(closed)
      ensures k.w.control == 0 || k.w.control == plan.generation
      ensures SameButCursors(old(k.w).(control := k.w.control), k.w)
      ensures ok ==> committed && k.w.control == plan.generation
    {
      if closed || committed { return false; }
      var updated := WriteControl(k, plan.generation);
      if !updated { return false; }
      var found := ReadControl(k);
      ok := found == Present(plan.generation);
    }

    /** Zero the selector and confirm it. A failure keeps `committed`, so nothing below is dismantled. */
    method Deactivate(k: Kernel) returns (ok: bool)
      requires Valid(k) && !k.w.released
      modifies this, k
      ensures old(k.history) <= k.history
      ensures Valid(k) && closed == old(closed) && changes == old(changes)
      ensures SameButCursors(old(k.w).(control := k.w.control), k.w)
      ensures k.w.control == old(k.w).control || k.w.control == 0
      ensures ok ==> !committed
      ensures old(!committed) ==> ok && !committed
    {
      if !committed { return true; }
      var observed := ReadControl(k);
      if observed == Failed { return false; }
      if observed == Present(0) {
        committed := false;
        return true;
      }
      if observed != Present(plan.generation) { return false; }
      var updated := WriteControl(k, 0);
      if !updated { return false; }
      observed := ReadControl(k);
      if observed != Present(0) { return false; }
      committed := false;
      ok := true;
    }

    method Delete(k: Kernel, e: Entry) returns (r: Found<()>)
      requires Valid(k) && !committed && !k.w.released && e in plan.core
      requires e.key in k.w.core && k.w.core[e.key] == e.value
      modifies k
      ensures Valid(k) && k.history == old(k.history) + [k.w]
      ensures k.w == old(k.w) || k.w == old(k.w).(core := old(k.w).core - {e.key})
      ensures r != Failed ==> e.key !in k.w.core
    {
      r := k.DeleteCore(e.key);
      SoundGrows(plan, old(k.history), old(k.w), k.w);
    }

    // Remove one entry if it still holds our value, and confirm it is gone; leave any other value alone.
    method Undo(k: Kernel, e: Entry) returns (gone: bool)
      requires Valid(k) && !committed && !k.w.released && e in plan.core
      modifies k
      ensures old(k.history) <= k.history
      ensures Valid(k) && SameButCore(old(k.w), k.w) && OnlyThese([e], old(k.w).core, k.w.core)
      ensures gone ==> e.key !in k.w.core
    {
      var found := Read(k, e.key);
      if found == Failed { return false; }
      if found == Absent { return true; }
      if found.value != e.value { return false; }
      var r := Delete(k, e);
      if r == Failed { return false; }
      found := Read(k, e.key);
      gone := found == Absent;
    }

    /** Close: deactivate first, then undo in reverse, keeping whatever could not be confirmed gone for
        the next attempt. */
    method Close(k: Kernel) returns (ok: bool)
      requires Valid(k) && !k.w.released
      modifies this, k
      ensures old(k.history) <= k.history
      ensures Valid(k)
      ensures committed ==> !ok && SameButCursors(old(k.w).(control := k.w.control), k.w)
      ensures !committed ==> k.w.control == 0 && SameButCore(old(k.w).(control := 0), k.w)
      ensures old(!committed) ==> !committed
      ensures OnlyThese(old(changes), old(k.w).core, k.w.core)
      ensures ok ==> closed && !committed && forall e :: e in old(changes) ==> e.key !in k.w.core
    {
      if closed { return true; }
      ok := Deactivate(k);
      if !ok { return; }
      changes := UndoAll(k);
      closed := changes == [];
      ok := closed;
    }

    // Undo in reverse order and return what could not be confirmed gone.
    method UndoAll(k: Kernel) returns (remaining: seq<Entry>)
      requires Valid(k) && !committed && !k.w.released
      modifies k
      ensures old(k.history) <= k.history && Valid(k) && SameButCore(old(k.w), k.w)
      ensures OnlyThese(changes, old(k.w).core, k.w.core) && forall e :: e in remaining ==> e in changes
      ensures forall e :: e in changes ==> e in remaining || e.key !in k.w.core
    {
      remaining := [];
      var index := |changes|;
      while index > 0
        invariant 0 <= index <= |changes| && old(k.history) <= k.history
        invariant Valid(k) && SameButCore(old(k.w), k.w) && OnlyThese(changes, old(k.w).core, k.w.core)
        invariant forall e :: e in remaining ==> e in changes
        invariant forall i :: index <= i < |changes| ==> changes[i] in remaining || changes[i].key !in k.w.core
      {
        index := index - 1;
        var gone := Undo(k, changes[index]);
        if !gone { remaining := [changes[index]] + remaining; }
      }
    }
  }

  lemma InsertInPlace(plan: Plan, changes: seq<Entry>, core: map<nat, nat>)
    requires changes < plan.core && (WellFormed(plan) ==> CoreInPlace(changes, core))
    ensures var e := plan.core[|changes|];
      WellFormed(plan) ==> CoreInPlace(plan.core[..|changes| + 1], core[e.key := e.value])
  {
    assert plan.core[..|changes| + 1] == changes + [plan.core[|changes|]];
    var e := plan.core[|changes|];
    if WellFormed(plan) {
      var now := core[e.key := e.value];
      forall c | c in changes + [e] ensures c.key in now && now[c.key] == c.value {
        if c in changes {
          var i :| 0 <= i < |changes| && changes[i] == c;
          assert plan.core[i] == c && plan.core[i].key != e.key;
        }
      }
    }
  }
}
