/** The crash-safe owner journal of the classic TC filters. Intent is written ahead: a filter is
    attached only while the published record already lists it, and the record goes away only
    after every filter it lists is gone. Each file-system and netlink operation is one step; the
    process may die after any of them, so the record of all steps is the set of crash points. */
module ClassicJournal {
  import opened Outcomes

  datatype Phase = ATTACHING | ACTIVE | DETACHING

  datatype Binding = Binding(slot: nat, program: nat)

  datatype Record = Record(
    sequence: nat, boot: nat, resource: nat, created: nat, generation: nat, digest: nat, phase: Phase, updated: nat,
    bindings: seq<Binding>)

  // What a file holds: nothing readable yet, or one whole record.
  datatype Content = Partial | Whole(record: Record)

  /** The host at one instant: the journal directory, what of it is already on stable storage, the TC
      slots of the host, the filters the owners have deleted so far, and the boot it runs. */
  datatype Host = Host(
    file: Option<Content>, next: Option<Content>, stable: Option<Content>, filters: map<nat, nat>,
    deleted: seq<Binding>, boot: nat)

  predicate WholeOrAbsent(f: Option<Content>) { f.None? || f.value.Whole? }

  predicate Lists(f: Option<Content>, slot: nat, program: nat, boot: nat) {
    f.Some? && f.value.Whole? && f.value.record.boot == boot && Binding(slot, program) in f.value.record.bindings
  }

  /** Good at any instant: the published journal is absent or one whole record, on stable storage too,
      and every filter that runs one of our programs is listed in it for this boot. */
  predicate Good(ours: set<nat>, h: Host) {
    && WholeOrAbsent(h.file) && WholeOrAbsent(h.stable)
    && forall s :: s in h.filters && h.filters[s] in ours ==> Lists(h.file, s, h.filters[s], h.boot)
  }

  predicate SameOwner(a: Record, b: Record) {
    a.boot == b.boot && a.resource == b.resource && a.created == b.created && a.generation == b.generation
    && a.digest == b.digest && a.bindings == b.bindings
  }

  // The next record of the same owner.
  predicate Succeeding(a: Record, b: Record) { b.sequence == a.sequence + 1 && SameOwner(a, b) }

  /** How the published journal may change in one step: not at all, into its first record, into the
      next record of the same owner, or away. */
  predicate JournalStep(a: Option<Content>, b: Option<Content>) {
    || a == b
    || (a.None? && b.Some? && b.value.Whole? && b.value.record.sequence == 1)
    || (a.Some? && a.value.Whole? && b.Some? && b.value.Whole? && Succeeding(a.value.record, b.value.record))
    || (a.Some? && a.value.Whole? && a.value.record.phase == DETACHING && b.None?)
  }

  /** What a step may delete: nothing, or one filter that runs the program the journal lists for its slot
      on this boot. */
  predicate DeletionStep(a: Host, b: Host) {
    || b.deleted == a.deleted
    || (&& |b.deleted| == |a.deleted| + 1 && a.deleted <= b.deleted
        && var x := b.deleted[|a.deleted|];
        && x.slot in a.filters && a.filters[x.slot] == x.program && Lists(a.file, x.slot, x.program, a.boot)
        && b == a.(filters := a.filters - {x.slot}, deleted := b.deleted))
  }

  // A reboot keeps the journal as it was or as far as it had reached stable storage.
  predicate RebootStep(a: Host, b: Host) {
    b.boot == a.boot + 1 && b.deleted == a.deleted && (b.file == a.file || b.file == a.stable)
  }

  predicate HostStep(a: Host, b: Host) {
    RebootStep(a, b) || (b.boot == a.boot && JournalStep(a.file, b.file) && DeletionStep(a, b))
  }

  ghost predicate Steps(history: seq<Host>) {
    forall i :: 0 <= i < |history| - 1 ==> HostStep(history[i], history[i + 1])
  }

  ghost predicate AlwaysGood(ours: set<nat>, history: seq<Host>) {
    forall i :: 0 <= i < |history| ==> Good(ours, history[i])
  }

  /** What a crash can leave, whichever step it hits: the published journal is absent or one whole record,
      it lists every filter of ours, and the host got there from the state before by one legal step. */
  ghost predicate CrashSafe(ours: set<nat>, history: seq<Host>) {
    && (forall i :: 0 <= i < |history| ==>
          && WholeOrAbsent(history[i].file)
          && (forall s :: s in history[i].filters && history[i].filters[s] in ours ==>
                Lists(history[i].file, s, history[i].filters[s], history[i].boot)))
    && (forall i :: 0 <= i < |history| - 1 ==> HostStep(history[i], history[i + 1]))
  }

  // The recorded history ends in the present, and all of it is good.
  ghost predicate Consistent(ours: set<nat>, history: seq<Host>, h: Host) {
    |history| > 0 && history[|history| - 1] == h && AlwaysGood(ours, history) && Steps(history)
  }

  lemma OneMore(ours: set<nat>, history: seq<Host>, h: Host, next: Host)
    requires Consistent(ours, history, h) && Good(ours, next) && HostStep(h, next)
    ensures Consistent(ours, history + [next], next)
  {
    var now := history + [next];
    forall i | 0 <= i < |now| - 1 ensures HostStep(now[i], now[i + 1]) {
      if i < |history| - 1 { assert HostStep(history[i], history[i + 1]); }
    }
  }

  // No slot runs one of our programs.
  predicate NoFilters(ours: set<nat>, filters: map<nat, nat>) { forall s :: s in filters ==> filters[s] !in ours }

  // Other tools may take filters away or put their own programs into slots.
  predicate OnlyForeignChanges(ours: set<nat>, a: map<nat, nat>, b: map<nat, nat>) {
    forall s :: s in b && b[s] in ours ==> s in a && a[s] == b[s]
  }

  // Only filters that the published journal lists, and only if it was written on this boot.
  predicate ListedDeletions(h: Host, before: seq<Binding>, after: seq<Binding>) {
    && before <= after
    && (after != before ==> h.file.Some? && h.file.value.Whole? && h.file.value.record.boot == h.boot)
    && (after != before ==> forall i :: |before| <= i < |after| ==> after[i] in h.file.value.record.bindings)
  }

  class System {
    const ours: set<nat>
    var h: Host
    var history: seq<Host>
    var healthy: bool       // for now every operation succeeds and no other tool touches a slot

    ghost predicate Valid() reads this { Consistent(ours, history, h) }

    constructor (programs: set<nat>, start: Host, well: bool)
      requires Good(programs, start)
      ensures Valid() && ours == programs && h == start && history == [start] && healthy == well
    {
      ours, h, history, healthy := programs, start, [start], well;
    }

    // Record a step that keeps the host good.
    method Recorded()
      requires |history| > 0 && Consistent(ours, history, history[|history| - 1])
      requires Good(ours, h) && HostStep(history[|history| - 1], h)
      modifies this`history
      ensures Valid() && history == old(history) + [h]
    {
      OneMore(ours, history, history[|history| - 1], h);
      history := history + [h];
    }

    // Whether the next operation goes through.
    method Succeeds() returns (ok: bool)
      ensures healthy ==> ok
    {
      ok := *;
      ok := ok || healthy;
    }

    // ----- TC -----

    method Inspect(slot: nat) returns (r: Found<nat>)
      requires Valid()
      modifies this`h, this`history
      ensures Valid() && history == old(history) + [h]
      ensures h == old(h).(filters := h.filters) && OnlyForeignChanges(ours, old(h).filters, h.filters)
      ensures r == Failed || r == (if slot in h.filters then Present(h.filters[slot]) else Absent)
      ensures healthy ==> r != Failed && h == old(h)
    {
      var now: map<nat, nat> := *;
      if !healthy && OnlyForeignChanges(ours, h.filters, now) { h := h.(filters := now); }
      Recorded();
      var ok := Succeeds();
      if !ok { return Failed; }
      r := if slot in h.filters then Present(h.filters[slot]) else Absent;
    }

    /** Attach one filter; only a listed one may be attached. An error may hide an attachment. */
    method Attach(slot: nat, program: nat) returns (ok: bool)
      requires Valid() && Lists(h.file, slot, program, h.boot)
      modifies this`h, this`history
      ensures Valid() && old(history) <= history
      ensures h == old(h) || (slot !in old(h).filters && h == old(h).(filters := old(h).filters[slot := program]))
      ensures ok ==> slot in h.filters && h.filters[slot] == program
    {
      var effective: bool := *;
      effective := effective && slot !in h.filters;
      if effective { h := h.(filters := h.filters[slot := program]); }
      Recorded();
      ok := *;
      ok := ok && effective;
    }

    // Delete one filter; only a listed one may be deleted. An error may hide a deletion.
    method Detach(b: Binding) returns (ok: bool)
      requires Valid() && b.slot in h.filters && h.filters[b.slot] == b.program
      requires Lists(h.file, b.slot, b.program, h.boot)
      modifies this`h, this`history
      ensures Valid() && old(history) <= history
      ensures h == old(h) || h == old(h).(filters := old(h).filters - {b.slot}, deleted := old(h).deleted + [b])
      ensures ok ==> b.slot !in h.filters
      ensures healthy ==> ok
    {
      var effective := Succeeds();
      if effective { h := h.(filters := h.filters - {b.slot}, deleted := h.deleted + [b]); }
      Recorded();
      ok := Succeeds();
      ok := ok && effective;
    }

    // ----- journal directory -----

    method Load() returns (r: Found<Record>)
      requires Valid()
      ensures r.Present? ==> h.file == Some(Whole(r.value))
      ensures r == Absent ==> h.file == None
      ensures healthy ==> r != Failed
    {
      var ok := Succeeds();
      if !ok || (h.file.Some? && h.file.value.Partial?) { return Failed; }
      r := if h.file.None? then Absent else Present(h.file.value.record);
    }

    method SyncDirectory() returns (ok: bool)
      requires Valid()
      modifies this`h, this`history
      ensures Valid() && old(history) <= history && h == old(h).(stable := h.stable)
      ensures healthy ==> ok
    {
      ok := Succeeds();
      if ok { h := h.(stable := h.file); }
      Recorded();
    }

    // Drop an interrupted next file.
    method RecoverNext() returns (ok: bool)
      requires Valid()
      modifies this`h, this`history
      ensures Valid() && old(history) <= history
      ensures h == old(h).(next := h.next, stable := h.stable)
      ensures ok ==> h.next == None
      ensures healthy ==> ok
    {
      if h.next.None? { return true; }
      var readable := Succeeds();
      if !readable { return false; }
      h := h.(next := None);
      Recorded();
      ok := SyncDirectory();
    }

    // Create the next file and write one record into it; a failure leaves a partial file behind.
    method WriteNext(r: Record) returns (ok: bool)
      requires Valid()
      modifies this`h, this`history
      ensures Valid() && old(history) <= history
      ensures h == old(h).(next := h.next)
      ensures ok ==> h.next == Some(Whole(r))
      ensures healthy && old(h).next == None ==> ok
    {
      if h.next.Some? { return false; }
      var created := Succeeds();
      if !created { return false; }
      h := h.(next := Some(Partial));
      Recorded();
      ok := Succeeds();
      if ok { h := h.(next := Some(Whole(r))); }
      Recorded();
    }

    // ----- publishing -----

    // RENAME_NOREPLACE of the next file over an absent journal.
    method PublishFirst(r: Record) returns (ok: bool)
      requires Valid() && h.next == Some(Whole(r)) && r.sequence == 1
      modifies this`h, this`history
      ensures Valid() && old(history) <= history
      ensures h == old(h) || (old(h).file.None? && h == old(h).(file := Some(Whole(r)), next := None))
      ensures ok ==> h.file == Some(Whole(r))
    {
      ok := *;
      if ok && h.file.None? { h := h.(file := h.next, next := None); } else { ok := false; }
      Recorded();
    }

    // RENAME_EXCHANGE of the next file with the journal it succeeds.
    method Exchange(r: Record, current: Record) returns (ok: bool)
      requires Valid() && h.file == Some(Whole(current)) && h.next == Some(Whole(r))
      requires Succeeding(current, r)
      modifies this`h, this`history
      ensures Valid() && old(history) <= history
      ensures h == old(h) || h == old(h).(file := Some(Whole(r)), next := Some(Whole(current)))
      ensures ok ==> h.file == Some(Whole(r))
      ensures healthy ==> ok
    {
      ok := Succeeds();
      if ok { h := h.(file := h.next, next := h.file); }
      Recorded();
    }

    /** Persist a record: write it beside the journal, then swap it in. The journal is the old record
        or the new one at every step, never anything else. */
    method Persist(r: Record, expected: Option<Record>) returns (ok: bool)
      requires Valid()
      modifies this`h, this`history
      ensures Valid() && old(history) <= history
      ensures h.filters == old(h).filters && h.deleted == old(h).deleted && h.boot == old(h).boot
      ensures h.file == old(h).file || h.file == Some(Whole(r))
      ensures ok ==> h.file == Some(Whole(r))
      ensures h.file != old(h).file ==>
                old(h).file == if expected.None? then None else Some(Whole(expected.value))
      ensures healthy && expected.Some? && old(h).file == Some(Whole(expected.value)) ==>
                (ok <==> Succeeding(expected.value, r))
    {
      if expected.None? && r.sequence != 1 { return false; }
      if expected.Some? && !Succeeding(expected.value, r) { return false; }
      ok := RecoverNext();
      if !ok { return; }
      ok := WriteNext(r);
      if !ok { return; }
      var found := Load();
      if expected.None? {
        if found != Absent { return false; }
        ok := PublishFirst(r);
        if ok { ok := SyncDirectory(); }
        return;
      }
      if found != Present(expected.value) { return false; }
      ok := Exchange(r, expected.value);
      if !ok { return; }
      ok := SyncDirectory();
      if !ok { return; }
      ok := RecoverNext();
    }

    /** Remove the journal of a detached owner; allowed only when none of its filters is left. */
    method Remove(expected: Record) returns (ok: bool)
      requires Valid() && expected.phase == DETACHING
      requires NoFilters(ours, h.filters)
      modifies this`h, this`history
      ensures Valid() && old(history) <= history
      ensures h.filters == old(h).filters && h.deleted == old(h).deleted && h.boot == old(h).boot
      ensures h.file == old(h).file || (h.file == None && old(h).file == Some(Whole(expected)))
      ensures ok ==> h.file == None
      ensures healthy && old(h).file == Some(Whole(expected)) ==> ok
    {
      ok := RecoverNext();
      if !ok { return; }
      var found := Load();
      if found != Present(expected) { return false; }
      ok := Succeeds();
      if !ok { return; }
      h := h.(file := None);
      Recorded();
      ok := SyncDirectory();
    }

    // ----- exact removal -----

    /** Look at every recorded slot. A foreign program, or any program of ours from before a reboot,
        blocks the cleanup. */
    method InspectAll(bindings: seq<Binding>, allowDelete: bool) returns (ok: bool, occupied: seq<Binding>)
      requires Valid()
      modifies this`h, this`history
      ensures Valid() && old(history) <= history
      ensures h == old(h).(filters := h.filters) && OnlyForeignChanges(ours, old(h).filters, h.filters)
      ensures ok ==> forall b :: b in bindings ==> Inspected(old(history), history, b, allowDelete)
      ensures ok ==> forall b :: b in bindings ==> b in occupied || Gone(ours, b, h.filters)
      ensures forall b :: b in occupied ==> b in bindings
      ensures occupied != [] ==> allowDelete
      ensures healthy ==> h == old(h) && (AllClean(old(h), bindings, allowDelete) ==> ok)
    {
      ok, occupied := false, [];
      var index := 0;
      while index < |bindings|
        invariant 0 <= index <= |bindings|
        invariant Valid() && old(history) <= history
        invariant h == old(h).(filters := h.filters) && OnlyForeignChanges(ours, old(h).filters, h.filters)
        invariant forall i :: 0 <= i < index ==> Inspected(old(history), history, bindings[i], allowDelete)
        invariant forall i :: 0 <= i < index ==> bindings[i] in occupied || Gone(ours, bindings[i], h.filters)
        invariant forall b :: b in occupied ==> b in bindings
        invariant occupied != [] ==> allowDelete
        invariant healthy ==> h == old(h)
      {
        ghost var before := history;
        var found := Inspect(bindings[index].slot);
        if found == Failed { return; }
        assert bindings[index] in bindings;
        if found.Present? {
          if found.value != bindings[index].program || !allowDelete { return; }
          occupied := occupied + [bindings[index]];
        }
        StillInspected(old(history), before, history, bindings[..index], allowDelete);
        assert Clean(history[|history| - 1], bindings[index], allowDelete);
        assert forall i :: 0 <= i < index ==> bindings[i] in bindings[..index];
        index := index + 1;
      }
      ok := true;
    }

    // Delete one filter if it is still ours, and confirm it is gone.
    method RemoveOne(b: Binding) returns (ok: bool)
      requires Valid() && Lists(h.file, b.slot, b.program, h.boot)
      modifies this`h, this`history
      ensures Valid() && old(history) <= history
      ensures h == old(h).(filters := h.filters, deleted := h.deleted)
      ensures OnlyForeignChanges(ours, old(h).filters, h.filters)
      ensures h.deleted == old(h).deleted || h.deleted == old(h).deleted + [b]
      ensures healthy ==> h.filters == old(h).filters || h.filters == old(h).filters - {b.slot}
      ensures healthy && Clean(old(h), b, true) ==> ok
      ensures ok ==> Gone(ours, b, h.filters)
    {
      var found := Inspect(b.slot);
      if found == Absent { return true; }
      if found != Present(b.program) { return false; }
      ok := Detach(b);
      if !ok { return; }
      found := Inspect(b.slot);
      ok := found == Absent;
    }

    // Delete the listed filters one after the other, stopping at the first that does not go.
    method RemoveEach(occupied: seq<Binding>) returns (ok: bool)
      requires Valid() && forall b :: b in occupied ==> Lists(h.file, b.slot, b.program, h.boot)
      modifies this`h, this`history
      ensures Valid() && old(history) <= history
      ensures h == old(h).(filters := h.filters, deleted := h.deleted)
      ensures OnlyForeignChanges(ours, old(h).filters, h.filters)
      ensures ok ==> forall b :: b in occupied ==> Gone(ours, b, h.filters)
      ensures DeletedFrom(occupied, old(h).deleted, h.deleted) && (occupied == [] ==> h.deleted == old(h).deleted)
      ensures healthy && AllClean(old(h), occupied, true) ==> ok
    {
      var index := 0;
      while index < |occupied|
        invariant 0 <= index <= |occupied| && Valid() && old(history) <= history
        invariant h == old(h).(filters := h.filters, deleted := h.deleted)
        invariant OnlyForeignChanges(ours, old(h).filters, h.filters)
        invariant forall i :: 0 <= i < index ==> Gone(ours, occupied[i], h.filters)
        invariant DeletedFrom(occupied, old(h).deleted, h.deleted) && (index == 0 ==> h.deleted == old(h).deleted)
        invariant healthy && AllClean(old(h), occupied, true) ==> AllClean(h, occupied, true)
      {
        assert occupied[index] in occupied;
        ok := RemoveOne(occupied[index]);
        if !ok { return; }
        index := index + 1;
      }
      ok := true;
    }

    /** Two passes: nothing is deleted unless every recorded slot held, at some step before the first
        deletion, either nothing or exactly its recorded program, on the boot that recorded it. */
    method RemoveFilters(bindings: seq<Binding>, allowDelete: bool) returns (ok: bool)
      requires Valid() && (allowDelete ==> forall b :: b in bindings ==> Lists(h.file, b.slot, b.program, h.boot))
      modifies this`h, this`history
      ensures Valid() && old(history) <= history
      ensures h == old(h).(filters := h.filters, deleted := h.deleted)
      ensures OnlyForeignChanges(ours, old(h).filters, h.filters)
      ensures ok ==> forall b :: b in bindings ==> Gone(ours, b, h.filters)
      ensures DeletedFrom(bindings, old(h).deleted, h.deleted)
      ensures h.deleted != old(h).deleted ==>
                allowDelete && forall b :: b in bindings ==> Inspected(old(history), history, b, true)
      ensures healthy && AllClean(old(h), bindings, allowDelete) ==> ok
    {
      var occupied;
      ok, occupied := InspectAll(bindings, allowDelete);
      if !ok { return; }
      ghost var before := history;
      ok := RemoveEach(occupied);
      StillInspected(old(history), before, history, bindings, allowDelete);
    }
  }

  // The slot is free or, where deleting is allowed, holds exactly the recorded program.
  predicate Clean(h: Host, b: Binding, allowDelete: bool) {
    b.slot !in h.filters || (allowDelete && h.filters[b.slot] == b.program)
  }

  predicate AllClean(h: Host, bindings: seq<Binding>, allowDelete: bool) {
    forall b :: b in bindings ==> Clean(h, b, allowDelete)
  }

  // At some step since `before`, with nothing deleted yet, the recorded slot was clean.
  ghost predicate Inspected(before: seq<Host>, now: seq<Host>, b: Binding, allowDelete: bool)
    requires |before| > 0
  {
    exists i :: |before| <= i < |now| && Clean(now[i], b, allowDelete) && now[i].deleted == before[|before| - 1].deleted
  }

  lemma StillInspected(before: seq<Host>, now: seq<Host>, later: seq<Host>, bindings: seq<Binding>, allowDelete: bool)
    requires |before| > 0 && now <= later
    requires forall b :: b in bindings ==> Inspected(before, now, b, allowDelete)
    ensures forall b :: b in bindings ==> Inspected(before, later, b, allowDelete)
  {
    forall b | b in bindings ensures Inspected(before, later, b, allowDelete) {
      var i :| |before| <= i < |now| && Clean(now[i], b, allowDelete) && now[i].deleted == before[|before| - 1].deleted;
      assert later[i] == now[i];
    }
  }

  predicate DeletedFrom(bindings: seq<Binding>, before: seq<Binding>, now: seq<Binding>) {
    before <= now && forall i :: |before| <= i < |now| ==> now[i] in bindings
  }

  // The recorded filter is no longer attached, as far as it is one of ours.
  predicate Gone(ours: set<nat>, b: Binding, filters: map<nat, nat>) {
    b.program in ours ==> b.slot !in filters || filters[b.slot] != b.program
  }

  function Advance(r: Record, phase: Phase, now: nat): Record {
    r.(sequence := r.sequence + 1, phase := phase, updated := now)
  }

  /** A live owner: the record it believes is published, for the filters it attached. */
  class Stage {
    const sys: System
    var record: Option<Record>

    constructor (system: System, r: Record)
      ensures sys == system && record == Some(r)
    {
      sys, record := system, Some(r);
    }

    /** The published journal is not the record this owner knows. */
    ghost predicate Overtaken()
      reads this, sys
    {
      record.Some? && sys.h.file.Some? && sys.h.file != Some(Whole(record.value))
    }

    // Publish the detach intent of the record this owner knows.
    method Announce(now: nat) returns (ok: bool)
      requires sys.Valid() && record.Some? && sys.h.file == Some(Whole(record.value))
      modifies this, sys`h, sys`history
      ensures sys.Valid() && old(sys.history) <= sys.history && sys.h.boot == old(sys.h).boot
      ensures sys.h.filters == old(sys.h).filters && sys.h.deleted == old(sys.h).deleted
      ensures record.Some? && record.value.bindings == old(record).value.bindings
      ensures record.value.boot == old(record).value.boot
      ensures ok ==> record.value.phase == DETACHING && sys.h.file == Some(Whole(record.value))
      ensures !ok ==> record == old(record)
      ensures sys.healthy ==> ok
      ensures !ok ==> sys.h.file == old(sys.h).file || sys.h.file == Some(Whole(Advance(record.value, DETACHING, now)))
    {
      if record.value.phase == DETACHING { return true; }
      var detaching := Advance(record.value, DETACHING, now);
      ok := sys.Persist(detaching, record);
      if ok { record := Some(detaching); }
    }

    // Remove the filters, then the journal.
    method Withdraw() returns (ok: bool)
      requires sys.Valid() && record.Some? && sys.h.file == Some(Whole(record.value)) && record.value.phase == DETACHING
      modifies this, sys`h, sys`history
      ensures sys.Valid() && old(sys.history) <= sys.history && sys.h.boot == old(sys.h).boot
      ensures OnlyForeignChanges(sys.ours, old(sys.h).filters, sys.h.filters)
      ensures ok ==> record == None && sys.h.file == None && NoFilters(sys.ours, sys.h.filters)
      ensures !ok ==> record == old(record) && (sys.h.file == old(sys.h).file || sys.h.file == None)
      ensures sys.healthy && SlotsClean(old(sys.h), old(record).value) ==> ok
      ensures ListedDeletions(old(sys.h), old(sys.h).deleted, sys.h.deleted)
    {
      ok := sys.RemoveFilters(record.value.bindings, sys.h.boot == record.value.boot);
      if !ok { return; }
      NoneLeft(sys.ours, sys.h, record.value);
      ok := sys.Remove(record.value);
      if ok { record := None; }
    }

    /** What is left in the recorded slots does not block a removal: the recorded programs if the journal was
        written on this boot, and otherwise nothing. */
    static predicate SlotsClean(h: Host, r: Record) {
      AllClean(h, r.bindings, h.file.Some? && h.boot == r.boot)
    }

    /** Close: write the detach intent, remove the filters, then remove the journal. A journal that is
        not the record this owner knows stops everything before anything is touched; it gets there when
        the detach intent is published and the write fails afterwards. When nothing fails and the slots are
        clean, closing succeeds exactly if the journal is the record this owner knows, or gone. */
    method Close(now: nat) returns (ok: bool)
      requires sys.Valid()
      modifies this, sys`h, sys`history
      ensures sys.Valid() && old(sys.history) <= sys.history && sys.h.boot == old(sys.h).boot
      ensures CrashSafe(sys.ours, sys.history)
      ensures OnlyForeignChanges(sys.ours, old(sys.h).filters, sys.h.filters)
      ensures ok && old(record).Some? ==> record == None && sys.h.file == None && NoFilters(sys.ours, sys.h.filters)
      ensures old(Overtaken()) ==>
                !ok && sys.h == old(sys.h) && sys.history == old(sys.history) && record == old(record)
      ensures Overtaken() && !old(Overtaken()) ==>
                !ok && record == old(record) && sys.h.file == Some(Whole(Advance(record.value, DETACHING, now)))
      ensures ListedDeletions(old(sys.h), old(sys.h).deleted, sys.h.deleted)
      ensures sys.healthy && old(record).Some? && SlotsClean(old(sys.h), old(record).value) ==>
                (ok <==> !old(Overtaken()))
    {
      if record.None? { return true; }
      var found := sys.Load();
      if found == Failed { return false; }
      if found == Absent {
        ok := sys.RemoveFilters(record.value.bindings, false);
        if ok { record := None; }
        return;
      }
      if found.value != record.value { return false; }
      ok := Announce(now);
      if !ok { return; }
      var booted := sys.Succeeds();
      if !booted { return false; }
      ok := Withdraw();
    }

    /** Closing again does not help an owner whose journal went past it: however often it tries, nothing
        happens. Only the next start, which reads the record anew, can go on. */
    method CloseAgain(now: nat, attempts: nat) returns (ok: bool)
      requires sys.Valid()
      modifies this, sys`h, sys`history
      ensures sys.Valid() && old(sys.history) <= sys.history && CrashSafe(sys.ours, sys.history)
      ensures old(Overtaken()) ==>
                !ok && sys.h == old(sys.h) && sys.history == old(sys.history) && record == old(record)
    {
      ok := false;
      var attempt := 0;
      while attempt < attempts && !ok
        invariant sys.Valid() && old(sys.history) <= sys.history
        invariant old(Overtaken()) ==>
                    !ok && sys.h == old(sys.h) && sys.history == old(sys.history) && record == old(record)
      {
        ok := Close(now);
        attempt := attempt + 1;
      }
    }
  }

  /** How an owner is overtaken: the step that publishes its next record, when an error is reported after it. */
  lemma ErrorAfterPublishing() returns (a: Host, b: Host, r: Record)
    ensures Good({7}, a) && Good({7}, b) && HostStep(a, b) && Stage.SlotsClean(b, r)
    ensures a.file == Some(Whole(r)) && b.file == Some(Whole(Advance(r, ACTIVE, 5))) && b.file != a.file
  {
    r := Record(1, 1, 1, 4, 1, 1, ATTACHING, 4, [Binding(3, 7)]);
    a := Host(Some(Whole(r)), Some(Whole(Advance(r, ACTIVE, 5))), Some(Whole(r)), map[3 := 7], [], 1);
    b := a.(file := a.next, next := a.file);
  }

  // Every filter of ours was listed, and every listed one is gone.
  lemma NoneLeft(ours: set<nat>, h: Host, r: Record)
    requires Good(ours, h) && h.file == Some(Whole(r)) && forall b :: b in r.bindings ==> Gone(ours, b, h.filters)
    ensures NoFilters(ours, h.filters)
  {
    assert forall s :: s in h.filters && h.filters[s] in ours ==> Gone(ours, Binding(s, h.filters[s]), h.filters);
  }

  // Undo the filters of a failed attachment, as far as they are still there.
  method RollbackAttach(sys: System, applied: seq<Binding>)
    requires sys.Valid() && forall b :: b in applied ==> Lists(sys.h.file, b.slot, b.program, sys.h.boot)
    modifies sys`h, sys`history
    ensures sys.Valid() && old(sys.history) <= sys.history
    ensures sys.h == old(sys.h).(filters := sys.h.filters, deleted := sys.h.deleted)
    ensures OnlyForeignChanges(sys.ours, old(sys.h).filters, sys.h.filters)
  {
    var index := |applied|;
    while index > 0
      invariant 0 <= index <= |applied| && sys.Valid() && old(sys.history) <= sys.history
      invariant sys.h == old(sys.h).(filters := sys.h.filters, deleted := sys.h.deleted)
      invariant OnlyForeignChanges(sys.ours, old(sys.h).filters, sys.h.filters)
    {
      index := index - 1;
      var removed := sys.RemoveOne(applied[index]);
    }
  }

  /** Attach every binding of a published record, verifying each; the slots must still be empty. */
  method AttachAll(sys: System, r: Record) returns (ok: bool, applied: seq<Binding>)
    requires sys.Valid() && sys.h.file == Some(Whole(r)) && r.boot == sys.h.boot
    modifies sys`h, sys`history
    ensures sys.Valid() && old(sys.history) <= sys.history && sys.h == old(sys.h).(filters := sys.h.filters)
    ensures applied <= r.bindings && (ok ==> applied == r.bindings)
  {
    applied := [];
    while |applied| < |r.bindings|
      invariant applied <= r.bindings && sys.Valid() && old(sys.history) <= sys.history
      invariant sys.h == old(sys.h).(filters := sys.h.filters)
      decreases |r.bindings| - |applied|
    {
      var b := r.bindings[|applied|];
      var found := sys.Inspect(b.slot);
      if found != Absent { return false, applied; }
      ok := sys.Attach(b.slot, b.program);
      if !ok { return false, applied; }
      applied := r.bindings[..|applied| + 1];
      found := sys.Inspect(b.slot);
      if found != Present(b.program) { return false, applied; }
    }
    return true, applied;
  }

  // Attach what the published intent lists, publish the active record, commit; undo the filters on failure.
  method AttachAndPublish(sys: System, stage: Stage, now: nat, commits: bool) returns (ok: bool)
    requires sys.Valid() && stage.sys == sys && stage.record.Some? && sys.h.file == Some(Whole(stage.record.value))
    requires stage.record.value.boot == sys.h.boot
    modifies stage, sys`h, sys`history
    ensures sys.Valid() && old(sys.history) <= sys.history && sys.h.boot == old(sys.h).boot && sys.h.file.Some?
    ensures stage.record.Some? && stage.record.value.bindings == old(stage.record).value.bindings
    ensures ok ==> !stage.Overtaken() && stage.record.value.phase == ACTIVE
    ensures stage.Overtaken() ==> !ok && sys.h.file == Some(Whole(Advance(stage.record.value, ACTIVE, now)))
  {
    var r := stage.record.value;
    var applied;
    ok, applied := AttachAll(sys, r);
    if ok {
      var active := Advance(r, ACTIVE, now);
      ok := sys.Persist(active, Some(r));
      if ok {
        stage.record := Some(active);
        ok := commits;
      }
    }
    if !ok { RollbackAttach(sys, applied); }
  }

  /** Stage the classic filters: intent first, then the filters, then the active record, then the
      caller's commit. Whatever fails, the journal that remains lists every filter that remains. */
  method StageClassic(sys: System, resource: nat, generation: nat, digest: nat, bindings: seq<Binding>, now: nat,
                      commits: bool)
    returns (ok: bool, stage: Stage?)
    requires sys.Valid()
    modifies sys`h, sys`history
    ensures sys.Valid() && old(sys.history) <= sys.history && sys.h.boot == old(sys.h).boot
    ensures CrashSafe(sys.ours, sys.history)
    ensures stage != null ==>
              fresh(stage) && stage.sys == sys && stage.record.Some? && stage.record.value.bindings == bindings
    ensures ok ==> stage != null && !stage.Overtaken() && stage.record.value.phase == ACTIVE
    ensures stage != null ==>
              && sys.h.file.Some?
              && (stage.Overtaken() ==> !ok && sys.h.file == Some(Whole(Advance(stage.record.value, ACTIVE, now))))
    ensures stage == null ==> !ok && OnlyForeignChanges(sys.ours, old(sys.h).filters, sys.h.filters)
    ensures old(sys.h).file.Some? ==> stage == null
  {
    stage := null;
    ok := sys.RecoverNext();
    if !ok { return; }
    var found := sys.Load();
    if found != Absent { return false, null; }
    var empty, occupied := sys.InspectAll(bindings, false);
    if !empty { return false, null; }
    var r := Record(1, sys.h.boot, resource, now, generation, digest, ATTACHING, now, bindings);
    ok := sys.Persist(r, None);
    if !ok { return; }
    stage := new Stage(sys, r);
    ok := AttachAndPublish(sys, stage, now, commits);
  }

  // Nothing foreign is in the slots the journal lists.
  predicate Recoverable(h: Host) {
    h.file.Some? && h.file.value.Whole? ==> Stage.SlotsClean(h, h.file.value.record)
  }

  /** Recovery at the next start, from any state a crash can leave: drop an interrupted next file, then
      close the recorded owner. Success leaves no journal and none of our filters, and deleted only
      filters the journal listed on this boot. When nothing fails and the slots are clean, it succeeds. */
  method Recover(sys: System, now: nat) returns (ok: bool)
    requires sys.Valid()
    modifies sys`h, sys`history
    ensures sys.Valid() && old(sys.history) <= sys.history
    ensures CrashSafe(sys.ours, sys.history)
    ensures OnlyForeignChanges(sys.ours, old(sys.h).filters, sys.h.filters)
    ensures ok ==> sys.h.file == None && NoFilters(sys.ours, sys.h.filters)
    ensures ListedDeletions(old(sys.h), old(sys.h).deleted, sys.h.deleted)
    ensures sys.healthy && Recoverable(old(sys.h)) ==> ok
  {
    ok := sys.RecoverNext();
    if !ok { return; }
    var found := sys.Load();
    if found == Failed { return false; }
    if found == Absent { return true; }
    var stage := new Stage(sys, found.value);
    ok := stage.Close(now);
  }

  // The process dies after the i-th recorded step: what came after did not happen.
  method Crash(sys: System, i: nat)
    requires sys.Valid() && i < |sys.history|
    modifies sys`h, sys`history
    ensures sys.Valid() && sys.history == old(sys.history)[..i + 1] && sys.h == old(sys.history)[i]
  {
    sys.h, sys.history := sys.history[i], sys.history[..i + 1];
  }

  /** A reboot: our filters are gone, the directory is whatever reached stable storage. The result is a
      state recovery may start from. */
  method Reboot(sys: System)
    requires sys.Valid()
    modifies sys`h, sys`history
    ensures sys.Valid() && sys.history == old(sys.history) + [sys.h] && RebootStep(old(sys.h), sys.h)
  {
    var kept: bool := *;
    var next: Option<Content> := *;
    var filters: map<nat, nat> := *;
    if exists s :: s in filters && filters[s] in sys.ours { filters := map[]; }
    var file := if kept then sys.h.file else sys.h.stable;
    sys.h := Host(file, next, file, filters, sys.h.deleted, sys.h.boot + 1);
    sys.Recorded();
  }

  /** A new start: the process died after the given step, the machine rebooted or not, and recovery runs. */
  method Restart(sys: System, point: nat, reboots: bool, now: nat, well: bool) returns (ok: bool)
    requires sys.Valid() && point < |sys.history|
    modifies sys
    ensures sys.Valid() && CrashSafe(sys.ours, sys.history) && old(sys.history)[..point + 1] <= sys.history
    ensures ok ==> sys.h.file == None && NoFilters(sys.ours, sys.h.filters)
    ensures well && !reboots && Recoverable(old(sys.history)[point]) ==> ok
  {
    Crash(sys, point);
    sys.healthy := well;
    if reboots { Reboot(sys); }
    ok := Recover(sys, now);
  }

  /** One owner with crashes anywhere: stage, perhaps close, and die after any step; at each new start, after
      a reboot or not, recover, and perhaps die again after any step of that. The record of the whole
      life is safe at every step, and a recovery that reports success leaves no journal and no filter.
      Operations may fail in any of these lives. */
  method Restarts(programs: set<nat>, start: Host, resource: nat, generation: nat, digest: nat, bindings: seq<Binding>,
                  now: nat, attempts: nat)
    returns (sys: System, ok: bool)
    requires Good(programs, start)
    ensures fresh(sys) && sys.Valid() && sys.ours == programs && CrashSafe(programs, sys.history)
    ensures sys.history[0] == start && sys.history[|sys.history| - 1] == sys.h
    ensures ok ==> sys.h.file == None && NoFilters(programs, sys.h.filters)
  {
    sys := new System(programs, start, false);
    var commits: bool, closes: bool := *, *;
    var staged, stage := StageClassic(sys, resource, generation, digest, bindings, now, commits);
    if stage != null && closes { var closed := stage.CloseAgain(now, attempts); }
    assert [start] <= sys.history;
    ok := false;
    var attempt := 0;
    while attempt < attempts && !ok
      invariant fresh(sys) && sys.Valid() && sys.ours == programs && sys.history[0] == start
      invariant ok ==> sys.h.file == None && NoFilters(programs, sys.h.filters)
    {
      var point: nat, reboots: bool, well: bool := *, *, *;
      if point >= |sys.history| { point := |sys.history| - 1; }
      ghost var before := sys.history[..point + 1];
      ok := Restart(sys, point, reboots, now, well);
      assert before[0] == start;
      attempt := attempt + 1;
    }
  }
}
