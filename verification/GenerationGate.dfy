/** The generation gate: one 64-bit word that packs OPEN, SEALED, POISON and WAKE_ARMED
    above a 60-bit in-flight count. Packet visits enter by compare-and-swap and leave by
    fetch-and-sub; userspace binds, opens and closes the same word and waits for one wake
    record. Every atomic access is one step, so a run is any interleaving of the steps of
    any number of visits with the single userspace controller (its mutex allows one).

    A packet that enters twice (once for the XDP body, once for event admission) is two
    visits. */
module GenerationGate {

  // ----- The packed word -----

  const INFLIGHT: nat := 0x1000_0000_0000_0000
  const CAS_ATTEMPTS: nat := 8

  /** The 64-bit word, split at bit 60: four flags above the in-flight count. */
  datatype Word = Word(isOpen: bool, isSealed: bool, poison: bool, armed: bool, count: nat)

  const ZERO := Word(false, false, false, false, 0)
  const SEALED := Word(false, true, false, false, 0)

  function Open(count: nat): Word { Word(true, false, false, false, count) }

  function Armed(count: nat): Word { Word(false, true, false, true, count) }

  function Bit(b: bool): nat { if b then 1 else 0 }

  function FlagBits(w: Word): nat { 8 * Bit(w.isOpen) + 4 * Bit(w.isSealed) + 2 * Bit(w.poison) + Bit(w.armed) }

  function Encode(w: Word): nat { FlagBits(w) * INFLIGHT + w.count }

  // __sync_fetch_and_or of the POISON bit
  function Condemned(w: Word): Word { w.(poison := true) }

  // __sync_fetch_and_sub of one; a zero count borrows from the flags
  function Decremented(w: Word): Word {
    if w.count > 0 then w.(count := w.count - 1)
    else if w.armed then w.(armed := false, count := INFLIGHT - 1)
    else if w.poison then w.(poison := false, armed := true, count := INFLIGHT - 1)
    else if w.isSealed then w.(isSealed := false, poison := true, armed := true, count := INFLIGHT - 1)
    else Word(!w.isOpen, true, true, true, INFLIGHT - 1)
  }

  /** The split word behaves as the 64-bit integer the source updates atomically: equal words
      are equal integers, and subtracting one borrows from the flags exactly as it does there. */
  lemma WordIsInteger(w: Word, u: Word)
    requires w.count < INFLIGHT && u.count < INFLIGHT
    ensures Encode(w) < 16 * INFLIGHT
    ensures Encode(w) == Encode(u) <==> w == u
    ensures Encode(Decremented(w)) == if Encode(w) == 0 then 16 * INFLIGHT - 1 else Encode(w) - 1
    ensures Encode(Condemned(w)) == if w.poison then Encode(w) else Encode(w) + 2 * INFLIGHT
  {
    EncodesOnce(w, u);
    DecrementBorrows(w);
  }

  lemma EncodesOnce(w: Word, u: Word)
    requires w.count < INFLIGHT && u.count < INFLIGHT
    ensures Encode(w) == Encode(u) <==> w == u
  {
    if Encode(w) == Encode(u) {
      assert FlagBits(w) == FlagBits(u) && w.count == u.count;
    }
  }

  lemma DecrementBorrows(w: Word)
    requires w.count < INFLIGHT
    ensures Encode(Decremented(w)) == if Encode(w) == 0 then 16 * INFLIGHT - 1 else Encode(w) - 1
  {
    if w.count == 0 { assert FlagBits(w) == 0 ==> !w.isOpen && !w.isSealed && !w.poison && !w.armed; }
  }

  // ----- State -----

  /** Where one enter/exit pair stands. */
  datatype Visit =
    | Comparing                          // about to compare gate->generation
    | Entering(attempt: nat)             // about to load the word
    | Loaded(attempt: nat, seen: Word)    // loaded `seen`, about to decide or swap
    | Inside                             // entered, not yet exited
    | Exited(seen: Word)                  // fetch_and_sub returned `seen`
    | Notifying                          // the last exit, about to look up identity and emit
    | Notified                           // the ring accepted the wake, about to disarm
    | Condemning                         // about to set POISON
    | Finished

  /** Where one CONTROL operation stands inside its retry loop. */
  datatype Loop =
    | Binding
    | Attempt(n: nat)
    | Chosen(n: nat, seen: Word)
    | Rejecting                          // about to set POISON

  datatype Control =
    | Resting
    | Opening(loop: Loop)
    | Closing(loop: Loop, confirm: bool) // confirm: the second CLOSE, after the wake
    | AwaitingWake
    | Verifying

  datatype Result = IDLE | OPENED | WAIT | POISONED | MISMATCH

  /** What userspace and the last exit have been through. */
  datatype Marks = Marks(
    everOpened: bool,          // an OPEN returned OPEN
    waited: bool,              // a CLOSE armed the wake
    quiesced: bool,            // a Quiesce returned success
    identityLost: bool,        // a last exit found no runtime identity
    resealed: bool)            // a later CLOSE sealed a drained word that was still armed

  datatype Tally = Tally(
    enters: nat,               // successful enters so far
    exits: nat,                // exits so far
    peak: nat,                 // most visits ever inside at once
    lastExits: nat,            // exits that saw count 1 under SEALED|WAKE_ARMED
    wakes: nat,                // wake records emitted
    wakesRead: nat)            // wake records consumed by userspace

  datatype State = State(
    bound: nat,                // gate->generation, 0 while unbound
    word: Word,                // gate->state
    visits: map<nat, Visit>,
    control: Control,
    published: bool,           // control_map selects the generation
    marks: Marks,
    tally: Tally)

  function Init(): State {
    State(0, ZERO, map[], Resting, false, Marks(false, false, false, false, false), Tally(0, 0, 0, 0, 0, 0))
  }

  function VisitsInside(s: State): set<nat> {
    set v | v in s.visits && s.visits[v].Inside?
  }

  // Exits that may still emit a wake record.
  function Emitters(s: State): set<nat> {
    set v | v in s.visits &&
            (s.visits[v].Notifying? ||
             (s.visits[v].Exited? && s.visits[v].seen == Armed(1)))
  }

  // ----- Steps -----

  datatype VisitStep =
    | Begin | Compare | Load | Decide | Leave | Classify
    | Notify(identity: bool, accepted: bool)
    | Disarm | Condemn

  datatype ControlStep =
    | Publish | Unpublish | StartOpen | StartClose | Bind | ControlLoad | ControlDecide | ControlCondemn
    | ReadWake | GiveUp | Verify

  datatype Step = ByVisit(v: nat, visitStep: VisitStep) | ByControl(controlStep: ControlStep)

  /** One step of generation g; a step that is not enabled leaves the state as it is. */
  function Apply(g: nat, s: State, step: Step): State {
    match step
    case ByVisit(v, a) => VisitApply(g, s, v, a)
    case ByControl(a) => ControlApply(g, s, a)
  }

  function Move(s: State, v: nat, to: Visit): State { s.(visits := s.visits[v := to]) }

  function VisitApply(g: nat, s: State, v: nat, step: VisitStep): (t: State)
    ensures !s.word.isOpen ==> t.tally.enters == s.tally.enters
    ensures t.marks.quiesced == s.marks.quiesced
  {
    if v !in s.visits then
      if step.Begin? && s.published then Move(s, v, Comparing) else s
    else
      match (s.visits[v], step)
      case (Comparing, Compare) => ComparedVisit(g, s, v)
      case (Entering(attempt), Load) => Move(s, v, Loaded(attempt, s.word))
      case (Loaded(attempt, seen), Decide) => DecidedVisit(s, v, attempt, seen)
      case (Inside, Leave) => LeftVisit(s, v)
      case (Exited(seen), Classify) => ClassifiedVisit(g, s, v, seen)
      case (Notifying, Notify(identity, accepted)) => NotifiedVisit(s, v, identity, accepted)
      case (Notified, Disarm) =>
        Move(s, v, Finished).(word := if s.word == Armed(0) then SEALED else s.word)
      case (Condemning, Condemn) => Move(s, v, Finished).(word := Condemned(s.word))
      case _ => s
  }

  function ControlApply(g: nat, s: State, step: ControlStep): (t: State)
    ensures t.tally.enters == s.tally.enters && (s.marks.quiesced ==> t.marks.quiesced)
  {
    match step
    case Publish => if s.marks.everOpened then s.(published := true) else s
    case Unpublish => s.(published := false)
    case StartOpen => if s.control.Resting? then s.(control := Opening(Binding)) else s
    case StartClose => if s.control.Resting? then s.(control := Closing(Binding, false)) else s
    case Bind => BoundControl(g, s)
    case ControlLoad => LoadedControl(s)
    case ControlDecide =>
      (match s.control
       case Opening(Chosen(n, seen)) => DecidedOpen(s, n, seen)
       case Closing(Chosen(n, seen), _) => DecidedClose(s, n, seen)
       case _ => s)
    case ControlCondemn =>
      if (s.control.Opening? || s.control.Closing?) && s.control.loop.Rejecting? then
        Returned(s.(word := Condemned(s.word)), POISONED)
      else s
    case ReadWake =>
      if s.control.AwaitingWake? && s.tally.wakesRead < s.tally.wakes then
        s.(control := Closing(Binding, true), tally := s.tally.(wakesRead := s.tally.wakesRead + 1))
      else s
    case GiveUp => if MayFail(s.control) then s.(control := Resting) else s
    case Verify =>
      if s.control.Verifying? then
        s.(control := Resting, marks := s.marks.(quiesced := s.marks.quiesced || (s.bound == g && s.word == SEALED)))
      else s
  }

  // Where userspace can return an error without another atomic access: an expired context,
  // a control run that never started, a failed ring read or a failed lookup of the gate.
  predicate MayFail(control: Control) {
    control.AwaitingWake? || control.Verifying? ||
    ((control.Opening? || control.Closing?) && control.loop.Binding?)
  }

  // The unbound-generation branch of enter.
  function ComparedVisit(g: nat, s: State, v: nat): (t: State)
    ensures t.tally.enters == s.tally.enters && t.marks.quiesced == s.marks.quiesced
  {
    if s.bound == g then Move(s, v, Entering(0))
    else if s.bound != 0 || s.word != ZERO then Move(s, v, Condemning)
    else Move(s, v, Finished)
  }

  // The body of the enter loop after the load of `seen`.
  function DecidedVisit(s: State, v: nat, attempt: nat, seen: Word): (t: State)
    ensures !s.word.isOpen ==> t.tally.enters == s.tally.enters
    ensures t.marks.quiesced == s.marks.quiesced
  {
    if seen.poison then Move(s, v, Finished)
    else if seen == ZERO || seen == SEALED || seen == Armed(seen.count) then Move(s, v, Finished)
    else if seen != Open(seen.count) then Move(s, v, Condemning)
    else if seen.count == INFLIGHT - 1 then Move(s, v, Condemning)
    else if s.word == seen then
      Move(s, v, Inside).(word := Open(seen.count + 1), tally := Entered(s.tally, seen.count + 1))
    else if attempt + 1 < CAS_ATTEMPTS then Move(s, v, Entering(attempt + 1))
    else Move(s, v, Finished)
  }

  function Entered(t: Tally, inside: nat): Tally {
    t.(enters := t.enters + 1, peak := if t.peak < inside then inside else t.peak)
  }

  function LeftVisit(s: State, v: nat): (t: State)
    ensures t.tally.enters == s.tally.enters && t.marks.quiesced == s.marks.quiesced
  {
    Move(s, v, Exited(s.word)).(
      word := Decremented(s.word),
      tally := s.tally.(exits := s.tally.exits + 1, lastExits := s.tally.lastExits + Bit(s.word == Armed(1))))
  }

  function ClassifiedVisit(g: nat, s: State, v: nat, seen: Word): (t: State)
    ensures t.tally.enters == s.tally.enters && t.marks.quiesced == s.marks.quiesced
  {
    if seen.count == 0 || s.bound != g then Move(s, v, Condemning)
    else if seen.poison then Move(s, v, Finished)
    else if seen != Open(seen.count) && seen != Armed(seen.count) then Move(s, v, Condemning)
    else if seen != Armed(1) then Move(s, v, Finished)
    else Move(s, v, Notifying)
  }

  function NotifiedVisit(s: State, v: nat, identity: bool, accepted: bool): (t: State)
    ensures t.tally.enters == s.tally.enters && t.marks.quiesced == s.marks.quiesced
  {
    if !identity then Move(s, v, Condemning).(marks := s.marks.(identityLost := true))
    else if accepted then Move(s, v, Notified).(tally := s.tally.(wakes := s.tally.wakes + 1))
    else Move(s, v, Finished)
  }

  function LoadedControl(s: State): State {
    match s.control
    case Opening(Attempt(n)) => s.(control := Opening(Chosen(n, s.word)))
    case Closing(Attempt(n), c) => s.(control := Closing(Chosen(n, s.word), c))
    case _ => s
  }

  function BoundControl(g: nat, s: State): State {
    var bound := if s.bound == 0 then g else s.bound;
    var next := if bound == g then Attempt(0) else Rejecting;
    match s.control
    case Opening(Binding) => s.(bound := bound, control := Opening(next))
    case Closing(Binding, c) => s.(bound := bound, control := Closing(next, c))
    case _ => s
  }

  // What userspace does with the result of one CONTROL run.
  function Returned(s: State, result: Result): (t: State)
    ensures t.tally.enters == s.tally.enters && t.marks.quiesced == s.marks.quiesced
  {
    match s.control
    case Opening(_) => s.(control := Resting, marks := s.marks.(everOpened := s.marks.everOpened || result == OPENED))
    case Closing(_, confirm) =>
      if result == IDLE then s.(control := Verifying)
      else if result == WAIT && !confirm then s.(control := AwaitingWake)
      else s.(control := Resting)
    case _ => s
  }

  function Retried(s: State, n: nat): (t: State)
    ensures t.tally.enters == s.tally.enters && t.marks.quiesced == s.marks.quiesced
  {
    if n + 1 < CAS_ATTEMPTS then
      match s.control
      case Opening(_) => s.(control := Opening(Attempt(n + 1)))
      case Closing(_, c) => s.(control := Closing(Attempt(n + 1), c))
      case _ => s
    else Returned(s, MISMATCH)
  }

  function DecidedOpen(s: State, n: nat, seen: Word): (t: State)
    ensures t.tally.enters == s.tally.enters && t.marks.quiesced == s.marks.quiesced
  {
    if seen.poison then Returned(s, POISONED)
    else if seen == Open(seen.count) then Returned(s, OPENED)
    else if seen == SEALED || seen == Armed(seen.count) then Returned(s, MISMATCH)
    else if seen != ZERO then s.(control := Opening(Rejecting))
    else if s.word == ZERO then Returned(s.(word := Open(0)), OPENED)
    else Retried(s, n)
  }

  function DecidedClose(s: State, n: nat, seen: Word): (t: State)
    requires s.control.Closing?
    ensures t.tally.enters == s.tally.enters && t.marks.quiesced == s.marks.quiesced
  {
    if seen.poison then Returned(s, POISONED)
    else if seen == ZERO then
      if s.word == ZERO then Returned(s.(word := SEALED), IDLE) else Retried(s, n)
    else if seen == Open(seen.count) then
      if s.word != seen then Retried(s, n)
      else if seen.count == 0 then Returned(s.(word := SEALED), IDLE)
      else Returned(s.(word := Armed(seen.count), marks := s.marks.(waited := true)), WAIT)
    else if seen == SEALED then Returned(s, IDLE)
    else if seen == Armed(seen.count) then
      if seen.count != 0 then Returned(s, WAIT)
      else if s.word == seen then Returned(s.(word := SEALED, marks := s.marks.(resealed := true)), IDLE)
      else Retried(s, n)
    else s.(control := Closing(Rejecting, s.control.confirm))
  }

  function Run(g: nat, s: State, steps: seq<Step>): State
    decreases |steps|
  {
    if steps == [] then s else Run(g, Apply(g, s, steps[0]), steps[1..])
  }

  // ----- Invariant -----

  function Plain(w: Word): Word { w.(poison := false) }

  /** The words the protocol may show: unused, OPEN, drained SEALED or SEALED|WAKE_ARMED,
      each possibly with POISON. */
  predicate Legal(w: Word) {
    && w.count < INFLIGHT
    && (Plain(w) == ZERO || Plain(w) == Open(w.count) || Plain(w) == SEALED || Plain(w) == Armed(w.count))
  }

  predicate Tainted(s: State) { s.tally.peak == INFLIGHT - 1 || s.marks.identityLost }

  ghost predicate WordInv(s: State) {
    && Legal(s.word)
    && s.word.count == |VisitsInside(s)| == s.tally.enters - s.tally.exits
    && s.word.count <= s.tally.peak < INFLIGHT
    && (s.word.poison ==> Tainted(s))
  }

  ghost predicate VisitInv(s: State, visit: Visit) {
    && (visit.Loaded? ==> Legal(visit.seen) && visit.seen.count <= s.tally.peak)
    && (visit.Exited? ==> Legal(visit.seen) && visit.seen.count >= 1)
    && (visit.Condemning? ==> Tainted(s))
    && (visit.Notified? ==> s.tally.wakes > 0)
  }

  ghost predicate VisitsInv(s: State) {
    forall v :: v in s.visits ==> VisitInv(s, s.visits[v])
  }

  ghost predicate LoopInv(g: nat, s: State, loop: Loop) {
    && !loop.Rejecting?
    && (!loop.Binding? ==> s.bound == g)
    && (loop.Chosen? ==> Legal(loop.seen) && (Plain(loop.seen) != ZERO ==> Plain(s.word) != ZERO))
  }

  ghost predicate BindInv(g: nat, s: State) {
    && g != 0
    && (s.bound == 0 || s.bound == g)
    && (s.published || s.visits != map[] ==> s.marks.everOpened)
    && (s.marks.everOpened ==> Plain(s.word) != ZERO)
    && (Plain(s.word) != ZERO ==> s.bound == g)
    && (s.control.Opening? || s.control.Closing? ==> LoopInv(g, s, s.control.loop))
    && (s.control.Verifying? || s.control.AwaitingWake? ==> s.bound == g)
  }

  ghost predicate WakeInv(s: State) {
    && s.tally.lastExits <= 1
    && |Emitters(s)| + s.tally.wakes <= s.tally.lastExits
    && s.tally.wakesRead <= s.tally.wakes
    && (s.marks.waited ==> s.word.isSealed)
    && (s.word.armed ==> s.marks.waited)
    && (s.tally.lastExits == 1 ==> s.marks.waited && s.word.count == 0)
    && (s.marks.waited && s.word.count == 0 && !s.word.poison ==> s.tally.lastExits == 1)
    && (s.tally.lastExits == 1 && s.tally.wakes == 0 && !s.marks.resealed ==> Plain(s.word) == Armed(0))
  }

  ghost predicate QuiesceInv(g: nat, s: State) {
    s.marks.quiesced ==> s.bound == g && Plain(s.word) == SEALED
  }

  ghost predicate Inv(g: nat, s: State) {
    WordInv(s) && VisitsInv(s) && BindInv(g, s) && WakeInv(s) && QuiesceInv(g, s)
  }

  lemma MoveSets(s: State, v: nat, to: Visit)
    ensures VisitsInside(Move(s, v, to)) ==
            if to.Inside? then VisitsInside(s) + {v} else VisitsInside(s) - {v}
    ensures !to.Notifying? && !to.Exited? ==> Emitters(Move(s, v, to)) == Emitters(s) - {v}
    ensures to.Notifying? || (to.Exited? && to.seen == Armed(1)) ==>
              Emitters(Move(s, v, to)) == Emitters(s) + {v}
    ensures to.Exited? && to.seen != Armed(1) ==>
              Emitters(Move(s, v, to)) == Emitters(s) - {v}
  {}

  lemma VisitsKept(s: State, t: State, v: nat, to: Visit)
    requires VisitsInv(s) && t.visits == s.visits[v := to]
    requires s.tally.peak <= t.tally.peak < INFLIGHT && (s.marks.identityLost ==> t.marks.identityLost)
    requires s.tally.wakes <= t.tally.wakes && VisitInv(t, to)
    ensures VisitsInv(t)
  {
    forall u | u in t.visits ensures VisitInv(t, t.visits[u]) {
      if u != v { assert VisitInv(s, s.visits[u]); }
    }
  }

  // A step that moves one visit and touches nothing shared.
  lemma MoveKeepsInv(g: nat, s: State, v: nat, to: Visit)
    requires Inv(g, s) && s.marks.everOpened
    requires v in s.visits ==> !s.visits[v].Inside?
    requires !to.Inside? && VisitInv(s, to)
    requires to.Notifying? ==> v in Emitters(s)
    requires !to.Exited?
    ensures Inv(g, Move(s, v, to))
  {
    MoveSets(s, v, to);
    VisitsKept(s, Move(s, v, to), v, to);
    assert VisitsInside(Move(s, v, to)) == VisitsInside(s);
    assert Emitters(Move(s, v, to)) <= Emitters(s);
    SubsetSize(Emitters(Move(s, v, to)), Emitters(s));
  }

  lemma SubsetSize(a: set<nat>, b: set<nat>)
    requires a <= b
    ensures |a| <= |b|
  {
    assert b == a + (b - a);
  }

  lemma EnterKeepsInv(g: nat, s: State, v: nat, attempt: nat)
    requires Inv(g, s) && v in s.visits && s.visits[v] == Loaded(attempt, s.word)
    requires s.word == Open(s.word.count) && s.word.count < INFLIGHT - 1
    ensures Inv(g, DecidedVisit(s, v, attempt, s.word))
  {
    var t := DecidedVisit(s, v, attempt, s.word);
    MoveSets(s, v, Inside);
    assert VisitsInside(t) == VisitsInside(s) + {v} && Emitters(t) == Emitters(s);
    VisitsKept(s, t, v, Inside);
  }

  lemma DecideKeepsInv(g: nat, s: State, v: nat, attempt: nat, seen: Word)
    requires Inv(g, s) && v in s.visits && s.visits[v] == Loaded(attempt, seen)
    ensures Inv(g, DecidedVisit(s, v, attempt, seen))
  {
    assert VisitInv(s, s.visits[v]);
    if seen.poison || seen != Open(seen.count) {
      MoveKeepsInv(g, s, v, Finished);
    } else if seen.count == INFLIGHT - 1 {
      MoveKeepsInv(g, s, v, Condemning);
    } else if s.word == seen {
      EnterKeepsInv(g, s, v, attempt);
    } else {
      MoveKeepsInv(g, s, v, if attempt + 1 < CAS_ATTEMPTS then Entering(attempt + 1) else Finished);
    }
  }

  lemma LeaveKeepsInv(g: nat, s: State, v: nat)
    requires Inv(g, s) && v in s.visits && s.visits[v].Inside?
    ensures Inv(g, LeftVisit(s, v))
  {
    var t := LeftVisit(s, v);
    MoveSets(s, v, t.visits[v]);
    assert v in VisitsInside(s);
    assert VisitsInside(t) == VisitsInside(s) - {v};
    assert Emitters(t) == if s.word == Armed(1) then Emitters(s) + {v} else Emitters(s);
    VisitsKept(s, t, v, Exited(s.word));
  }

  lemma ClassifyKeepsInv(g: nat, s: State, v: nat, seen: Word)
    requires Inv(g, s) && v in s.visits && s.visits[v] == Exited(seen)
    ensures Inv(g, ClassifiedVisit(g, s, v, seen))
  {
    assert VisitInv(s, s.visits[v]);
    if seen == Armed(1) {
      assert v in Emitters(s);
      MoveKeepsInv(g, s, v, Notifying);
    } else {
      MoveKeepsInv(g, s, v, Finished);
    }
  }

  lemma NotifyKeepsInv(g: nat, s: State, v: nat, identity: bool, accepted: bool)
    requires Inv(g, s) && v in s.visits && s.visits[v].Notifying?
    ensures Inv(g, NotifiedVisit(s, v, identity, accepted))
  {
    var t := NotifiedVisit(s, v, identity, accepted);
    MoveSets(s, v, t.visits[v]);
    assert v in Emitters(s);
    assert VisitsInside(t) == VisitsInside(s) && Emitters(t) == Emitters(s) - {v};
    VisitsKept(s, t, v, t.visits[v]);
  }

  lemma DisarmKeepsInv(g: nat, s: State, v: nat)
    requires Inv(g, s) && v in s.visits && s.visits[v].Notified?
    ensures Inv(g, VisitApply(g, s, v, Disarm))
  {
    assert VisitInv(s, s.visits[v]);
    MoveKeepsInv(g, s, v, Finished);
    if s.word == Armed(0) { SealKeepsInv(g, Move(s, v, Finished)); }
  }

  lemma CondemnKeepsInv(g: nat, s: State, v: nat)
    requires Inv(g, s) && v in s.visits && s.visits[v].Condemning?
    ensures Inv(g, VisitApply(g, s, v, Condemn))
  {
    assert VisitInv(s, s.visits[v]);
    MoveKeepsInv(g, s, v, Finished);
    var t := Move(s, v, Finished);
    var u := VisitApply(g, s, v, Condemn);
    assert VisitsInside(u) == VisitsInside(t) && Emitters(u) == Emitters(t);
    forall w | w in u.visits ensures VisitInv(u, u.visits[w]) { assert VisitInv(t, t.visits[w]); }
  }

  lemma VisitKeepsInv(g: nat, s: State, v: nat, step: VisitStep)
    requires Inv(g, s)
    ensures Inv(g, VisitApply(g, s, v, step))
  {
    if v !in s.visits {
      if step.Begin? && s.published { MoveKeepsInv(g, s, v, Comparing); }
    } else {
      match (s.visits[v], step)
      case (Comparing, Compare) => MoveKeepsInv(g, s, v, Entering(0));
      case (Entering(attempt), Load) => MoveKeepsInv(g, s, v, Loaded(attempt, s.word));
      case (Loaded(attempt, seen), Decide) => DecideKeepsInv(g, s, v, attempt, seen);
      case (Inside, Leave) => LeaveKeepsInv(g, s, v);
      case (Exited(seen), Classify) => ClassifyKeepsInv(g, s, v, seen);
      case (Notifying, Notify(identity, accepted)) => NotifyKeepsInv(g, s, v, identity, accepted);
      case (Notified, Disarm) => DisarmKeepsInv(g, s, v);
      case (Condemning, Condemn) => CondemnKeepsInv(g, s, v);
      case _ =>
    }
  }

  lemma SharedKept(s: State, t: State)
    requires WordInv(s) && VisitsInv(s) && t.visits == s.visits && t.tally.enters == s.tally.enters
    requires t.tally.exits == s.tally.exits
    requires t.tally.peak == s.tally.peak && t.marks.identityLost == s.marks.identityLost
    requires t.tally.wakes == s.tally.wakes
    requires t.word.count == s.word.count && t.word.poison == s.word.poison && Legal(t.word)
    ensures WordInv(t) && VisitsInv(t) && Emitters(t) == Emitters(s)
  {
    assert VisitsInside(t) == VisitsInside(s);
    forall u | u in t.visits ensures VisitInv(t, t.visits[u]) { assert VisitInv(s, s.visits[u]); }
  }

  lemma SealKeepsInv(g: nat, s: State)
    requires Inv(g, s) && s.bound == g
    requires s.word == ZERO || s.word == Open(0) || (s.word == Armed(0) && (s.tally.wakes > 0 || s.marks.resealed))
    ensures Inv(g, s.(word := SEALED))
  {
    SharedKept(s, s.(word := SEALED));
  }

  lemma ArmKeepsInv(g: nat, s: State)
    requires Inv(g, s) && s.word == Open(s.word.count) && s.word.count > 0
    ensures Inv(g, s.(word := Armed(s.word.count), marks := s.marks.(waited := true)))
  {
    SharedKept(s, s.(word := Armed(s.word.count), marks := s.marks.(waited := true)));
  }

  lemma OpenKeepsInv(g: nat, s: State)
    requires Inv(g, s) && s.bound == g && s.word == ZERO
    ensures Inv(g, s.(word := Open(0)))
  {
    SharedKept(s, s.(word := Open(0)));
  }

  // A step of the controller that leaves the gate word alone.
  lemma ControlMoveKeepsInv(g: nat, s: State, t: State)
    requires Inv(g, s)
    requires t == s.(control := t.control, marks := s.marks.(everOpened := t.marks.everOpened),
        published := t.published)
    requires BindInv(g, t)
    ensures Inv(g, t)
  {
    SharedKept(s, t);
  }

  lemma ReturnedKeepsInv(g: nat, s: State, result: Result)
    requires Inv(g, s) && s.bound == g && (s.control.Opening? || s.control.Closing?)
    requires result == OPENED ==> Plain(s.word) != ZERO
    ensures Inv(g, Returned(s, result))
  {
    var t := Returned(s, result);
    if s.control.Opening? {
      assert t == s.(control := Resting, marks := s.marks.(everOpened := s.marks.everOpened || result == OPENED));
    } else {
      assert t == s.(control := t.control) && !t.control.Opening? && !t.control.Closing?;
    }
    ControlMoveKeepsInv(g, s, t);
  }

  lemma RetriedKeepsInv(g: nat, s: State, n: nat)
    requires Inv(g, s) && s.bound == g && (s.control.Opening? || s.control.Closing?)
    ensures Inv(g, Retried(s, n))
  {
    if n + 1 < CAS_ATTEMPTS {
      ControlMoveKeepsInv(g, s, Retried(s, n));
    } else {
      ReturnedKeepsInv(g, s, MISMATCH);
    }
  }

  lemma DecideOpenKeepsInv(g: nat, s: State, n: nat, seen: Word)
    requires Inv(g, s) && s.control == Opening(Chosen(n, seen))
    ensures Inv(g, DecidedOpen(s, n, seen))
  {
    if seen.poison { ReturnedKeepsInv(g, s, POISONED); }
    else if seen == Open(seen.count) { ReturnedKeepsInv(g, s, OPENED); }
    else if seen != ZERO { ReturnedKeepsInv(g, s, MISMATCH); }
    else if s.word == ZERO {
      OpenKeepsInv(g, s);
      ReturnedKeepsInv(g, s.(word := Open(0)), OPENED);
    }
    else { RetriedKeepsInv(g, s, n); }
  }

  lemma SealReturnedKeepsInv(g: nat, s: State)
    requires Inv(g, s) && s.bound == g && s.control.Closing?
    requires s.word == ZERO || s.word == Open(0) || (s.word == Armed(0) && s.marks.resealed)
    ensures Inv(g, Returned(s.(word := SEALED), IDLE))
  {
    SealKeepsInv(g, s);
    ReturnedKeepsInv(g, s.(word := SEALED), IDLE);
  }

  lemma ArmReturnedKeepsInv(g: nat, s: State)
    requires Inv(g, s) && s.bound == g && s.control.Closing? && s.word == Open(s.word.count) && s.word.count > 0
    ensures Inv(g, Returned(s.(word := Armed(s.word.count), marks := s.marks.(waited := true)), WAIT))
  {
    ArmKeepsInv(g, s);
    ReturnedKeepsInv(g, s.(word := Armed(s.word.count), marks := s.marks.(waited := true)), WAIT);
  }

  lemma DecideCloseKeepsInv(g: nat, s: State, n: nat, seen: Word)
    requires Inv(g, s) && s.control.Closing? && s.control.loop == Chosen(n, seen)
    ensures Inv(g, DecidedClose(s, n, seen))
  {
    if seen.poison { ReturnedKeepsInv(g, s, POISONED); }
    else if seen == SEALED { ReturnedKeepsInv(g, s, IDLE); }
    else if seen == Armed(seen.count) && seen.count != 0 { ReturnedKeepsInv(g, s, WAIT); }
    else if s.word != seen { RetriedKeepsInv(g, s, n); }
    else if seen == Open(seen.count) && seen.count != 0 { ArmReturnedKeepsInv(g, s); }
    else if seen == Armed(0) {
      SharedKept(s, s.(marks := s.marks.(resealed := true)));
      SealReturnedKeepsInv(g, s.(marks := s.marks.(resealed := true)));
    }
    else { SealReturnedKeepsInv(g, s); }
  }

  lemma BindKeepsInv(g: nat, s: State)
    requires Inv(g, s)
    ensures Inv(g, BoundControl(g, s))
  {
    if s.control == Opening(Binding) {
      SharedKept(s, s.(bound := g, control := Opening(Attempt(0))));
    } else if s.control.Closing? && s.control.loop.Binding? {
      SharedKept(s, s.(bound := g, control := Closing(Attempt(0), s.control.confirm)));
    }
  }

  lemma ControlLoadKeepsInv(g: nat, s: State)
    requires Inv(g, s)
    ensures Inv(g, LoadedControl(s))
  {
    ControlMoveKeepsInv(g, s, LoadedControl(s));
  }

  lemma WakeKeepsInv(g: nat, s: State, step: ControlStep)
    requires Inv(g, s) && (step.ReadWake? || step.Verify?)
    ensures Inv(g, ControlApply(g, s, step))
  {
    SharedKept(s, ControlApply(g, s, step));
  }

  lemma OuterStepKeepsInv(g: nat, s: State, step: ControlStep)
    requires Inv(g, s)
    requires step.Publish? || step.Unpublish? || step.StartOpen? || step.StartClose? || step.GiveUp?
    ensures Inv(g, ControlApply(g, s, step))
  {
    ControlMoveKeepsInv(g, s, ControlApply(g, s, step));
  }

  lemma ControlKeepsInv(g: nat, s: State, step: ControlStep)
    requires Inv(g, s)
    ensures Inv(g, ControlApply(g, s, step))
  {
    match step
    case Bind => BindKeepsInv(g, s);
    case ControlLoad => ControlLoadKeepsInv(g, s);
    case ControlDecide =>
      if s.control.Opening? && s.control.loop.Chosen? {
        DecideOpenKeepsInv(g, s, s.control.loop.n, s.control.loop.seen);
      } else if s.control.Closing? && s.control.loop.Chosen? {
        DecideCloseKeepsInv(g, s, s.control.loop.n, s.control.loop.seen);
      }
    case ControlCondemn =>
    case ReadWake => WakeKeepsInv(g, s, step);
    case Verify => WakeKeepsInv(g, s, step);
    case _ => OuterStepKeepsInv(g, s, step);
  }

  lemma ApplyKeepsInv(g: nat, s: State, step: Step)
    requires Inv(g, s)
    ensures Inv(g, Apply(g, s, step))
  {
    match step
    case ByVisit(v, a) => VisitKeepsInv(g, s, v, a);
    case ByControl(a) => ControlKeepsInv(g, s, a);
  }

  lemma {:induction false} RunKeepsInv(g: nat, s: State, steps: seq<Step>)
    requires Inv(g, s)
    ensures Inv(g, Run(g, s, steps))
    decreases |steps|
  {
    if steps != [] {
      ApplyKeepsInv(g, s, steps[0]);
      RunKeepsInv(g, Apply(g, s, steps[0]), steps[1..]);
    }
  }

  lemma ReachableInv(g: nat, steps: seq<Step>)
    requires g != 0
    ensures Inv(g, Run(g, Init(), steps))
  {
    assert VisitsInside(Init()) == {} && Emitters(Init()) == {};
    RunKeepsInv(g, Init(), steps);
  }

  // ----- Theorems over every run -----

  /** In every interleaving the word is one of the legal ones, its in-flight field counts exactly
      the visits that entered and have not left, and a visit compares generations only against a
      bound gate, so the unbound-generation POISON branch is never taken. */
  lemma InflightIsExact(g: nat, steps: seq<Step>)
    requires g != 0
    ensures var s := Run(g, Init(), steps);
      && Legal(s.word)
      && s.word.count == |VisitsInside(s)| == s.tally.enters - s.tally.exits
      && (s.visits != map[] ==> s.bound == g)
      && (s.word.poison ==> s.tally.peak == INFLIGHT - 1 || s.marks.identityLost)
  {
    ReachableInv(g, steps);
  }

  lemma {:induction false} SealedRun(g: nat, s: State, steps: seq<Step>)
    requires Inv(g, s) && s.marks.quiesced
    ensures Run(g, s, steps).marks.quiesced && Run(g, s, steps).tally.enters == s.tally.enters
    decreases |steps|
  {
    if steps != [] {
      ApplyKeepsInv(g, s, steps[0]);
      SealedRun(g, Apply(g, s, steps[0]), steps[1..]);
    }
  }

  /** Once a Quiesce has succeeded nobody is inside, and whatever runs afterwards no enter
      ever succeeds again. */
  lemma QuiesceIsFinal(g: nat, before: seq<Step>, after: seq<Step>)
    requires g != 0 && Run(g, Init(), before).marks.quiesced
    ensures var s := Run(g, Init(), before);
      && VisitsInside(s) == {}
      && VisitsInside(Run(g, s, after)) == {}
      && Run(g, s, after).tally.enters == s.tally.enters
  {
    var s := Run(g, Init(), before);
    ReachableInv(g, before);
    RunKeepsInv(g, s, after);
    SealedRun(g, s, after);
    EmptyWhenDrained(s);
    EmptyWhenDrained(Run(g, s, after));
  }

  lemma EmptyWhenDrained(s: State)
    requires WordInv(s) && s.word.count == 0
    ensures VisitsInside(s) == {}
  {}

  /** One CLOSE that had to wait produces exactly one last exit: none while a visit is still
      inside, one as soon as the last has left. At most one wake record is ever emitted,
      and only after that exit; while none was, as when the ring refused it, the word rests at
      SEALED|WAKE_ARMED until a later CLOSE seals it. */
  lemma OneWake(g: nat, steps: seq<Step>)
    requires g != 0
    ensures var s := Run(g, Init(), steps);
      && s.tally.wakesRead <= s.tally.wakes <= s.tally.lastExits <= 1
      && (s.tally.wakes == 1 ==> s.marks.waited && VisitsInside(s) == {})
      && (s.marks.waited && VisitsInside(s) != {} ==> s.tally.lastExits == 0 && s.tally.wakes == 0)
      && (s.marks.waited && VisitsInside(s) == {} && !s.word.poison ==>
            s.tally.lastExits == 1 && (s.word == Armed(0) || s.word == SEALED))
      && (s.tally.lastExits == 1 && s.tally.wakes == 0 && !s.marks.resealed && !s.word.poison ==> s.word == Armed(0))
  {
    var s := Run(g, Init(), steps);
    ReachableInv(g, steps);
    if s.word.count == 0 { EmptyWhenDrained(s); }
  }

  /** One CLOSE that meets no contention, followed by the verification of the word it left. */
  function UncontendedClose(g: nat, s: State): State {
    var chosen := ControlApply(g, ControlApply(g, ControlApply(g, s, StartClose), Bind), ControlLoad);
    ControlApply(g, ControlApply(g, chosen, ControlDecide), Verify)
  }

  /** A wake that was lost (the ring refused it, or userspace gave up) does not block the gate:
      from any reachable unpoisoned state with nobody inside, one uncontended CLOSE quiesces. */
  lemma LostWakeStillCloses(g: nat, steps: seq<Step>)
    requires g != 0
    requires var s := Run(g, Init(), steps);
      s.control.Resting? && !s.word.poison && VisitsInside(s) == {}
    ensures UncontendedClose(g, Run(g, Init(), steps)).marks.quiesced
  {
    ReachableInv(g, steps);
    DrainedClose(g, Run(g, Init(), steps));
  }

  lemma DrainedClose(g: nat, s: State)
    requires s.control.Resting? && (s.bound == 0 || s.bound == g)
    requires s.word == ZERO || s.word == Open(0) || s.word == SEALED || s.word == Armed(0)
    ensures UncontendedClose(g, s).marks.quiesced
  {
    var chosen := s.(bound := g, control := Closing(Chosen(0, s.word), false));
    assert ControlApply(g, ControlApply(g, ControlApply(g, s, StartClose), Bind), ControlLoad) == chosen;
    DrainedDecides(chosen, s.word);
  }

  lemma DrainedDecides(s: State, seen: Word)
    requires s.control == Closing(Chosen(0, seen), false) && s.word == seen
    requires seen == ZERO || seen == Open(0) || seen == SEALED || seen == Armed(0)
    ensures var t := DecidedClose(s, 0, seen); t.bound == s.bound && t.word == SEALED && t.control == Verifying
  {}
}
