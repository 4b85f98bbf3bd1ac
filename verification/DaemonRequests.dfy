/** The request and acknowledgement files between daemon clients and the daemon. Clients enqueue
    under a lock, wait, withdraw and consume; the daemon scans, rejects, runs, acknowledges and
    prunes. Every file operation is one step, every process may die between two of its steps, and
    a restarted daemon has a new instance ID. */
module DaemonRequests {

  const MAX_PENDING: nat := 256

  datatype Kind = STOP | RELOAD

  datatype Request = Request(kind: Kind, instance: nat)

  /** An acknowledgement names the daemon that wrote it and says whether that was another instance. */
  datatype Ack = Ack(kind: Kind, instance: nat, changed: bool)

  /** What a reader demands of an acknowledgement before it trusts it. */
  predicate AckFits(a: Ack, r: Request) { a.kind == r.kind && (a.changed <==> a.instance != r.instance) }

  datatype Job = Job(id: nat, request: Request)

  /** Where a client stands. The identifier it draws is new: 128 random bits. */
  datatype Client =
    | Outside
    | Locked                     // holds the queue lock
    | Counted                    // holds it and saw fewer than the maximum
    | Waiting(id: nat)
    | Acked(id: nat)             // read its ack, about to look for the request file
    | Consuming(id: nat)         // the request file is gone, about to remove the ack
    | Left

  /** Where the daemon stands. `acked` says whether the ack of the first job is written and its request
      file is about to be removed. */
  datatype Phase =
    | Idle
    | Scanning(todo: set<nat>, pending: seq<Job>)
    | Reading(todo: set<nat>, pending: seq<Job>, job: Job)     // read a request, about to look for its ack
    | Dropping(todo: set<nat>, pending: seq<Job>, id: nat)     // it has one: about to remove the request
    | Rejecting(rejects: seq<Job>, acked: bool, stops: seq<Job>, reloads: seq<Job>)
    | Reloading(reloads: seq<Job>, ran: bool, acked: bool)
    | Stopping(rest: seq<Job>, acked: bool)                    // shut down; only acks are left
    | Pruning(id: nat, stopped: bool)                          // its request file is gone, about to remove the ack

  datatype Daemon = Down | Up(instance: nat, phase: Phase)

  /** What has happened so far, which no process reads. */
  datatype Past = Past(
    issued: map<nat, Request>,     // every request ever written
    used: set<nat>,                // every instance ID ever used
    executed: map<nat, nat>,       // request -> number of times it was executed
    executor: map<nat, nat>,       // request -> instance that executed it last
    superseded: set<nat>)          // reloads that met a stop in their batch

  datatype State = State(
    requests: map<nat, Request>,   // request files
    acks: map<nat, Ack>,           // ack files
    daemon: Daemon,
    clients: map<nat, Client>,
    past: Past)

  function Init(): State { State(map[], map[], Down, map[], Past(map[], {}, map[], map[], {})) }

  function Ids(jobs: seq<Job>): set<nat> { set j | j in jobs :: j.id }

  function Times(s: State, id: nat): nat { if id in s.past.executed then s.past.executed[id] else 0 }

  function Ran(s: State, id: nat, instance: nat): State {
    s.(past := s.past.(
         executed := s.past.executed[id := Times(s, id) + 1], executor := s.past.executor[id := instance]))
  }

  function RanAll(s: State, jobs: seq<Job>, instance: nat): (t: State)
    ensures t == s.(past := s.past.(executed := t.past.executed, executor := t.past.executor))
    decreases |jobs|
  {
    if jobs == [] then s else RanAll(Ran(s, jobs[0].id, instance), jobs[1..], instance)
  }

  function InPhase(s: State, phase: Phase): State
    requires s.daemon.Up?
  {
    s.(daemon := Up(s.daemon.instance, phase))
  }

  // ----- Daemon steps -----

  datatype DaemonStep =
    | Start(instance: nat) | Die
    | Scan | ReadRequest(id: nat) | CheckAck | DropRequest
    | Partition(misconfigured: set<nat>)
    | WriteAck | RemoveRequest | GiveUp
    | Shutdown | BeginReloads | RunReload | Finish
    | CheckPrune(id: nat) | PruneAck

  function Filter(jobs: seq<Job>, mine: nat, bad: set<nat>, wanted: int): seq<Job> {
    if jobs == [] then []
    else
      var j := jobs[0];
      var sort := if j.request.instance != mine || j.id in bad then 0 else if j.request.kind == STOP then 1 else 2;
      (if sort == wanted then [j] else []) + Filter(jobs[1..], mine, bad, wanted)
  }

  // The request file the daemon removes when this phase moves on.
  function Removing(p: Phase): set<nat> {
    match p
    case Dropping(_, _, id) => {id}
    case Rejecting(rejects, acked, _, _) => if acked && rejects != [] then {rejects[0].id} else {}
    case Reloading(reloads, _, acked) => if acked && reloads != [] then {reloads[0].id} else {}
    case Stopping(rest, acked) => if acked && rest != [] then {rest[0].id} else {}
    case _ => {}
  }

  function DaemonApply(s: State, step: DaemonStep): (t: State)
    ensures t.requests == s.requests || (s.daemon.Up? && t.requests == s.requests - Removing(s.daemon.phase))
    ensures forall id :: id in s.acks ==>
              id in t.acks || (s.daemon.Up? && s.daemon.phase.Pruning? && s.daemon.phase.id == id)
  {
    if step.Start? then
      if s.daemon.Down? && step.instance !in s.past.used then
        s.(daemon := Up(step.instance, Idle), past := s.past.(used := s.past.used + {step.instance}))
      else s
    else if s.daemon.Down? then s
    else if step.Die? then s.(daemon := Down)
    else UpApply(s, step)
  }

  function UpApply(s: State, step: DaemonStep): (t: State)
    requires s.daemon.Up?
    ensures t.requests == s.requests || t.requests == s.requests - Removing(s.daemon.phase)
    ensures forall id :: id in s.acks ==> id in t.acks || (s.daemon.phase.Pruning? && s.daemon.phase.id == id)
  {
    match s.daemon.phase
    case Idle => IdleApply(s, step)
    case Scanning(todo, pending) => ScanApply(s, todo, pending, step)
    case Reading(todo, pending, job) => if step.CheckAck? then LookedForAck(s, todo, pending, job) else s
    case Dropping(todo, pending, id) => if step.DropRequest? then Dropped(s, todo, pending, id) else s
    case Rejecting(rejects, acked, stops, reloads) => RejectApply(s, rejects, acked, stops, reloads, step)
    case Reloading(reloads, ran, acked) => ReloadApply(s, reloads, ran, acked, step)
    case Stopping(rest, acked) => StopApply(s, rest, acked, step)
    case Pruning(id, stopped) => if step.PruneAck? then Pruned(s, id, stopped) else s
  }

  function IdleApply(s: State, step: DaemonStep): (t: State)
    requires s.daemon.Up?
    ensures t.requests == s.requests && t.acks == s.acks
  {
    if step.Scan? then InPhase(s, Scanning(s.requests.Keys, []))
    else if step.CheckPrune? then PruneNext(s, step.id, false)
    else s
  }

  function LookedForAck(s: State, todo: set<nat>, pending: seq<Job>, job: Job): State
    requires s.daemon.Up?
  {
    InPhase(s, if job.id in s.acks then Dropping(todo, pending, job.id) else Scanning(todo, pending + [job]))
  }

  function Dropped(s: State, todo: set<nat>, pending: seq<Job>, id: nat): State
    requires s.daemon.Up?
  {
    InPhase(s, Scanning(todo, pending)).(requests := s.requests - {id})
  }

  function Pruned(s: State, id: nat, stopped: bool): State
    requires s.daemon.Up?
  {
    InPhase(s, if stopped then Stopping([], false) else Idle).(acks := s.acks - {id})
  }

  function PruneNext(s: State, id: nat, stopped: bool): (t: State)
    requires s.daemon.Up?
    ensures t.requests == s.requests && t.acks == s.acks
  {
    if id in s.acks && id !in s.requests then InPhase(s, Pruning(id, stopped)) else s
  }

  function ScanApply(s: State, todo: set<nat>, pending: seq<Job>, step: DaemonStep): (t: State)
    requires s.daemon.Up?
    ensures t.requests == s.requests && t.acks == s.acks
  {
    if step.ReadRequest? && step.id in todo then
      if step.id in s.requests then InPhase(s, Reading(todo - {step.id}, pending, Job(step.id, s.requests[step.id])))
      else InPhase(s, Scanning(todo - {step.id}, pending))
    else if step.Partition? && todo == {} then
      Partitioned(s, pending, step.misconfigured)
    else s
  }

  // The batch falls into rejects, stops and reloads; with a stop in it, the reloads are superseded.
  function Partitioned(s: State, pending: seq<Job>, bad: set<nat>): (t: State)
    requires s.daemon.Up?
    ensures t.requests == s.requests && t.acks == s.acks
  {
    var mine := s.daemon.instance;
    var rejects, stops := Filter(pending, mine, bad, 0), Filter(pending, mine, bad, 1);
    var reloads := Filter(pending, mine, bad, 2);
    Superseded(InPhase(s, Rejecting(rejects, false, stops, reloads)), if stops == [] then {} else Ids(reloads))
  }

  function Superseded(s: State, ids: set<nat>): State {
    s.(past := s.past.(superseded := s.past.superseded + ids))
  }

  function Answered(s: State, j: Job): State
    requires s.daemon.Up?
  {
    s.(acks := s.acks[j.id := Ack(j.request.kind, s.daemon.instance, j.request.instance != s.daemon.instance)])
  }

  // Everything stops; the stops were executed, and the reloads of the batch never will be.
  function ShutDown(s: State, stops: seq<Job>, reloads: seq<Job>): State
    requires s.daemon.Up?
  {
    InPhase(RanAll(s, stops, s.daemon.instance), Stopping(reloads + stops, false))
  }

  function RejectApply(s: State, rejects: seq<Job>, acked: bool, stops: seq<Job>, reloads: seq<Job>,
                       step: DaemonStep): (t: State)
    requires s.daemon.Up?
    ensures t.requests == s.requests || (acked && rejects != [] && t.requests == s.requests - {rejects[0].id})
    ensures s.acks.Keys <= t.acks.Keys
  {
    if rejects != [] then
      if step.WriteAck? && !acked then InPhase(Answered(s, rejects[0]), Rejecting(rejects, true, stops, reloads))
      else if step.RemoveRequest? && acked then
        InPhase(s, Rejecting(rejects[1..], false, stops, reloads)).(requests := s.requests - {rejects[0].id})
      else s
    else if stops != [] then
      if step.Shutdown? then
        ShutDown(s, stops, reloads)
      else s
    else if step.BeginReloads? then InPhase(s, Reloading(reloads, false, false))
    else s
  }

  function ReloadApply(s: State, reloads: seq<Job>, ran: bool, acked: bool, step: DaemonStep): (t: State)
    requires s.daemon.Up?
    ensures t.requests == s.requests || (acked && reloads != [] && t.requests == s.requests - {reloads[0].id})
    ensures s.acks.Keys <= t.acks.Keys
  {
    if reloads == [] then
      if step.Finish? then InPhase(s, Idle) else s
    else if step.RunReload? && !ran then
      InPhase(Ran(s, reloads[0].id, s.daemon.instance), Reloading(reloads, true, false))
    else if step.WriteAck? && ran && !acked then InPhase(Answered(s, reloads[0]), Reloading(reloads, true, true))
    else if step.RemoveRequest? && acked then
      InPhase(s, Reloading(reloads[1..], false, false)).(requests := s.requests - {reloads[0].id})
    else s
  }

  function StopApply(s: State, rest: seq<Job>, acked: bool, step: DaemonStep): (t: State)
    requires s.daemon.Up?
    ensures t.requests == s.requests || (acked && rest != [] && t.requests == s.requests - {rest[0].id})
    ensures s.acks.Keys <= t.acks.Keys
  {
    if rest == [] then
      if step.CheckPrune? then PruneNext(s, step.id, true) else s
    else if step.GiveUp? then InPhase(s, Stopping(rest[1..], false))
    else if step.WriteAck? && !acked then InPhase(Answered(s, rest[0]), Stopping(rest, true))
    else if step.RemoveRequest? && acked then
      InPhase(s, Stopping(rest[1..], false)).(requests := s.requests - {rest[0].id})
    else s
  }

  // ----- Client steps -----

  datatype ClientStep =
    | Lock | Count | Write(id: nat, kind: Kind, instance: nat) | ReadAck | Withdraw | CheckGone | Consume | Quit

  predicate HoldsLock(c: Client) { c.Locked? || c.Counted? }

  ghost predicate LockFree(s: State) { forall c :: c in s.clients ==> !HoldsLock(s.clients[c]) }

  function Move(s: State, c: nat, to: Client): State { s.(clients := s.clients[c := to]) }

  // The client takes its request back if it is still there. It does so once the status file no longer
  // shows the instance it asked, which may be before that instance is really gone.
  function Withdrawn(s: State, c: nat, id: nat): State {
    Move(s.(requests := s.requests - {id}), c, if id in s.requests then Left else Waiting(id))
  }

  function Written(s: State, c: nat, id: nat, r: Request): State {
    Move(s, c, Waiting(id)).(requests := s.requests[id := r], past := s.past.(issued := s.past.issued[id := r]))
  }

  function AckTaken(s: State, c: nat, id: nat): State { Move(s.(acks := s.acks - {id}), c, Left) }

  function Standing(s: State, c: nat): Client { if c in s.clients then s.clients[c] else Outside }

  ghost function ClientApply(s: State, c: nat, step: ClientStep): (t: State)
    ensures forall id :: id in s.acks ==> id in t.acks || (c in s.clients && s.clients[c] == Consuming(id))
  {
    var now := Standing(s, c);
    match step
    case Quit => Move(s, c, Left)
    case Lock => if now.Outside? && LockFree(s) then Move(s, c, Locked) else s
    case Count => if now.Locked? then Move(s, c, if |s.requests| < MAX_PENDING then Counted else Left) else s
    case Write(id, kind, instance) =>
      if now.Counted? && id !in s.past.issued then Written(s, c, id, Request(kind, instance)) else s
    case ReadAck => if now.Waiting? && now.id in s.acks then Move(s, c, Acked(now.id)) else s
    case Withdraw => if now.Waiting? then Withdrawn(s, c, now.id) else s
    case CheckGone => if now.Acked? then Move(s, c, if now.id in s.requests then Left else Consuming(now.id)) else s
    case Consume => if now.Consuming? then AckTaken(s, c, now.id) else s
  }

  datatype Step = ByDaemon(daemonStep: DaemonStep) | ByClient(client: nat, clientStep: ClientStep)

  ghost function Apply(s: State, step: Step): State {
    match step
    case ByDaemon(a) => DaemonApply(s, a)
    case ByClient(c, a) => ClientApply(s, c, a)
  }

  ghost function Run(s: State, steps: seq<Step>): State
    decreases |steps|
  {
    if steps == [] then s else Run(Apply(s, steps[0]), steps[1..])
  }

  // ----- Invariant -----

  predicate JobsOk(s: State, jobs: seq<Job>) {
    forall j :: j in jobs ==> j.id in s.past.issued && s.past.issued[j.id] == j.request
  }

  predicate DistinctIds(jobs: seq<Job>) { forall i, k :: 0 <= i < k < |jobs| ==> jobs[i].id != jobs[k].id }

  predicate Apart(a: seq<Job>, b: seq<Job>) { forall i, k :: 0 <= i < |a| && 0 <= k < |b| ==> a[i].id != b[k].id }

  // Nothing addressed to this instance in the list has been executed.
  predicate Unrun(s: State, instance: nat, jobs: seq<Job>) {
    forall j :: j in jobs && j.request.instance == instance ==> Times(s, j.id) == 0
  }

  predicate Mine(instance: nat, jobs: seq<Job>) { forall j :: j in jobs ==> j.request.instance == instance }

  // A request file the daemon is about to remove has its ack.
  predicate AckedFirst(s: State, id: nat) { id in s.requests ==> id in s.acks }

  predicate FilesInv(s: State) {
    && |s.requests| <= MAX_PENDING
    && (forall id :: id in s.requests ==> id in s.past.issued && s.past.issued[id] == s.requests[id])
    && (forall id :: id in s.acks ==> id in s.past.issued && AckFits(s.acks[id], s.past.issued[id]))
  }

  predicate LockInv(s: State) {
    && (forall c, d :: c in s.clients && d in s.clients && HoldsLock(s.clients[c]) && HoldsLock(s.clients[d]) ==>
        c == d)
    && (forall c :: c in s.clients && s.clients[c].Counted? ==> |s.requests| < MAX_PENDING)
  }

  predicate ClientInv(s: State) {
    forall c :: c in s.clients ==>
      && (s.clients[c].Waiting? || s.clients[c].Acked? ==> s.clients[c].id in s.past.issued)
      && (s.clients[c].Consuming? ==> s.clients[c].id in s.past.issued && s.clients[c].id !in s.requests)
  }

  // Executed at most once, and by the instance the request names.
  predicate ExecInv(s: State) {
    forall id :: id in s.past.executed ==>
      && s.past.executed[id] <= 1 && id in s.past.issued && id in s.past.executor
      && s.past.executor[id] == s.past.issued[id].instance && s.past.executor[id] in s.past.used
  }

  predicate SupersededInv(s: State) {
    forall id :: id in s.past.superseded ==>
      && id in s.past.issued && Times(s, id) == 0 && s.past.issued[id].kind == RELOAD
      && s.past.issued[id].instance in s.past.used
      && (s.daemon.Up? && !Ending(s.daemon.phase) ==> s.past.issued[id].instance != s.daemon.instance)
  }

  // Jobs the daemon has executed but whose request file it has not removed yet.
  function InHand(p: Phase): set<nat> {
    match p
    case Reloading(reloads, ran, _) => if ran && reloads != [] then {reloads[0].id} else {}
    case _ => {}
  }

  // After a stop the daemon answers and prunes, and never reads another request.
  predicate Over(p: Phase) { p.Stopping? || (p.Pruning? && p.stopped) }

  // The batch holds a stop, or the stop has happened.
  predicate Ending(p: Phase) { Over(p) || (p.Rejecting? && p.stops != []) }

  predicate Handled(s: State, instance: nat, hand: set<nat>) {
    forall id :: id in s.past.executed && id in s.past.executor && s.past.executor[id] == instance ==>
      id in s.requests ==> id in hand
  }

  // Jobs read so far, none of them run by this instance or still to be read.
  predicate PendingOk(s: State, instance: nat, todo: set<nat>, pending: seq<Job>) {
    JobsOk(s, pending) && DistinctIds(pending) && Unrun(s, instance, pending) && Ids(pending) !! todo
  }

  predicate ListsInv(s: State, instance: nat, p: Phase) {
    match p
    case Idle => true
    case Scanning(todo, pending) => PendingOk(s, instance, todo, pending)
    case Reading(todo, pending, job) => PendingOk(s, instance, todo, pending + [job])
    case Dropping(todo, pending, id) =>
      PendingOk(s, instance, todo, pending) && AckedFirst(s, id) && id in s.past.issued
    case Rejecting(rejects, acked, stops, reloads) =>
      && JobsOk(s, rejects) && JobsOk(s, stops) && JobsOk(s, reloads)
      && DistinctIds(stops) && DistinctIds(reloads) && Apart(stops, reloads)
      && Mine(instance, stops) && Mine(instance, reloads) && Unrun(s, instance, stops) && Unrun(s, instance, reloads)
      && (forall j :: j in stops ==> j.request.kind == STOP)
      && (stops != [] ==> Ids(reloads) <= s.past.superseded)
      && (acked && rejects != [] ==> AckedFirst(s, rejects[0].id))
    case Reloading(reloads, ran, acked) =>
      && JobsOk(s, reloads) && DistinctIds(reloads) && Mine(instance, reloads)
      && Unrun(s, instance, if ran && reloads != [] then reloads[1..] else reloads)
      && (acked && reloads != [] ==> ran && AckedFirst(s, reloads[0].id))
    case Stopping(rest, acked) => JobsOk(s, rest) && (acked && rest != [] ==> AckedFirst(s, rest[0].id))
    case Pruning(id, _) => id in s.past.issued && id !in s.requests
  }

  predicate PhaseInv(s: State) {
    s.daemon.Up? ==>
      && s.daemon.instance in s.past.used
      && (!Over(s.daemon.phase) ==> Handled(s, s.daemon.instance, InHand(s.daemon.phase)))
      && ListsInv(s, s.daemon.instance, s.daemon.phase)
  }

  predicate Inv(s: State) {
    FilesInv(s) && LockInv(s) && ClientInv(s) && ExecInv(s) && SupersededInv(s) && PhaseInv(s)
  }

  lemma RemoveShrinks(m: map<nat, Request>, id: nat)
    ensures |m - {id}| <= |m|
  {
    var a, b := (m - {id}).Keys, m.Keys;
    assert a <= b;
    assert b == a + (b - a);
    assert |(m - {id})| == |a| && |m| == |b|;
  }

  lemma AddGrows(m: map<nat, Request>, id: nat, r: Request)
    ensures |m[id := r]| <= |m| + 1
  {
    assert m[id := r].Keys == m.Keys + {id};
    assert |m[id := r]| == |m[id := r].Keys| && |m| == |m.Keys|;
  }

  // ----- Client steps keep it -----

  // What clients may do to the files: write a request that never existed, remove requests, and remove
  // acks whose request is gone.
  predicate FilesMoved(s: State, t: State) {
    && t == s.(requests := t.requests, acks := t.acks, past := s.past.(issued := t.past.issued), clients := t.clients)
    && (forall id :: id in s.past.issued ==> id in t.past.issued && t.past.issued[id] == s.past.issued[id])
    && (forall id :: id in t.requests ==> id in s.requests || id !in s.past.issued)
    && (forall id :: id in s.acks ==> id in t.acks || id !in t.requests)
  }

  lemma DaemonUndisturbed(s: State, t: State)
    requires Inv(s) && FilesMoved(s, t)
    ensures ExecInv(t) && SupersededInv(t) && PhaseInv(t)
  {
    if s.daemon.Up? { ListsUndisturbed(s, t, s.daemon.instance, s.daemon.phase); }
  }

  lemma ListsUndisturbed(s: State, t: State, instance: nat, p: Phase)
    requires FilesMoved(s, t) && ListsInv(s, instance, p)
    ensures ListsInv(t, instance, p)
  {
    match p
    case Rejecting(rejects, acked, stops, reloads) => if acked && rejects != [] { assert rejects[0] in rejects; }
    case Reloading(reloads, ran, acked) => if acked && reloads != [] { assert reloads[0] in reloads; }
    case Stopping(rest, acked) => if acked && rest != [] { assert rest[0] in rest; }
    case _ =>
  }

  // A client that changes no file.
  lemma MoveKeepsInv(s: State, c: nat, to: Client)
    requires Inv(s)
    requires HoldsLock(to) ==> LockFree(s) || (c in s.clients && HoldsLock(s.clients[c]))
    requires to.Counted? ==> |s.requests| < MAX_PENDING
    requires to.Waiting? || to.Acked? || to.Consuming? ==> to.id in s.past.issued
    requires to.Consuming? ==> to.id !in s.requests
    ensures Inv(Move(s, c, to))
  {
    DaemonUndisturbed(s, Move(s, c, to));
  }

  lemma WriteKeepsInv(s: State, c: nat, id: nat, r: Request)
    requires Inv(s) && c in s.clients && s.clients[c].Counted? && id !in s.past.issued
    ensures Inv(Written(s, c, id, r))
  {
    var t := Written(s, c, id, r);
    AddGrows(s.requests, id, r);
    DaemonUndisturbed(s, t);
    WriteKeepsLock(s, c, id, r);
    assert FilesInv(t);
    assert ClientInv(t);
  }

  lemma WriteKeepsLock(s: State, c: nat, id: nat, r: Request)
    requires LockInv(s) && c in s.clients && s.clients[c].Counted?
    ensures LockInv(Written(s, c, id, r))
  {
    assert HoldsLock(s.clients[c]);
    assert forall d :: d in s.clients && HoldsLock(s.clients[d]) ==> d == c;
  }

  lemma RemoveKeepsInv(s: State, t: State)
    requires Inv(s) && FilesMoved(s, t) && t.clients == s.clients && t.past.issued == s.past.issued
    requires t.requests == s.requests || exists id :: t.requests == s.requests - {id}
    requires forall id :: id in t.acks ==> id in s.acks && t.acks[id] == s.acks[id]
    ensures Inv(t)
  {
    if t.requests != s.requests {
      var id :| t.requests == s.requests - {id};
      RemoveShrinks(s.requests, id);
    }
    DaemonUndisturbed(s, t);
  }

  lemma WithdrawKeepsInv(s: State, c: nat, id: nat)
    requires Inv(s) && c in s.clients && s.clients[c] == Waiting(id)
    ensures Inv(Withdrawn(s, c, id))
  {
    var t := s.(requests := s.requests - {id});
    assert id in s.past.issued;
    RequestGone(s, id);
    MoveKeepsInv(t, c, if id in s.requests then Left else Waiting(id));
  }

  lemma RequestGone(s: State, id: nat)
    requires Inv(s)
    ensures Inv(s.(requests := s.requests - {id}))
  {
    var t := s.(requests := s.requests - {id});
    assert t.requests == s.requests - {id};
    RemoveKeepsInv(s, t);
  }

  lemma AckGone(s: State, id: nat)
    requires Inv(s) && id !in s.requests
    ensures Inv(s.(acks := s.acks - {id}))
  {
    RemoveKeepsInv(s, s.(acks := s.acks - {id}));
  }

  lemma ConsumeKeepsInv(s: State, c: nat, id: nat)
    requires Inv(s) && c in s.clients && s.clients[c] == Consuming(id)
    ensures Inv(AckTaken(s, c, id))
  {
    AckGone(s, id);
    MoveKeepsInv(s.(acks := s.acks - {id}), c, Left);
  }

  lemma ClientKeepsInv(s: State, c: nat, step: ClientStep)
    requires Inv(s)
    ensures Inv(ClientApply(s, c, step))
  {
    var now := Standing(s, c);
    match step
    case Quit => MoveKeepsInv(s, c, Left);
    case Lock => if now.Outside? && LockFree(s) { MoveKeepsInv(s, c, Locked); }
    case Count => if now.Locked? { MoveKeepsInv(s, c, if |s.requests| < MAX_PENDING then Counted else Left); }
    case Write(id, kind, instance) =>
      if now.Counted? && id !in s.past.issued { WriteKeepsInv(s, c, id, Request(kind, instance)); }
    case ReadAck => if now.Waiting? && now.id in s.acks { MoveKeepsInv(s, c, Acked(now.id)); }
    case Withdraw => if now.Waiting? { WithdrawKeepsInv(s, c, now.id); }
    case CheckGone =>
      if now.Acked? { MoveKeepsInv(s, c, if now.id in s.requests then Left else Consuming(now.id)); }
    case Consume => if now.Consuming? { ConsumeKeepsInv(s, c, now.id); }
  }

  // ----- Daemon steps keep it -----

  lemma StartKeepsInv(s: State, instance: nat)
    requires Inv(s) && s.daemon.Down? && instance !in s.past.used
    ensures Inv(s.(daemon := Up(instance, Idle), past := s.past.(used := s.past.used + {instance})))
  {}

  // The daemon moves on without touching a file.
  lemma PhaseKeepsInv(s: State, p: Phase)
    requires Inv(s) && s.daemon.Up? && (Over(s.daemon.phase) ==> Over(p)) && (Ending(s.daemon.phase) ==> Ending(p))
    requires (!Over(p) ==> Handled(s, s.daemon.instance, InHand(p))) && ListsInv(s, s.daemon.instance, p)
    ensures Inv(InPhase(s, p))
  {
    ListsSame(s, InPhase(s, p), s.daemon.instance, p);
  }

  // The lists depend on the files and on what was executed, not on the daemon's own phase.
  lemma ListsSame(s: State, t: State, instance: nat, p: Phase)
    requires t == s.(daemon := t.daemon) && ListsInv(s, instance, p)
    ensures ListsInv(t, instance, p)
  {}

  lemma AnswerKeepsInv(s: State, j: Job)
    requires Inv(s) && s.daemon.Up? && j.id in s.past.issued && s.past.issued[j.id] == j.request
    ensures Inv(Answered(s, j))
  {
    DaemonUndisturbed(s, Answered(s, j));
  }

  lemma NotRunYet(s: State, id: nat)
    requires Inv(s) && s.daemon.Up? && !Over(s.daemon.phase) && InHand(s.daemon.phase) == {} && id in s.requests
    ensures s.requests[id].instance == s.daemon.instance ==> Times(s, id) == 0
  {}

  lemma ReadKeepsInv(s: State, todo: set<nat>, pending: seq<Job>, id: nat)
    requires Inv(s) && s.daemon.Up? && s.daemon.phase == Scanning(todo, pending) && id in todo && id in s.requests
    ensures Inv(InPhase(s, Reading(todo - {id}, pending, Job(id, s.requests[id]))))
  {
    NotRunYet(s, id);
    var job := Job(id, s.requests[id]);
    assert Ids(pending + [job]) == Ids(pending) + {id};
    PhaseKeepsInv(s, Reading(todo - {id}, pending, job));
  }

  lemma ScanStepKeepsInv(s: State, todo: set<nat>, pending: seq<Job>, step: DaemonStep)
    requires Inv(s) && s.daemon.Up? && s.daemon.phase == Scanning(todo, pending)
    ensures Inv(ScanApply(s, todo, pending, step))
  {
    if step.ReadRequest? && step.id in todo {
      if step.id in s.requests {
        ReadKeepsInv(s, todo, pending, step.id);
      } else {
        PhaseKeepsInv(s, Scanning(todo - {step.id}, pending));
      }
    } else if step.Partition? && todo == {} {
      PartitionKeepsInv(s, pending, step.misconfigured);
    }
  }

  lemma IdleStepKeepsInv(s: State, step: DaemonStep)
    requires Inv(s) && s.daemon.Up? && s.daemon.phase.Idle?
    ensures Inv(IdleApply(s, step))
  {
    if step.Scan? {
      PhaseKeepsInv(s, Scanning(s.requests.Keys, []));
    } else if step.CheckPrune? {
      PruneNextKeepsInv(s, step.id, false);
    }
  }

  lemma PruneNextKeepsInv(s: State, id: nat, stopped: bool)
    requires Inv(s) && s.daemon.Up? && (s.daemon.phase == Idle || Over(s.daemon.phase))
    requires (stopped <==> Over(s.daemon.phase))
    ensures Inv(PruneNext(s, id, stopped))
  {
    if id in s.acks && id !in s.requests { PhaseKeepsInv(s, Pruning(id, stopped)); }
  }

  lemma PruneKeepsInv(s: State, id: nat, stopped: bool)
    requires Inv(s) && s.daemon.Up? && s.daemon.phase == Pruning(id, stopped)
    ensures Inv(Pruned(s, id, stopped))
  {
    AckGone(s, id);
    PhaseKeepsInv(s.(acks := s.acks - {id}), if stopped then Stopping([], false) else Idle);
  }

  lemma LookedForAckKeepsInv(s: State, todo: set<nat>, pending: seq<Job>, job: Job)
    requires Inv(s) && s.daemon.Up? && s.daemon.phase == Reading(todo, pending, job)
    ensures Inv(LookedForAck(s, todo, pending, job))
  {
    if job.id in s.acks {
      assert forall j :: j in pending ==> j in pending + [job];
      assert Ids(pending) <= Ids(pending + [job]);
      assert forall i :: 0 <= i < |pending| ==> (pending + [job])[i] == pending[i];
      PhaseKeepsInv(s, Dropping(todo, pending, job.id));
    } else {
      PhaseKeepsInv(s, Scanning(todo, pending + [job]));
    }
  }

  lemma DropKeepsInv(s: State, todo: set<nat>, pending: seq<Job>, id: nat)
    requires Inv(s) && s.daemon.Up? && s.daemon.phase == Dropping(todo, pending, id)
    ensures Inv(Dropped(s, todo, pending, id))
  {
    RequestGone(s, id);
    var t := s.(requests := s.requests - {id});
    PhaseKeepsInv(t, Scanning(todo, pending));
  }

  lemma {:induction false} FilterParts(jobs: seq<Job>, mine: nat, bad: set<nat>, wanted: int)
    requires DistinctIds(jobs)
    ensures forall j :: j in Filter(jobs, mine, bad, wanted) ==> j in jobs
    ensures DistinctIds(Filter(jobs, mine, bad, wanted))
    ensures wanted != 0 ==> Mine(mine, Filter(jobs, mine, bad, wanted))
    ensures wanted != 0 ==>
              forall j :: j in Filter(jobs, mine, bad, wanted) ==> (j.request.kind == STOP <==> wanted == 1)
    decreases |jobs|
  {
    if jobs != [] {
      FilterParts(jobs[1..], mine, bad, wanted);
      var rest := Filter(jobs[1..], mine, bad, wanted);
      forall j | j in rest ensures j.id != jobs[0].id {
        assert j in jobs[1..];
        var i :| 0 <= i < |jobs[1..]| && jobs[1..][i] == j;
        assert jobs[i + 1] == j;
      }
    }
  }

  lemma PartitionKeepsInv(s: State, pending: seq<Job>, bad: set<nat>)
    requires Inv(s) && s.daemon.Up? && s.daemon.phase == Scanning({}, pending)
    ensures Inv(Partitioned(s, pending, bad))
  {
    var mine := s.daemon.instance;
    FilterParts(pending, mine, bad, 0);
    FilterParts(pending, mine, bad, 1);
    FilterParts(pending, mine, bad, 2);
    var stops, reloads := Filter(pending, mine, bad, 1), Filter(pending, mine, bad, 2);
    FilterApart(pending, stops, reloads);
    BatchKeepsInv(s, pending, Filter(pending, mine, bad, 0), stops, reloads);
  }

  lemma BatchKeepsInv(s: State, pending: seq<Job>, rejects: seq<Job>, stops: seq<Job>, reloads: seq<Job>)
    requires Inv(s) && s.daemon.Up? && s.daemon.phase == Scanning({}, pending)
    requires forall j :: j in rejects || j in stops || j in reloads ==> j in pending
    requires DistinctIds(stops) && DistinctIds(reloads) && Apart(stops, reloads)
    requires Mine(s.daemon.instance, stops) && Mine(s.daemon.instance, reloads)
    requires forall j :: j in stops ==> j.request.kind == STOP
    requires forall j :: j in reloads ==> j.request.kind == RELOAD
    ensures var ids := if stops == [] then {} else Ids(reloads);
      Inv(Superseded(InPhase(s, Rejecting(rejects, false, stops, reloads)), ids))
  {
    var ids := if stops == [] then {} else Ids(reloads);
    var t := Superseded(InPhase(s, Rejecting(rejects, false, stops, reloads)), ids);
    forall id | id in ids
      ensures id in t.past.issued && Times(t, id) == 0 && t.past.issued[id] == Request(RELOAD, s.daemon.instance)
    {
      var j :| j in reloads && j.id == id;
    }
  }

  lemma FilterApart(pending: seq<Job>, stops: seq<Job>, reloads: seq<Job>)
    requires DistinctIds(pending)
    requires forall j :: j in stops ==> j in pending && j.request.kind == STOP
    requires forall j :: j in reloads ==> j in pending && j.request.kind != STOP
    ensures Apart(stops, reloads)
  {
    forall i, k | 0 <= i < |stops| && 0 <= k < |reloads| ensures stops[i].id != reloads[k].id {
      assert stops[i] in stops && reloads[k] in reloads;
      var a :| 0 <= a < |pending| && pending[a] == stops[i];
      var b :| 0 <= b < |pending| && pending[b] == reloads[k];
      assert a != b;
    }
  }

  // Answer the first job of a list, or remove its answered request: the two halves of every reply.
  lemma RejectStepKeepsInv(s: State, rejects: seq<Job>, acked: bool, stops: seq<Job>, reloads: seq<Job>,
                           step: DaemonStep)
    requires Inv(s) && s.daemon.Up? && s.daemon.phase == Rejecting(rejects, acked, stops, reloads) && rejects != []
    ensures Inv(RejectApply(s, rejects, acked, stops, reloads, step))
  {
    assert rejects[0] in rejects;
    if step.WriteAck? && !acked {
      AnswerKeepsInv(s, rejects[0]);
      PhaseKeepsInv(Answered(s, rejects[0]), Rejecting(rejects, true, stops, reloads));
    } else if step.RemoveRequest? && acked {
      RequestGone(s, rejects[0].id);
      PhaseKeepsInv(s.(requests := s.requests - {rejects[0].id}), Rejecting(rejects[1..], false, stops, reloads));
    }
  }

  lemma {:induction false} RanAllTimes(s: State, jobs: seq<Job>, instance: nat, id: nat)
    requires DistinctIds(jobs)
    ensures var t := RanAll(s, jobs, instance);
      && Times(t, id) == Times(s, id) + (if id in Ids(jobs) then 1 else 0)
      && (id in t.past.executed <==> id in s.past.executed || id in Ids(jobs))
      && (id in Ids(jobs) ==> id in t.past.executor && t.past.executor[id] == instance)
      && (id !in Ids(jobs) ==> (id in t.past.executor <==> id in s.past.executor))
      && (id !in Ids(jobs) && id in s.past.executor ==> t.past.executor[id] == s.past.executor[id])
    decreases |jobs|
  {
    if jobs != [] {
      var n := Ran(s, jobs[0].id, instance);
      RanAllTimes(n, jobs[1..], instance, id);
      assert jobs == [jobs[0]] + jobs[1..];
      assert Ids(jobs) == {jobs[0].id} + Ids(jobs[1..]);
      HeadApart(jobs);
    }
  }

  lemma HeadApart(jobs: seq<Job>)
    requires DistinctIds(jobs) && jobs != []
    ensures forall k :: k in jobs[1..] ==> k in jobs && k.id != jobs[0].id
    ensures DistinctIds(jobs[1..])
  {
    forall k | k in jobs[1..] ensures k in jobs && k.id != jobs[0].id {
      var i :| 0 <= i < |jobs[1..]| && jobs[1..][i] == k;
      assert jobs[i + 1] == k;
    }
  }

  // Executing jobs of this instance that were never executed keeps the execution record exact.
  lemma RanAllKeeps(s: State, jobs: seq<Job>)
    requires Inv(s) && s.daemon.Up? && DistinctIds(jobs) && JobsOk(s, jobs)
    requires Mine(s.daemon.instance, jobs) && Unrun(s, s.daemon.instance, jobs)
    ensures var t := RanAll(s, jobs, s.daemon.instance);
      && ExecInv(t)
      && (forall id :: id !in Ids(jobs) ==> Times(t, id) == Times(s, id))
  {
    var t := RanAll(s, jobs, s.daemon.instance);
    forall id ensures
      && (id !in Ids(jobs) ==> Times(t, id) == Times(s, id))
      && (id in t.past.executed ==>
            t.past.executed[id] <= 1 && id in t.past.issued && id in t.past.executor
            && t.past.executor[id] == t.past.issued[id].instance && t.past.executor[id] in t.past.used)
    {
      RanAllTimes(s, jobs, s.daemon.instance, id);
      if id in Ids(jobs) {
        var j :| j in jobs && j.id == id;
      }
    }
  }

  lemma ShutdownKeepsInv(s: State, stops: seq<Job>, reloads: seq<Job>)
    requires Inv(s) && s.daemon.Up? && s.daemon.phase.Rejecting? && s.daemon.phase.stops == stops
    requires s.daemon.phase.reloads == reloads
    ensures Inv(ShutDown(s, stops, reloads))
  {
    var t := ShutDown(s, stops, reloads);
    RanAllKeeps(s, stops);
    assert Ids(reloads + stops) == Ids(reloads) + Ids(stops);
    forall id | id in t.past.superseded ensures Times(t, id) == 0 { SupersededNotStop(s, stops, id); }
  }

  lemma SupersededNotStop(s: State, stops: seq<Job>, id: nat)
    requires SupersededInv(s) && id in s.past.superseded && JobsOk(s, stops)
    requires forall j :: j in stops ==> j.request.kind == STOP
    ensures id !in Ids(stops)
  {}

  lemma RunKeeps(s: State, reloads: seq<Job>)
    requires Inv(s) && s.daemon.Up? && s.daemon.phase == Reloading(reloads, false, false) && reloads != []
    ensures Inv(InPhase(Ran(s, reloads[0].id, s.daemon.instance), Reloading(reloads, true, false)))
  {
    var j := reloads[0];
    assert j in reloads;
    var t := InPhase(Ran(s, j.id, s.daemon.instance), Reloading(reloads, true, false));
    HeadApart(reloads);
  }

  lemma ReloadRemoveKeepsInv(s: State, reloads: seq<Job>)
    requires Inv(s) && s.daemon.Up? && s.daemon.phase == Reloading(reloads, true, true) && reloads != []
    ensures Inv(InPhase(s, Reloading(reloads[1..], false, false)).(requests := s.requests - {reloads[0].id}))
  {
    RequestGone(s, reloads[0].id);
    PhaseKeepsInv(s.(requests := s.requests - {reloads[0].id}), Reloading(reloads[1..], false, false));
  }

  lemma ReloadStepKeepsInv(s: State, reloads: seq<Job>, ran: bool, acked: bool, step: DaemonStep)
    requires Inv(s) && s.daemon.Up? && s.daemon.phase == Reloading(reloads, ran, acked)
    ensures Inv(ReloadApply(s, reloads, ran, acked, step))
  {
    if reloads == [] {
      if step.Finish? { PhaseKeepsInv(s, Idle); }
    } else {
      assert reloads[0] in reloads;
      if step.RunReload? && !ran {
        RunKeeps(s, reloads);
      } else if step.WriteAck? && ran && !acked {
        AnswerKeepsInv(s, reloads[0]);
        PhaseKeepsInv(Answered(s, reloads[0]), Reloading(reloads, true, true));
      } else if step.RemoveRequest? && acked {
        ReloadRemoveKeepsInv(s, reloads);
      }
    }
  }

  lemma StopRemoveKeepsInv(s: State, rest: seq<Job>)
    requires Inv(s) && s.daemon.Up? && s.daemon.phase == Stopping(rest, true) && rest != []
    ensures Inv(InPhase(s, Stopping(rest[1..], false)).(requests := s.requests - {rest[0].id}))
  {
    RequestGone(s, rest[0].id);
    PhaseKeepsInv(s.(requests := s.requests - {rest[0].id}), Stopping(rest[1..], false));
  }

  lemma StopStepKeepsInv(s: State, rest: seq<Job>, acked: bool, step: DaemonStep)
    requires Inv(s) && s.daemon.Up? && s.daemon.phase == Stopping(rest, acked)
    ensures Inv(StopApply(s, rest, acked, step))
  {
    if rest == [] {
      if step.CheckPrune? { PruneNextKeepsInv(s, step.id, true); }
    } else {
      assert rest[0] in rest;
      if step.GiveUp? {
        PhaseKeepsInv(s, Stopping(rest[1..], false));
      } else if step.WriteAck? && !acked {
        AnswerKeepsInv(s, rest[0]);
        PhaseKeepsInv(Answered(s, rest[0]), Stopping(rest, true));
      } else if step.RemoveRequest? && acked {
        StopRemoveKeepsInv(s, rest);
      }
    }
  }

  lemma RejectPhaseKeepsInv(s: State, rejects: seq<Job>, acked: bool, stops: seq<Job>, reloads: seq<Job>,
                            step: DaemonStep)
    requires Inv(s) && s.daemon.Up? && s.daemon.phase == Rejecting(rejects, acked, stops, reloads)
    ensures Inv(RejectApply(s, rejects, acked, stops, reloads, step))
  {
    if rejects != [] {
      RejectStepKeepsInv(s, rejects, acked, stops, reloads, step);
    } else if stops != [] {
      if step.Shutdown? { ShutdownKeepsInv(s, stops, reloads); }
    } else if step.BeginReloads? {
      PhaseKeepsInv(s, Reloading(reloads, false, false));
    }
  }

  predicate Answering(p: Phase) { p.Rejecting? || p.Reloading? || p.Stopping? }

  lemma AnsweringKeepsInv(s: State, step: DaemonStep)
    requires Inv(s) && s.daemon.Up? && Answering(s.daemon.phase)
    ensures Inv(UpApply(s, step))
  {
    if s.daemon.phase.Rejecting? {
      RejectPhaseKeepsInv(s, s.daemon.phase.rejects, s.daemon.phase.acked, s.daemon.phase.stops,
                          s.daemon.phase.reloads, step);
    } else if s.daemon.phase.Reloading? {
      ReloadStepKeepsInv(s, s.daemon.phase.reloads, s.daemon.phase.ran, s.daemon.phase.acked, step);
    } else {
      StopStepKeepsInv(s, s.daemon.phase.rest, s.daemon.phase.acked, step);
    }
  }

  lemma UpKeepsInv(s: State, step: DaemonStep)
    requires Inv(s) && s.daemon.Up?
    ensures Inv(UpApply(s, step))
  {
    if Answering(s.daemon.phase) {
      AnsweringKeepsInv(s, step);
    } else if s.daemon.phase.Idle? {
      IdleStepKeepsInv(s, step);
    } else if s.daemon.phase.Scanning? {
      ScanStepKeepsInv(s, s.daemon.phase.todo, s.daemon.phase.pending, step);
    } else if s.daemon.phase.Reading? {
      LookedForAckKeepsInv(s, s.daemon.phase.todo, s.daemon.phase.pending, s.daemon.phase.job);
    } else if s.daemon.phase.Dropping? {
      DropKeepsInv(s, s.daemon.phase.todo, s.daemon.phase.pending, s.daemon.phase.id);
    } else {
      PruneKeepsInv(s, s.daemon.phase.id, s.daemon.phase.stopped);
    }
  }

  lemma DaemonKeepsInv(s: State, step: DaemonStep)
    requires Inv(s)
    ensures Inv(DaemonApply(s, step))
  {
    if step.Start? {
      if s.daemon.Down? && step.instance !in s.past.used { StartKeepsInv(s, step.instance); }
    } else if s.daemon.Up? && !step.Die? {
      UpKeepsInv(s, step);
    }
  }

  lemma {:induction false} RunKeepsInv(s: State, steps: seq<Step>)
    requires Inv(s)
    ensures Inv(Run(s, steps))
    decreases |steps|
  {
    if steps != [] {
      match steps[0] {
        case ByDaemon(a) => DaemonKeepsInv(s, a);
        case ByClient(c, a) => ClientKeepsInv(s, c, a);
      }
      RunKeepsInv(Apply(s, steps[0]), steps[1..]);
    }
  }

  // ----- Theorems over every run -----

  /** Every request is executed at most once, and only by the daemon instance it names; a reload that
      was answered because of a stop in the same batch is never executed. */
  lemma AtMostOnce(steps: seq<Step>, id: nat)
    ensures var s := Run(Init(), steps);
      && Times(s, id) <= 1
      && (Times(s, id) == 1 ==>
            id in s.past.issued && id in s.past.executor && s.past.executor[id] == s.past.issued[id].instance)
      && (id in s.past.superseded ==> Times(s, id) == 0)
  {
    RunKeepsInv(Init(), steps);
  }

  lemma ReplySupersedes(s: State, step: DaemonStep)
    requires s.daemon.Up? && Answering(s.daemon.phase)
    ensures UpApply(s, step).past.superseded == s.past.superseded
  {}

  lemma LookSupersedes(s: State, step: DaemonStep)
    requires s.daemon.Up? && !Answering(s.daemon.phase)
    ensures s.past.superseded <= UpApply(s, step).past.superseded
  {}

  lemma DaemonStepSupersedes(s: State, step: DaemonStep)
    ensures s.past.superseded <= DaemonApply(s, step).past.superseded
  {
    if s.daemon.Up? {
      if Answering(s.daemon.phase) { ReplySupersedes(s, step); } else { LookSupersedes(s, step); }
    }
  }

  lemma ClientStepSupersedes(s: State, c: nat, step: ClientStep)
    ensures ClientApply(s, c, step).past.superseded == s.past.superseded
  {}

  lemma {:induction false} SupersededStays(s: State, steps: seq<Step>)
    ensures s.past.superseded <= Run(s, steps).past.superseded
    decreases |steps|
  {
    if steps != [] {
      match steps[0] {
        case ByDaemon(a) => DaemonStepSupersedes(s, a);
        case ByClient(c, a) => ClientStepSupersedes(s, c, a);
      }
      SupersededStays(Apply(s, steps[0]), steps[1..]);
    }
  }

  /** From the moment a batch turns out to hold a stop, none of its reloads is ever executed: not by this
      daemon, not after it died before the shutdown, and not by a later one. */
  lemma StopSupersedes(before: seq<Step>, after: seq<Step>, id: nat)
    ensures var s := Run(Init(), before);
      s.daemon.Up? && s.daemon.phase.Rejecting? && s.daemon.phase.stops != [] && id in Ids(s.daemon.phase.reloads) ==>
        Times(Run(s, after), id) == 0
  {
    var s := Run(Init(), before);
    RunKeepsInv(Init(), before);
    RunKeepsInv(s, after);
    SupersededStays(s, after);
  }

  /** The queue never holds more than 256 request files. */
  lemma QueueIsBounded(steps: seq<Step>)
    ensures |Run(Init(), steps).requests| <= MAX_PENDING
  {
    RunKeepsInv(Init(), steps);
  }

  /** The daemon removes a request file only when an ack exists that fits the request: its kind, and either
      the instance the request names or a note that another one answered. */
  lemma RemovedOnlyIfAcked(steps: seq<Step>, step: DaemonStep, id: nat)
    ensures var s := Run(Init(), steps);
      id in s.requests && id !in DaemonApply(s, step).requests ==> id in s.acks && AckFits(s.acks[id], s.requests[id])
  {
    var s := Run(Init(), steps);
    RunKeepsInv(Init(), steps);
    if id in s.requests && id !in DaemonApply(s, step).requests { RemovingIsAcked(s, id); }
  }

  lemma RemovingIsAcked(s: State, id: nat)
    requires Inv(s) && s.daemon.Up? && id in Removing(s.daemon.phase) && id in s.requests
    ensures id in s.acks && AckFits(s.acks[id], s.requests[id])
  {
    assert AckedFirst(s, id);
  }

  lemma AckKept(s: State, step: Step, id: nat)
    requires Inv(s) && id in s.acks && id in s.requests
    ensures id in Apply(s, step).acks
  {
    match step
    case ByDaemon(a) => assert s.daemon.Up? && s.daemon.phase.Pruning? ==> s.daemon.phase.id != id;
    case ByClient(c, a) => assert c in s.clients ==> s.clients[c] != Consuming(id);
  }

  /** Nobody removes an ack whose request file is still there. */
  lemma AckOutlivesRequest(steps: seq<Step>, step: Step, id: nat)
    ensures var s := Run(Init(), steps); id in s.acks && id in s.requests ==> id in Apply(s, step).acks
  {
    var s := Run(Init(), steps);
    RunKeepsInv(Init(), steps);
    if id in s.acks && id in s.requests { AckKept(s, step, id); }
  }
}
