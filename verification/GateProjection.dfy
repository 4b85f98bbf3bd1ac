/** How the gate word of `GenerationGate` shows in the coarser world of `KernelState`: packets move it as
    traffic does there, and one CONTROL step as opening or quiescing does. */
module GateProjection {
  import G = GenerationGate
  import K = KernelState

  function Shown(w: G.Word): K.Gate {
    if w.poison then K.POISONED
    else if w == G.ZERO then K.UNUSED
    else if w.isOpen then K.OPENED
    else if w.armed then K.DRAINING
    else K.SEALED
  }

  /** In every run, unless the in-flight counter is full or the runtime identity is lost, a packet step
      leaves the shown gate alone or seals a draining one: exactly what traffic may do. */
  lemma VisitsDrift(g: nat, steps: seq<G.Step>, v: nat, step: G.VisitStep)
    requires g != 0
    ensures var s := G.Run(g, G.Init(), steps);
      var t := G.VisitApply(g, s, v, step);
      !G.Tainted(t) ==> K.Drifted(Shown(s.word), Shown(t.word))
  {
    var s := G.Run(g, G.Init(), steps);
    G.ReachableInv(g, steps);
    G.VisitKeepsInv(g, s, v, step);
    if !G.Tainted(G.VisitApply(g, s, v, step)) { VisitDrifts(g, s, v, step); }
  }

  lemma VisitDrifts(g: nat, s: G.State, v: nat, step: G.VisitStep)
    requires G.Inv(g, s) && !s.word.poison && !G.VisitApply(g, s, v, step).word.poison
    ensures K.Drifted(Shown(s.word), Shown(G.VisitApply(g, s, v, step).word))
  {
    var t := G.VisitApply(g, s, v, step);
    if v in s.visits {
      match s.visits[v]
      case Loaded(attempt, seen) => if step.Decide? { EnterShows(s, v, attempt, seen); }
      case Inside =>
        if step.Leave? {
          assert v in G.VisitsInside(s);
          LeaveShows(s.word);
        }
      case Notified => if step.Disarm? { assert t.word == s.word || (s.word == G.Armed(0) && t.word == G.SEALED); }
      case Condemning =>
      case _ => assert t.word == s.word;
    }
  }

  lemma EnterShows(s: G.State, v: nat, attempt: nat, seen: G.Word)
    ensures var t := G.DecidedVisit(s, v, attempt, seen);
      t.word == s.word || (s.word == G.Open(s.word.count) && t.word == G.Open(s.word.count + 1))
  {}

  lemma LeaveShows(w: G.Word)
    requires w.count > 0 && G.Legal(w) && !w.poison
    ensures Shown(G.Decremented(w)) == Shown(w)
  {}

  /** A CONTROL step moves it as opening does, from unused to open, or as quiescing does, never to open. */
  lemma ControlMoves(g: nat, steps: seq<G.Step>, step: G.ControlStep)
    requires g != 0
    ensures var s := G.Run(g, G.Init(), steps);
      var t := G.ControlApply(g, s, step);
      !G.Tainted(s) ==>
        || Shown(t.word) == Shown(s.word)
        || (s.control.Opening? && Shown(s.word) == K.UNUSED && Shown(t.word) == K.OPENED)
        || (s.control.Closing? && (Shown(t.word) == K.DRAINING || Shown(t.word) == K.SEALED))
  {
    G.ReachableInv(g, steps);
    ControlMove(g, G.Run(g, G.Init(), steps), step);
  }

  lemma ControlMove(g: nat, s: G.State, step: G.ControlStep)
    requires G.Inv(g, s)
    ensures var t := G.ControlApply(g, s, step);
      !s.word.poison ==>
        || Shown(t.word) == Shown(s.word)
        || (s.control.Opening? && Shown(s.word) == K.UNUSED && Shown(t.word) == K.OPENED)
        || (s.control.Closing? && (Shown(t.word) == K.DRAINING || Shown(t.word) == K.SEALED))
  {
    if s.word.poison || !step.ControlDecide? {
    } else if s.control.Opening? && s.control.loop.Chosen? {
      OpenMoves(s, s.control.loop.n, s.control.loop.seen);
    } else if s.control.Closing? && s.control.loop.Chosen? {
      CloseMoves(s, s.control.loop.n, s.control.loop.seen);
    }
  }

  lemma OpenMoves(s: G.State, n: nat, seen: G.Word)
    requires s.control == G.Opening(G.Chosen(n, seen)) && !s.word.poison
    ensures var t := G.DecidedOpen(s, n, seen); t.word == s.word || (s.word == G.ZERO && t.word == G.Open(0))
  {}

  lemma CloseMoves(s: G.State, n: nat, seen: G.Word)
    requires s.control.Closing? && s.control.loop == G.Chosen(n, seen) && !s.word.poison
    ensures var t := G.DecidedClose(s, n, seen);
      t.word == s.word || t.word == G.SEALED || t.word == G.Armed(t.word.count)
  {}

  /** A Quiesce that returned success shows a sealed gate, then and in every continuation. */
  lemma QuiescedShowsSealed(g: nat, steps: seq<G.Step>)
    requires g != 0
    ensures var s := G.Run(g, G.Init(), steps);
      s.marks.quiesced && !G.Tainted(s) ==> Shown(s.word) == K.SEALED
  {
    G.ReachableInv(g, steps);
  }
}
