/** Runs of a whole world: in every step one of its characters ticks, or has its hooked player set,
    in any order (src/game/gamecore.cpp). */
module WorldRuns {
  import opened CharacterRuns
  import opened HookLinks

  datatype Slot = Empty | Filled(tee: Tee, attached: set<int>)

  type Crowd = seq<Slot>

  /** Who hooks whom. */
  function SeatsOf(w: Crowd): (room: Room)
    ensures |room| == |w|
  {
    seq(|w|, i requires 0 <= i < |w| => if w[i].Empty? then Free else Taken(w[i].tee.hook.player, w[i].attached))
  }

  /** Character `k` makes a step of its own run. Nobody else does, but whoever it lets go of or hooks
      has a new attached set. */
  ghost predicate WorldStep(w: Crowd, k: nat, e: Event, w': Crowd) {
    && k < |w| == |w'| && w[k].Filled? && w'[k].Filled?
    && Step(w[k].tee, e, w'[k].tee)
    && OthersSame(w, k, w')
    && Rehooks(SeatsOf(w), k, w'[k].tee.hook.player, SeatsOf(w'))
  }

  predicate OthersSame(w: Crowd, k: nat, w': Crowd)
    requires |w| == |w'|
  {
    forall i | 0 <= i < |w| && i != k ::
      w[i].Filled? == w'[i].Filled? && (w[i].Filled? ==> w'[i].tee == w[i].tee)
  }

  datatype Move = Move(who: nat, event: Event)

  ghost predicate WorldRun(ws: seq<Crowd>, moves: seq<Move>) {
    |ws| == |moves| + 1 && forall n | 0 <= n < |moves| :: WorldStep(ws[n], moves[n].who, moves[n].event, ws[n + 1])
  }

  predicate AllSound(w: Crowd) {
    forall i | 0 <= i < |w| && w[i].Filled? :: Sound(w[i].tee)
  }

  predicate MoveAllowed(w: Crowd, move: Move) {
    move.who < |w| && w[move.who].Filled? && Allowed(w[move.who].tee, move.event)
  }

  lemma WorldStepKeeps(w: Crowd, move: Move, w': Crowd)
    requires AllSound(w) && WorldStep(w, move.who, move.event, w')
    ensures Mirrored(SeatsOf(w'))
    ensures AllSound(w') <==> MoveAllowed(w, move)
  {
    hide Step, Sound, Allowed, Relink;
    var k := move.who;
    StepKeepsIff(w[k].tee, move.event, w'[k].tee);
    assert forall i | 0 <= i < |w| && i != k && w'[i].Filled? :: Sound(w'[i].tee);
  }

  /** Whoever moves, and in whatever order: every attached set stays the inverse of the hooked
      relation. Every character stays sound exactly if all calls from outside are allowed. */
  lemma {:induction false} WorldRunKeeps(ws: seq<Crowd>, moves: seq<Move>)
    requires WorldRun(ws, moves) && Mirrored(SeatsOf(ws[0])) && AllSound(ws[0])
    ensures forall n | 0 <= n < |ws| :: Mirrored(SeatsOf(ws[n]))
    ensures (forall n | 0 <= n < |ws| :: AllSound(ws[n])) <==> forall n | 0 <= n < |moves| :: MoveAllowed(ws[n], moves[n])
  {
    hide Mirrored, AllSound, MoveAllowed;
    forall n | 0 <= n < |ws| ensures Mirrored(SeatsOf(ws[n])) {
      if n > 0 {
        StepMirrors(ws[n - 1], moves[n - 1], ws[n]);
      }
    }
    if moves != [] {
      var last := |moves| - 1;
      WorldRunKeeps(ws[..|moves|], moves[..last]);
      if forall n | 0 <= n < |ws[..|moves|]| :: AllSound(ws[..|moves|][n]) {
        assert AllSound(ws[..|moves|][last]);
        WorldStepKeeps(ws[last], moves[last], ws[|moves|]);
      }
    }
  }

  lemma StepMirrors(w: Crowd, move: Move, w': Crowd)
    requires WorldStep(w, move.who, move.event, w')
    ensures Mirrored(SeatsOf(w'))
  {
  }

  // ----- One character of the world --------------------------------------------------------------

  /** The events of character `k`, in order. */
  function EventsOf(moves: seq<Move>, k: nat): seq<Event> {
    if moves == [] then []
    else EventsOf(moves[..|moves| - 1], k) + if moves[|moves| - 1].who == k then [moves[|moves| - 1].event] else []
  }

  function TeeOf(w: Crowd, k: nat): Tee {
    if k < |w| && w[k].Filled? then w[k].tee else Tee(Hook(HOOK_IDLE, 0, -1), Jump(false, false, 0))
  }

  /** Its states: the first one, and the one after each of its events. */
  function StatesOf(ws: seq<Crowd>, moves: seq<Move>, k: nat): (ts: seq<Tee>)
    requires |ws| == |moves| + 1
    ensures |ts| == |EventsOf(moves, k)| + 1
    decreases |moves|
  {
    if moves == [] then [TeeOf(ws[0], k)]
    else
      StatesOf(ws[..|moves|], moves[..|moves| - 1], k) +
      if moves[|moves| - 1].who == k then [TeeOf(ws[|moves|], k)] else []
  }

  /** In a run of the world every character has a run of its own, whatever the others do meanwhile:
      what no run of a character can do, none can do in the world. */
  lemma {:induction false} EveryoneRuns(ws: seq<Crowd>, moves: seq<Move>, k: nat)
    requires WorldRun(ws, moves) && k < |ws[0]| && ws[0][k].Filled?
    ensures Run(StatesOf(ws, moves, k), EventsOf(moves, k))
    ensures |ws[|moves|]| == |ws[0]| && ws[|moves|][k].Filled?
    ensures StatesOf(ws, moves, k)[|EventsOf(moves, k)|] == ws[|moves|][k].tee
    decreases |moves|
  {
    hide Step, Rehooks;
    if moves != [] {
      var last := |moves| - 1;
      var ws', moves' := ws[..|moves|], moves[..last];
      assert WorldStep(ws[last], moves[last].who, moves[last].event, ws[last + 1]);
      assert WorldRun(ws', moves');
      EveryoneRuns(ws', moves', k);
      if moves[last].who == k {
        RunOn(StatesOf(ws', moves', k), EventsOf(moves', k), moves[last].event, ws[|moves|][k].tee);
      }
    }
  }

  lemma RunOn(ts: seq<Tee>, es: seq<Event>, e: Event, t: Tee)
    requires Run(ts, es) && Step(ts[|es|], e, t)
    ensures Run(ts + [t], es + [e])
  {
    hide Step;
  }
}
