/** The hook and the jumps of one character over runs of ticks (`CCharacterCore::Tick` in
    src/game/gamecore.cpp): what a tick does to them, and what no run of ticks can do. */
module CharacterRuns {
  import opened Arith

  const MAX_CLIENTS := 64
  const SERVER_TICK_SPEED := 50
  const MAX_HOOK_TICK := SERVER_TICK_SPEED + SERVER_TICK_SPEED / 5

  // The seven states of a hook. A retracting hook counts from HOOK_RETRACT_START to HOOK_RETRACT_END.
  const HOOK_RETRACTED := -1
  const HOOK_IDLE := 0
  const HOOK_RETRACT_START := 1
  const HOOK_RETRACT_END := 3
  const HOOK_FLYING := 4
  const HOOK_GRABBED := 5

  datatype Hook = Hook(state: int, tick: int, player: int)
  datatype Jump = Jump(held: bool, spent: bool, total: int)
  datatype Tee = Tee(hook: Hook, jump: Jump)

  /** What the flying hook runs into on its way. */
  datatype Hit = Nothing | NoHook | TeleIn | Ground

  /** What a tick finds: its inputs, its tuning, and the geometry around the character. */
  datatype Scene = Scene(
    grounded: bool,         // the character stands on something
    useInput: bool,
    jumpKey: bool,
    hookKey: bool,
    jumps: int,             // how many jumps the character has
    hookDuration: real,
    inWorld: bool,
    tooFar: bool,           // the hook would fly beyond its length
    hit: Hit,
    teleOut: bool,          // the teleporter that is hit leads somewhere
    near: set<int>,         // the characters in the hook's way that it may grab
    distance: seq<real>,    // from the hook, by slot
    kept: set<int>)         // the characters whose hook may be kept

  predicate ValidScene(s: Scene) {
    && |s.distance| == MAX_CLIENTS
    && (forall i | 0 <= i < MAX_CLIENTS :: s.distance[i] >= 0.0)
    && (forall i | i in s.near :: 0 <= i < MAX_CLIENTS)
  }

  // ----- One tick --------------------------------------------------------------------------------

  /** A launched hook starts counting here; the shorter the hook duration, the later. */
  function LaunchTick(hookDuration: real): int {
    Trunc(SERVER_TICK_SPEED as real * (1.25 - hookDuration))
  }

  predicate MayGroundJump(j: Jump, s: Scene) {
    s.useInput && s.jumpKey && !j.held && s.grounded && (!j.spent || s.jumps != 0)
  }

  predicate MayAirJump(j: Jump, s: Scene) {
    s.useInput && s.jumpKey && !j.held && !s.grounded && !j.spent
  }

  /** The jump key is remembered until a tick sees it released; the air jump until one is grounded. */
  function JumpTicks(j: Jump, s: Scene): Jump {
    Jump(
      if !s.useInput then j.held else if !s.jumpKey then false else j.held || MayGroundJump(j, s) || MayAirJump(j, s),
      !s.grounded && (j.spent || MayAirJump(j, s)),
      if s.grounded then 0 else if MayAirJump(j, s) then j.total + 1 else j.total)
  }

  predicate MayLaunch(h: Hook, s: Scene) {
    s.useInput && s.hookKey && h.state == HOOK_IDLE
  }

  function HookKeyed(h: Hook, s: Scene): Hook {
    if s.useInput && !s.hookKey then Hook(HOOK_IDLE, h.tick, -1)
    else if MayLaunch(h, s) then Hook(HOOK_FLYING, LaunchTick(s.hookDuration), -1)
    else h
  }

  /** The character nearest to the hook; of several the one in the lowest slot. */
  predicate Nearest(s: Scene, p: int)
    requires ValidScene(s)
  {
    p in s.near &&
    forall q | q in s.near :: s.distance[p] < s.distance[q] || (s.distance[p] == s.distance[q] && p <= q)
  }

  predicate Catches(h: Hook, s: Scene) {
    h.state == HOOK_FLYING && h.player == -1 && s.near != {}
  }

  predicate Teleports(h: Hook, s: Scene) {
    h.state == HOOK_FLYING && !Catches(h, s) && !s.tooFar && s.hit == TeleIn && s.inWorld && s.teleOut
  }

  predicate Swings(h: Hook, s: Scene, h': Hook)
    requires ValidScene(s)
  {
    if h.state == HOOK_IDLE then h' == h.(player := -1)
    else if HOOK_RETRACT_START <= h.state < HOOK_RETRACT_END then h' == h.(state := h.state + 1)
    else if h.state == HOOK_RETRACT_END then h' == h.(state := HOOK_RETRACTED)
    else if Catches(h, s) then h'.state == HOOK_GRABBED && h'.tick == h.tick && Nearest(s, h'.player)
    else if h.state == HOOK_FLYING then
      if s.tooFar || s.hit == NoHook then h' == h.(state := HOOK_RETRACT_START)
      else if s.hit == Ground then h' == h.(state := HOOK_GRABBED)
      else if Teleports(h, s) then h' == h.(player := -1)
      else h' == h
    else h' == h
  }

  /** A hook that has grabbed a player lets go without cause to keep it, and for reasons of time. */
  function Held(h: Hook, s: Scene): Hook {
    if h.state != HOOK_GRABBED then h
    else if h.player == -1 || ((s.inWorld ==> h.player in s.kept) && h.tick + 1 <= MAX_HOOK_TICK) then h.(tick := h.tick + 1)
    else Hook(HOOK_RETRACTED, h.tick + 1, -1)
  }

  ghost predicate HookTicks(h: Hook, s: Scene, h': Hook)
    requires ValidScene(s)
  {
    exists swung: Hook :: Swings(HookKeyed(h, s), s, swung) && h' == Held(swung, s)
  }

  ghost predicate Ticks(t: Tee, s: Scene, t': Tee)
    requires ValidScene(s)
  {
    HookTicks(t.hook, s, t'.hook) && t'.jump == JumpTicks(t.jump, s)
  }

  // ----- Runs ------------------------------------------------------------------------------------

  /** A character ticks, or somebody sets its hooked player. */
  datatype Event = Tick(scene: Scene) | SetHooked(player: int)

  ghost predicate Step(t: Tee, e: Event, t': Tee) {
    match e
    case Tick(s) => ValidScene(s) && Ticks(t, s, t')
    case SetHooked(p) => t' == t.(hook := t.hook.(player := p)) && -1 <= p < MAX_CLIENTS
  }

  ghost predicate Run(ts: seq<Tee>, es: seq<Event>) {
    |ts| == |es| + 1 && forall i | 0 <= i < |es| :: Step(ts[i], es[i], ts[i + 1])
  }

  predicate SevenStates(state: int) {
    || state == HOOK_RETRACTED || state == HOOK_IDLE || HOOK_RETRACT_START <= state <= HOOK_RETRACT_END
    || state == HOOK_FLYING || state == HOOK_GRABBED
  }

  predicate Sound(t: Tee) {
    && SevenStates(t.hook.state)
    && -1 <= t.hook.player < MAX_CLIENTS
    && (t.hook.player != -1 ==> t.hook.state == HOOK_GRABBED && t.hook.tick <= MAX_HOOK_TICK)
  }

  /** Whoever sets the hooked player from outside releases it, or the hook is grabbed and in time. */
  predicate Allowed(t: Tee, e: Event) {
    e.SetHooked? && e.player != -1 ==> t.hook.state == HOOK_GRABBED && t.hook.tick <= MAX_HOOK_TICK
  }

  lemma StepKeepsIff(t: Tee, e: Event, t': Tee)
    requires Sound(t) && Step(t, e, t')
    ensures Sound(t') <==> Allowed(t, e)
  {
    if e.Tick? {
      var swung: Hook :| Swings(HookKeyed(t.hook, e.scene), e.scene, swung) && t'.hook == Held(swung, e.scene);
    }
  }

  lemma {:induction false} AllowedRunKeeps(ts: seq<Tee>, es: seq<Event>)
    requires Run(ts, es) && Sound(ts[0])
    requires forall i | 0 <= i < |es| :: Allowed(ts[i], es[i])
    ensures forall i | 0 <= i < |ts| :: Sound(ts[i])
  {
    if es != [] {
      AllowedRunKeeps(ts[..|es|], es[..|es| - 1]);
      StepKeepsIff(ts[|es| - 1], es[|es| - 1], ts[|es|]);
    }
  }

  /** A run keeps a character sound exactly if every call from outside is allowed. */
  lemma RunKeepsIff(ts: seq<Tee>, es: seq<Event>)
    requires Run(ts, es) && Sound(ts[0])
    ensures (forall i | 0 <= i < |ts| :: Sound(ts[i])) <==> forall i | 0 <= i < |es| :: Allowed(ts[i], es[i])
  {
    if forall i | 0 <= i < |es| :: Allowed(ts[i], es[i]) {
      AllowedRunKeeps(ts, es);
    }
    if forall i | 0 <= i < |ts| :: Sound(ts[i]) {
      forall i | 0 <= i < |es| ensures Allowed(ts[i], es[i]) {
        StepKeepsIff(ts[i], es[i], ts[i + 1]);
      }
    }
  }

  /** Whatever is called from outside, the hook state is one of its seven values. */
  lemma {:induction false} StateStays(ts: seq<Tee>, es: seq<Event>, i: nat)
    requires Run(ts, es) && SevenStates(ts[0].hook.state) && i < |ts|
    ensures SevenStates(ts[i].hook.state)
  {
    if i > 0 {
      StateStays(ts, es, i - 1);
      var t, e, t' := ts[i - 1], es[i - 1], ts[i];
      assert Step(t, e, t');
      if e.Tick? {
        var swung: Hook :| Swings(HookKeyed(t.hook, e.scene), e.scene, swung) && t'.hook == Held(swung, e.scene);
      }
    }
  }

  // ----- What a tick does to a hook, by its inputs -----------------------------------------------

  /** The keys leave the hook as it is. */
  predicate Undisturbed(s: Scene) {
    s.useInput ==> s.hookKey
  }

  /** A flying hook that meets no player: it grabs the ground and nothing else, turns back at unhookable
      tiles and at the end of its length, and flies on otherwise. */
  lemma FlyingMeets(t: Tee, s: Scene, t': Tee)
    requires ValidScene(s) && Ticks(t, s, t') && Undisturbed(s)
    requires t.hook.state == 4 && t.hook.player == -1 && s.near == {}
    ensures t'.hook.state == 5 <==> !s.tooFar && s.hit == Ground
    ensures t'.hook.state == 1 <==> s.tooFar || s.hit == NoHook
    ensures t'.hook.state == 4 <==> !s.tooFar && (s.hit == Nothing || s.hit == TeleIn)
    ensures t'.hook.player == -1
  {
    var swung: Hook :| Swings(HookKeyed(t.hook, s), s, swung) && t'.hook == Held(swung, s);
  }

  /** If players are in its way it takes the nearest, the lowest slot of several, whatever else it would
      have met, unless that one may not be kept. */
  lemma FlyingCatches(t: Tee, s: Scene, t': Tee)
    requires ValidScene(s) && Ticks(t, s, t') && Undisturbed(s)
    requires t.hook.state == 4 && t.hook.player == -1 && s.near != {} && t.hook.tick < 60
    ensures exists p :: p in s.near &&
              (forall q | q in s.near :: s.distance[p] < s.distance[q] || (s.distance[p] == s.distance[q] && p <= q)) &&
              if s.inWorld && p !in s.kept then t'.hook.state == -1 && t'.hook.player == -1
              else t'.hook.state == 5 && t'.hook.player == p
  {
    var swung: Hook :| Swings(HookKeyed(t.hook, s), s, swung) && t'.hook == Held(swung, s);
    assert Nearest(s, swung.player);
  }

  /** A hook that has grabbed holds on: to the ground for as long as the keys let it, to a player who
      may be kept for as long as it has held on for less than 60 ticks. */
  lemma GrabbedHolds(t: Tee, s: Scene, t': Tee)
    requires ValidScene(s) && Ticks(t, s, t') && Undisturbed(s) && t.hook.state == 5
    ensures t.hook.player == -1 ==> t'.hook == Hook(5, t.hook.tick + 1, -1)
    ensures t.hook.player != -1 ==>
      t'.hook == if t.hook.tick < 60 && (s.inWorld ==> t.hook.player in s.kept) then Hook(5, t.hook.tick + 1, t.hook.player)
                 else Hook(-1, t.hook.tick + 1, -1)
  {
    var swung: Hook :| Swings(HookKeyed(t.hook, s), s, swung) && t'.hook == Held(swung, s);
  }

  /** A hook that turns back is back after three ticks and stays so until the key is released. */
  lemma RetractingGoesBack(t: Tee, s: Scene, t': Tee)
    requires ValidScene(s) && Ticks(t, s, t') && Undisturbed(s) && (1 <= t.hook.state <= 3 || t.hook.state == -1)
    ensures t'.hook == t.hook.(state := if t.hook.state == 3 || t.hook.state == -1 then -1 else t.hook.state + 1)
  {
    var swung: Hook :| Swings(HookKeyed(t.hook, s), s, swung) && t'.hook == Held(swung, s);
  }

  /** The key: released it makes every hook idle, and it launches an idle one and no other. */
  lemma KeyDecides(t: Tee, s: Scene, t': Tee)
    requires ValidScene(s) && Ticks(t, s, t')
    ensures s.useInput && !s.hookKey ==> t'.hook.state == 0 && t'.hook.player == -1
    ensures t.hook.state == 0 ==> (t'.hook.state == 0 <==> !(s.useInput && s.hookKey))
    ensures t'.hook.state == 0 ==> t.hook.state == 0 || (s.useInput && !s.hookKey)
  {
    var swung: Hook :| Swings(HookKeyed(t.hook, s), s, swung) && t'.hook == Held(swung, s);
  }

  /** With the usual hook duration of 1.25 a hook counts from 0; 0.02 less is one tick less. */
  lemma LaunchCounts(ticks: int)
    ensures LaunchTick(1.25) == 0 && LaunchTick(1.25 - ticks as real / 50.0) == ticks
  {
    assert 50.0 * (ticks as real / 50.0) == ticks as real;
  }

  /** Who is hooked after a tick is there to be kept, and if hooked in this tick was the nearest, the one
      in the lowest slot of several. */
  lemma HookedFairly(t: Tee, s: Scene, t': Tee)
    requires Sound(t) && ValidScene(s) && Ticks(t, s, t') && t'.hook.player != -1
    ensures s.inWorld ==> t'.hook.player in s.kept
    ensures t.hook.player != t'.hook.player ==>
      && t.hook.player == -1 && t'.hook.player in s.near
      && forall q | q in s.near ::
           var p := t'.hook.player;
           s.distance[p] < s.distance[q] || (s.distance[p] == s.distance[q] && p <= q)
  {
    var swung: Hook :| Swings(HookKeyed(t.hook, s), s, swung) && t'.hook == Held(swung, s);
  }

  // ----- Launches --------------------------------------------------------------------------------

  predicate Launches(t: Tee, e: Event) {
    e.Tick? && MayLaunch(t.hook, e.scene)
  }

  predicate HookKeyUp(e: Event) {
    e.Tick? && e.scene.useInput && !e.scene.hookKey
  }

  /** Only a tick that sees the hook key released makes a hook idle. */
  lemma IdleNeedsKeyUp(t: Tee, e: Event, t': Tee)
    requires Step(t, e, t') && t'.hook.state == HOOK_IDLE && !HookKeyUp(e)
    ensures t.hook.state == HOOK_IDLE && !Launches(t, e)
  {
    if e.Tick? {
      var swung: Hook :| Swings(HookKeyed(t.hook, e.scene), e.scene, swung) && t'.hook == Held(swung, e.scene);
    }
  }

  lemma {:induction false} StaysOut(ts: seq<Tee>, es: seq<Event>, i: nat, j: nat)
    requires Run(ts, es) && i < j <= |es| && Launches(ts[i], es[i])
    requires forall k | i < k < j :: !HookKeyUp(es[k])
    ensures ts[j].hook.state != HOOK_IDLE
  {
    if ts[j].hook.state == HOOK_IDLE {
      IdleNeedsKeyUp(ts[j - 1], es[j - 1], ts[j]);
      if j - 1 > i {
        StaysOut(ts, es, i, j - 1);
      }
    }
  }

  /** Between two launches the hook key is released. */
  lemma LaunchesNeedRelease(ts: seq<Tee>, es: seq<Event>, i: nat, j: nat)
    requires Run(ts, es) && i < j < |es| && Launches(ts[i], es[i]) && Launches(ts[j], es[j])
    ensures exists k | i < k < j :: HookKeyUp(es[k])
  {
    if forall k | i < k < j :: !HookKeyUp(es[k]) {
      StaysOut(ts, es, i, j);
    }
  }

  // ----- What a hook has grabbed -----------------------------------------------------------------

  predicate HitsGround(e: Event) {
    e.Tick? && e.scene.hit == Ground
  }

  lemma GrabNeedsGround(t: Tee, e: Event, t': Tee)
    requires Sound(t) && Step(t, e, t') && t.hook.state != 5 && t'.hook.state == 5 && t'.hook.player == -1
    ensures HitsGround(e)
  {
    if e.Tick? {
      var swung: Hook :| Swings(HookKeyed(t.hook, e.scene), e.scene, swung) && t'.hook == Held(swung, e.scene);
    }
  }

  /** A hook that has grabbed something and has had no player since its launch has met ground since. */
  lemma {:induction false} GrabbedMetGround(ts: seq<Tee>, es: seq<Event>, l: nat, j: nat) returns (k: nat)
    requires Run(ts, es) && l < j < |ts| && Launches(ts[l], es[l]) && ts[j].hook.state == 5
    requires forall i | l <= i <= j :: Sound(ts[i])
    requires forall i | l < i <= j :: ts[i].hook.player == -1
    ensures l <= k < j && HitsGround(es[k])
  {
    assert Step(ts[j - 1], es[j - 1], ts[j]);
    if ts[j - 1].hook.state == 5 {
      k := GrabbedMetGround(ts, es, l, j - 1);
    } else {
      GrabNeedsGround(ts[j - 1], es[j - 1], ts[j]);
      k := j - 1;
    }
  }

  // ----- How long a player stays hooked ----------------------------------------------------------

  function TicksIn(es: seq<Event>, a: nat, b: nat): nat
    requires a <= b <= |es|
    decreases b
  {
    if a == b then 0 else TicksIn(es, a, b - 1) + if es[b - 1].Tick? then 1 else 0
  }

  /** The hook counts from its launch on. */
  predicate Since(h: Hook, start: int) {
    h.state != HOOK_IDLE ==> h.tick >= start + if h.state == HOOK_GRABBED then 1 else 0
  }

  lemma SinceStep(t: Tee, e: Event, t': Tee, start: int)
    requires Step(t, e, t')
    requires if Launches(t, e) then start == LaunchTick(e.scene.hookDuration) else Since(t.hook, start)
    ensures Since(t'.hook, start)
  {
    if e.Tick? {
      var swung: Hook :| Swings(HookKeyed(t.hook, e.scene), e.scene, swung) && t'.hook == Held(swung, e.scene);
    }
  }

  /** A hook that is out was launched before. */
  lemma {:induction false} LaunchedBefore(ts: seq<Tee>, es: seq<Event>, b: nat) returns (l: nat)
    requires Run(ts, es) && ts[0].hook.state == HOOK_IDLE && b < |ts| && ts[b].hook.state != HOOK_IDLE
    ensures l < b && Launches(ts[l], es[l]) && Since(ts[b].hook, LaunchTick(es[l].scene.hookDuration))
  {
    if Launches(ts[b - 1], es[b - 1]) {
      l := b - 1;
    } else {
      if ts[b - 1].hook.state == HOOK_IDLE {
        OutNeedsLaunch(ts[b - 1], es[b - 1], ts[b]);
      }
      l := LaunchedBefore(ts, es, b - 1);
    }
    SinceStep(ts[b - 1], es[b - 1], ts[b], LaunchTick(es[l].scene.hookDuration));
  }

  lemma OutNeedsLaunch(t: Tee, e: Event, t': Tee)
    requires Step(t, e, t') && t.hook.state == HOOK_IDLE && t'.hook.state != HOOK_IDLE
    ensures Launches(t, e)
  {
    if e.Tick? {
      var swung: Hook :| Swings(HookKeyed(t.hook, e.scene), e.scene, swung) && t'.hook == Held(swung, e.scene);
    }
  }

  lemma HookedStep(t: Tee, e: Event, t': Tee)
    requires Step(t, e, t') && Sound(t) && t.hook.player != -1 && t'.hook.player != -1
    ensures t'.hook.tick == t.hook.tick + if e.Tick? then 1 else 0
  {
    if e.Tick? {
      var swung: Hook :| Swings(HookKeyed(t.hook, e.scene), e.scene, swung) && t'.hook == Held(swung, e.scene);
    }
  }

  lemma {:induction false} HookedTicks(ts: seq<Tee>, es: seq<Event>, a: nat, b: nat)
    requires Run(ts, es) && Sound(ts[0]) && a <= b < |ts|
    requires forall i | 0 <= i < |es| :: Allowed(ts[i], es[i])
    requires forall k | a <= k <= b :: ts[k].hook.player != -1
    ensures ts[b].hook.tick == ts[a].hook.tick + TicksIn(es, a, b)
  {
    if a < b {
      HookedTicks(ts, es, a, b - 1);
      AllowedRunKeeps(ts, es);
      HookedStep(ts[b - 1], es[b - 1], ts[b]);
    }
  }

  /** However a run goes on, and whomever else the character is made to hook meanwhile: it has
      players hooked for a bounded number of ticks, given by the hook duration at the launch. */
  lemma PlayerHookIsShort(ts: seq<Tee>, es: seq<Event>, a: nat, b: nat) returns (l: nat)
    requires Run(ts, es) && Sound(ts[0]) && ts[0].hook.state == HOOK_IDLE
    requires forall i | 0 <= i < |es| :: Allowed(ts[i], es[i])
    requires a <= b < |ts| && forall k | a <= k <= b :: ts[k].hook.player != -1
    ensures l < a && Launches(ts[l], es[l])
    ensures 1 + TicksIn(es, a, b) <= MAX_HOOK_TICK - LaunchTick(es[l].scene.hookDuration)
  {
    AllowedRunKeeps(ts, es);
    HookedTicks(ts, es, a, b);
    l := LaunchedBefore(ts, es, a);
  }

  /** The bound is for allowed calls only: a player that is set while the hook is retracted stays for
      as long as the hook key is not released. */
  lemma RetractedHookStays(t: Tee, s: Scene, t': Tee)
    requires ValidScene(s) && Ticks(t, s, t')
    requires t.hook.state == HOOK_RETRACTED && (s.useInput ==> s.hookKey)
    ensures t'.hook == t.hook
  {
    var swung: Hook :| Swings(HookKeyed(t.hook, s), s, swung) && t'.hook == Held(swung, s);
  }

  // ----- Jumps -----------------------------------------------------------------------------------

  predicate Jumps(t: Tee, e: Event) {
    e.Tick? && (MayGroundJump(t.jump, e.scene) || MayAirJump(t.jump, e.scene))
  }

  predicate AirJumps(t: Tee, e: Event) {
    e.Tick? && MayAirJump(t.jump, e.scene)
  }

  predicate JumpKeyUp(e: Event) {
    e.Tick? && e.scene.useInput && !e.scene.jumpKey
  }

  predicate OnGround(e: Event) {
    e.Tick? && e.scene.grounded
  }

  lemma {:induction false} KeyStaysHeld(ts: seq<Tee>, es: seq<Event>, i: nat, j: nat)
    requires Run(ts, es) && i < j <= |es| && Jumps(ts[i], es[i])
    requires forall k | i < k < j :: !JumpKeyUp(es[k])
    ensures ts[j].jump.held
  {
    assert Step(ts[j - 1], es[j - 1], ts[j]);
    if j - 1 > i {
      KeyStaysHeld(ts, es, i, j - 1);
    }
  }

  /** Between two jumps the jump key is released. */
  lemma JumpsNeedRelease(ts: seq<Tee>, es: seq<Event>, i: nat, j: nat)
    requires Run(ts, es) && i < j < |es| && Jumps(ts[i], es[i]) && Jumps(ts[j], es[j])
    ensures exists k | i < k < j :: JumpKeyUp(es[k])
  {
    if forall k | i < k < j :: !JumpKeyUp(es[k]) {
      KeyStaysHeld(ts, es, i, j);
    }
  }

  lemma {:induction false} AirJumpStaysSpent(ts: seq<Tee>, es: seq<Event>, i: nat, j: nat)
    requires Run(ts, es) && i < j <= |es| && AirJumps(ts[i], es[i])
    requires forall k | i < k < j :: !OnGround(es[k])
    ensures ts[j].jump.spent
  {
    assert Step(ts[j - 1], es[j - 1], ts[j]);
    if j - 1 > i {
      AirJumpStaysSpent(ts, es, i, j - 1);
    }
  }

  /** Between two air jumps the character is grounded. */
  lemma AirJumpsNeedGround(ts: seq<Tee>, es: seq<Event>, i: nat, j: nat)
    requires Run(ts, es) && i < j < |es| && AirJumps(ts[i], es[i]) && AirJumps(ts[j], es[j])
    ensures exists k | i < k < j :: OnGround(es[k])
  {
    if forall k | i < k < j :: !OnGround(es[k]) {
      AirJumpStaysSpent(ts, es, i, j);
    }
  }

  /** A jump, by the inputs: the key is pressed anew, and the character stands on something and has a
      jump left, or has not yet jumped in the air. */
  lemma JumpsExactly(t: Tee, s: Scene)
    ensures Jumps(t, Event.Tick(s)) <==>
      s.useInput && s.jumpKey && !t.jump.held && if s.grounded then s.jumps != 0 || !t.jump.spent else !t.jump.spent
    ensures AirJumps(t, Event.Tick(s)) <==> Jumps(t, Event.Tick(s)) && !s.grounded
  {
  }

  /** The key counts as held exactly if it was not released since a jump. */
  lemma {:induction false} HeldMeans(ts: seq<Tee>, es: seq<Event>, j: nat)
    requires Run(ts, es) && !ts[0].jump.held && j < |ts|
    ensures ts[j].jump.held <==>
      exists i :: 0 <= i < j && Jumps(ts[i], es[i]) && forall k | i < k < j :: !JumpKeyUp(es[k])
  {
    if j > 0 {
      HeldMeans(ts, es, j - 1);
      assert Step(ts[j - 1], es[j - 1], ts[j]);
      HeldStep(ts[j - 1], es[j - 1], ts[j]);
      hide Step, Jumps, JumpKeyUp;
    }
  }

  lemma HeldStep(t: Tee, e: Event, t': Tee)
    requires Step(t, e, t')
    ensures t'.jump.held <==> Jumps(t, e) || (t.jump.held && !JumpKeyUp(e))
  {
  }

  /** The air jump counts as spent exactly if the character was not grounded since one. */
  lemma {:induction false} SpentMeans(ts: seq<Tee>, es: seq<Event>, j: nat)
    requires Run(ts, es) && !ts[0].jump.spent && j < |ts|
    ensures ts[j].jump.spent <==>
      exists i :: 0 <= i < j && AirJumps(ts[i], es[i]) && forall k | i < k < j :: !OnGround(es[k])
  {
    if j > 0 {
      SpentMeans(ts, es, j - 1);
      assert Step(ts[j - 1], es[j - 1], ts[j]);
      SpentStep(ts[j - 1], es[j - 1], ts[j]);
      hide Step, AirJumps, OnGround;
    }
  }

  lemma SpentStep(t: Tee, e: Event, t': Tee)
    requires Step(t, e, t')
    ensures t'.jump.spent <==> AirJumps(t, e) || (t.jump.spent && !OnGround(e))
  {
  }
}
