/** The character core of src/game/gamecore.cpp: the hook and jump parts of its tick, in the world
    that it shares with the other characters. */
module CharacterCore {
  import opened CharacterRuns
  import opened HookLinks
  import opened WorldRuns

  datatype CoreEvent = GroundJump | AirJump | HookLaunch | AttachPlayer | AttachGround | HitNoHook | HookRetract

  /** What a tick reports. A hook that enters a teleporter wipes the reports of its tick. */
  function Reports(t: Tee, s: Scene): set<CoreEvent> {
    var h := HookKeyed(t.hook, s);
    if Teleports(h, s) then {}
    else JumpReports(t.jump, s) + (if MayLaunch(t.hook, s) then {HookLaunch} else {}) + SwingReports(h, s)
  }

  function JumpReports(j: Jump, s: Scene): set<CoreEvent> {
    (if MayGroundJump(j, s) then {GroundJump} else {}) + (if MayAirJump(j, s) then {AirJump} else {})
  }

  function SwingReports(h: Hook, s: Scene): set<CoreEvent> {
    if h.state == HOOK_RETRACT_END then {HookRetract}
    else if Catches(h, s) then {AttachPlayer}
    else if h.state != HOOK_FLYING || s.tooFar then {}
    else if s.hit == Ground then {AttachGround}
    else if s.hit == NoHook then {HitNoHook}
    else {}
  }

  /** What standing on the ground does to the jumps. */
  function Landed(j: Jump, s: Scene): Jump {
    if s.grounded then Jump(j.held, false, 0) else j
  }

  lemma WithoutInput(t: Tee, s: Scene)
    requires !s.useInput
    ensures Landed(t.jump, s) == JumpTicks(t.jump, s) && JumpReports(t.jump, s) == {}
    ensures HookKeyed(t.hook, s) == t.hook && !MayLaunch(t.hook, s)
  {
  }

  lemma TickIs(t: Tee, s: Scene, swung: Hook, t': Tee)
    requires ValidScene(s) && Swings(HookKeyed(t.hook, s), s, swung)
    requires t'.hook == Held(swung, s) && t'.jump == JumpTicks(t.jump, s)
    ensures Ticks(t, s, t')
  {
    hide Swings, Held, JumpTicks;
  }

  lemma ReportsAre(t: Tee, s: Scene, events: set<CoreEvent>)
    requires
      var h := HookKeyed(t.hook, s);
      events == if Teleports(h, s) then {}
                else JumpReports(t.jump, s) + (if MayLaunch(t.hook, s) then {HookLaunch} else {}) + SwingReports(h, s)
    ensures events == Reports(t, s)
  {
  }

  /** The hook enters a teleporter that leads somewhere, on its way or at once. */
  predicate EntersTeleporter(t: Tee, s: Scene) {
    && (t.hook.state == 4 || t.hook.state == 0) && (s.useInput ==> s.hookKey) && (t.hook.state == 0 ==> s.useInput)
    && s.near == {} && !s.tooFar && s.hit == TeleIn && s.inWorld && s.teleOut
  }

  /** What the reports of a tick say about what has happened in it. */
  lemma ReportsTell(t: Tee, s: Scene, t': Tee)
    requires Sound(t) && ValidScene(s) && Ticks(t, s, t')
    ensures AttachGround in Reports(t, s) <==>
      (t.hook.state == 0 || t.hook.state == 4) && t'.hook.state == 5 && t'.hook.player == -1
    ensures HitNoHook in Reports(t, s) <==>
      (t.hook.state == 0 || t.hook.state == 4) && t'.hook.state == 1 && !s.tooFar
    ensures HookRetract in Reports(t, s) <==> t.hook.state == 3 && t'.hook.state == -1
    ensures t.hook.player == -1 && t'.hook.player != -1 ==> AttachPlayer in Reports(t, s)
  {
    var swung: Hook :| Swings(HookKeyed(t.hook, s), s, swung) && t'.hook == Held(swung, s);
  }

  /** A launch and a jump are reported unless a teleporter has wiped the reports. */
  lemma ReportsTellKeys(t: Tee, s: Scene)
    requires Sound(t) && ValidScene(s)
    ensures HookLaunch in Reports(t, s) <==> t.hook.state == 0 && s.useInput && s.hookKey && !EntersTeleporter(t, s)
    ensures GroundJump in Reports(t, s) <==> Jumps(t, Event.Tick(s)) && s.grounded && !EntersTeleporter(t, s)
    ensures AirJump in Reports(t, s) <==> Jumps(t, Event.Tick(s)) && !s.grounded && !EntersTeleporter(t, s)
  {
  }

  /** `p` is the nearest character among the slots below `n`; -1 if the hook meets none there. */
  predicate NearestBelow(s: Scene, n: nat, p: int)
    requires ValidScene(s)
  {
    if p == -1 then forall q | q in s.near :: q >= n
    else
      p in s.near && p < n &&
      forall q | q in s.near && q < n ::
        s.distance[p] < s.distance[q] || (s.distance[p] == s.distance[q] && p <= q)
  }

  /** The next slot of a scan: it wins if it is near and strictly nearer than the best so far. */
  lemma NearestNext(s: Scene, i: nat, p: int, p': int)
    requires ValidScene(s) && NearestBelow(s, i, p)
    requires p' == if i in s.near && (p == -1 || s.distance[i] < s.distance[p]) then i else p
    ensures NearestBelow(s, i + 1, p')
  {
  }

  lemma NearestNone(s: Scene)
    requires ValidScene(s)
    ensures NearestBelow(s, 0, -1)
  {
  }

  lemma NearestOfAll(s: Scene, p: int)
    requires ValidScene(s) && NearestBelow(s, MAX_CLIENTS, p)
    ensures if s.near == {} then p == -1 else p != -1 && Nearest(s, p)
  {
    if p == -1 {
      assert forall q :: q !in s.near;
    }
  }

  class World {
    var characters: seq<Core?>

    constructor ()
      ensures characters == seq(MAX_CLIENTS, _ => null)
      ensures Valid() && Mirrored(Seats())
    {
      characters := seq(MAX_CLIENTS, _ => null);
    }

    ghost function Cores(): set<Core?>
      reads this
    {
      set c | c in characters && c != null
    }

    ghost predicate Valid()
      reads this
    {
      |characters| == MAX_CLIENTS && forall i | 0 <= i < MAX_CLIENTS && characters[i] != null :: characters[i].id == i
    }

    ghost function Seats(): Room
      requires Valid()
      reads this, Cores()`hookedPlayer, Cores()`attached
    {
      SeatsBelow(MAX_CLIENTS)
    }

    ghost function SeatsBelow(n: nat): (r: Room)
      requires n <= |characters|
      reads this, Cores()`hookedPlayer, Cores()`attached
      ensures |r| == n
      ensures forall i | 0 <= i < n ::
                r[i] == if characters[i] == null then Free else Taken(characters[i].hookedPlayer, characters[i].attached)
    {
      if n == 0 then []
      else
        SeatsBelow(n - 1) +
        [if characters[n - 1] == null then Free else Taken(characters[n - 1].hookedPlayer, characters[n - 1].attached)]
    }

    ghost function AsCrowd(): Crowd
      requires Valid()
      reads this, Cores()
    {
      CrowdBelow(MAX_CLIENTS)
    }

    ghost function CrowdBelow(n: nat): (w: Crowd)
      requires n <= |characters|
      reads this, Cores()
      ensures |w| == n
      ensures forall i | 0 <= i < n ::
                w[i] == if characters[i] == null then Empty else Filled(characters[i].AsTee(), characters[i].attached)
    {
      if n == 0 then []
      else
        CrowdBelow(n - 1) +
        [if characters[n - 1] == null then Empty else Filled(characters[n - 1].AsTee(), characters[n - 1].attached)]
    }

    /** All characters are of this world, and the attached sets are the inverse of the hooked relation. */
    ghost predicate Ready()
      reads this, Cores()
    {
      && Valid() && Mirrored(Seats())
      && forall i | 0 <= i < MAX_CLIENTS && characters[i] != null ::
           characters[i].world == this && -1 <= characters[i].hookedPlayer < MAX_CLIENTS
    }

    lemma CrowdSeats()
      requires Valid()
      ensures SeatsOf(AsCrowd()) == Seats()
    {
      hide Core.AsJump;
    }

    /** Character `k` ticks. */
    method TickOf(k: nat, s: Scene) returns (ghost e: Event)
      requires Ready() && k < MAX_CLIENTS && characters[k] != null && ValidScene(s)
      modifies Cores()
      ensures e.Tick? && e.scene == characters[k].Seen(s)
      ensures Ready() && WorldStep(old(AsCrowd()), k, e, AsCrowd())
    {
      hide Step, Ticks, Mirrored, Relink, Rehooks, Core.AsJump, Core.Seen, World.Seats;
      var c := characters[k];
      ghost var w, t := AsCrowd(), c.AsTee();
      CrowdSeats();
      e := Event.Tick(c.Seen(s));
      c.Tick(s);
      CrowdSeats();
      TickIsStep(t, e, c.AsTee());
      assert OthersSame(w, k, AsCrowd());
    }

    /** Somebody sets the hooked player of character `k`. */
    method CallOf(k: nat, p: int)
      requires Ready() && k < MAX_CLIENTS && characters[k] != null && -1 <= p < MAX_CLIENTS
      modifies Cores()
      ensures Ready() && WorldStep(old(AsCrowd()), k, SetHooked(p), AsCrowd())
    {
      hide Mirrored, Relink, Rehooks, Core.AsJump, World.Seats;
      var c := characters[k];
      ghost var w := AsCrowd();
      CrowdSeats();
      c.SetHookedPlayer(p);
      CrowdSeats();
      assert OthersSame(w, k, AsCrowd());
    }
  }

  lemma TickIsStep(t: Tee, e: Event, t': Tee)
    requires e.Tick? && ValidScene(e.scene) && Ticks(t, e.scene, t')
    ensures Step(t, e, t')
  {
  }

  class Core {
    const world: World?
    const id: int
    var hookState: int
    var hookTick: int
    var hookedPlayer: int
    var attached: set<int>
    var jumped: bv32
    var jumpedTotal: int
    var events: set<CoreEvent>

    constructor (world: World?, id: int)
      ensures this.world == world && this.id == id && attached == {}
      ensures AsTee() == Tee(Hook(HOOK_IDLE, 0, -1), Jump(false, false, 0))
    {
      this.world, this.id := world, id;
      hookState, hookTick, hookedPlayer, attached := HOOK_IDLE, 0, -1, {};
      jumped, jumpedTotal, events := 0, 0, {};
    }

    ghost function AsHook(): Hook
      reads this`hookState, this`hookTick, this`hookedPlayer
    {
      Hook(hookState, hookTick, hookedPlayer)
    }

    ghost function AsJump(): Jump
      reads this`jumped, this`jumpedTotal
    {
      Jump(jumped & 1 != 0, jumped & 2 != 0, jumpedTotal)
    }

    ghost function AsTee(): Tee
      reads this
    {
      Tee(AsHook(), AsJump())
    }

    /** A character with an id has its slot in the world. */
    ghost predicate Placed()
      reads world
    {
      && -1 <= id < MAX_CLIENTS
      && (world != null ==> world.Valid() && (id != -1 ==> world.characters[id] == this))
    }

    ghost function Around(): set<Core?>
      reads world
    {
      if world == null then {} else world.Cores()
    }

    ghost function Seats(): Room
      requires Placed()
      reads world, Around()`hookedPlayer, Around()`attached
    {
      if world == null then [] else world.Seats()
    }

    /** Every attached set of the world is the inverse of the hooked relation. */
    ghost predicate Valid()
      reads world, this`hookedPlayer, Around()`hookedPlayer, Around()`attached
    {
      Placed() && Mirrored(Seats()) && -1 <= hookedPlayer < MAX_CLIENTS
    }

    lemma AsItIs()
      requires Valid()
      ensures Rehooks(Seats(), id, hookedPlayer, Seats())
    {
      RehooksSame(Seats(), id, hookedPlayer);
    }

    /** The scene, told apart by who is there: only others can be near, only those present kept. */
    ghost function Seen(s: Scene): (r: Scene)
      requires Placed() && ValidScene(s)
      reads world
      ensures ValidScene(r)
    {
      s.(inWorld := world != null,
         near := (set q | q in s.near && world != null && world.characters[q] != null && world.characters[q] != this),
         kept := (set q | q in s.kept && world != null && id != -1 && 0 <= q < MAX_CLIENTS && world.characters[q] != null))
    }

    lemma SeenIs(s: Scene)
      requires Placed() && ValidScene(s)
      ensures var r := Seen(s);
              && r == s.(inWorld := world != null, near := r.near, kept := r.kept)
              && (forall q | 0 <= q < MAX_CLIENTS && world != null ::
                    q in r.near <==> q in s.near && world.characters[q] != null && world.characters[q] != this)
              && (world == null ==> r.near == {})
              && (forall q | 0 <= q < MAX_CLIENTS && world != null && id != -1 ::
                    q in r.kept <==> q in s.kept && world.characters[q] != null)
              && (world == null || id == -1 ==> r.kept == {})
    {
    }

    /** Who is there does not matter to the keys. */
    lemma AsSeen(s: Scene, t: Tee)
      requires Placed() && ValidScene(s)
      ensures HookKeyed(t.hook, Seen(s)) == HookKeyed(t.hook, s) && MayLaunch(t.hook, Seen(s)) == MayLaunch(t.hook, s)
      ensures JumpTicks(t.jump, Seen(s)) == JumpTicks(t.jump, s) && JumpReports(t.jump, Seen(s)) == JumpReports(t.jump, s)
    {
    }

    /** Leaves the set of the character that is hooked and enters that of the one in slot `p`. */
    method UpdateAttached(p: int)
      requires Placed() && -1 <= hookedPlayer < MAX_CLIENTS && -1 <= p < MAX_CLIENTS && p != hookedPlayer
      modifies Around()`attached
      ensures forall c | c in Around() && c != null ::
                c.attached == if id == -1 then old(c.attached) else Reattached(old(c.attached), c.id, id, hookedPlayer, p)
    {
      if hookedPlayer != -1 && id != -1 && world != null {
        var c := world.characters[hookedPlayer];
        if c != null {
          c.attached := c.attached - {id};
        }
      }
      if p != -1 && id != -1 && world != null {
        var c := world.characters[p];
        if c != null {
          c.attached := c.attached + {id};
        }
      }
    }

    /** Changes no other character's hook; keeps every attached set the inverse of the hooked relation. */
    method SetHookedPlayer(p: int)
      requires Placed() && -1 <= hookedPlayer < MAX_CLIENTS && -1 <= p < MAX_CLIENTS
      modifies this`hookedPlayer, Around()`attached
      ensures hookedPlayer == p
      ensures Seats() == if Sits(old(Seats()), id) then Relink(old(Seats()), id, p) else old(Seats())
      ensures old(Mirrored(Seats())) ==> Rehooks(old(Seats()), id, p, Seats()) && Mirrored(Seats())
    {
      hide Mirrored, Rehooks;
      ghost var room := Seats();
      if p != hookedPlayer {
        UpdateAttached(p);
        hookedPlayer := p;
      }
      assert Seats() == if Sits(room, id) then Relink(room, id, p) else room;
      if Mirrored(room) {
        RelinkRehooks(room, id, p, Seats());
      }
    }

    method HandleJump(s: Scene)
      requires s.useInput
      modifies this`jumped, this`jumpedTotal, this`events
      ensures Landed(AsJump(), s) == JumpTicks(old(AsJump()), s)
      ensures events == old(events) + JumpReports(old(AsJump()), s)
    {
      if s.jumpKey {
        if jumped & 1 == 0 {
          if s.grounded && (jumped & 2 == 0 || s.jumps != 0) {
            events := events + {GroundJump};
            if s.jumps > 1 {
              jumped := jumped | 1;
            } else {
              jumped := jumped | 3;
            }
            jumpedTotal := 0;
          } else if jumped & 2 == 0 {
            events := events + {AirJump};
            jumped := jumped | 3;
            jumpedTotal := jumpedTotal + 1;
          }
        }
      } else {
        jumped := jumped & !1;
      }
    }

    method HandleHook(s: Scene)
      requires Valid() && s.useInput
      modifies this`hookState, this`hookTick, this`hookedPlayer, this`events, Around()`attached
      ensures AsHook() == HookKeyed(old(AsHook()), s)
      ensures events == old(events) + if MayLaunch(old(AsHook()), s) then {HookLaunch} else {}
      ensures Valid() && Rehooks(old(Seats()), id, hookedPlayer, Seats())
    {
      hide Mirrored, Relink, Rehooks, World.Seats, Sits;
      AsItIs();
      if s.hookKey {
        if hookState == HOOK_IDLE {
          hookState := HOOK_FLYING;
          SetHookedPlayer(-1);
          hookTick := LaunchTick(s.hookDuration);
          events := events + {HookLaunch};
        }
      } else {
        SetHookedPlayer(-1);
        hookState := HOOK_IDLE;
      }
    }

    method Catch(p: int, ghost room: Room)
      requires Placed() && Mirrored(room) && -1 <= hookedPlayer < MAX_CLIENTS && 0 <= p < MAX_CLIENTS
      requires Rehooks(room, id, hookedPlayer, Seats()) && Mirrored(Seats())
      modifies this`hookState, this`hookedPlayer, this`events, Around()`attached
      ensures hookState == HOOK_GRABBED && hookedPlayer == p && events == old(events) + {AttachPlayer}
      ensures Rehooks(room, id, p, Seats()) && Mirrored(Seats())
    {
      hide Mirrored, Relink, Rehooks, World.Seats, Sits;
      ghost var was, before := hookedPlayer, Seats();
      events := events + {AttachPlayer};
      hookState := HOOK_GRABBED;
      SetHookedPlayer(p);
      RehooksTwice(room, id, was, before, p, Seats());
    }

    /** The hook takes the nearest of the other characters in its way. */
    method CatchPlayers(s: Scene)
      requires Valid() && ValidScene(s)
      modifies this`hookState, this`hookedPlayer, this`events, Around()`attached
      ensures Valid() && Rehooks(old(Seats()), id, hookedPlayer, Seats())
      ensures if old(hookedPlayer) == -1 && Seen(s).near != {} then
                hookState == HOOK_GRABBED && Nearest(Seen(s), hookedPlayer) && events == old(events) + {AttachPlayer}
              else AsHook() == old(AsHook()) && events == old(events)
    {
      hide Mirrored, Relink, Nearest, NearestBelow, Rehooks, World.Seats, Sits, Seen;
      SeenIs(s);
      AsItIs();
      ghost var seen, room, already := Seen(s), Seats(), hookedPlayer != -1;
      NearestNone(seen);
      if world != null {
        var distance := 0.0;
        var i := 0;
        while i < MAX_CLIENTS
          invariant 0 <= i <= MAX_CLIENTS && -1 <= hookedPlayer < MAX_CLIENTS
          invariant Rehooks(room, id, hookedPlayer, Seats()) && Mirrored(Seats())
          invariant already || hookedPlayer == -1 ==> AsHook() == old(AsHook()) && events == old(events)
          invariant already ==> distance == 0.0
          invariant !already ==> NearestBelow(seen, i, hookedPlayer)
          invariant !already && hookedPlayer != -1 ==>
                      hookState == HOOK_GRABBED && events == old(events) + {AttachPlayer} &&
                      distance == s.distance[hookedPlayer]
        {
          ghost var was := hookedPlayer;
          var c := world.characters[i];
          if c != null && c != this && i in s.near {
            if hookedPlayer == -1 || s.distance[i] < distance {
              Catch(i, room);
              distance := s.distance[i];
            }
          }
          if !already {
            NearestNext(seen, i, was, hookedPlayer);
          }
          i := i + 1;
        }
        if !already {
          NearestOfAll(seen, hookedPlayer);
        }
      }
    }

    method FlyHook(s: Scene)
      requires Valid() && ValidScene(s)
      requires hookState == HOOK_FLYING
      modifies this`hookState, this`hookTick, this`hookedPlayer, this`events, Around()`attached
      ensures Swings(old(AsHook()), Seen(s), AsHook())
      ensures events == if Teleports(old(AsHook()), Seen(s)) then {} else old(events) + SwingReports(old(AsHook()), Seen(s))
      ensures Valid() && Rehooks(old(Seats()), id, hookedPlayer, Seats())
    {
      hide Mirrored, Relink, Nearest, Rehooks, World.Seats, Sits, Seen;
      SeenIs(s);
      ghost var room := Seats();
      if s.tooFar {
        hookState := HOOK_RETRACT_START;
      }
      var goingToHitGround, goingToRetract, goingThroughTele := false, false, false;
      if s.hit != Nothing {
        if s.hit == NoHook {
          goingToRetract := true;
        } else if s.hit == TeleIn {
          goingThroughTele := true;
        } else {
          goingToHitGround := true;
        }
      }
      CatchPlayers(s);
      if hookState == HOOK_FLYING {
        if goingToHitGround {
          events := events + {AttachGround};
          hookState := HOOK_GRABBED;
        } else if goingToRetract {
          events := events + {HitNoHook};
          hookState := HOOK_RETRACT_START;
        }
        if goingThroughTele && world != null && s.teleOut {
          events := {};
          ghost var caught, before := hookedPlayer, Seats();
          SetHookedPlayer(-1);
          RehooksTwice(room, id, caught, before, -1, Seats());
        }
      }
    }

    /** The part of a tick that moves the hook along, whatever the keys did to it before. */
    method SwingHook(s: Scene)
      requires Valid() && ValidScene(s)
      modifies this`hookState, this`hookTick, this`hookedPlayer, this`events, Around()`attached
      ensures Swings(old(AsHook()), Seen(s), AsHook())
      ensures events == if Teleports(old(AsHook()), Seen(s)) then {} else old(events) + SwingReports(old(AsHook()), Seen(s))
      ensures Valid() && Rehooks(old(Seats()), id, hookedPlayer, Seats())
    {
      hide Mirrored, Relink, Nearest, Rehooks, World.Seats, Sits, Seen;
      SeenIs(s);
      AsItIs();
      if hookState == HOOK_IDLE {
        SetHookedPlayer(-1);
        hookState := HOOK_IDLE;
      } else if HOOK_RETRACT_START <= hookState < HOOK_RETRACT_END {
        hookState := hookState + 1;
      } else if hookState == HOOK_RETRACT_END {
        events := events + {HookRetract};
        hookState := HOOK_RETRACTED;
      } else if hookState == HOOK_FLYING {
        FlyHook(s);
      }
    }

    /** The part of a tick in which a hook holds what it has grabbed, or lets go of a player. */
    method HoldHook(s: Scene)
      requires Valid() && ValidScene(s)
      modifies this`hookState, this`hookTick, this`hookedPlayer, Around()`attached
      ensures AsHook() == Held(old(AsHook()), Seen(s))
      ensures Valid() && Rehooks(old(Seats()), id, hookedPlayer, Seats())
    {
      hide Mirrored, Relink, Nearest, Rehooks, World.Seats, Sits, Seen;
      SeenIs(s);
      AsItIs();
      if hookState == HOOK_GRABBED {
        if hookedPlayer != -1 && world != null {
          if world.characters[hookedPlayer] == null || id == -1 || hookedPlayer !in s.kept {
            SetHookedPlayer(-1);
            hookState := HOOK_RETRACTED;
          }
        }
        hookTick := hookTick + 1;
        if hookedPlayer != -1 && (hookTick > MAX_HOOK_TICK || (world != null && world.characters[hookedPlayer] == null)) {
          SetHookedPlayer(-1);
          hookState := HOOK_RETRACTED;
        }
      }
    }

    /** The part of a tick that looks at the keys and at the ground. */
    method HandleKeys(s: Scene)
      requires Valid()
      modifies this`hookState, this`hookTick, this`hookedPlayer, this`jumped, this`jumpedTotal, this`events
      modifies Around()`attached
      ensures AsHook() == HookKeyed(old(AsHook()), s) && AsJump() == JumpTicks(old(AsJump()), s)
      ensures events == old(events) + JumpReports(old(AsJump()), s) + if MayLaunch(old(AsHook()), s) then {HookLaunch} else {}
      ensures Valid() && Rehooks(old(Seats()), id, hookedPlayer, Seats())
    {
      hide Mirrored, Relink, Rehooks, World.Seats, Sits, JumpTicks, JumpReports, HookKeyed, MayLaunch, Landed;
      AsItIs();
      ghost var start := AsTee();
      if s.useInput {
        HandleJump(s);
        HandleHook(s);
      } else {
        WithoutInput(start, s);
      }
      assert Landed(AsJump(), s) == JumpTicks(start.jump, s);
      Land(s);
    }

    method Land(s: Scene)
      modifies this`jumped, this`jumpedTotal
      ensures AsJump() == Landed(old(AsJump()), s)
    {
      if s.grounded {
        jumped := jumped & !2;
        jumpedTotal := 0;
      }
    }

    /** The part of a tick that comes after the keys: the hook moves along, and holds or lets go. */
    method MoveHook(s: Scene) returns (ghost swung: Hook)
      requires Valid() && ValidScene(s)
      modifies this`hookState, this`hookTick, this`hookedPlayer, this`events, Around()`attached
      ensures Swings(old(AsHook()), Seen(s), swung) && AsHook() == Held(swung, Seen(s))
      ensures events == if Teleports(old(AsHook()), Seen(s)) then {} else old(events) + SwingReports(old(AsHook()), Seen(s))
      ensures Valid() && Rehooks(old(Seats()), id, hookedPlayer, Seats())
    {
      hide Mirrored, Relink, Rehooks, World.Seats, Sits, Seen, Swings, Held, SwingReports, Teleports;
      ghost var room := Seats();
      SwingHook(s);
      ghost var p1, room1 := hookedPlayer, Seats();
      swung := AsHook();
      HoldHook(s);
      RehooksTwice(room, id, p1, room1, hookedPlayer, Seats());
    }

    /** A tick makes one step of the run of this character and leaves the others' runs alone. */
    method Tick(s: Scene)
      requires Valid() && ValidScene(s)
      modifies this`hookState, this`hookTick, this`hookedPlayer, this`jumped, this`jumpedTotal, this`events
      modifies Around()`attached
      ensures Ticks(old(AsTee()), Seen(s), AsTee())
      ensures events == Reports(old(AsTee()), Seen(s))
      ensures Valid() && Rehooks(old(Seats()), id, hookedPlayer, Seats())
    {
      hide Mirrored, Relink, Rehooks, World.Seats, Sits, Seen, Swings, Held, JumpTicks;
      hide HookKeyed, SwingReports, JumpReports, Teleports, HookTicks, Ticks, Reports, AsJump, AsHook;
      AsSeen(s, AsTee());
      ghost var room, start := Seats(), AsTee();
      events := {};
      HandleKeys(s);
      ghost var p0, room0 := hookedPlayer, Seats();
      ghost var swung := MoveHook(s);
      RehooksTwice(room, id, p0, room0, hookedPlayer, Seats());
      TickIs(start, Seen(s), swung, AsTee());
      ReportsAre(start, Seen(s), events);
    }
  }
}
