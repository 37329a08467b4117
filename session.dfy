/** The smaller player-state handlers: `handleJoin`, `handleMove`,
    `handleJump`, `handleMegaTransform` and the player part of
    `removeConnection`. */
module Session {
  import opened Types
  import opened Tables
  import opened WorldInvariant
  import opened Progression
  import opened Collision

  /** The world before any level is loaded: no players, no platforms, level 0. */
  const Empty := WorldState(map[], [], [], [], None, None, 0, [])

  /** `initializeGameState()`: load level 0. */
  function ColdStart(): (w: WorldState)
    ensures Inv(w) && PhaseOf(w) == InLevel(0) && w.players == map[]
  {
    LoadLevelInv(Empty, 0);
    LoadLevel(Empty, 0).world
  }

  /** The key order after `players[id] = ...`: an existing key keeps its
      place, a new one goes last. */
  function Enlist(order: seq<Id>, id: Id): (r: seq<Id>)
    ensures id in r && forall x :: x in order ==> x in r
    ensures |order| <= |r| <= |order| + 1 && r[..|order|] == order
    ensures |r| == |order| <==> id in order
    ensures forall x :: x in r ==> x in order || x == id
    ensures NoDup(order) ==> NoDup(r)
  {
    if id in order then order else order + [id]
  }

  /** `handleJoin`: load level 0 if no level is loaded, (re)create the
      player, confirm to it, send it the whole world, and tell everyone else. */
  function Join(w: WorldState, id: Id): (r: Transition)
  {
    var w0 := if |w.platforms| == 0 then LoadLevel(w, 0).world else w;
    var w1 := w0.(players := w0.players[id := NewPlayer()], order := Enlist(w0.order, id));
    Transition(w1, [Message(Only(id), Joined(id)), Message(Only(id), GameState(w1)),
                    Message(EveryoneBut(id), UpdateOf(id, NewPlayer()))])
  }

  /** After a join the player is fresh (a re-join resets it, keeping its
      place in the key order), nobody else changes, the joiner is sent its
      confirmation and then the world that includes it, and everyone else
      hears of it; a world without platforms is first initialised. */
  lemma JoinOutcome(w: WorldState, id: Id)
    requires KeyOrder(w.order, w.players)
    ensures var r := Join(w, id);
      && r.world.players[id] == NewPlayer()
      && r.world.players.Keys == w.players.Keys + {id}
      && (|w.platforms| > 0 ==>
            && (forall other :: other in w.players && other != id ==> r.world.players[other] == w.players[other])
            && r.world.enemies == w.enemies && r.world.currentLevel == w.currentLevel)
      && (|w.platforms| == 0 ==> r.world.currentLevel == 0 && r.world.platforms == Levels()[0].platforms)
      && (id in w.players ==> r.world.order == w.order)
      && (id !in w.players ==> r.world.order == w.order + [id])
      && KeyOrder(r.world.order, r.world.players)
      && r.out[0] == Message(Only(id), Joined(id))
      && r.out[1] == Message(Only(id), GameState(r.world))
      && r.out[2].to == EveryoneBut(id) && r.out[2].event.PlayerUpdate? && r.out[2].event.id == id
      && |r.out| == 3
  {
  }

  lemma JoinInv(w: WorldState, id: Id)
    requires Inv(w)
    ensures Inv(Join(w, id).world) && PhaseOf(Join(w, id).world) == PhaseOf(w)
  {
  }

  /** `handleMove` for a present player: take the reported position,
      velocity and jump flag, then run the collision check. */
  function Move(w: WorldState, id: Id, pos: Vec, vel: Vec, jumping: bool, crit: bool): (r: Transition)
    ensures id !in w.players ==> r == Transition(w, [])
  {
    if id !in w.players then Transition(w, [])
    else
      var w1 := w.(players := w.players[id := w.players[id].(pos := pos, vel := vel, jumping := jumping)]);
      var c := CheckCollisions(w1, id, crit);
      if id in c.world.players then
        var p := c.world.players[id];
        Transition(c.world, c.out + [Message(EveryoneBut(id), PlayerUpdate(id, pos, vel, jumping, p.health, p.maxHealth, p.isMegaChicken))])
      else
        // `gameState.players[connectionId].health` throws once the check has
        // removed the player: the changes and messages so far stand, the
        // update is never sent, and the handler answers 500.
        c
  }

  /** Whether `handleMove` fails with the TypeError: the check removed the
      mover. */
  predicate MoveFails(w: WorldState, id: Id, pos: Vec, vel: Vec, jumping: bool, crit: bool)
  {
    id in w.players && id !in Move(w, id, pos, vel, jumping, crit).world.players
  }

  /** A move of a present player ends with the `playerUpdate` to everyone
      else, carrying the reported position and velocity and the health after
      the collision check (even when a contact respawned the player at the
      spawn point), unless the check removed the player; then the last
      message is its zero-health damage report and no update is sent. */
  lemma MoveOutcome(w: WorldState, id: Id, pos: Vec, vel: Vec, jumping: bool, crit: bool)
    requires id in w.players
    ensures var r := Move(w, id, pos, vel, jumping, crit);
      && (!MoveFails(w, id, pos, vel, jumping, crit) ==>
            && id in r.world.players
            && ((r.world.players[id].pos == pos && r.world.players[id].vel == vel)
                || (r.world.players[id].pos == SpawnPos && r.world.players[id].vel == Still))
            && r.out[|r.out| - 1] ==
                 Message(EveryoneBut(id), PlayerUpdate(id, pos, vel, jumping, r.world.players[id].health,
                                                       r.world.players[id].maxHealth, r.world.players[id].isMegaChicken)))
      && (MoveFails(w, id, pos, vel, jumping, crit) ==>
            && Count(r.out, PlayerLeftK) == 1
            && r.out[|r.out| - 1] == Message(Only(id), PlayerDamaged(25, 0))
            && Count(r.out, PlayerUpdateK) == 0)
  {
    if MoveFails(w, id, pos, vel, jumping, crit) {
      MoveFailure(w, id, pos, vel, jumping, crit);
    } else {
      MoveUpdate(w, id, pos, vel, jumping, crit);
    }
  }

  lemma MoveUpdate(w: WorldState, id: Id, pos: Vec, vel: Vec, jumping: bool, crit: bool)
    requires id in w.players && !MoveFails(w, id, pos, vel, jumping, crit)
    ensures var r := Move(w, id, pos, vel, jumping, crit);
      && id in r.world.players
      && ((r.world.players[id].pos == pos && r.world.players[id].vel == vel)
          || (r.world.players[id].pos == SpawnPos && r.world.players[id].vel == Still))
      && r.out[|r.out| - 1] ==
           Message(EveryoneBut(id), PlayerUpdate(id, pos, vel, jumping, r.world.players[id].health,
                                                 r.world.players[id].maxHealth, r.world.players[id].isMegaChicken))
  {
    var w1 := w.(players := w.players[id := w.players[id].(pos := pos, vel := vel, jumping := jumping)]);
    if w1.players[id].invulnerable <= 0 && FirstContact(w1.players[id], w1.enemies).Some? {
      assert CheckCollisions(w1, id, crit) == ContactHit(w1, id, crit);
    }
  }

  lemma MoveFailure(w: WorldState, id: Id, pos: Vec, vel: Vec, jumping: bool, crit: bool)
    requires MoveFails(w, id, pos, vel, jumping, crit)
    ensures var r := Move(w, id, pos, vel, jumping, crit);
      && Count(r.out, PlayerLeftK) == 1
      && r.out[|r.out| - 1] == Message(Only(id), PlayerDamaged(25, 0))
      && Count(r.out, PlayerUpdateK) == 0
  {
    var w1 := w.(players := w.players[id := w.players[id].(pos := pos, vel := vel, jumping := jumping)]);
    var c := CheckCollisions(w1, id, crit);
    CheckCollisionsRemoves(w1, id, crit);
    assert Move(w, id, pos, vel, jumping, crit) == c;
    DepartureCounts(id);
  }

  /** The messages of a removal by contact: one departure, no update. */
  lemma DepartureCounts(id: Id)
    ensures var out := [Message(Everyone, PlayerLeft(id)), Message(Only(id), PlayerDamaged(ContactDamage, 0))];
      Count(out, PlayerLeftK) == 1 && Count(out, PlayerUpdateK) == 0
  {
    var out := [Message(Everyone, PlayerLeft(id)), Message(Only(id), PlayerDamaged(ContactDamage, 0))];
    assert out[..1] == [out[0]] && out[..1][..0] == [];
  }

  /** A player that was once made invulnerable is never again damaged by
      contact nor rescues Zeldina: its moves only set position, velocity and
      jump flag and announce it. */
  lemma MoveWhileInvulnerable(w: WorldState, id: Id, pos: Vec, vel: Vec, jumping: bool, crit: bool)
    requires id in w.players && w.players[id].invulnerable > 0
    ensures var r := Move(w, id, pos, vel, jumping, crit);
      var p := w.players[id];
      && r.world == w.(players := w.players[id := p.(pos := pos, vel := vel, jumping := jumping)])
      && r.out == [Message(EveryoneBut(id), PlayerUpdate(id, pos, vel, jumping, p.health, p.maxHealth, p.isMegaChicken))]
  {
  }

  lemma MoveInv(w: WorldState, id: Id, pos: Vec, vel: Vec, jumping: bool, crit: bool)
    requires Inv(w)
    ensures var r := Move(w, id, pos, vel, jumping, crit).world;
      Inv(r) && PhaseStep(PhaseOf(w), PhaseOf(r)) && r.currentLevel == w.currentLevel
  {
    if id in w.players {
      var w1 := w.(players := w.players[id := w.players[id].(pos := pos, vel := vel, jumping := jumping)]);
      assert Inv(w1);
      CheckCollisionsInv(w1, id, crit);
    }
  }

  /** `handleJump`: a player on the ground gets vertical velocity -15 and is
      marked jumping, and everyone (itself included) is told. */
  function Jump(w: WorldState, id: Id): (r: Transition)
    ensures id !in w.players || w.players[id].jumping ==> r == Transition(w, [])
    ensures id in w.players && !w.players[id].jumping ==>
      && id in r.world.players
      && var p := r.world.players[id];
      && r.world == w.(players := w.players[id := p])
      && p == w.players[id].(vel := Vec(w.players[id].vel.x, -15), jumping := true)
      && r.out == [Message(Everyone, UpdateOf(id, p))]
  {
    if id in w.players && !w.players[id].jumping then
      var p := w.players[id];
      var p' := p.(vel := p.vel.(y := -15), jumping := true);
      Transition(w.(players := w.players[id := p']), [Message(Everyone, UpdateOf(id, p'))])
    else Transition(w, [])
  }

  /** A second jump before landing changes nothing. */
  lemma JumpTwice(w: WorldState, id: Id)
    ensures var r := Jump(w, id);
      Jump(r.world, id) == Transition(r.world, [])
  {
  }

  /** `handleMegaTransform`: a player holding a golden egg spends it to
      become a Mega Chicken with 200 of 200 health for 1800 frames. */
  function Transform(w: WorldState, id: Id): (r: Transition)
    ensures id !in w.players || !w.players[id].hasGoldenEgg <==> r == Transition(w, [])
    ensures id in w.players && w.players[id].hasGoldenEgg ==>
      && id in r.world.players
      && r.world == w.(players := w.players[id := r.world.players[id]])
      && r.world.players[id] == w.players[id].(isMegaChicken := true, megaChickenTimer := 1800,
                                                maxHealth := 200, health := 200, hasGoldenEgg := false)
      && r.out == [Message(Everyone, MegaTransform(id, true))]
  {
    if id !in w.players || !w.players[id].hasGoldenEgg then Transition(w, [])
    else
      var p := w.players[id];
      var p' := p.(isMegaChicken := true, megaChickenTimer := 1800, maxHealth := 200, health := 200, hasGoldenEgg := false);
      Transition(w.(players := w.players[id := p']), [Message(Everyone, MegaTransform(id, true))])
  }

  /** The egg is consumed: transforming twice in a row succeeds once. */
  lemma TransformOnce(w: WorldState, id: Id)
    ensures var r := Transform(w, id);
      Transform(r.world, id) == Transition(r.world, [])
  {
  }

  /** The player part of `removeConnection`. */
  function RemoveConnection(w: WorldState, id: Id): (r: Transition)
    ensures id !in r.world.players
    ensures id !in w.players ==> r == Transition(w, [])
    ensures id in w.players ==>
      && r.world == w.(players := w.players - {id}, order := Without(w.order, id))
      && r.out == [Message(Everyone, PlayerLeft(id))]
  {
    if id in w.players then
      Transition(w.(players := w.players - {id}, order := Without(w.order, id)), [Message(Everyone, PlayerLeft(id))])
    else Transition(w, [])
  }

  /** Removing a connection twice is removing it once. */
  lemma RemoveConnectionIdempotent(w: WorldState, id: Id)
    ensures var r := RemoveConnection(w, id);
      RemoveConnection(r.world, id) == Transition(r.world, [])
  {
  }

  /** `handleJump` keeps the world invariant and the phase. */
  lemma JumpInv(w: WorldState, id: Id)
    requires Inv(w)
    ensures Inv(Jump(w, id).world) && PhaseOf(Jump(w, id).world) == PhaseOf(w)
  {
  }

  /** `handleMegaTransform` keeps the world invariant and the phase. */
  lemma TransformInv(w: WorldState, id: Id)
    requires Inv(w)
    ensures Inv(Transform(w, id).world) && PhaseOf(Transform(w, id).world) == PhaseOf(w)
  {
  }

  /** Removing a connection keeps the world invariant and the phase. */
  lemma RemoveConnectionInv(w: WorldState, id: Id)
    requires Inv(w)
    ensures Inv(RemoveConnection(w, id).world) && PhaseOf(RemoveConnection(w, id).world) == PhaseOf(w)
  {
  }
}
