/** The server as it runs: the module-level `gameState` is an object whose
    handlers update its fields in place, and `outbox` collects every message
    sent, in order. Each handler is proved to do exactly what the
    corresponding function on `WorldState` describes, so every property proved
    about those functions holds of the object. */
module Server {
  import opened Types
  import opened Tables
  import opened Geometry
  import opened Combat
  import opened AttackProperties
  import opened WorldInvariant
  import opened Progression
  import opened Collision
  import opened Stomp
  import opened Session
  import opened Dispatch

  class GameServer {
    var players: map<Id, Player>
    var order: seq<Id>
    var enemies: seq<Enemy>
    var platforms: seq<Platform>
    var zeldina: Option<Zeldina>
    var boss: Option<Boss>
    var currentLevel: nat
    var projectiles: seq<Projectile>
    /** Every message sent so far, in order. */
    var outbox: seq<Message>

    /** The fields of `gameState` as one value. */
    function State(): WorldState
      reads this
    {
      WorldState(players, order, enemies, platforms, zeldina, boss, currentLevel, projectiles)
    }

    ghost predicate Valid()
      reads this
    {
      Inv(State())
    }

    /** The cold start: the empty `gameState`, then `initializeGameState()`. */
    constructor ()
      ensures State() == ColdStart() && outbox == []
      ensures Valid() && PhaseOf(State()) == InLevel(0)
    {
      players, order, enemies, platforms := map[], [], [], [];
      zeldina, boss, currentLevel, projectiles := None, None, 0, [];
      outbox := [];
      new;
      var _ := LoadLevel(0);
    }

    /** `loadLevel(levelIndex)`. */
    method LoadLevel(i: nat) returns (ok: bool)
      modifies this
      ensures var r := Progression.LoadLevel(old(State()), i);
        ok == r.ok && State() == r.world
      ensures outbox == old(outbox)
    {
      if i >= |Levels()| {
        return false;
      }
      var level := Levels()[i];
      currentLevel := i;
      platforms := level.platforms;
      enemies := level.enemies;
      zeldina := Some(level.zeldina);
      boss := None;
      projectiles := [];
      ResetPlayers();
      return true;
    }

    /** The player loop of `loadLevel`: every player is reset, one key at a
        time; the resets are independent, so the order of the keys does not
        matter. */
    method ResetPlayers()
      modifies this`players
      ensures players == map id | id in old(players) :: ResetPlayer(old(players)[id])
    {
      ghost var ps0 := players;
      var todo := players.Keys;
      while todo != {}
        invariant todo <= ps0.Keys && players.Keys == ps0.Keys
        invariant forall id :: id in ps0 ==> players[id] == if id in todo then ps0[id] else ResetPlayer(ps0[id])
        decreases todo
      {
        var id :| id in todo;
        var p := players[id];
        players := players[id := p.(pos := SpawnPos, vel := Still,
                                    lives := if p.lives != 0 then p.lives else 3,
                                    health := MaxHealthOrDefault(p))];
        todo := todo - {id};
      }
    }

    /** `handleJoin`. */
    method HandleJoin(id: Id) returns (resp: Response)
      modifies this
      ensures var t := Join(old(State()), id);
        State() == t.world && outbox == old(outbox) + t.out
      ensures resp == Response(200, "Joined")
    {
      if |platforms| == 0 {
        var _ := LoadLevel(0);
      }
      players := players[id := NewPlayer()];
      if id !in order {
        order := order + [id];
      }
      outbox := outbox + [Message(Only(id), Joined(id))];
      outbox := outbox + [Message(Only(id), GameState(State()))];
      outbox := outbox + [Message(EveryoneBut(id), UpdateOf(id, players[id]))];
      return Response(200, "Joined");
    }

    /** `checkCollisions(playerId)`: the first enemy the player runs into
        damages it and ends the check; without one, an un-rescued Zeldina
        within reach is rescued and the boss spawns. */
    method CheckCollisions(id: Id, crit: bool)
      modifies this`players, this`order, this`outbox, this`zeldina, this`boss
      ensures var t := Collision.CheckCollisions(old(State()), id, crit);
        State() == t.world && outbox == old(outbox) + t.out
    {
      if id !in players || players[id].invulnerable > 0 {
        return;
      }
      var p := players[id];
      var j := 0;
      while j < |enemies| && !Contact(p, enemies[j])
        invariant j <= |enemies|
        invariant forall m :: 0 <= m < j ==> !Contact(p, enemies[m])
      {
        j := j + 1;
      }
      if j < |enemies| {
        assert FirstContact(p, enemies) == Some(j);
        TakeContact(id, crit);
        return;
      }
      assert FirstContact(p, enemies).None?;
      if zeldina.Some? && !zeldina.value.rescued && Reaches(p, zeldina.value) {
        zeldina := Some(zeldina.value.(rescued := true));
        boss := Some(BossStart);
        outbox := outbox + [Message(Everyone, ZeldinaRescued)];
        outbox := outbox + [Message(Everyone, BossSpawned(BossStart))];
      }
    }

    /** The contact branch of `checkCollisions`: damage, then respawn or
        removal, and the damage report. */
    method TakeContact(id: Id, crit: bool)
      requires id in players
      modifies this`players, this`order, this`outbox
      ensures var t := ContactHit(old(State()), id, crit);
        State() == t.world && outbox == old(outbox) + t.out
    {
      var p := players[id];
      var d := ApplyDamage(p.health, ContactDamage, false, crit);
      var hurt := p.(health := d.health, invulnerable := 120);
      var reported := d.health;
      if d.health > 0 {
        players := players[id := hurt];
      } else if p.lives - 1 > 0 {
        players := players[id := hurt.(lives := p.lives - 1, health := p.maxHealth, pos := SpawnPos, vel := Still)];
        reported := p.maxHealth;
      } else {
        players := players - {id};
        order := Without(order, id);
        outbox := outbox + [Message(Everyone, PlayerLeft(id))];
      }
      outbox := outbox + [Message(Only(id), PlayerDamaged(ContactDamage, reported))];
    }

    /** `handleMove`. Reading the mover's health after the collision check
        removed it throws; the handler's `catch` turns that into the 500
        answer, keeping what the check did. */
    method HandleMove(id: Id, pos: Vec, vel: Vec, jumping: bool, crit: bool) returns (resp: Response)
      modifies this
      ensures var t := Move(old(State()), id, pos, vel, jumping, crit);
        State() == t.world && outbox == old(outbox) + t.out
      ensures resp == if MoveFails(old(State()), id, pos, vel, jumping, crit)
                      then Response(500, "Internal server error") else Response(200, "Moved")
    {
      if id in players {
        players := players[id := players[id].(pos := pos, vel := vel, jumping := jumping)];
        CheckCollisions(id, crit);
        if id !in players {
          return Response(500, "Internal server error");
        }
        var p := players[id];
        outbox := outbox + [Message(EveryoneBut(id), PlayerUpdate(id, pos, vel, jumping, p.health, p.maxHealth, p.isMegaChicken))];
      }
      return Response(200, "Moved");
    }

    /** `handleJump`. */
    method HandleJump(id: Id) returns (resp: Response)
      modifies this
      ensures var t := Jump(old(State()), id);
        State() == t.world && outbox == old(outbox) + t.out
      ensures resp == Response(200, "Jumped")
    {
      if id in players && !players[id].jumping {
        var p := players[id];
        players := players[id := p.(vel := p.vel.(y := -15), jumping := true)];
        outbox := outbox + [Message(Everyone, UpdateOf(id, players[id]))];
      }
      return Response(200, "Jumped");
    }

    /** `handleMegaTransform`. */
    method HandleMegaTransform(id: Id) returns (resp: Response)
      modifies this
      ensures var t := Transform(old(State()), id);
        State() == t.world && outbox == old(outbox) + t.out
      ensures resp == if id in old(players) && old(players)[id].hasGoldenEgg
                      then Response(200, "Mega transformation activated") else Response(200, "Transformation failed")
    {
      if id !in players || !players[id].hasGoldenEgg {
        return Response(200, "Transformation failed");
      }
      var p := players[id];
      players := players[id := p.(isMegaChicken := true, megaChickenTimer := 1800, maxHealth := 200,
                                  health := 200, hasGoldenEgg := false)];
      outbox := outbox + [Message(Everyone, MegaTransform(id, true))];
      return Response(200, "Mega transformation activated");
    }

    /** The player part of `removeConnection`. */
    method RemoveConnection(id: Id)
      modifies this
      ensures var t := Session.RemoveConnection(old(State()), id);
        State() == t.world && outbox == old(outbox) + t.out
    {
      if id in players {
        players := players - {id};
        order := Without(order, id);
        outbox := outbox + [Message(Everyone, PlayerLeft(id))];
      }
    }

    /** The backwards stomp loop of `handleSmash` for player `p`: an enemy
        `p` lands on is spliced out and announced. */
    method StompEnemies(p: Player)
      modifies this`enemies, this`outbox
      ensures var s := StompPass(p, old(enemies));
        enemies == s.survivors && outbox == old(outbox) + s.out
    {
      ghost var es := enemies;
      var i := |enemies|;
      assert es[i..] == [];
      while i > 0
        invariant 0 <= i <= |es|
        invariant enemies == es[..i] + StompPass(p, es[i..]).survivors
        invariant outbox == old(outbox) + StompPass(p, es[i..]).out
      {
        i := i - 1;
        assert es[i..][1..] == es[i + 1..];
        assert enemies[i] == es[i];
        var e := enemies[i];
        if Stomps(p, e) {
          enemies := enemies[..i] + enemies[i + 1..];
          outbox := outbox + [Message(Everyone, EnemyKilled(e.pos))];
        } else {
          assert es[..i + 1] == es[..i] + [e];
        }
      }
      assert es[0..] == es;
    }

    /** The boss part of `handleSmash` for player `p`. */
    method StompBoss(p: Player)
      modifies this
      ensures var t := BossStomp(old(State()), p);
        State() == t.world && outbox == old(outbox) + t.out
    {
      if boss.Some? && StompsBoss(p, boss.value) {
        boss := Some(boss.value.(health := boss.value.health - 1));
        if boss.value.health <= 0 {
          boss := None;
          currentLevel := currentLevel + 1;
          if currentLevel >= |Levels()| {
            outbox := outbox + [Message(Everyone, GameWin)];
          } else {
            var _ := LoadLevel(currentLevel);
            outbox := outbox + [Message(Everyone, LevelComplete(currentLevel, State()))];
          }
        } else {
          outbox := outbox + [Message(Everyone, BossUpdate(boss.value))];
        }
      }
    }

    /** `handleSmash`: the stomp loop over the enemies, then the boss. */
    method HandleSmash(id: Id) returns (resp: Response)
      modifies this
      ensures var t := Smash(old(State()), id);
        State() == t.world && outbox == old(outbox) + t.out
      ensures resp == Response(200, if id in old(players) then "Smashed" else "No player")
    {
      if id !in players {
        return Response(200, "No player");
      }
      var p := players[id];
      StompEnemies(p);
      StompBoss(p);
      return Response(200, "Smashed");
    }

    /** One iteration of the player loop of `handleAttack`, for key `id`, on
        the loop state `s` the fields hold. */
    method StrikePlayer(a: Strike, id: Id, crits: set<Id>, hits0: seq<Hit>, ghost s: PlayerPassState, ghost out0: seq<Message>)
        returns (hits: seq<Hit>)
      requires players == s.players && order == s.order && hits0 == s.hits && outbox == out0 + s.out
      modifies this`players, this`order, this`outbox
      ensures var s' := HitPlayer(s, a, id, crits);
        players == s'.players && order == s'.order && hits == s'.hits && outbox == out0 + s'.out
    {
      hits := hits0;
      if id != a.attacker && id in players {
        var target := players[id];
        if InRange(a.origin, target.pos, a.range) {
          var d := ApplyDamage(target.health, a.damage, true, id in crits);
          hits := hits + [PlayerHit(id, d.dealt, target.pos)];
          if d.health > 0 {
            players := players[id := target.(health := d.health)];
          } else if target.lives - 1 > 0 {
            players := players[id := target.(lives := target.lives - 1, health := MaxHealthOrDefault(target),
                                             pos := SpawnPos, invulnerable := 180)];
          } else {
            players := players - {id};
            order := Without(order, id);
            outbox := outbox + [Message(Everyone, PlayerEliminated(id, a.attacker))];
          }
        }
      }
    }

    /** The player loop of `handleAttack`: the players in key order (a player
        removed earlier in the loop is skipped), each one other than the
        attacker and within reach damaged, respawned or eliminated. */
    method StrikePlayers(a: Strike, crits: set<Id>) returns (hits: seq<Hit>)
      modifies this`players, this`order, this`outbox
      ensures var s := PlayerPass(PlayerPassState(old(players), old(order), [], []), a, old(order), crits);
        players == s.players && order == s.order && hits == s.hits && outbox == old(outbox) + s.out
    {
      ghost var s0 := PlayerPassState(players, order, [], []);
      hits := [];
      var ids := order;
      var k := 0;
      while k < |ids|
        invariant 0 <= k <= |ids|
        invariant var s := PlayerPass(s0, a, ids[..k], crits);
          players == s.players && order == s.order && hits == s.hits && outbox == old(outbox) + s.out
      {
        PlayerPassStep(s0, a, ids, k, crits);
        hits := StrikePlayer(a, ids[k], crits, hits, PlayerPass(s0, a, ids[..k], crits), old(outbox));
        k := k + 1;
      }
      assert ids[..k] == ids;
    }

    /** The players after the enemy loop: the attacker holds a golden egg
        once one dropped. */
    static function WithEgg(ps: map<Id, Player>, attacker: Id, egg: bool): map<Id, Player>
      requires attacker in ps
    {
      if egg then ps[attacker := ps[attacker].(hasGoldenEgg := true)] else ps
    }

    /** One iteration of the enemy loop of `handleAttack`, for enemy `e` at
        index `i`, after the enemies behind it were processed into `r`. */
    method StrikeEnemy(a: Strike, i: nat, crits: set<nat>, drops: set<nat>, hits0: seq<Hit>,
                       ghost pre: seq<Enemy>, ghost e: Enemy, ghost r: EnemyPassResult,
                       ghost ps: map<Id, Player>, ghost base: seq<Hit>, ghost out0: seq<Message>)
        returns (hits: seq<Hit>)
      requires |pre| == i && enemies == pre + [e] + r.survivors
      requires a.attacker in ps && players == WithEgg(ps, a.attacker, r.egg)
      requires hits0 == base + r.hits && outbox == out0 + r.out
      modifies this`enemies, this`players, this`outbox
      ensures var r' := HitEnemy(r, e, i, a, crits, drops);
        && enemies == pre + r'.survivors
        && hits == base + r'.hits
        && outbox == out0 + r'.out
        && players == WithEgg(ps, a.attacker, r'.egg)
    {
      hits := hits0;
      assert enemies[i] == e;
      var enemy := enemies[i];
      if InRange(a.origin, enemy.pos, a.range) {
        var d := ApplyDamage(enemy.health, a.damage, false, i in crits);
        hits := hits + [EnemyHit(d.dealt, enemy.pos)];
        if d.health > 0 {
          enemies := enemies[i := enemy.(health := d.health)];
          assert enemies == pre + [enemy.(health := d.health)] + r.survivors;
        } else {
          enemies := enemies[..i] + enemies[i + 1..];
          assert enemies == pre + r.survivors;
          outbox := outbox + [Message(Everyone, EnemyKilled(enemy.pos))];
          if i in drops {
            players := players[a.attacker := players[a.attacker].(hasGoldenEgg := true)];
            outbox := outbox + [EggMessage(a.attacker)];
          }
        }
      }
    }

    /** The enemy loop of `handleAttack`, last enemy first: an enemy within
        reach is damaged, and a killed one is spliced out, announced, and may
        drop a golden egg for the attacker. */
    method StrikeEnemies(a: Strike, crits: set<nat>, drops: set<nat>, hits0: seq<Hit>) returns (hits: seq<Hit>)
      requires a.attacker in players
      modifies this`enemies, this`players, this`outbox
      ensures var ep := EnemyPass(old(enemies), 0, a, crits, drops);
        && enemies == ep.survivors
        && hits == hits0 + ep.hits
        && outbox == old(outbox) + ep.out
        && players == WithEgg(old(players), a.attacker, ep.egg)
    {
      ghost var es := enemies;
      ghost var ps := players;
      hits := hits0;
      var i := |enemies|;
      assert es[i..] == [];
      while i > 0
        invariant 0 <= i <= |es|
        invariant var ep := EnemyPass(es[i..], i, a, crits, drops);
          && enemies == es[..i] + ep.survivors
          && hits == hits0 + ep.hits
          && outbox == old(outbox) + ep.out
          && players == WithEgg(ps, a.attacker, ep.egg)
      {
        i := i - 1;
        EnemyPassStep(es, i, a, crits, drops);
        assert es[..i + 1] == es[..i] + [es[i]];
        hits := StrikeEnemy(a, i, crits, drops, hits, es[..i], es[i], EnemyPass(es[i + 1..], i + 1, a, crits, drops),
                            ps, hits0, old(outbox));
      }
      assert es[0..] == es;
    }

    /** The fields after both loops, the projectile and the broadcast are
        the outcome `Resolve` describes. */
    static lemma FinishAttack(w: WorldState, a: Strike, t: AttackType, direction: int, pp: PlayerPassState, ep: EnemyPassResult,
                              v: WorldState, out: seq<Message>, out0: seq<Message>)
      requires a.attacker in pp.players
      requires v.players == WithEgg(pp.players, a.attacker, ep.egg) && v.order == pp.order && v.enemies == ep.survivors
      requires v.platforms == w.platforms && v.zeldina == w.zeldina && v.boss == w.boss && v.currentLevel == w.currentLevel
      requires v.projectiles == if t == Egg then w.projectiles + [Projectile(a.origin, Vec(direction * 10, -5), a.damage, a.attacker, Egg)]
                                else w.projectiles
      requires out == out0 + pp.out + ep.out + [Message(Everyone, AttackPerformed(a.attacker, t, a.origin, direction, pp.hits + ep.hits))]
      ensures v == Resolve(w, a, t, direction, pp, ep).world && out == out0 + Resolve(w, a, t, direction, pp, ep).out
    {
    }

    /** `handleAttack`: the player loop, the enemy loop, the egg projectile
        and the summary broadcast. */
    method HandleAttack(attacker: Id, t: AttackType, origin: Vec, direction: int, rolls: Rolls) returns (resp: Response)
      modifies this
      ensures var r := Attack(old(State()), attacker, t, origin, direction, rolls);
        State() == r.world && outbox == old(outbox) + r.out
      ensures resp == Response(200, if attacker in old(players) then "Attack processed" else "No attacker found")
    {
      if attacker !in players {
        return Response(200, "No attacker found");
      }
      ghost var w := State();
      var a := Strike(attacker, origin, AttackRange(t), EffectiveDamage(t, players[attacker].isMegaChicken));
      ResolveAttack(a, t, direction, rolls);
      AttackUnfold(w, attacker, t, origin, direction, rolls);
      return Response(200, "Attack processed");
    }

    /** The body of `handleAttack` once the attacker is known: both loops,
        the egg projectile and the summary broadcast. */
    method ResolveAttack(a: Strike, t: AttackType, direction: int, rolls: Rolls)
      requires a.attacker in players
      modifies this`players, this`order, this`enemies, this`projectiles, this`outbox
      ensures var w := old(State());
        var pp := PlayerPass(PlayerPassState(w.players, w.order, [], []), a, w.order, rolls.critPlayers);
        var ep := EnemyPass(w.enemies, 0, a, rolls.critEnemies, rolls.eggDrops);
        && a.attacker in pp.players
        && State() == Resolve(w, a, t, direction, pp, ep).world
        && outbox == old(outbox) + Resolve(w, a, t, direction, pp, ep).out
    {
      ghost var w := State();
      ghost var pp := PlayerPass(PlayerPassState(w.players, w.order, [], []), a, w.order, rolls.critPlayers);
      ghost var ep := EnemyPass(w.enemies, 0, a, rolls.critEnemies, rolls.eggDrops);
      var hits := StrikeAll(a, rolls);
      if t == Egg {
        projectiles := projectiles + [Projectile(a.origin, Vec(direction * 10, -5), a.damage, a.attacker, Egg)];
      }
      outbox := outbox + [Message(Everyone, AttackPerformed(a.attacker, t, a.origin, direction, hits))];
      FinishAttack(w, a, t, direction, pp, ep, State(), outbox, old(outbox));
    }

    /** The player loop, then the enemy loop. */
    method StrikeAll(a: Strike, rolls: Rolls) returns (hits: seq<Hit>)
      requires a.attacker in players
      modifies this`players, this`order, this`enemies, this`outbox
      ensures var pp := PlayerPass(PlayerPassState(old(players), old(order), [], []), a, old(order), rolls.critPlayers);
        var ep := EnemyPass(old(enemies), 0, a, rolls.critEnemies, rolls.eggDrops);
        && a.attacker in pp.players
        && players == WithEgg(pp.players, a.attacker, ep.egg) && order == pp.order && enemies == ep.survivors
        && hits == pp.hits + ep.hits
        && outbox == old(outbox) + pp.out + ep.out
    {
      hits := StrikePlayers(a, rolls.critPlayers);
      hits := StrikeEnemies(a, rolls.critEnemies, rolls.eggDrops, hits);
    }

    /** The action switch of the `$default` route. */
    method Perform(a: ActionKind, conn: Id, d: Data, rolls: Rolls) returns (resp: Response)
      modifies this
      ensures var h := Act(old(State()), a, conn, d, rolls);
        resp == h.response && State() == h.world && outbox == old(outbox) + h.out
    {
      match a
      case JoinAction => resp := HandleJoin(conn);
      case MoveAction => resp := HandleMove(conn, d.pos, d.vel, d.jumping, rolls.contactCrit);
      case JumpAction => resp := HandleJump(conn);
      case SmashAction => resp := HandleSmash(conn);
      case AttackAction => resp := HandleAttack(conn, d.attackType, d.pos, d.direction, rolls);
      case MegaTransformAction => resp := HandleMegaTransform(conn);
    }

    /** What `Handle` promises about the world invariant and the milestones,
        for an outbox that grew by the messages of one step. */
    static lemma Sent(w: WorldState, req: Request, rolls: Rolls, v: WorldState, out0: seq<Message>, out: seq<Message>)
      requires Inv(w)
      requires v == Step(w, req, rolls).world && out == out0 + Step(w, req, rolls).out
      ensures Inv(v) && PhaseStep(PhaseOf(w), PhaseOf(v))
      ensures |out0| <= |out|
      ensures Milestones(out[|out0|..]) == Progress(PhaseOf(v)) - Progress(PhaseOf(w))
      ensures Count(out[|out0|..], GameWinK) == (if PhaseOf(w) != Won && PhaseOf(v) == Won then 1 else 0)
    {
      StepInv(w, req, rolls);
      StepAnnounces(w, req, rolls);
      assert out[|out0|..] == Step(w, req, rolls).out;
    }

    /** `handler(event)`: route the request to its handler. Each invocation
        keeps the world invariant, takes at most one step of the level
        progression, announces each milestone it passes exactly once, and
        sends `gameWin` exactly when it wins the game. */
    method Handle(req: Request, rolls: Rolls) returns (resp: Response)
      modifies this
      ensures var h := Step(old(State()), req, rolls);
        resp == h.response && State() == h.world && outbox == old(outbox) + h.out
      ensures old(Valid()) ==> Valid() && PhaseStep(PhaseOf(old(State())), PhaseOf(State()))
      ensures old(Valid()) ==>
        && |old(outbox)| <= |outbox|
        && Milestones(outbox[|old(outbox)|..]) == Progress(PhaseOf(State())) - Progress(PhaseOf(old(State())))
        && Count(outbox[|old(outbox)|..], GameWinK) ==
             (if PhaseOf(old(State())) != Won && PhaseOf(State()) == Won then 1 else 0)
    {
      ghost var w := State();
      ghost var wasValid := Valid();
      if req.routeKey == "$connect" {
        resp := Response(200, "Connected");
      } else if req.routeKey == "$disconnect" {
        RemoveConnection(req.conn);
        resp := Response(200, "Disconnected");
      } else if req.routeKey == "$default" {
        var action := ParseAction(req.action);
        if action.None? {
          resp := Response(400, "Unknown action");
        } else {
          resp := Perform(action.value, req.conn, req.data, rolls);
        }
      } else {
        resp := Response(400, "Unknown route");
      }
      if wasValid {
        Sent(w, req, rolls, State(), old(outbox), outbox);
      }
    }
  }
}
