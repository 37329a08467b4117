/** `checkCollisions`: enemy contact damage and the Zeldina rescue. */
module Collision {
  import opened Types
  import opened Tables
  import opened Geometry
  import opened Combat
  import opened WorldInvariant

  /** The damage one enemy contact carries. */
  const ContactDamage := 25

  /** Where and how strong the boss appears when Zeldina is rescued. */
  const BossStart := Boss(Width / 2, 100, 5)

  /** Player `p` runs into enemy `e`: within 30 on both axes and not falling. */
  predicate Contact(p: Player, e: Enemy)
  {
    Near(p.pos, e.pos, 30) && p.vel.y <= 0
  }

  /** The index of the first enemy of `es` that `p` runs into. */
  function FirstContact(p: Player, es: seq<Enemy>): (r: Option<nat>)
    ensures r.Some? ==> r.value < |es| && Contact(p, es[r.value])
    ensures r.Some? ==> forall j :: 0 <= j < r.value ==> !Contact(p, es[j])
    ensures r.None? <==> forall e :: e in es ==> !Contact(p, e)
  {
    if es == [] then None
    else if Contact(p, es[0]) then Some(0)
    else
      match FirstContact(p, es[1..])
      case None => None
      case Some(j) => Some(j + 1)
  }

  /** Player `p` is close enough to rescue `z`. */
  predicate Reaches(p: Player, z: Zeldina)
  {
    Near(p.pos, Vec(z.x, z.y), 30)
  }

  /** The contact branch: `applyDamage(player, 25)`, two seconds of
      invulnerability, then respawn or removal, and the `playerDamaged` report
      to the player. */
  function ContactHit(w: WorldState, id: Id, crit: bool): (r: Transition)
    requires id in w.players
  {
    var p := w.players[id];
    var d := ApplyDamage(p.health, ContactDamage, false, crit);
    var hurt := p.(health := d.health, invulnerable := 120);
    if d.health > 0 then
      Transition(w.(players := w.players[id := hurt]), [Message(Only(id), PlayerDamaged(ContactDamage, d.health))])
    else if p.lives - 1 > 0 then
      var back := hurt.(lives := p.lives - 1, health := p.maxHealth, pos := SpawnPos, vel := Still);
      Transition(w.(players := w.players[id := back]), [Message(Only(id), PlayerDamaged(ContactDamage, back.health))])
    else
      Transition(w.(players := w.players - {id}, order := Without(w.order, id)),
                 [Message(Everyone, PlayerLeft(id)), Message(Only(id), PlayerDamaged(ContactDamage, 0))])
  }

  /** `checkCollisions(playerId)`; `crit` stands for the contact's critical
      roll. */
  function CheckCollisions(w: WorldState, id: Id, crit: bool): (r: Transition)
    ensures id !in w.players || w.players[id].invulnerable > 0 ==> r == Transition(w, [])
  {
    if id !in w.players || w.players[id].invulnerable > 0 then Transition(w, [])
    else
      var p := w.players[id];
      if FirstContact(p, w.enemies).Some? then ContactHit(w, id, crit)
      else if w.zeldina.Some? && !w.zeldina.value.rescued && Reaches(p, w.zeldina.value) then
        Transition(w.(zeldina := Some(w.zeldina.value.(rescued := true)), boss := Some(BossStart)),
                   [Message(Everyone, ZeldinaRescued), Message(Everyone, BossSpawned(BossStart))])
      else Transition(w, [])
  }

  /** One contact at most: the player is damaged (25, or 50 on a critical
      roll) and made invulnerable, respawns with one life fewer at full health
      when the damage empties its health, or leaves the game on its last life;
      exactly one `playerDamaged` goes to the player, always saying 25; and a
      contact pre-empts the rescue. */
  lemma ContactOutcome(w: WorldState, id: Id, crit: bool)
    requires id in w.players && w.players[id].invulnerable <= 0
    requires FirstContact(w.players[id], w.enemies).Some?
    ensures var r := CheckCollisions(w, id, crit);
      var p := w.players[id];
      var dealt := if crit then 2 * ContactDamage else ContactDamage;
      && Count(r.out, PlayerDamagedK) == 1
      && Count(r.out, ZeldinaRescuedK) == 0
      && (forall m :: m in r.out && m.event.PlayerDamaged? ==> m == Message(Only(id), PlayerDamaged(25, m.event.health)))
      && (p.health > dealt ==> r.world.players == w.players[id := p.(health := p.health - dealt, invulnerable := 120)])
      && (p.health <= dealt && p.lives > 1 ==>
            r.world.players == w.players[id := p.(lives := p.lives - 1, health := p.maxHealth, pos := SpawnPos,
                                                   vel := Still, invulnerable := 120)])
      && (p.health <= dealt && p.lives <= 1 ==>
            && r.world.players == w.players - {id}
            && Count(r.out, PlayerLeftK) == 1
            && (KeyOrder(w.order, w.players) ==> KeyOrder(r.world.order, r.world.players)))
      && r.world.enemies == w.enemies && r.world.zeldina == w.zeldina && r.world.boss == w.boss
  {
    assert CheckCollisions(w, id, crit) == ContactHit(w, id, crit);
    ContactHitMessages(w, id, crit);
    ContactHitWorld(w, id, crit);
  }

  /** What one contact does to the world: damage, respawn or removal of the
      player, nothing else. */
  lemma ContactHitWorld(w: WorldState, id: Id, crit: bool)
    requires id in w.players
    ensures var r := ContactHit(w, id, crit);
      var p := w.players[id];
      var dealt := if crit then 2 * ContactDamage else ContactDamage;
      && (p.health > dealt ==> r.world.players == w.players[id := p.(health := p.health - dealt, invulnerable := 120)])
      && (p.health <= dealt && p.lives > 1 ==>
            r.world.players == w.players[id := p.(lives := p.lives - 1, health := p.maxHealth, pos := SpawnPos,
                                                   vel := Still, invulnerable := 120)])
      && (p.health <= dealt && p.lives <= 1 ==>
            && r.world.players == w.players - {id}
            && (KeyOrder(w.order, w.players) ==> KeyOrder(r.world.order, r.world.players)))
      && r.world.enemies == w.enemies && r.world.zeldina == w.zeldina && r.world.boss == w.boss
  {
    var p := w.players[id];
    var d := ApplyDamage(p.health, ContactDamage, false, crit);
    var dealt := if crit then 2 * ContactDamage else ContactDamage;
    assert d.dealt == dealt;
    assert d.health > 0 <==> p.health > dealt;
  }

  /** The messages of one contact: one `playerDamaged` to the player saying
      25, preceded by a `playerLeft` exactly when the player leaves. */
  lemma ContactHitMessages(w: WorldState, id: Id, crit: bool)
    requires id in w.players
    ensures var r := ContactHit(w, id, crit);
      && Count(r.out, PlayerDamagedK) == 1
      && Count(r.out, ZeldinaRescuedK) == 0
      && Count(r.out, PlayerLeftK) == (if id in r.world.players then 0 else 1)
      && (forall m :: m in r.out && m.event.PlayerDamaged? ==> m == Message(Only(id), PlayerDamaged(25, m.event.health)))
  {
    var r := ContactHit(w, id, crit);
    if |r.out| == 2 {
      assert r.out[..1] == [r.out[0]];
      assert r.out[..1][..0] == [];
    } else {
      assert r.out[..0] == [];
    }
  }

  /** Without a contact, an un-rescued Zeldina within reach is rescued and the
      boss spawns at (400, 100) with 5 health, announced in that order;
      otherwise nothing happens. */
  lemma RescueOutcome(w: WorldState, id: Id, crit: bool)
    requires id in w.players && w.players[id].invulnerable <= 0
    requires FirstContact(w.players[id], w.enemies).None?
    ensures var r := CheckCollisions(w, id, crit);
      var rescue := w.zeldina.Some? && !w.zeldina.value.rescued && Reaches(w.players[id], w.zeldina.value);
      && (rescue ==>
            && r.world == w.(zeldina := Some(w.zeldina.value.(rescued := true)), boss := Some(Boss(400, 100, 5)))
            && r.out == [Message(Everyone, ZeldinaRescued), Message(Everyone, BossSpawned(Boss(400, 100, 5)))])
      && (!rescue ==> r == Transition(w, []))
      && Count(r.out, ZeldinaRescuedK) == (if rescue then 1 else 0)
      && Count(r.out, PlayerDamagedK) == 0
  {
    var r := CheckCollisions(w, id, crit);
    if |r.out| == 2 {
      assert r.out[..1] == [r.out[0]];
      assert r.out[..1][..0] == [];
    }
  }

  /** A rescued Zeldina stays rescued: once rescued, no later check announces
      another rescue. */
  lemma RescueOnce(w: WorldState, id: Id, crit: bool)
    requires w.zeldina.Some? && w.zeldina.value.rescued
    ensures Count(CheckCollisions(w, id, crit).out, ZeldinaRescuedK) == 0
    ensures CheckCollisions(w, id, crit).world.zeldina == w.zeldina
  {
    var r := CheckCollisions(w, id, crit);
    if id in w.players && w.players[id].invulnerable <= 0 && FirstContact(w.players[id], w.enemies).Some? {
      if |r.out| == 2 {
        assert r.out[..1] == [r.out[0]];
        assert r.out[..1][..0] == [];
      } else {
        assert r.out[..0] == [];
      }
    }
  }

  /** Player `id` is gone, or still invulnerable and so skipped by the
      collision check. */
  predicate Shielded(w: WorldState, id: Id)
  {
    id in w.players ==> w.players[id].invulnerable > 0
  }

  /** A contact that leaves the player in the game leaves it invulnerable, so
      the very next check skips it: no more contact damage and no rescue.
      `Dispatch.RunShielded` extends this to every later check. */
  lemma ContactShields(w: WorldState, id: Id, crit: bool)
    requires id in w.players && w.players[id].invulnerable <= 0
    requires FirstContact(w.players[id], w.enemies).Some?
    ensures Shielded(CheckCollisions(w, id, crit).world, id)
  {
  }

  /** The check for one player never touches another: every other player
      stays as it was or, for the checked player only, goes; in particular a
      shielded player stays shielded. */
  lemma CheckCollisionsOthers(w: WorldState, conn: Id, crit: bool, id: Id)
    requires Shielded(w, id)
    ensures var r := CheckCollisions(w, conn, crit);
      && r.world.players.Keys <= w.players.Keys
      && (id != conn && id in r.world.players ==> r.world.players[id] == w.players[id])
      && Shielded(r.world, id)
  {
    if conn in w.players && w.players[conn].invulnerable <= 0 && FirstContact(w.players[conn], w.enemies).Some? {
      ContactHitWorld(w, conn, crit);
    }
  }

  /** The check keeps the world invariant. */
  lemma CheckCollisionsInv(w: WorldState, id: Id, crit: bool)
    requires Inv(w)
    ensures Inv(CheckCollisions(w, id, crit).world)
    ensures var r := CheckCollisions(w, id, crit).world;
      PhaseStep(PhaseOf(w), PhaseOf(r)) && r.currentLevel == w.currentLevel
  {
    if id in w.players && w.players[id].invulnerable <= 0 {
      if FirstContact(w.players[id], w.enemies).Some? {
        ContactInv(w, id, crit);
      } else {
        RescueInv(w, id, crit);
      }
    }
  }

  lemma ContactInv(w: WorldState, id: Id, crit: bool)
    requires Inv(w)
    requires id in w.players && w.players[id].invulnerable <= 0
    requires FirstContact(w.players[id], w.enemies).Some?
    ensures var r := CheckCollisions(w, id, crit).world;
      Inv(r) && PhaseOf(r) == PhaseOf(w) && r.currentLevel == w.currentLevel
  {
    ContactOutcome(w, id, crit);
  }

  lemma RescueInv(w: WorldState, id: Id, crit: bool)
    requires Inv(w)
    requires id in w.players && w.players[id].invulnerable <= 0
    requires FirstContact(w.players[id], w.enemies).None?
    ensures var r := CheckCollisions(w, id, crit).world;
      Inv(r) && PhaseStep(PhaseOf(w), PhaseOf(r)) && r.currentLevel == w.currentLevel
  {
    RescueOutcome(w, id, crit);
  }

  lemma ContactAnnounces(w: WorldState, id: Id, crit: bool)
    requires ProgressOk(w)
    requires id in w.players && w.players[id].invulnerable <= 0
    requires FirstContact(w.players[id], w.enemies).Some?
    ensures var r := CheckCollisions(w, id, crit);
      && ProgressOk(r.world) && PhaseOf(r.world) == PhaseOf(w)
      && Count(r.out, ZeldinaRescuedK) == 0
  {
    ContactOutcome(w, id, crit);
  }

  lemma RescueAnnounces(w: WorldState, id: Id, crit: bool)
    requires ProgressOk(w)
    requires id in w.players && w.players[id].invulnerable <= 0
    requires FirstContact(w.players[id], w.enemies).None?
    ensures var r := CheckCollisions(w, id, crit);
      && ProgressOk(r.world)
      && Count(r.out, ZeldinaRescuedK) == Progress(PhaseOf(r.world)) - Progress(PhaseOf(w))
  {
    RescueOutcome(w, id, crit);
  }

  /** The rescue is the only milestone the check announces, once per phase
      step it takes; every message is a damage report, a departure or part
      of the rescue. */
  lemma CheckCollisionsAnnounces(w: WorldState, id: Id, crit: bool)
    requires ProgressOk(w)
    ensures var r := CheckCollisions(w, id, crit);
      && ProgressOk(r.world)
      && r.world.currentLevel == w.currentLevel
      && Count(r.out, ZeldinaRescuedK) == Progress(PhaseOf(r.world)) - Progress(PhaseOf(w))
      && Count(r.out, LevelCompleteK) == 0 && Count(r.out, GameWinK) == 0
      && (forall m :: m in r.out ==>
            m.event.PlayerDamaged? || m.event.PlayerLeft? || m.event.ZeldinaRescued? || m.event.BossSpawned?)
  {
    CheckCollisionsKinds(w, id, crit);
    if id in w.players && w.players[id].invulnerable <= 0 {
      if FirstContact(w.players[id], w.enemies).Some? {
        ContactAnnounces(w, id, crit);
      } else {
        RescueAnnounces(w, id, crit);
      }
    }
  }

  /** The check sends only damage reports, departures and the rescue. */
  lemma CheckCollisionsKinds(w: WorldState, id: Id, crit: bool)
    ensures var r := CheckCollisions(w, id, crit);
      && Count(r.out, LevelCompleteK) == 0 && Count(r.out, GameWinK) == 0
      && (forall m :: m in r.out ==>
            m.event.PlayerDamaged? || m.event.PlayerLeft? || m.event.ZeldinaRescued? || m.event.BossSpawned?)
  {
    var r := CheckCollisions(w, id, crit);
    if id in w.players && w.players[id].invulnerable <= 0 && FirstContact(w.players[id], w.enemies).Some? {
      assert r == ContactHit(w, id, crit);
      ContactHitKinds(w, id, crit);
    } else {
      QuietKinds(r.out);
    }
  }

  /** A contact sends only a departure and a damage report. */
  lemma ContactHitKinds(w: WorldState, id: Id, crit: bool)
    requires id in w.players
    ensures var out := ContactHit(w, id, crit).out;
      && Count(out, LevelCompleteK) == 0 && Count(out, GameWinK) == 0
      && (forall m :: m in out ==> m.event.PlayerDamaged? || m.event.PlayerLeft?)
  {
    var p := w.players[id];
    var d := ApplyDamage(p.health, ContactDamage, false, crit);
    var out := ContactHit(w, id, crit).out;
    if d.health > 0 || p.lives - 1 > 0 {
      assert out == [Message(Only(id), PlayerDamaged(ContactDamage, out[0].event.health))];
    } else {
      assert out == [Message(Everyone, PlayerLeft(id)), Message(Only(id), PlayerDamaged(ContactDamage, 0))];
    }
    NoneOfKind(out, LevelCompleteK);
    NoneOfKind(out, GameWinK);
  }

  lemma QuietKinds(out: seq<Message>)
    requires out == [] || out == [Message(Everyone, ZeldinaRescued), Message(Everyone, BossSpawned(BossStart))]
    ensures Count(out, LevelCompleteK) == 0 && Count(out, GameWinK) == 0
  {
    NoneOfKind(out, LevelCompleteK);
    NoneOfKind(out, GameWinK);
  }

  /** The check removes the player only through a contact on its last life,
      announcing the departure and then the zero-health damage report. */
  lemma CheckCollisionsRemoves(w: WorldState, id: Id, crit: bool)
    requires id in w.players && id !in CheckCollisions(w, id, crit).world.players
    ensures w.players[id].invulnerable <= 0 && FirstContact(w.players[id], w.enemies).Some?
    ensures CheckCollisions(w, id, crit).out == [Message(Everyone, PlayerLeft(id)), Message(Only(id), PlayerDamaged(ContactDamage, 0))]
  {
    assert CheckCollisions(w, id, crit) == ContactHit(w, id, crit);
  }
}
