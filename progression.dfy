/** `loadLevel`: copying a level template into the world and resetting the
    players. */
module Progression {
  import opened Types
  import opened Tables
  import opened WorldInvariant

  /** What `loadLevel` does to one player: back to the spawn point, at rest,
      `lives || 3` lives and `maxHealth || 100` health. */
  function ResetPlayer(p: Player): (r: Player)
    ensures r.pos == SpawnPos && r.vel == Still
    ensures p.lives != 0 ==> r.lives == p.lives
    ensures p.maxHealth > 0 ==> r.health == r.maxHealth == p.maxHealth
    ensures r == p.(pos := r.pos, vel := r.vel, lives := r.lives, health := r.health)
  {
    p.(pos := SpawnPos, vel := Still, lives := if p.lives != 0 then p.lives else 3, health := MaxHealthOrDefault(p))
  }

  /** The outcome of `loadLevel`: whether the index was valid, and the world. */
  datatype Loaded = Loaded(ok: bool, world: WorldState)

  /** `loadLevel(levelIndex)`. */
  function LoadLevel(w: WorldState, i: nat): (r: Loaded)
    ensures i >= |Levels()| ==> !r.ok && r.world == w
    ensures i < |Levels()| ==>
      && r.ok
      && r.world.currentLevel == i
      && r.world.platforms == Levels()[i].platforms
      && r.world.enemies == Levels()[i].enemies
      && r.world.zeldina == Some(Levels()[i].zeldina)
      && r.world.boss == None
      && r.world.projectiles == []
      && r.world.order == w.order
      && r.world.players.Keys == w.players.Keys
      && (forall id :: id in w.players ==> r.world.players[id] == ResetPlayer(w.players[id]))
  {
    if i >= |Levels()| then Loaded(false, w)
    else
      var level := Levels()[i];
      Loaded(true, w.(currentLevel := i, platforms := level.platforms, enemies := level.enemies,
                      zeldina := Some(level.zeldina), boss := None, projectiles := [],
                      players := map id | id in w.players :: ResetPlayer(w.players[id])))
  }

  /** Loading the same level twice is the same as loading it once. */
  lemma LoadLevelIdempotent(w: WorldState, i: nat)
    ensures LoadLevel(LoadLevel(w, i).world, i) == LoadLevel(w, i)
  {
    if i < |Levels()| {
      var w1 := LoadLevel(w, i).world;
      var w2 := LoadLevel(w1, i).world;
      forall id | id in w1.players ensures w2.players[id] == w1.players[id] {
        assert ResetPlayer(ResetPlayer(w.players[id])) == ResetPlayer(w.players[id]);
      }
      assert w2.players == w1.players;
    }
  }

  /** A loaded level starts before the rescue, with its template's live
      enemies, and players in play stay in play with their lives and full
      health. */
  lemma LoadLevelInv(w: WorldState, i: nat)
    requires i < |Levels()|
    requires KeyOrder(w.order, w.players)
    requires forall id :: id in w.players ==> PlayerOk(w.players[id])
    ensures var r := LoadLevel(w, i).world;
      && Inv(r)
      && PhaseOf(r) == InLevel(i)
      && (forall id :: id in r.players ==>
            r.players[id].lives == w.players[id].lives && r.players[id].health == r.players[id].maxHealth)
  {
    LevelsWellFormed(i);
    var r := LoadLevel(w, i).world;
    assert r.players.Keys == w.players.Keys;
  }
}
