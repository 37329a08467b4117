/** `handleSmash`: stomping enemies and the boss, and the level progression
    the boss's defeat drives. */
module Stomp {
  import opened Types
  import opened Tables
  import opened Geometry
  import opened WorldInvariant
  import opened Progression

  /** Player `p` lands on enemy `e`: within 30 on both axes and falling. */
  predicate Stomps(p: Player, e: Enemy)
  {
    Near(p.pos, e.pos, 30) && p.vel.y > 0
  }

  /** Player `p` lands on boss `b`: within 70 on both axes and falling. */
  predicate StompsBoss(p: Player, b: Boss)
  {
    Near(p.pos, Vec(b.x, b.y), 70) && p.vel.y > 0
  }

  /** The enemies left and the `enemyKilled` broadcasts of the backwards
      stomp loop. */
  datatype StompResult = StompResult(survivors: seq<Enemy>, out: seq<Message>)

  /** The backwards loop over `es`: the later enemies first, then `es[0]`. */
  function StompPass(p: Player, es: seq<Enemy>): (r: StompResult)
    ensures |r.survivors| + |r.out| == |es|
    ensures forall m :: m in r.out ==> m.to == Everyone && m.event.EnemyKilled?
    decreases |es|
  {
    if es == [] then StompResult([], [])
    else
      var rest := StompPass(p, es[1..]);
      if Stomps(p, es[0]) then rest.(out := rest.out + [Message(Everyone, EnemyKilled(es[0].pos))])
      else rest.(survivors := [es[0]] + rest.survivors)
  }

  /** The enemies of `es` that `p` does not land on, in order. */
  function Unstomped(p: Player, es: seq<Enemy>): (r: seq<Enemy>)
    ensures forall e :: e in r <==> e in es && !Stomps(p, e)
  {
    if es == [] then []
    else
      assert forall e :: e in es <==> e == es[0] || e in es[1..];
      (if Stomps(p, es[0]) then [] else [es[0]]) + Unstomped(p, es[1..])
  }

  /** The stomp loop removes exactly the enemies `p` lands on and keeps the
      rest in their order. */
  lemma {:induction false} StompPassSurvivors(p: Player, es: seq<Enemy>)
    ensures StompPass(p, es).survivors == Unstomped(p, es)
    decreases |es|
  {
    if es != [] {
      StompPassSurvivors(p, es[1..]);
    }
  }

  /** The `enemyKilled` broadcasts of a stomp: one per enemy landed on,
      carrying its position, last enemy first. */
  function StompNotices(p: Player, es: seq<Enemy>): seq<Message>
    decreases |es|
  {
    if es == [] then []
    else StompNotices(p, es[1..]) + (if Stomps(p, es[0]) then [Message(Everyone, EnemyKilled(es[0].pos))] else [])
  }

  /** The stomp loop announces exactly `StompNotices`. */
  lemma {:induction false} StompPassNotices(p: Player, es: seq<Enemy>)
    ensures StompPass(p, es).out == StompNotices(p, es)
    decreases |es|
  {
    if es != [] {
      StompPassNotices(p, es[1..]);
    }
  }

  /** Every message of the stomp loop announces a kill, one per removed
      enemy. */
  lemma StompPassKills(p: Player, es: seq<Enemy>)
    ensures var r := StompPass(p, es);
      Count(r.out, EnemyKilledK) == |r.out| == |es| - |r.survivors|
  {
    var r := StompPass(p, es);
    CountAll(r.out, EnemyKilledK);
  }

  /** A player that is not falling stomps nothing. */
  lemma {:induction false} StompPassNotFalling(p: Player, es: seq<Enemy>)
    requires p.vel.y <= 0
    ensures StompPass(p, es) == StompResult(es, [])
    decreases |es|
  {
    if es != [] {
      StompPassNotFalling(p, es[1..]);
      assert [es[0]] + es[1..] == es;
    }
  }

  /** The boss part of `handleSmash`, on the world after the enemy stomps. */
  function BossStomp(w: WorldState, p: Player): (r: Transition)
  {
    if w.boss.None? || !StompsBoss(p, w.boss.value) then Transition(w, [])
    else
      var b := w.boss.value.(health := w.boss.value.health - 1);
      if b.health > 0 then Transition(w.(boss := Some(b)), [Message(Everyone, BossUpdate(b))])
      else
        var next := w.currentLevel + 1;
        var cleared := w.(boss := None, currentLevel := next);
        if next >= |Levels()| then Transition(cleared, [Message(Everyone, GameWin)])
        else
          var loaded := LoadLevel(cleared, next).world;
          Transition(loaded, [Message(Everyone, LevelComplete(next, loaded))])
  }

  /** `handleSmash`; nothing happens for an unknown player. */
  function Smash(w: WorldState, id: Id): (r: Transition)
    ensures id !in w.players ==> r == Transition(w, [])
  {
    if id !in w.players then Transition(w, [])
    else
      var p := w.players[id];
      var s := StompPass(p, w.enemies);
      var b := BossStomp(w.(enemies := s.survivors), p);
      Transition(b.world, s.out + b.out)
  }

  /** A boss stomp lowers the boss's health by exactly one and reports the
      boss; at zero the boss is gone and the level index goes up by one, with
      `gameWin` exactly when that was the last level and otherwise
      `levelComplete` carrying the next level's index and the freshly loaded
      world. */
  lemma BossStompOutcome(w: WorldState, p: Player)
    requires w.boss.Some? && StompsBoss(p, w.boss.value)
    ensures var r := BossStomp(w, p);
      var h := w.boss.value.health - 1;
      && (h > 0 ==> r.world == w.(boss := Some(w.boss.value.(health := h))) && Count(r.out, BossUpdateK) == 1)
      && (h > 0 ==> r.out == [Message(Everyone, BossUpdate(w.boss.value.(health := h)))])
      && (h <= 0 ==> r.world.boss.None? && r.world.currentLevel == w.currentLevel + 1)
      && Count(r.out, GameWinK) == (if h <= 0 && w.currentLevel + 1 >= |Levels()| then 1 else 0)
      && Count(r.out, LevelCompleteK) == (if h <= 0 && w.currentLevel + 1 < |Levels()| then 1 else 0)
      && (h <= 0 && w.currentLevel + 1 >= |Levels()| ==>
            r.world == w.(boss := None, currentLevel := w.currentLevel + 1) && r.out == [Message(Everyone, GameWin)])
      && (h <= 0 && w.currentLevel + 1 < |Levels()| ==>
            && r.world == LoadLevel(w.(boss := None, currentLevel := w.currentLevel + 1), w.currentLevel + 1).world
            && r.out == [Message(Everyone, LevelComplete(w.currentLevel + 1, r.world))])
      && |r.out| == 1
  {
    var r := BossStomp(w, p);
    assert r.out[..0] == [];
  }

  /** Without a qualifying boss stomp the boss part changes nothing. */
  lemma BossStompMiss(w: WorldState, p: Player)
    requires w.boss.None? || !StompsBoss(p, w.boss.value)
    ensures BossStomp(w, p) == Transition(w, [])
  {
  }

  /** Kill announcements followed by at most one boss message. */
  lemma KillsThenBoss(kills: seq<Message>, boss: seq<Message>)
    requires forall m :: m in kills ==> KindOf(m.event) == EnemyKilledK
    requires |boss| <= 1 && forall m :: m in boss ==> KindOf(m.event) != EnemyKilledK
    ensures var out := kills + boss;
      && Count(out, EnemyKilledK) == |kills|
      && (forall i :: 0 <= i < |kills| ==> out[i].event.EnemyKilled?)
      && Count(out, BossUpdateK) + Count(out, LevelCompleteK) + Count(out, GameWinK) <= 1
  {
    var out := kills + boss;
    forall i | 0 <= i < |kills| ensures out[i].event.EnemyKilled? {
      assert out[i] == kills[i] && kills[i] in kills;
    }
    CountAll(kills, EnemyKilledK);
    NoneOfKind(boss, EnemyKilledK);
    CountAppend(kills, boss, EnemyKilledK);
    CountAppend(kills, boss, BossUpdateK);
    CountAppend(kills, boss, LevelCompleteK);
    CountAppend(kills, boss, GameWinK);
    NoneOfKind(kills, BossUpdateK);
    NoneOfKind(kills, LevelCompleteK);
    NoneOfKind(kills, GameWinK);
    if boss != [] {
      assert boss[..0] == [];
    }
  }

  /** `handleSmash` for a present player: exactly the enemies it lands on are
      gone, the rest keep their order; one kill is announced per removed enemy,
      before anything about the boss; and at most one of `bossUpdate`,
      `levelComplete`, `gameWin` follows. */
  lemma SmashOutcome(w: WorldState, id: Id)
    requires id in w.players
    ensures var r := Smash(w, id);
      var p := w.players[id];
      var k := |w.enemies| - |Unstomped(p, w.enemies)|;
      && Count(r.out, EnemyKilledK) == k
      && (forall i :: 0 <= i < k ==> r.out[i].event.EnemyKilled?)
      && k <= |r.out| && r.out[..k] == StompNotices(p, w.enemies)
      && |r.out| <= k + 1
      && (w.boss.None? || !StompsBoss(p, w.boss.value) ==>
            r.world == w.(enemies := Unstomped(p, w.enemies)) && |r.out| == k)
      && Count(r.out, BossUpdateK) + Count(r.out, LevelCompleteK) + Count(r.out, GameWinK) <= 1
  {
    SmashMessages(w, id);
    var p := w.players[id];
    StompPassSurvivors(p, w.enemies);
    StompPassNotices(p, w.enemies);
    StompPassKills(p, w.enemies);
    var st := StompPass(p, w.enemies);
    var b := BossStomp(w.(enemies := st.survivors), p);
    assert Smash(w, id).out == st.out + b.out;
    if w.boss.None? || !StompsBoss(p, w.boss.value) {
      SmashMiss(w, id);
    }
  }

  /** The messages of `handleSmash` for a present player: the kills, then at
      most one boss message. */
  lemma SmashMessages(w: WorldState, id: Id)
    requires id in w.players
    ensures var r := Smash(w, id);
      var s := StompPass(w.players[id], w.enemies);
      && Count(r.out, EnemyKilledK) == |s.out| == |w.enemies| - |s.survivors|
      && (forall i :: 0 <= i < |s.out| ==> r.out[i].event.EnemyKilled?)
      && |r.out| <= |s.out| + 1
      && Count(r.out, BossUpdateK) + Count(r.out, LevelCompleteK) + Count(r.out, GameWinK) <= 1
  {
    var p := w.players[id];
    var s := StompPass(p, w.enemies);
    StompPassKills(p, w.enemies);
    var b := BossStomp(w.(enemies := s.survivors), p);
    BossStompShape(w.(enemies := s.survivors), p);
    KillsThenBoss(s.out, b.out);
  }

  /** Without a boss stomp, `handleSmash` only removes the enemies landed on. */
  lemma SmashMiss(w: WorldState, id: Id)
    requires id in w.players
    requires w.boss.None? || !StompsBoss(w.players[id], w.boss.value)
    ensures var r := Smash(w, id);
      var p := w.players[id];
      r.world == w.(enemies := Unstomped(p, w.enemies)) && r.out == StompPass(p, w.enemies).out
  {
    var p := w.players[id];
    var s := StompPass(p, w.enemies);
    StompPassSurvivors(p, w.enemies);
    BossStompMiss(w.(enemies := s.survivors), p);
    assert s.out + [] == s.out;
  }

  /** The boss part sends at most one message, never a kill, and nothing at
      all without a qualifying stomp. */
  lemma BossStompShape(w: WorldState, p: Player)
    ensures var b := BossStomp(w, p);
      && |b.out| <= 1
      && (forall m :: m in b.out ==> KindOf(m.event) != EnemyKilledK)
      && (w.boss.None? || !StompsBoss(p, w.boss.value) ==> b == Transition(w, []))
  {
  }

  /** `handleSmash` keeps the world invariant and moves the game along one
      allowed phase step: the boss's defeat leads to the next level's start or,
      after the last level, to the win. */
  lemma SmashInv(w: WorldState, id: Id)
    requires Inv(w)
    ensures var r := Smash(w, id).world;
      && Inv(r)
      && PhaseStep(PhaseOf(w), PhaseOf(r))
      && w.currentLevel <= r.currentLevel <= w.currentLevel + 1
  {
    if id in w.players {
      var p := w.players[id];
      var s := StompPass(p, w.enemies);
      StompPassSurvivors(p, w.enemies);
      var w1 := w.(enemies := s.survivors);
      assert Inv(w1);
      if w1.boss.Some? && StompsBoss(p, w1.boss.value) && w1.boss.value.health - 1 <= 0 {
        var next := w.currentLevel + 1;
        if next < |Levels()| {
          LoadLevelInv(w1.(boss := None, currentLevel := next), next);
        }
      }
    }
  }

  /** A boss stomp moves the game one phase along exactly when it defeats
      the boss: to the next level's start, or to the win after the last. */
  lemma BossStompPhase(w: WorldState, p: Player)
    requires ProgressOk(w)
    ensures var r := BossStomp(w, p).world;
      var defeat := w.boss.Some? && StompsBoss(p, w.boss.value) && w.boss.value.health <= 1;
      && ProgressOk(r)
      && Progress(PhaseOf(r)) == Progress(PhaseOf(w)) + (if defeat then 1 else 0)
      && (PhaseOf(r) == Won <==> PhaseOf(w) == Won || (defeat && w.currentLevel + 1 == |Levels()|))
  {
    if w.boss.Some? && StompsBoss(p, w.boss.value) && w.boss.value.health <= 1 {
      var next := w.currentLevel + 1;
      if next < |Levels()| {
        LevelsWellFormed(next);
        var r := BossStomp(w, p).world;
        assert r.zeldina == Some(Levels()[next].zeldina);
        assert PhaseOf(r) == InLevel(next);
      }
    }
  }

  /** The boss part announces one milestone exactly when it defeats the
      boss, `gameWin` when that ends the last level; never a rescue. */
  lemma BossStompAnnounces(w: WorldState, p: Player)
    ensures var r := BossStomp(w, p);
      var defeat := w.boss.Some? && StompsBoss(p, w.boss.value) && w.boss.value.health <= 1;
      && Count(r.out, ZeldinaRescuedK) == 0
      && Count(r.out, LevelCompleteK) + Count(r.out, GameWinK) == (if defeat then 1 else 0)
      && Count(r.out, GameWinK) == (if defeat && w.currentLevel + 1 >= |Levels()| then 1 else 0)
  {
    var r := BossStomp(w, p);
    if w.boss.Some? && StompsBoss(p, w.boss.value) {
      assert r.out[..0] == [];
    }
  }

  /** Kill announcements in front of other messages do not change how many
      messages of another kind there are. */
  lemma KillsFirst(kills: seq<Message>, rest: seq<Message>, k: EventKind)
    requires forall m :: m in kills ==> KindOf(m.event) == EnemyKilledK
    requires k != EnemyKilledK
    ensures Count(kills + rest, k) == Count(rest, k)
  {
    NoneOfKind(kills, k);
    CountAppend(kills, rest, k);
  }

  /** The boss's defeat is the only milestone `handleSmash` announces: one
      `levelComplete` or `gameWin` per phase step it takes, `gameWin` exactly
      when it ends the game, and never a rescue. */
  lemma SmashAnnounces(w: WorldState, id: Id)
    requires ProgressOk(w)
    ensures var r := Smash(w, id);
      && ProgressOk(r.world)
      && Count(r.out, ZeldinaRescuedK) == 0
      && Count(r.out, LevelCompleteK) + Count(r.out, GameWinK) == Progress(PhaseOf(r.world)) - Progress(PhaseOf(w))
      && Count(r.out, GameWinK) == (if PhaseOf(w) != Won && PhaseOf(r.world) == Won then 1 else 0)
  {
    if id in w.players {
      var p := w.players[id];
      var s := StompPass(p, w.enemies);
      var w1 := w.(enemies := s.survivors);
      var b := BossStomp(w1, p);
      assert forall m :: m in s.out ==> KindOf(m.event) == EnemyKilledK;
      KillsFirst(s.out, b.out, ZeldinaRescuedK);
      KillsFirst(s.out, b.out, LevelCompleteK);
      KillsFirst(s.out, b.out, GameWinK);
      BossStompAnnounces(w1, p);
      BossStompPhase(w1, p);
      assert PhaseOf(w1) == PhaseOf(w);
    }
  }
}
