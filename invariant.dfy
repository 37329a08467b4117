/** The invariant every reachable world keeps, and the phase of the game it
    is in. */
module WorldInvariant {
  import opened Types
  import opened Tables

  /** A player in play: alive, with lives left and a positive maximum health
      it does not exceed. */
  predicate PlayerOk(p: Player)
  {
    && 0 < p.health <= p.maxHealth
    && p.lives > 0
    && p.invulnerable >= 0
  }

  /** The progression part of the invariant: a boss exists exactly while a
      rescued Zeldina's level is still being played, it is alive, and once
      every level is cleared there is no boss. */
  predicate ProgressOk(w: WorldState)
  {
    && w.zeldina.Some?
    && w.currentLevel <= |Levels()|
    && (w.currentLevel == |Levels()| ==> w.boss.None? && w.zeldina.value.rescued)
    && (w.currentLevel < |Levels()| ==> (w.boss.Some? <==> w.zeldina.value.rescued))
    && (w.boss.Some? ==> w.boss.value.health > 0)
  }

  /** Every world the server reaches after its cold start. */
  ghost predicate Inv(w: WorldState)
  {
    && KeyOrder(w.order, w.players)
    && (forall id :: id in w.players ==> PlayerOk(w.players[id]))
    && (forall e :: e in w.enemies ==> e.health > 0)
    && |w.platforms| > 0
    && ProgressOk(w)
  }

  /** Where the game stands: playing level `n` before the rescue, fighting
      level `n`'s boss, or won. */
  datatype Phase = InLevel(n: nat) | BossFight(n: nat) | Won

  function PhaseOf(w: WorldState): Phase
    requires ProgressOk(w)
  {
    if w.currentLevel == |Levels()| then Won
    else if w.zeldina.value.rescued then BossFight(w.currentLevel)
    else InLevel(w.currentLevel)
  }

  /** The moves the progression allows in one action: stay, rescue Zeldina,
      beat the boss into the next level, or beat the last boss. */
  predicate PhaseStep(p: Phase, q: Phase)
  {
    || p == q
    || (p.InLevel? && q == BossFight(p.n))
    || (p.BossFight? && p.n + 1 < |Levels()| && q == InLevel(p.n + 1))
    || (p.BossFight? && p.n + 1 == |Levels()| && q == Won)
  }

  /** How far along the game is; every allowed phase move keeps or raises it. */
  function Progress(p: Phase): nat
  {
    match p
    case InLevel(n) => 2 * n
    case BossFight(n) => 2 * n + 1
    case Won => 2 * |Levels()|
  }

  lemma PhaseStepMonotone(p: Phase, q: Phase)
    requires PhaseStep(p, q)
    requires p != Won ==> Progress(p) < 2 * |Levels()|
    ensures Progress(p) <= Progress(q) <= Progress(p) + 1
    ensures p == Won ==> q == Won
  {
  }
}
