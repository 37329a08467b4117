/** Combat resolution: `applyDamage` and `handleAttack`. The attack is split as
    the source runs it: a pass over the players in key order, then a backwards
    pass over the enemies, then the projectile and the summary broadcast. */
module Combat {
  import opened Types
  import opened Tables
  import opened Geometry

  /** What `applyDamage` returns (`dealt`) and the health it leaves the target. */
  datatype Damage = Damage(dealt: int, health: int)

  /** `applyDamage(target, damage, pvp)`: halve (rounding down) on the player
      versus player path, double on a critical hit, clamp health at zero. */
  function ApplyDamage(health: int, damage: int, pvp: bool, crit: bool): (r: Damage)
    ensures pvp ==> r.dealt == (if crit then 2 * (damage / 2) else damage / 2)
    ensures !pvp ==> r.dealt == (if crit then 2 * damage else damage)
    ensures damage >= 0 ==> 0 <= r.dealt && (pvp ==> r.dealt <= damage)
    ensures r.health >= 0 && (r.dealt >= 0 ==> r.health <= health || health < 0)
    ensures r.health == 0 <==> health <= r.dealt
    ensures r.health > 0 ==> r.health == health - r.dealt
  {
    var reduced := if pvp then damage / 2 else damage;
    var dealt := if crit then reduced * 2 else reduced;
    Damage(dealt, if health - dealt < 0 then 0 else health - dealt)
  }

  /** The damage one attack carries: the table value, doubled for a Mega Chicken. */
  function EffectiveDamage(t: AttackType, mega: bool): (d: nat)
    ensures d == (if mega then 2 else 1) * AttackDamage(t)
    ensures 15 <= d <= 100
  {
    if mega then AttackDamage(t) * 2 else AttackDamage(t)
  }

  /** One processed attack as the passes see it. */
  datatype Strike = Strike(attacker: Id, origin: Vec, range: int, damage: int)

  /** Whether a player with id `id` standing at `t.pos` is hit by `a`. */
  predicate Targeted(a: Strike, id: Id, t: Player)
  {
    id != a.attacker && InRange(a.origin, t.pos, a.range)
  }

  /** A player target after it is hit: damaged, or (health at zero) one life
      fewer and respawned, or `None` when that was its last life. */
  function Struck(t: Player, damage: int, crit: bool): (r: Option<Player>)
    ensures ApplyDamage(t.health, damage, true, crit).health > 0 ==>
      r == Some(t.(health := ApplyDamage(t.health, damage, true, crit).health))
    ensures ApplyDamage(t.health, damage, true, crit).health <= 0 ==>
      (r.None? <==> t.lives <= 1) &&
      (r.Some? ==> r.value == t.(lives := t.lives - 1, health := MaxHealthOrDefault(t),
                                 pos := SpawnPos, invulnerable := 180))
  {
    var d := ApplyDamage(t.health, damage, true, crit);
    if d.health > 0 then Some(t.(health := d.health))
    else if t.lives - 1 > 0 then
      Some(t.(lives := t.lives - 1, health := MaxHealthOrDefault(t), pos := SpawnPos, invulnerable := 180))
    else None
  }

  /** What the attack leaves of player `id`: unchanged when not targeted. */
  function Expected(a: Strike, id: Id, t: Player, crits: set<Id>): Option<Player>
  {
    if Targeted(a, id, t) then Struck(t, a.damage, id in crits) else Some(t)
  }

  /** Damage a player hit may carry: the halved damage, or twice it. */
  predicate PvpDealt(damage: int, dealt: int)
  {
    dealt == damage / 2 || dealt == 2 * (damage / 2)
  }

  /** The state the player pass threads through `for (playerId in players)`. */
  datatype PlayerPassState = PlayerPassState(players: map<Id, Player>, order: seq<Id>, hits: seq<Hit>, out: seq<Message>)

  /** One iteration of the player pass, for key `id`. */
  function HitPlayer(s: PlayerPassState, a: Strike, id: Id, crits: set<Id>): PlayerPassState
  {
    if id !in s.players || !Targeted(a, id, s.players[id]) then s
    else
      var t := s.players[id];
      var hit := PlayerHit(id, ApplyDamage(t.health, a.damage, true, id in crits).dealt, t.pos);
      match Struck(t, a.damage, id in crits)
      case Some(t') =>
        s.(players := s.players[id := t'], hits := s.hits + [hit])
      case None =>
        s.(players := s.players - {id}, order := Without(s.order, id), hits := s.hits + [hit],
           out := s.out + [Message(Everyone, PlayerEliminated(id, a.attacker))])
  }

  /** The player pass over the keys `ids`, first to last. */
  function PlayerPass(s: PlayerPassState, a: Strike, ids: seq<Id>, crits: set<Id>): (r: PlayerPassState)
    ensures r.players.Keys <= s.players.Keys
    ensures forall id :: id in s.players && id !in ids ==> id in r.players && r.players[id] == s.players[id]
    ensures a.attacker in s.players ==> a.attacker in r.players && r.players[a.attacker] == s.players[a.attacker]
    decreases |ids|
  {
    if ids == [] then s
    else
      var last := ids[|ids| - 1];
      var r := PlayerPass(s, a, ids[..|ids| - 1], crits);
      assert forall id :: id in ids[..|ids| - 1] ==> id in ids;
      HitPlayer(r, a, last, crits)
  }

  /** The pass over one more key is one more iteration. */
  lemma PlayerPassStep(s: PlayerPassState, a: Strike, ids: seq<Id>, k: nat, crits: set<Id>)
    requires k < |ids|
    ensures PlayerPass(s, a, ids[..k + 1], crits) == HitPlayer(PlayerPass(s, a, ids[..k], crits), a, ids[k], crits)
  {
    assert ids[..k + 1][..k] == ids[..k];
  }

  /** Every hit the pass records is a player hit on a targeted player other
      than the attacker, carrying the halved damage or twice it; the only
      broadcasts are eliminations credited to the attacker; the key order
      stays in step with the dictionary. */
  lemma {:induction false} PlayerPassShape(s: PlayerPassState, a: Strike, ids: seq<Id>, crits: set<Id>)
    ensures var r := PlayerPass(s, a, ids, crits);
      && (KeyOrder(s.order, s.players) ==> KeyOrder(r.order, r.players))
      && (forall h :: h in r.hits ==>
           || h in s.hits
           || (h.PlayerHit? && h.id in ids && h.id != a.attacker && InRange(a.origin, h.pos, a.range) && PvpDealt(a.damage, h.damage)))
      && (forall m :: m in r.out ==>
           || m in s.out
           || (m.to == Everyone && m.event.PlayerEliminated? && m.event.victim in ids && m.event.eliminatedBy == a.attacker))
    decreases |ids|
  {
    if ids != [] {
      var prefix := ids[..|ids| - 1];
      PlayerPassShape(s, a, prefix, crits);
      assert forall id :: id in prefix ==> id in ids;
    }
  }

  /** The ids of the player entries of a hit list. */
  function HitIds(hs: seq<Hit>): set<Id>
  {
    if hs == [] then {}
    else HitIds(hs[..|hs| - 1]) + (if hs[|hs| - 1].PlayerHit? then {hs[|hs| - 1].id} else {})
  }

  /** The number of `playerEliminated` events that name `id` as the victim. */
  function VictimCount(out: seq<Message>, id: Id): nat
  {
    if out == [] then 0
    else
      var m := out[|out| - 1];
      VictimCount(out[..|out| - 1], id) + (if m.event.PlayerEliminated? && m.event.victim == id then 1 else 0)
  }

  /** The ids among `ids` that `a` targets. */
  function TargetIds(m: map<Id, Player>, a: Strike, ids: seq<Id>): (r: set<Id>)
    ensures forall id :: id in r <==> id in ids && id in m && Targeted(a, id, m[id])
  {
    if ids == [] then {}
    else
      var last := ids[|ids| - 1];
      assert forall id :: id in ids <==> id in ids[..|ids| - 1] || id == last;
      TargetIds(m, a, ids[..|ids| - 1]) + (if last in m && Targeted(a, last, m[last]) then {last} else {})
  }

  /** One iteration of the player pass records a hit exactly for a targeted
      player. */
  lemma HitPlayerHits(s: PlayerPassState, a: Strike, id: Id, crits: set<Id>)
    requires id in s.players
    ensures var r := HitPlayer(s, a, id, crits);
      && HitIds(r.hits) == HitIds(s.hits) + (if Targeted(a, id, s.players[id]) then {id} else {})
      && |r.hits| == |s.hits| + (if Targeted(a, id, s.players[id]) then 1 else 0)
  {
    var r := HitPlayer(s, a, id, crits);
    if Targeted(a, id, s.players[id]) {
      assert r.hits[..|r.hits| - 1] == s.hits;
    }
  }

  /** One iteration of the player pass touches key `id` only, as `Expected`
      says. */
  lemma HitPlayerEffect(s: PlayerPassState, a: Strike, id: Id, crits: set<Id>)
    requires id in s.players
    ensures var r := HitPlayer(s, a, id, crits);
      var e := Expected(a, id, s.players[id], crits);
      && (id in r.players <==> e.Some?)
      && (id in r.players ==> r.players[id] == e.value)
      && (forall other :: other != id ==>
            && (other in r.players <==> other in s.players)
            && (other in r.players ==> r.players[other] == s.players[other]))
  {
  }

  /** One iteration of the player pass announces the elimination of `id` at
      most once, and of no other player. */
  lemma HitPlayerVictims(s: PlayerPassState, a: Strike, id: Id, crits: set<Id>)
    requires id in s.players
    ensures var r := HitPlayer(s, a, id, crits);
      && VictimCount(r.out, id) == VictimCount(s.out, id) + (if Expected(a, id, s.players[id], crits).None? then 1 else 0)
      && forall other :: other != id ==> VictimCount(r.out, other) == VictimCount(s.out, other)
  {
    var r := HitPlayer(s, a, id, crits);
    if r.out != s.out {
      assert r.out[..|r.out| - 1] == s.out;
    }
  }

  /** `ids` without its last element still has no duplicate, and does not
      hold that element. */
  lemma NoDupPrefix(ids: seq<Id>)
    requires NoDup(ids) && ids != []
    ensures NoDup(ids[..|ids| - 1]) && ids[|ids| - 1] !in ids[..|ids| - 1]
  {
    var n := |ids| - 1;
    forall i | 0 <= i < n ensures ids[..n][i] != ids[n] { assert ids[i] != ids[n]; }
  }

  /** The player hits of the pass are exactly the targeted players. */
  lemma {:induction false} PlayerPassHits(s: PlayerPassState, a: Strike, ids: seq<Id>, crits: set<Id>)
    requires NoDup(ids)
    requires forall id :: id in ids ==> id in s.players
    ensures HitIds(PlayerPass(s, a, ids, crits).hits) == HitIds(s.hits) + TargetIds(s.players, a, ids)
    decreases |ids|
  {
    if ids != [] {
      var n := |ids| - 1;
      var last, prefix := ids[n], ids[..n];
      NoDupPrefix(ids);
      assert forall id :: id in prefix ==> id in ids;
      PlayerPassHits(s, a, prefix, crits);
      var r' := PlayerPass(s, a, prefix, crits);
      HitPlayerHits(r', a, last, crits);
    }
  }

  /** The pass records one hit per targeted player. */
  lemma {:induction false} PlayerPassHitCount(s: PlayerPassState, a: Strike, ids: seq<Id>, crits: set<Id>)
    requires NoDup(ids)
    requires forall id :: id in ids ==> id in s.players
    ensures |PlayerPass(s, a, ids, crits).hits| == |s.hits| + |TargetIds(s.players, a, ids)|
    decreases |ids|
  {
    if ids != [] {
      var n := |ids| - 1;
      var last, prefix := ids[n], ids[..n];
      NoDupPrefix(ids);
      assert forall id :: id in prefix ==> id in ids;
      PlayerPassHitCount(s, a, prefix, crits);
      var r' := PlayerPass(s, a, prefix, crits);
      assert last !in TargetIds(s.players, a, prefix);
      assert last in r'.players && r'.players[last] == s.players[last];
      HitPlayerHits(r', a, last, crits);
    }
  }

  /** The pass leaves each player as `Expected` says: untouched when not
      targeted, damaged or respawned with one life fewer, or removed. */
  lemma {:induction false} PlayerPassOutcome(s: PlayerPassState, a: Strike, ids: seq<Id>, crits: set<Id>)
    requires NoDup(ids)
    requires forall id :: id in ids ==> id in s.players
    ensures var r := PlayerPass(s, a, ids, crits);
      forall id :: id in ids ==>
        var e := Expected(a, id, s.players[id], crits);
        && (id in r.players <==> e.Some?)
        && (id in r.players ==> r.players[id] == e.value)
    decreases |ids|
  {
    if ids != [] {
      var n := |ids| - 1;
      var last, prefix := ids[n], ids[..n];
      NoDupPrefix(ids);
      assert forall id :: id in prefix ==> id in ids;
      PlayerPassOutcome(s, a, prefix, crits);
      var r' := PlayerPass(s, a, prefix, crits);
      assert last in r'.players && r'.players[last] == s.players[last];
      HitPlayerEffect(r', a, last, crits);
      var r := PlayerPass(s, a, ids, crits);
      PlayerPassStep(s, a, ids, n, crits);
      assert ids[..n + 1] == ids;
      forall id | id in ids
        ensures var e := Expected(a, id, s.players[id], crits);
          && (id in r.players <==> e.Some?)
          && (id in r.players ==> r.players[id] == e.value)
      {
        if id != last {
          assert id in prefix;
        }
      }
    }
  }

  /** The pass announces exactly one elimination per eliminated player, and
      none for any other. */
  lemma {:induction false} PlayerPassEliminations(s: PlayerPassState, a: Strike, ids: seq<Id>, crits: set<Id>)
    requires NoDup(ids)
    requires forall id :: id in ids ==> id in s.players
    ensures var r := PlayerPass(s, a, ids, crits);
      && (forall id :: id in ids ==>
            VictimCount(r.out, id) == VictimCount(s.out, id) + (if Expected(a, id, s.players[id], crits).None? then 1 else 0))
      && (forall id :: id !in ids ==> VictimCount(r.out, id) == VictimCount(s.out, id))
    decreases |ids|
  {
    if ids != [] {
      var n := |ids| - 1;
      var last, prefix := ids[n], ids[..n];
      NoDupPrefix(ids);
      assert forall id :: id in prefix ==> id in ids;
      PlayerPassEliminations(s, a, prefix, crits);
      var r' := PlayerPass(s, a, prefix, crits);
      assert last in r'.players && r'.players[last] == s.players[last];
      HitPlayerVictims(r', a, last, crits);
      var r := HitPlayer(r', a, last, crits);
      forall id | id in ids
        ensures VictimCount(r.out, id) == VictimCount(s.out, id) + (if Expected(a, id, s.players[id], crits).None? then 1 else 0)
      {
        if id != last {
          assert id in prefix;
          assert VictimCount(r.out, id) == VictimCount(r'.out, id);
        } else {
          assert Expected(a, id, s.players[id], crits) == Expected(a, last, r'.players[last], crits);
        }
      }
      forall id | id !in ids ensures VictimCount(r.out, id) == VictimCount(s.out, id) {
        assert id !in prefix && id != last;
      }
    }
  }

  /** The state the backwards enemy pass produces: the enemies left, in their
      original order, the enemy hits and broadcasts, and whether a golden egg
      dropped. */
  datatype EnemyPassResult = EnemyPassResult(survivors: seq<Enemy>, hits: seq<Hit>, out: seq<Message>, egg: bool)

  /** The egg message, sent only to the attacker. */
  function EggMessage(attacker: Id): Message
  {
    Message(Only(attacker), ItemReceived(GoldenEgg))
  }

  /** The number of enemies of `es` within reach of `a`. */
  function InRangeCount(es: seq<Enemy>, a: Strike): nat
  {
    if es == [] then 0 else (if InRange(a.origin, es[0].pos, a.range) then 1 else 0) + InRangeCount(es[1..], a)
  }

  /** One iteration of the backwards enemy pass, for enemy `e` at index `idx`,
      after the enemies behind it were processed into `r`. */
  function HitEnemy(r: EnemyPassResult, e: Enemy, idx: nat, a: Strike, crits: set<nat>, drops: set<nat>): EnemyPassResult
  {
    if !InRange(a.origin, e.pos, a.range) then r.(survivors := [e] + r.survivors)
    else
      var d := ApplyDamage(e.health, a.damage, false, idx in crits);
      var hits := r.hits + [EnemyHit(d.dealt, e.pos)];
      if d.health > 0 then r.(survivors := [e.(health := d.health)] + r.survivors, hits := hits)
      else
        var drop := if idx in drops then [EggMessage(a.attacker)] else [];
        r.(hits := hits, out := r.out + [Message(Everyone, EnemyKilled(e.pos))] + drop, egg := r.egg || idx in drops)
  }

  /** The backwards loop over the enemies `es`, whose first element has index
      `base` in the enemy list: the later enemies are processed first, then
      `es[0]`. */
  function EnemyPass(es: seq<Enemy>, base: nat, a: Strike, crits: set<nat>, drops: set<nat>): (r: EnemyPassResult)
    ensures |r.survivors| <= |es|
    ensures |r.hits| == InRangeCount(es, a)
    ensures forall h :: h in r.hits ==>
      h.EnemyHit? && InRange(a.origin, h.pos, a.range) && (h.damage == a.damage || h.damage == 2 * a.damage)
    ensures forall m :: m in r.out ==> (m.to == Everyone && m.event.EnemyKilled?) || m == EggMessage(a.attacker)
    ensures r.egg <==> EggMessage(a.attacker) in r.out
    decreases |es|
  {
    if es == [] then EnemyPassResult([], [], [], false)
    else HitEnemy(EnemyPass(es[1..], base + 1, a, crits, drops), es[0], base, a, crits, drops)
  }

  /** The pass from index `i` is the pass from `i + 1` followed by enemy `i`. */
  lemma EnemyPassStep(es: seq<Enemy>, i: nat, a: Strike, crits: set<nat>, drops: set<nat>)
    requires i < |es|
    ensures EnemyPass(es[i..], i, a, crits, drops) == HitEnemy(EnemyPass(es[i + 1..], i + 1, a, crits, drops), es[i], i, a, crits, drops)
  {
    assert es[i..][1..] == es[i + 1..];
  }

  /** One iteration adds one `enemyKilled` exactly when it removes the enemy,
      and keeps only a live enemy. */
  lemma HitEnemyKills(r: EnemyPassResult, e: Enemy, idx: nat, a: Strike, crits: set<nat>, drops: set<nat>)
    ensures var r' := HitEnemy(r, e, idx, a, crits, drops);
      && Count(r'.out, EnemyKilledK) + |r'.survivors| == Count(r.out, EnemyKilledK) + |r.survivors| + 1
      && (e.health > 0 && (forall x :: x in r.survivors ==> x.health > 0) ==> forall x :: x in r'.survivors ==> x.health > 0)
  {
    HitEnemyCount(r, e, idx, a, crits, drops);
    var r' := HitEnemy(r, e, idx, a, crits, drops);
    assert forall x :: x in r'.survivors ==> x in r.survivors || x == e || (x.pos == e.pos && x.health > 0);
  }

  lemma HitEnemyCount(r: EnemyPassResult, e: Enemy, idx: nat, a: Strike, crits: set<nat>, drops: set<nat>)
    ensures var r' := HitEnemy(r, e, idx, a, crits, drops);
      Count(r'.out, EnemyKilledK) + |r'.survivors| == Count(r.out, EnemyKilledK) + |r.survivors| + 1
  {
    var r' := HitEnemy(r, e, idx, a, crits, drops);
    if InRange(a.origin, e.pos, a.range) {
      var d := ApplyDamage(e.health, a.damage, false, idx in crits);
      if d.health <= 0 {
        var killed := [Message(Everyone, EnemyKilled(e.pos))];
        var drop := if idx in drops then [EggMessage(a.attacker)] else [];
        assert r'.out == r.out + killed + drop;
        CountAppend(r.out, killed, EnemyKilledK);
        CountAppend(r.out + killed, drop, EnemyKilledK);
      }
    }
  }

  /** The backwards pass removes exactly the enemies it kills, announcing each
      kill once, and leaves only live enemies behind. */
  lemma {:induction false} EnemyPassKills(es: seq<Enemy>, base: nat, a: Strike, crits: set<nat>, drops: set<nat>)
    ensures var r := EnemyPass(es, base, a, crits, drops);
      && Count(r.out, EnemyKilledK) == |es| - |r.survivors|
      && ((forall e :: e in es ==> e.health > 0) ==> forall e :: e in r.survivors ==> e.health > 0)
    decreases |es|
  {
    if es != [] {
      EnemyPassKills(es[1..], base + 1, a, crits, drops);
      assert forall x :: x in es[1..] ==> x in es;
      HitEnemyKills(EnemyPass(es[1..], base + 1, a, crits, drops), es[0], base, a, crits, drops);
    }
  }

  /** What an attack leaves of enemy `e` at index `idx` of the enemy list:
      unchanged out of reach, with its health lowered while that stays above
      zero, `None` once its health reaches zero. */
  function EnemyAfter(e: Enemy, idx: nat, a: Strike, crits: set<nat>): Option<Enemy>
  {
    if !InRange(a.origin, e.pos, a.range) then Some(e)
    else
      var h := ApplyDamage(e.health, a.damage, false, idx in crits).health;
      if h > 0 then Some(e.(health := h)) else None
  }

  /** The enemies an attack leaves, front to back, each as `EnemyAfter` says;
      `es[0]` has index `base`. */
  function EnemiesAfter(es: seq<Enemy>, base: nat, a: Strike, crits: set<nat>): seq<Enemy>
    decreases |es|
  {
    if es == [] then []
    else
      var rest := EnemiesAfter(es[1..], base + 1, a, crits);
      match EnemyAfter(es[0], base, a, crits)
      case Some(e) => [e] + rest
      case None => rest
  }

  /** The indices of the enemies an attack kills. */
  function KilledAt(es: seq<Enemy>, base: nat, a: Strike, crits: set<nat>): set<nat>
    decreases |es|
  {
    if es == [] then {}
    else (if EnemyAfter(es[0], base, a, crits).None? then {base} else {}) + KilledAt(es[1..], base + 1, a, crits)
  }

  /** The `enemyKilled` announcements of an attack: one per killed enemy, at
      its position, last enemy first. */
  function KillNotices(es: seq<Enemy>, base: nat, a: Strike, crits: set<nat>): seq<Message>
    decreases |es|
  {
    if es == [] then []
    else
      KillNotices(es[1..], base + 1, a, crits) +
      (if EnemyAfter(es[0], base, a, crits).None? then [Message(Everyone, EnemyKilled(es[0].pos))] else [])
  }

  /** The backwards splice loop leaves exactly the enemies `EnemiesAfter`
      describes. */
  lemma {:induction false} EnemyPassSurvivors(es: seq<Enemy>, base: nat, a: Strike, crits: set<nat>, drops: set<nat>)
    ensures EnemyPass(es, base, a, crits, drops).survivors == EnemiesAfter(es, base, a, crits)
    decreases |es|
  {
    if es != [] {
      EnemyPassSurvivors(es[1..], base + 1, a, crits, drops);
    }
  }

  /** One iteration announces a kill exactly for an enemy `EnemyAfter`
      removes. */
  lemma HitEnemyNotices(r: EnemyPassResult, e: Enemy, idx: nat, a: Strike, crits: set<nat>, drops: set<nat>)
    ensures OfKind(HitEnemy(r, e, idx, a, crits, drops).out, EnemyKilledK) ==
      OfKind(r.out, EnemyKilledK) + (if EnemyAfter(e, idx, a, crits).None? then [Message(Everyone, EnemyKilled(e.pos))] else [])
  {
    if EnemyAfter(e, idx, a, crits).None? {
      var drop := if idx in drops then [EggMessage(a.attacker)] else [];
      assert HitEnemy(r, e, idx, a, crits, drops).out == r.out + [Message(Everyone, EnemyKilled(e.pos))] + drop;
      NoticeThenDrop(r.out, Message(Everyone, EnemyKilled(e.pos)), drop);
    }
  }

  /** Appending a kill and then possibly an egg adds just the kill to the
      kill announcements. */
  lemma NoticeThenDrop(out: seq<Message>, kill: Message, drop: seq<Message>)
    requires KindOf(kill.event) == EnemyKilledK && forall m :: m in drop ==> KindOf(m.event) != EnemyKilledK
    ensures OfKind(out + [kill] + drop, EnemyKilledK) == OfKind(out, EnemyKilledK) + [kill]
  {
    OfKindAppend(out, [kill], EnemyKilledK);
    OfKindOne(kill, EnemyKilledK);
    var before := OfKind(out + [kill], EnemyKilledK);
    assert before == OfKind(out, EnemyKilledK) + [kill];
    if drop == [] {
      assert out + [kill] + drop == out + [kill];
    } else {
      OfKindAppend(out + [kill], drop, EnemyKilledK);
      NoneOfKind(drop, EnemyKilledK);
      assert OfKind(drop, EnemyKilledK) == [];
      assert OfKind(out + [kill] + drop, EnemyKilledK) == before + [];
    }
  }

  /** The loop announces exactly the kills `KillNotices` lists, in its order. */
  lemma {:induction false} EnemyPassNotices(es: seq<Enemy>, base: nat, a: Strike, crits: set<nat>, drops: set<nat>)
    ensures OfKind(EnemyPass(es, base, a, crits, drops).out, EnemyKilledK) == KillNotices(es, base, a, crits)
    decreases |es|
  {
    if es != [] {
      EnemyPassNotices(es[1..], base + 1, a, crits, drops);
      HitEnemyNotices(EnemyPass(es[1..], base + 1, a, crits, drops), es[0], base, a, crits, drops);
    }
  }

  /** The attacker gets a golden egg exactly when a killed enemy's index is
      one whose drop roll succeeded. */
  lemma {:induction false} EnemyPassEgg(es: seq<Enemy>, base: nat, a: Strike, crits: set<nat>, drops: set<nat>)
    ensures EnemyPass(es, base, a, crits, drops).egg <==> KilledAt(es, base, a, crits) * drops != {}
    decreases |es|
  {
    if es != [] {
      EnemyPassEgg(es[1..], base + 1, a, crits, drops);
      var k := KilledAt(es[1..], base + 1, a, crits);
      if EnemyAfter(es[0], base, a, crits).None? && base in drops {
        assert base in KilledAt(es, base, a, crits) * drops;
      } else {
        assert KilledAt(es, base, a, crits) * drops == k * drops;
      }
    }
  }

  /** `xs` is `ys` with some elements left out, the rest in their order, each
      kept element carrying at most its original health. */
  predicate Embeds(xs: seq<Enemy>, ys: seq<Enemy>)
    decreases |ys|
  {
    if xs == [] then true
    else if ys == [] then false
    else
      || (xs[0] == ys[0].(health := xs[0].health) && xs[0].health <= ys[0].health && Embeds(xs[1..], ys[1..]))
      || Embeds(xs, ys[1..])
  }

  /** The enemies the backwards pass leaves keep their relative order, and
      none of them gains health; out-of-range enemies are all kept. */
  lemma {:induction false} EnemyPassOrder(es: seq<Enemy>, base: nat, a: Strike, crits: set<nat>, drops: set<nat>)
    requires a.damage >= 0
    ensures var r := EnemyPass(es, base, a, crits, drops);
      && Embeds(r.survivors, es)
      && |r.survivors| >= |es| - InRangeCount(es, a)
    decreases |es|
  {
    if es != [] {
      EnemyPassOrder(es[1..], base + 1, a, crits, drops);
      var rest := EnemyPass(es[1..], base + 1, a, crits, drops);
      var r := HitEnemy(rest, es[0], base, a, crits, drops);
      if r.survivors != rest.survivors {
        assert r.survivors[1..] == rest.survivors;
      } else {
        if rest.survivors != [] {
          assert Embeds(rest.survivors, es[1..]);
        }
      }
    }
  }

  /** The end of `handleAttack`, once both passes are done: the golden egg,
      the egg projectile, the new world and the closing broadcast. */
  function Resolve(w: WorldState, a: Strike, t: AttackType, direction: int, pp: PlayerPassState, ep: EnemyPassResult): (r: Transition)
    requires a.attacker in pp.players
    ensures |r.out| == |pp.out| + |ep.out| + 1
    ensures r.out[..|pp.out| + |ep.out|] == pp.out + ep.out
    ensures r.out[|r.out| - 1] == Message(Everyone, AttackPerformed(a.attacker, t, a.origin, direction, pp.hits + ep.hits))
  {
    var players :=
      if ep.egg then pp.players[a.attacker := pp.players[a.attacker].(hasGoldenEgg := true)] else pp.players;
    var projectiles :=
      if t == Egg then w.projectiles + [Projectile(a.origin, Vec(direction * 10, -5), a.damage, a.attacker, Egg)]
      else w.projectiles;
    Transition(
      w.(players := players, order := pp.order, enemies := ep.survivors, projectiles := projectiles),
      pp.out + ep.out + [Message(Everyone, AttackPerformed(a.attacker, t, a.origin, direction, pp.hits + ep.hits))])
  }

  /** `handleAttack` on the world. */
  function Attack(w: WorldState, attacker: Id, t: AttackType, origin: Vec, direction: int, rolls: Rolls): (r: Transition)
    ensures attacker !in w.players ==> r == Transition(w, [])
    ensures attacker in w.players ==>
      && |r.out| > 0
      && r.out[|r.out| - 1].to == Everyone
      && r.out[|r.out| - 1].event.AttackPerformed?
      && r.out[|r.out| - 1].event.attackerId == attacker
    ensures r.world.platforms == w.platforms && r.world.zeldina == w.zeldina
    ensures r.world.boss == w.boss && r.world.currentLevel == w.currentLevel
  {
    if attacker !in w.players then Transition(w, [])
    else
      var a := Strike(attacker, origin, AttackRange(t), EffectiveDamage(t, w.players[attacker].isMegaChicken));
      var pp := PlayerPass(PlayerPassState(w.players, w.order, [], []), a, w.order, rolls.critPlayers);
      var ep := EnemyPass(w.enemies, 0, a, rolls.critEnemies, rolls.eggDrops);
      Resolve(w, a, t, direction, pp, ep)
  }
}

module AttackProperties {
  import opened Types
  import opened Tables
  import opened Geometry
  import opened Combat
  import opened WorldInvariant

  /** The strike `handleAttack` builds for an attacker present in `w`. */
  function StrikeOf(w: WorldState, attacker: Id, t: AttackType, origin: Vec): Strike
    requires attacker in w.players
  {
    Strike(attacker, origin, AttackRange(t), EffectiveDamage(t, w.players[attacker].isMegaChicken))
  }

  /** The hit list carried by the `attackPerformed` broadcast. */
  function HitsOf(r: Transition): seq<Hit>
    requires |r.out| > 0 && r.out[|r.out| - 1].event.AttackPerformed?
  {
    r.out[|r.out| - 1].event.hits
  }

  lemma {:induction false} HitIdsAppendEnemies(hs: seq<Hit>, es: seq<Hit>)
    requires forall h :: h in es ==> h.EnemyHit?
    ensures HitIds(hs + es) == HitIds(hs)
    decreases |es|
  {
    if es != [] {
      assert (hs + es)[..|hs + es| - 1] == hs + es[..|es| - 1];
      assert es[|es| - 1] in es;
      assert forall h :: h in es[..|es| - 1] ==> h in es;
      HitIdsAppendEnemies(hs, es[..|es| - 1]);
    } else {
      assert hs + es == hs;
    }
  }

  lemma {:induction false} HitIdsMember(hs: seq<Hit>, id: Id)
    requires id in HitIds(hs)
    ensures exists i :: 0 <= i < |hs| && hs[i].PlayerHit? && hs[i].id == id
    decreases |hs|
  {
    if hs[|hs| - 1].PlayerHit? && hs[|hs| - 1].id == id {
    } else {
      HitIdsMember(hs[..|hs| - 1], id);
    }
  }

  lemma {:induction false} VictimCountQuiet(pre: seq<Message>, out: seq<Message>, id: Id)
    requires forall m :: m in out ==> !m.event.PlayerEliminated?
    ensures VictimCount(pre + out, id) == VictimCount(pre, id)
    decreases |out|
  {
    if out != [] {
      assert (pre + out)[..|pre + out| - 1] == pre + out[..|out| - 1];
      assert out[|out| - 1] in out;
      assert forall m :: m in out[..|out| - 1] ==> m in out;
      VictimCountQuiet(pre, out[..|out| - 1], id);
    } else {
      assert pre + out == pre;
    }
  }

  /** The messages of an attack are those of the two passes and the closing
      broadcast. */
  lemma ResolveCount(w: WorldState, a: Strike, t: AttackType, direction: int, pp: PlayerPassState, ep: EnemyPassResult, k: EventKind)
    requires a.attacker in pp.players
    ensures Count(Resolve(w, a, t, direction, pp, ep).out, k) ==
      Count(pp.out, k) + Count(ep.out, k) + (if k == AttackPerformedK then 1 else 0)
  {
    var out := Resolve(w, a, t, direction, pp, ep).out;
    var last := out[|out| - 1];
    assert out == pp.out + ep.out + [last];
    CountAppend(pp.out, ep.out, k);
    CountAppend(pp.out + ep.out, [last], k);
    assert [last][..0] == [];
  }

  /** `Attack` for a present attacker is `Resolve` applied to the two passes. */
  lemma AttackUnfold(w: WorldState, attacker: Id, t: AttackType, origin: Vec, direction: int, rolls: Rolls)
    requires attacker in w.players
    ensures var a := StrikeOf(w, attacker, t, origin);
      var pp := PlayerPass(PlayerPassState(w.players, w.order, [], []), a, w.order, rolls.critPlayers);
      var ep := EnemyPass(w.enemies, 0, a, rolls.critEnemies, rolls.eggDrops);
      && a.attacker in pp.players
      && Attack(w, attacker, t, origin, direction, rolls) == Resolve(w, a, t, direction, pp, ep)
  {
  }

  /** Exactly one `attackPerformed` is broadcast per processed attack, and none
      when the attacker is unknown. */
  lemma AttackPerformedOnce(w: WorldState, attacker: Id, t: AttackType, origin: Vec, direction: int, rolls: Rolls)
    ensures Count(Attack(w, attacker, t, origin, direction, rolls).out, AttackPerformedK) ==
      (if attacker in w.players then 1 else 0)
  {
    if attacker in w.players {
      var a := StrikeOf(w, attacker, t, origin);
      var s0 := PlayerPassState(w.players, w.order, [], []);
      var pp := PlayerPass(s0, a, w.order, rolls.critPlayers);
      var ep := EnemyPass(w.enemies, 0, a, rolls.critEnemies, rolls.eggDrops);
      PlayerPassOnlyEliminations(s0, a, w.order, rolls.critPlayers, AttackPerformedK);
      EnemyPassQuiet(ep.out, a.attacker);
      AttackUnfold(w, attacker, t, origin, direction, rolls);
      ResolveCount(w, a, t, direction, pp, ep, AttackPerformedK);
    }
  }

  /** The hit list of an attack is the player pass's hits followed by the
      enemy pass's hits. */
  lemma AttackHits(w: WorldState, attacker: Id, t: AttackType, origin: Vec, direction: int, rolls: Rolls)
    requires attacker in w.players
    ensures var a := StrikeOf(w, attacker, t, origin);
      HitsOf(Attack(w, attacker, t, origin, direction, rolls)) ==
        PlayerPass(PlayerPassState(w.players, w.order, [], []), a, w.order, rolls.critPlayers).hits
        + EnemyPass(w.enemies, 0, a, rolls.critEnemies, rolls.eggDrops).hits
  {
    AttackUnfold(w, attacker, t, origin, direction, rolls);
  }

  /** Every entry of the hit list is within the attack's range, the attacker
      never hits itself, a player entry carries the halved PvP damage, and
      player entries come before enemy entries. */
  lemma AttackHitsShape(w: WorldState, attacker: Id, t: AttackType, origin: Vec, direction: int, rolls: Rolls)
    requires attacker in w.players
    ensures var hits := HitsOf(Attack(w, attacker, t, origin, direction, rolls));
      var a := StrikeOf(w, attacker, t, origin);
      && (forall h :: h in hits ==> InRange(origin, h.pos, AttackRange(t)))
      && (forall h :: h in hits && h.PlayerHit? ==> h.id != attacker && PvpDealt(a.damage, h.damage))
      && (forall i, j :: 0 <= i < j < |hits| && hits[j].PlayerHit? ==> hits[i].PlayerHit?)
  {
    var a := StrikeOf(w, attacker, t, origin);
    var s0 := PlayerPassState(w.players, w.order, [], []);
    var pp := PlayerPass(s0, a, w.order, rolls.critPlayers);
    var ep := EnemyPass(w.enemies, 0, a, rolls.critEnemies, rolls.eggDrops);
    AttackHits(w, attacker, t, origin, direction, rolls);
    PlayerPassShape(s0, a, w.order, rolls.critPlayers);
    HitsConcat(pp.hits, ep.hits, a);
  }

  /** Player hits, each in range and never the attacker, followed by enemy
      hits in range. */
  lemma HitsConcat(ph: seq<Hit>, eh: seq<Hit>, a: Strike)
    requires forall h :: h in ph ==> h.PlayerHit? && h.id != a.attacker && InRange(a.origin, h.pos, a.range) && PvpDealt(a.damage, h.damage)
    requires forall h :: h in eh ==> h.EnemyHit? && InRange(a.origin, h.pos, a.range)
    ensures var hits := ph + eh;
      && (forall h :: h in hits ==> InRange(a.origin, h.pos, a.range))
      && (forall h :: h in hits && h.PlayerHit? ==> h.id != a.attacker && PvpDealt(a.damage, h.damage))
      && (forall i, j :: 0 <= i < j < |hits| && hits[j].PlayerHit? ==> hits[i].PlayerHit?)
  {
    var hits := ph + eh;
    forall i, j | 0 <= i < j < |hits| && hits[j].PlayerHit? ensures hits[i].PlayerHit? {
      assert j < |ph|;
      assert hits[i] == ph[i] && hits[i] in ph;
    }
  }

  /** The player entries name exactly the players in range other than the
      attacker, and there is one enemy entry per enemy in range. */
  lemma AttackHitTargets(w: WorldState, attacker: Id, t: AttackType, origin: Vec, direction: int, rolls: Rolls)
    requires attacker in w.players
    requires KeyOrder(w.order, w.players)
    ensures var hits := HitsOf(Attack(w, attacker, t, origin, direction, rolls));
      var a := StrikeOf(w, attacker, t, origin);
      && HitIds(hits) == TargetIds(w.players, a, w.order)
      && |hits| == |TargetIds(w.players, a, w.order)| + InRangeCount(w.enemies, a)
  {
    var a := StrikeOf(w, attacker, t, origin);
    var s0 := PlayerPassState(w.players, w.order, [], []);
    var pp := PlayerPass(s0, a, w.order, rolls.critPlayers);
    var ep := EnemyPass(w.enemies, 0, a, rolls.critEnemies, rolls.eggDrops);
    AttackHits(w, attacker, t, origin, direction, rolls);
    assert HitIds(pp.hits) == TargetIds(w.players, a, w.order) by {
      PlayerPassHits(s0, a, w.order, rolls.critPlayers);
      assert HitIds([]) == {};
    }
    assert |pp.hits| == |TargetIds(w.players, a, w.order)| by {
      PlayerPassHitCount(s0, a, w.order, rolls.critPlayers);
    }
    HitIdsAppendEnemies(pp.hits, ep.hits);
  }

  /** The player loop over the whole key order, as `ResolvePlayers` needs it. */
  lemma PlayerPassFacts(w: WorldState, a: Strike, crits: set<Id>)
    requires a.attacker in w.players
    requires KeyOrder(w.order, w.players)
    ensures var s0 := PlayerPassState(w.players, w.order, [], []);
      var pp := PlayerPass(s0, a, w.order, crits);
      && a.attacker in pp.players
      && pp.players[a.attacker] == w.players[a.attacker]
      && (forall id :: id in w.order ==>
            var e := Expected(a, id, w.players[id], crits);
            && (id in pp.players <==> e.Some?)
            && (id in pp.players ==> pp.players[id] == e.value))
      && pp.players.Keys <= w.players.Keys
      && KeyOrder(pp.order, pp.players)
      && EggMessage(a.attacker) !in pp.out
  {
    var s0 := PlayerPassState(w.players, w.order, [], []);
    PlayerPassOutcome(s0, a, w.order, crits);
    PlayerPassShape(s0, a, w.order, crits);
  }

  /** What `Resolve` does to the players, given what the player pass did. */
  lemma ResolvePlayers(w: WorldState, a: Strike, t: AttackType, direction: int, pp: PlayerPassState, ep: EnemyPassResult, crits: set<Id>)
    requires a.attacker in w.players && a.attacker in pp.players
    requires pp.players[a.attacker] == w.players[a.attacker]
    requires KeyOrder(w.order, w.players)
    requires forall id :: id in w.order ==>
      var e := Expected(a, id, w.players[id], crits);
      && (id in pp.players <==> e.Some?)
      && (id in pp.players ==> pp.players[id] == e.value)
    requires pp.players.Keys <= w.players.Keys
    requires KeyOrder(pp.order, pp.players)
    requires EggMessage(a.attacker) !in pp.out
    requires ep.egg <==> EggMessage(a.attacker) in ep.out
    ensures var r := Resolve(w, a, t, direction, pp, ep);
      && (forall id :: id in w.players && id != a.attacker ==>
            var e := Expected(a, id, w.players[id], crits);
            && (id in r.world.players <==> e.Some?)
            && (id in r.world.players ==> r.world.players[id] == e.value))
      && r.world.players.Keys <= w.players.Keys
      && a.attacker in r.world.players
      && r.world.players[a.attacker] ==
           w.players[a.attacker].(hasGoldenEgg := w.players[a.attacker].hasGoldenEgg || EggMessage(a.attacker) in r.out)
      && KeyOrder(r.world.order, r.world.players)
  {
    var r := Resolve(w, a, t, direction, pp, ep);
    assert r.out == pp.out + ep.out + [r.out[|r.out| - 1]];
  }

  /** The players after an attack: every other player is as `Expected` says
      (untouched out of range, damaged, respawned or removed), no player
      appears, the attacker stays and holds a golden egg exactly when it had
      one or was sent one, and the key order stays in step. */
  lemma AttackPlayerOutcome(w: WorldState, attacker: Id, t: AttackType, origin: Vec, direction: int, rolls: Rolls)
    requires attacker in w.players
    requires KeyOrder(w.order, w.players)
    ensures var r := Attack(w, attacker, t, origin, direction, rolls);
      var a := StrikeOf(w, attacker, t, origin);
      && (forall id :: id in w.players && id != attacker ==>
            var e := Expected(a, id, w.players[id], rolls.critPlayers);
            && (id in r.world.players <==> e.Some?)
            && (id in r.world.players ==> r.world.players[id] == e.value))
      && r.world.players.Keys <= w.players.Keys
      && attacker in r.world.players
      && r.world.players[attacker] ==
           w.players[attacker].(hasGoldenEgg := w.players[attacker].hasGoldenEgg || EggMessage(attacker) in r.out)
      && KeyOrder(r.world.order, r.world.players)
  {
    var a := StrikeOf(w, attacker, t, origin);
    var pp := PlayerPass(PlayerPassState(w.players, w.order, [], []), a, w.order, rolls.critPlayers);
    var ep := EnemyPass(w.enemies, 0, a, rolls.critEnemies, rolls.eggDrops);
    PlayerPassFacts(w, a, rolls.critPlayers);
    ResolvePlayers(w, a, t, direction, pp, ep, rolls.critPlayers);
    AttackUnfold(w, attacker, t, origin, direction, rolls);
  }

  /** Over the whole key order, the player pass announces one elimination
      for each player it removes and none for any other. */
  lemma PlayerPassVictims(w: WorldState, a: Strike, crits: set<Id>)
    requires KeyOrder(w.order, w.players)
    ensures var pp := PlayerPass(PlayerPassState(w.players, w.order, [], []), a, w.order, crits);
      forall id :: VictimCount(pp.out, id) == (if id in w.players && id !in pp.players then 1 else 0)
  {
    var s0 := PlayerPassState(w.players, w.order, [], []);
    var pp := PlayerPass(s0, a, w.order, crits);
    PlayerPassEliminations(s0, a, w.order, crits);
    PlayerPassOutcome(s0, a, w.order, crits);
    forall id ensures VictimCount(pp.out, id) == (if id in w.players && id !in pp.players then 1 else 0) {
      if id !in w.order {
        assert id !in w.players;
      }
    }
  }

  /** What `Resolve` announces about eliminations, given the player pass's. */
  lemma ResolveEliminations(w: WorldState, a: Strike, t: AttackType, direction: int, pp: PlayerPassState, ep: EnemyPassResult)
    requires a.attacker in pp.players
    requires forall id :: VictimCount(pp.out, id) == (if id in w.players && id !in pp.players then 1 else 0)
    requires forall m :: m in pp.out ==> m.to == Everyone && m.event.PlayerEliminated? && m.event.eliminatedBy == a.attacker
    requires forall m :: m in ep.out ==> !m.event.PlayerEliminated?
    ensures var r := Resolve(w, a, t, direction, pp, ep);
      && (forall id :: VictimCount(r.out, id) == (if id in w.players && id !in r.world.players then 1 else 0))
      && (forall m :: m in r.out && m.event.PlayerEliminated? ==> m.to == Everyone && m.event.eliminatedBy == a.attacker)
  {
    var r := Resolve(w, a, t, direction, pp, ep);
    var tail := ep.out + [r.out[|r.out| - 1]];
    assert r.out == pp.out + tail;
    assert r.world.players.Keys == pp.players.Keys;
    forall id ensures VictimCount(r.out, id) == (if id in w.players && id !in r.world.players then 1 else 0) {
      VictimCountQuiet(pp.out, tail, id);
    }
  }

  /** An attack announces exactly one elimination for each player it removes
      and none for anyone else, each credited to the attacker and sent to
      everyone. */
  lemma AttackEliminations(w: WorldState, attacker: Id, t: AttackType, origin: Vec, direction: int, rolls: Rolls)
    requires attacker in w.players
    requires KeyOrder(w.order, w.players)
    ensures var r := Attack(w, attacker, t, origin, direction, rolls);
      && (forall id :: VictimCount(r.out, id) == (if id in w.players && id !in r.world.players then 1 else 0))
      && (forall m :: m in r.out && m.event.PlayerEliminated? ==> m.to == Everyone && m.event.eliminatedBy == attacker)
  {
    var a := StrikeOf(w, attacker, t, origin);
    var s0 := PlayerPassState(w.players, w.order, [], []);
    var pp := PlayerPass(s0, a, w.order, rolls.critPlayers);
    var ep := EnemyPass(w.enemies, 0, a, rolls.critEnemies, rolls.eggDrops);
    PlayerPassVictims(w, a, rolls.critPlayers);
    assert forall m :: m in pp.out ==> m.to == Everyone && m.event.PlayerEliminated? && m.event.eliminatedBy == attacker by {
      PlayerPassShape(s0, a, w.order, rolls.critPlayers);
    }
    ResolveEliminations(w, a, t, direction, pp, ep);
    AttackUnfold(w, attacker, t, origin, direction, rolls);
  }

  /** What `Resolve` does to the enemies, items and projectiles, given what
      the enemy pass did. */
  lemma ResolveEnemies(w: WorldState, a: Strike, t: AttackType, direction: int, pp: PlayerPassState, ep: EnemyPassResult)
    requires a.attacker in pp.players
    requires Count(pp.out, EnemyKilledK) == 0
    requires forall m :: m in pp.out ==> !m.event.ItemReceived?
    requires forall m :: m in ep.out ==> (m.to == Everyone && m.event.EnemyKilled?) || m == EggMessage(a.attacker)
    ensures var r := Resolve(w, a, t, direction, pp, ep);
      && Count(r.out, EnemyKilledK) == Count(ep.out, EnemyKilledK)
      && r.world.enemies == ep.survivors
      && (forall m :: m in r.out && m.event.ItemReceived? ==> m == EggMessage(a.attacker))
      && r.world.projectiles == w.projectiles +
           (if t == Egg then [Projectile(a.origin, Vec(direction * 10, -5), a.damage, a.attacker, Egg)] else [])
  {
    var r := Resolve(w, a, t, direction, pp, ep);
    ResolveCount(w, a, t, direction, pp, ep, EnemyKilledK);
    assert r.out == pp.out + ep.out + [r.out[|r.out| - 1]];
  }

  /** The enemies after an attack: the killed ones are gone, one
      `enemyKilled` each, the rest keep their order and stay alive; a golden
      egg goes only to the attacker; an egg attack adds exactly one
      projectile, any other attack none. */
  lemma AttackEnemiesAndItems(w: WorldState, attacker: Id, t: AttackType, origin: Vec, direction: int, rolls: Rolls)
    requires attacker in w.players
    requires forall e :: e in w.enemies ==> e.health > 0
    ensures var r := Attack(w, attacker, t, origin, direction, rolls);
      var a := StrikeOf(w, attacker, t, origin);
      && Count(r.out, EnemyKilledK) == |w.enemies| - |r.world.enemies|
      && |r.world.enemies| >= |w.enemies| - InRangeCount(w.enemies, a)
      && Embeds(r.world.enemies, w.enemies)
      && (forall e :: e in r.world.enemies ==> e.health > 0)
      && (forall m :: m in r.out && m.event.ItemReceived? ==> m == EggMessage(attacker))
      && r.world.projectiles == w.projectiles +
           (if t == Egg then [Projectile(origin, Vec(direction * 10, -5), a.damage, attacker, Egg)] else [])
  {
    var a := StrikeOf(w, attacker, t, origin);
    var s0 := PlayerPassState(w.players, w.order, [], []);
    var pp := PlayerPass(s0, a, w.order, rolls.critPlayers);
    var ep := EnemyPass(w.enemies, 0, a, rolls.critEnemies, rolls.eggDrops);
    EnemyPassKills(w.enemies, 0, a, rolls.critEnemies, rolls.eggDrops);
    EnemyPassOrder(w.enemies, 0, a, rolls.critEnemies, rolls.eggDrops);
    PlayerPassOnlyEliminations(s0, a, w.order, rolls.critPlayers, EnemyKilledK);
    ResolveEnemies(w, a, t, direction, pp, ep);
    AttackUnfold(w, attacker, t, origin, direction, rolls);
  }

  /** The assembled attack announces the enemy pass's kills and nothing
      else of that kind, and sends the egg exactly when the enemy pass did. */
  lemma ResolveNotices(w: WorldState, a: Strike, t: AttackType, direction: int, pp: PlayerPassState, ep: EnemyPassResult)
    requires a.attacker in pp.players
    requires Count(pp.out, EnemyKilledK) == 0
    requires forall m :: m in pp.out ==> !m.event.ItemReceived?
    ensures var r := Resolve(w, a, t, direction, pp, ep);
      && OfKind(r.out, EnemyKilledK) == OfKind(ep.out, EnemyKilledK)
      && (EggMessage(a.attacker) in r.out <==> EggMessage(a.attacker) in ep.out)
  {
    var out := Resolve(w, a, t, direction, pp, ep).out;
    var last := out[|out| - 1];
    assert out == pp.out + ep.out + [last];
    OfKindAmid(pp.out, ep.out, last, EnemyKilledK);
  }

  /** Which enemies an attack kills, and what follows: the enemies left are
      exactly those `EnemiesAfter` describes (out of reach unchanged, hit ones
      with their lowered health, those reaching zero gone), one
      `enemyKilled` per killed enemy at its position, and a golden egg to the
      attacker exactly when a killed enemy's drop roll succeeded. */
  lemma AttackEnemyOutcome(w: WorldState, attacker: Id, t: AttackType, origin: Vec, direction: int, rolls: Rolls)
    requires attacker in w.players
    ensures var r := Attack(w, attacker, t, origin, direction, rolls);
      var a := StrikeOf(w, attacker, t, origin);
      && r.world.enemies == EnemiesAfter(w.enemies, 0, a, rolls.critEnemies)
      && OfKind(r.out, EnemyKilledK) == KillNotices(w.enemies, 0, a, rolls.critEnemies)
      && (EggMessage(attacker) in r.out <==> KilledAt(w.enemies, 0, a, rolls.critEnemies) * rolls.eggDrops != {})
  {
    var a := StrikeOf(w, attacker, t, origin);
    var s0 := PlayerPassState(w.players, w.order, [], []);
    var pp := PlayerPass(s0, a, w.order, rolls.critPlayers);
    var ep := EnemyPass(w.enemies, 0, a, rolls.critEnemies, rolls.eggDrops);
    EnemyPassSurvivors(w.enemies, 0, a, rolls.critEnemies, rolls.eggDrops);
    EnemyPassNotices(w.enemies, 0, a, rolls.critEnemies, rolls.eggDrops);
    EnemyPassEgg(w.enemies, 0, a, rolls.critEnemies, rolls.eggDrops);
    PlayerPassOnlyEliminations(s0, a, w.order, rolls.critPlayers, EnemyKilledK);
    ResolveNotices(w, a, t, direction, pp, ep);
    ResolveEnemies(w, a, t, direction, pp, ep);
    AttackUnfold(w, attacker, t, origin, direction, rolls);
  }

  /** The player loop announces nothing but eliminations. */
  lemma PlayerPassOnlyEliminations(s: PlayerPassState, a: Strike, ids: seq<Id>, crits: set<Id>, k: EventKind)
    requires s.out == [] && k != PlayerEliminatedK
    ensures var pp := PlayerPass(s, a, ids, crits);
      Count(pp.out, k) == 0 && forall m :: m in pp.out ==> m.event.PlayerEliminated?
  {
    var pp := PlayerPass(s, a, ids, crits);
    PlayerPassShape(s, a, ids, crits);
    NoneOfKind(pp.out, k);
  }

  /** Kills and the golden egg are no `attackPerformed`. */
  lemma EnemyPassQuiet(out: seq<Message>, attacker: Id)
    requires forall m :: m in out ==> (m.to == Everyone && m.event.EnemyKilled?) || m == EggMessage(attacker)
    ensures Count(out, AttackPerformedK) == 0
  {
    NoneOfKind(out, AttackPerformedK);
  }

  /** A hit player in play is still in play afterwards, or gone. */
  lemma ExpectedOk(a: Strike, id: Id, t: Player, crits: set<Id>)
    requires PlayerOk(t) && a.damage >= 0
    ensures var e := Expected(a, id, t, crits);
      e.Some? ==> PlayerOk(e.value) && e.value.maxHealth == t.maxHealth && e.value.lives >= t.lives - 1
  {
  }

  /** `handleAttack` keeps the world invariant and leaves the level, the
      platforms, Zeldina and the boss as they were. */
  lemma AttackInv(w: WorldState, attacker: Id, t: AttackType, origin: Vec, direction: int, rolls: Rolls)
    requires Inv(w)
    ensures var r := Attack(w, attacker, t, origin, direction, rolls).world;
      && Inv(r)
      && PhaseOf(r) == PhaseOf(w)
  {
    if attacker in w.players {
      var a := StrikeOf(w, attacker, t, origin);
      var r := Attack(w, attacker, t, origin, direction, rolls).world;
      AttackPlayerOutcome(w, attacker, t, origin, direction, rolls);
      AttackEnemiesAndItems(w, attacker, t, origin, direction, rolls);
      forall id | id in r.players ensures PlayerOk(r.players[id]) {
        if id != attacker {
          ExpectedOk(a, id, w.players[id], rolls.critPlayers);
        }
      }
    }
  }

  lemma ResolveKinds(w: WorldState, a: Strike, t: AttackType, direction: int, pp: PlayerPassState, ep: EnemyPassResult)
    requires a.attacker in pp.players
    requires forall m :: m in pp.out ==> m.event.PlayerEliminated?
    requires forall m :: m in ep.out ==> m.event.EnemyKilled? || m.event.ItemReceived?
    ensures forall m :: m in Resolve(w, a, t, direction, pp, ep).out ==>
      m.event.PlayerEliminated? || m.event.EnemyKilled? || m.event.ItemReceived? || m.event.AttackPerformed?
  {
    var r := Resolve(w, a, t, direction, pp, ep);
    assert r.out == pp.out + ep.out + [r.out[|r.out| - 1]];
  }

  /** An attack only announces eliminations, kills, the golden egg and the
      attack itself. */
  lemma AttackKinds(w: WorldState, attacker: Id, t: AttackType, origin: Vec, direction: int, rolls: Rolls)
    ensures forall m :: m in Attack(w, attacker, t, origin, direction, rolls).out ==>
      m.event.PlayerEliminated? || m.event.EnemyKilled? || m.event.ItemReceived? || m.event.AttackPerformed?
  {
    if attacker in w.players {
      var a := StrikeOf(w, attacker, t, origin);
      var s0 := PlayerPassState(w.players, w.order, [], []);
      var pp := PlayerPass(s0, a, w.order, rolls.critPlayers);
      var ep := EnemyPass(w.enemies, 0, a, rolls.critEnemies, rolls.eggDrops);
      assert forall m :: m in pp.out ==> m.event.PlayerEliminated? by {
        PlayerPassShape(s0, a, w.order, rolls.critPlayers);
      }
      ResolveKinds(w, a, t, direction, pp, ep);
      AttackUnfold(w, attacker, t, origin, direction, rolls);
    }
  }
}
