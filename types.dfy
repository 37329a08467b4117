/** The entities of the game world and the messages the server sends. */
module Types {

  datatype Option<+T> = None | Some(value: T)

  /** A connection (session) identifier, the key of the players dictionary. */
  type Id = string

  /** A point or a velocity; positions are modelled as integers. */
  datatype Vec = Vec(x: int, y: int)

  datatype Player = Player(
    pos: Vec,
    vel: Vec,
    jumping: bool,
    lives: int,
    health: int,
    maxHealth: int,
    stamina: int,
    maxStamina: int,
    isMegaChicken: bool,
    megaChickenTimer: int,
    hasGoldenEgg: bool,
    invulnerable: int,
    score: int)

  datatype Enemy = Enemy(pos: Vec, color: string, name: string, speed: int, health: int)

  datatype PlatformKind = Normal | Moving | Fading

  datatype Platform = Platform(x: int, y: int, w: int, h: int, kind: PlatformKind)

  /** The rescue objective of a level. */
  datatype Zeldina = Zeldina(x: int, y: int, rescued: bool)

  datatype Boss = Boss(x: int, y: int, health: int)

  /** The keys of the attack tables. */
  datatype AttackType = Peck | Kick | Punch | Egg | Ko | Throw

  datatype Projectile = Projectile(pos: Vec, vel: Vec, damage: int, ownerId: Id, kind: AttackType)

  /** One entry of the hit list of an attack. */
  datatype Hit =
    | PlayerHit(id: Id, damage: int, pos: Vec)
    | EnemyHit(damage: int, pos: Vec)

  /** The whole shared world (the module-level `gameState`). `order` is the key
      order of the players dictionary, which fixes its iteration order. */
  datatype WorldState = WorldState(
    players: map<Id, Player>,
    order: seq<Id>,
    enemies: seq<Enemy>,
    platforms: seq<Platform>,
    zeldina: Option<Zeldina>,
    boss: Option<Boss>,
    currentLevel: nat,
    projectiles: seq<Projectile>)

  /** The events the server sends to clients. */
  datatype Event =
    | Joined(playerId: Id)
    | GameState(data: WorldState)
    | PlayerUpdate(id: Id, pos: Vec, vel: Vec, jumping: bool, health: int, maxHealth: int, isMegaChicken: bool)
    | PlayerDamaged(damage: int, health: int)
    | EnemyKilled(at: Vec)
    | PlayerEliminated(victim: Id, eliminatedBy: Id)
    | PlayerLeft(leaver: Id)
    | ZeldinaRescued
    | BossSpawned(boss: Boss)
    | BossUpdate(boss: Boss)
    | LevelComplete(level: nat, state: WorldState)
    | GameWin
    | ItemReceived(item: string)
    | AttackPerformed(attackerId: Id, attackType: AttackType, origin: Vec, direction: int, hits: seq<Hit>)
    | MegaTransform(playerId: Id, active: bool)

  /** `broadcast(data)`, `broadcast(data, excluded)` and `sendToConnection(id, data)`. */
  datatype Audience = Everyone | EveryoneBut(excluded: Id) | Only(recipient: Id)

  datatype Message = Message(to: Audience, event: Event)

  /** The new world and the messages one handler sent, in order. */
  datatype Transition = Transition(world: WorldState, out: seq<Message>)

  /** The outcomes of `Math.random() < 0.1` that one action draws: which player
      targets and which enemies (by index in the enemy list) take a critical hit,
      which killed enemies (by index) drop a golden egg, and whether contact
      damage is critical. */
  datatype Rolls = Rolls(critPlayers: set<Id>, critEnemies: set<nat>, eggDrops: set<nat>, contactCrit: bool)

  const SpawnPos := Vec(50, 400)
  const Still := Vec(0, 0)
  const GoldenEgg := "goldenEgg"

  /** The player record that `handleJoin` creates. */
  function NewPlayer(): (p: Player)
    ensures p.pos == SpawnPos && p.lives == 3 && p.health == p.maxHealth == 100
    ensures !p.isMegaChicken && !p.hasGoldenEgg && p.invulnerable == 0
  {
    Player(SpawnPos, Still, false, 3, 100, 100, 100, 100, false, 0, false, 0, 0)
  }

  /** `p.maxHealth || 100`: a zero maximum falls back to 100; any other
      value, negative ones included, is truthy and kept. */
  function MaxHealthOrDefault(p: Player): (h: int)
    ensures p.maxHealth != 0 ==> h == p.maxHealth
    ensures p.maxHealth == 0 ==> h == 100
  {
    if p.maxHealth != 0 then p.maxHealth else 100
  }

  /** The `playerUpdate` event the handlers build for player `id`. */
  function UpdateOf(id: Id, p: Player): Event
  {
    PlayerUpdate(id, p.pos, p.vel, p.jumping, p.health, p.maxHealth, p.isMegaChicken)
  }

  /** The kinds of event, for counting. */
  datatype EventKind =
    | JoinedK | GameStateK | PlayerUpdateK | PlayerDamagedK | EnemyKilledK
    | PlayerEliminatedK | PlayerLeftK | ZeldinaRescuedK | BossSpawnedK | BossUpdateK
    | LevelCompleteK | GameWinK | ItemReceivedK | AttackPerformedK | MegaTransformK

  function KindOf(e: Event): EventKind
  {
    match e
    case Joined(_) => JoinedK
    case GameState(_) => GameStateK
    case PlayerUpdate(_, _, _, _, _, _, _) => PlayerUpdateK
    case PlayerDamaged(_, _) => PlayerDamagedK
    case EnemyKilled(_) => EnemyKilledK
    case PlayerEliminated(_, _) => PlayerEliminatedK
    case PlayerLeft(_) => PlayerLeftK
    case ZeldinaRescued => ZeldinaRescuedK
    case BossSpawned(_) => BossSpawnedK
    case BossUpdate(_) => BossUpdateK
    case LevelComplete(_, _) => LevelCompleteK
    case GameWin => GameWinK
    case ItemReceived(_) => ItemReceivedK
    case AttackPerformed(_, _, _, _, _) => AttackPerformedK
    case MegaTransform(_, _) => MegaTransformK
  }

  /** The number of messages of kind `k` in `out`. */
  function Count(out: seq<Message>, k: EventKind): (n: nat)
    ensures n <= |out|
  {
    if out == [] then 0
    else Count(out[..|out| - 1], k) + (if KindOf(out[|out| - 1].event) == k then 1 else 0)
  }

  lemma {:induction false} CountAppend(a: seq<Message>, b: seq<Message>, k: EventKind)
    ensures Count(a + b, k) == Count(a, k) + Count(b, k)
    decreases |b|
  {
    if b == [] {
      assert a + b == a;
    } else {
      assert (a + b)[..|a + b| - 1] == a + b[..|b| - 1];
      CountAppend(a, b[..|b| - 1], k);
    }
  }

  /** No message of kind `k` means a count of zero. */
  lemma {:induction false} CountZero(out: seq<Message>, k: EventKind)
    ensures Count(out, k) == 0 <==> forall i :: 0 <= i < |out| ==> KindOf(out[i].event) != k
    decreases |out|
  {
    if out != [] {
      CountZero(out[..|out| - 1], k);
    }
  }

  /** A message list without any message of kind `k` counts zero of them. */
  lemma NoneOfKind(out: seq<Message>, k: EventKind)
    requires forall m :: m in out ==> KindOf(m.event) != k
    ensures Count(out, k) == 0
  {
    assert forall i :: 0 <= i < |out| ==> out[i] in out;
    CountZero(out, k);
  }

  /** The messages of kind `k` in `out`, in order. */
  function OfKind(out: seq<Message>, k: EventKind): (r: seq<Message>)
    ensures |r| == Count(out, k)
  {
    if out == [] then []
    else OfKind(out[..|out| - 1], k) + (if KindOf(out[|out| - 1].event) == k then [out[|out| - 1]] else [])
  }

  lemma {:induction false} OfKindAppend(a: seq<Message>, b: seq<Message>, k: EventKind)
    ensures OfKind(a + b, k) == OfKind(a, k) + OfKind(b, k)
    decreases |b|
  {
    if b == [] {
      assert a + b == a;
    } else {
      var last := b[|b| - 1];
      assert (a + b)[..|a + b| - 1] == a + b[..|b| - 1];
      assert (a + b)[|a + b| - 1] == last;
      OfKindAppend(a, b[..|b| - 1], k);
      var tail := if KindOf(last.event) == k then [last] else [];
      calc {
        OfKind(a + b, k);
        OfKind(a + b[..|b| - 1], k) + tail;
        OfKind(a, k) + OfKind(b[..|b| - 1], k) + tail;
        OfKind(a, k) + OfKind(b, k);
      }
    }
  }

  lemma OfKindOne(m: Message, k: EventKind)
    ensures OfKind([m], k) == if KindOf(m.event) == k then [m] else []
  {
    assert [m][..0] == [];
  }

  /** Messages of kind `k` framed by a prefix and a last message of other
      kinds are all those of the middle part. */
  lemma OfKindAmid(pre: seq<Message>, mid: seq<Message>, last: Message, k: EventKind)
    requires Count(pre, k) == 0 && KindOf(last.event) != k
    ensures OfKind(pre + mid + [last], k) == OfKind(mid, k)
  {
    OfKindAppend(pre, mid, k);
    OfKindAppend(pre + mid, [last], k);
    OfKindOne(last, k);
    assert |OfKind(pre, k)| == 0;
  }

  /** A list whose every message is of kind `k` counts all of them. */
  lemma {:induction false} CountAll(out: seq<Message>, k: EventKind)
    requires forall m :: m in out ==> KindOf(m.event) == k
    ensures Count(out, k) == |out|
    decreases |out|
  {
    if out != [] {
      assert out[|out| - 1] in out;
      assert forall m :: m in out[..|out| - 1] ==> m in out;
      CountAll(out[..|out| - 1], k);
    }
  }

  /** True iff no element repeats. */
  predicate NoDup(s: seq<Id>)
  {
    forall i, j :: 0 <= i < j < |s| ==> s[i] != s[j]
  }

  /** `order` lists exactly the keys of `m`, each once. */
  ghost predicate KeyOrder(order: seq<Id>, m: map<Id, Player>)
  {
    NoDup(order) && forall id :: id in order <==> id in m
  }

  /** `s` without any occurrence of `x`, the rest in order (deleting a key of the
      players dictionary). */
  function Without(s: seq<Id>, x: Id): (r: seq<Id>)
    ensures x !in r
    ensures forall y :: y in r <==> y in s && y != x
    ensures NoDup(s) ==> NoDup(r)
    ensures x !in s ==> r == s
  {
    if s == [] then []
    else
      var rest := Without(s[1..], x);
      if s[0] == x then rest
      else
        assert forall y :: y in s[1..] ==> y in s;
        assert NoDup(s) ==> NoDup(s[1..]) && s[0] !in s[1..] && s[0] !in rest;
        [s[0]] + rest
  }

  /** Deleting a key that occurs only at index `k` splices it out there. */
  lemma {:induction false} WithoutOnly(s: seq<Id>, x: Id, k: nat)
    requires k < |s| && s[k] == x && x !in s[..k] && x !in s[k + 1..]
    ensures Without(s, x) == s[..k] + s[k + 1..]
    decreases |s|
  {
    var t := s[1..];
    if k == 0 {
      assert s[k + 1..] == t;
      assert Without(s, x) == Without(t, x) == t;
    } else {
      assert s[0] in s[..k];
      assert Without(s, x) == [s[0]] + Without(t, x);
      assert t[..k - 1] == s[1..k] && t[k..] == s[k + 1..];
      assert x !in t[..k - 1] by {
        assert forall y :: y in s[1..k] ==> y in s[..k];
      }
      WithoutOnly(t, x, k - 1);
      assert s[..k] == [s[0]] + s[1..k];
    }
  }

  /** Deleting a key that sits at index `k` of a duplicate-free order splices
      it out there: the keys before and after it keep their order. */
  lemma WithoutAt(s: seq<Id>, x: Id, k: nat)
    requires NoDup(s) && k < |s| && s[k] == x
    ensures Without(s, x) == s[..k] + s[k + 1..]
  {
    forall j | 0 <= j < |s| && j != k ensures s[j] != x {
      if j < k { assert s[j] != s[k]; } else { assert s[k] != s[j]; }
    }
    assert x !in s[..k] && x !in s[k + 1..];
    WithoutOnly(s, x, k);
  }
}
