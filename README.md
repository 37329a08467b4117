# Chicken Hen game server, modelled in Dafny

The Chicken Hen web game is a multiplayer side-scrolling platformer. Its server
is a single AWS Lambda handler, `chicken-hen-web/server/websocket-handler.js`.
It keeps one shared world in memory: the players by connection id, the enemies,
the platforms, the Zeldina rescue objective, an optional boss, the level index
and the projectiles. It updates that world one client action at a time:

- join, move, jump, smash, attack and Mega Chicken transformation;
- connection and disconnection.

Every change is announced to the connected clients.

This project models that handler. There are two layers.

- **The world as a value.** `WorldState` and one function per handler live in
  `types.dfy`, `combat.dfy`, `progression.dfy`, `collision.dfy`, `smash.dfy`,
  `session.dfy` and `dispatch.dfy`. Each function maps the world before an
  action to the world after it, plus the messages the action sent, in order.
  Each loop of the source becomes a recursive pass that takes the elements in
  the loop's order:
  - the `for … in` loop over the players dictionary in key order;
  - the backwards `splice` loops over the enemies;
  - the first-match loop of the collision check.

  The properties are proved about these functions.
- **The server as it runs.** `server.dfy` holds the class `GameServer`. Its
  fields are the fields of `gameState`, plus an `outbox` holding every message
  sent. Its methods update those fields in place with the source's own loops:
  - the player loop in key order;
  - the backwards enemy loops that splice killed enemies out;
  - the collision scan that stops at the first contact.

  Each method is proved to leave exactly the state and messages the matching
  function describes. So every property of the functions holds of the object.
  `Handle` also states what every invocation guarantees:
  - the world invariant is kept;
  - the game takes at most one step along the level progression;
  - each milestone is announced exactly once.

Randomness becomes an input. `Rolls` says which player ids and which enemy
indices take a critical hit, which killed enemies drop a golden egg, and
whether the contact damage is critical. Sending becomes an append to the
message list: `broadcast(data)` is sent to `Everyone`, the excluded variant to
`EveryoneBut(id)`, and `sendToConnection` to `Only(id)`. Distance checks
compare squared distances, which is the same test as `getDistance(a, b) <=
range` on integer positions.

The world invariant `Inv` holds of every world the server reaches after its
cold start. It says:

- the key order lists exactly the players;
- every player in play is alive and within its maximum health, and has lives
  left;
- every enemy is alive;
- the level is loaded;
- a boss exists exactly while a rescued Zeldina's level is still played.

The progression is the state machine `InLevel(n) → BossFight(n) → InLevel(n+1)
… → Won`. `RunAnnounces` proves the following for any sequence of requests and
random outcomes:

- the game never moves backwards;
- the rescues, completed levels and wins sent are exactly the phase steps taken;
- `gameWin` is sent exactly once if the game is won, and never otherwise.

Behaviour of the code that this model keeps as written:

- **Invulnerability never wears off.** Contact damage sets `invulnerable` to
  120 and an attack respawn sets it to 180, and no server code lowers it. The
  collision check skips such a player from then on, so it is never again
  damaged by contact and never rescues Zeldina (`ContactShields`,
  `RunShielded`, `MoveWhileInvulnerable`). Only the player's own `join`
  resets it, since `handleJoin` recreates the player with `invulnerable: 0`
  (`JoinOutcome`). The client counts its own copy down every frame
  (chicken-hen-web/client/game.js:123-124); the server's copy stays.
- **Contact damage can be critical.** It goes through `applyDamage`, so it is
  25 or, on a critical roll, 50. The `playerDamaged` message always says 25.
- **Attacks ignore invulnerability.** An attack damages an invulnerable
  player like any other.
- **A move can fail with 500.** If the collision check removes the mover on
  its last life, reading its health afterwards throws. The handler then
  answers 500 "Internal server error" and sends no `playerUpdate`, but the
  removal, `playerLeft` and `playerDamaged` stand (`MoveOutcome`).
- **The move update carries the reported position.** The `playerUpdate` of a
  move carries the position and velocity the client reported, even when a
  contact has just respawned the player at (50, 400).
- **The two respawns differ.** After a contact, the respawn takes `maxHealth`
  and clears the velocity. After an attack, the respawn takes `maxHealth ||
  100`, keeps the velocity and sets `invulnerable` to 180.
- **The boss spawns at the screen centre.** It appears at `(WIDTH / 2, 100) =
  (400, 100)` with 5 health.
- **The Mega Chicken timer is never counted down.** `maxHealth` stays 200
  after a transformation.

## Model

| member | source | states |
|---|---|---|
| Types.NewPlayer | chicken-hen-web/server/websocket-handler.js:402-416 | a joining player starts at (50, 400) with 3 lives and 100 of 100 health, without an egg, not a Mega Chicken and not invulnerable |
| Types.MaxHealthOrDefault | chicken-hen-web/server/websocket-handler.js:123 | `maxHealth \|\| 100`: a zero maximum falls back to 100, any other value is kept |
| Types.Without | chicken-hen-web/server/websocket-handler.js:203 | deleting a key removes exactly that key from the key order, keeps it free of duplicates, and changes nothing when the key is absent |
| Types.WithoutOnly | chicken-hen-web/server/websocket-handler.js:203 | deleting a key that occurs only at index k removes it there and keeps the keys before and after it in order |
| Types.WithoutAt | chicken-hen-web/server/websocket-handler.js:203 | deleting a key at index k of a duplicate-free key order splices it out there: the keys before and after it keep their order |
| Tables.AttackTableBounds | chicken-hen-web/server/websocket-handler.js:16-33 | every attack does 15 to 50 base damage and reaches 30 to 200 units; only the egg reaches beyond 60 |
| Tables.Levels | chicken-hen-web/server/websocket-handler.js:36-88 | there are four level templates |
| Tables.LevelsWellFormed | chicken-hen-web/server/websocket-handler.js:36-88 | every template has three platforms, one or two enemies, all alive, and an un-rescued Zeldina |
| Geometry.Abs | chicken-hen-web/server/websocket-handler.js:519-520 | `Math.abs` returns the value or its negation, never negative |
| Combat.ApplyDamage | chicken-hen-web/server/websocket-handler.js:137-156 | on the PvP path the damage is floor(d/2); a critical roll doubles the computed value; health becomes max(0, health - dealt); for non-negative damage, health never rises and PvP never deals more than d; health reaches zero exactly when dealt ≥ health |
| Combat.EffectiveDamage | chicken-hen-web/server/websocket-handler.js:168-173 | the attack carries the table damage, doubled exactly for a Mega Chicken, between 15 and 100 |
| Combat.Struck | chicken-hen-web/server/websocket-handler.js:192-209 | a hit player keeps its reduced health while above zero; at zero it loses one life and respawns at (50, 400) with `maxHealth \|\| 100` health and 180 invulnerability, or is removed when that was its last life |
| Combat.PlayerPass | chicken-hen-web/server/websocket-handler.js:178-212 | the player loop adds no keys, leaves unvisited players untouched and never touches the attacker |
| Combat.PlayerPassShape | chicken-hen-web/server/websocket-handler.js:178-212 | every hit the player loop records is a player other than the attacker, in range, with the halved damage or twice it; its only broadcasts are eliminations credited to the attacker; the key order stays in step with the dictionary |
| Combat.TargetIds | chicken-hen-web/server/websocket-handler.js:178-185 | the targeted players are exactly the present keys, other than the attacker, within range |
| Combat.HitPlayerHits | chicken-hen-web/server/websocket-handler.js:182-192 | one iteration records one hit, naming the player, exactly when the player is targeted |
| Combat.HitPlayerEffect | chicken-hen-web/server/websocket-handler.js:182-209 | one iteration changes only the visited key, as `Expected` says |
| Combat.HitPlayerVictims | chicken-hen-web/server/websocket-handler.js:200-208 | one iteration announces the visited player's elimination exactly when it removes it, and nobody else's |
| Combat.PlayerPassHits | chicken-hen-web/server/websocket-handler.js:178-192 | the player ids in the hit list are exactly the targeted players |
| Combat.PlayerPassHitCount | chicken-hen-web/server/websocket-handler.js:178-192 | the player loop records exactly one hit per targeted player |
| Combat.PlayerPassOutcome | chicken-hen-web/server/websocket-handler.js:178-212 | every visited player ends as `Expected` says: untouched, damaged, respawned with one life fewer, or removed |
| Combat.PlayerPassEliminations | chicken-hen-web/server/websocket-handler.js:194-209 | one `playerEliminated` per removed player, none for any other |
| Combat.EnemyPass | chicken-hen-web/server/websocket-handler.js:215-245 | one hit per enemy in range, with the full damage or twice it; the only messages are `enemyKilled` to everyone and the egg to the attacker; the egg flag is set exactly when the egg was sent |
| Combat.HitEnemyKills | chicken-hen-web/server/websocket-handler.js:219-244 | one iteration either keeps the enemy alive or removes it and announces one kill |
| Combat.HitEnemyCount | chicken-hen-web/server/websocket-handler.js:219-244 | one iteration keeps the enemy, or removes it and adds exactly one `enemyKilled` |
| Combat.EnemyPassKills | chicken-hen-web/server/websocket-handler.js:215-245 | the number of `enemyKilled` equals the number of enemies removed; survivors of live enemies are alive |
| Combat.EnemyPassOrder | chicken-hen-web/server/websocket-handler.js:215-245 | the surviving enemies keep their relative order and gain no health; only enemies in range can go |
| Combat.EnemyPassSurvivors | chicken-hen-web/server/websocket-handler.js:215-245 | the enemies the backwards loop leaves are exactly `EnemiesAfter`: out of range unchanged, in range with `applyDamage`'s lowered health while it stays above zero, removed once it reaches zero, in their original order |
| Combat.HitEnemyNotices | chicken-hen-web/server/websocket-handler.js:219-233 | one iteration adds an `enemyKilled` at the enemy's position exactly when `EnemyAfter` removes it |
| Combat.EnemyPassNotices | chicken-hen-web/server/websocket-handler.js:215-245 | the loop's `enemyKilled` messages are exactly `KillNotices`: one per killed enemy, at its position, last enemy first |
| Combat.EnemyPassEgg | chicken-hen-web/server/websocket-handler.js:227-243 | the golden egg is given exactly when some killed enemy's index has a successful drop roll |
| Combat.Resolve | chicken-hen-web/server/websocket-handler.js:247-269 | after the two loops, the messages are the loops' messages followed by one `attackPerformed` carrying the player hits then the enemy hits |
| Combat.Attack | chicken-hen-web/server/websocket-handler.js:159-272 | an unknown attacker changes nothing and sends nothing; otherwise the last message is the attacker's `attackPerformed` to everyone; platforms, Zeldina, the boss and the level stay as they were |
| AttackProperties.ResolveCount | chicken-hen-web/server/websocket-handler.js:259-269 | an attack sends the loops' messages plus exactly one `attackPerformed` |
| AttackProperties.AttackPerformedOnce | chicken-hen-web/server/websocket-handler.js:159-272 | exactly one `attackPerformed` per processed attack, none for an unknown attacker |
| AttackProperties.AttackHits | chicken-hen-web/server/websocket-handler.js:176-269 | the hit list is the player loop's hits followed by the enemy loop's hits |
| AttackProperties.AttackHitsShape | chicken-hen-web/server/websocket-handler.js:164-192 | every hit is within the attack's range; the attacker never hits itself; player hits carry the halved damage; player entries come before enemy entries |
| AttackProperties.AttackHitTargets | chicken-hen-web/server/websocket-handler.js:178-245 | the player entries name exactly the targeted players; the list has one entry per targeted player and one per enemy in range |
| AttackProperties.ResolvePlayers | chicken-hen-web/server/websocket-handler.js:178-245 | the players after the attack, given what the player loop did: each as `Expected`, the attacker kept with the egg flag set when the egg was sent |
| AttackProperties.PlayerPassFacts | chicken-hen-web/server/websocket-handler.js:178-212 | over the whole key order, the player loop leaves the attacker untouched, every other player as `Expected`, adds no key, keeps the key order in step and sends no golden egg |
| AttackProperties.AttackPlayerOutcome | chicken-hen-web/server/websocket-handler.js:194-209 | every other player ends as `Expected`; no player appears; the attacker stays, holding a golden egg exactly when it had one or was sent one; the key order stays in step |
| AttackProperties.PlayerPassVictims | chicken-hen-web/server/websocket-handler.js:200-208 | over the whole key order, one elimination for each player removed, none for any other |
| AttackProperties.ResolveEliminations | chicken-hen-web/server/websocket-handler.js:200-208 | what the attack announces about eliminations, given the player loop's announcements |
| AttackProperties.AttackEliminations | chicken-hen-web/server/websocket-handler.js:194-209 | an attack announces exactly one elimination per removed player, none for anyone else, each to everyone and credited to the attacker |
| AttackProperties.ResolveEnemies | chicken-hen-web/server/websocket-handler.js:215-257 | the enemies, kill count, items and projectiles after the attack, given what the enemy loop did |
| AttackProperties.AttackEnemiesAndItems | chicken-hen-web/server/websocket-handler.js:215-269 | one `enemyKilled` per removed enemy; the rest keep their order and stay alive; at most the enemies in range go; a golden egg goes only to the attacker; an egg attack adds exactly one projectile with velocity (direction·10, −5), any other attack none |
| AttackProperties.ResolveNotices | chicken-hen-web/server/websocket-handler.js:247-269 | the assembled attack's `enemyKilled` messages and golden egg are those of the enemy loop |
| AttackProperties.AttackEnemyOutcome | chicken-hen-web/server/websocket-handler.js:215-245 | after an attack the enemies are exactly `EnemiesAfter` of the old ones, the `enemyKilled` messages exactly `KillNotices`, and the attacker is sent the egg exactly when a killed enemy's drop roll succeeded |
| AttackProperties.ExpectedOk | chicken-hen-web/server/websocket-handler.js:194-206 | a player in play that is hit stays in play with the same maximum health, or leaves |
| AttackProperties.AttackInv | chicken-hen-web/server/websocket-handler.js:159-272 | an attack keeps the world invariant and the phase of the game |
| AttackProperties.ResolveKinds | chicken-hen-web/server/websocket-handler.js:259-269 | given the loops' message kinds, the attack sends only eliminations, kills, items and `attackPerformed` |
| AttackProperties.AttackKinds | chicken-hen-web/server/websocket-handler.js:159-272 | an attack sends only eliminations, kills, the golden egg and `attackPerformed` |
| AttackProperties.PlayerPassOnlyEliminations | chicken-hen-web/server/websocket-handler.js:178-212 | the player loop sends nothing but `playerEliminated` |
| WorldInvariant.PhaseStepMonotone | chicken-hen-web/server/websocket-handler.js:540-558 | an allowed phase step raises the progress by at most one and never leaves `Won` |
| Progression.ResetPlayer | chicken-hen-web/server/websocket-handler.js:119-124 | a reset player stands at (50, 400) at rest, keeps non-zero lives and has full health of a positive maximum, with nothing else changed |
| Progression.LoadLevel | chicken-hen-web/server/websocket-handler.js:107-127 | an index past the last level fails and changes nothing; otherwise the level, platforms, enemies and Zeldina are the template's, there is no boss and no projectile, and every player, and only those, is reset |
| Progression.LoadLevelIdempotent | chicken-hen-web/server/websocket-handler.js:107-127 | loading a level twice is loading it once |
| Progression.LoadLevelInv | chicken-hen-web/server/websocket-handler.js:107-127 | a loaded level satisfies the world invariant in phase `InLevel(i)`; players keep their lives at full health |
| Collision.FirstContact | chicken-hen-web/server/websocket-handler.js:577-581 | finds the first enemy the player runs into, or none exactly when it runs into no enemy |
| Collision.CheckCollisions | chicken-hen-web/server/websocket-handler.js:572-574 | an absent or invulnerable player changes nothing |
| Collision.ContactOutcome | chicken-hen-web/server/websocket-handler.js:577-610 | a contact damages 25 (50 on a critical roll), sets invulnerability 120, respawns or removes at zero health, sends one `playerDamaged` always saying 25, and pre-empts the rescue |
| Collision.ContactHitMessages | chicken-hen-web/server/websocket-handler.js:583-607 | a contact sends one `playerDamaged` to the player saying 25, preceded by one `playerLeft` exactly when the player is removed, and no rescue |
| Collision.ContactHitWorld | chicken-hen-web/server/websocket-handler.js:583-607 | a contact damages the player by 25 or 50 with invulnerability 120, respawns it at full health with one life fewer, or removes it from the dictionary and the key order; enemies, Zeldina and the boss stay |
| Collision.ContactHitKinds | chicken-hen-web/server/websocket-handler.js:583-607 | a contact sends only a departure and a damage report |
| Collision.CheckCollisionsRemoves | chicken-hen-web/server/websocket-handler.js:594-607 | the check removes the player only through a contact on its last life, sending `playerLeft` then `playerDamaged` with health 0 |
| Collision.RescueOutcome | chicken-hen-web/server/websocket-handler.js:612-633 | without contact, an un-rescued Zeldina within reach is rescued and the boss spawns at (400, 100) with 5 health, announced in that order; otherwise nothing happens |
| Collision.RescueOnce | chicken-hen-web/server/websocket-handler.js:613-618 | a rescued Zeldina stays rescued and is never announced again |
| Collision.ContactShields | chicken-hen-web/server/websocket-handler.js:574-584 | a contact that leaves the player in the game leaves it invulnerable, so the next check skips it |
| Collision.CheckCollisionsOthers | chicken-hen-web/server/websocket-handler.js:572-634 | the check for one player never adds a player and leaves every other player as it was |
| Collision.CheckCollisionsInv | chicken-hen-web/server/websocket-handler.js:572-634 | the check keeps the world invariant and the level, taking at most one phase step |
| Collision.ContactInv | chicken-hen-web/server/websocket-handler.js:577-610 | a contact keeps the world invariant, the phase and the level |
| Collision.RescueInv | chicken-hen-web/server/websocket-handler.js:612-633 | the rescue branch keeps the world invariant and the level, taking at most one phase step |
| Collision.ContactAnnounces | chicken-hen-web/server/websocket-handler.js:577-610 | a contact keeps the phase and announces no rescue |
| Collision.RescueAnnounces | chicken-hen-web/server/websocket-handler.js:612-633 | the rescue is announced exactly when the phase moves on |
| Collision.CheckCollisionsAnnounces | chicken-hen-web/server/websocket-handler.js:572-634 | the check's only milestone is the rescue, once per phase step; it sends only damage, departure, rescue and boss-spawn messages |
| Collision.CheckCollisionsKinds | chicken-hen-web/server/websocket-handler.js:572-634 | the check sends only damage reports, departures, the rescue and the boss spawn; never `levelComplete` or `gameWin` |
| Stomp.StompPass | chicken-hen-web/server/websocket-handler.js:517-530 | each enemy is either kept or announced as killed to everyone |
| Stomp.Unstomped | chicken-hen-web/server/websocket-handler.js:517-530 | the enemies the player does not land on |
| Stomp.StompPassSurvivors | chicken-hen-web/server/websocket-handler.js:517-530 | the stomp loop removes exactly the enemies landed on, possibly several, and keeps the rest in order |
| Stomp.StompPassKills | chicken-hen-web/server/websocket-handler.js:522-528 | one `enemyKilled` per removed enemy, and nothing else |
| Stomp.StompPassNotices | chicken-hen-web/server/websocket-handler.js:517-528 | the stomp loop's messages are exactly `StompNotices`: one `enemyKilled` to everyone per enemy landed on, carrying that enemy's position, last enemy first |
| Stomp.StompPassNotFalling | chicken-hen-web/server/websocket-handler.js:522 | a player that is not falling stomps nothing |
| Stomp.Smash | chicken-hen-web/server/websocket-handler.js:510-514 | an unknown player changes nothing |
| Stomp.BossStompOutcome | chicken-hen-web/server/websocket-handler.js:533-566 | a boss stomp lowers the boss's health by exactly one and broadcasts the boss; at zero the boss is gone and the level index goes up by one, with exactly `gameWin` after the last level and otherwise exactly `levelComplete` carrying the next level's index and the freshly loaded world |
| Stomp.BossStompMiss | chicken-hen-web/server/websocket-handler.js:533-537 | without a qualifying boss stomp, the boss part changes nothing |
| Stomp.BossStompShape | chicken-hen-web/server/websocket-handler.js:533-566 | the boss part sends at most one message and never a kill, and nothing without a qualifying stomp |
| Stomp.KillsThenBoss | chicken-hen-web/server/websocket-handler.js:517-566 | kill announcements followed by at most one boss message |
| Stomp.SmashOutcome | chicken-hen-web/server/websocket-handler.js:510-569 | exactly the enemies landed on are removed, one kill announced each, all before any boss message; at most one of `bossUpdate`, `levelComplete`, `gameWin`; the first messages are exactly `StompNotices`, carrying each stomped enemy's position, last first |
| Stomp.SmashMessages | chicken-hen-web/server/websocket-handler.js:517-566 | smash sends one `enemyKilled` per enemy removed, all first, then at most one boss message |
| Stomp.SmashMiss | chicken-hen-web/server/websocket-handler.js:517-537 | without a boss stomp, smash only removes the enemies landed on, announcing each |
| Stomp.SmashInv | chicken-hen-web/server/websocket-handler.js:510-569 | smash keeps the world invariant and takes one allowed phase step, raising the level by at most one |
| Stomp.BossStompPhase | chicken-hen-web/server/websocket-handler.js:538-558 | a boss stomp advances the phase exactly when it defeats the boss, reaching `Won` after the last level |
| Stomp.BossStompAnnounces | chicken-hen-web/server/websocket-handler.js:538-564 | a boss stomp announces one milestone exactly on defeat, `gameWin` when that ends the last level |
| Stomp.SmashAnnounces | chicken-hen-web/server/websocket-handler.js:510-569 | smash announces one `levelComplete` or `gameWin` per phase step, `gameWin` exactly when it ends the game, and never a rescue |
| Session.ColdStart | chicken-hen-web/server/websocket-handler.js:102-104 | the cold start is level 0 with no players, inside the world invariant |
| Session.Enlist | chicken-hen-web/server/websocket-handler.js:402 | assigning a key keeps the old key order as a prefix; a new key is appended as the only extra entry, an existing key adds none |
| Session.JoinOutcome | chicken-hen-web/server/websocket-handler.js:392-451 | a join loads level 0 when no level is loaded and (re)creates the player fresh; nobody else changes; the joiner gets `joined` and then the world including itself; the others get its `playerUpdate` |
| Session.JoinInv | chicken-hen-web/server/websocket-handler.js:392-451 | a join keeps the world invariant and the phase |
| Session.Move | chicken-hen-web/server/websocket-handler.js:458 | a move by an unknown connection changes nothing |
| Session.MoveOutcome | chicken-hen-web/server/websocket-handler.js:454-482 | a move ends with the mover's `playerUpdate` carrying the reported position and velocity; if the check removed the mover, it ends instead with the zero-health damage report and no update |
| Session.MoveUpdate | chicken-hen-web/server/websocket-handler.js:464-478 | a move that keeps the mover leaves it at the reported position and velocity or at the spawn point at rest, and ends with its `playerUpdate` to everyone else |
| Session.MoveFailure | chicken-hen-web/server/websocket-handler.js:464-475 | a move whose check removed the mover ends with its zero-health damage report, one `playerLeft` and no `playerUpdate` |
| Session.MoveWhileInvulnerable | chicken-hen-web/server/websocket-handler.js:458-478 | an invulnerable mover only takes the reported position, velocity and jump flag and is announced |
| Session.MoveInv | chicken-hen-web/server/websocket-handler.js:454-482 | a move keeps the world invariant and the level, taking at most one phase step |
| Session.Jump | chicken-hen-web/server/websocket-handler.js:485-507 | a grounded player gets vertical velocity −15 and is marked jumping, announced to everyone; otherwise nothing happens |
| Session.JumpTwice | chicken-hen-web/server/websocket-handler.js:488-490 | a second jump before landing changes nothing |
| Session.Transform | chicken-hen-web/server/websocket-handler.js:275-299 | without a player or an egg nothing happens; otherwise the player becomes a Mega Chicken with 200 of 200 health and timer 1800, spends the egg, and `megaTransform` is sent |
| Session.TransformOnce | chicken-hen-web/server/websocket-handler.js:279-288 | the egg is spent: a second transformation fails |
| Session.RemoveConnection | chicken-hen-web/server/websocket-handler.js:357-375 | the player is gone afterwards; a present one is deleted with one `playerLeft`; an absent one changes nothing |
| Session.RemoveConnectionIdempotent | chicken-hen-web/server/websocket-handler.js:365-371 | removing a connection twice is removing it once |
| Session.JumpInv | chicken-hen-web/server/websocket-handler.js:485-507 | a jump keeps the world invariant and the phase |
| Session.TransformInv | chicken-hen-web/server/websocket-handler.js:275-299 | a transformation keeps the world invariant and the phase |
| Session.RemoveConnectionInv | chicken-hen-web/server/websocket-handler.js:357-375 | removing a connection keeps the world invariant and the phase |
| Dispatch.ParseActionRoundTrip | chicken-hen-web/server/websocket-handler.js:652-667 | every action is reached by its own name and by no other; any other string is the unknown action |
| Dispatch.StepResponses | chicken-hen-web/server/websocket-handler.js:637-676 | 400 exactly for an unknown route or action, changing nothing; 500 exactly for a move whose check removed the mover; 200 otherwise |
| Dispatch.ActResponses | chicken-hen-web/server/websocket-handler.js:652-667 | a known action is answered 500 exactly for a move whose check removed the mover, 200 otherwise |
| Dispatch.StepInv | chicken-hen-web/server/websocket-handler.js:637-676 | every invocation keeps the world invariant and takes at most one phase step |
| Dispatch.MoveAnnounces | chicken-hen-web/server/websocket-handler.js:454-482 | a move announces exactly the progress its collision check makes |
| Dispatch.QuietActions | chicken-hen-web/server/websocket-handler.js:652-667 | join, jump, attack and transformation announce no milestone and keep the phase |
| Dispatch.StepAnnounces | chicken-hen-web/server/websocket-handler.js:637-676 | every invocation sends one milestone per phase step, and `gameWin` exactly when it wins the game |
| Dispatch.RunAnnounces | chicken-hen-web/server/websocket-handler.js:637-676 | over any sequence of invocations: the invariant holds, progress never goes back, milestones sent equal phase steps taken, `gameWin` is sent once exactly if the game was won during the run, and a won game stays won |
| Dispatch.GameWinAtMostOnce | chicken-hen-web/server/websocket-handler.js:540-558 | from the cold start, `gameWin` is sent at most once and there are at most eight milestones |
| Dispatch.MoveKeepsShields | chicken-hen-web/server/websocket-handler.js:454-482 | a move never makes an invulnerable player vulnerable: only a vulnerable mover is damaged, and no other player is touched |
| Dispatch.AttackKeepsShields | chicken-hen-web/server/websocket-handler.js:178-212 | an attack never makes an invulnerable player vulnerable: a hit lowers only health and a respawn sets invulnerability to 180 |
| Dispatch.SmashKeepsShields | chicken-hen-web/server/websocket-handler.js:510-569 | a smash never makes an invulnerable player vulnerable: the stomps leave players alone and a loaded level only moves them |
| Dispatch.ActShielded | chicken-hen-web/server/websocket-handler.js:652-675 | every action except the player's own join keeps an invulnerable player invulnerable or removes it |
| Dispatch.StepShielded | chicken-hen-web/server/websocket-handler.js:637-676 | every request except the player's own join keeps an invulnerable player invulnerable or removes it |
| Dispatch.RunShielded | chicken-hen-web/server/websocket-handler.js:637-676 | over any sequence of requests without the player's own join, an invulnerable player stays invulnerable or gone, and the collision check for it then changes nothing |
| Server.GameServer.constructor | chicken-hen-web/server/websocket-handler.js:91-104 | the cold start loads level 0 into the empty world: invariant, phase `InLevel(0)`, nothing sent |
| Server.GameServer.LoadLevel | chicken-hen-web/server/websocket-handler.js:107-127 | the fields become `LoadLevel`'s world, resetting each player in a loop; nothing is sent |
| Server.GameServer.ResetPlayers | chicken-hen-web/server/websocket-handler.js:119-124 | the loop over the player keys leaves every player reset and no other key |
| Server.GameServer.HandleJoin | chicken-hen-web/server/websocket-handler.js:392-451 | the fields and sent messages are `Join`'s; answers 200 "Joined" |
| Server.GameServer.CheckCollisions | chicken-hen-web/server/websocket-handler.js:572-634 | the scan stopping at the first contact leaves `CheckCollisions`'s world and messages |
| Server.GameServer.TakeContact | chicken-hen-web/server/websocket-handler.js:583-607 | the contact branch leaves `ContactHit`'s world and messages |
| Server.GameServer.HandleMove | chicken-hen-web/server/websocket-handler.js:454-482 | `Move`'s world and messages; 500 exactly when the check removed the mover |
| Server.GameServer.HandleJump | chicken-hen-web/server/websocket-handler.js:485-507 | `Jump`'s world and messages; answers "Jumped" |
| Server.GameServer.HandleMegaTransform | chicken-hen-web/server/websocket-handler.js:275-299 | `Transform`'s world and messages; the answer says whether it succeeded |
| Server.GameServer.RemoveConnection | chicken-hen-web/server/websocket-handler.js:357-375 | `RemoveConnection`'s world and messages |
| Server.GameServer.StompEnemies | chicken-hen-web/server/websocket-handler.js:517-530 | the backwards splice loop leaves the enemies and kills of `StompPass` |
| Server.GameServer.StompBoss | chicken-hen-web/server/websocket-handler.js:533-566 | the boss part leaves `BossStomp`'s world and message |
| Server.GameServer.HandleSmash | chicken-hen-web/server/websocket-handler.js:510-569 | `Smash`'s world and messages; answers "Smashed" or "No player" |
| Server.GameServer.StrikePlayer | chicken-hen-web/server/websocket-handler.js:179-210 | one iteration of the player loop does what `HitPlayer` says |
| Server.GameServer.StrikePlayers | chicken-hen-web/server/websocket-handler.js:178-212 | the player loop over a snapshot of the key order leaves `PlayerPass`'s players, order, hits and eliminations |
| Server.GameServer.StrikeEnemy | chicken-hen-web/server/websocket-handler.js:216-244 | one iteration of the enemy loop does what `HitEnemy` says, splicing a killed enemy out in place |
| Server.GameServer.StrikeEnemies | chicken-hen-web/server/websocket-handler.js:215-245 | the backwards splice loop leaves `EnemyPass`'s survivors, hits and messages, with the egg set on the attacker |
| Server.GameServer.StrikeAll | chicken-hen-web/server/websocket-handler.js:178-245 | the player loop then the enemy loop: the players, key order, enemies, hits and messages both passes describe |
| Server.GameServer.HandleAttack | chicken-hen-web/server/websocket-handler.js:159-272 | `Attack`'s world and messages; answers "Attack processed" or "No attacker found" |
| Server.GameServer.ResolveAttack | chicken-hen-web/server/websocket-handler.js:176-269 | for a known attacker: both loops, the egg projectile and the broadcast leave `Resolve`'s world and messages |
| Server.GameServer.Handle | chicken-hen-web/server/websocket-handler.js:637-676 | `Step`'s response, world and messages; from a valid world the world stays valid, takes at most one phase step, and the messages sent announce each milestone passed exactly once, `gameWin` exactly when the game is won |
| Server.GameServer.Perform | chicken-hen-web/server/websocket-handler.js:652-667 | the action switch leaves `Act`'s response, world and messages |

## Left out

- Connection bookkeeping and delivery are not modelled:
  - DynamoDB `scan`, `put` and `delete` and `apiGateway.postToConnection`
    (lines 302-355), and the 410 eviction that calls `removeConnection` from
    inside a send;
  - the error path of `removeConnection` where the DynamoDB delete throws
    and the player stays.

  A message is recorded with its audience, and delivery is not modelled.
  These are foreign I/O.
- The interleaving of concurrent Lambda invocations at each `await` is not
  modelled. Each invocation is one atomic step, so a world changed by another
  invocation in mid-handler is not covered.
- JSON decoding of the request body is left out. A malformed body, which
  throws and gives 500, is not modelled. The decoded `action` string and
  `data` fields are inputs.
- An attack `type` outside the six table keys is not modelled: the data's
  attack type is one of the six keys. Such a type gives `undefined` damage
  and range, so nothing is hit, and the source does not guard against it.
- `Math.random()` is replaced by the `Rolls` input, and `Math.sqrt` by a
  comparison of squares. Positions and velocities are integers, so client
  coordinates with fractions are not covered.
- The players dictionary's iteration order is modelled as insertion order.
  That is how JavaScript orders keys that do not look like array indices,
  such as API Gateway connection ids.
- The `megaChickenTimer` is stored but never counted down, because the server
  never counts it down. Likewise projectiles are added but never advanced.
- The unused constants `GRAVITY` and `GAME_STATE_TABLE` are not modelled.
  Neither is the client (`chicken-hen-web/client/game.js`), the pygame
  prototype or the WebSocket test script, since none is part of the server's
  game rules.
