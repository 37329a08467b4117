/** The Lambda `handler`: routing a request to its handler, and what any
    sequence of requests does to the game. */
module Dispatch {
  import opened Types
  import opened Tables
  import opened Combat
  import opened AttackProperties
  import opened WorldInvariant
  import opened Progression
  import opened Collision
  import opened Stomp
  import opened Session

  /** The actions of the `$default` route. */
  datatype ActionKind = JoinAction | MoveAction | JumpAction | SmashAction | AttackAction | MegaTransformAction

  /** The `action` string of each action. */
  function ActionName(a: ActionKind): string
  {
    match a
    case JoinAction => "join"
    case MoveAction => "move"
    case JumpAction => "jump"
    case SmashAction => "smash"
    case AttackAction => "attack"
    case MegaTransformAction => "megaTransform"
  }

  /** The inner `switch (action)`: `None` is its `default` case. */
  function ParseAction(s: string): (r: Option<ActionKind>)
  {
    if s == "join" then Some(JoinAction)
    else if s == "move" then Some(MoveAction)
    else if s == "jump" then Some(JumpAction)
    else if s == "smash" then Some(SmashAction)
    else if s == "attack" then Some(AttackAction)
    else if s == "megaTransform" then Some(MegaTransformAction)
    else None
  }

  /** Every action is reached by its own name and by no other string. */
  lemma ParseActionRoundTrip(a: ActionKind, s: string)
    ensures ParseAction(ActionName(a)) == Some(a)
    ensures ParseAction(s) == Some(a) ==> s == ActionName(a)
    ensures ParseAction(s).None? <==> forall b: ActionKind :: s != ActionName(b)
  {
    if ParseAction(s).None? {
      forall b: ActionKind ensures s != ActionName(b) {
        match b
        case JoinAction =>
        case MoveAction =>
        case JumpAction =>
        case SmashAction =>
        case AttackAction =>
        case MegaTransformAction =>
      }
    } else {
      assert s == ActionName(ParseAction(s).value);
    }
  }

  /** The decoded `data` of a request. */
  datatype Data = Data(pos: Vec, vel: Vec, jumping: bool, attackType: AttackType, direction: int)

  /** One invocation: the route, the caller's connection, and the decoded
      body. */
  datatype Request = Request(routeKey: string, conn: Id, action: string, data: Data)

  /** The `{ statusCode, body }` the handler returns. */
  datatype Response = Response(status: int, body: string)

  /** The response, the new world and the messages of one invocation. */
  datatype Handled = Handled(response: Response, world: WorldState, out: seq<Message>)

  function Ok(body: string, t: Transition): Handled
  {
    Handled(Response(200, body), t.world, t.out)
  }

  /** The `$default` route for a known action. */
  function Act(w: WorldState, a: ActionKind, conn: Id, d: Data, rolls: Rolls): Handled
  {
    match a
    case JoinAction => Ok("Joined", Join(w, conn))
    case MoveAction =>
      var t := Move(w, conn, d.pos, d.vel, d.jumping, rolls.contactCrit);
      if MoveFails(w, conn, d.pos, d.vel, d.jumping, rolls.contactCrit) then
        Handled(Response(500, "Internal server error"), t.world, t.out)
      else Ok("Moved", t)
    case JumpAction => Ok("Jumped", Jump(w, conn))
    case SmashAction => Ok(if conn in w.players then "Smashed" else "No player", Smash(w, conn))
    case AttackAction =>
      Ok(if conn in w.players then "Attack processed" else "No attacker found",
         Attack(w, conn, d.attackType, d.pos, d.direction, rolls))
    case MegaTransformAction =>
      var ok := conn in w.players && w.players[conn].hasGoldenEgg;
      Ok(if ok then "Mega transformation activated" else "Transformation failed", Transform(w, conn))
  }

  /** `handler(event)`. */
  function Step(w: WorldState, req: Request, rolls: Rolls): (h: Handled)
  {
    if req.routeKey == "$connect" then Handled(Response(200, "Connected"), w, [])
    else if req.routeKey == "$disconnect" then
      var t := RemoveConnection(w, req.conn);
      Handled(Response(200, "Disconnected"), t.world, t.out)
    else if req.routeKey == "$default" then
      match ParseAction(req.action)
      case None => Handled(Response(400, "Unknown action"), w, [])
      case Some(a) => Act(w, a, req.conn, req.data, rolls)
    else Handled(Response(400, "Unknown route"), w, [])
  }

  /** A rejected request changes nothing and sends nothing; only a move whose
      collision check removes the mover fails with 500, and it keeps what
      the check did; every other request is answered 200. */
  lemma StepResponses(w: WorldState, req: Request, rolls: Rolls)
    ensures var h := Step(w, req, rolls);
      && h.response.status in {200, 400, 500}
      && (h.response.status == 400 ==> h.world == w && h.out == [])
      && (h.response.status == 400 <==>
            req.routeKey !in {"$connect", "$disconnect", "$default"}
            || (req.routeKey == "$default" && ParseAction(req.action).None?))
      && (h.response.status == 500 <==>
            && req.routeKey == "$default" && ParseAction(req.action) == Some(MoveAction)
            && MoveFails(w, req.conn, req.data.pos, req.data.vel, req.data.jumping, rolls.contactCrit))
  {
    if req.routeKey == "$default" && ParseAction(req.action).Some? {
      ActResponses(w, ParseAction(req.action).value, req.conn, req.data, rolls);
    }
  }

  /** A known action is answered 500 exactly when it is a move whose
      collision check removed the mover, and 200 otherwise. */
  lemma ActResponses(w: WorldState, a: ActionKind, conn: Id, d: Data, rolls: Rolls)
    ensures var h := Act(w, a, conn, d, rolls);
      && h.response.status in {200, 500}
      && (h.response.status == 500 <==> a == MoveAction && MoveFails(w, conn, d.pos, d.vel, d.jumping, rolls.contactCrit))
  {
    match a
    case JoinAction =>
    case MoveAction =>
    case JumpAction =>
    case SmashAction =>
    case AttackAction =>
    case MegaTransformAction =>
  }

  /** Every invocation keeps the world invariant and takes at most one step
      of the level progression. */
  lemma StepInv(w: WorldState, req: Request, rolls: Rolls)
    requires Inv(w)
    ensures var w' := Step(w, req, rolls).world;
      Inv(w') && PhaseStep(PhaseOf(w), PhaseOf(w'))
  {
    if req.routeKey == "$disconnect" {
      RemoveConnectionInv(w, req.conn);
    } else if req.routeKey == "$default" && ParseAction(req.action).Some? {
      var d := req.data;
      assert Step(w, req, rolls) == Act(w, ParseAction(req.action).value, req.conn, d, rolls);
      match ParseAction(req.action).value
      case JoinAction => JoinInv(w, req.conn);
      case MoveAction => MoveInv(w, req.conn, d.pos, d.vel, d.jumping, rolls.contactCrit);
      case JumpAction => JumpInv(w, req.conn);
      case SmashAction => SmashInv(w, req.conn);
      case AttackAction => AttackInv(w, req.conn, d.attackType, d.pos, d.direction, rolls);
      case MegaTransformAction => TransformInv(w, req.conn);
    }
  }

  /** Whether `req` is a join from connection `id`: the one request that
      recreates player `id` with `invulnerable` at 0. */
  predicate JoinsAs(req: Request, id: Id)
  {
    req.routeKey == "$default" && ParseAction(req.action) == Some(JoinAction) && req.conn == id
  }

  /** A smash keeps every player's invulnerability: the stomps leave the
      players alone, and a level the boss stomp loads only moves them. */
  lemma SmashKeepsShields(w: WorldState, conn: Id, id: Id)
    requires Shielded(w, id)
    ensures Shielded(Smash(w, conn).world, id)
  {
    if conn in w.players {
      var p := w.players[conn];
      var v := w.(enemies := StompPass(p, w.enemies).survivors);
      if v.boss.Some? && StompsBoss(p, v.boss.value) {
        BossStompOutcome(v, p);
      }
    }
  }

  /** A move keeps every invulnerable player invulnerable: the mover's own
      check only lowers health of a vulnerable mover, and nobody else is
      touched. */
  lemma MoveKeepsShields(w: WorldState, conn: Id, pos: Vec, vel: Vec, jumping: bool, crit: bool, id: Id)
    requires Shielded(w, id)
    ensures Shielded(Move(w, conn, pos, vel, jumping, crit).world, id)
  {
    if conn in w.players {
      var w1 := w.(players := w.players[conn := w.players[conn].(pos := pos, vel := vel, jumping := jumping)]);
      CheckCollisionsOthers(w1, conn, crit, id);
    }
  }

  /** An attack keeps every invulnerable player invulnerable: a hit only
      lowers health, and a respawn sets `invulnerable` to 180. */
  lemma AttackKeepsShields(w: WorldState, attacker: Id, t: AttackType, origin: Vec, direction: int, rolls: Rolls, id: Id)
    requires KeyOrder(w.order, w.players) && Shielded(w, id)
    ensures Shielded(Attack(w, attacker, t, origin, direction, rolls).world, id)
  {
    if attacker in w.players {
      AttackPlayerOutcome(w, attacker, t, origin, direction, rolls);
    }
  }

  /** Every action other than a join by `id` itself keeps player `id`
      shielded: contact damage and respawns raise `invulnerable`, and nothing
      else writes it. */
  lemma ActShielded(w: WorldState, a: ActionKind, conn: Id, d: Data, rolls: Rolls, id: Id)
    requires KeyOrder(w.order, w.players) && Shielded(w, id)
    requires a == JoinAction ==> conn != id
    ensures Shielded(Act(w, a, conn, d, rolls).world, id)
  {
    match a
    case JoinAction =>
    case MoveAction => MoveKeepsShields(w, conn, d.pos, d.vel, d.jumping, rolls.contactCrit, id);
    case JumpAction =>
    case SmashAction => SmashKeepsShields(w, conn, id);
    case AttackAction => AttackKeepsShields(w, conn, d.attackType, d.pos, d.direction, rolls, id);
    case MegaTransformAction =>
  }

  /** One request keeps player `id` shielded unless it is `id`'s own join. */
  lemma StepShielded(w: WorldState, req: Request, rolls: Rolls, id: Id)
    requires KeyOrder(w.order, w.players) && Shielded(w, id) && !JoinsAs(req, id)
    ensures Shielded(Step(w, req, rolls).world, id)
  {
    if req.routeKey == "$default" && ParseAction(req.action).Some? {
      ActShielded(w, ParseAction(req.action).value, req.conn, req.data, rolls, id);
    }
  }

  /** Invulnerability never wears off on the server: any sequence of
      requests without a join by `id` keeps player `id` shielded, so the
      collision check for it after them changes nothing. With
      `ContactShields`, a player hit by contact is never checked again until
      it re-joins. */
  lemma {:induction false} RunShielded(w: WorldState, ins: seq<Input>, id: Id)
    requires Inv(w) && Shielded(w, id)
    requires forall i :: 0 <= i < |ins| ==> !JoinsAs(ins[i].req, id)
    ensures Shielded(Run(w, ins).world, id)
    ensures forall crit :: CheckCollisions(Run(w, ins).world, id, crit) == Transition(Run(w, ins).world, [])
    decreases |ins|
  {
    if ins != [] {
      var n := |ins| - 1;
      RunShielded(w, ins[..n], id);
      RunAnnounces(w, ins[..n]);
      StepShielded(Run(w, ins[..n]).world, ins[n].req, ins[n].rolls, id);
    }
  }

  /** The milestone announcements of a message list: rescues, completed
      levels and wins. */
  function Milestones(out: seq<Message>): nat
  {
    Count(out, ZeldinaRescuedK) + Count(out, LevelCompleteK) + Count(out, GameWinK)
  }

  lemma MilestonesAppend(a: seq<Message>, b: seq<Message>)
    ensures Milestones(a + b) == Milestones(a) + Milestones(b)
  {
    CountAppend(a, b, ZeldinaRescuedK);
    CountAppend(a, b, LevelCompleteK);
    CountAppend(a, b, GameWinK);
  }

  /** A message list with no milestone in it. */
  lemma NoMilestones(out: seq<Message>)
    requires forall m :: m in out ==> !m.event.ZeldinaRescued? && !m.event.LevelComplete? && !m.event.GameWin?
    ensures Milestones(out) == 0 && Count(out, GameWinK) == 0
  {
    NoneOfKind(out, ZeldinaRescuedK);
    NoneOfKind(out, LevelCompleteK);
    NoneOfKind(out, GameWinK);
  }

  /** `handleMove` announces exactly the progress its collision check makes. */
  lemma MoveAnnounces(w: WorldState, id: Id, pos: Vec, vel: Vec, jumping: bool, crit: bool)
    requires ProgressOk(w)
    ensures var t := Move(w, id, pos, vel, jumping, crit);
      && ProgressOk(t.world)
      && t.world.currentLevel == w.currentLevel
      && Milestones(t.out) == Progress(PhaseOf(t.world)) - Progress(PhaseOf(w))
      && Count(t.out, GameWinK) == 0
  {
    if id in w.players {
      var w1 := w.(players := w.players[id := w.players[id].(pos := pos, vel := vel, jumping := jumping)]);
      var c := CheckCollisions(w1, id, crit);
      CheckCollisionsAnnounces(w1, id, crit);
      assert PhaseOf(w1) == PhaseOf(w);
      if id in c.world.players {
        var p := c.world.players[id];
        var u := [Message(EveryoneBut(id), PlayerUpdate(id, pos, vel, jumping, p.health, p.maxHealth, p.isMegaChicken))];
        MilestonesAppend(c.out, u);
        NoMilestones(u);
        CountAppend(c.out, u, GameWinK);
      }
    } else {
      NoMilestones([]);
    }
  }

  /** The handlers other than move and smash announce no milestone and keep
      the phase. */
  lemma QuietActions(w: WorldState, a: ActionKind, conn: Id, d: Data, rolls: Rolls)
    requires ProgressOk(w) && |w.platforms| > 0
    requires a != MoveAction && a != SmashAction
    ensures var h := Act(w, a, conn, d, rolls);
      && ProgressOk(h.world)
      && PhaseOf(h.world) == PhaseOf(w)
      && Milestones(h.out) == 0 && Count(h.out, GameWinK) == 0
  {
    var h := Act(w, a, conn, d, rolls);
    match a
    case JoinAction => NoMilestones(h.out);
    case JumpAction => NoMilestones(h.out);
    case AttackAction =>
      AttackKinds(w, conn, d.attackType, d.pos, d.direction, rolls);
      NoMilestones(h.out);
    case MegaTransformAction => NoMilestones(h.out);
  }

  /** The milestone equation of one handler run from `w`. */
  predicate Announces(w: WorldState, h: Handled)
    requires ProgressOk(w)
  {
    && ProgressOk(h.world)
    && Milestones(h.out) == Progress(PhaseOf(h.world)) - Progress(PhaseOf(w))
    && Count(h.out, GameWinK) == (if PhaseOf(w) != Won && PhaseOf(h.world) == Won then 1 else 0)
  }

  lemma MoveActAnnounces(w: WorldState, conn: Id, d: Data, rolls: Rolls)
    requires ProgressOk(w)
    ensures Announces(w, Act(w, MoveAction, conn, d, rolls))
  {
    var t := Move(w, conn, d.pos, d.vel, d.jumping, rolls.contactCrit);
    var h := Act(w, MoveAction, conn, d, rolls);
    assert h.world == t.world && h.out == t.out;
    MoveAnnounces(w, conn, d.pos, d.vel, d.jumping, rolls.contactCrit);
  }

  lemma SmashActAnnounces(w: WorldState, conn: Id, d: Data, rolls: Rolls)
    requires ProgressOk(w)
    ensures Announces(w, Act(w, SmashAction, conn, d, rolls))
  {
    SmashAnnounces(w, conn);
  }

  lemma QuietActAnnounces(w: WorldState, a: ActionKind, conn: Id, d: Data, rolls: Rolls)
    requires ProgressOk(w) && |w.platforms| > 0
    requires a != MoveAction && a != SmashAction
    ensures Announces(w, Act(w, a, conn, d, rolls))
  {
    QuietActions(w, a, conn, d, rolls);
  }

  /** Every invocation announces each milestone it reaches exactly once: the
      number of rescues, completed levels and wins it sends is the number of
      phase steps it takes, and it sends `gameWin` exactly when it wins the
      game. */
  lemma StepAnnounces(w: WorldState, req: Request, rolls: Rolls)
    requires ProgressOk(w) && |w.platforms| > 0
    ensures Announces(w, Step(w, req, rolls))
  {
    var h := Step(w, req, rolls);
    if req.routeKey == "$default" && ParseAction(req.action).Some? {
      var a := ParseAction(req.action).value;
      assert h == Act(w, a, req.conn, req.data, rolls);
      if a == MoveAction {
        MoveActAnnounces(w, req.conn, req.data, rolls);
      } else if a == SmashAction {
        SmashActAnnounces(w, req.conn, req.data, rolls);
      } else {
        QuietActAnnounces(w, a, req.conn, req.data, rolls);
      }
    } else {
      NoMilestones(h.out);
    }
  }

  /** One request together with the random rolls it draws. */
  datatype Input = Input(req: Request, rolls: Rolls)

  /** A sequence of invocations, one after another, from world `w`: the final
      world and every message sent, in order. */
  function Run(w: WorldState, ins: seq<Input>): Transition
    decreases |ins|
  {
    if ins == [] then Transition(w, [])
    else
      var t := Run(w, ins[..|ins| - 1]);
      var h := Step(t.world, ins[|ins| - 1].req, ins[|ins| - 1].rolls);
      Transition(h.world, t.out + h.out)
  }

  /** From any world in the invariant, any sequence of requests keeps the
      invariant, never moves the game backwards, announces every milestone
      it passes exactly once, and sends `gameWin` at most once: exactly
      when it wins a game that was not already won. */
  lemma {:induction false} RunAnnounces(w: WorldState, ins: seq<Input>)
    requires Inv(w)
    ensures var t := Run(w, ins);
      && Inv(t.world)
      && Progress(PhaseOf(w)) <= Progress(PhaseOf(t.world))
      && Milestones(t.out) == Progress(PhaseOf(t.world)) - Progress(PhaseOf(w))
      && Count(t.out, GameWinK) == (if PhaseOf(w) != Won && PhaseOf(t.world) == Won then 1 else 0)
      && (PhaseOf(w) == Won ==> PhaseOf(t.world) == Won)
    decreases |ins|
  {
    if ins != [] {
      var n := |ins| - 1;
      RunAnnounces(w, ins[..n]);
      var t := Run(w, ins[..n]);
      var h := Step(t.world, ins[n].req, ins[n].rolls);
      StepAnnounces(t.world, ins[n].req, ins[n].rolls);
      StepInv(t.world, ins[n].req, ins[n].rolls);
      AnnouncesCompose(w, t.world, h.world, t.out, h.out);
      assert Run(w, ins) == Transition(h.world, t.out + h.out);
    }
  }

  /** A run from `w` to `v` followed by one step from `v` to `u`, both
      announcing their milestones, announces the milestones from `w` to `u`. */
  lemma AnnouncesCompose(w: WorldState, v: WorldState, u: WorldState, out1: seq<Message>, out2: seq<Message>)
    requires ProgressOk(w) && ProgressOk(v) && ProgressOk(u)
    requires Progress(PhaseOf(w)) <= Progress(PhaseOf(v))
    requires PhaseOf(w) == Won ==> PhaseOf(v) == Won
    requires Milestones(out1) == Progress(PhaseOf(v)) - Progress(PhaseOf(w))
    requires Count(out1, GameWinK) == (if PhaseOf(w) != Won && PhaseOf(v) == Won then 1 else 0)
    requires PhaseStep(PhaseOf(v), PhaseOf(u))
    requires Milestones(out2) == Progress(PhaseOf(u)) - Progress(PhaseOf(v))
    requires Count(out2, GameWinK) == (if PhaseOf(v) != Won && PhaseOf(u) == Won then 1 else 0)
    ensures Progress(PhaseOf(w)) <= Progress(PhaseOf(u))
    ensures PhaseOf(w) == Won ==> PhaseOf(u) == Won
    ensures Milestones(out1 + out2) == Progress(PhaseOf(u)) - Progress(PhaseOf(w))
    ensures Count(out1 + out2, GameWinK) == (if PhaseOf(w) != Won && PhaseOf(u) == Won then 1 else 0)
  {
    PhaseStepMonotone(PhaseOf(v), PhaseOf(u));
    MilestonesAppend(out1, out2);
    CountAppend(out1, out2, GameWinK);
  }

  /** From the cold start, however the players act, the game is won at most
      once, and there are never more than eight milestone announcements: four
      rescues and four boss defeats. */
  lemma GameWinAtMostOnce(ins: seq<Input>)
    ensures var t := Run(ColdStart(), ins);
      && Count(t.out, GameWinK) <= 1
      && Milestones(t.out) <= 2 * |Levels()|
      && Inv(t.world)
  {
    RunAnnounces(ColdStart(), ins);
  }
}
