/** The constant tables of the server: attack damage, attack ranges and the
    four level templates. */
module Tables {
  import opened Types

  const Width := 800
  const Height := 450

  /** `ATTACK_DAMAGE[type]`. */
  function AttackDamage(t: AttackType): (d: nat)
  {
    match t
    case Peck => 15
    case Kick => 25
    case Punch => 20
    case Egg => 30
    case Ko => 50
    case Throw => 40
  }

  /** `ATTACK_RANGES[type]`. */
  function AttackRange(t: AttackType): (r: nat)
  {
    match t
    case Peck => 30
    case Kick => 30
    case Punch => 35
    case Egg => 200
    case Ko => 60
    case Throw => 50
  }

  /** Every attack does between 15 and 50 base damage and reaches between 30
      and 200 units; the egg is the only ranged attack. */
  lemma AttackTableBounds(t: AttackType)
    ensures 15 <= AttackDamage(t) <= 50
    ensures 30 <= AttackRange(t) <= 200
    ensures AttackRange(t) > 60 <==> t == Egg
  {
  }

  /** A level template. */
  datatype Level = Level(platforms: seq<Platform>, enemies: seq<Enemy>, zeldina: Zeldina)

  /** The ground platform every level starts with. */
  const Ground := Platform(0, Height - 20, Width, 20, Normal)

  /** Zeldina's place in every level. */
  const ZeldinaStart := Zeldina(700, Height - 60, false)

  /** `levels`: Greenfield, Enchanted Desert, Ranka, Ruins. */
  function Levels(): (ls: seq<Level>)
    ensures |ls| == 4
  {
    [ Level([Ground, Platform(200, 300, 100, 20, Moving), Platform(400, 200, 100, 20, Fading)],
            [Enemy(Vec(600, 400), "green", "Gumpa", 2, 30), Enemy(Vec(700, 400), "blue", "Stende", -2, 30)],
            ZeldinaStart),
      Level([Ground, Platform(100, 350, 100, 20, Normal), Platform(300, 250, 100, 20, Moving)],
            [Enemy(Vec(500, 300), "yellow", "Turtle", 1, 40), Enemy(Vec(600, 200), "red", "Fish", -2, 35)],
            ZeldinaStart),
      Level([Ground, Platform(150, 320, 80, 20, Moving), Platform(450, 220, 120, 20, Normal)],
            [Enemy(Vec(400, 400), "green", "Dragon", 3, 60)],
            ZeldinaStart),
      Level([Ground, Platform(250, 280, 100, 20, Fading), Platform(500, 180, 100, 20, Normal)],
            [Enemy(Vec(300, 400), "red", "Dungeon Creature", 2, 50), Enemy(Vec(550, 180), "blue", "Gumpa", -1, 30)],
            ZeldinaStart)
    ]
  }

  /** What every template guarantees: it has platforms (so the world is never
      mistaken for an uninitialised one), live enemies and an un-rescued
      Zeldina. */
  ghost predicate WellFormedLevel(l: Level)
  {
    && |l.platforms| > 0
    && (forall e :: e in l.enemies ==> e.health > 0)
    && !l.zeldina.rescued
  }

  lemma LevelsWellFormed(i: nat)
    requires i < |Levels()|
    ensures WellFormedLevel(Levels()[i])
    ensures |Levels()[i].platforms| == 3 && 1 <= |Levels()[i].enemies| <= 2
  {
  }
}
