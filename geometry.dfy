/** Distance tests used by combat and collision. */
module Geometry {
  import opened Types

  function Abs(x: int): (r: nat)
    ensures r == x || r == -x
  {
    if x < 0 then -x else x
  }

  /** `getDistance(a, b) <= range`, compared on squares instead of through a
      square root. */
  predicate InRange(a: Vec, b: Vec, range: int)
  {
    var dx := a.x - b.x;
    var dy := a.y - b.y;
    dx * dx + dy * dy <= range * range
  }

  /** The axis-aligned box test `|dx| < reach && |dy| < reach` of stomps,
      contacts and the rescue. */
  predicate Near(a: Vec, b: Vec, reach: int)
  {
    Abs(a.x - b.x) < reach && Abs(a.y - b.y) < reach
  }
}
