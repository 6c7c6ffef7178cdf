/** Circle and point geometry of `src/collision.ts`: overlap of two circles,
    containment of a point, reflection of a velocity off a boundary, and a
    one-step look-ahead of a moving circle. */
module Collision {
  import opened Geometry

  /** `circlesCollide`: the distance between the centres is below the sum of
      the radii. The comparison is strict and goes through `Math.sqrt`; its
      meaning is the squared comparison, which needs no root. */
  function CirclesCollide(pos1: Position, pos2: Position, radius1: real, radius2: real,
                          sqrt: real -> real): (collide: bool)
    requires IsSquareRoot(sqrt)
    ensures collide <==>
              0.0 < radius1 + radius2 &&
              SquaredDistance(pos1, pos2) < (radius1 + radius2) * (radius1 + radius2)
  {
    var distance := sqrt(SquaredDistance(pos1, pos2));
    RootBelowIff(sqrt, SquaredDistance(pos1, pos2), radius1 + radius2);
    distance < radius1 + radius2
  }

  /** Swapping the two circles does not change the answer. */
  lemma CirclesCollideSymmetric(pos1: Position, pos2: Position, radius1: real, radius2: real,
                                sqrt: real -> real)
    requires IsSquareRoot(sqrt)
    ensures CirclesCollide(pos1, pos2, radius1, radius2, sqrt) ==
            CirclesCollide(pos2, pos1, radius2, radius1, sqrt)
  {
    SquaredDistanceSymmetric(pos1, pos2);
    assert radius1 + radius2 == radius2 + radius1;
  }

  /** Circles that only touch, their centres exactly `radius1 + radius2`
      apart, do not collide. */
  lemma TouchingCirclesDoNotCollide(pos1: Position, pos2: Position, radius1: real, radius2: real,
                                    sqrt: real -> real)
    requires IsSquareRoot(sqrt)
    requires sqrt(SquaredDistance(pos1, pos2)) == radius1 + radius2
    ensures !CirclesCollide(pos1, pos2, radius1, radius2, sqrt)
  {
  }

  /** `pointInCircle`: the squared distance from the centre is at most the
      squared radius. */
  function PointInCircle(point: Position, center: Position, radius: real): bool {
    SquaredDistance(center, point) <= radius * radius
  }

  /** For a non-negative radius, `PointInCircle` is "the Euclidean distance is
      at most the radius": the boundary circle counts as inside. */
  lemma PointInCircleIsInclusive(point: Position, center: Position, radius: real,
                                 sqrt: real -> real)
    requires IsSquareRoot(sqrt) && 0.0 <= radius
    ensures PointInCircle(point, center, radius) <==>
              sqrt(SquaredDistance(center, point)) <= radius
  {
    RootAtMostIff(sqrt, SquaredDistance(center, point), radius);
  }

  /** The centre of a circle lies in it, whatever the radius. */
  lemma CenterInCircle(center: Position, radius: real)
    ensures PointInCircle(center, center, radius)
  {
    SqNonNegative(radius);
  }

  /** A point strictly inside (a collision with a circle of radius 0) is
      inside, but not the other way round: a point on the boundary is in the
      circle without colliding with it. */
  lemma CollisionImpliesPointInCircle(point: Position, center: Position, radius: real,
                                      sqrt: real -> real)
    requires IsSquareRoot(sqrt)
    ensures CirclesCollide(point, center, radius, 0.0, sqrt) ==> PointInCircle(point, center, radius)
    ensures 0.0 <= radius && sqrt(SquaredDistance(center, point)) == radius ==>
              PointInCircle(point, center, radius) &&
              !CirclesCollide(point, center, radius, 0.0, sqrt)
  {
    SquaredDistanceSymmetric(point, center);
    if 0.0 <= radius {
      PointInCircleIsInclusive(point, center, radius, sqrt);
      RootBelowIff(sqrt, SquaredDistance(center, point), radius);
    }
  }

  /** `calculateBounce`: the reflection `v - 2 (v . n) n` of a velocity in a
      boundary with normal `n`. */
  function CalculateBounce(velocity: Position, normal: Position): Position {
    var dot := Dot(velocity, normal);
    Position(velocity.x - 2.0 * dot * normal.x, velocity.y - 2.0 * dot * normal.y)
  }

  /** With a unit normal, the bounce negates the component of the velocity
      along the normal and keeps the component along the boundary. */
  lemma BounceReflects(velocity: Position, normal: Position)
    requires SquaredLength(normal) == 1.0
    ensures Dot(CalculateBounce(velocity, normal), normal) == -Dot(velocity, normal)
    ensures Dot(CalculateBounce(velocity, normal), Position(-normal.y, normal.x)) ==
            Dot(velocity, Position(-normal.y, normal.x))
  {
    var dot := Dot(velocity, normal);
    var r := CalculateBounce(velocity, normal);
    calc {
      Dot(r, normal);
      (velocity.x - 2.0 * dot * normal.x) * normal.x + (velocity.y - 2.0 * dot * normal.y) * normal.y;
      dot - 2.0 * dot * (normal.x * normal.x + normal.y * normal.y);
      -dot;
    }
    calc {
      Dot(r, Position(-normal.y, normal.x));
      (velocity.x - 2.0 * dot * normal.x) * -normal.y + (velocity.y - 2.0 * dot * normal.y) * normal.x;
      Dot(velocity, Position(-normal.y, normal.x));
    }
  }

  /** Bouncing twice off the same boundary gives back the original velocity. */
  lemma BounceIsInvolution(velocity: Position, normal: Position)
    requires SquaredLength(normal) == 1.0
    ensures CalculateBounce(CalculateBounce(velocity, normal), normal) == velocity
  {
    var dot := Dot(velocity, normal);
    var r := CalculateBounce(velocity, normal);
    BounceReflects(velocity, normal);
    assert Dot(r, normal) == -dot;
    assert r.x + 2.0 * dot * normal.x == velocity.x;
    assert r.y + 2.0 * dot * normal.y == velocity.y;
  }

  /** Off a vertical wall (normal (1, 0)) only the horizontal component flips;
      off a horizontal wall (normal (0, 1)) only the vertical one. */
  lemma BounceOffWalls(velocity: Position)
    ensures CalculateBounce(velocity, Position(1.0, 0.0)) == Position(-velocity.x, velocity.y)
    ensures CalculateBounce(velocity, Position(0.0, 1.0)) == Position(velocity.x, -velocity.y)
  {
  }

  /** `predictCircleCollision`: `circlesCollide` evaluated where the moving
      circle will be after `timeStep`. */
  function PredictCircleCollision(movingPos: Position, stationaryPos: Position, velocity: Position,
                                  movingRadius: real, stationaryRadius: real, timeStep: real,
                                  sqrt: real -> real): bool
    requires IsSquareRoot(sqrt)
  {
    var futurePos := Position(movingPos.x + velocity.x * timeStep, movingPos.y + velocity.y * timeStep);
    CirclesCollide(futurePos, stationaryPos, movingRadius, stationaryRadius, sqrt)
  }

  /** Looking zero time ahead is testing the current position; looking one
      step ahead is testing the position one displacement `velocity` away. */
  lemma PredictionSteps(movingPos: Position, stationaryPos: Position, velocity: Position,
                        movingRadius: real, stationaryRadius: real, sqrt: real -> real)
    requires IsSquareRoot(sqrt)
    ensures PredictCircleCollision(movingPos, stationaryPos, velocity, movingRadius, stationaryRadius, 0.0, sqrt) ==
            CirclesCollide(movingPos, stationaryPos, movingRadius, stationaryRadius, sqrt)
    ensures PredictCircleCollision(movingPos, stationaryPos, velocity, movingRadius, stationaryRadius, 1.0, sqrt) ==
            CirclesCollide(Add(movingPos, velocity), stationaryPos, movingRadius, stationaryRadius, sqrt)
  {
    assert Position(movingPos.x + velocity.x * 0.0, movingPos.y + velocity.y * 0.0) == movingPos;
    assert Position(movingPos.x + velocity.x * 1.0, movingPos.y + velocity.y * 1.0) == Add(movingPos, velocity);
  }
}
