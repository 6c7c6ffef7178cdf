/** The key bindings of `src/controls.ts` and the translation of the set of
    held keys into a movement direction. */
module Controls {
  import opened Geometry
  import GameHelpers

  // Movement controls.
  const MOVE_UP: string := "ArrowUp"
  const MOVE_DOWN: string := "ArrowDown"
  const MOVE_LEFT: string := "ArrowLeft"
  const MOVE_RIGHT: string := "ArrowRight"

  // Ball controls; the space bar takes the ball.
  const TAKE_BALL: string := " "
  const HIDE_BALL: string := "h"
  const SHOW_BALL: string := "s"
  const THROW_BALL: string := "t"

  // Player visibility controls.
  const CLOSE_EYES: string := "c"
  const OPEN_EYES: string := "o"

  /** The ten bindings, in declaration order. */
  const Bindings: seq<string> :=
    [MOVE_UP, MOVE_DOWN, MOVE_LEFT, MOVE_RIGHT, TAKE_BALL, HIDE_BALL, SHOW_BALL, THROW_BALL,
     CLOSE_EYES, OPEN_EYES]

  /** `isMovementKey`: membership in the list of the four arrow bindings. */
  function IsMovementKey(key: string): bool {
    key in [MOVE_UP, MOVE_DOWN, MOVE_LEFT, MOVE_RIGHT]
  }

  /** No two actions share a key, and exactly the four arrow bindings are
      movement keys. */
  lemma BindingsAreDistinct()
    ensures forall i, j :: 0 <= i < j < |Bindings| ==> Bindings[i] != Bindings[j]
    ensures forall i :: 0 <= i < |Bindings| ==> (IsMovementKey(Bindings[i]) <==> i < 4)
  {
    assert MOVE_UP[5] != MOVE_DOWN[5];
    assert MOVE_LEFT[5] != MOVE_RIGHT[5];
    assert MOVE_UP[5] != MOVE_LEFT[5] && MOVE_UP[5] != MOVE_RIGHT[5];
    assert MOVE_DOWN[5] != MOVE_LEFT[5] && MOVE_DOWN[5] != MOVE_RIGHT[5];
  }

  /** `getMovementDirection`. Each held arrow adds one unit step along its
      axis, so opposite arrows cancel; a diagonal is then scaled to length 1.
      The result points up (negative y) exactly when up is held without down,
      and likewise for the other three directions; a single axis gives a
      step of length 1 or none; a diagonal has equal components of length 1
      overall. */
  method GetMovementDirection(keysPressed: set<string>, sqrt: real -> real)
    returns (direction: Position)
    requires IsSquareRoot(sqrt)
    ensures direction.y < 0.0 <==> MOVE_UP in keysPressed && MOVE_DOWN !in keysPressed
    ensures direction.y > 0.0 <==> MOVE_DOWN in keysPressed && MOVE_UP !in keysPressed
    ensures direction.x < 0.0 <==> MOVE_LEFT in keysPressed && MOVE_RIGHT !in keysPressed
    ensures direction.x > 0.0 <==> MOVE_RIGHT in keysPressed && MOVE_LEFT !in keysPressed
    ensures direction.x == 0.0 || direction.y == 0.0 ==>
              direction.x in {-1.0, 0.0, 1.0} && direction.y in {-1.0, 0.0, 1.0}
    ensures direction.x != 0.0 && direction.y != 0.0 ==>
              SquaredLength(direction) == 1.0 && Sq(direction.x) == Sq(direction.y)
    ensures (forall key :: key in keysPressed ==> !IsMovementKey(key)) ==> direction == Origin
  {
    var x, y := 0.0, 0.0;
    if MOVE_UP in keysPressed {
      y := y - 1.0;
    }
    if MOVE_DOWN in keysPressed {
      y := y + 1.0;
    }
    if MOVE_LEFT in keysPressed {
      x := x - 1.0;
    }
    if MOVE_RIGHT in keysPressed {
      x := x + 1.0;
    }
    if x != 0.0 && y != 0.0 {
      var magnitude := sqrt(SquaredLength(Position(x, y)));
      assert SquaredLength(Position(x, y)) == 2.0;
      RootPositive(sqrt, 2.0);
      GameHelpers.DividedByLength(Position(x, y), magnitude);
      DiagonalStaysDiagonal(x, y, magnitude);
      x := x / magnitude;
      y := y / magnitude;
    }
    direction := Position(x, y);
  }

  /** Dividing two unit steps by the same positive number keeps their signs
      and keeps them of equal size. */
  lemma DiagonalStaysDiagonal(x: real, y: real, magnitude: real)
    requires x in {-1.0, 1.0} && y in {-1.0, 1.0} && 0.0 < magnitude
    ensures (x / magnitude < 0.0 <==> x < 0.0) && (y / magnitude < 0.0 <==> y < 0.0)
    ensures Sq(x / magnitude) == Sq(y / magnitude)
  {
    var k := 1.0 / magnitude;
    assert x / magnitude == x * k && y / magnitude == y * k;
    assert 0.0 < k;
    GameHelpers.SqOfProduct(x, k);
    GameHelpers.SqOfProduct(y, k);
  }
}
