/** The records and constants of `src/logic.ts`, the state invariant of a
    match, and the pure meaning of one tick of ball flight and collision. */
module GameState {
  import opened Geometry
  import GameHelpers
  import Collision

  type PlayerId = string

  const BALL_SPEED: real := 10.0
  /** Five minutes, in milliseconds. */
  const GAME_DURATION: real := 300000.0
  const PLAYER_SPEED: real := 5.0
  const FIELD_WIDTH: real := 800.0
  const FIELD_HEIGHT: real := 600.0
  /** How close a player and the ball must be to touch. */
  const COLLISION_RADIUS: real := 30.0

  datatype Player = Player(position: Position, visible: bool, score: nat, hasBall: bool)

  datatype Ball = Ball(position: Position, visible: bool, velocity: Position, moving: bool)

  datatype Field = Field(width: real, height: real)

  /** The players and the ball: the part of the game state a tick changes. */
  datatype Board = Board(players: map<PlayerId, Player>, ball: Ball)

  datatype Option<T> = None | Some(value: T)

  predicate Distinct(ids: seq<PlayerId>) {
    forall i, j :: 0 <= i < j < |ids| ==> ids[i] != ids[j]
  }

  /** Every listed id has a player record. */
  predicate AllIn(ids: seq<PlayerId>, players: map<PlayerId, Player>) {
    forall id :: id in ids ==> id in players
  }

  predicate AtMostOneHolder(players: map<PlayerId, Player>) {
    forall a, b :: a in players && b in players && players[a].hasBall && players[b].hasBall ==> a == b
  }

  predicate NoHolder(players: map<PlayerId, Player>) {
    forall id :: id in players ==> !players[id].hasBall
  }

  predicate InField(p: Position, field: Field) {
    GameHelpers.IsWithinBounds(p, field.width, field.height)
  }

  /** What every state of a match satisfies: the roster and the player
      records agree, at most one player holds the ball, a stopped ball has no
      velocity, a flying ball has no holder, and every player is on the
      field. */
  ghost predicate Consistent(ids: seq<PlayerId>, players: map<PlayerId, Player>, ball: Ball, field: Field) {
    && Distinct(ids)
    && (forall id :: id in players <==> id in ids)
    && AtMostOneHolder(players)
    && (!ball.moving ==> ball.velocity == Origin)
    && (ball.moving ==> NoHolder(players))
    && (forall id :: id in players ==> InField(players[id].position, field))
  }

  /** A spawn point from two draws of `Math.random()` in [0, 1): each
      coordinate lies at least 50 inside the field. */
  function SpawnPosition(roll: (real, real)): (p: Position)
    requires 0.0 <= roll.0 < 1.0 && 0.0 <= roll.1 < 1.0
    ensures 50.0 <= p.x < FIELD_WIDTH - 50.0 && 50.0 <= p.y < FIELD_HEIGHT - 50.0
    ensures InField(p, Field(FIELD_WIDTH, FIELD_HEIGHT))
  {
    Position(roll.0 * 700.0 + 50.0, roll.1 * 500.0 + 50.0)
  }

  /** `Math.max(0, Math.min(upper, value))`: the point of [0, upper] nearest
      to `value`. */
  function Clamp(value: real, upper: real): (c: real)
    ensures 0.0 <= upper ==> 0.0 <= c <= upper
    ensures 0.0 <= value <= upper ==> c == value
    ensures value < 0.0 ==> c == 0.0
    ensures 0.0 <= upper < value ==> c == upper
  {
    var low := if upper < value then upper else value;
    if 0.0 < low then low else 0.0
  }

  /** On a field of non-negative size, a point is on the field exactly when
      clamping it to the field leaves it where it is. */
  lemma InFieldIffClampFixed(p: Position, field: Field)
    requires 0.0 <= field.width && 0.0 <= field.height
    ensures InField(p, field) <==> Position(Clamp(p.x, field.width), Clamp(p.y, field.height)) == p
  {
  }

  /** Where `movePlayer` puts a player: one step of `PLAYER_SPEED` along
      the normalised direction, clamped to the field. */
  function MoveTarget(from: Position, direction: Position, field: Field, sqrt: real -> real): (to: Position)
    requires IsSquareRoot(sqrt)
    ensures 0.0 <= field.width && 0.0 <= field.height ==> InField(to, field)
    ensures direction == Origin && InField(from, field) ==> to == from
  {
    var unit := GameHelpers.NormalizeVector(direction, sqrt);
    Position(Clamp(from.x + unit.x * PLAYER_SPEED, field.width),
             Clamp(from.y + unit.y * PLAYER_SPEED, field.height))
  }

  /** Away from the edges a move covers exactly `PLAYER_SPEED`. */
  lemma MoveStepLength(from: Position, direction: Position, field: Field, sqrt: real -> real)
    requires IsSquareRoot(sqrt) && direction != Origin
    requires var unit := GameHelpers.NormalizeVector(direction, sqrt);
             InField(Add(from, Scale(unit, PLAYER_SPEED)), field)
    ensures SquaredDistance(from, MoveTarget(from, direction, field, sqrt)) == Sq(PLAYER_SPEED)
  {
    var unit := GameHelpers.NormalizeVector(direction, sqrt);
    var to := MoveTarget(from, direction, field, sqrt);
    assert to == Add(from, Scale(unit, PLAYER_SPEED));
    assert Position(to.x - from.x, to.y - from.y) == Scale(unit, PLAYER_SPEED);
    ScaledUnitLength(unit, PLAYER_SPEED);
  }

  /** A thrown ball flies at `BALL_SPEED` whatever the length of the
      nonzero direction it is thrown in, and not at all along the zero
      direction. */
  lemma ThrowSpeed(direction: Position, sqrt: real -> real)
    requires IsSquareRoot(sqrt)
    ensures var velocity := Scale(GameHelpers.NormalizeVector(direction, sqrt), BALL_SPEED);
            && (direction != Origin ==> SquaredLength(velocity) == Sq(BALL_SPEED))
            && (direction == Origin ==> velocity == Origin)
  {
    var unit := GameHelpers.NormalizeVector(direction, sqrt);
    if direction != Origin {
      assert SquaredLength(unit) == 1.0;
      ScaledUnitLength(unit, BALL_SPEED);
    } else {
      ScaleOrigin(BALL_SPEED);
    }
  }

  /** Thrown to the right, the ball flies at (10, 0). */
  lemma ThrowRight(sqrt: real -> real)
    requires IsSquareRoot(sqrt)
    ensures Scale(GameHelpers.NormalizeVector(Position(1.0, 0.0), sqrt), BALL_SPEED) == Position(BALL_SPEED, 0.0)
  {
    var right := Position(1.0, 0.0);
    UnitAlongAxis(GameHelpers.NormalizeVector(right, sqrt));
    ScaleRight(BALL_SPEED);
  }

  /** The only unit vector along (1, 0) is (1, 0) itself. */
  lemma UnitAlongAxis(u: Position)
    requires GameHelpers.UnitAlong(Position(1.0, 0.0), u)
    ensures u == Position(1.0, 0.0)
  {
    assert u.y == 0.0 && u.x > 0.0;
    assert Sq(u.x) == 1.0;
    RootUnique(u.x, 1.0);
  }

  lemma ScaleRight(k: real)
    ensures Scale(Position(1.0, 0.0), k) == Position(k, 0.0)
  {
  }

  /** A vector of length 1 scaled by `k` has length |k|. */
  lemma ScaledUnitLength(unit: Position, k: real)
    ensures SquaredLength(unit) == 1.0 ==> SquaredLength(Scale(unit, k)) == Sq(k)
  {
    GameHelpers.SqOfProduct(unit.x, k);
    GameHelpers.SqOfProduct(unit.y, k);
    var sx, sy, sk := Sq(unit.x), Sq(unit.y), Sq(k);
    assert sx * sk + sy * sk == (sx + sy) * sk;
  }

  /** Lines 145-162 of the update: the ball advances by its velocity, then
      each velocity component flips when the new position is on or past the
      matching pair of walls. The position itself is not clamped. */
  function Fly(ball: Ball, field: Field): Ball {
    var p := Add(ball.position, ball.velocity);
    var vx := if p.x <= 0.0 || p.x >= field.width then -ball.velocity.x else ball.velocity.x;
    var vy := if p.y <= 0.0 || p.y >= field.height then -ball.velocity.y else ball.velocity.y;
    ball.(position := p, velocity := Position(vx, vy))
  }

  /** A wall bounce is `calculateBounce` with the wall's unit normal: (1, 0)
      for the left and right walls, (0, 1) for the top and bottom. The speed
      is unchanged, and only the position and velocity change. */
  lemma FlyBounces(ball: Ball, field: Field)
    ensures var after := Fly(ball, field);
            var p := Add(ball.position, ball.velocity);
            && after.position == p
            && after.visible == ball.visible && after.moving == ball.moving
            && (after.velocity.x == -ball.velocity.x <==> (p.x <= 0.0 || p.x >= field.width) || ball.velocity.x == 0.0)
            && (after.velocity.y == -ball.velocity.y <==> (p.y <= 0.0 || p.y >= field.height) || ball.velocity.y == 0.0)
            && ((p.x <= 0.0 || p.x >= field.width) ==>
                  after.velocity.x == Collision.CalculateBounce(ball.velocity, Position(1.0, 0.0)).x)
            && ((p.y <= 0.0 || p.y >= field.height) ==>
                  after.velocity.y == Collision.CalculateBounce(ball.velocity, Position(0.0, 1.0)).y)
            && SquaredLength(after.velocity) == SquaredLength(ball.velocity)
  {
    Collision.BounceOffWalls(ball.velocity);
    NegatedSquare(ball.velocity.x);
    NegatedSquare(ball.velocity.y);
  }

  /** A ball flying right at speed 5 that reaches the right wall, away
      from the top and bottom, comes back at speed 5 with its vertical
      speed untouched. */
  lemma BounceOffRightWall(ball: Ball)
    requires ball.velocity == Position(5.0, 0.0)
    requires ball.position.x + 5.0 >= FIELD_WIDTH && 0.0 < ball.position.y < FIELD_HEIGHT
    ensures Fly(ball, Field(FIELD_WIDTH, FIELD_HEIGHT)).velocity == Position(-5.0, 0.0)
  {
  }

  /** Lines 169-182: a player is hit when not holding the ball, strictly
      within the collision radius of it, both are visible and the ball is in
      flight. `Math.sqrt(d) < COLLISION_RADIUS` is compared squared. */
  predicate IsStruck(player: Player, ball: Ball) {
    && !player.hasBall
    && SquaredDistance(ball.position, player.position) < COLLISION_RADIUS * COLLISION_RADIUS
    && ball.moving && ball.visible && player.visible
  }

  /** The first player, in roster order, the ball hits. */
  function FirstStruck(ids: seq<PlayerId>, players: map<PlayerId, Player>, ball: Ball): (first: Option<nat>)
    requires AllIn(ids, players)
    ensures first.Some? ==> first.value < |ids| && IsStruck(players[ids[first.value]], ball)
    ensures first.Some? ==> forall j :: 0 <= j < first.value ==> !IsStruck(players[ids[j]], ball)
    ensures first.None? ==> forall j :: 0 <= j < |ids| ==> !IsStruck(players[ids[j]], ball)
  {
    if ids == [] then None
    else
      var earlier := FirstStruck(ids[..|ids| - 1], players, ball);
      if earlier.Some? then earlier
      else if IsStruck(players[ids[|ids| - 1]], ball) then Some(|ids| - 1)
      else None
  }

  /** Looking at one more player of the roster. */
  lemma FirstStruckExtend(ids: seq<PlayerId>, players: map<PlayerId, Player>, ball: Ball, i: nat)
    requires AllIn(ids, players) && i < |ids|
    ensures var earlier := FirstStruck(ids[..i], players, ball);
            FirstStruck(ids[..i + 1], players, ball) ==
              if earlier.Some? then earlier
              else if IsStruck(players[ids[i]], ball) then Some(i)
              else None
  {
    assert ids[..i + 1][..i] == ids[..i];
  }

  /** `playerIds.find(id => !players[id].hasBall && id !== struck)`: the
      first player in roster order who is not holding the ball and is not
      the one hit. */
  function ThrowerIndex(ids: seq<PlayerId>, players: map<PlayerId, Player>, struck: PlayerId): (found: Option<nat>)
    requires AllIn(ids, players)
    ensures found.Some? ==> found.value < |ids| && !players[ids[found.value]].hasBall && ids[found.value] != struck
    ensures found.Some? ==> forall j :: 0 <= j < found.value ==> players[ids[j]].hasBall || ids[j] == struck
    ensures found.None? ==> forall j :: 0 <= j < |ids| ==> players[ids[j]].hasBall || ids[j] == struck
  {
    if ids == [] then None
    else
      var earlier := ThrowerIndex(ids[..|ids| - 1], players, struck);
      var last := ids[|ids| - 1];
      if earlier.Some? then earlier
      else if !players[last].hasBall && last != struck then Some(|ids| - 1)
      else None
  }

  /** The player credited with a hit on `struck`, if any. The JavaScript
      test `if (throwingPlayerId)` also refuses the empty string. */
  function Scorer(ids: seq<PlayerId>, players: map<PlayerId, Player>, struck: PlayerId): Option<PlayerId>
    requires AllIn(ids, players)
  {
    match ThrowerIndex(ids, players, struck)
    case Some(t) => if ids[t] != "" then Some(ids[t]) else None
    case None => None
  }

  function Award(players: map<PlayerId, Player>, id: PlayerId): map<PlayerId, Player>
    requires id in players
  {
    players[id := players[id].(score := players[id].score + 1)]
  }

  /** Lines 183-195: the player at index `s` is hit; the scorer, if any,
      gains a point and the ball stops. */
  function Strike(ids: seq<PlayerId>, players: map<PlayerId, Player>, ball: Ball, s: nat): Board
    requires AllIn(ids, players) && s < |ids|
  {
    var scored := match Scorer(ids, players, ids[s])
                  case Some(id) => Award(players, id)
                  case None => players;
    Board(scored, ball.(moving := false, velocity := Origin))
  }

  /** Lines 165-197: the first hit, if there is one, scores a point for its
      scorer and stops the ball; later players are not hit because the ball
      is no longer moving. */
  function Resolve(ids: seq<PlayerId>, players: map<PlayerId, Player>, ball: Ball): Board
    requires AllIn(ids, players)
  {
    match FirstStruck(ids, players, ball)
    case None => Board(players, ball)
    case Some(s) => Strike(ids, players, ball, s)
  }

  /** Lines 144-198: what a tick that does not end the match does to the
      players and the ball. */
  function Advance(ids: seq<PlayerId>, players: map<PlayerId, Player>, ball: Ball, field: Field): Board
    requires AllIn(ids, players)
  {
    if ball.moving then Resolve(ids, players, Fly(ball, field)) else Board(players, ball)
  }

  /** The collision rules: only scores change, and only one player's, by
      exactly one point and never for the player hit; a hit stops the ball
      with zero velocity; without a hit nothing changes. */
  lemma ResolveEffects(ids: seq<PlayerId>, players: map<PlayerId, Player>, ball: Ball)
    requires AllIn(ids, players)
    ensures var after := Resolve(ids, players, ball);
            && after.players.Keys == players.Keys
            && (forall id :: id in players ==>
                  after.players[id] == players[id].(score := after.players[id].score))
            && (forall id :: id in players ==>
                  after.players[id].score == players[id].score ||
                  after.players[id].score == players[id].score + 1)
            && (forall a, b :: (a in players && b in players &&
                  after.players[a] != players[a] && after.players[b] != players[b]) ==> a == b)
    ensures var after := Resolve(ids, players, ball);
            match FirstStruck(ids, players, ball)
            case None => after == Board(players, ball)
            case Some(s) =>
              && after.ball == ball.(moving := false, velocity := Origin)
              && after.players[ids[s]] == players[ids[s]]
              && (forall id :: id in players && after.players[id] != players[id] ==>
                    Scorer(ids, players, ids[s]) == Some(id))
              && (Scorer(ids, players, ids[s]).Some? ==>
                    var winner := Scorer(ids, players, ids[s]).value;
                    after.players[winner].score == players[winner].score + 1)
  {
    match FirstStruck(ids, players, ball)
    case None =>
    case Some(s) =>
      match Scorer(ids, players, ids[s])
      case None =>
      case Some(winner) =>
        var t := ThrowerIndex(ids, players, ids[s]).value;
        assert winner == ids[t] && winner != ids[s];
  }

  /** While the ball flies nobody holds it, so `find` returns the first
      listed player other than the one hit, whoever threw the ball. That
      player scores unless its id is the empty string; when everyone listed
      is the one hit, nobody scores. */
  lemma ScorerWhileFlying(ids: seq<PlayerId>, players: map<PlayerId, Player>, struck: PlayerId)
    requires AllIn(ids, players) && NoHolder(players)
    ensures ThrowerIndex(ids, players, struck).Some? <==> exists j :: 0 <= j < |ids| && ids[j] != struck
    ensures ThrowerIndex(ids, players, struck).Some? ==>
              var t := ThrowerIndex(ids, players, struck).value;
              forall j :: 0 <= j < t ==> ids[j] == struck
    ensures forall t :: 0 <= t < |ids| && ids[t] != struck && (forall j :: 0 <= j < t ==> ids[j] == struck) ==>
              Scorer(ids, players, struck) == if ids[t] == "" then None else Some(ids[t])
    ensures (forall j :: 0 <= j < |ids| ==> ids[j] == struck) ==> Scorer(ids, players, struck) == None
  {
  }

  /** A throw can hit the thrower. A visible player standing on the ball
      throws it right, away from the walls: on the next tick the ball lands
      10 from the thrower, inside the collision radius, so the thrower is
      hit and the other player of a two-player roster scores. */
  lemma OwnThrowHitsThrower(a: PlayerId, b: PlayerId, players: map<PlayerId, Player>, ball: Ball)
    requires a != b && b != "" && a in players && b in players && NoHolder(players)
    requires players[a].visible && players[a].position == ball.position
    requires ball.moving && ball.visible && ball.velocity == Position(BALL_SPEED, 0.0)
    requires 0.0 < ball.position.x + BALL_SPEED < FIELD_WIDTH && 0.0 < ball.position.y < FIELD_HEIGHT
    requires !IsStruck(players[b], Fly(ball, Field(FIELD_WIDTH, FIELD_HEIGHT)))
    ensures var flown := Fly(ball, Field(FIELD_WIDTH, FIELD_HEIGHT));
            Advance([a, b], players, ball, Field(FIELD_WIDTH, FIELD_HEIGHT)) ==
              Board(Award(players, b), flown.(moving := false, velocity := Origin))
  {
    var ids := [a, b];
    var flown := Fly(ball, Field(FIELD_WIDTH, FIELD_HEIGHT));
    assert flown.position == Position(ball.position.x + BALL_SPEED, ball.position.y);
    assert SquaredDistance(flown.position, players[a].position) == Sq(BALL_SPEED);
    assert IsStruck(players[ids[0]], flown);
    assert FirstStruck(ids, players, flown) == Some(0) by {
      assert FirstStruck(ids[..1], players, flown) == Some(0);
    }
    assert ThrowerIndex(ids, players, a) == Some(1) by {
      assert ThrowerIndex(ids[..1], players, a) == None;
    }
  }

  /** Two players, neither holding the ball, and the ball hits only the
      second: the first scores a point and the ball stops. */
  lemma TwoPlayerHit(a: PlayerId, b: PlayerId, players: map<PlayerId, Player>, ball: Ball)
    requires a != b && a != "" && a in players && b in players && NoHolder(players)
    requires !IsStruck(players[a], ball) && IsStruck(players[b], ball)
    ensures Resolve([a, b], players, ball) == Board(Award(players, a), ball.(moving := false, velocity := Origin))
  {
    var ids := [a, b];
    assert FirstStruck(ids, players, ball) == Some(1) by {
      assert !IsStruck(players[ids[0]], ball);
    }
    assert ThrowerIndex(ids, players, b) == Some(0);
  }

  /** A tick keeps the state consistent. */
  lemma AdvanceKeepsConsistent(ids: seq<PlayerId>, players: map<PlayerId, Player>, ball: Ball, field: Field)
    requires Consistent(ids, players, ball, field)
    ensures AllIn(ids, players)
    ensures var after := Advance(ids, players, ball, field);
            Consistent(ids, after.players, after.ball, field)
  {
    if ball.moving {
      var flown := Fly(ball, field);
      FlyBounces(ball, field);
      ResolveEffects(ids, players, flown);
    }
  }
}
