/** The game simulation of `src/logic.ts`: one `Game` object holds the
    state of a match and changes it in place through `Setup`, the per-tick
    `Update` and the seven player actions. An action that the source rejects
    with `Rune.invalidAction()` returns `false` and changes nothing. */
module Logic {
  import opened Geometry
  import opened GameState
  import opened Ranking
  import GameHelpers

  class Game {
    var players: map<PlayerId, Player>
    const playerIds: seq<PlayerId>
    var ball: Ball
    const field: Field
    /** Milliseconds left in the match; falls below zero once time is up. */
    var gameTime: real
    var gameOver: bool

    /** The match invariant on the fixed 800 x 600 field. */
    ghost predicate Valid()
      reads this
    {
      Consistent(playerIds, players, ball, field) && field == Field(FIELD_WIDTH, FIELD_HEIGHT)
    }

    /** `setup`: every player at the spawn point drawn by its pair of
        `Math.random()` values, visible, without points and without the ball;
        the ball at rest and visible in the centre; the full match time on
        the clock. */
    constructor Setup(allPlayerIds: seq<PlayerId>, rolls: seq<(real, real)>)
      requires Distinct(allPlayerIds) && |rolls| == |allPlayerIds|
      requires forall j :: 0 <= j < |rolls| ==> 0.0 <= rolls[j].0 < 1.0 && 0.0 <= rolls[j].1 < 1.0
      ensures Valid()
      ensures playerIds == allPlayerIds
      ensures forall id :: id in players <==> id in allPlayerIds
      ensures forall j :: 0 <= j < |allPlayerIds| ==>
                players[allPlayerIds[j]] == Player(SpawnPosition(rolls[j]), true, 0, false)
      ensures ball == Ball(Position(FIELD_WIDTH / 2.0, FIELD_HEIGHT / 2.0), true, Origin, false)
      ensures field == Field(FIELD_WIDTH, FIELD_HEIGHT)
      ensures gameTime == GAME_DURATION && !gameOver
    {
      var initial: map<PlayerId, Player> := map[];
      var i := 0;
      while i < |allPlayerIds|
        invariant 0 <= i <= |allPlayerIds|
        invariant forall id :: id in initial <==> id in allPlayerIds[..i]
        invariant forall j :: 0 <= j < i ==>
                    initial[allPlayerIds[j]] == Player(SpawnPosition(rolls[j]), true, 0, false)
      {
        var id := allPlayerIds[i];
        initial := initial[id := Player(SpawnPosition(rolls[i]), true, 0, false)];
        assert forall x :: x in allPlayerIds[..i + 1] <==> x in allPlayerIds[..i] || x == id;
        i := i + 1;
      }
      assert allPlayerIds[..i] == allPlayerIds;
      players := initial;
      playerIds := allPlayerIds;
      ball := Ball(Position(FIELD_WIDTH / 2.0, FIELD_HEIGHT / 2.0), true, Origin, false);
      field := Field(FIELD_WIDTH, FIELD_HEIGHT);
      gameTime := GAME_DURATION;
      gameOver := false;
    }

    /** `update`, with `Rune.gameTime()` passed in as `deltaTime`. The clock
        falls by exactly `deltaTime`. The first tick that finds it at or below
        zero ends the match: it sets `gameOver`, which is never cleared, and
        returns the results instead of calling `Rune.gameOver`, leaving the
        players and the ball as they were. Every other tick moves the ball as
        `Advance` says. */
    method Update(deltaTime: real, sqrt: real -> real) returns (results: Option<map<PlayerId, Outcome>>)
      requires Valid() && 0.0 <= deltaTime && IsSquareRoot(sqrt)
      modifies this
      ensures Valid()
      ensures gameTime == old(gameTime) - deltaTime
      ensures gameOver == (old(gameOver) || gameTime <= 0.0)
      ensures results.Some? <==> !old(gameOver) && gameTime <= 0.0
      ensures results.Some? ==>
                IsRanking(results.value, playerIds, players) && players == old(players) && ball == old(ball)
      ensures results.None? ==> Board(players, ball) == Advance(playerIds, old(players), old(ball), field)
    {
      AdvanceKeepsConsistent(playerIds, players, ball, field);
      gameTime := gameTime - deltaTime;

      if gameTime <= 0.0 && !gameOver {
        gameOver := true;
        var ranking := ComputeResults(playerIds, players);
        return Some(ranking);
      }

      results := None;
      if ball.moving {
        MoveBall();
        ResolveCollisions(sqrt);
      }
    }

    /** Lines 145-162: the ball advances by its velocity and bounces off the
        walls it has reached or passed. */
    method MoveBall()
      modifies this
      ensures ball == Fly(old(ball), field)
      ensures players == old(players) && gameTime == old(gameTime) && gameOver == old(gameOver)
    {
      ball := ball.(position := Position(ball.position.x + ball.velocity.x, ball.position.y + ball.velocity.y));
      if ball.position.x <= 0.0 || ball.position.x >= field.width {
        ball := ball.(velocity := Position(-ball.velocity.x, ball.velocity.y));
      }
      if ball.position.y <= 0.0 || ball.position.y >= field.height {
        ball := ball.(velocity := Position(ball.velocity.x, -ball.velocity.y));
      }
    }

    /** Lines 165-197: the roster, in order, is checked against the ball;
        the first player hit ends the flight, and the ball, now stopped,
        hits nobody after that. */
    method ResolveCollisions(sqrt: real -> real)
      requires AllIn(playerIds, players) && IsSquareRoot(sqrt)
      modifies this
      ensures Board(players, ball) == Resolve(playerIds, old(players), old(ball))
      ensures gameTime == old(gameTime) && gameOver == old(gameOver)
    {
      ghost var before, flying := players, ball;
      var i := 0;
      while i < |playerIds|
        invariant 0 <= i <= |playerIds|
        invariant gameTime == old(gameTime) && gameOver == old(gameOver)
        invariant FirstStruck(playerIds[..i], before, flying).None? ==> players == before && ball == flying
        invariant FirstStruck(playerIds[..i], before, flying).Some? ==>
                    Board(players, ball) == Strike(playerIds, before, flying, FirstStruck(playerIds[..i], before, flying).value)
      {
        FirstStruckExtend(playerIds, before, flying, i);
        CheckPlayer(i, sqrt);
        i := i + 1;
      }
      assert playerIds[..i] == playerIds;
    }

    /** Lines 166-196, for the player at index `i`: when the ball hits it,
        the hit is scored; otherwise nothing changes. */
    method CheckPlayer(i: nat, sqrt: real -> real)
      requires AllIn(playerIds, players) && i < |playerIds| && IsSquareRoot(sqrt)
      modifies this
      ensures var struck := IsStruck(old(players)[playerIds[i]], old(ball));
              && (struck ==> Board(players, ball) == Strike(playerIds, old(players), old(ball), i))
              && (!struck ==> players == old(players) && ball == old(ball))
      ensures gameTime == old(gameTime) && gameOver == old(gameOver)
    {
      var playerId := playerIds[i];
      var player := players[playerId];
      if player.hasBall {
        return;
      }
      var distance := sqrt(SquaredDistance(ball.position, player.position));
      RootBelowIff(sqrt, SquaredDistance(ball.position, player.position), COLLISION_RADIUS);
      if distance < COLLISION_RADIUS && ball.moving && ball.visible && player.visible {
        HitPlayer(i);
      }
    }

    /** Lines 183-195: the player at index `i` is hit. The first other
        player not holding the ball gets a point, and the ball stops. */
    method HitPlayer(i: nat)
      requires AllIn(playerIds, players) && i < |playerIds|
      modifies this
      ensures Board(players, ball) == Strike(playerIds, old(players), old(ball), i)
      ensures gameTime == old(gameTime) && gameOver == old(gameOver)
    {
      var thrower := FindThrower(playerIds[i]);
      if thrower.Some? && playerIds[thrower.value] != "" {
        var throwingPlayerId := playerIds[thrower.value];
        players := players[throwingPlayerId := players[throwingPlayerId].(score := players[throwingPlayerId].score + 1)];
      }
      ball := ball.(moving := false, velocity := Origin);
    }

    /** `playerIds.find(...)` at line 184: the index of the first player
        who does not hold the ball and is not the one hit. */
    method FindThrower(struck: PlayerId) returns (found: Option<nat>)
      requires AllIn(playerIds, players)
      ensures found == ThrowerIndex(playerIds, players, struck)
    {
      var j := 0;
      while j < |playerIds|
        invariant 0 <= j <= |playerIds|
        invariant forall k :: 0 <= k < j ==> players[playerIds[k]].hasBall || playerIds[k] == struck
      {
        if !players[playerIds[j]].hasBall && playerIds[j] != struck {
          return Some(j);
        }
        j := j + 1;
      }
      return None;
    }

    /** `movePlayer`: the player takes one step along the normalised
        direction, clamped to the field, and carries the ball along if it
        holds it. Nobody else moves. */
    method MovePlayer(playerId: PlayerId, direction: Position, sqrt: real -> real)
      requires Valid() && playerId in players && IsSquareRoot(sqrt)
      modifies this
      ensures Valid()
      ensures players == old(players)[playerId := old(players)[playerId].(
                position := MoveTarget(old(players)[playerId].position, direction, field, sqrt))]
      ensures ball == if old(players)[playerId].hasBall then old(ball).(position := players[playerId].position)
                      else old(ball)
      ensures gameTime == old(gameTime) && gameOver == old(gameOver)
    {
      var player := players[playerId];
      var normalized := GameHelpers.NormalizeVector(direction, sqrt);
      var newX := player.position.x + normalized.x * PLAYER_SPEED;
      var newY := player.position.y + normalized.y * PLAYER_SPEED;
      player := player.(position := Position(Clamp(newX, field.width), Clamp(newY, field.height)));
      players := players[playerId := player];
      if player.hasBall {
        ball := ball.(position := player.position);
      }
    }

    /** `takeBall`: allowed when the player is strictly within the collision
        radius of a visible ball at rest. The ball is then taken from
        everyone and given to this player; it stays where it lies. */
    method TakeBall(playerId: PlayerId, sqrt: real -> real) returns (ok: bool)
      requires Valid() && playerId in players && IsSquareRoot(sqrt)
      modifies this
      ensures Valid()
      ensures ok <==> && SquaredDistance(old(ball).position, old(players)[playerId].position) <
                           COLLISION_RADIUS * COLLISION_RADIUS
                      && old(ball).visible && !old(ball).moving
      ensures !ok ==> unchanged(this)
      ensures ok ==> && ball == old(ball)
                     && (forall id :: id in players <==> id in old(players))
                     && (forall id :: id in players ==>
                           players[id] == old(players)[id].(hasBall := id == playerId))
                     && gameTime == old(gameTime) && gameOver == old(gameOver)
    {
      var player := players[playerId];
      var distance := sqrt(SquaredDistance(ball.position, player.position));
      RootBelowIff(sqrt, SquaredDistance(ball.position, player.position), COLLISION_RADIUS);
      if distance < COLLISION_RADIUS && ball.visible && !ball.moving {
        ReleaseBall();
        players := players[playerId := players[playerId].(hasBall := true)];
        ok := true;
      } else {
        ok := false;
      }
    }

    /** Lines 237-239: nobody on the roster holds the ball any more. */
    method ReleaseBall()
      requires forall id :: id in players <==> id in playerIds
      modifies this
      ensures forall id :: id in players <==> id in old(players)
      ensures forall id :: id in players ==> players[id] == old(players)[id].(hasBall := false)
      ensures NoHolder(players)
      ensures ball == old(ball) && gameTime == old(gameTime) && gameOver == old(gameOver)
    {
      var i := 0;
      while i < |playerIds|
        invariant 0 <= i <= |playerIds|
        invariant ball == old(ball) && gameTime == old(gameTime) && gameOver == old(gameOver)
        invariant forall id :: id in players <==> id in old(players)
        invariant forall id :: id in players ==>
                    players[id] == old(players)[id].(hasBall := id !in playerIds[..i] && old(players)[id].hasBall)
      {
        var id := playerIds[i];
        players := players[id := players[id].(hasBall := false)];
        assert forall x :: x in playerIds[..i + 1] <==> x in playerIds[..i] || x == id;
        i := i + 1;
      }
      assert playerIds[..i] == playerIds;
    }

    /** `hideBall`: only the holder may hide the ball. */
    method HideBall(playerId: PlayerId) returns (ok: bool)
      requires Valid() && playerId in players
      modifies this
      ensures Valid()
      ensures ok == old(players)[playerId].hasBall
      ensures !ok ==> unchanged(this)
      ensures ok ==> ball == old(ball).(visible := false) && players == old(players)
      ensures gameTime == old(gameTime) && gameOver == old(gameOver)
    {
      if players[playerId].hasBall {
        ball := ball.(visible := false);
        ok := true;
      } else {
        ok := false;
      }
    }

    /** `showBall`: only the holder may show the ball. */
    method ShowBall(playerId: PlayerId) returns (ok: bool)
      requires Valid() && playerId in players
      modifies this
      ensures Valid()
      ensures ok == old(players)[playerId].hasBall
      ensures !ok ==> unchanged(this)
      ensures ok ==> ball == old(ball).(visible := true) && players == old(players)
      ensures gameTime == old(gameTime) && gameOver == old(gameOver)
    {
      if players[playerId].hasBall {
        ball := ball.(visible := true);
        ok := true;
      } else {
        ok := false;
      }
    }

    /** `throwBall`: the holder of a visible ball sends it off at
        `BALL_SPEED` along the normalised direction and lets go of it;
        nobody then holds the ball. */
    method ThrowBall(playerId: PlayerId, direction: Position, sqrt: real -> real) returns (ok: bool)
      requires Valid() && playerId in players && IsSquareRoot(sqrt)
      modifies this
      ensures Valid()
      ensures ok <==> old(players)[playerId].hasBall && old(ball).visible
      ensures !ok ==> unchanged(this)
      ensures ok ==> && ball == old(ball).(velocity := Scale(GameHelpers.NormalizeVector(direction, sqrt), BALL_SPEED),
                                         moving := true)
                     && players == old(players)[playerId := old(players)[playerId].(hasBall := false)]
                     && NoHolder(players)
      ensures gameTime == old(gameTime) && gameOver == old(gameOver)
    {
      if players[playerId].hasBall && ball.visible {
        var normalized := GameHelpers.NormalizeVector(direction, sqrt);
        ball := ball.(velocity := Position(normalized.x * BALL_SPEED, normalized.y * BALL_SPEED));
        ball := ball.(moving := true);
        players := players[playerId := players[playerId].(hasBall := false)];
        ok := true;
      } else {
        ok := false;
      }
    }

    /** `closeEyes`: the player becomes invisible; nothing else changes. */
    method CloseEyes(playerId: PlayerId)
      requires Valid() && playerId in players
      modifies this
      ensures Valid()
      ensures players == old(players)[playerId := old(players)[playerId].(visible := false)]
      ensures ball == old(ball) && gameTime == old(gameTime) && gameOver == old(gameOver)
    {
      players := players[playerId := players[playerId].(visible := false)];
    }

    /** `openEyes`: the player becomes visible again; nothing else changes. */
    method OpenEyes(playerId: PlayerId)
      requires Valid() && playerId in players
      modifies this
      ensures Valid()
      ensures players == old(players)[playerId := old(players)[playerId].(visible := true)]
      ensures ball == old(ball) && gameTime == old(gameTime) && gameOver == old(gameOver)
    {
      players := players[playerId := players[playerId].(visible := true)];
    }
  }
}
