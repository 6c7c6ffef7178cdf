# Blackout Ball — a Dafny model of the game core

Blackout Ball is a small multiplayer browser game. Two to four players move
around an 800 x 600 field. One of them may pick up the ball, hide it, show it
and throw it. A thrown ball flies at a fixed speed and bounces off the walls.
The first visible player it hits stops it, and somebody scores a point. Players
may also close their eyes, which makes them invisible. After five minutes the
player with the most points wins. Players level at the top tie, and everybody
else loses.

This project models the game's core and proves properties of it:

- `src/logic.ts`: the match simulation. This is the class `Logic.Game` in `logic.dfy`. Its fields are the match state, updated in place:
  - the players, as a map from id to record;
  - the roster of ids;
  - the ball;
  - the field;
  - the remaining time;
  - the game-over flag.

  `Setup`, the per-tick `Update` and the seven player actions are methods. Each is proved against pure specification functions:
  - `game_state.dfy` holds the records, the constants, the state invariant `Consistent`, and the meaning of one tick of flight and collision.
  - `ranking.dfy` holds the end-of-match ranking.
- `src/collision.ts`: circle and point tests, bounce and look-ahead (`collision.dfy`).
- `src/gameHelpers.ts`: distance, normalisation, the `M:SS` clock, the bounds test and `lerp` (`game_helpers.dfy`).
- `src/controls.ts`: key bindings and the held-keys-to-direction step (`controls.dfy`).
- `geometry.dfy` holds the shared `Position` record and squared lengths. It also models `Math.sqrt`, as a function parameter constrained by `IsSquareRoot`: it returns the non-negative root of every non-negative number.

Some modelling choices:

- Coordinates and times are mathematical reals.
- Every `Math.sqrt(d) < r` test is proved equivalent to the squared comparison `d < r * r` when `r > 0` (`Geometry.RootBelowIff`). The model states the rules in squared form.
- `Math.random()` becomes the `rolls` parameter of `Setup`.
- The elapsed time `Rune.gameTime()` becomes the `deltaTime` parameter of `Update`.
- `Rune.gameOver(...)` becomes the results returned by `Update`.
- `throw Rune.invalidAction()` becomes an action result of `false`, with the object unchanged.

The model follows the code, including behaviour a reader might not expect:

- **The ball may leave the field.** The ball is never clamped to the field. A wall only flips the velocity once the ball is on or past it. "The ball stays on the field" is therefore not an invariant; only the players stay on the field.
- **Taking the ball does not move it.** `takeBall` leaves the ball where it lies. The ball follows its holder only through `movePlayer`.
- **No point for an empty id.** The point for a hit goes to the first player in roster order who is not the one hit and does not hold the ball. The test `if (throwingPlayerId)` also refuses the empty string as an id. `GameState.Scorer` models that.
- **The point may go to someone who never threw.** While the ball flies nobody holds it. `find` therefore returns the first listed player other than the one hit, whoever threw. That player scores unless its id is the empty string (`GameState.ScorerWhileFlying`).
- **A throw can hit the thrower.** A visible thrower standing on the ball is still within the collision radius after the next tick moves the ball. Unless a player listed earlier is hit first, the thrower is hit, and the first other listed player gets the point (`GameState.OwnThrowHitsThrower`). A thrower with closed eyes is not hit, because the hit test needs the player to be visible.

## Model

| member | source | states |
|---|---|---|
| Geometry.SquaredDistance | src/gameHelpers.ts:9-11 | the squared distance `dx*dx + dy*dy` is never negative and is zero from a point to itself |
| Geometry.SquaredDistanceSymmetric | src/gameHelpers.ts:8-12 | the squared distance does not depend on the order of the two points |
| Geometry.SquaredLengthPositive | src/gameHelpers.ts:18-19 | the squared length is never negative, and is positive for every vector but (0, 0), so only the zero vector has magnitude 0 |
| Geometry.RootBelowIff | src/logic.ts:172-178 | `sqrt(x) < bound` holds exactly when the bound is positive and `x < bound * bound` |
| Geometry.RootAtMostIff | src/collision.ts:39 | `sqrt(x) <= bound` holds exactly when the bound is non-negative and `x <= bound * bound` |
| Geometry.RootOfZero | src/gameHelpers.ts:18-19 | the root of 0 is 0 |
| Geometry.RootPositive | src/controls.ts:55-60 | the root of a positive number is positive, so dividing by it is defined |
| Geometry.RootUnique | src/gameHelpers.ts:11 | two non-negative numbers with equal squares are equal, so any two square-root functions agree |
| Collision.CirclesCollide | src/collision.ts:13-23 | circles collide exactly when the sum of the radii is positive and the squared centre distance is below its square |
| Collision.CirclesCollideSymmetric | src/collision.ts:13-23 | swapping the two circles does not change the answer |
| Collision.TouchingCirclesDoNotCollide | src/collision.ts:22 | circles whose centres are exactly `radius1 + radius2` apart do not collide, because the test is strict |
| Collision.PointInCircle | src/collision.ts:32-40 | `pointInCircle` as written; `Collision.PointInCircleIsInclusive` gives its meaning |
| Collision.PointInCircleIsInclusive | src/collision.ts:32-40 | for a non-negative radius, a point is in the circle exactly when its distance from the centre is at most the radius, boundary included |
| Collision.CenterInCircle | src/collision.ts:32-40 | the centre is always in the circle |
| Collision.CollisionImpliesPointInCircle | src/collision.ts:13-40 | a point strictly inside is in the circle, and a point on the boundary is in the circle without colliding with it |
| Collision.CalculateBounce | src/collision.ts:48-60 | `calculateBounce` as written; `Collision.BounceReflects`, `Collision.BounceIsInvolution` and `Collision.BounceOffWalls` give its meaning |
| Collision.BounceReflects | src/collision.ts:48-60 | with a unit normal the bounce negates the velocity component along the normal and keeps the component along the boundary |
| Collision.BounceIsInvolution | src/collision.ts:48-60 | bouncing twice off the same boundary restores the velocity |
| Collision.BounceOffWalls | src/collision.ts:48-60 | normal (1, 0) maps (vx, vy) to (-vx, vy); normal (0, 1) maps it to (vx, -vy) |
| Collision.PredictCircleCollision | src/collision.ts:72-93 | `predictCircleCollision` as written; `Collision.PredictionSteps` gives its meaning |
| Collision.PredictionSteps | src/collision.ts:72-93 | looking ahead 0 is testing the current position; looking ahead 1 is testing the position one velocity step away |
| GameHelpers.CalculateDistance | src/gameHelpers.ts:8-12 | the distance is non-negative, its square is the squared distance, and it is 0 between identical points |
| GameHelpers.DistanceSymmetric | src/gameHelpers.ts:8-12 | the distance is symmetric and independent of which square-root function computes it |
| GameHelpers.NormalizeVector | src/gameHelpers.ts:17-25 | (0, 0) stays (0, 0); any other vector becomes a vector of length 1, parallel to it, pointing the same way |
| GameHelpers.NormalizeFacts | src/gameHelpers.ts:18-24 | the magnitude is 0 exactly for the zero vector; otherwise the components divided by it form a unit vector along the input |
| GameHelpers.DividedByLength | src/gameHelpers.ts:21-24 | dividing by a positive magnitude whose square is the squared length gives a unit vector along the input |
| GameHelpers.FormatTime | src/gameHelpers.ts:30-36 | the text is digits, a colon and exactly two digits; read back, the minutes are the whole minutes of the input, the seconds are below 60, and together they give the whole seconds; the minutes field has no leading zero, so the text is fixed by the input |
| GameHelpers.NatToString | src/gameHelpers.ts:35 | `toString` of a natural number is at least one decimal digit, exactly one below 10, and has no leading zero |
| GameHelpers.ParseNatToString | src/gameHelpers.ts:35 | reading back the decimal text of a number gives the number |
| GameHelpers.PadStart | src/gameHelpers.ts:35 | `padStart` puts exactly `width - \|s\|` fill characters in front of a shorter string and leaves a long enough string alone |
| GameHelpers.TwoDigitSeconds | src/gameHelpers.ts:33-35 | seconds below 60 pad to two digits that read back as the seconds |
| GameHelpers.MinutesOfTime | src/gameHelpers.ts:31-32 | the whole minutes of the whole seconds are the whole minutes of the milliseconds |
| GameHelpers.ClockFields | src/gameHelpers.ts:35 | the template splits back into its minutes field and its two-character seconds field around the colon |
| GameHelpers.FormatFullMatch | src/gameHelpers.ts:30-36 | 300000 ms formats as "5:00" |
| GameHelpers.IsWithinBounds | src/gameHelpers.ts:41-52 | `isWithinBounds` as written; `GameHelpers.BoundsIncludeEdges` gives its meaning |
| GameHelpers.BoundsIncludeEdges | src/gameHelpers.ts:41-52 | all four corners of the field are in bounds and points one unit beyond any edge are not |
| GameHelpers.Lerp | src/gameHelpers.ts:57-59 | `lerp` gives `start` at t = 0, `end` at t = 1, and `start` throughout when both ends coincide |
| Controls.IsMovementKey | src/controls.ts:29-36 | `isMovementKey` as written; `Controls.BindingsAreDistinct` shows that exactly the four arrow bindings pass it |
| Controls.BindingsAreDistinct | src/controls.ts:6-36 | the ten bindings are pairwise distinct, and exactly the four arrow bindings are movement keys |
| Controls.GetMovementDirection | src/controls.ts:43-64 | y < 0 exactly when up is held without down, and likewise for the other three directions; only arrows matter and opposite arrows cancel; one axis gives a step of -1, 0 or 1; a diagonal keeps its signs and has equal components of total length 1 |
| Controls.DiagonalStaysDiagonal | src/controls.ts:59-60 | dividing two unit steps by the same positive magnitude keeps their signs and their equal size |
| GameState.SpawnPosition | src/logic.ts:76-79 | a spawn point drawn from two values in [0, 1) lies at least 50 inside every edge of the field |
| GameState.Clamp | src/logic.ts:217-218 | `Math.max(0, Math.min(upper, v))` lies in [0, upper], keeps values already there, and sends values below to 0 and above to `upper` |
| GameState.InFieldIffClampFixed | src/logic.ts:216-218 | a point is on the field exactly when clamping leaves it unchanged |
| GameState.MoveTarget | src/logic.ts:205-218 | a move ends on the field, and a zero direction leaves an on-field player where it is |
| GameState.MoveStepLength | src/logic.ts:212-214 | away from the edges a move covers exactly `PLAYER_SPEED` |
| GameState.ThrowSpeed | src/logic.ts:276-284 | a throw along any nonzero direction gives the ball speed `BALL_SPEED`; a zero direction gives velocity (0, 0) |
| GameState.ThrowRight | src/logic.ts:276-284 | thrown along (1, 0), the ball gets velocity (10, 0) |
| GameState.UnitAlongAxis | src/logic.ts:276-280 | the only unit vector along (1, 0) is (1, 0) |
| GameState.Fly | src/logic.ts:145-162 | the ball's flight in one tick as written; `GameState.FlyBounces` gives its meaning |
| GameState.FlyBounces | src/logic.ts:145-162 | a tick adds the velocity to the position; each velocity component flips exactly when the new position is on or past its pair of walls, as `calculateBounce` with that wall's normal; the speed is kept |
| GameState.BounceOffRightWall | src/logic.ts:150-162 | a ball at velocity (5, 0) that reaches the right wall comes back at (-5, 0) |
| GameState.IsStruck | src/logic.ts:169-182 | the hit test as written, with the root compared squared (`Geometry.RootBelowIff`) |
| GameState.FirstStruck | src/logic.ts:165-182 | the least roster index whose player the ball hits, or none when it hits nobody |
| GameState.FirstStruckExtend | src/logic.ts:165-197 | looking at one more player keeps an earlier hit and otherwise records a hit on that player |
| GameState.ThrowerIndex | src/logic.ts:184-186 | the least roster index of a player who does not hold the ball and is not the one hit, or none |
| GameState.Scorer | src/logic.ts:184-191 | the player credited with a hit, as written; `GameState.ScorerWhileFlying` gives its meaning |
| GameState.Strike | src/logic.ts:183-195 | the effect of one hit, as written; `GameState.ResolveEffects` gives its meaning |
| GameState.Resolve | src/logic.ts:165-197 | the loop over the roster, as written on values; `GameState.ResolveEffects` gives its meaning |
| GameState.Advance | src/logic.ts:144-198 | a tick that does not end the match, as written on values; `GameState.AdvanceKeepsConsistent` gives its meaning |
| GameState.ResolveEffects | src/logic.ts:165-197 | only scores change, each by 0 or +1 and for at most one player, never for the player hit; a hit stops the ball with velocity (0, 0); without a hit nothing changes |
| GameState.ScorerWhileFlying | src/logic.ts:184-191 | while nobody holds the ball, `find` returns a player exactly when someone other than the one hit is listed, and then the first such player; that player scores unless its id is empty, and nobody scores when only the player hit is listed |
| GameState.OwnThrowHitsThrower | src/logic.ts:145-195 | a visible thrower standing on the ball who throws it right, away from the walls, is hit by it on the next tick; in a two-player roster the other player gets the point and the ball stops |
| GameState.TwoPlayerHit | src/logic.ts:165-197 | of two players, when the ball hits only the second, the first gets exactly one point and the ball stops |
| GameState.AdvanceKeepsConsistent | src/logic.ts:144-198 | a tick keeps the match invariant: at most one holder, a stopped ball has no velocity, a moving ball has no holder, every player on the field |
| Ranking.MaxScore | src/logic.ts:115-126 | the highest score is at least every listed score and is reached by a listed player; it is -1 only for an empty roster |
| Ranking.Winners | src/logic.ts:116-126 | the winners are exactly the listed players with the given score, without repeats when the roster has none |
| Ranking.NoWinnersAbove | src/logic.ts:120-122 | nobody reaches a score above every listed score, so a new highest score restarts the winner list |
| Ranking.ExtendRoster | src/logic.ts:118-126 | one more id updates the maximum and the winner list as one loop step does |
| Ranking.OutcomeFor | src/logic.ts:131-137 | the result rule as written; `Ranking.OutcomeIsRank` gives its meaning |
| Ranking.OutcomeIsRank | src/logic.ts:129-138 | the result rule applied to the winners of the highest score wins, ties or loses exactly as the scores say |
| Ranking.BelowTopLoses | src/logic.ts:135-137 | a player below the highest score loses |
| Ranking.SharedTopTies | src/logic.ts:131-132 | a player at the highest score, shared with someone, ties |
| Ranking.SoleTopWins | src/logic.ts:133-134 | the only player at the highest score wins |
| Ranking.OutcomesRank | src/logic.ts:129-138 | results given by the rule to exactly the listed players form the ranking |
| Ranking.RankingIsUnique | src/logic.ts:114-138 | the scores determine the results: two rankings of the same match are equal |
| Ranking.ComputeResults | src/logic.ts:114-138 | every listed player, and nobody else, gets a result: WON when everyone else scored less, TIE when at the top with someone else, LOST when someone scored more |
| Ranking.FindWinners | src/logic.ts:115-126 | the first loop yields the highest score and the players who reach it, in roster order |
| Ranking.AssignResults | src/logic.ts:129-138 | the second loop gives every listed player, and only them, the result of the rule |
| Ranking.TwoWayTie | src/logic.ts:114-138 | two players level on points both tie |
| Ranking.SingleWinner | src/logic.ts:114-138 | scores 3, 1, 1 give WON, LOST, LOST |
| Logic.Game.Setup | src/logic.ts:71-103 | every player visible, at its spawn point, with score 0 and without the ball; the ball visible and at rest in the centre; 300000 ms on the clock; not over; the invariant holds |
| Logic.Game.Update | src/logic.ts:105-199 | the clock falls by exactly `deltaTime`; `gameOver` is set on the first tick at or below 0 and never cleared; that tick returns the ranking and moves nothing; any other tick moves the ball and resolves hits as `Advance` says; the invariant is kept |
| Logic.Game.MoveBall | src/logic.ts:145-162 | the ball moves as `Fly` says and nothing else changes |
| Logic.Game.ResolveCollisions | src/logic.ts:165-197 | the loop over the roster has the effect of `Resolve`: at most the first hit counts |
| Logic.Game.CheckPlayer | src/logic.ts:166-196 | the player at index i is hit exactly when `IsStruck` holds, and then the hit is scored; otherwise nothing changes |
| Logic.Game.HitPlayer | src/logic.ts:183-195 | a hit gives the scorer one point and stops the ball |
| Logic.Game.FindThrower | src/logic.ts:184-186 | `find` returns the index `ThrowerIndex` describes |
| Logic.Game.MovePlayer | src/logic.ts:202-224 | only the acting player moves, to its clamped target; the ball follows only its holder; the invariant is kept |
| Logic.Game.TakeBall | src/logic.ts:226-246 | accepted exactly when the player is strictly within the collision radius of a visible ball at rest; then that player alone holds the ball, which stays put; a refusal changes nothing |
| Logic.Game.ReleaseBall | src/logic.ts:237-239 | afterwards nobody holds the ball, and nothing else changes |
| Logic.Game.HideBall | src/logic.ts:248-257 | accepted exactly when the player holds the ball; then only the ball's visibility is cleared; a refusal changes nothing |
| Logic.Game.ShowBall | src/logic.ts:259-268 | accepted exactly when the player holds the ball; then only the ball's visibility is set; a refusal changes nothing |
| Logic.Game.ThrowBall | src/logic.ts:270-294 | accepted exactly when the player holds a visible ball; then the ball moves at `BALL_SPEED` along the normalised direction, nobody holds it, and only the thrower's flag changes; a refusal changes nothing |
| Logic.Game.CloseEyes | src/logic.ts:296-298 | only the acting player's visibility changes, to false |
| Logic.Game.OpenEyes | src/logic.ts:300-302 | only the acting player's visibility changes, to true |

## Left out

- `src/App.tsx` is not part of this model. It is the React/PIXI user interface, keyboard listeners and client wiring, and holds no game rules.
- `src/visualEffects.ts` and `src/soundEffects.ts` are not part of this model. They only draw and play sounds.
- The Rune host is left out:
  - `minPlayers` and `maxPlayers` (2 to 4 players) are enforced by the host and are not modelled.
  - `Rune.gameTime()`, `Rune.gameOver` and `Rune.invalidAction()` appear as a parameter, a return value and a `false` result.
- Floating point is left out. Coordinates, times and speeds are reals. `Math.sqrt` is any function that returns exact non-negative roots, so rounding is not modelled.
- `Math.random()` is left out. `Setup` takes the random draws as its `rolls` parameter.
- The `ControlInstructions` display strings of `src/controls.ts` are not modelled.
- GameHelpers.FormatTime: requires a non-negative time. The clock can fall below zero, but JavaScript's `Math.floor` and `%` then give text with a minus sign, and that text is not modelled.
- Logic.Game.Update: requires a non-negative `deltaTime`, which the host's tick driver guarantees.
- Logic.Game.Setup: requires distinct player ids, which the host guarantees; with a repeated id the later random draw would win.
- Logic.Game.MovePlayer, Logic.Game.TakeBall and the other actions: require `playerId` to be a player of the match, which the host guarantees for every action.
- Ball containment is not stated anywhere in the model. The code never clamps the ball, so it can leave the field.
