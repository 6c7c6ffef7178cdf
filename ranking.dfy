/** End-of-match ranking (lines 114-138 of `src/logic.ts`): the highest
    score, the players who reach it, and the result each player receives. */
module Ranking {
  import opened GameState

  datatype Outcome = WON | LOST | TIE

  function Score(players: map<PlayerId, Player>, id: PlayerId): int
    requires id in players
  {
    players[id].score
  }

  /** The highest score among `ids`, or -1 (the initial `highestScore`)
      when there are none. */
  function MaxScore(ids: seq<PlayerId>, players: map<PlayerId, Player>): (m: int)
    requires AllIn(ids, players)
    ensures forall j :: 0 <= j < |ids| ==> Score(players, ids[j]) <= m
    ensures ids == [] <==> m == -1
    ensures ids != [] ==> exists j :: 0 <= j < |ids| && Score(players, ids[j]) == m
  {
    if ids == [] then -1
    else
      var m := MaxScore(ids[..|ids| - 1], players);
      var last := Score(players, ids[|ids| - 1]);
      if last > m then last else m
  }

  /** The ids whose score is `m`, in roster order. */
  function Winners(ids: seq<PlayerId>, players: map<PlayerId, Player>, m: int): (w: seq<PlayerId>)
    requires AllIn(ids, players)
    ensures forall id :: id in w <==> id in ids && Score(players, id) == m
    ensures Distinct(ids) ==> Distinct(w)
  {
    if ids == [] then []
    else
      var earlier := Winners(ids[..|ids| - 1], players, m);
      var last := ids[|ids| - 1];
      assert forall id :: id in ids <==> id in ids[..|ids| - 1] || id == last;
      if Score(players, last) == m then earlier + [last] else earlier
  }

  /** Nobody reaches a score above every listed score. */
  lemma {:induction false} NoWinnersAbove(ids: seq<PlayerId>, players: map<PlayerId, Player>, m: int)
    requires AllIn(ids, players)
    requires forall j :: 0 <= j < |ids| ==> Score(players, ids[j]) < m
    ensures Winners(ids, players, m) == []
  {
    if ids != [] {
      NoWinnersAbove(ids[..|ids| - 1], players, m);
    }
  }

  /** Reading one more id of the roster: the maximum and the winners grow
      as the first loop of the ranking grows them. */
  lemma ExtendRoster(ids: seq<PlayerId>, players: map<PlayerId, Player>, i: nat, m: int)
    requires AllIn(ids, players) && i < |ids|
    ensures var score := Score(players, ids[i]);
            var max := MaxScore(ids[..i], players);
            MaxScore(ids[..i + 1], players) == if score > max then score else max
    ensures Score(players, ids[i]) == m ==>
              Winners(ids[..i + 1], players, m) == Winners(ids[..i], players, m) + [ids[i]]
    ensures Score(players, ids[i]) != m ==> Winners(ids[..i + 1], players, m) == Winners(ids[..i], players, m)
  {
    assert ids[..i + 1][..i] == ids[..i];
  }

  /** Lines 131-137: a tie for everyone in a winner list of two or more, a
      win for the only entry of a one-element list, a loss otherwise. */
  function OutcomeFor(id: PlayerId, winners: seq<PlayerId>): Outcome {
    if |winners| > 1 && id in winners then TIE
    else if |winners| == 1 && winners[0] == id then WON
    else LOST
  }

  /** Every other listed player scored strictly less than `id`. */
  ghost predicate WinsOutright(ids: seq<PlayerId>, players: map<PlayerId, Player>, id: PlayerId)
    requires AllIn(ids, players) && id in players
  {
    forall j :: 0 <= j < |ids| && ids[j] != id ==> Score(players, ids[j]) < Score(players, id)
  }

  /** Nobody listed scored more than `id`, and someone else scored as much. */
  ghost predicate SharesTop(ids: seq<PlayerId>, players: map<PlayerId, Player>, id: PlayerId)
    requires AllIn(ids, players) && id in players
  {
    && (forall j :: 0 <= j < |ids| ==> Score(players, ids[j]) <= Score(players, id))
    && (exists j :: 0 <= j < |ids| && ids[j] != id && Score(players, ids[j]) == Score(players, id))
  }

  /** Some listed player scored more than `id`. */
  ghost predicate Outscored(ids: seq<PlayerId>, players: map<PlayerId, Player>, id: PlayerId)
    requires AllIn(ids, players) && id in players
  {
    exists j :: 0 <= j < |ids| && Score(players, ids[j]) > Score(players, id)
  }

  /** What the results of a match mean: every listed player, and nobody
      else, gets a result; a player wins when every other player scored
      strictly less, ties when nobody scored more but someone else scored as
      much, and loses when someone scored more. */
  ghost predicate IsRanking(results: map<PlayerId, Outcome>, ids: seq<PlayerId>, players: map<PlayerId, Player>)
    requires AllIn(ids, players)
  {
    && (forall id :: id in results <==> id in ids)
    && (forall id :: id in results ==> RankedAs(results[id], ids, players, id))
  }

  ghost predicate RankedAs(o: Outcome, ids: seq<PlayerId>, players: map<PlayerId, Player>, id: PlayerId)
    requires AllIn(ids, players) && id in players
  {
    && (o == WON <==> WinsOutright(ids, players, id))
    && (o == TIE <==> SharesTop(ids, players, id))
    && (o == LOST <==> Outscored(ids, players, id))
  }

  /** The rule of lines 131-137, applied to the winners of the highest
      score, is the ranking. */
  lemma OutcomeIsRank(ids: seq<PlayerId>, players: map<PlayerId, Player>, id: PlayerId)
    requires Distinct(ids) && AllIn(ids, players) && id in ids
    ensures RankedAs(OutcomeFor(id, Winners(ids, players, MaxScore(ids, players))), ids, players, id)
  {
    var w := Winners(ids, players, MaxScore(ids, players));
    if Score(players, id) < MaxScore(ids, players) {
      BelowTopLoses(ids, players, id);
    } else if |w| > 1 {
      SharedTopTies(ids, players, id);
    } else {
      SoleTopWins(ids, players, id);
    }
  }

  lemma BelowTopLoses(ids: seq<PlayerId>, players: map<PlayerId, Player>, id: PlayerId)
    requires AllIn(ids, players) && id in ids && Score(players, id) < MaxScore(ids, players)
    ensures OutcomeFor(id, Winners(ids, players, MaxScore(ids, players))) == LOST
    ensures RankedAs(LOST, ids, players, id)
  {
    var m := MaxScore(ids, players);
    var k :| 0 <= k < |ids| && Score(players, ids[k]) == m;
    assert id !in Winners(ids, players, m);
    assert Outscored(ids, players, id);
    assert !WinsOutright(ids, players, id) && !SharesTop(ids, players, id) by {
      assert ids[k] != id;
    }
  }

  lemma SharedTopTies(ids: seq<PlayerId>, players: map<PlayerId, Player>, id: PlayerId)
    requires Distinct(ids) && AllIn(ids, players) && id in ids
    requires Score(players, id) >= MaxScore(ids, players)
    requires |Winners(ids, players, MaxScore(ids, players))| > 1
    ensures OutcomeFor(id, Winners(ids, players, MaxScore(ids, players))) == TIE
    ensures RankedAs(TIE, ids, players, id)
  {
    var s := Score(players, id);
    var w := Winners(ids, players, MaxScore(ids, players));
    assert id in w;
    assert !Outscored(ids, players, id);
    var other := if w[0] != id then w[0] else w[1];
    assert other in w && other != id;
    var j :| 0 <= j < |ids| && ids[j] == other;
    assert ids[j] != id && Score(players, ids[j]) == s;
    assert SharesTop(ids, players, id);
    assert !WinsOutright(ids, players, id);
  }

  lemma SoleTopWins(ids: seq<PlayerId>, players: map<PlayerId, Player>, id: PlayerId)
    requires AllIn(ids, players) && id in ids
    requires Score(players, id) >= MaxScore(ids, players)
    requires |Winners(ids, players, MaxScore(ids, players))| <= 1
    ensures OutcomeFor(id, Winners(ids, players, MaxScore(ids, players))) == WON
    ensures RankedAs(WON, ids, players, id)
  {
    var s := Score(players, id);
    var w := Winners(ids, players, MaxScore(ids, players));
    assert id in w;
    assert w == [id];
    assert !Outscored(ids, players, id);
    forall j | 0 <= j < |ids| && ids[j] != id
      ensures Score(players, ids[j]) < s
    {
      assert ids[j] !in w;
    }
    assert WinsOutright(ids, players, id);
  }

  /** The scores decide the results: two rankings of the same match agree. */
  lemma RankingIsUnique(r1: map<PlayerId, Outcome>, r2: map<PlayerId, Outcome>,
                        ids: seq<PlayerId>, players: map<PlayerId, Player>)
    requires AllIn(ids, players)
    requires IsRanking(r1, ids, players) && IsRanking(r2, ids, players)
    ensures r1 == r2
  {
    assert r1.Keys == r2.Keys;
    forall id | id in r1
      ensures r1[id] == r2[id]
    {
      match r1[id]
      case WON =>
      case TIE =>
      case LOST =>
    }
  }

  /** Lines 114-138: the winners of the highest score, then a result for
      every player of the roster. */
  method ComputeResults(ids: seq<PlayerId>, players: map<PlayerId, Player>)
    returns (results: map<PlayerId, Outcome>)
    requires Distinct(ids) && AllIn(ids, players)
    ensures IsRanking(results, ids, players)
  {
    var highestScore, winners := FindWinners(ids, players);
    results := AssignResults(ids, winners);
    OutcomesRank(results, ids, players);
  }

  /** Lines 129-138: every player of the roster gets the result the rule
      of `OutcomeFor` gives it. */
  method AssignResults(ids: seq<PlayerId>, winners: seq<PlayerId>) returns (results: map<PlayerId, Outcome>)
    ensures forall id :: id in results <==> id in ids
    ensures forall id :: id in results ==> results[id] == OutcomeFor(id, winners)
  {
    results := map[];
    var i := 0;
    while i < |ids|
      invariant 0 <= i <= |ids|
      invariant forall id :: id in results <==> id in ids[..i]
      invariant forall id :: id in results ==> results[id] == OutcomeFor(id, winners)
    {
      var id := ids[i];
      if |winners| > 1 && id in winners {
        results := results[id := TIE];
      } else if |winners| == 1 && winners[0] == id {
        results := results[id := WON];
      } else {
        results := results[id := LOST];
      }
      assert forall x :: x in ids[..i + 1] <==> x in ids[..i] || x == id;
      i := i + 1;
    }
    assert ids[..i] == ids;
  }

  /** Lines 115-126: the highest score of the roster and the players who
      reach it, in roster order. */
  method FindWinners(ids: seq<PlayerId>, players: map<PlayerId, Player>)
    returns (highestScore: int, winners: seq<PlayerId>)
    requires AllIn(ids, players)
    ensures highestScore == MaxScore(ids, players)
    ensures winners == Winners(ids, players, highestScore)
  {
    highestScore := -1;
    winners := [];
    var i := 0;
    assert ids[..i] == [];
    while i < |ids|
      invariant 0 <= i <= |ids|
      invariant highestScore == MaxScore(ids[..i], players)
      invariant winners == Winners(ids[..i], players, highestScore)
    {
      var score := Score(players, ids[i]);
      ExtendRoster(ids, players, i, highestScore);
      ExtendRoster(ids, players, i, score);
      if score > highestScore {
        NoWinnersAbove(ids[..i], players, score);
        assert [] + [ids[i]] == [ids[i]];
        highestScore := score;
        winners := [ids[i]];
      } else if score == highestScore {
        winners := winners + [ids[i]];
      }
      i := i + 1;
    }
    assert ids[..i] == ids;
  }

  /** Results given by the rule of lines 131-137 to every listed player, and
      only to them, are the ranking. */
  lemma OutcomesRank(results: map<PlayerId, Outcome>, ids: seq<PlayerId>, players: map<PlayerId, Player>)
    requires Distinct(ids) && AllIn(ids, players)
    requires forall id :: id in results <==> id in ids
    requires forall id :: id in results ==>
               results[id] == OutcomeFor(id, Winners(ids, players, MaxScore(ids, players)))
    ensures IsRanking(results, ids, players)
  {
    forall id | id in results {
      OutcomeIsRank(ids, players, id);
    }
  }

  /** Two players level on points both tie. */
  lemma TwoWayTie(results: map<PlayerId, Outcome>, players: map<PlayerId, Player>, a: PlayerId, b: PlayerId)
    requires a != b && a in players && b in players
    requires Score(players, a) == Score(players, b)
    requires IsRanking(results, [a, b], players)
    ensures results == map[a := TIE, b := TIE]
  {
    var ids := [a, b];
    assert ids[1] != a && Score(players, ids[1]) == Score(players, a);
    assert ids[0] != b && Score(players, ids[0]) == Score(players, b);
    assert results.Keys == {a, b};
  }

  /** Scores 3, 1, 1: the first player wins and the others lose. */
  lemma SingleWinner(results: map<PlayerId, Outcome>, players: map<PlayerId, Player>,
                     p1: PlayerId, p2: PlayerId, p3: PlayerId)
    requires p1 != p2 && p1 != p3 && p2 != p3
    requires p1 in players && p2 in players && p3 in players
    requires Score(players, p1) == 3 && Score(players, p2) == 1 && Score(players, p3) == 1
    requires IsRanking(results, [p1, p2, p3], players)
    ensures results == map[p1 := WON, p2 := LOST, p3 := LOST]
  {
    var ids := [p1, p2, p3];
    assert Score(players, ids[0]) > Score(players, p2);
    assert Score(players, ids[0]) > Score(players, p3);
    assert results.Keys == {p1, p2, p3};
  }
}
