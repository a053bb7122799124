/** The decision logic of the game script (monopoly.py): the player-state
    snapshot, the round-bounded turn loop, and the advisor vote with its
    strict-majority verdict. The game engine is abstract: a world value `G`,
    players `P`, a `play` transition, a `lost` test and a `getState` reader. */
module Monopoly {
  import opened Advisors

  // ---------------------------------------------------------------------
  // get_current_state
  // ---------------------------------------------------------------------

  /** One entry of the snapshot: `{"state": player.get_state()}`. */
  datatype PlayerEntry<S> = PlayerEntry(state: S)

  /** The snapshot: `{"players": [...]}`. */
  datatype CurrentState<S> = CurrentState(players: seq<PlayerEntry<S>>)

  /** The list comprehension `[{"state": player.get_state()} for player in players]`. */
  function PlayerEntries<G, P, S>(getState: (G, P) -> S, g: G, players: seq<P>): (r: seq<PlayerEntry<S>>)
    ensures |r| == |players|
    ensures forall i :: 0 <= i < |players| ==> r[i] == PlayerEntry(getState(g, players[i]))
  {
    if players == [] then [] else [PlayerEntry(getState(g, players[0]))] + PlayerEntries(getState, g, players[1..])
  }

  /** `get_current_state`: exactly one entry per player, in the order of the
      list, each holding that player's state in the current world. */
  function GetCurrentState<G, P, S>(getState: (G, P) -> S, g: G, players: seq<P>): (r: CurrentState<S>)
    ensures |r.players| == |players|
    ensures forall i :: 0 <= i < |players| ==> r.players[i].state == getState(g, players[i])
  {
    CurrentState(PlayerEntries(getState, g, players))
  }

  /** The snapshot of a concatenated player list is the concatenation of the
      snapshots: the comprehension keeps the order and drops nobody. */
  lemma GetCurrentStateAppend<G, P, S>(getState: (G, P) -> S, g: G, a: seq<P>, b: seq<P>)
    ensures GetCurrentState(getState, g, a + b).players
         == GetCurrentState(getState, g, a).players + GetCurrentState(getState, g, b).players
  {
    var r, ra, rb := GetCurrentState(getState, g, a + b), GetCurrentState(getState, g, a), GetCurrentState(getState, g, b);
    assert forall i :: 0 <= i < |a| + |b| ==> r.players[i] == (ra.players + rb.players)[i];
  }

  // ---------------------------------------------------------------------
  // The turn loop
  // ---------------------------------------------------------------------

  /** The round bound the script uses. */
  const StopAtRound: nat := 5

  /** The world after every player in `players` has played once, in list
      order. */
  function PlayRound<G, P>(play: (G, P) -> G, g: G, players: seq<P>): G
    decreases |players|
  {
    if players == [] then g else PlayRound(play, play(g, players[0]), players[1..])
  }

  /** The world after `k` complete rounds. */
  function AfterRounds<G, P>(play: (G, P) -> G, g: G, players: seq<P>, k: nat): G {
    if k == 0 then g else PlayRound(play, AfterRounds(play, g, players, k - 1), players)
  }

  /** The order in which players are played over `k` complete rounds. */
  function Repeat<P>(players: seq<P>, k: nat): seq<P> {
    if k == 0 then [] else Repeat(players, k - 1) + players
  }

  /** Some player of the list has lost, tested player by player as the loop
      condition does. */
  predicate AnyLost<G, P>(lost: (G, P) -> bool, g: G, players: seq<P>)
    decreases |players|
  {
    players != [] && (lost(g, players[0]) || AnyLost(lost, g, players[1..]))
  }

  /** The test finds a loser exactly when some listed player has lost. */
  lemma {:induction false} AnyLostIff<G, P>(lost: (G, P) -> bool, g: G, players: seq<P>)
    ensures AnyLost(lost, g, players) <==> exists i :: 0 <= i < |players| && lost(g, players[i])
    decreases |players|
  {
    if players != [] {
      AnyLostIff(lost, g, players[1..]);
      if exists i :: 0 <= i < |players| && lost(g, players[i]) {
        var i :| 0 <= i < |players| && lost(g, players[i]);
        if i > 0 {
          assert lost(g, players[1..][i - 1]);
        }
      }
    }
  }

  /** The loop's exit condition: `rounds` rounds were played, no player had
      lost at the start of any of them, and the loop stopped because the
      bound was reached or because a player had lost. */
  ghost predicate LoopExit<G, P>(play: (G, P) -> G, lost: (G, P) -> bool, g0: G, players: seq<P>,
                                 stopAtRound: nat, rounds: nat)
  {
    && rounds <= stopAtRound
    && (forall k :: 0 <= k < rounds ==> !AnyLost(lost, AfterRounds(play, g0, players, k), players))
    && (rounds == stopAtRound || AnyLost(lost, AfterRounds(play, g0, players, rounds), players))
  }

  /** `for player in list_players: player.play()`: every player plays once,
      in list order; nobody's loss is looked at mid-round. */
  method PlayOneRound<G, P>(play: (G, P) -> G, g0: G, players: seq<P>) returns (g: G, played: seq<P>)
    ensures g == PlayRound(play, g0, players)
    ensures played == players
  {
    g, played := g0, [];
    for i := 0 to |players|
      invariant played == players[..i]
      invariant PlayRound(play, g0, players) == PlayRound(play, g, players[i..])
    {
      assert players[i..][1..] == players[i + 1..];
      g := play(g, players[i]);
      played := played + [players[i]];
    }
    assert players[..|players|] == players;
  }

  /** The round-bounded loop: while no player has lost and fewer than
      `stopAtRound` rounds were played, play a round and count it. */
  method TurnLoop<G, P>(play: (G, P) -> G, lost: (G, P) -> bool, g0: G, players: seq<P>, stopAtRound: nat)
    returns (g: G, idxCount: nat, played: seq<P>)
    ensures LoopExit(play, lost, g0, players, stopAtRound, idxCount)
    ensures g == AfterRounds(play, g0, players, idxCount)
    ensures played == Repeat(players, idxCount)
  {
    g, idxCount, played := g0, 0, [];
    while !AnyLost(lost, g, players) && idxCount < stopAtRound
      invariant idxCount <= stopAtRound
      invariant g == AfterRounds(play, g0, players, idxCount)
      invariant played == Repeat(players, idxCount)
      invariant forall k :: 0 <= k < idxCount ==> !AnyLost(lost, AfterRounds(play, g0, players, k), players)
      decreases stopAtRound - idxCount
    {
      var round;
      g, round := PlayOneRound(play, g, players);
      played := played + round;
      idxCount := idxCount + 1;
    }
  }

  /** The exit condition fixes the number of rounds: the loop has exactly one
      possible outcome. */
  lemma LoopExitUnique<G, P>(play: (G, P) -> G, lost: (G, P) -> bool, g0: G, players: seq<P>,
                             stopAtRound: nat, m: nat, n: nat)
    requires LoopExit(play, lost, g0, players, stopAtRound, m)
    requires LoopExit(play, lost, g0, players, stopAtRound, n)
    ensures m == n
  {
  }

  /** If nobody has lost at the start of any round before the bound, the
      loop plays exactly `stopAtRound` rounds. */
  lemma NoLossPlaysAllRounds<G, P>(play: (G, P) -> G, lost: (G, P) -> bool, g0: G, players: seq<P>,
                                   stopAtRound: nat, rounds: nat)
    requires forall k :: 0 <= k < stopAtRound ==> !AnyLost(lost, AfterRounds(play, g0, players, k), players)
    requires LoopExit(play, lost, g0, players, stopAtRound, rounds)
    ensures rounds == stopAtRound
  {
  }

  /** A player who has lost before the first round stops the loop at once. */
  lemma LostAtStartPlaysNothing<G, P>(play: (G, P) -> G, lost: (G, P) -> bool, g0: G, players: seq<P>,
                                      stopAtRound: nat, rounds: nat, i: nat)
    requires i < |players| && lost(g0, players[i])
    requires LoopExit(play, lost, g0, players, stopAtRound, rounds)
    ensures rounds == 0
  {
    AnyLostIff(lost, g0, players);
    assert AnyLost(lost, AfterRounds(play, g0, players, 0), players);
  }

  /** `k` rounds play `|players| * k` turns. */
  lemma {:induction false} RepeatLength<P>(players: seq<P>, k: nat)
    ensures |Repeat(players, k)| == |players| * k
  {
    if k > 0 {
      RepeatLength(players, k - 1);
    }
  }

  /** Turn `j` of round `r` is played by the `j`-th player of the list. */
  lemma {:induction false} RepeatAt<P>(players: seq<P>, k: nat, r: nat, j: nat)
    requires r < k && j < |players|
    ensures |Repeat(players, k)| == |players| * k
    ensures Repeat(players, k)[|players| * r + j] == players[j]
  {
    RepeatLength(players, k);
    RepeatLength(players, k - 1);
    if r < k - 1 {
      RepeatAt(players, k - 1, r, j);
      assert |players| * r + j < |players| * (k - 1) by {
        assert |players| * r + |players| <= |players| * (k - 1);
      }
    } else {
      assert |players| * r == |players| * (k - 1);
    }
  }

  /** The script's configuration, two players and a bound of five rounds,
      with no player losing: the loop plays five rounds, ten turns. */
  lemma ScriptRoundsWithoutLoss<G, P>(play: (G, P) -> G, lost: (G, P) -> bool, g0: G, players: seq<P>,
                                      rounds: nat)
    requires |players| == 2
    requires forall k :: 0 <= k < StopAtRound ==> !AnyLost(lost, AfterRounds(play, g0, players, k), players)
    requires LoopExit(play, lost, g0, players, StopAtRound, rounds)
    ensures rounds == 5
    ensures |Repeat(players, rounds)| == 10
  {
    NoLossPlaysAllRounds(play, lost, g0, players, StopAtRound, rounds);
    RepeatLength(players, rounds);
  }

  // ---------------------------------------------------------------------
  // Advisor votes and the verdict
  // ---------------------------------------------------------------------

  /** The advisors the script creates. */
  const ConfiguredAdvisors: seq<Advisor> := [
    Advisor("Advisor A", "Aggressive"),
    Advisor("Advisor B", "Conservative"),
    Advisor("Advisor C", "Opportunistic")
  ]

  /** `votes.count(v)`. */
  function Count(votes: seq<bool>, v: bool): nat {
    if votes == [] then 0 else (if votes[0] == v then 1 else 0) + Count(votes[1..], v)
  }

  /** The verdict: accepted when approvals strictly outnumber rejections. */
  predicate Accepted(votes: seq<bool>) {
    Count(votes, true) > Count(votes, false)
  }

  /** Every vote is an approval or a rejection. */
  lemma {:induction false} CountPartition(votes: seq<bool>)
    ensures Count(votes, true) + Count(votes, false) == |votes|
  {
    if votes != [] {
      CountPartition(votes[1..]);
    }
  }

  /** The count of a value is its multiplicity in the multiset of votes. */
  lemma {:induction false} CountIsMultiplicity(votes: seq<bool>, v: bool)
    ensures Count(votes, v) == multiset(votes)[v]
  {
    if votes != [] {
      CountIsMultiplicity(votes[1..], v);
      assert votes == [votes[0]] + votes[1..];
    }
  }

  /** Majority law: a proposal is accepted exactly when more than half of
      the votes approve, or equivalently fewer than half reject; in
      particular no votes at all means rejection. */
  lemma MajorityLaw(votes: seq<bool>)
    ensures Accepted(votes) <==> 2 * Count(votes, true) > |votes|
    ensures Accepted(votes) <==> 2 * Count(votes, false) < |votes|
    ensures votes == [] ==> !Accepted(votes)
  {
    CountPartition(votes);
  }

  /** A tie can only happen with an even number of votes, and it rejects. */
  lemma TieRejects(votes: seq<bool>)
    requires Count(votes, true) == Count(votes, false)
    ensures |votes| % 2 == 0
    ensures !Accepted(votes)
  {
    CountPartition(votes);
  }

  /** The verdict depends only on how many votes go each way: any
      reordering of the votes gives the same counts and the same verdict. */
  lemma VerdictOrderIndependent(a: seq<bool>, b: seq<bool>)
    requires multiset(a) == multiset(b)
    ensures Count(a, true) == Count(b, true) && Count(a, false) == Count(b, false)
    ensures Accepted(a) == Accepted(b)
  {
    CountIsMultiplicity(a, true);
    CountIsMultiplicity(a, false);
    CountIsMultiplicity(b, true);
    CountIsMultiplicity(b, false);
  }

  /** With the three configured advisors the proposal is accepted exactly
      when at least two of them approve. */
  lemma ConfiguredPanelNeedsTwo(votes: seq<bool>)
    requires |votes| == |ConfiguredAdvisors|
    ensures Accepted(votes) <==> Count(votes, true) >= 2
  {
    CountPartition(votes);
  }

  /** The vote loop: one classified vote per advisor, in advisor order. Each
      advisor comes with the response the decision maker gave it. */
  method CollectVotes(consulted: seq<(Advisor, Response)>) returns (votes: seq<bool>)
    ensures |votes| == |consulted|
    ensures forall i :: 0 <= i < |consulted| ==> votes[i] == ParseAdvisorResponse(consulted[i].1)
  {
    votes := [];
    for i := 0 to |consulted|
      invariant |votes| == i
      invariant forall j :: 0 <= j < i ==> votes[j] == ParseAdvisorResponse(consulted[j].1)
    {
      var vote := ParseAdvisorResponse(consulted[i].1);
      votes := votes + [vote];
    }
  }

  /** The vote and its verdict: the proposal is accepted exactly when a
      strict majority of the consulted advisors approve. */
  method DecideProposal(consulted: seq<(Advisor, Response)>) returns (votes: seq<bool>, accepted: bool)
    ensures |votes| == |consulted|
    ensures forall i :: 0 <= i < |consulted| ==> votes[i] == ParseAdvisorResponse(consulted[i].1)
    ensures Count(votes, true) + Count(votes, false) == |consulted|
    ensures accepted <==> Count(votes, true) > Count(votes, false)
    ensures accepted <==> 2 * Count(votes, true) > |consulted|
  {
    votes := CollectVotes(consulted);
    accepted := Accepted(votes);
    CountPartition(votes);
    MajorityLaw(votes);
  }
}
