/**
 The two vote managers side by side. On the same options they accept and
 refuse exactly the same votes, even though the server's checks the voter
 first and the standalone one checks the option first; their tallies differ
 only in that the standalone one has no entries for options without votes.
 */
module Variants {
  import ServerPoll
  import StandalonePoll

  /**
   The standalone tally is the server tally without its zero entries, on
   the same options and the same voters.
   */
  ghost predicate Corresponds(a: ServerPoll.State, b: StandalonePoll.State) {
    && a.poll.options == b.poll.options
    && a.votes.Keys == ServerPoll.OptionSet(a.poll)
    && a.voted == b.voted
    && (forall o :: o in b.votes ==> o in a.votes && b.votes[o] == a.votes[o])
    && (forall o :: o in a.votes && a.votes[o] > 0 ==> o in b.votes)
  }

  /** Both managers start from corresponding states, given the same options. */
  lemma StartCorresponds(id: string, question: string, options: seq<string>)
    ensures Corresponds(
      ServerPoll.State(ServerPoll.Poll(id, question, options), map o | o in options :: 0, {}),
      StandalonePoll.State(StandalonePoll.Poll(question, options), map[], {}))
  {
  }

  /**
   The order of the two checks is unobservable: from corresponding states
   both managers give the same answer to every vote and stay corresponding.
   */
  lemma SameDecisions(a: ServerPoll.State, b: StandalonePoll.State, option: string, voter: string)
    requires Corresponds(a, b)
    ensures ServerPoll.RegisterVote(a, option, voter).accepted
        == StandalonePoll.RegisterVote(b, option, voter).accepted
    ensures Corresponds(ServerPoll.RegisterVote(a, option, voter).state,
                        StandalonePoll.RegisterVote(b, option, voter).state)
  {
  }

  /**
   The two files ship different polls: the first vote for "Jazz" is refused by
   the server's manager and accepted by the standalone one.
   */
  lemma PollsDiffer()
    ensures !ServerPoll.RegisterVote(ServerPoll.Reset(), "Jazz", "A").accepted
    ensures StandalonePoll.RegisterVote(StandalonePoll.Init(), "Jazz", "A").accepted
  {
  }

  /** The same vote attempts, as the standalone manager receives them. */
  function AsStandalone(ballots: seq<ServerPoll.Ballot>): seq<StandalonePoll.Ballot> {
    seq(|ballots|, i requires 0 <= i < |ballots| =>
      StandalonePoll.Ballot(ballots[i].voter, ballots[i].option))
  }

  /**
   Over any sequence of vote attempts the two managers stay corresponding:
   same voters recorded, same non-zero counts.
   */
  lemma {:induction false} SameReplay(a: ServerPoll.State, b: StandalonePoll.State, ballots: seq<ServerPoll.Ballot>)
    requires Corresponds(a, b)
    ensures Corresponds(ServerPoll.Replay(a, ballots), StandalonePoll.Replay(b, AsStandalone(ballots)))
    decreases |ballots|
  {
    if ballots != [] {
      var x := ballots[0];
      SameDecisions(a, b, x.option, x.voter);
      assert AsStandalone(ballots)[1..] == AsStandalone(ballots[1..]);
      SameReplay(ServerPoll.RegisterVote(a, x.option, x.voter).state,
                 StandalonePoll.RegisterVote(b, x.option, x.voter).state, ballots[1..]);
    }
  }
}
