/**
 The alternate vote manager of backend/gerenciador.py. Its contract matches
 the server's manager, with two differences: it checks the option before
 the voter, and its tally is a `defaultdict(int)`, so an option only gets an
 entry once somebody votes for it.
 */
module StandalonePoll {
  import opened Tally

  /** `enquete_atual`: a question and its ordered options (no id here). */
  datatype Poll = Poll(question: string, options: seq<string>)

  /** `votos` (entries only for options with votes) and `clientes_votaram`. */
  datatype State = State(poll: Poll, votes: map<string, nat>, voted: set<string>)

  /** What `registrar_voto` returns, together with the state it leaves. */
  datatype Vote = Vote(accepted: bool, state: State)

  /** The dictionary `obter_resultados` returns: the question and a copy of the tally. */
  datatype Results = Results(question: string, data: map<string, nat>)

  /** One vote attempt: which client votes for which option. */
  datatype Ballot = Ballot(client: string, option: string)

  /** The fixed poll `__init__` installs. */
  const FixedPoll: Poll := Poll(
    "Qual seu estilo musical favorito?",
    ["Rock", "Pop", "Sertanejo", "Funk", "MPB", "Eletrônica",
     "Hip Hop/Rap", "Samba", "Pagode", "Forró", "Axé",
     "Jazz", "Reggae", "Metal", "Gospel", "Sertanejo Universitário",
     "Funk Carioca", "Brega", "Arrocha"])

  /** The count of `option`, reading a missing entry as zero like a `defaultdict`. */
  function Count(votes: map<string, nat>, option: string): nat {
    if option in votes then votes[option] else 0
  }

  /**
   The invariant: the tally only holds options of the poll, only with a
   positive count, and the counts add up to the number of voters.
   */
  ghost predicate Valid(s: State) {
    && (forall o :: o in s.votes ==> o in s.poll.options && s.votes[o] >= 1)
    && Sum(s.votes) == |s.voted|
  }

  /** `__init__`: the fixed poll, an empty tally and nobody having voted. */
  function Init(): (s: State)
    ensures s.poll == FixedPoll
    ensures |s.votes| == 0 && |s.voted| == 0
    ensures Valid(s)
  {
    State(FixedPoll, map[], {})
  }

  /**
   `registrar_voto`: an option outside the poll is refused whoever votes;
   otherwise a client that has already voted is refused; otherwise the
   option's count (zero if absent) goes up by one and the client is recorded.
   */
  function RegisterVote(s: State, option: string, client: string): (r: Vote)
    ensures r.accepted <==> option in s.poll.options && client !in s.voted
    ensures !r.accepted ==> r.state == s
    ensures r.state.poll == s.poll
    ensures r.accepted ==>
      && r.state.votes.Keys == s.votes.Keys + {option}
      && r.state.votes[option] == Count(s.votes, option) + 1
      && (forall o :: o in s.votes && o != option ==> r.state.votes[o] == s.votes[o])
      && r.state.voted == s.voted + {client}
    ensures Valid(s) ==> Valid(r.state)
  {
    if option !in s.poll.options then
      Vote(false, s)
    else if client in s.voted then
      Vote(false, s)
    else
      if option in s.votes then
        SumIncrement(s.votes, option);
        Vote(true, State(s.poll, s.votes[option := s.votes[option] + 1], s.voted + {client}))
      else
        SumInsert(s.votes, option);
        Vote(true, State(s.poll, s.votes[option := 1], s.voted + {client}))
  }

  /**
   `obter_resultados`: the question and the tally as a plain dictionary. In a
   valid state that dictionary names only options of the poll, each with at
   least one vote, and its counts add up to the number of voters.
   */
  function GetResults(s: State): (r: Results)
    ensures r.question == s.poll.question
    ensures forall o :: o in s.poll.options ==> Count(r.data, o) == Count(s.votes, o)
    ensures Valid(s) ==> forall o :: o in r.data ==> o in s.poll.options && r.data[o] >= 1
    ensures Valid(s) ==> Sum(r.data) == |s.voted|
  {
    Results(s.poll.question, s.votes)
  }

  /** `obter_enquete_atual`: the poll the manager holds. */
  function GetPoll(s: State): Poll {
    s.poll
  }

  /** The state after the manager has processed `ballots` in order. */
  function Replay(s: State, ballots: seq<Ballot>): State
    decreases |ballots|
  {
    if ballots == [] then s
    else Replay(RegisterVote(s, ballots[0].option, ballots[0].client).state, ballots[1..])
  }

  /** Processing votes keeps the invariant, the poll, and everyone already recorded. */
  lemma {:induction false} ReplayKeepsInvariant(s: State, ballots: seq<Ballot>)
    requires Valid(s)
    ensures Valid(Replay(s, ballots))
    ensures Replay(s, ballots).poll == s.poll
    ensures s.voted <= Replay(s, ballots).voted
    decreases |ballots|
  {
    if ballots != [] {
      ReplayKeepsInvariant(RegisterVote(s, ballots[0].option, ballots[0].client).state, ballots[1..]);
    }
  }

  /**
   The poll is fixed: after any sequence of votes `obter_enquete_atual` still
   returns the poll `__init__` installed, and the results never hold a stray
   option or a zero count.
   */
  lemma PollIsFixed(ballots: seq<Ballot>)
    ensures GetPoll(Replay(Init(), ballots)) == FixedPoll
    ensures forall o :: o in GetResults(Replay(Init(), ballots)).data ==>
      o in FixedPoll.options && GetResults(Replay(Init(), ballots)).data[o] >= 1
  {
    ReplayKeepsInvariant(Init(), ballots);
  }
}
