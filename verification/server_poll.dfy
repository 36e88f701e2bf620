/**
 The vote manager the server uses (`GerenciadorVotacao` in backend/servidor.py).
 It holds one fixed poll, a tally with an entry for every option, and the set
 of voter ids (cookie values) that have already voted.
 */
module ServerPoll {
  import opened Tally

  /** `enquete_atual`: the poll's id, its question and its ordered options. */
  datatype Poll = Poll(id: string, question: string, options: seq<string>)

  /** `votos` (the tally) and `clientes_votaram` (who has voted). */
  datatype State = State(poll: Poll, votes: map<string, nat>, voted: set<string>)

  /** What `registrar_voto` returns, together with the state it leaves. */
  datatype Vote = Vote(accepted: bool, state: State)

  /** One `{'opcao', 'votos'}` entry of the results. */
  datatype Entry = Entry(option: string, votes: nat)

  /** The dictionary `obter_resultados` returns. */
  datatype Results = Results(pollId: string, question: string, entries: seq<Entry>, total: nat)

  /** One vote attempt: who is voting and for which option. */
  datatype Ballot = Ballot(voter: string, option: string)

  /** The poll `reiniciar_votacao` installs; the server offers no other. */
  const MusicPoll: Poll := Poll(
    "musical",
    "Qual seu gênero musical favorito?",
    ["Rock", "Pop", "Funk", "Sertanejo", "Piseiro",
     "Axe", "Samba", "Eletronica", "Forro", "Rap",
     "MPB", "Pagode", "Reggae"])

  /** The options of a poll, as a set. */
  function OptionSet(p: Poll): set<string> {
    set o | o in p.options
  }

  /**
   The manager's invariant: the tally has exactly one entry per option, and
   every counted vote belongs to exactly one voter.
   */
  ghost predicate Valid(s: State) {
    && s.votes.Keys == OptionSet(s.poll)
    && Sum(s.votes) == |s.voted|
  }

  /**
   `reiniciar_votacao` (also what `__init__` does): install the music poll
   with a zero count for each option and nobody marked as having voted.
   */
  function Reset(): (s: State)
    ensures s.poll == MusicPoll
    ensures s.votes.Keys == OptionSet(MusicPoll)
    ensures forall o :: o in s.votes ==> s.votes[o] == 0
    ensures s.voted == {}
    ensures Valid(s)
  {
    var votes := map o | o in MusicPoll.options :: 0;
    SumZero(votes);
    State(MusicPoll, votes, {})
  }

  /**
   `registrar_voto`: a voter who has already voted is refused whatever the
   option; otherwise an option without a tally entry is refused; otherwise
   the option's count goes up by one and the voter is recorded.
   */
  function RegisterVote(s: State, option: string, voter: string): (r: Vote)
    ensures r.accepted <==> voter !in s.voted && option in s.votes
    ensures !r.accepted ==> r.state == s
    ensures r.state.poll == s.poll
    ensures r.accepted ==>
      && r.state.votes.Keys == s.votes.Keys
      && r.state.votes[option] == s.votes[option] + 1
      && (forall o :: o in s.votes && o != option ==> r.state.votes[o] == s.votes[o])
      && r.state.voted == s.voted + {voter}
    ensures Valid(s) ==> Valid(r.state)
  {
    if voter in s.voted then
      Vote(false, s)
    else if option in s.votes then
      SumIncrement(s.votes, option);
      Vote(true, State(s.poll, s.votes[option := s.votes[option] + 1], s.voted + {voter}))
    else
      Vote(false, s)
  }

  /**
   `obter_resultados`: the total of all counts, and one entry per option in
   the poll's own order carrying that option's count. Reading an option that
   has no tally entry raises `KeyError` in the source, hence the requirement.
   The state is a value, so nothing about it changes.
   */
  method GetResults(s: State) returns (r: Results)
    requires forall o :: o in s.poll.options ==> o in s.votes
    ensures r.pollId == s.poll.id && r.question == s.poll.question
    ensures |r.entries| == |s.poll.options|
    ensures forall i :: 0 <= i < |r.entries| ==>
      r.entries[i] == Entry(s.poll.options[i], s.votes[s.poll.options[i]])
    ensures r.total == Sum(s.votes)
    ensures Valid(s) ==> r.total == |s.voted|
  {
    var total := 0;
    var rest := s.votes;
    while rest != map[]
      invariant total + Sum(rest) == Sum(s.votes)
      decreases rest.Keys
    {
      var k :| k in rest;
      SumRemove(rest, k);
      total := total + rest[k];
      rest := rest - {k};
    }
    var entries := [];
    for i := 0 to |s.poll.options|
      invariant |entries| == i
      invariant forall j :: 0 <= j < i ==>
        entries[j] == Entry(s.poll.options[j], s.votes[s.poll.options[j]])
    {
      var o := s.poll.options[i];
      entries := entries + [Entry(o, s.votes[o])];
    }
    r := Results(s.poll.id, s.poll.question, entries, total);
  }

  /** The state after the manager has processed `ballots` in order. */
  function Replay(s: State, ballots: seq<Ballot>): State
    decreases |ballots|
  {
    if ballots == [] then s
    else Replay(RegisterVote(s, ballots[0].option, ballots[0].voter).state, ballots[1..])
  }

  /**
   Whatever votes arrive, the poll stays the same, nobody is ever removed from
   the voted set, and the invariant keeps holding.
   */
  lemma {:induction false} ReplayKeepsInvariant(s: State, ballots: seq<Ballot>)
    requires Valid(s)
    ensures Valid(Replay(s, ballots))
    ensures Replay(s, ballots).poll == s.poll
    ensures s.voted <= Replay(s, ballots).voted
    decreases |ballots|
  {
    if ballots != [] {
      ReplayKeepsInvariant(RegisterVote(s, ballots[0].option, ballots[0].voter).state, ballots[1..]);
    }
  }

  /**
   Every state the server can reach from start-up keeps the tally keyed by
   exactly the music poll's options, with as many votes counted as voters.
   */
  lemma ReachableStatesAreValid(ballots: seq<Ballot>)
    ensures Valid(Replay(Reset(), ballots))
    ensures Replay(Reset(), ballots).votes.Keys == OptionSet(MusicPoll)
    ensures Sum(Replay(Reset(), ballots).votes) == |Replay(Reset(), ballots).voted|
  {
    ReplayKeepsInvariant(Reset(), ballots);
    assert Replay(Reset(), ballots).poll == MusicPoll;
  }

  /**
   A worked example on a two-option poll: "A" votes Rock and "B" votes Pop
   and both are counted; "A" then votes Pop and "C" votes Jazz (not an
   option), and both are refused without changing anything.
   */
  lemma Scenario()
    ensures var s0 := State(Poll("p", "q", ["Rock", "Pop"]), map["Rock" := 0, "Pop" := 0], {});
      var v1 := RegisterVote(s0, "Rock", "A");
      var v2 := RegisterVote(v1.state, "Pop", "B");
      var v3 := RegisterVote(v2.state, "Pop", "A");
      var v4 := RegisterVote(v3.state, "Jazz", "C");
      && v1.accepted && v2.accepted && !v3.accepted && !v4.accepted
      && v4.state == v2.state
      && v4.state.votes == map["Rock" := 1, "Pop" := 1]
      && v4.state.voted == {"A", "B"}
  {
    var s0 := State(Poll("p", "q", ["Rock", "Pop"]), map["Rock" := 0, "Pop" := 0], {});
    var v1 := RegisterVote(s0, "Rock", "A");
    assert v1.accepted;
    assert v1.state.votes == map["Rock" := 1, "Pop" := 0];
    var v2 := RegisterVote(v1.state, "Pop", "B");
    assert v2.accepted;
    assert v2.state.votes == map["Rock" := 1, "Pop" := 1];
    assert "A" in v2.state.voted;
    assert "Jazz" !in v2.state.votes;
  }
}
