/**
 One client's session in `websocket_endpoint` (backend/servidor.py), as pure
 steps: the cookie gate on connection, and the dispatch of one received
 message. Sending, receiving and JSON decoding are left to the caller; a step
 returns the reply meant for the sender and whether fresh results must be
 broadcast to every open connection.
 */
module ServerSession {
  import opened Wrappers
  import opened ServerPoll
  import Cookies

  /** The only action the session acts upon. */
  const VoteAction: string := "votar"

  const MissingCookieMessage: string := "Cookie de usuário não encontrado. Recarregue a página."
  const RejectedVoteMessage: string := "Voce ja votou nesta enquete!"

  /** The confirmation sent with `voto_registrado`. */
  function ConfirmationMessage(option: string): string {
    "Voto em " + option + " registrado com sucesso!"
  }

  /** Handle of one open connection in `conexoes_ativas`. */
  type ConnId = nat

  /**
   A decoded client message: the `acao` field and the `opcao` field, each
   absent or a string (other JSON values never equal `'votar'` and never
   name an option).
   */
  datatype Request = Request(action: Option<string>, option: Option<string>)

  /** A message sent to the requesting client alone. */
  datatype Reply =
    | VoteRegistered(option: string, message: string)   // `voto_registrado`
    | Error(message: string)                            // `erro`

  /** What became of a connection attempt. */
  datatype Session =
    | Refused(notice: Reply)                  // error sent, connection closed
    | Active(voter: string, hasVoted: bool)   // poll and results (with `ja_votou`) sent

  /** The connection registry after the gate, and the session it opened (or not). */
  datatype Gate = Gate(registry: seq<ConnId>, session: Session)

  /**
   The outcome of one received message. `Aborted` is the `KeyError` raised
   when a vote request has no `opcao`: it ends the session's loop without a
   reply and without touching the tally.
   */
  datatype Step =
    | Handled(state: State, reply: Option<Reply>, broadcast: bool)
    | Aborted

  /**
   The cookie gate, given what `obter_usuario_id` returned for the
   connection's Cookie header (`Cookies.UserId`): a missing or empty id gets
   the error and the connection is closed before it is registered; otherwise
   the connection is appended to the registry and told whether its id has
   already voted.
   */
  function Connect(s: State, registry: seq<ConnId>, conn: ConnId, userId: Option<string>): (g: Gate)
    ensures g.session.Refused? <==> userId == None || userId == Some("")
    ensures g.session.Refused? ==>
      g.registry == registry && g.session.notice == Error(MissingCookieMessage)
    ensures g.session.Active? ==>
      && userId == Some(g.session.voter)
      && g.registry == registry + [conn]
      && (g.session.hasVoted <==> g.session.voter in s.voted)
  {
    match userId
    case None => Gate(registry, Refused(Error(MissingCookieMessage)))
    case Some(id) =>
      if id == "" then Gate(registry, Refused(Error(MissingCookieMessage)))
      else Gate(registry + [conn], Active(id, id in s.voted))
  }

  /**
   The gate on the Cookie header itself: the connection is refused exactly
   when no segment defines `usuario_id`, or the last one that does gives it
   an empty value.
   */
  lemma GateOnHeader(s: State, registry: seq<ConnId>, conn: ConnId, header: string)
    ensures var cookies := Cookies.Segments(header);
      Connect(s, registry, conn, Cookies.UserId(header)).session.Refused? <==>
        || (forall i :: 0 <= i < |cookies| ==> !Cookies.DefinedAt(cookies, i, Cookies.UserIdCookie))
        || (exists i :: Cookies.LastDefinedAt(cookies, i, Cookies.UserIdCookie) && cookies[i].value.value == "")
  {
  }

  /** A connection without a Cookie header is refused and never registered. */
  lemma NoHeaderRefused(s: State, registry: seq<ConnId>, conn: ConnId)
    ensures Connect(s, registry, conn, Cookies.UserId("")) == Gate(registry, Refused(Error(MissingCookieMessage)))
  {
  }

  /**
   One received message from `voter`. Anything but a `votar` action is
   ignored. A vote goes to `registrar_voto`: on success the sender is
   confirmed and fresh results are broadcast; on failure, a duplicate and an
   unknown option alike, the sender alone gets the same error.
   */
  function Dispatch(s: State, voter: string, req: Request): (r: Step)
    ensures req.action != Some(VoteAction) ==> r == Handled(s, None, false)
    ensures req.action == Some(VoteAction) && req.option.None? ==> r.Aborted?
    ensures req.action == Some(VoteAction) && req.option.Some? ==>
      var option := req.option.value;
      if voter !in s.voted && option in s.votes then
        && r.Handled?
        && r.reply == Some(VoteRegistered(option, ConfirmationMessage(option)))
        && r.broadcast
        && r.state.voted == s.voted + {voter}
        && r.state.votes == s.votes[option := s.votes[option] + 1]
      else
        r == Handled(s, Some(Error(RejectedVoteMessage)), false)
    ensures r.Handled? && Valid(s) ==> Valid(r.state)
  {
    if req.action != Some(VoteAction) then Handled(s, None, false)
    else
      match req.option
      case None => Aborted
      case Some(option) =>
        var v := RegisterVote(s, option, voter);
        if v.accepted then
          Handled(v.state, Some(VoteRegistered(option, ConfirmationMessage(option))), true)
        else
          Handled(s, Some(Error(RejectedVoteMessage)), false)
  }

  /** One message received by the session of `voter`. */
  datatype Event = Event(voter: string, req: Request)

  /** The state after a run of messages, and the voters confirmed along the way. */
  datatype Outcome = Outcome(state: State, confirmed: seq<string>)

  /**
   The state after the server has handled `events` (from any sessions,
   interleaved) in order. An aborted step ends only its own session and
   leaves the state alone.
   */
  function Run(s: State, events: seq<Event>): Outcome
    decreases |events|
  {
    if events == [] then Outcome(s, [])
    else
      var e := events[0];
      match Dispatch(s, e.voter, e.req)
      case Aborted => Run(s, events[1..])
      case Handled(s', reply, _) =>
        var rest := Run(s', events[1..]);
        if reply.Some? && reply.value.VoteRegistered? then Outcome(rest.state, [e.voter] + rest.confirmed)
        else rest
  }

  /** No voter appears twice, and none was recorded before. */
  ghost predicate NewVoters(confirmed: seq<string>, voted: set<string>) {
    && (forall i, j :: 0 <= i < j < |confirmed| ==> confirmed[i] != confirmed[j])
    && (forall i :: 0 <= i < |confirmed| ==> confirmed[i] !in voted)
  }

  /** Prepending a voter who was not yet recorded keeps the voters new. */
  lemma PrependNewVoter(voter: string, rest: seq<string>, voted: set<string>)
    requires voter !in voted
    requires NewVoters(rest, voted + {voter})
    ensures NewVoters([voter] + rest, voted)
    ensures (set v | v in [voter] + rest) == {voter} + (set v | v in rest)
  {
  }

  /** What one step does to the voted set, as far as a run is concerned. */
  lemma StepEffect(s: State, e: Event)
    requires Valid(s)
    ensures Dispatch(s, e.voter, e.req).Handled? ==>
      var r := Dispatch(s, e.voter, e.req);
      && Valid(r.state)
      && r.state.poll == s.poll
      && if r.reply.Some? && r.reply.value.VoteRegistered? then
           e.voter !in s.voted && r.state.voted == s.voted + {e.voter}
         else r.state == s
  {
  }

  /**
   At most one counted vote per voter: across any interleaving of messages,
   no voter is confirmed twice nor was already recorded, the voted set grows
   by exactly the confirmed voters, and the invariant keeps holding.
   */
  lemma {:induction false} OneVotePerVoter(s: State, events: seq<Event>)
    requires Valid(s)
    ensures Valid(Run(s, events).state)
    ensures Run(s, events).state.poll == s.poll
    ensures NewVoters(Run(s, events).confirmed, s.voted)
    ensures Run(s, events).state.voted == s.voted + (set v | v in Run(s, events).confirmed)
    decreases |events|
  {
    if events != [] {
      var e := events[0];
      StepEffect(s, e);
      var r := Dispatch(s, e.voter, e.req);
      if r.Aborted? {
        OneVotePerVoter(s, events[1..]);
      } else {
        OneVotePerVoter(r.state, events[1..]);
        var rest := Run(r.state, events[1..]);
        if r.reply.Some? && r.reply.value.VoteRegistered? {
          PrependNewVoter(e.voter, rest.confirmed, s.voted);
        }
      }
    }
  }
}
