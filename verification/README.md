# Live music poll: vote registration, modelled in Dafny

The system is a single-question live poll served over WebSockets. Each
browser carries a `usuario_id` cookie; the server keeps one fixed poll, a
tally per option and the set of ids that have voted, accepts at most one vote
per id, and pushes fresh results to every open connection after each
accepted vote.

This project models that core as immutable values and pure steps:

- `ServerPoll` (models `GerenciadorVotacao` in `backend/servidor.py`): the
  poll, the tally (`votos`), the voted set (`clientes_votaram`),
  `reiniciar_votacao`, `registrar_voto` and `obter_resultados`. The invariant
  `Valid` says two things: the tally is keyed by exactly the options, and the
  counts add up to the number of voters.
- `Cookies` (`obter_usuario_id`): Python's `split(';')`, `strip()` and
  `split('=', 1)`, the dictionary built segment by segment, and the lookup of
  `usuario_id`.
- `ServerSession` (`websocket_endpoint`): the cookie gate on connection and
  the dispatch of one received message, as pure functions. `Connect` returns
  the connection registry and the session: refused with an error notice, or
  active for a voter with its `ja_votou` flag. `Dispatch` returns the new
  state, the reply to the sender and a "broadcast requested" flag, or
  `Aborted`. The module also has a run over any interleaving of messages
  from many sessions.
- `StandalonePoll` (the alternate `GerenciadorVotacao` in
  `backend/gerenciador.py`): the same contract, but the option is checked
  before the voter, and the tally is a `defaultdict` that only holds options
  with votes.
- `Variants` relates the two managers. `StartCorresponds` shows that their
  start-up states correspond when given the same options. From there they
  make the same accept/refuse decisions on every vote. The two files do not
  ship the same poll, though: the server's `MusicPoll` has 13 options and the
  standalone `FixedPoll` 19 (`PollsDiffer`: a first vote for "Jazz" is
  refused by the server's manager and accepted by the standalone one). So `Reset` and `Init`
  do not correspond, and the comparison holds for a shared option list.
- `Tally` defines the sum of a tally's counts, independent of order, and
  proves how an increment changes it. `Wrappers` defines `Option`.

The verified properties:

- Every reachable state keeps the tally keyed by the options.
- The counts always add up to the number of voters.
- A refused vote changes nothing, whether it is a duplicate or names an unknown option.
- An accepted vote raises exactly one count by one and records exactly one voter.
- Results come back in the poll's option order, and the total equals the number of voters.
- The cookie parser returns the text after the first `=` of the last segment whose name is `usuario_id`. The segment is stripped as a whole, so white space after the value is removed but white space right after `=` is kept. Segments without `=` are ignored, and a value may itself contain `=`.
- A connection is refused before it is registered exactly when its Cookie header has no `usuario_id` or the last one is empty; a missing header is refused.
- Across any interleaving of messages, no voter is confirmed twice.

Notes on the code:

- It computes no percentages.
- It sends the same error text (`Voce ja votou nesta enquete!`) for a
  duplicate vote and for an unknown option (backend/servidor.py:190-196).
- It has no operation that redefines the poll at run time.

## Model

| member | source | states |
|---|---|---|
| ServerPoll.Reset | backend/servidor.py:37-51 | Resetting installs the music poll. The tally's keys are exactly its options and every count is 0. The voted set is empty and the invariant holds. |
| ServerPoll.RegisterVote | backend/servidor.py:58-69 | A vote is accepted iff the voter has not voted and the option has a tally entry. A voter who already voted is refused for any option, even an invalid one. A refusal returns the state unchanged. Acceptance raises only the chosen count by 1, leaves the other counts and the key set alone, and adds exactly that voter. The invariant is preserved. |
| ServerPoll.GetResults | backend/servidor.py:72-91 | Gives one entry per option, in the poll's order, with that option's current count. Also gives the poll id and question. The total is the sum of all counts, which equals the number of voters in a valid state. |
| ServerPoll.ReplayKeepsInvariant | backend/servidor.py:63-67 | Any sequence of vote attempts keeps the invariant and the poll. No recorded voter is ever removed. |
| ServerPoll.ReachableStatesAreValid | backend/servidor.py:34-51 | Every state reachable from start-up has tally keys equal to the music poll's options, and the counts sum to the number of voters. |
| ServerPoll.Scenario | backend/servidor.py:58-69 | Worked example: A votes Rock and B votes Pop, and both are accepted. A's second vote and C's vote for Jazz (not an option) are refused and leave Rock 1, Pop 1, voters {A, B}. |
| Tally.SumRemove | backend/servidor.py:74 | For every key `k` of a tally, the sum of all counts equals `k`'s count plus the sum of the other counts. |
| Cookies.Split | backend/servidor.py:103 | `split(';')` has at least one piece, no piece contains the separator, and joining the pieces gives back the header. |
| Cookies.SplitJoin | backend/servidor.py:103 | Splitting joined pieces that contain no separator gives back those pieces. |
| Cookies.SplitAppend | backend/servidor.py:103 | Splitting `a;b` gives the pieces of `a` followed by those of `b`. |
| Cookies.Strip | backend/servidor.py:105 | `strip()` returns a result that neither starts nor ends with white space. |
| Cookies.LStripRemovesSpace | backend/servidor.py:105 | `lstrip()` drops only a prefix made entirely of white space, and keeps the rest as a suffix. |
| Cookies.RStripRemovesSpace | backend/servidor.py:105 | `rstrip()` drops only a suffix made entirely of white space, and keeps the rest as a prefix. |
| Cookies.StripIsTrim | backend/servidor.py:105 | `strip()` removes only white space at the two ends: the segment is white space, then the result, then white space. |
| Cookies.ParseSegment | backend/servidor.py:104-106 | A segment without `=` is ignored. Otherwise the stripped segment is split at its first `=`: the name has no `=`, and name, `=` and value rebuild it. |
| Cookies.JarIsLastDefinition | backend/servidor.py:102-106 | The cookie dictionary `Jar` (the function modelling the loop) holds exactly the names some segment defines. Each value comes from the last segment defining that name. |
| Cookies.Lookup | backend/servidor.py:107 | `get(name)` is None iff no segment defines the name. Otherwise it is the value from the last segment that does. |
| Cookies.UserIdIsLastDefinition | backend/servidor.py:98-109 | `UserId` (the function modelling `obter_usuario_id`) is None iff no segment defines `usuario_id`. Otherwise it is the value from the last such segment. |
| Cookies.BareSegmentIgnored | backend/servidor.py:103-104 | Appending a segment without `=` does not change the id found. |
| Cookies.ParseUserIdSegment | backend/servidor.py:105-106 | A segment of any leading white space followed by `usuario_id=v` parses to name `usuario_id` and value `v` without its trailing white space (which `strip()` removes). Any further `=` in `v` is kept. |
| Cookies.LaterCookieOverrides | backend/servidor.py:103-107 | A segment `usuario_id=v` appended at the end, after any white space (as in `"; "`) and with no `;` in `v`, overrides any earlier one. The id found is `v` without its trailing white space. |
| Cookies.NoHeaderNoId | backend/servidor.py:101-107 | A missing Cookie header, read as `""`, yields no id. |
| ServerSession.Connect | backend/servidor.py:118-150 | The gate takes the id that `obter_usuario_id` returned. A missing or empty id is refused with the cookie error and the registry is unchanged. Otherwise that id becomes the session's voter, the connection is appended to the registry, and `ja_votou` says whether the id has voted. |
| ServerSession.GateOnHeader | backend/servidor.py:101-126 | On the header itself: the connection is refused iff no segment defines `usuario_id`, or the last segment that does gives it an empty value. |
| ServerSession.NoHeaderRefused | backend/servidor.py:101-126 | A connection without a Cookie header is refused with the cookie error and the registry is unchanged. |
| ServerSession.Dispatch | backend/servidor.py:153-196 | An action other than `votar` gives no reply, no broadcast and no change. A vote without `opcao` aborts the session. An accepted vote confirms the option to the sender, requests a broadcast, adds the voter and raises that count. A refused vote (duplicate or unknown option alike) sends only the error and changes nothing. The invariant is preserved. |
| ServerSession.PrependNewVoter | backend/servidor.py:164-174 | Confirming a voter who was not yet recorded, ahead of later new voters, keeps every confirmed voter distinct and new. |
| ServerSession.OneVotePerVoter | backend/servidor.py:153-196 | Across any interleaving of messages, no voter is confirmed twice and no confirmed voter had voted before. The voted set grows by exactly the confirmed voters, and the invariant holds. |
| StandalonePoll.Init | backend/gerenciador.py:4-16 | Start-up installs the fixed poll with an empty tally and nobody voted, and the invariant holds. |
| StandalonePoll.RegisterVote | backend/gerenciador.py:18-27 | A vote is accepted iff the option is in the poll and the client has not voted. An unknown option is refused for any client. A refusal changes nothing. Acceptance adds the option as a key if needed, raises only its count by 1 (from 0 when absent), and adds that client. The invariant (only poll options as keys, each count at least 1, sum equals number of voters) is preserved. |
| StandalonePoll.GetResults | backend/gerenciador.py:29-33 | Results carry the question and every option's count. In a valid state the data has no stray key and no zero count, and it sums to the number of voters. |
| StandalonePoll.ReplayKeepsInvariant | backend/gerenciador.py:18-27 | Any sequence of vote attempts keeps the invariant and the poll. No recorded client is removed. |
| StandalonePoll.PollIsFixed | backend/gerenciador.py:35-36 | After any votes, `obter_enquete_atual` still returns the poll from start-up. The results never hold a stray option or a zero count. |
| Variants.StartCorresponds | backend/gerenciador.py:4-16 | Given the same options, the server's start-up state (a zero count per option, nobody voted) and the standalone manager's (an empty `defaultdict`, nobody voted) correspond. This is the premise `SameReplay` needs. |
| Variants.PollsDiffer | backend/gerenciador.py:6-27 | The two managers start with different polls: from start-up, a vote for "Jazz" is refused by the server's manager (its 13 options lack it) and accepted by the standalone one. |
| Variants.SameDecisions | backend/gerenciador.py:18-27 | Checking the option first or the voter first gives the same answer. From corresponding states, both managers accept or refuse each vote alike and stay corresponding. |
| Variants.SameReplay | backend/gerenciador.py:15-27 | Over any sequence of vote attempts, the two managers record the same voters and the same non-zero counts. |

## Left out

- The HTTP side is not modelled: FastAPI/uvicorn wiring, CORS, the static mounts and the file-serving endpoints (backend/servidor.py:17-29, 220-279). These are HTTP and filesystem I/O.
- Cookie issuing is not modelled: `_gerar_id_usuario`, `/obter-usuario-id` and the `Set-Cookie` in `/`. They call `secrets.token_hex`, and ids are treated as opaque strings.
- Socket I/O and JSON are not modelled: sending, receiving, `json.loads` and the broadcast loop over `conexoes_ativas`. A step returns the reply and a broadcast flag. The broadcast payload is what `obter_resultados` returns when backend/servidor.py:177 runs, which may include other sessions' votes.
- The broadcast loop removes entries from the list it iterates, so it skips the next connection after a failure. No failure-isolation property is claimed.
- Removal on `WebSocketDisconnect` is not modelled. It is registry bookkeeping outside the vote path.
- ServerSession.Dispatch: an aborted session (missing `opcao`) stays in `conexoes_ativas`, because only `WebSocketDisconnect` is caught. The model only reports `Aborted`.
- ServerSession.Dispatch: JSON values of other types for `acao` or `opcao` are not modelled. An `acao` that is not a string never equals `'votar'`. An unhashable `opcao` would raise in `opcao in self.votos`.
- ServerSession.Connect: the initial poll and results messages are summarised as `hasVoted`. The results themselves are `GetResults`.
- Cookies.UserIdIsLastDefinition: the `try/except` in `obter_usuario_id` is not modelled. Nothing in the parse of a string header raises. Starlette's handling of several `Cookie` headers is also left out.
- Concurrency is not modelled. Asyncio runs one coroutine at a time and `registrar_voto` itself has no suspension point, so each vote registration is atomic; the session code around it is not.
- ServerSession.Dispatch: the `await websocket.send_json` of the confirmation (backend/servidor.py:170) lies between `registrar_voto` (164) and `obter_resultados` (177). Other sessions may register votes there, so the broadcast can carry a later tally than the state `Dispatch` returns.
- ServerSession.Connect: the registry append (backend/servidor.py:132) and the `ja_votou` read (142) are separated by the `await` at line 136. The voter may vote from another connection in between, so `hasVoted` is the value at the time of the read, not at registration.
- `print` logging is not modelled.
- Percentages and poll redefinition are left out because the code has neither.
- The front end (`frontend/script.js`) is not modelled.
- StandalonePoll.PollIsFixed: `obter_enquete_atual` (backend/gerenciador.py:35-36) returns the live `enquete_atual` dictionary. A caller that mutates it or its `opcoes` list changes the poll, and the membership test at line 19 then uses the changed list. The model returns an immutable value, so the property holds only for callers that do not mutate what they get back.
- StandalonePoll.GetResults: `dict(self.votos)` (backend/gerenciador.py:32) keeps insertion order, so the keys of `dados` come in the order in which each option first got a vote. The model returns a `map`, which has no order, so that key order is not modelled.
- StandalonePoll.GetPoll has no contract of its own, because it returns the poll it holds. That the poll never changes is `StandalonePoll.PollIsFixed`.
