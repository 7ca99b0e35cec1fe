/**
 * The two rendezvous loops. The client (`client::connect::process`) picks an
 * agent, publishes its encrypted candidates and then polls for the agent's
 * reply once a second; the agent (`agent::process`) registers its identity
 * and then polls for client records every ten seconds, answering each with
 * `proxy`.
 *
 * Every relay request and every pause is an `Action`; a loop is a function
 * from the events it sees (an interrupt, or one poll's query response) to the
 * trace of actions it issues. `Deliver` applies a request to the relay's
 * store, connecting the traces to the `Store` model.
 */
module Rendezvous {
  import opened Wrappers
  import opened Records
  import opened Candidates
  import opened Gathering
  import opened Prober
  import opened Envelope
  import opened Settings
  import Store

  /** Gathering rounds the client runs before publishing. */
  const GatherRounds: nat := 5
  const ClientPollSeconds: nat := 1
  const AgentPollSeconds: nat := 10

  /** A request to the relay, or a pause between polls. */
  datatype Action =
    | PublishAgent(name: string, agent: Agent)
    | QueryAgent(name: string)
    | PublishClientSdp(uuid: string, record: Sdp)
    | QueryAgentSdp(uuid: string)
    | DeleteClientSdp(uuid: string, record: Sdp)
    | QueryClientSdp(uuid: string)
    | PublishAgentSdp(uuid: string, record: Sdp)
    | Sleep(seconds: nat)

  predicate IsPublish(a: Action) {
    a.PublishAgent? || a.PublishClientSdp? || a.PublishAgentSdp?
  }

  // ----- Client: choosing the agent -----

  datatype ClientError =
    | NoAgents
    | AmbiguousWithoutUuid
    | NoAgentWithUuid
    | GatherFailed(gather: GatherError)
    | BadKey
    | EncryptFailed(crypto: CryptoError)

  /** The agents whose uuid is `uuid`, in their original order. */
  function WithUuid(agents: seq<Agent>, uuid: string): (r: seq<Agent>)
    ensures forall i :: 0 <= i < |r| ==> r[i] in agents && r[i].uuid == uuid
    ensures forall a :: a in agents && a.uuid == uuid ==> a in r
    ensures r == [] <==> forall i :: 0 <= i < |agents| ==> agents[i].uuid != uuid
  {
    if agents == [] then []
    else (if agents[0].uuid == uuid then [agents[0]] else []) + WithUuid(agents[1..], uuid)
  }

  /**
   * The agent checks of `process`: no agent is an error; one agent is
   * accepted whatever `uuid` says; among several, an empty `uuid` is an
   * error and otherwise only the agents carrying it remain, at least one.
   */
  function SelectAgent(agents: seq<Agent>, uuid: string): (r: Result<seq<Agent>, ClientError>)
    ensures r == Err(NoAgents) <==> agents == []
    ensures |agents| == 1 ==> r == Ok(agents)
    ensures r == Err(AmbiguousWithoutUuid) <==> |agents| > 1 && uuid == ""
    ensures r == Err(NoAgentWithUuid) <==>
      (|agents| > 1 && uuid != "" && forall a :: a in agents ==> a.uuid != uuid)
    ensures r.Ok? ==> |r.value| > 0 && forall i :: 0 <= i < |r.value| ==> r.value[i] in agents
    ensures r.Ok? && |agents| > 1 ==> forall i :: 0 <= i < |r.value| ==> r.value[i].uuid == uuid
  {
    if agents == [] then Err(NoAgents)
    else if |agents| == 1 then Ok(agents)
    else if uuid == "" then Err(AmbiguousWithoutUuid)
    else
      var matching := WithUuid(agents, uuid);
      if matching == [] then Err(NoAgentWithUuid)
      else
        assert exists a :: a in agents && a.uuid == uuid by { assert matching[0] in agents; }
        Ok(matching)
  }

  // ----- Client: the published record -----

  /**
   * What the client keeps once its record is out: the uuid it uses for its
   * relay keys, its key, its gathered candidates and the record itself.
   */
  datatype Session = Session(peer: string, cipher: Cipher, local: IceEndpoint, record: Sdp)

  /**
   * `local` is what five good gathering rounds report: one candidate per
   * address, each the last one reported for it, and every address covered.
   */
  ghost predicate Gathered(rounds: Rounds, local: IceEndpoint)
    requires FirstFailure(rounds, GatherRounds).None?
  {
    var all := Reported(rounds, GatherRounds);
    var cs := local.candidates;
    && (forall i :: 0 <= i < |cs| ==> LastAt(all, cs[i].address) == Some(cs[i]))
    && (forall c :: c in all ==> exists i :: 0 <= i < |cs| && cs[i].address == c.address)
  }

  /** Gathers, derives the key and seals the candidate text (connect.rs lines 47-52). */
  method Prepare(config: Configurations, peer: string, udp: bool, remotePort: Port,
                 rounds: Rounds, aead: Aead, nonce: Option<Nonce>) returns (r: Result<Session, ClientError>)
    ensures FirstFailure(rounds, GatherRounds).Some? ==>
      r == Err(GatherFailed(RoundFailed(FirstFailure(rounds, GatherRounds).value)))
    ensures FirstFailure(rounds, GatherRounds).None? && New(config.password).None? ==> r == Err(BadKey)
    ensures r.Ok? ==> (r.value.peer == peer && New(config.password) == Some(r.value.cipher)
      && r.value.record.isUdp == udp && r.value.record.port == remotePort
      && Encrypt(aead, r.value.cipher, nonce, ToString(r.value.local)) == Ok(r.value.record.sdp))
    ensures r.Ok? ==> forall i, j :: 0 <= i < j < |r.value.local.candidates| ==>
      r.value.local.candidates[i].address != r.value.local.candidates[j].address
    ensures r.Ok? ==> FirstFailure(rounds, GatherRounds).None? && Gathered(rounds, r.value.local)
    ensures FirstFailure(rounds, GatherRounds).None? && New(config.password).Some? ==>
      r.Ok? || (r.error.EncryptFailed? && r.error.crypto == (if nonce.None? then RandomFailed else SealFailed))
    ensures (FirstFailure(rounds, GatherRounds).None? && New(config.password).Some? && nonce.Some?
      && forall p :: aead.seal(New(config.password).value.key, nonce.value, p).Some?) ==> r.Ok?
  {
    var gathered := Collect(rounds, GatherRounds);
    if gathered.Err? {
      return Err(GatherFailed(gathered.error));
    }
    var local := gathered.value;
    var cipher := New(config.password);
    if cipher.None? {
      return Err(BadKey);
    }
    var blob := Encrypt(aead, cipher.value, nonce, ToString(local));
    if blob.Err? {
      return Err(EncryptFailed(blob.error));
    }
    return Ok(Session(peer, cipher.value, local, Sdp(blob.value, udp, remotePort)));
  }

  /**
   * The start of `process` as written: the record is published, and the
   * agent's replies looked up, under the `uuid` argument, which the
   * single-agent path never checked.
   */
  method ConnectAsWritten(config: Configurations, agents: seq<Agent>, uuid: string, udp: bool, remotePort: Port,
                          rounds: Rounds, aead: Aead, nonce: Option<Nonce>) returns (r: Result<Session, ClientError>)
    ensures SelectAgent(agents, uuid).Err? ==> r == Err(SelectAgent(agents, uuid).error)
    ensures r.Ok? ==> r.value.peer == uuid && SelectAgent(agents, uuid).Ok?
    ensures r.Ok? ==> (New(config.password) == Some(r.value.cipher)
      && Encrypt(aead, r.value.cipher, nonce, ToString(r.value.local)) == Ok(r.value.record.sdp)
      && r.value.record.isUdp == udp && r.value.record.port == remotePort)
    ensures r.Ok? ==> FirstFailure(rounds, GatherRounds).None? && Gathered(rounds, r.value.local)
  {
    var selected := SelectAgent(agents, uuid);
    if selected.Err? {
      return Err(selected.error);
    }
    r := Prepare(config, uuid, udp, remotePort, rounds, aead, nonce);
  }

  /**
   * The start of `process` with the relay keys taken from the agent that
   * was selected, so they always name an agent that exists.
   */
  method Connect(config: Configurations, agents: seq<Agent>, uuid: string, udp: bool, remotePort: Port,
                 rounds: Rounds, aead: Aead, nonce: Option<Nonce>) returns (r: Result<Session, ClientError>)
    ensures SelectAgent(agents, uuid).Err? ==> r == Err(SelectAgent(agents, uuid).error)
    ensures r.Ok? ==> exists i :: 0 <= i < |agents| && agents[i].uuid == r.value.peer
    ensures r.Ok? && |agents| == 1 ==> r.value.peer == agents[0].uuid
    ensures r.Ok? && |agents| > 1 ==> r.value.peer == uuid
    ensures r.Ok? ==> (New(config.password) == Some(r.value.cipher)
      && Encrypt(aead, r.value.cipher, nonce, ToString(r.value.local)) == Ok(r.value.record.sdp)
      && r.value.record.isUdp == udp && r.value.record.port == remotePort)
    ensures r.Ok? ==> FirstFailure(rounds, GatherRounds).None? && Gathered(rounds, r.value.local)
  {
    var selected := SelectAgent(agents, uuid);
    if selected.Err? {
      return Err(selected.error);
    }
    var chosen := selected.value[0];
    assert chosen in agents;
    r := Prepare(config, chosen.uuid, udp, remotePort, rounds, aead, nonce);
  }

  // ----- Client: polling -----

  /** What one client poll found. */
  datatype Poll =
    | NoReply
    | Unreadable(crypto: CryptoError)
    | Unparsable(parse: ParseError)
    | Probed(pair: Option<(Candidate, Candidate)>)

  /**
   * One client poll (connect.rs lines 65-86): only the first record counts;
   * it is decrypted, parsed and probed against the local candidates.
   */
  function ClientPoll(aead: Aead, unmarshal: Unmarshal, net: Net, s: Session, replies: seq<Sdp>): (r: Poll)
    ensures r == NoReply <==> replies == []
    ensures replies != [] ==> var text := Decrypt(aead, s.cipher, replies[0].sdp);
      && (r.Unreadable? <==> text.Err?) && (text.Err? ==> r.crypto == text.error)
      && (text.Ok? ==> var parsed := FromStr(unmarshal, text.value);
            && (r.Unparsable? <==> parsed.Err?) && (parsed.Err? ==> r.parse == parsed.error)
            && (parsed.Ok? ==> r == Probed(Test(net, s.local, parsed.value).0)))
  {
    if replies == [] then NoReply
    else match Decrypt(aead, s.cipher, replies[0].sdp)
      case Err(e) => Unreadable(e)
      case Ok(text) =>
        match FromStr(unmarshal, text)
        case Err(e) => Unparsable(e)
        case Ok(remote) => Probed(Test(net, s.local, remote).0)
  }

  /** A decrypt or parse failure leaves the poll early, skipping the pause. */
  function ClientPause(p: Poll): nat {
    if p.Unreadable? || p.Unparsable? then 0 else ClientPollSeconds
  }

  datatype ClientEvent = ClientInterrupt | ClientTick(replies: seq<Sdp>, net: Net)

  predicate IsClientInterrupt(e: ClientEvent) { e.ClientInterrupt? }

  /**
   * The client loop: each tick queries the agent's records and pauses; an
   * interrupt deletes the published record and ends the loop.
   */
  function ClientLoop(aead: Aead, unmarshal: Unmarshal, s: Session, events: seq<ClientEvent>): (trace: seq<Action>)
    ensures forall i :: 0 <= i < |trace| ==> !IsPublish(trace[i])
    ensures forall i :: 0 <= i < |trace| && trace[i].DeleteClientSdp? ==> i == |trace| - 1
    ensures forall i :: 0 <= i < |trace| && (trace[i].QueryAgentSdp? || trace[i].DeleteClientSdp?) ==>
      trace[i].uuid == s.peer
    ensures forall i :: 0 <= i < |trace| && trace[i].Sleep? ==> trace[i] == Sleep(ClientPollSeconds)
    decreases |events|
  {
    if events == [] then []
    else match events[0]
      case ClientInterrupt => [DeleteClientSdp(s.peer, s.record)]
      case ClientTick(replies, net) =>
        var head := ClientStep(aead, unmarshal, s, replies, net);
        var rest := ClientLoop(aead, unmarshal, s, events[1..]);
        ClientTraceAppend(s.peer, head, rest);
        head + rest
  }

  /** One tick of the client loop: the query, then the pause unless the poll left early. */
  function ClientStep(aead: Aead, unmarshal: Unmarshal, s: Session, replies: seq<Sdp>, net: Net): (head: seq<Action>)
    ensures 1 <= |head| <= 2 && head[0] == QueryAgentSdp(s.peer)
    ensures forall i :: 1 <= i < |head| ==> head[i] == Sleep(ClientPollSeconds)
  {
    var pause := ClientPause(ClientPoll(aead, unmarshal, net, s, replies));
    [QueryAgentSdp(s.peer)] + (if pause > 0 then [Sleep(pause)] else [])
  }

  /** A tick pauses exactly when its poll got past the decrypt and the parse. */
  lemma ClientStepPauses(aead: Aead, unmarshal: Unmarshal, s: Session, replies: seq<Sdp>, net: Net)
    ensures var poll := ClientPoll(aead, unmarshal, net, s, replies);
      |ClientStep(aead, unmarshal, s, replies, net)| == 2 <==> !poll.Unreadable? && !poll.Unparsable?
  {
  }

  /**
   * What the client loop may emit: no publish, a delete only last, only
   * about `peer`, and one-second pauses.
   */
  predicate ClientTrace(peer: string, trace: seq<Action>) {
    && (forall i :: 0 <= i < |trace| ==> !IsPublish(trace[i]))
    && (forall i :: 0 <= i < |trace| && trace[i].DeleteClientSdp? ==> i == |trace| - 1)
    && (forall i :: 0 <= i < |trace| && (trace[i].QueryAgentSdp? || trace[i].DeleteClientSdp?) ==>
          trace[i].uuid == peer)
    && (forall i :: 0 <= i < |trace| && trace[i].Sleep? ==> trace[i] == Sleep(ClientPollSeconds))
  }

  lemma ClientTraceAppend(peer: string, head: seq<Action>, rest: seq<Action>)
    requires forall i :: 0 <= i < |head| ==> head[i] == QueryAgentSdp(peer) || head[i] == Sleep(ClientPollSeconds)
    requires ClientTrace(peer, rest)
    ensures ClientTrace(peer, head + rest)
  {
    var t := head + rest;
    forall i | |head| <= i < |t| ensures t[i] == rest[i - |head|] { }
  }

  /**
   * `client::connect::process` from the agent lookup on: the relay is asked
   * for the agents called `name` (its answer is `agents`), the start
   * publishes the sealed record under the selected agent's uuid, and the
   * polling loop follows. Built on the corrected start, `Connect`.
   */
  method ClientRun(config: Configurations, name: string, agents: seq<Agent>, uuid: string, udp: bool,
                   remotePort: Port, rounds: Rounds, aead: Aead, nonce: Option<Nonce>, unmarshal: Unmarshal,
                   events: seq<ClientEvent>) returns (trace: seq<Action>, r: Result<Session, ClientError>)
    ensures |trace| > 0 && trace[0] == QueryAgent(name)
    ensures r.Err? <==> trace == [QueryAgent(name)]
    ensures SelectAgent(agents, uuid).Err? ==> r == Err(SelectAgent(agents, uuid).error)
    ensures r.Ok? ==> (|trace| >= 2 && trace[1] == PublishClientSdp(r.value.peer, r.value.record)
      && (exists i :: 0 <= i < |agents| && agents[i].uuid == r.value.peer)
      && trace[2..] == ClientLoop(aead, unmarshal, r.value, events))
  {
    r := Connect(config, agents, uuid, udp, remotePort, rounds, aead, nonce);
    if r.Err? {
      return [QueryAgent(name)], r;
    }
    trace := [QueryAgent(name), PublishClientSdp(r.value.peer, r.value.record)]
      + ClientLoop(aead, unmarshal, r.value, events);
  }

  /**
   * `client::connect::process` as written: the same run on the start as
   * written, so the record goes out, and the replies are looked up, under
   * the `uuid` argument.
   */
  method ClientRunAsWritten(config: Configurations, name: string, agents: seq<Agent>, uuid: string, udp: bool,
                            remotePort: Port, rounds: Rounds, aead: Aead, nonce: Option<Nonce>,
                            unmarshal: Unmarshal, events: seq<ClientEvent>)
    returns (trace: seq<Action>, r: Result<Session, ClientError>)
    ensures |trace| > 0 && trace[0] == QueryAgent(name)
    ensures r.Err? <==> trace == [QueryAgent(name)]
    ensures SelectAgent(agents, uuid).Err? ==> r == Err(SelectAgent(agents, uuid).error)
    ensures r.Ok? ==> (|trace| >= 2 && r.value.peer == uuid && trace[1] == PublishClientSdp(uuid, r.value.record)
      && trace[2..] == ClientLoop(aead, unmarshal, r.value, events))
  {
    r := ConnectAsWritten(config, agents, uuid, udp, remotePort, rounds, aead, nonce);
    if r.Err? {
      return [QueryAgent(name)], r;
    }
    trace := [QueryAgent(name), PublishClientSdp(r.value.peer, r.value.record)]
      + ClientLoop(aead, unmarshal, r.value, events);
  }

  // ----- Agent -----

  datatype AgentError = NoSignalServer

  /** The identity the agent registers, taken from its configuration. */
  function Identity(config: Configurations): Agent {
    Agent(config.uuid, config.name, config.os)
  }

  /** The start of `agent::process`: refuse to run without a relay, else register once. */
  function AgentOpening(config: Configurations): (r: Result<Action, AgentError>)
    ensures r.Err? <==> config.signalServerUrl == ""
    ensures r.Ok? ==> r.value == PublishAgent(config.name, Identity(config))
  {
    if config.signalServerUrl == "" then Err(NoSignalServer)
    else Ok(PublishAgent(config.name, Identity(config)))
  }

  /**
   * `proxy`: the reply keeps the client record's service and carries the
   * sealed text of `endpoint`, published under the agent's own uuid. An
   * encryption failure publishes nothing. `cipher` is the one built from
   * `config.password`; `AgentPoll` has already built it, and a password that
   * builds none panicked there.
   */
  function Proxy(aead: Aead, cipher: Cipher, nonce: Option<Nonce>, config: Configurations,
                 endpoint: IceEndpoint, request: Sdp): (r: Result<Action, CryptoError>)
    ensures r.Err? <==> Encrypt(aead, cipher, nonce, ToString(endpoint)).Err?
    ensures r.Ok? ==> (r.value.PublishAgentSdp? && r.value.uuid == config.uuid
      && r.value.record.isUdp == request.isUdp && r.value.record.port == request.port
      && Encrypt(aead, cipher, nonce, ToString(endpoint)) == Ok(r.value.record.sdp))
  {
    match Encrypt(aead, cipher, nonce, ToString(endpoint))
    case Err(e) => Err(e)
    case Ok(blob) => Ok(PublishAgentSdp(config.uuid, request.(sdp := blob)))
  }

  /** What one agent poll did. */
  datatype Answer =
    | NoRequest
    | KeyPanic
    | RequestUnreadable(crypto: CryptoError)
    | RequestUnparsable(parse: ParseError)
    | Answered(reply: Action)
    | ReplyFailed(crypto: CryptoError)

  /**
   * One agent poll (agent/mod.rs lines 39-52): with a record to answer,
   * the cipher is built from the password (`KeyPanic` when that panics), the
   * first client record is decrypted and parsed, and `proxy` is called with
   * the parsed endpoint and that record. A decrypt or parse failure skips
   * `proxy`.
   */
  function AgentPoll(aead: Aead, unmarshal: Unmarshal, nonce: Option<Nonce>,
                     config: Configurations, requests: seq<Sdp>): (r: Answer)
    ensures r == NoRequest <==> requests == []
    ensures r == KeyPanic <==> requests != [] && New(config.password).None?
    ensures requests != [] && New(config.password).Some? ==>
      var cipher := New(config.password).value;
      var text := Decrypt(aead, cipher, requests[0].sdp);
      && (r.RequestUnreadable? <==> text.Err?) && (text.Err? ==> r.crypto == text.error)
      && (text.Ok? ==> var parsed := FromStr(unmarshal, text.value);
            && (r.RequestUnparsable? <==> parsed.Err?) && (parsed.Err? ==> r.parse == parsed.error)
            && (parsed.Ok? ==> var reply := Proxy(aead, cipher, nonce, config, parsed.value, requests[0]);
                  && (r.Answered? <==> reply.Ok?) && (reply.Ok? ==> r.reply == reply.value)
                  && (reply.Err? ==> r == ReplyFailed(reply.error))))
    ensures r.Answered? ==> (r.reply.PublishAgentSdp? && r.reply.uuid == config.uuid
      && r.reply.record.isUdp == requests[0].isUdp && r.reply.record.port == requests[0].port)
  {
    if requests == [] then NoRequest
    else match New(config.password)
      case None => KeyPanic
      case Some(cipher) =>
        match Decrypt(aead, cipher, requests[0].sdp)
        case Err(e) => RequestUnreadable(e)
        case Ok(text) =>
          match FromStr(unmarshal, text)
          case Err(e) => RequestUnparsable(e)
          case Ok(endpoint) =>
            match Proxy(aead, cipher, nonce, config, endpoint, requests[0])
            case Err(e) => ReplyFailed(e)
            case Ok(reply) => Answered(reply)
  }

  /** Only an error out of `proxy` leaves the poll before its pause. */
  function AgentPause(a: Answer): nat {
    if a.ReplyFailed? then 0 else AgentPollSeconds
  }

  datatype AgentEvent = AgentInterrupt | AgentTick(requests: seq<Sdp>, nonce: Option<Nonce>)

  /**
   * The agent loop: each tick queries the client records under its own
   * uuid, may publish a reply, and pauses; an interrupt ends the loop with
   * no cleanup, and so does the panic of a password that builds no cipher.
   */
  function AgentLoop(aead: Aead, unmarshal: Unmarshal, config: Configurations,
                     events: seq<AgentEvent>): (trace: seq<Action>)
    ensures forall i :: 0 <= i < |trace| ==> !trace[i].PublishAgent? && !trace[i].DeleteClientSdp?
    ensures forall i :: 0 <= i < |trace| && (trace[i].QueryClientSdp? || trace[i].PublishAgentSdp?) ==>
      trace[i].uuid == config.uuid
    ensures forall i :: 0 <= i < |trace| && trace[i].Sleep? ==> trace[i] == Sleep(AgentPollSeconds)
    decreases |events|
  {
    if events == [] then []
    else match events[0]
      case AgentInterrupt => []
      case AgentTick(requests, nonce) =>
        var answer := AgentPoll(aead, unmarshal, nonce, config, requests);
        var head := AgentStep(config.uuid, answer);
        if answer.KeyPanic? then head
        else
          var rest := AgentLoop(aead, unmarshal, config, events[1..]);
          AgentTraceAppend(config.uuid, head, rest);
          head + rest
  }

  /**
   * One tick of the agent loop: the query, the reply when there is one,
   * and the pause unless `proxy` failed; a key panic stops after the query.
   */
  function AgentStep(self: string, answer: Answer): (head: seq<Action>)
    requires answer.Answered? ==> answer.reply.PublishAgentSdp? && answer.reply.uuid == self
    ensures 1 <= |head| && head[0] == QueryClientSdp(self)
    ensures AgentTrace(self, head)
    ensures answer.Answered? ==> head == [QueryClientSdp(self), answer.reply, Sleep(AgentPollSeconds)]
    ensures answer.ReplyFailed? || answer.KeyPanic? ==> head == [QueryClientSdp(self)]
    ensures answer.NoRequest? || answer.RequestUnreadable? || answer.RequestUnparsable? ==>
      head == [QueryClientSdp(self), Sleep(AgentPollSeconds)]
  {
    if answer.KeyPanic? then [QueryClientSdp(self)]
    else
      [QueryClientSdp(self)]
      + (if answer.Answered? then [answer.reply] else [])
      + (if AgentPause(answer) > 0 then [Sleep(AgentPause(answer))] else [])
  }

  /**
   * What the agent loop may emit: no registration, no delete, only about
   * `self`, and ten-second pauses.
   */
  predicate AgentTrace(self: string, trace: seq<Action>) {
    && (forall i :: 0 <= i < |trace| ==> !trace[i].PublishAgent? && !trace[i].DeleteClientSdp?)
    && (forall i :: 0 <= i < |trace| && (trace[i].QueryClientSdp? || trace[i].PublishAgentSdp?) ==>
          trace[i].uuid == self)
    && (forall i :: 0 <= i < |trace| && trace[i].Sleep? ==> trace[i] == Sleep(AgentPollSeconds))
  }

  lemma AgentTraceAppend(self: string, head: seq<Action>, rest: seq<Action>)
    requires AgentTrace(self, head) && AgentTrace(self, rest)
    ensures AgentTrace(self, head + rest)
  {
    var t := head + rest;
    forall i | |head| <= i < |t| ensures t[i] == rest[i - |head|] { }
  }

  /** `agent::process`: the opening registration followed by the loop. */
  function AgentRun(aead: Aead, unmarshal: Unmarshal, config: Configurations,
                    events: seq<AgentEvent>): (r: Result<seq<Action>, AgentError>)
    ensures r.Err? <==> config.signalServerUrl == ""
    ensures r.Ok? ==> (|r.value| > 0 && r.value[0] == PublishAgent(config.name, Identity(config))
      && forall i :: 0 < i < |r.value| ==> !r.value[i].PublishAgent?)
  {
    match AgentOpening(config)
    case Err(e) => Err(e)
    case Ok(register) =>
      var loop := AgentLoop(aead, unmarshal, config, events);
      assert forall i :: 0 < i < |[register] + loop| ==> ([register] + loop)[i] == loop[i - 1];
      Ok([register] + loop)
  }

  // ----- Through the relay -----

  /** The relay's handling of a request; queries, pauses and deletes change nothing. */
  function Deliver(kv: Store.Kv, a: Action): (r: Result<Store.Kv, Store.StoreError>)
    ensures !IsPublish(a) ==> r == Ok(kv)
    ensures r.Ok? && a.PublishAgent? ==> Store.Only(kv, r.value, Store.AgentKey(a.name))
    ensures r.Ok? && a.PublishClientSdp? ==> Store.Only(kv, r.value, Store.ClientSdpKey(a.uuid))
    ensures r.Ok? && a.PublishAgentSdp? ==> Store.Only(kv, r.value, Store.AgentSdpKey(a.uuid))
  {
    match a
    case PublishAgent(name, agent) => Store.UpsertAgent(kv, false, name, agent)
    case PublishClientSdp(uuid, record) => Store.UpsertClientSdp(kv, false, uuid, record)
    case PublishAgentSdp(uuid, record) => Store.UpsertAgentSdp(kv, false, uuid, record)
    case _ => Ok(kv)
  }

  // ----- Properties of the loops -----

  /** Events after the first interrupt are never looked at. */
  lemma {:induction false} ClientLoopStops(aead: Aead, unmarshal: Unmarshal, s: Session,
                                           before: seq<ClientEvent>, after: seq<ClientEvent>)
    ensures ClientLoop(aead, unmarshal, s, before + [ClientInterrupt] + after)
      == ClientLoop(aead, unmarshal, s, before + [ClientInterrupt])
    decreases |before|
  {
    if before == [] {
      assert ([] + [ClientInterrupt] + after)[0] == ClientInterrupt;
      assert ([] + [ClientInterrupt])[0] == ClientInterrupt;
    } else {
      assert (before + [ClientInterrupt] + after)[1..] == before[1..] + [ClientInterrupt] + after;
      assert (before + [ClientInterrupt])[1..] == before[1..] + [ClientInterrupt];
      ClientLoopStops(aead, unmarshal, s, before[1..], after);
    }
  }

  /**
   * The client withdraws its record exactly when it is interrupted, as the
   * last thing it does.
   */
  lemma {:induction false} ClientDeletesIffInterrupted(aead: Aead, unmarshal: Unmarshal, s: Session,
                                                       events: seq<ClientEvent>)
    ensures var trace := ClientLoop(aead, unmarshal, s, events);
      (exists i :: 0 <= i < |events| && IsClientInterrupt(events[i]))
      <==> (|trace| > 0 && trace[|trace| - 1] == DeleteClientSdp(s.peer, s.record))
    decreases |events|
  {
    if events != [] && events[0].ClientTick? {
      ClientDeletesIffInterrupted(aead, unmarshal, s, events[1..]);
      var ev: ClientEvent := events[0];
      var head := ClientStep(aead, unmarshal, s, ev.replies, ev.net);
      var rest := ClientLoop(aead, unmarshal, s, events[1..]);
      assert ClientLoop(aead, unmarshal, s, events) == head + rest;
      LastOfConcat(head, rest);
      InterruptAfterTick(events);
    } else if events != [] {
      assert IsClientInterrupt(events[0]);
    }
  }

  /** The last action of `head + rest` is the last of `rest`, or else the last of `head`. */
  lemma LastOfConcat(head: seq<Action>, rest: seq<Action>)
    requires |head| > 0
    ensures |rest| > 0 ==> (head + rest)[|head + rest| - 1] == rest[|rest| - 1]
    ensures |rest| == 0 ==> (head + rest)[|head + rest| - 1] == head[|head| - 1]
  {
  }

  /** After a tick, an interrupt occurs in the events iff it occurs in the later ones. */
  lemma InterruptAfterTick(events: seq<ClientEvent>)
    requires events != [] && events[0].ClientTick?
    ensures (exists i :: 0 <= i < |events| && IsClientInterrupt(events[i]))
      <==> (exists i :: 0 <= i < |events[1..]| && IsClientInterrupt(events[1..][i]))
  {
    forall i | 0 < i < |events| ensures events[i] == events[1..][i - 1] { }
  }

  /** Ticks before the first interrupt: one relay query each. */
  function Ticks(events: seq<ClientEvent>): nat
    decreases |events|
  {
    if events == [] || events[0].ClientInterrupt? then 0 else 1 + Ticks(events[1..])
  }

  function CountQueries(trace: seq<Action>): nat
    decreases |trace|
  {
    if trace == [] then 0 else (if trace[0].QueryAgentSdp? then 1 else 0) + CountQueries(trace[1..])
  }

  lemma CountQueriesAppend(a: seq<Action>, b: seq<Action>)
    ensures CountQueries(a + b) == CountQueries(a) + CountQueries(b)
    decreases |a|
  {
    if a != [] {
      assert (a + b)[1..] == a[1..] + b;
      CountQueriesAppend(a[1..], b);
    } else {
      assert a + b == b;
    }
  }

  /** The client asks the relay for the agent's reply once per tick, and only then. */
  lemma {:induction false} ClientQueriesOncePerTick(aead: Aead, unmarshal: Unmarshal, s: Session,
                                                    events: seq<ClientEvent>)
    ensures CountQueries(ClientLoop(aead, unmarshal, s, events)) == Ticks(events)
    decreases |events|
  {
    if events != [] {
      match events[0]
      case ClientInterrupt =>
        assert CountQueries([DeleteClientSdp(s.peer, s.record)]) == 0 by {
          assert [DeleteClientSdp(s.peer, s.record)][1..] == [];
        }
      case ClientTick(replies, net) =>
        var head := ClientStep(aead, unmarshal, s, replies, net);
        var rest := ClientLoop(aead, unmarshal, s, events[1..]);
        ClientQueriesOncePerTick(aead, unmarshal, s, events[1..]);
        CountQueriesAppend(head, rest);
        assert CountQueries(head) == 1 by {
          if |head| == 2 { assert head[1..][1..] == []; }
        }
    }
  }

  /** Only the first record of a poll matters. */
  lemma ClientPollFirstOnly(aead: Aead, unmarshal: Unmarshal, net: Net, s: Session, replies: seq<Sdp>, others: seq<Sdp>)
    requires replies != []
    ensures ClientPoll(aead, unmarshal, net, s, [replies[0]] + others) == ClientPoll(aead, unmarshal, net, s, replies)
  {
  }

  /** Events after the interrupt are never looked at, and the agent leaves its records behind. */
  lemma {:induction false} AgentLoopStops(aead: Aead, unmarshal: Unmarshal, config: Configurations,
                                          before: seq<AgentEvent>, after: seq<AgentEvent>)
    ensures AgentLoop(aead, unmarshal, config, before + [AgentInterrupt] + after)
      == AgentLoop(aead, unmarshal, config, before)
    decreases |before|
  {
    if before == [] {
      assert ([] + [AgentInterrupt] + after)[0] == AgentInterrupt;
    } else {
      assert (before + [AgentInterrupt] + after)[0] == before[0];
      assert (before + [AgentInterrupt] + after)[1..] == before[1..] + [AgentInterrupt] + after;
      AgentLoopStops(aead, unmarshal, config, before[1..], after);
    }
  }

  /**
   * A password that builds no AES-256 key never gets a reply out: the first
   * tick with a client record panics, ending the agent.
   */
  lemma {:induction false} BadKeyNeverReplies(aead: Aead, unmarshal: Unmarshal, config: Configurations,
                                              events: seq<AgentEvent>)
    requires New(config.password).None?
    ensures forall i :: 0 <= i < |AgentLoop(aead, unmarshal, config, events)| ==>
      !AgentLoop(aead, unmarshal, config, events)[i].PublishAgentSdp?
    decreases |events|
  {
    if events != [] && events[0].AgentTick? {
      var ev: AgentEvent := events[0];
      var answer := AgentPoll(aead, unmarshal, ev.nonce, config, ev.requests);
      assert answer == NoRequest || answer == KeyPanic;
      BadKeyNeverReplies(aead, unmarshal, config, events[1..]);
      if answer == NoRequest {
        var head := AgentStep(config.uuid, answer);
        var rest := AgentLoop(aead, unmarshal, config, events[1..]);
        var trace := head + rest;
        assert head == [QueryClientSdp(config.uuid), Sleep(AgentPollSeconds)];
        assert AgentLoop(aead, unmarshal, config, events) == trace;
        forall i | 0 <= i < |trace| ensures !trace[i].PublishAgentSdp? {
          if i >= |head| {
            assert trace[i] == rest[i - |head|];
            assert !rest[i - |head|].PublishAgentSdp?;
          } else { assert trace[i] == head[i]; }
        }
      }
    }
  }

  /**
   * The reply of every answered tick before the first interrupt is
   * published: it appears in the loop's trace.
   */
  lemma {:induction false} AgentRepliesPublished(aead: Aead, unmarshal: Unmarshal, config: Configurations,
                                                 events: seq<AgentEvent>, k: nat)
    requires k < |events| && forall j :: 0 <= j <= k ==> events[j].AgentTick?
    requires AgentPoll(aead, unmarshal, events[k].nonce, config, events[k].requests).Answered?
    ensures AgentPoll(aead, unmarshal, events[k].nonce, config, events[k].requests).reply
      in AgentLoop(aead, unmarshal, config, events)
    decreases k
  {
    var reply := AgentPoll(aead, unmarshal, events[k].nonce, config, events[k].requests).reply;
    AnsweredHasKey(aead, unmarshal, events[k].nonce, config, events[k].requests);
    var head := AgentTickUnfold(aead, unmarshal, config, events);
    var rest := AgentLoop(aead, unmarshal, config, events[1..]);
    if k == 0 {
      InConcat(head, rest, reply);
    } else {
      TailAt(events, k);
      AgentRepliesPublished(aead, unmarshal, config, events[1..], k - 1);
      InConcat(head, rest, reply);
    }
  }

  lemma InConcat(a: seq<Action>, b: seq<Action>, x: Action)
    requires (|a| > 1 && a[1] == x) || x in b
    ensures x in a + b
  {
    if x !in b { assert (a + b)[1] == x; } else {
      var i :| 0 <= i < |b| && b[i] == x;
      assert (a + b)[|a| + i] == x;
    }
  }

  lemma TailAt(events: seq<AgentEvent>, k: nat)
    requires 0 < k < |events| && forall j :: 0 <= j <= k ==> events[j].AgentTick?
    ensures events[1..][k - 1] == events[k]
    ensures forall j :: 0 <= j <= k - 1 ==> events[1..][j].AgentTick?
  {
  }

  /** Only a password that makes a key gets a reply out. */
  lemma AnsweredHasKey(aead: Aead, unmarshal: Unmarshal, nonce: Option<Nonce>, config: Configurations,
                       requests: seq<Sdp>)
    requires AgentPoll(aead, unmarshal, nonce, config, requests).Answered?
    ensures New(config.password).Some?
  {
  }

  /** With a key, a tick is its step followed by the rest of the loop. */
  lemma AgentTickUnfold(aead: Aead, unmarshal: Unmarshal, config: Configurations, events: seq<AgentEvent>)
    returns (head: seq<Action>)
    requires events != [] && events[0].AgentTick? && New(config.password).Some?
    ensures var answer := AgentPoll(aead, unmarshal, events[0].nonce, config, events[0].requests);
      && head == AgentStep(config.uuid, answer)
      && (answer.Answered? ==> head[1] == answer.reply)
      && AgentLoop(aead, unmarshal, config, events) == head + AgentLoop(aead, unmarshal, config, events[1..])
  {
    var ev: AgentEvent := events[0];
    var answer := AgentPoll(aead, unmarshal, ev.nonce, config, ev.requests);
    assert !answer.KeyPanic?;
    head := AgentStep(config.uuid, answer);
  }

  /** Under a correct cipher, the agent's reply decrypts to the endpoint it was given. */
  lemma ProxyReplyDecrypts(aead: Aead, cipher: Cipher, nonce: Option<Nonce>, config: Configurations,
                           endpoint: IceEndpoint, request: Sdp)
    requires Correct(aead)
    requires Proxy(aead, cipher, nonce, config, endpoint, request).Ok?
    ensures Decrypt(aead, cipher, Proxy(aead, cipher, nonce, config, endpoint, request).value.record.sdp)
      == Ok(ToString(endpoint))
  {
    Envelope.RoundTrip(aead, cipher, nonce, ToString(endpoint));
  }

  /**
   * A reply sealed from the wire form of well-formed candidates `e` makes
   * the client probe its own candidates against exactly `e`.
   */
  lemma ClientProbesSealedReply(aead: Aead, unmarshal: Unmarshal, net: Net, s: Session, replies: seq<Sdp>,
                                e: IceEndpoint, n: Option<Nonce>)
    requires Correct(aead)
    requires replies != [] && Encrypt(aead, s.cipher, n, ToString(e)) == Ok(replies[0].sdp)
    requires forall i :: 0 <= i < |e.candidates| ==> WellFormed(unmarshal, e.candidates[i])
    ensures ClientPoll(aead, unmarshal, net, s, replies) == Probed(Test(net, s.local, e).0)
  {
    Envelope.RoundTrip(aead, s.cipher, n, ToString(e));
    Candidates.RoundTrip(unmarshal, e);
  }

  /**
   * A request sealed, under the agent's key, from the wire form of
   * well-formed candidates `e` is answered with `e` sealed again and
   * published under the agent's uuid for the request's service, or fails
   * exactly when that sealing fails.
   */
  lemma AgentAnswersSealedRequest(aead: Aead, unmarshal: Unmarshal, nonce: Option<Nonce>, config: Configurations,
                                  requests: seq<Sdp>, e: IceEndpoint, n: Option<Nonce>)
    requires Correct(aead)
    requires requests != [] && New(config.password).Some?
    requires Encrypt(aead, New(config.password).value, n, ToString(e)) == Ok(requests[0].sdp)
    requires forall i :: 0 <= i < |e.candidates| ==> WellFormed(unmarshal, e.candidates[i])
    ensures var sealed := Encrypt(aead, New(config.password).value, nonce, ToString(e));
      AgentPoll(aead, unmarshal, nonce, config, requests)
      == if sealed.Ok? then Answered(PublishAgentSdp(config.uuid, requests[0].(sdp := sealed.value)))
         else ReplyFailed(sealed.error)
  {
    Envelope.RoundTrip(aead, New(config.password).value, n, ToString(e));
    Candidates.RoundTrip(unmarshal, e);
  }

  /**
   * `agent::process` hands `proxy` the endpoint it parsed from the client's
   * record, so a reply, when there is one, carries the client's own
   * candidates back to it, and the client probes its candidates against
   * themselves.
   */
  lemma AgentEchoesClient(aead: Aead, unmarshal: Unmarshal, net: Net, s: Session, config: Configurations,
                          nonce: Option<Nonce>, requests: seq<Sdp>)
    requires Correct(aead) && New(config.password) == Some(s.cipher)
    requires exists n :: Encrypt(aead, s.cipher, n, ToString(s.local)) == Ok(s.record.sdp)
    requires forall i :: 0 <= i < |s.local.candidates| ==> WellFormed(unmarshal, s.local.candidates[i])
    requires requests != [] && requests[0] == s.record
    ensures var answer := AgentPoll(aead, unmarshal, nonce, config, requests);
      (answer.Answered? || answer.ReplyFailed?)
      && (answer.Answered? ==>
            ClientPoll(aead, unmarshal, net, s, [answer.reply.record]) == Probed(Test(net, s.local, s.local).0))
  {
    var n :| Encrypt(aead, s.cipher, n, ToString(s.local)) == Ok(s.record.sdp);
    AgentAnswersSealedRequest(aead, unmarshal, nonce, config, requests, s.local, n);
    var answer := AgentPoll(aead, unmarshal, nonce, config, requests);
    if answer.Answered? {
      ClientProbesSealedReply(aead, unmarshal, net, s, [answer.reply.record], s.local, nonce);
    }
  }

  // ----- Through the relay -----

  /**
   * With the corrected start, the record lands where the chosen agent
   * looks: its query under its own uuid returns it.
   */
  lemma ClientRecordReachesAgent(kv: Store.Kv, s: Session, agent: Agent)
    requires Store.WellTyped(kv) && s.peer == agent.uuid
    ensures Deliver(kv, PublishClientSdp(s.peer, s.record)).Ok?
    ensures Store.QueryClientSdp(Deliver(kv, PublishClientSdp(s.peer, s.record)).value, false, agent.uuid).Ok?
    ensures s.record in Store.QueryClientSdp(Deliver(kv, PublishClientSdp(s.peer, s.record)).value, false, agent.uuid).value
  {
    Store.KeyNamespaces("", "", agent.uuid, "");
    Store.SdpUpsertWellTyped(kv, false, Store.ClientSdpKey(agent.uuid), s.record);
    Store.QueryAfterSdpUpsert(kv, false, Store.ClientSdpKey(agent.uuid), s.record);
  }

  /** Likewise the agent's reply lands where a client keyed by that agent looks. */
  lemma ReplyReachesClient(kv: Store.Kv, s: Session, reply: Sdp, config: Configurations)
    requires Store.WellTyped(kv) && s.peer == config.uuid
    ensures Deliver(kv, PublishAgentSdp(config.uuid, reply)).Ok?
    ensures reply in Store.QueryAgentSdp(Deliver(kv, PublishAgentSdp(config.uuid, reply)).value, false, s.peer).value
  {
    Store.KeyNamespaces("", config.uuid, "", "");
    Store.SdpUpsertWellTyped(kv, false, Store.AgentSdpKey(config.uuid), reply);
    Store.QueryAfterSdpUpsert(kv, false, Store.AgentSdpKey(config.uuid), reply);
  }

  /**
   * As written, a client that names no uuid when there is a single agent is
   * accepted, then publishes under the empty uuid: the agent's own query,
   * under its real uuid, does not change.
   */
  lemma EmptyUuidMissesOnlyAgent(kv: Store.Kv, agent: Agent, s: Session)
    requires agent.uuid != "" && s.peer == ""
    ensures SelectAgent([agent], "") == Ok([agent])
    ensures Deliver(kv, PublishClientSdp(s.peer, s.record)).Ok? ==>
      Store.QueryClientSdp(Deliver(kv, PublishClientSdp(s.peer, s.record)).value, false, agent.uuid)
      == Store.QueryClientSdp(kv, false, agent.uuid)
  {
    Store.KeyNamespaces("", "", "", agent.uuid);
    assert Store.ClientSdpKey("") != Store.ClientSdpKey(agent.uuid);
  }
}
