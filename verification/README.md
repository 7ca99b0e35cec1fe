# p2p-proxy rendezvous core, in Dafny

A model of the candidate-exchange pipeline of p2p-proxy and of the relay store in
cf-worker-signal.

**How a connection is set up.**
- A client looks up an agent by name on the relay.
- It gathers its own ICE candidates and encrypts their wire form with AES-256-GCM under the shared password.
- It publishes that blob as a client SDP record under the agent's uuid, then polls for the agent's reply.
- The agent registers its identity once. Every ten seconds it reads the client SDP records addressed to it, decrypts and parses the first one, and publishes an encrypted reply under its own uuid.
- The client decrypts the reply and probes candidate pairs, in priority order, until one answers.

**The modules.**
- `Wrappers`: `Option` and `Result`.
- `Utf8`: Rust's `str`/`String` byte view.
  - UTF-8 encoding and decoding, and byte length.
  - `[..n]` slicing, which panics off a char boundary.
  - A boundary-respecting truncation.
- `Text`: plain string operations.
  - Lexicographic order, an insertion sort and decimal formatting.
  - The CRLF split/join used for the candidate wire form, and the empty-segment filter.
- `Records`: the relay records `Agent` and `Sdp`, and the `u16`/`u32` widths.
- `Candidates`: `IceEndpoint` wire serialisation, parsing and fingerprints. The library's candidate grammar (marshal / unmarshal) is a function parameter.
- `Gathering`: the fold of gathering rounds into an address-keyed map (`IceEndpoint::collect`). Each round's output is a parameter.
- `Prober`: the stable descending-priority sort and the nested-loop sweep of `IceEndpoint::test`. It includes the port→socket bookkeeping of `test_connectivity`, over a bind/probe oracle.
- `Envelope`: the `nonce(12) ‖ ciphertext` framing of `AesEncryption`.
  - The AEAD is a `seal`/`open` pair passed as a parameter. `Correct` states its round-trip assumption.
  - The random nonce is a parameter, and `None` means `getrandom` failed.
- `Store`: the relay's KV store as a map from key to (stored map, ttl).
  - Each stored `BTreeMap` is a strictly sorted association list.
  - There are upsert and query operations for agents, client SDPs and agent SDPs.
  - A relay read error is a `readFails` flag.
  - A stored value of the wrong kind is an error, where the source's `serde_json::from_str(..).unwrap()` panics.
- `Settings`: `Configurations::load_file` normalisation. Hostname, a fresh uuid, the OS name and the SHA-1 digest are parameters (`Env`).
- `Rendezvous`: the client and agent `process` functions.
  - Each loop is a pure function from a sequence of events (tick or interrupt) to the trace of relay actions it issues.
  - `ClientRun` is the whole client run: the `QueryAgent` lookup, the corrected start, and the loop. `ClientRunAsWritten` is the same run on the start as written. `AgentRun` is the agent's registration followed by its loop.
  - `Deliver` applies a publish action to the `Store`.

## Model

| member | source | states |
|---|---|---|
| Candidates.ToString | p2p-proxy/src/candidate.rs:22-29 | An empty endpoint gives ""; otherwise, when no marshal form contains CRLF, splitting the text on CRLF gives back the marshal forms in list order |
| Candidates.UnmarshalAll | p2p-proxy/src/candidate.rs:88-89 | Succeeds iff every segment unmarshals; on success one candidate per segment in order; on failure names a segment that does not parse |
| Candidates.FromStr | p2p-proxy/src/candidate.rs:85-96 | All or nothing over the non-empty CRLF segments: Ok iff every segment parses, then one candidate per segment in order; an error names a non-empty malformed segment |
| Candidates.RoundTrip | p2p-proxy/src/candidate.rs:22-96 | For candidates whose marshal form is non-empty, CRLF-free and parses back, from_str(to_string(e)) == Ok(e) |
| Candidates.ToUniqueStrings | p2p-proxy/src/candidate.rs:44-59 | One fingerprint per candidate, sorted, and a permutation of the per-candidate fingerprints |
| Candidates.ToUniqueStringsPermutationInvariant | p2p-proxy/src/candidate.rs:44-59 | Any reordering of the candidates gives the same fingerprint list |
| Candidates.ToUniqueStringsIgnoresPort | p2p-proxy/src/candidate.rs:48-54 | Candidates that agree on type, network and address give equal fingerprints, whatever their ports |
| Candidates.UniqueStringInjective | p2p-proxy/src/candidate.rs:49-54 | Two fingerprints are equal iff type, network and address are equal |
| Candidates.NewIdentityChangesFingerprint | p2p-proxy/src/candidate.rs:44-59 | Adding a candidate with a new (type, network, address) changes the fingerprint list |
| Candidates.ToUniqueString | p2p-proxy/src/candidate.rs:31-42 | Fails iff the text does not unmarshal; otherwise starts with the candidate's port-free fingerprint |
| Candidates.ToUniqueStringSeparates | p2p-proxy/src/candidate.rs:33-41 | For the same type, network and address, equal strings imply equal port, is_udp and proxy_port |
| Candidates.PortSuffixInjective | p2p-proxy/src/candidate.rs:34-40 | The "port, is_udp, proxy_port" tail determines all three values |
| Gathering.InsertContents | p2p-proxy/src/candidate.rs:137-139 | Keeps one candidate per address; the last one reported for an address wins; other addresses keep their old value |
| Gathering.InsertAppend | p2p-proxy/src/candidate.rs:102-153 | Inserting two rounds one after the other equals inserting their concatenation |
| Gathering.FoldRounds | p2p-proxy/src/candidate.rs:102-153 | Fails with the first failing round iff any round fails; otherwise the map holds exactly the inserted candidates of all rounds |
| Gathering.Values | p2p-proxy/src/candidate.rs:155-160 | Lists every map entry exactly once: one candidate per address, each the map's value |
| Gathering.Collect | p2p-proxy/src/candidate.rs:99-161 | Err iff a round fails; otherwise distinct addresses, each candidate the last one reported for its address, every reported address covered; 0 rounds gives an empty Ok |
| Gathering.FirstFailureStable | p2p-proxy/src/candidate.rs:102-124 | Running more rounds after a failure reports the same first failure |
| Prober.InsertByPriority | p2p-proxy/src/candidate.rs:174 | Inserting into a descending list keeps it descending and adds exactly the new candidate |
| Prober.SortByPriority | p2p-proxy/src/candidate.rs:173-177 | The result is in descending priority and is a permutation of the input |
| Prober.SortByPriorityStable | p2p-proxy/src/candidate.rs:173-177 | Candidates of equal priority keep their input order (stable sort) |
| Prober.TestConnectivity | p2p-proxy/src/candidate.rs:201-261 | Binds a port only if not yet bound; a bind failure gives false with the map unchanged; true only if the probe replied; no port bound twice |
| Prober.Sweep | p2p-proxy/src/candidate.rs:181-198 | From position (i, j), returns the first passing pair in nested-loop order, or None iff no later pair passes; bound ports are distinct and are local ports |
| Prober.SweepFromStart | p2p-proxy/src/candidate.rs:181-198 | The sweep from (0, 0) returns the first passing pair, and None iff no pair passes |
| Prober.Test | p2p-proxy/src/candidate.rs:163-199 | After the stable descending sorts, returns the first passing pair in nested-loop order, None iff no pair passes; at most one socket per local port |
| Prober.GreedyFindsLowPriorityPair | p2p-proxy/src/candidate.rs:181-196 | With locals of priority 10 and 5, remotes of priority 20 and 1, and only the lowest pair reachable, the sweep passes over the failing higher-priority pairs and returns that lowest pair |
| Envelope.New | p2p-proxy/src/aes.rs:15-18 | A cipher exists iff the passphrase is exactly 32 bytes, and its key is the passphrase's bytes |
| Envelope.Encrypt | p2p-proxy/src/aes.rs:20-37 | Nonce failure and seal failure are errors; when the nonce is drawn and the seal succeeds, the result is Ok of the 12-byte nonce followed by the seal output over the UTF-8 bytes |
| Envelope.Decrypt | p2p-proxy/src/aes.rs:39-56 | Err(TooShort) iff shorter than 12 bytes; splits at 12; an open failure or non-UTF-8 plaintext is an error; Ok means open returned the plaintext's encoding |
| Envelope.ShortBlobIgnoresCipher | p2p-proxy/src/aes.rs:40-42 | A short blob fails the same way without reference to the key or the cipher |
| Envelope.RoundTrip | p2p-proxy/src/aes.rs:20-56 | Under AEAD correctness, decrypt(encrypt(p)) == Ok(p) |
| Utf8.DecodeEncode | p2p-proxy/src/aes.rs:54-55 | Decoding the UTF-8 bytes of a string gives the string back |
| Utf8.EncodeDecode | p2p-proxy/src/aes.rs:54-55 | Bytes that decode are exactly the encoding of the decoded string |
| Utf8.PrefixBytes | p2p-proxy/src/data.rs:72 | `[..n]` on a String: a char-prefix exactly n bytes long, and None (a panic) iff no char boundary lies at byte n |
| Utf8.PrefixBytesEncoding | p2p-proxy/src/data.rs:72 | When the slice succeeds, the prefix it keeps is encoded by exactly the first n bytes of the string's encoding |
| Utf8.ByteLenOfEncode | p2p-proxy/src/aes.rs:15-16 | The byte length counted char by char is the length of the UTF-8 encoding, which is what `as_bytes()` hands to the key |
| Utf8.TruncateBytes | p2p-proxy/src/data.rs:70-72 | The longest char-prefix of at most n bytes |
| Utf8.PrefixBytesIsTruncate | p2p-proxy/src/data.rs:70-72 | When the byte slice does not panic it equals the boundary truncation |
| Text.SortStrings | p2p-proxy/src/candidate.rs:57 | Vec::sort on strings: sorted, a permutation of the input |
| Text.SortStringsPermutationInvariant | p2p-proxy/src/candidate.rs:57 | Sorting two permutations of each other gives the same list |
| Text.SplitJoin | p2p-proxy/src/candidate.rs:85-86 | Splitting on CRLF undoes joining with CRLF for CRLF-free parts |
| Text.NonEmpty | p2p-proxy/src/candidate.rs:87 | The empty-segment filter: every kept segment is non-empty and was in the input; every non-empty input segment is kept |
| Text.NonEmptyAppend | p2p-proxy/src/candidate.rs:87 | The filter distributes over concatenation, drops an empty segment and keeps a non-empty one, so it keeps the non-empty segments in their input order |
| Text.DecimalInjective | cf-worker-signal/src/state.rs:43-45 | Distinct ports print as distinct decimals |
| Store.ServiceKey | cf-worker-signal/src/state.rs:43-45 | A protocol tag of three letters, a ':' and the decimal port |
| Store.ServiceKeyInjective | cf-worker-signal/src/state.rs:43-45 | Two service keys are equal iff protocol and port are equal |
| Store.KeyNamespaces | cf-worker-signal/src/state.rs:31-41 | The agent, agent_sdp and client_sdp key spaces are disjoint and each key formatter is injective |
| Store.Get | cf-worker-signal/src/state.rs:54 | BTreeMap lookup: a found value is stored under the key; None iff the key is absent |
| Store.Insert | cf-worker-signal/src/state.rs:64 | BTreeMap insert: the key maps to the new value and every other key is unchanged |
| Store.Values | cf-worker-signal/src/state.rs:79 | The values in ascending key order |
| Store.Upserted | cf-worker-signal/src/state.rs:50-64 | Skips (None) iff the loaded map already holds an equal record; otherwise the key maps to the record, other keys unchanged, and an absent map starts empty |
| Store.UpsertAgent | cf-worker-signal/src/state.rs:47-71 | Fails only on a value of the wrong kind; only the agent key changes; afterwards the agent is stored under its uuid and every other uuid keeps its agent; a failed read or an absent key writes just this agent with TTL 3600; the write is skipped iff the stored agent under that uuid is equal |
| Store.UpsertSdp | cf-worker-signal/src/state.rs:86-111 | Fails only on a value of the wrong kind; only that key changes; afterwards the record is stored under its service key; a write carries TTL 3600 |
| Store.UpsertClientSdp | cf-worker-signal/src/state.rs:86-111 | Writes only the client_sdp key of that uuid, which then holds an SDP map |
| Store.UpsertAgentSdp | cf-worker-signal/src/state.rs:125-150 | Writes only the agent_sdp key of that uuid, which then holds an SDP map |
| Store.QueryAgent | cf-worker-signal/src/state.rs:73-84 | A failed read or an absent key gives []; otherwise the stored agents in ascending uuid order |
| Store.QuerySdps | cf-worker-signal/src/state.rs:113-123 | A failed read or an absent key gives []; otherwise the stored records in ascending service-key order |
| Store.QueryClientSdp | cf-worker-signal/src/state.rs:113-123 | An absent client_sdp key gives [] |
| Store.QueryAgentSdp | cf-worker-signal/src/state.rs:152-162 | An absent agent_sdp key gives [] |
| Store.EqualRepublishSkipsWrite | cf-worker-signal/src/state.rs:54-58 | Republishing an equal record leaves the store, TTL included, unchanged |
| Store.UpsertSdpSiblings | cf-worker-signal/src/state.rs:90-104 | After a read, records under other service keys survive; after a failed read the key holds only the new record |
| Store.UpsertsPreserveWellTyped | cf-worker-signal/src/state.rs:47-162 | On a store whose keys hold the right kind of map, every upsert succeeds and keeps that, and every query succeeds |
| Store.OneSdpPerService | cf-worker-signal/src/state.rs:88-104 | A queried uuid never holds two records for the same (is_udp, port) |
| Store.QueryAfterUpsert | cf-worker-signal/src/state.rs:64-79 | After a successful upsert, the query on that key contains the upserted record |
| Settings.Hex | p2p-proxy/src/data.rs:68 | `{:x}` of a digest: two ASCII characters per byte, the high nibble's lower-case hex digit followed by the low nibble's |
| Settings.Merge | p2p-proxy/src/data.rs:74-131 | Each empty field takes its default, every other field is kept |
| Settings.ApplyDefaults | p2p-proxy/src/data.rs:74-131 | The twelve string fields are defaulted exactly where empty, the stun list where empty; password and signal_server_url are untouched |
| Settings.ApplyDefaultsKeepsComplete | p2p-proxy/src/data.rs:74-131 | A config with nothing to default is returned unchanged |
| Settings.ApplyDefaultsCompletes | p2p-proxy/src/data.rs:74-131 | With non-empty defaults, nothing is left to default afterwards |
| Settings.LoadFileAsWritten | p2p-proxy/src/data.rs:63-135 | As written: panics iff the password is over 32 bytes with no char boundary at byte 32; otherwise the rest is defaulted and the password is the first 32 bytes of the raw password (the digest's hex when empty) if that is longer, else the raw password itself |
| Settings.FitKey | p2p-proxy/src/data.rs:70-72 | Corrected key fitting: exactly 32 bytes, the boundary truncation followed by '0' padding; a 32-byte password is unchanged |
| Settings.LoadFile | p2p-proxy/src/data.rs:50-138 | Corrected load: the rest is defaulted, the password is the key fitting of the raw password (the digest's hex when empty) and so always makes a valid AES-256 key, a 32-byte password is kept, update iff the password changed or a field was defaulted |
| Settings.LoadFileIdempotent | p2p-proxy/src/data.rs:50-138 | Loading a loaded config again changes nothing and does not rewrite the file |
| Settings.UpdateIffChanged | p2p-proxy/src/data.rs:63-135 | The file is rewritten iff the loaded config differs from the one read |
| Settings.DefaultsChange | p2p-proxy/src/data.rs:74-131 | When a field needs a default, the defaulted config differs from the input |
| Settings.EmptyPasswordUsesDigest | p2p-proxy/src/data.rs:64-73 | An empty password becomes the first 32 hex digits of the digest, in both versions |
| Settings.AsWrittenAgreesWhenKeyFits | p2p-proxy/src/data.rs:64-73 | Where the as-written load yields a 32-byte password, it equals the corrected load |
| Settings.ShortPasswordBreaksKey | p2p-proxy/src/data.rs:64-73 | As written, a non-empty password under 32 bytes is kept and no cipher can be built from it; the corrected load's key is valid |
| Settings.AsWrittenKeepsComplete | p2p-proxy/src/data.rs:50-138 | As written, a complete config with a password of 1..32 bytes is returned unchanged and not rewritten |
| Settings.AsWrittenUpdateIffChanged | p2p-proxy/src/data.rs:63-135 | As written, update iff the config changed |
| Settings.MidCharCutPanics | p2p-proxy/src/data.rs:70-72 | As written, 31 'a' followed by 'é' panics at `[..32]`; the corrected load yields a 32-byte password |
| Rendezvous.WithUuid | p2p-proxy/src/client/connect.rs:34-37 | The filter keeps exactly the agents with the given uuid |
| Rendezvous.SelectAgent | p2p-proxy/src/client/connect.rs:23-45 | No agents gives an error; one agent is accepted as is; several with an empty uuid is an error; several otherwise keeps the matching ones, and none left is an error |
| Rendezvous.Prepare | p2p-proxy/src/client/connect.rs:47-52 | Ok only when every gathering round succeeded, and then the local endpoint is exactly the gathered one (last report per address, every address covered); with a valid key, Ok unless the nonce or the seal fails, and Ok whenever both always succeed; the record holds the encryption of the gathered candidates with the requested protocol and port |
| Rendezvous.ConnectAsWritten | p2p-proxy/src/client/connect.rs:23-53 | As written: selection errors pass through; the record is addressed to the uuid argument, keeps the requested protocol and port, and is the encryption, under the password's key, of the gathered candidates |
| Rendezvous.Connect | p2p-proxy/src/client/connect.rs:23-53 | Corrected: selection errors pass through; the record is addressed to the uuid of an agent the relay listed, and holds the encryption of the gathered candidates |
| Rendezvous.ClientRun | p2p-proxy/src/client/connect.rs:14-95 | The client first queries the agents by name; a failed start ends the run after that query with the selection or preparation error; otherwise the sealed record is published under a listed agent's uuid and the polling loop follows |
| Rendezvous.ClientRunAsWritten | p2p-proxy/src/client/connect.rs:14-95 | As written: the same run, but the session's peer is the uuid argument and the record is published under it, whatever agent was selected |
| Rendezvous.ClientPoll | p2p-proxy/src/client/connect.rs:64-86 | No reply iff the relay returned none; otherwise the first record is decrypted: Unreadable with the crypto error iff decryption fails, else Unparsable with the parse error iff parsing fails, else the probe result of the local candidates against the parsed ones |
| Rendezvous.ClientLoop | p2p-proxy/src/client/connect.rs:55-92 | The loop never publishes; a delete is only ever the last action; queries and the delete use the session's peer uuid; every pause is the one-second sleep |
| Rendezvous.ClientStep | p2p-proxy/src/client/connect.rs:64-90 | One tick is the agent-SDP query under the peer's uuid, followed by at most one pause, of one second |
| Rendezvous.ClientStepPauses | p2p-proxy/src/client/connect.rs:66-87 | A tick pauses exactly when its poll is neither undecryptable nor unparsable, since the `?` on either leaves the iteration before the sleep |
| Rendezvous.ClientLoopStops | p2p-proxy/src/client/connect.rs:57-63 | Events after an interrupt have no effect |
| Rendezvous.ClientDeletesIffInterrupted | p2p-proxy/src/client/connect.rs:57-63 | The trace ends with the delete iff an interrupt occurred |
| Rendezvous.ClientQueriesOncePerTick | p2p-proxy/src/client/connect.rs:64-65 | One agent-SDP query per tick before the interrupt |
| Rendezvous.ClientPollFirstOnly | p2p-proxy/src/client/connect.rs:66-67 | Only the first returned record matters |
| Rendezvous.ClientProbesSealedReply | p2p-proxy/src/client/connect.rs:65-70 | A first reply that is the sealing, under the session key, of well-formed candidates makes the poll probe the local candidates against exactly those |
| Rendezvous.AgentOpening | p2p-proxy/src/agent/mod.rs:19-28 | An empty signal_server_url is an error; otherwise the identity {uuid, name, os} is published under the name |
| Rendezvous.Proxy | p2p-proxy/src/agent/proxy.rs:10-23 | Err iff encryption fails; the reply is published under config.uuid, keeps the request's is_udp and port, and carries the encrypted candidates |
| Rendezvous.AgentPoll | p2p-proxy/src/agent/mod.rs:39-57 | No request iff the relay returned none; a key panic iff there is a request and the password makes no key; otherwise the first record is decrypted, parsed and passed to `proxy`, each failure reported with its error, and a successful reply is an agent-SDP publish under config.uuid keeping the request's protocol and port |
| Rendezvous.AgentAnswersSealedRequest | p2p-proxy/src/agent/mod.rs:39-52 | A first request sealed under the agent's key from well-formed candidates is answered with those candidates sealed again under the agent's uuid, or fails with exactly the sealing error |
| Rendezvous.BadKeyNeverReplies | p2p-proxy/src/agent/mod.rs:42 | When the password makes no AES-256 key, the agent loop never publishes a reply |
| Rendezvous.AgentLoop | p2p-proxy/src/agent/mod.rs:32-64 | The loop never republishes the identity nor deletes; every query and reply uses config.uuid; every pause is the ten-second sleep |
| Rendezvous.AgentStep | p2p-proxy/src/agent/mod.rs:38-62 | An answered tick is the query, the reply's publish and the ten-second pause; a proxy error or a key panic leaves only the query; no request, an undecryptable or an unparsable request gives the query and the pause |
| Rendezvous.AgentRepliesPublished | p2p-proxy/src/agent/proxy.rs:20 | The reply of every answered tick before the first interrupt appears in the agent loop's trace |
| Rendezvous.AgentRun | p2p-proxy/src/agent/mod.rs:17-67 | The identity is published first and never again; an empty signal url publishes nothing; the rest is the agent loop |
| Rendezvous.AgentLoopStops | p2p-proxy/src/agent/mod.rs:34-37 | Events after an interrupt have no effect and no cleanup happens |
| Rendezvous.Deliver | p2p-proxy/src/http_client.rs:11-126 | Queries, sleeps and deletes leave the store as it is; each publish changes only the one relay key it addresses |
| Rendezvous.ProxyReplyDecrypts | p2p-proxy/src/agent/proxy.rs:15-19 | Under AEAD correctness the reply decrypts to the wire form of the endpoint it was built from |
| Rendezvous.AgentEchoesClient | p2p-proxy/src/agent/mod.rs:47-52 | With the argument passed at mod.rs:52 and the client's key equal to the agent's, the agent either fails to seal or replies with the client's own candidates, which the client then probes against themselves |
| Rendezvous.ClientRecordReachesAgent | p2p-proxy/src/client/connect.rs:53 | With the corrected peer, the published client record is in the agent's client-SDP query |
| Rendezvous.ReplyReachesClient | p2p-proxy/src/agent/proxy.rs:20 | The agent's reply is in the client's agent-SDP query for that agent |
| Rendezvous.EmptyUuidMissesOnlyAgent | p2p-proxy/src/client/connect.rs:23-53 | As written, with one agent and an empty uuid the record lands under "", which the agent never queries |

## Left out

- HTTP and JSON: the relay calls of http_client.rs and serde. Each action in a trace stands for one call, and `Deliver` stands for the relay handling a publish.
- The cf-worker routers and handlers (lib.rs, agent.rs, sdp.rs) are routing glue and are not part of this model.
- Real ICE gathering (webrtc-ice `Agent`, `on_candidate` callbacks, the done channel): each round is an abstract `Option<seq<Candidate>>`.
- `HashMap::values` returns values in an unspecified order. `Gathering.Values` states only the contents, never the order.
- Sockets and timeouts in `test_connectivity`: a `bind` oracle per port and a `probe` oracle per pair. A send error, receive error or 1-second timeout is a probe result other than `Replied`.
- AES-256-GCM and `getrandom`: an abstract `seal`/`open` pair and a nonce parameter. Nonce freshness is not modelled.
- Candidate grammar (section 5.1 of RFC 8839): `marshal` is a stored field and `unmarshal` a parameter. `WellFormed` is the inverse assumption.
- Agent and client `process` stop on a signal: Ctrl-C is an `Interrupt` event and sleeps are `Sleep(seconds)` actions. Concurrency between client, agent and relay is not modelled.
- Relay TTL expiry: no clock is modelled. Only the TTL written with each put is stated.
- Configuration file I/O, `Self::load`'s unwrap and the write back: `update` is returned instead.
- `Store.UpsertAgent`: panics of `serde_json::from_str(..).unwrap()` and of `put(..).unwrap()` are not modelled as such. A value of the wrong kind is an `Err`, and a failed put cannot happen.
- `Rendezvous.Prepare`: `AesEncryption::new` panics on a key that is not 32 bytes. Here that is the `BadKey` error.
- `Rendezvous.AgentPoll`: the same panic inside the agent's tick is the `KeyPanic` answer, and `AgentLoop` ends after that tick's query.
- `Store.QueryAgent`: an empty map stored as the other kind (`Sdps` of no records) is read as `Corrupt` by `LoadAgents`, where serde would accept `{}` as either kind. `LoadSdps` behaves the same way for `Store.QuerySdps`. The relay's own writes never store an empty map.
- `Rendezvous.ClientRun`: it is built on the corrected start `Connect`. The run as written is `Rendezvous.ClientRunAsWritten`.
- `Rendezvous.ConnectAsWritten`: `delete_client_sdp`, called at client/connect.rs:60, is not defined in http_client.rs. It is modelled as a `DeleteClientSdp` action that `Deliver` ignores.
- `Store.QueryClientSdp`: its contract only states the absent-key case. The full contents are stated on `Store.QuerySdps`, to which it delegates.
- `Store.QueryAgentSdp`: as for `Store.QueryClientSdp`.
- `Store.UpsertClientSdp`: its contract states the frame and the kind. The stored record, the skip and the TTL are stated on `Store.UpsertSdp`, to which it delegates.
- `Store.UpsertAgentSdp`: as for `Store.UpsertClientSdp`.
- The `local_port` argument of the client's `process` is unused in the source and does not appear in the model.
- The relay's `Sdp.sdp` is a string in cf-worker-signal and a byte vector in p2p-proxy. The model uses one record with a byte field.
- The WebRTC prototypes (webrtc-p2p-agent, webrtc-p2p-client), the CLI entry points (main.rs, command.rs, client/query.rs) and tracing are not part of this model.
- Probe results and decrypt/parse failures are only logged in the source. Logging is not modelled.

Where the code and its documentation differ, the model follows the code:
- `collect` fails on any failing round rather than skipping it.
- A value-equal republish skips the write, so its TTL is not refreshed.
- The client probes on every poll; no fingerprint check skips repeated work.
- On a decrypt or parse failure the client's iteration ends before its one-second sleep (`ClientPause` is 0). Likewise, a proxy error skips the agent's ten-second sleep (`AgentPause` is 0).
- A failed relay read makes the upsert overwrite the stored map with only the new record.
- agent/mod.rs:52 passes the parsed remote endpoint and the whole remote record list to `proxy`. The model takes the first record and the parsed endpoint, so the agent replies with the client's own candidates (`Rendezvous.AgentEchoesClient`). This is left as written.

## Findings

| source | as written | input that shows it | evidently intended | confidence | as-written member | corrected member |
|---|---|---|---|---|---|---|
| p2p-proxy/src/data.rs:64-73 | a non-empty password shorter than 32 bytes is kept as is, and `AesEncryption::new` then panics on the key length | password "secret" | every loaded password forms a 32-byte AES-256 key | not executed | Settings.ShortPasswordBreaksKey | Settings.LoadFile |
| p2p-proxy/src/data.rs:70-72 | `password[..32]` slices bytes and panics when byte 32 is inside a character | 31 × 'a' followed by 'é' (33 bytes) | cut at a char boundary and keep at most 32 bytes | not executed | Settings.MidCharCutPanics | Settings.FitKey |
| p2p-proxy/src/client/connect.rs:23-53 | with exactly one agent the uuid argument is not checked, and the record is published under the argument anyway | one listed agent with a non-empty uuid, uuid argument "" | publish under the selected agent's uuid | not executed | Rendezvous.EmptyUuidMissesOnlyAgent | Rendezvous.Connect |
