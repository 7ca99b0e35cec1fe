/**
 * The relay's state (`AppState` of the signalling worker): one KV namespace
 * whose values are maps serialised as JSON. `agent:<name>` maps an agent's
 * uuid to its `Agent` record; `client_sdp:<uuid>` and `agent_sdp:<uuid>` map
 * a service key `udp:<port>` / `tcp:<port>` to an `Sdp` record.
 *
 * A `BTreeMap<String, _>` is a `Tree`: an association list strictly sorted by
 * key, so its `values()` come out in ascending key order. A stored value that
 * does not parse as the expected map makes `serde_json::from_str(..).unwrap()`
 * panic; the model returns `Corrupt` instead. `readFails` stands for
 * `kv.get(..).text()` returning an error, which the code treats like an
 * absent key.
 */
module Store {
  import opened Wrappers
  import opened Text
  import opened Records

  const KvStoreName: string := "kv_cf_worker_signal"

  /** Every write expires after an hour. */
  const ExpirationTtl: nat := 3600

  // ----- Keys -----

  function AgentKey(name: string): string { "agent:" + name }
  function AgentSdpKey(uuid: string): string { "agent_sdp:" + uuid }
  function ClientSdpKey(uuid: string): string { "client_sdp:" + uuid }

  /** `format!("{}:{}", "udp" | "tcp", port)`. */
  function ServiceKey(isUdp: bool, port: Port): (r: string)
    ensures |r| >= 5 && r[3] == ':'
  {
    (if isUdp then "udp:" else "tcp:") + Decimal(port)
  }

  /** Distinct services get distinct sub-keys, and conversely. */
  lemma ServiceKeyInjective(u1: bool, p1: Port, u2: bool, p2: Port)
    ensures ServiceKey(u1, p1) == ServiceKey(u2, p2) <==> u1 == u2 && p1 == p2
  {
    if ServiceKey(u1, p1) == ServiceKey(u2, p2) {
      var k := ServiceKey(u1, p1);
      assert k[0] == (if u1 then 'u' else 't') == (if u2 then 'u' else 't');
      assert Decimal(p1) == k[4..] == Decimal(p2);
      DecimalInjective(p1, p2);
    }
  }

  /** A key of the agent namespace: `agent:` followed by anything. */
  predicate IsAgentKey(k: string) {
    |k| >= 6 && k[..6] == "agent:"
  }

  /**
   * The three namespaces never collide, and within each the key determines
   * the name or uuid it was formatted from.
   */
  lemma KeyNamespaces(a: string, b: string, c: string, d: string)
    ensures IsAgentKey(AgentKey(a)) && !IsAgentKey(AgentSdpKey(b)) && !IsAgentKey(ClientSdpKey(c))
    ensures AgentSdpKey(b) != ClientSdpKey(c)
    ensures AgentKey(a) == AgentKey(d) <==> a == d
    ensures AgentSdpKey(b) == AgentSdpKey(d) <==> b == d
    ensures ClientSdpKey(c) == ClientSdpKey(d) <==> c == d
  {
    assert AgentSdpKey(b)[5] == '_';
    assert AgentSdpKey(b)[0] != ClientSdpKey(c)[0];
    if AgentKey(a) == AgentKey(d) { assert a == AgentKey(a)[6..] == AgentKey(d)[6..] == d; }
    if AgentSdpKey(b) == AgentSdpKey(d) { assert b == AgentSdpKey(b)[10..] == AgentSdpKey(d)[10..] == d; }
    if ClientSdpKey(c) == ClientSdpKey(d) { assert c == ClientSdpKey(c)[11..] == ClientSdpKey(d)[11..] == d; }
  }

  // ----- BTreeMap<String, V> -----

  predicate Ordered<V>(t: seq<(string, V)>) {
    forall i, j :: 0 <= i < j < |t| ==> LexLt(t[i].0, t[j].0)
  }

  type Tree<V> = t: seq<(string, V)> | Ordered(t) witness []

  /** Every key of `t` is above `b`. */
  predicate Above<V>(b: string, t: seq<(string, V)>) {
    forall i :: 0 <= i < |t| ==> LexLt(b, t[i].0)
  }

  lemma LexLtTransitive(a: string, b: string, c: string)
    requires LexLt(a, b) && LexLt(b, c)
    ensures LexLt(a, c)
  {
    LexLeTransitive(a, b, c);
    if a == c { LexLeAntisymmetric(a, b); }
  }

  /** `map.get(k)`. */
  function Get<V>(t: Tree<V>, k: string): (r: Option<V>)
    ensures r.Some? ==> (k, r.value) in t
    ensures r.None? <==> forall i :: 0 <= i < |t| ==> t[i].0 != k
  {
    if t == [] then None
    else if t[0].0 == k then Some(t[0].1)
    else
      assert forall i :: 1 <= i < |t| ==> t[1..][i - 1] == t[i];
      Get(t[1..], k)
  }

  /**
   * `map.insert(k, v)`: the new tree sends `k` to `v`, every other key to
   * what it held, and stays sorted.
   */
  function Insert<V>(t: Tree<V>, k: string, v: V): (r: Tree<V>)
    ensures Get(r, k) == Some(v)
    ensures forall k' :: k' != k ==> Get(r, k') == Get(t, k')
    ensures forall b :: Above(b, t) && LexLt(b, k) ==> Above(b, r)
    decreases |t|
  {
    if t == [] then [(k, v)]
    else if t[0].0 == k then
      InsertReplace(t, k, v);
      [(k, v)] + t[1..]
    else if LexLe(k, t[0].0) then
      InsertBelow(t, k, v);
      GetCons((k, v), t);
      [(k, v)] + t
    else
      LexLeTotal(k, t[0].0);
      var rest := Insert(t[1..], k, v);
      InsertPast(t, k, v, rest);
      [t[0]] + rest
  }

  /** `r` is `t` with `k` sent to `v`, as `Insert` promises. */
  ghost predicate Inserted<V>(t: Tree<V>, k: string, v: V, r: Tree<V>) {
    && Get(r, k) == Some(v)
    && (forall k' :: k' != k ==> Get(r, k') == Get(t, k'))
    && (forall b :: Above(b, t) && LexLt(b, k) ==> Above(b, r))
  }

  lemma InsertReplace<V>(t: Tree<V>, k: string, v: V)
    requires |t| > 0 && t[0].0 == k
    ensures Ordered([(k, v)] + t[1..]) && Inserted(t, k, v, [(k, v)] + t[1..])
  {
    ConsOrdered((k, v), t[1..]);
    GetCons((k, v), t[1..]);
    GetCons(t[0], t[1..]);
  }

  lemma InsertPast<V>(t: Tree<V>, k: string, v: V, rest: Tree<V>)
    requires |t| > 0 && LexLt(t[0].0, k)
    requires Get(rest, k) == Some(v)
    requires forall k' :: k' != k ==> Get(rest, k') == Get(t[1..], k')
    requires forall b :: Above(b, t[1..]) && LexLt(b, k) ==> Above(b, rest)
    ensures Ordered([t[0]] + rest) && Inserted(t, k, v, [t[0]] + rest)
  {
    var tail := t[1..];
    assert t == [t[0]] + tail;
    assert Above(t[0].0, tail) by {
      forall i | 0 <= i < |tail| ensures LexLt(t[0].0, tail[i].0) {
        assert tail[i] == t[i + 1];
      }
    }
    ConsOrdered(t[0], rest);
    var r: Tree<V> := [t[0]] + rest;
    GetCons(t[0], tail);
    GetCons(t[0], rest);
    assert Get(r, k) == Some(v);
    assert forall k' :: k' != k ==> Get(r, k') == Get(t, k');
    assert forall b :: Above(b, t) && LexLt(b, k) ==> Above(b, r);
  }

  lemma ConsOrdered<V>(x: (string, V), t: Tree<V>)
    requires Above(x.0, t)
    ensures Ordered([x] + t)
  {
    assert forall j :: 1 <= j < |[x] + t| ==> ([x] + t)[j] == t[j - 1];
  }

  lemma GetCons<V>(x: (string, V), t: Tree<V>)
    requires Ordered([x] + t)
    ensures forall k :: Get([x] + t, k) == (if x.0 == k then Some(x.1) else Get(t, k))
    ensures forall b :: Above(b, [x] + t) <==> LexLt(b, x.0) && Above(b, t)
  {
    var xt := [x] + t;
    assert xt[1..] == t;
    forall b
      ensures Above(b, xt) <==> LexLt(b, x.0) && Above(b, t)
    {
      if LexLt(b, x.0) && Above(b, t) {
        forall j | 0 <= j < |xt|
          ensures LexLt(b, xt[j].0)
        {
          if j > 0 { assert xt[j] == t[j - 1]; }
        }
      }
      if Above(b, xt) {
        assert LexLt(b, xt[0].0);
        forall j | 0 <= j < |t|
          ensures LexLt(b, t[j].0)
        {
          assert xt[j + 1] == t[j];
        }
      }
    }
  }

  lemma InsertBelow<V>(t: Tree<V>, k: string, v: V)
    requires |t| > 0 && LexLt(k, t[0].0)
    ensures Ordered([(k, v)] + t)
  {
    forall j | 0 <= j < |t|
      ensures LexLt(k, t[j].0)
    {
      if j > 0 { LexLtTransitive(k, t[0].0, t[j].0); }
    }
    ConsOrdered((k, v), t);
  }

  /** `map.values()`: the records in ascending key order. */
  function Values<V>(t: Tree<V>): (r: seq<V>)
    ensures |r| == |t| && forall i :: 0 <= i < |t| ==> r[i] == t[i].1
  {
    if t == [] then [] else [t[0].1] + Values(t[1..])
  }

  /** A key of an ordered tree reaches the record stored beside it. */
  lemma {:induction false} GetAt<V>(t: Tree<V>, i: nat)
    requires i < |t|
    ensures Get(t, t[i].0) == Some(t[i].1)
    decreases i
  {
    if i > 0 {
      assert t[0].0 != t[i].0;
      assert t[1..][i - 1] == t[i];
      GetAt(t[1..], i - 1);
    }
  }

  // ----- The KV namespace -----

  datatype Stored = Agents(agents: Tree<Agent>) | Sdps(sdps: Tree<Sdp>)

  /** A stored map together with the expiration TTL it was written with. */
  datatype Entry = Entry(stored: Stored, ttl: nat)

  type Kv = map<string, Entry>

  /** `serde_json::from_str(..).unwrap()` met a map of the other record type. */
  datatype StoreError = Corrupt(key: string)

  /** `kv` and `kv'` agree on every key except `key`. */
  ghost predicate Only(kv: Kv, kv': Kv, key: string) {
    forall k :: k != key ==> (k in kv <==> k in kv') && (k in kv ==> kv'[k] == kv[k])
  }

  /** The agent map stored at `key`; None when nothing was read. */
  function LoadAgents(kv: Kv, readFails: bool, key: string): Result<Option<Tree<Agent>>, StoreError> {
    if readFails || key !in kv then Ok(None)
    else match kv[key].stored
      case Agents(t) => Ok(Some(t))
      case Sdps(_) => Err(Corrupt(key))
  }

  /** The SDP map stored at `key`; None when nothing was read. */
  function LoadSdps(kv: Kv, readFails: bool, key: string): Result<Option<Tree<Sdp>>, StoreError> {
    if readFails || key !in kv then Ok(None)
    else match kv[key].stored
      case Sdps(t) => Ok(Some(t))
      case Agents(_) => Err(Corrupt(key))
  }

  /**
   * The map an upsert writes back, or None when the loaded map already
   * sends `k` to a record equal to `v` and nothing is written. A map that
   * was not read starts empty.
   */
  function Upserted<V(==)>(loaded: Option<Tree<V>>, k: string, v: V): (r: Option<Tree<V>>)
    ensures r.None? <==> loaded.Some? && Get(loaded.value, k) == Some(v)
    ensures r.Some? ==> Get(r.value, k) == Some(v)
    ensures r.Some? && loaded.Some? ==> forall k' :: k' != k ==> Get(r.value, k') == Get(loaded.value, k')
    ensures r.Some? && loaded.None? ==> r.value == [(k, v)]
  {
    if loaded.None? then Some(Insert([], k, v))
    else if Get(loaded.value, k) == Some(v) then None
    else Some(Insert(loaded.value, k, v))
  }

  /**
   * `insert_or_update_agent`: registers `agent` under its uuid in the map of
   * agents called `name`, unless that map already holds an equal record.
   */
  function UpsertAgent(kv: Kv, readFails: bool, name: string, agent: Agent): (r: Result<Kv, StoreError>)
    ensures r.Err? <==> !readFails && AgentKey(name) in kv && kv[AgentKey(name)].stored.Sdps?
    ensures r.Ok? ==> Only(kv, r.value, AgentKey(name))
    ensures r.Ok? ==> (AgentKey(name) in r.value && r.value[AgentKey(name)].stored.Agents?
      && Get(r.value[AgentKey(name)].stored.agents, agent.uuid) == Some(agent))
    ensures r.Ok? && r.value != kv ==> r.value[AgentKey(name)].ttl == ExpirationTtl
    ensures r.Ok? && !readFails && AgentKey(name) in kv ==> forall u :: u != agent.uuid ==>
      Get(r.value[AgentKey(name)].stored.agents, u) == Get(kv[AgentKey(name)].stored.agents, u)
    ensures readFails || AgentKey(name) !in kv ==>
      r == Ok(kv[AgentKey(name) := Entry(Agents([(agent.uuid, agent)]), ExpirationTtl)])
    ensures !readFails && AgentKey(name) in kv && kv[AgentKey(name)].stored.Agents? ==>
      (Get(kv[AgentKey(name)].stored.agents, agent.uuid) == Some(agent) <==> r == Ok(kv))
  {
    var key := AgentKey(name);
    match LoadAgents(kv, readFails, key)
    case Err(e) => Err(e)
    case Ok(loaded) =>
      match Upserted(loaded, agent.uuid, agent)
      case None => Ok(kv)
      case Some(t) => Ok(kv[key := Entry(Agents(t), ExpirationTtl)])
  }

  /**
   * `insert_or_update_client_sdp` and `insert_or_update_agent_sdp`: store
   * `sdp` in the map at `key` under its service key, unless that map already
   * holds an equal record.
   */
  function UpsertSdp(kv: Kv, readFails: bool, key: string, sdp: Sdp): (r: Result<Kv, StoreError>)
    ensures r.Err? <==> !readFails && key in kv && kv[key].stored.Agents?
    ensures r.Ok? ==> Only(kv, r.value, key)
    ensures r.Ok? ==> (key in r.value && r.value[key].stored.Sdps?
      && Get(r.value[key].stored.sdps, ServiceKey(sdp.isUdp, sdp.port)) == Some(sdp))
    ensures r.Ok? && r.value != kv ==> r.value[key].ttl == ExpirationTtl
  {
    match LoadSdps(kv, readFails, key)
    case Err(e) => Err(e)
    case Ok(loaded) =>
      match Upserted(loaded, ServiceKey(sdp.isUdp, sdp.port), sdp)
      case None => Ok(kv)
      case Some(t) => Ok(kv[key := Entry(Sdps(t), ExpirationTtl)])
  }

  function UpsertClientSdp(kv: Kv, readFails: bool, uuid: string, sdp: Sdp): (r: Result<Kv, StoreError>)
    ensures r.Ok? ==> Only(kv, r.value, ClientSdpKey(uuid))
    ensures r.Ok? ==> ClientSdpKey(uuid) in r.value && r.value[ClientSdpKey(uuid)].stored.Sdps?
  {
    UpsertSdp(kv, readFails, ClientSdpKey(uuid), sdp)
  }

  function UpsertAgentSdp(kv: Kv, readFails: bool, uuid: string, sdp: Sdp): (r: Result<Kv, StoreError>)
    ensures r.Ok? ==> Only(kv, r.value, AgentSdpKey(uuid))
    ensures r.Ok? ==> AgentSdpKey(uuid) in r.value && r.value[AgentSdpKey(uuid)].stored.Sdps?
  {
    UpsertSdp(kv, readFails, AgentSdpKey(uuid), sdp)
  }

  /** `query_agent`: the agents registered under `name`, in uuid order. */
  function QueryAgent(kv: Kv, readFails: bool, name: string): (r: Result<seq<Agent>, StoreError>)
    ensures r.Err? <==> !readFails && AgentKey(name) in kv && kv[AgentKey(name)].stored.Sdps?
    ensures readFails || AgentKey(name) !in kv ==> r == Ok([])
    ensures r.Ok? && !readFails && AgentKey(name) in kv ==>
      r.value == Values(kv[AgentKey(name)].stored.agents)
  {
    match LoadAgents(kv, readFails, AgentKey(name))
    case Err(e) => Err(e)
    case Ok(None) => Ok([])
    case Ok(Some(t)) => Ok(Values(t))
  }

  /** `query_client_sdp` and `query_agent_sdp`: the records at `key`, in service-key order. */
  function QuerySdps(kv: Kv, readFails: bool, key: string): (r: Result<seq<Sdp>, StoreError>)
    ensures r.Err? <==> !readFails && key in kv && kv[key].stored.Agents?
    ensures readFails || key !in kv ==> r == Ok([])
    ensures r.Ok? && !readFails && key in kv ==> r.value == Values(kv[key].stored.sdps)
  {
    match LoadSdps(kv, readFails, key)
    case Err(e) => Err(e)
    case Ok(None) => Ok([])
    case Ok(Some(t)) => Ok(Values(t))
  }

  function QueryClientSdp(kv: Kv, readFails: bool, uuid: string): (r: Result<seq<Sdp>, StoreError>)
    ensures ClientSdpKey(uuid) !in kv ==> r == Ok([])
  {
    QuerySdps(kv, readFails, ClientSdpKey(uuid))
  }

  function QueryAgentSdp(kv: Kv, readFails: bool, uuid: string): (r: Result<seq<Sdp>, StoreError>)
    ensures AgentSdpKey(uuid) !in kv ==> r == Ok([])
  {
    QuerySdps(kv, readFails, AgentSdpKey(uuid))
  }

  // ----- Properties -----

  /** Republishing a record equal to the stored one writes nothing (and refreshes no TTL). */
  lemma EqualRepublishSkipsWrite(kv: Kv, name: string, uuid: string, sdp: Sdp, agent: Agent)
    ensures AgentKey(name) in kv && kv[AgentKey(name)].stored.Agents?
      && Get(kv[AgentKey(name)].stored.agents, agent.uuid) == Some(agent)
      ==> UpsertAgent(kv, false, name, agent) == Ok(kv)
    ensures uuid in kv && kv[uuid].stored.Sdps?
      && Get(kv[uuid].stored.sdps, ServiceKey(sdp.isUdp, sdp.port)) == Some(sdp)
      ==> UpsertSdp(kv, false, uuid, sdp) == Ok(kv)
  {
  }

  /**
   * A record that was read back is kept; when the read fails the code writes
   * a map holding only the new record, dropping the others.
   */
  lemma UpsertSdpSiblings(kv: Kv, readFails: bool, key: string, sdp: Sdp)
    requires UpsertSdp(kv, readFails, key, sdp).Ok?
    ensures var kv' := UpsertSdp(kv, readFails, key, sdp).value;
      !readFails && key in kv ==> forall k :: k != ServiceKey(sdp.isUdp, sdp.port) ==>
        Get(kv'[key].stored.sdps, k) == Get(kv[key].stored.sdps, k)
    ensures readFails ==> (UpsertSdp(kv, readFails, key, sdp).value
      == kv[key := Entry(Sdps([(ServiceKey(sdp.isUdp, sdp.port), sdp)]), ExpirationTtl)])
  {
  }

  /** Every sub-key names the record it holds: its uuid, or its service key. */
  predicate Keyed(s: Stored) {
    match s
    case Agents(t) => forall i :: 0 <= i < |t| ==> t[i].0 == t[i].1.uuid
    case Sdps(t) => forall i :: 0 <= i < |t| ==> t[i].0 == ServiceKey(t[i].1.isUdp, t[i].1.port)
  }

  /**
   * The store as the worker's own writes leave it: agent maps exactly under
   * `agent:` keys, and every map keyed by what its records say.
   */
  ghost predicate WellTyped(kv: Kv) {
    forall k :: k in kv ==> (kv[k].stored.Agents? <==> IsAgentKey(k)) && Keyed(kv[k].stored)
  }

  lemma InsertKeyed<V>(t: Tree<V>, k: string, v: V, key: V -> string)
    requires forall i :: 0 <= i < |t| ==> t[i].0 == key(t[i].1)
    requires k == key(v)
    ensures forall i :: 0 <= i < |Insert(t, k, v)| ==> Insert(t, k, v)[i].0 == key(Insert(t, k, v)[i].1)
  {
    var r := Insert(t, k, v);
    forall i | 0 <= i < |r|
      ensures r[i].0 == key(r[i].1)
    {
      GetAt(r, i);
      if r[i].0 != k {
        assert (r[i].0, r[i].1) in t;
      }
    }
  }

  /** The worker's writes keep the store well typed, so none of its reads panic. */
  lemma UpsertsPreserveWellTyped(kv: Kv, readFails: bool, name: string, agent: Agent, uuid: string, sdp: Sdp)
    requires WellTyped(kv)
    ensures UpsertAgent(kv, readFails, name, agent).Ok? && WellTyped(UpsertAgent(kv, readFails, name, agent).value)
    ensures UpsertClientSdp(kv, readFails, uuid, sdp).Ok? && WellTyped(UpsertClientSdp(kv, readFails, uuid, sdp).value)
    ensures UpsertAgentSdp(kv, readFails, uuid, sdp).Ok? && WellTyped(UpsertAgentSdp(kv, readFails, uuid, sdp).value)
    ensures QueryAgent(kv, readFails, name).Ok?
    ensures QueryClientSdp(kv, readFails, uuid).Ok? && QueryAgentSdp(kv, readFails, uuid).Ok?
  {
    KeyNamespaces(name, uuid, uuid, uuid);
    AgentUpsertWellTyped(kv, readFails, name, agent);
    SdpUpsertWellTyped(kv, readFails, ClientSdpKey(uuid), sdp);
    SdpUpsertWellTyped(kv, readFails, AgentSdpKey(uuid), sdp);
  }

  lemma AgentUpsertWellTyped(kv: Kv, readFails: bool, name: string, agent: Agent)
    requires WellTyped(kv)
    ensures UpsertAgent(kv, readFails, name, agent).Ok? && WellTyped(UpsertAgent(kv, readFails, name, agent).value)
  {
    var ak := AgentKey(name);
    KeyNamespaces(name, "", "", "");
    if !readFails && ak in kv {
      InsertKeyed(kv[ak].stored.agents, agent.uuid, agent, (a: Agent) => a.uuid);
    } else {
      InsertKeyed([], agent.uuid, agent, (a: Agent) => a.uuid);
    }
  }

  lemma SdpUpsertWellTyped(kv: Kv, readFails: bool, key: string, sdp: Sdp)
    requires WellTyped(kv) && !IsAgentKey(key)
    ensures UpsertSdp(kv, readFails, key, sdp).Ok? && WellTyped(UpsertSdp(kv, readFails, key, sdp).value)
  {
    var sk := (s: Sdp) => ServiceKey(s.isUdp, s.port);
    if !readFails && key in kv {
      InsertKeyed(kv[key].stored.sdps, sk(sdp), sdp, sk);
    } else {
      InsertKeyed([], sk(sdp), sdp, sk);
    }
  }

  /** In a well-typed store, a uuid has at most one SDP record per service. */
  lemma OneSdpPerService(kv: Kv, key: string, i: nat, j: nat)
    requires WellTyped(kv) && key in kv && !IsAgentKey(key)
    requires i < j < |QuerySdps(kv, false, key).value|
    ensures var q := QuerySdps(kv, false, key).value;
      (q[i].isUdp, q[i].port) != (q[j].isUdp, q[j].port)
  {
    var t := kv[key].stored.sdps;
    assert Keyed(kv[key].stored);
    assert LexLt(t[i].0, t[j].0);
    ServiceKeyInjective(t[i].1.isUdp, t[i].1.port, t[j].1.isUdp, t[j].1.port);
  }

  lemma ValuesHold<V>(t: Tree<V>, k: string, v: V)
    requires Get(t, k) == Some(v)
    ensures v in Values(t)
  {
    var i :| 0 <= i < |t| && t[i] == (k, v);
    assert Values(t)[i] == v;
  }

  /** After an upsert, a query of the same map returns the record. */
  lemma QueryAfterUpsert(kv: Kv, readFails: bool, name: string, agent: Agent, key: string, sdp: Sdp)
    ensures UpsertAgent(kv, readFails, name, agent).Ok? ==>
      QueryAgent(UpsertAgent(kv, readFails, name, agent).value, false, name).Ok?
      && agent in QueryAgent(UpsertAgent(kv, readFails, name, agent).value, false, name).value
    ensures UpsertSdp(kv, readFails, key, sdp).Ok? ==>
      QuerySdps(UpsertSdp(kv, readFails, key, sdp).value, false, key).Ok?
      && sdp in QuerySdps(UpsertSdp(kv, readFails, key, sdp).value, false, key).value
  {
    var ra := UpsertAgent(kv, readFails, name, agent);
    if ra.Ok? {
      ValuesHold(ra.value[AgentKey(name)].stored.agents, agent.uuid, agent);
    }
    QueryAfterSdpUpsert(kv, readFails, key, sdp);
  }

  lemma QueryAfterSdpUpsert(kv: Kv, readFails: bool, key: string, sdp: Sdp)
    ensures UpsertSdp(kv, readFails, key, sdp).Ok? ==>
      QuerySdps(UpsertSdp(kv, readFails, key, sdp).value, false, key).Ok?
      && sdp in QuerySdps(UpsertSdp(kv, readFails, key, sdp).value, false, key).value
  {
    var rs := UpsertSdp(kv, readFails, key, sdp);
    if rs.Ok? {
      ValuesHold(rs.value[key].stored.sdps, ServiceKey(sdp.isUdp, sdp.port), sdp);
    }
  }
}
