/**
 * `IceEndpoint::test` and `test_connectivity`: both candidate lists sorted
 * by descending priority, then every (local, remote) pair tried in
 * nested-loop order until one answers.
 *
 * Sockets are replaced by an oracle: whether binding a local port succeeds,
 * and how one probe datagram exchange ends. What the model keeps exactly is
 * the pair order, the greedy return and the port-to-socket bookkeeping.
 */
module Prober {
  import opened Wrappers
  import opened Records
  import opened Candidates

  // ----- Stable sort by descending priority -----

  predicate Descending(s: seq<Candidate>) {
    forall i, j :: 0 <= i < j < |s| ==> s[i].priority >= s[j].priority
  }

  /** The candidates of priority `p`, in their order in `s`. */
  function WithPriority(s: seq<Candidate>, p: U32): (r: seq<Candidate>)
    decreases |s|
  {
    if |s| == 0 then []
    else if s[0].priority == p then [s[0]] + WithPriority(s[1..], p)
    else WithPriority(s[1..], p)
  }

  lemma WithPriorityCons(x: Candidate, s: seq<Candidate>, p: U32)
    ensures WithPriority([x] + s, p) == if x.priority == p then [x] + WithPriority(s, p) else WithPriority(s, p)
  {
    assert ([x] + s)[1..] == s;
  }

  /** Places `c` before the first element it does not outrank, after every element that outranks it. */
  function InsertByPriority(c: Candidate, s: seq<Candidate>): (r: seq<Candidate>)
    requires Descending(s)
    ensures Descending(r) && multiset(r) == multiset(s) + multiset{c}
    decreases |s|
  {
    if |s| == 0 then [c]
    else if s[0].priority <= c.priority then [c] + s
    else
      var t := InsertByPriority(c, s[1..]);
      assert s == [s[0]] + s[1..];
      OutrankedByHead(c, s, t);
      [s[0]] + t
  }

  lemma OutrankedByHead(c: Candidate, s: seq<Candidate>, t: seq<Candidate>)
    requires |s| > 0 && Descending(s) && s[0].priority > c.priority
    requires multiset(t) == multiset(s[1..]) + multiset{c}
    ensures forall j :: 0 <= j < |t| ==> t[j].priority <= s[0].priority
  {
    forall j | 0 <= j < |t| ensures t[j].priority <= s[0].priority {
      assert t[j] in multiset(t);
      if t[j] != c {
        assert t[j] in multiset(s[1..]);
        var k :| 0 <= k < |s[1..]| && s[1..][k] == t[j];
        assert s[k + 1] == t[j];
      }
    }
  }

  /** Inserting keeps every priority class in order, with `c` ahead of its equals. */
  lemma {:induction false} InsertByPriorityStable(c: Candidate, s: seq<Candidate>, p: U32)
    requires Descending(s)
    ensures WithPriority(InsertByPriority(c, s), p)
      == if c.priority == p then [c] + WithPriority(s, p) else WithPriority(s, p)
    decreases |s|
  {
    if |s| == 0 {
      WithPriorityCons(c, [], p);
    } else if s[0].priority <= c.priority {
      WithPriorityCons(c, s, p);
    } else {
      var t := InsertByPriority(c, s[1..]);
      assert s == [s[0]] + s[1..];
      InsertByPriorityStable(c, s[1..], p);
      WithPriorityCons(s[0], t, p);
      WithPriorityCons(s[0], s[1..], p);
    }
  }

  /**
   * `sort_by(|a, b| b.priority().cmp(&a.priority()))`: the result is a
   * permutation of the input ordered by descending priority.
   */
  function SortByPriority(s: seq<Candidate>): (r: seq<Candidate>)
    ensures Descending(r) && multiset(r) == multiset(s) && |r| == |s|
    decreases |s|
  {
    if |s| == 0 then []
    else
      assert s == [s[0]] + s[1..];
      InsertByPriority(s[0], SortByPriority(s[1..]))
  }

  /** The sort is stable: candidates of equal priority keep their input order. */
  lemma {:induction false} SortByPriorityStable(s: seq<Candidate>, p: U32)
    ensures WithPriority(SortByPriority(s), p) == WithPriority(s, p)
    decreases |s|
  {
    if |s| > 0 {
      assert s == [s[0]] + s[1..];
      SortByPriorityStable(s[1..], p);
      InsertByPriorityStable(s[0], SortByPriority(s[1..]), p);
      WithPriorityCons(s[0], s[1..], p);
    }
  }

  // ----- One connectivity check -----

  /** How one `send_to` / `recv_from` exchange under the 1-second timeout ended. */
  datatype ProbeOutcome = Replied | SendFailed | ReceiveFailed | TimedOut

  /** The network as seen by the prober. */
  datatype Net = Net(bind: Port -> bool, probe: (Candidate, Candidate) -> ProbeOutcome)

  /** A pair passes when its local port can be bound and the probe is answered in time. */
  predicate Passes(net: Net, local: Candidate, remote: Candidate) {
    net.bind(local.port) && net.probe(local, remote) == Replied
  }

  predicate NoDuplicates(ports: seq<Port>) {
    forall i, j :: 0 <= i < j < |ports| ==> ports[i] != ports[j]
  }

  /** Every port in `bound` was bound successfully. */
  predicate AllBound(net: Net, bound: seq<Port>) {
    forall i :: 0 <= i < |bound| ==> net.bind(bound[i])
  }

  /**
   * `test_connectivity`. `bound` lists the ports of the sockets opened so far
   * in this sweep, in opening order (the keys of `unique_ports`). A port is
   * bound only when it has no socket yet; a failed bind answers false and
   * leaves the sockets as they were; a send error, a receive error or a
   * timeout answers false.
   */
  function TestConnectivity(net: Net, local: Candidate, remote: Candidate, bound: seq<Port>): (r: (bool, seq<Port>))
    ensures local.port in bound ==> r.1 == bound
    ensures local.port !in bound && !net.bind(local.port) ==> r == (false, bound)
    ensures local.port !in bound && net.bind(local.port) ==> r.1 == bound + [local.port]
    ensures r.0 ==> net.probe(local, remote) == Replied
    ensures NoDuplicates(bound) ==> NoDuplicates(r.1)
    ensures AllBound(net, bound) ==> AllBound(net, r.1) && (r.0 <==> Passes(net, local, remote))
  {
    if local.port !in bound && !net.bind(local.port) then (false, bound)
    else
      var bound' := if local.port in bound then bound else bound + [local.port];
      assert AllBound(net, bound) && local.port in bound ==> net.bind(local.port);
      (net.probe(local, remote) == Replied, bound')
  }

  // ----- The sweep -----

  /** Pair (i', j') comes before pair (i, j) in nested-loop order. */
  predicate Before(i': nat, j': nat, i: nat, j: nat) {
    i' < i || (i' == i && j' < j)
  }

  /**
   * `found` is the first passing pair at or after (i, j) in nested-loop
   * order, or None when no pair from (i, j) on passes.
   */
  predicate FirstFrom(net: Net, ls: seq<Candidate>, rs: seq<Candidate>, i: nat, j: nat, found: Option<(nat, nat)>) {
    match found
    case Some((fi, fj)) =>
      && fi < |ls| && fj < |rs| && !Before(fi, fj, i, j)
      && Passes(net, ls[fi], rs[fj])
      && forall i', j' :: 0 <= i' < |ls| && 0 <= j' < |rs| && !Before(i', j', i, j) && Before(i', j', fi, fj)
           ==> !Passes(net, ls[i'], rs[j'])
    case None =>
      forall i', j' :: 0 <= i' < |ls| && 0 <= j' < |rs| && !Before(i', j', i, j) ==> !Passes(net, ls[i'], rs[j'])
  }

  /** Past the end of row i, the search goes on from the start of row i + 1. */
  lemma FirstFromNextRow(net: Net, ls: seq<Candidate>, rs: seq<Candidate>, i: nat, found: Option<(nat, nat)>)
    requires FirstFrom(net, ls, rs, i + 1, 0, found)
    ensures FirstFrom(net, ls, rs, i, |rs|, found)
  {
  }

  /** A failing pair (i, j) passes the search on to (i, j + 1). */
  lemma FirstFromNextPair(net: Net, ls: seq<Candidate>, rs: seq<Candidate>, i: nat, j: nat, found: Option<(nat, nat)>)
    requires i < |ls| && j < |rs| && !Passes(net, ls[i], rs[j])
    requires FirstFrom(net, ls, rs, i, j + 1, found)
    ensures FirstFrom(net, ls, rs, i, j, found)
  {
  }

  /**
   * The nested loops from pair (i, j) on: the first passing pair at or after
   * (i, j), as indices into the sorted lists, and the sockets bound.
   */
  function Sweep(net: Net, ls: seq<Candidate>, rs: seq<Candidate>, i: nat, j: nat, bound: seq<Port>)
    : (r: (Option<(nat, nat)>, seq<Port>))
    requires i <= |ls| && j <= |rs|
    requires NoDuplicates(bound) && AllBound(net, bound)
    ensures NoDuplicates(r.1) && AllBound(net, r.1)
    ensures forall k :: 0 <= k < |r.1| ==> r.1[k] in bound || r.1[k] in Ports(ls)
    ensures FirstFrom(net, ls, rs, i, j, r.0)
    decreases |ls| - i, |rs| - j
  {
    if i == |ls| then (None, bound)
    else if j == |rs| then
      var r := Sweep(net, ls, rs, i + 1, 0, bound);
      FirstFromNextRow(net, ls, rs, i, r.0);
      r
    else
      var (ok, bound') := TestConnectivity(net, ls[i], rs[j], bound);
      if ok then (Some((i, j)), bound')
      else
        var r := Sweep(net, ls, rs, i, j + 1, bound');
        FirstFromNextPair(net, ls, rs, i, j, r.0);
        r
  }

  /** Pair (i, j) passes and every pair before it in nested-loop order fails. */
  predicate FirstPassing(net: Net, ls: seq<Candidate>, rs: seq<Candidate>, i: nat, j: nat) {
    && i < |ls| && j < |rs|
    && Passes(net, ls[i], rs[j])
    && forall i', j' :: 0 <= i' < |ls| && 0 <= j' < |rs| && Before(i', j', i, j) ==> !Passes(net, ls[i'], rs[j'])
  }

  /** `pair` is the pair at the first passing position. */
  predicate IsFirstPassingPair(net: Net, ls: seq<Candidate>, rs: seq<Candidate>, pair: (Candidate, Candidate)) {
    exists i, j :: 0 <= i < |ls| && 0 <= j < |rs| && FirstPassing(net, ls, rs, i, j) && pair == (ls[i], rs[j])
  }

  predicate NonePasses(net: Net, ls: seq<Candidate>, rs: seq<Candidate>) {
    forall i, j :: 0 <= i < |ls| && 0 <= j < |rs| ==> !Passes(net, ls[i], rs[j])
  }

  /** The sweep from the first pair finds the first passing pair, or reports that none passes. */
  lemma SweepFromStart(net: Net, ls: seq<Candidate>, rs: seq<Candidate>)
    ensures var r := Sweep(net, ls, rs, 0, 0, []);
      && (r.0.Some? ==> FirstPassing(net, ls, rs, r.0.value.0, r.0.value.1))
      && (r.0.None? <==> NonePasses(net, ls, rs))
  {
    var r := Sweep(net, ls, rs, 0, 0, []);
    if r.0.Some? {
      var (i, j) := r.0.value;
      assert Passes(net, ls[i], rs[j]);
    }
  }

  /** The ports of a list of candidates. */
  function Ports(cs: seq<Candidate>): set<Port> {
    set c | c in cs :: c.port
  }

  /**
   * `IceEndpoint::test`. Returns the first pair, in nested-loop order over
   * both lists sorted by descending priority, whose check passes, and None
   * exactly when no pair passes: a failing pair never ends the sweep. Also
   * returns the ports bound during the sweep, each at most once and each the
   * port of some local candidate.
   */
  function Test(net: Net, local: IceEndpoint, remote: IceEndpoint): (r: (Option<(Candidate, Candidate)>, seq<Port>))
    ensures var ls := SortByPriority(local.candidates); var rs := SortByPriority(remote.candidates);
      && (r.0.Some? ==> IsFirstPassingPair(net, ls, rs, r.0.value))
      && (r.0.None? <==> NonePasses(net, ls, rs))
    ensures NoDuplicates(r.1)
    ensures forall k :: 0 <= k < |r.1| ==> r.1[k] in Ports(local.candidates)
  {
    var ls := SortByPriority(local.candidates);
    var rs := SortByPriority(remote.candidates);
    var sweep := Sweep(net, ls, rs, 0, 0, []);
    SweepFromStart(net, ls, rs);
    SamePorts(local.candidates, ls);
    if sweep.0.None? then (None, sweep.1)
    else
      var (i, j) := sweep.0.value;
      assert FirstPassing(net, ls, rs, i, j);
      assert IsFirstPassingPair(net, ls, rs, (ls[i], rs[j]));
      (Some((ls[i], rs[j])), sweep.1)
  }

  lemma SamePorts(a: seq<Candidate>, b: seq<Candidate>)
    requires multiset(a) == multiset(b)
    ensures Ports(a) == Ports(b)
  {
    forall c | c in a ensures c in b {
      assert c in multiset(a);
    }
    forall c | c in b ensures c in a {
      assert c in multiset(b);
    }
  }

  /**
   * An instance of the sweep order: locals A (priority 10) and B (5),
   * remotes X (20) and Y (1), and only (B, Y) reachable. The sweep does not
   * stop after the higher-priority pairs fail; it returns (B, Y).
   */
  lemma GreedyFindsLowPriorityPair(a: Candidate, b: Candidate, x: Candidate, y: Candidate)
    requires a.priority == 10 && b.priority == 5 && x.priority == 20 && y.priority == 1
    requires a != b
    ensures var net := Net(_ => true, (l, r) => if l == b && r == y then Replied else TimedOut);
      Test(net, IceEndpoint([a, b]), IceEndpoint([x, y])).0 == Some((b, y))
  {
    var net := Net(_ => true, (l, r) => if l == b && r == y then Replied else TimedOut);
    SortTwo(a, b);
    SortTwo(x, y);
    var ls := SortByPriority([a, b]);
    var rs := SortByPriority([x, y]);
    assert Passes(net, ls[1], rs[1]);
    var found := Test(net, IceEndpoint([a, b]), IceEndpoint([x, y])).0;
    assert found.Some?;
    var i, j :| 0 <= i < |ls| && 0 <= j < |rs| && FirstPassing(net, ls, rs, i, j) && found.value == (ls[i], rs[j]);
    assert ls[i] == b && rs[j] == y;
  }

  /** Two candidates already in descending priority order stay put. */
  lemma SortTwo(c: Candidate, d: Candidate)
    requires c.priority > d.priority
    ensures SortByPriority([c, d]) == [c, d]
  {
    assert [c, d][1..] == [d];
    assert [d][1..] == [];
  }
}
