/**
 * `IceEndpoint::collect`: several gathering rounds folded into one map keyed
 * by candidate address, so that a later candidate for an address replaces an
 * earlier one. The ICE agent, its callbacks and its completion channel are
 * replaced by a per-round oracle that yields the round's candidates in the
 * order the callback saw them, or the error that aborted the round.
 */
module Gathering {
  import opened Wrappers
  import opened Candidates

  /** `Agent::new` or `gather_candidates` failed in some round. */
  datatype GatherError = RoundFailed(round: nat)

  /** The outcome of gathering round `i`: the candidates reported in order, or None on failure. */
  type Rounds = nat -> Option<seq<Candidate>>

  /** The last candidate with address `a` in `cs`, if any. */
  function LastAt(cs: seq<Candidate>, a: string): (r: Option<Candidate>)
    ensures r.Some? ==> r.value in cs && r.value.address == a
    ensures r.None? <==> forall i :: 0 <= i < |cs| ==> cs[i].address != a
    decreases |cs|
  {
    if |cs| == 0 then None
    else match LastAt(cs[1..], a)
      case Some(c) => Some(c)
      case None => if cs[0].address == a then Some(cs[0]) else None
  }

  /** A map whose every entry is keyed by its candidate's address. */
  predicate KeyedByAddress(m: map<string, Candidate>) {
    forall a :: a in m ==> m[a].address == a
  }

  /** The callback's `candidates.insert(c.address(), c)`, applied to each candidate in turn. */
  function Insert(m: map<string, Candidate>, cs: seq<Candidate>): map<string, Candidate>
    decreases |cs|
  {
    if |cs| == 0 then m else Insert(m[cs[0].address := cs[0]], cs[1..])
  }

  /**
   * After the inserts, an address reported in `cs` holds the last candidate
   * reported for it, every other address keeps its old value, and no other
   * address appears.
   */
  lemma InsertContents(m: map<string, Candidate>, cs: seq<Candidate>)
    ensures KeyedByAddress(m) ==> KeyedByAddress(Insert(m, cs))
    ensures forall a :: a in Insert(m, cs) <==> (a in m || LastAt(cs, a).Some?)
    ensures forall a :: LastAt(cs, a).Some? ==> a in Insert(m, cs) && Insert(m, cs)[a] == LastAt(cs, a).value
    ensures forall a :: a in m && LastAt(cs, a).None? ==> Insert(m, cs)[a] == m[a]
  {
    InsertKeyed(m, cs);
    InsertDomain(m, cs);
    InsertValues(m, cs);
  }

  lemma {:induction false} InsertKeyed(m: map<string, Candidate>, cs: seq<Candidate>)
    ensures KeyedByAddress(m) ==> KeyedByAddress(Insert(m, cs))
    decreases |cs|
  {
    if |cs| > 0 {
      InsertKeyed(m[cs[0].address := cs[0]], cs[1..]);
    }
  }

  lemma {:induction false} InsertDomain(m: map<string, Candidate>, cs: seq<Candidate>)
    ensures forall a :: a in Insert(m, cs) <==> (a in m || LastAt(cs, a).Some?)
    decreases |cs|
  {
    if |cs| > 0 {
      InsertDomain(m[cs[0].address := cs[0]], cs[1..]);
      forall a ensures LastAt(cs, a) == LastAtCons(cs, a) {
        LastAtUnfold(cs, a);
      }
    }
  }

  lemma {:induction false} InsertValues(m: map<string, Candidate>, cs: seq<Candidate>)
    ensures forall a :: LastAt(cs, a).Some? ==> a in Insert(m, cs) && Insert(m, cs)[a] == LastAt(cs, a).value
    ensures forall a :: a in m && LastAt(cs, a).None? ==> a in Insert(m, cs) && Insert(m, cs)[a] == m[a]
    decreases |cs|
  {
    if |cs| > 0 {
      InsertValues(m[cs[0].address := cs[0]], cs[1..]);
      forall a ensures LastAt(cs, a) == LastAtCons(cs, a) {
        LastAtUnfold(cs, a);
      }
    }
  }

  /** `LastAt` on a non-empty list, one step unfolded. */
  function LastAtCons(cs: seq<Candidate>, a: string): Option<Candidate>
    requires |cs| > 0
  {
    if LastAt(cs[1..], a).Some? then LastAt(cs[1..], a)
    else if cs[0].address == a then Some(cs[0]) else None
  }

  lemma LastAtUnfold(cs: seq<Candidate>, a: string)
    requires |cs| > 0
    ensures LastAt(cs, a) == LastAtCons(cs, a)
  {
  }

  lemma {:induction false} InsertAppend(m: map<string, Candidate>, a: seq<Candidate>, b: seq<Candidate>)
    ensures Insert(m, a + b) == Insert(Insert(m, a), b)
    decreases |a|
  {
    if |a| > 0 {
      assert (a + b)[0] == a[0] && (a + b)[1..] == a[1..] + b;
      InsertAppend(m[a[0].address := a[0]], a[1..], b);
    } else {
      assert a + b == b;
    }
  }

  /** All candidates of rounds `0 .. n`, in the order they were reported. */
  function Reported(rounds: Rounds, n: nat): seq<Candidate>
    requires forall i :: 0 <= i < n ==> rounds(i).Some?
  {
    if n == 0 then [] else Reported(rounds, n - 1) + rounds(n - 1).value
  }

  /** The first failed round among `0 .. n`, if any. */
  function FirstFailure(rounds: Rounds, n: nat): (r: Option<nat>)
    ensures r.Some? ==> r.value < n && rounds(r.value).None? && forall i :: 0 <= i < r.value ==> rounds(i).Some?
    ensures r.None? <==> forall i :: 0 <= i < n ==> rounds(i).Some?
  {
    if n == 0 then None
    else match FirstFailure(rounds, n - 1)
      case Some(k) => Some(k)
      case None => if rounds(n - 1).None? then Some(n - 1) else None
  }

  /** The gathering loop proper: folds rounds `0 .. loops` into the address-keyed map, stopping at the first failure. */
  function FoldRounds(rounds: Rounds, loops: nat): (r: Result<map<string, Candidate>, GatherError>)
    ensures r.Err? <==> FirstFailure(rounds, loops).Some?
    ensures r.Err? ==> r.error == RoundFailed(FirstFailure(rounds, loops).value)
    ensures r.Ok? ==> r.value == Insert(map[], Reported(rounds, loops))
  {
    if loops == 0 then Ok(map[])
    else match FoldRounds(rounds, loops - 1)
      case Err(e) => Err(e)
      case Ok(m) =>
        if rounds(loops - 1).None? then Err(RoundFailed(loops - 1))
        else
          FoldStep(rounds, loops - 1);
          Ok(Insert(m, rounds(loops - 1).value))
  }

  /** A failing round `i` after `i` good ones is the first failure of any longer run. */
  lemma FailedRound(rounds: Rounds, i: nat, loops: nat)
    requires i < loops && rounds(i).None?
    requires forall k :: 0 <= k < i ==> rounds(k).Some?
    ensures FirstFailure(rounds, loops) == Some(i)
  {
    assert FirstFailure(rounds, i + 1) == Some(i);
    FirstFailureStable(rounds, i + 1, loops);
  }

  /** One more good round extends the folded map by that round's candidates. */
  lemma FoldStep(rounds: Rounds, i: nat)
    requires forall k :: 0 <= k <= i ==> rounds(k).Some?
    ensures Insert(Insert(map[], Reported(rounds, i)), rounds(i).value) == Insert(map[], Reported(rounds, i + 1))
  {
    InsertAppend(map[], Reported(rounds, i), rounds(i).value);
  }

  /** `values().cloned().collect()`: every value of the map once, in an order left open. */
  method Values(m: map<string, Candidate>) returns (out: seq<Candidate>)
    requires KeyedByAddress(m)
    ensures forall j :: 0 <= j < |out| ==> out[j].address in m && out[j] == m[out[j].address]
    ensures forall a :: a in m ==> exists j :: 0 <= j < |out| && out[j].address == a
    ensures forall j, k :: 0 <= j < k < |out| ==> out[j].address != out[k].address
    ensures m == map[] ==> out == []
  {
    var keys := m.Keys;
    out := [];
    while keys != {}
      invariant keys <= m.Keys
      invariant forall j :: 0 <= j < |out| ==> out[j].address in m.Keys - keys && out[j] == m[out[j].address]
      invariant forall a :: a in m.Keys - keys ==> exists j :: 0 <= j < |out| && out[j].address == a
      invariant forall j, k :: 0 <= j < k < |out| ==> out[j].address != out[k].address
      invariant m.Keys - keys == {} ==> out == []
      decreases keys
    {
      var a :| a in keys;
      var prev := out;
      assert m[a].address == a;
      assert forall j :: 0 <= j < |prev| ==> prev[j].address != a;
      out := out + [m[a]];
      assert forall j, k :: 0 <= j < k < |out| ==> out[j].address != out[k].address by {
        forall j, k | 0 <= j < k < |out| ensures out[j].address != out[k].address {
          if k < |prev| { assert out[j] == prev[j] && out[k] == prev[k]; }
          else { assert out[j] == prev[j] && out[k] == m[a]; }
        }
      }
      forall b | b in m.Keys - (keys - {a})
        ensures exists j :: 0 <= j < |out| && out[j].address == b
      {
        if b == a {
          assert out[|prev|].address == b;
        } else {
          assert b in m.Keys - keys;
          var j :| 0 <= j < |prev| && prev[j].address == b;
          assert out[j].address == b;
        }
      }
      assert a in m.Keys - (keys - {a});
      keys := keys - {a};
    }
    assert m.Keys - keys == m.Keys;
  }

  /**
   * `IceEndpoint::collect(config, loops)`. The first failing round aborts
   * the call; otherwise the result holds, for every address reported in any
   * round, exactly the last candidate reported for it. The order of the
   * result is the map's iteration order, which the model leaves open.
   */
  method Collect(rounds: Rounds, loops: nat) returns (r: Result<IceEndpoint, GatherError>)
    ensures r.Err? <==> FirstFailure(rounds, loops).Some?
    ensures r.Err? ==> r.error == RoundFailed(FirstFailure(rounds, loops).value)
    ensures r.Ok? ==> var cs := r.value.candidates; var all := Reported(rounds, loops);
      && (forall i, j :: 0 <= i < j < |cs| ==> cs[i].address != cs[j].address)
      && (forall i :: 0 <= i < |cs| ==> LastAt(all, cs[i].address) == Some(cs[i]))
      && (forall c :: c in all ==> exists i :: 0 <= i < |cs| && cs[i].address == c.address)
    ensures loops == 0 ==> r == Ok(IceEndpoint([]))
  {
    var folded := FoldRounds(rounds, loops);
    match folded {
      case Err(e) =>
        return Err(e);
      case Ok(m) =>
        var all := Reported(rounds, loops);
        InsertContents(map[], all);
        var out := Values(m);
        ValuesOfInsert(all, out);
        if loops == 0 {
          assert m == map[];
        }
        return Ok(IceEndpoint(out));
    }
  }

  /** The values of the folded map: the last candidate of each reported address. */
  lemma ValuesOfInsert(all: seq<Candidate>, out: seq<Candidate>)
    requires forall j :: 0 <= j < |out| ==>
      out[j].address in Insert(map[], all) && out[j] == Insert(map[], all)[out[j].address]
    requires forall a :: a in Insert(map[], all) ==> exists j :: 0 <= j < |out| && out[j].address == a
    ensures forall i :: 0 <= i < |out| ==> LastAt(all, out[i].address) == Some(out[i])
    ensures forall c :: c in all ==> exists i :: 0 <= i < |out| && out[i].address == c.address
  {
    var m := Insert(map[], all);
    InsertContents(map[], all);
    forall c | c in all
      ensures exists j :: 0 <= j < |out| && out[j].address == c.address
    {
      assert LastAt(all, c.address).Some?;
      assert c.address in m;
    }
  }

  lemma {:induction false} FirstFailureStable(rounds: Rounds, n: nat, m: nat)
    requires n <= m && FirstFailure(rounds, n).Some?
    ensures FirstFailure(rounds, m) == FirstFailure(rounds, n)
    decreases m - n
  {
    if n < m {
      FirstFailureStable(rounds, n + 1, m);
    }
  }
}
