/**
 * The candidate set (`IceEndpoint`): its CRLF wire form, the parser that
 * reverses it, and the two descriptive fingerprints.
 *
 * The candidate grammar of section 5.1 of RFC 8839 belongs to the ICE
 * library. A candidate is a plain record that carries its own marshalled
 * form, and the library's parser is a parameter `unmarshal` of which the
 * model only assumes what `WellFormed` says.
 */
module Candidates {
  import opened Wrappers
  import opened Text
  import opened Records

  /** The candidate classes of the ICE library. */
  datatype CandidateType = UnspecifiedType | Host | ServerReflexive | PeerReflexive | Relay

  /** The network families of the ICE library. */
  datatype NetworkType = UnspecifiedNetwork | Udp4 | Udp6 | Tcp4 | Tcp6

  /** The library's `Display` text for a candidate class. */
  function TypeName(t: CandidateType): string {
    match t
    case UnspecifiedType => "Unknown candidate type"
    case Host => "host"
    case ServerReflexive => "srflx"
    case PeerReflexive => "prflx"
    case Relay => "relay"
  }

  /** The library's `Display` text for a network family. */
  function NetworkName(n: NetworkType): string {
    match n
    case UnspecifiedNetwork => "unspecified"
    case Udp4 => "udp4"
    case Udp6 => "udp6"
    case Tcp4 => "tcp4"
    case Tcp6 => "tcp6"
  }

  datatype Candidate = Candidate(
    kind: CandidateType,
    network: NetworkType,
    address: string,
    port: Port,
    priority: U32,
    marshal: string)

  datatype IceEndpoint = IceEndpoint(candidates: seq<Candidate>)

  /** The library's `unmarshal_candidate`; None stands for its error. */
  type Unmarshal = string -> Option<Candidate>

  /**
   * What the model assumes of the library's grammar for one candidate: its
   * marshalled form is non-empty, contains no CRLF, and parses back to it.
   */
  predicate WellFormed(unmarshal: Unmarshal, c: Candidate) {
    c.marshal != "" && !HasCrlf(c.marshal) && unmarshal(c.marshal) == Some(c)
  }

  function Marshals(cs: seq<Candidate>): (ms: seq<string>)
    ensures |ms| == |cs| && forall i :: 0 <= i < |cs| ==> ms[i] == cs[i].marshal
  {
    seq(|cs|, i requires 0 <= i < |cs| => cs[i].marshal)
  }

  /**
   * `IceEndpoint::to_string`. Splitting the result on CRLF gives back the
   * marshalled candidates in list order whenever none of them contains a CRLF.
   */
  function ToString(e: IceEndpoint): (text: string)
    ensures |e.candidates| == 0 ==> text == ""
    ensures |e.candidates| > 0 && (forall i :: 0 <= i < |e.candidates| ==> !HasCrlf(e.candidates[i].marshal))
      ==> SplitCrlf(text) == Marshals(e.candidates)
  {
    var ms := Marshals(e.candidates);
    if |ms| > 0 && forall i :: 0 <= i < |ms| ==> !HasCrlf(ms[i]) then
      SplitJoin(ms);
      JoinCrlf(ms)
    else JoinCrlf(ms)
  }

  /** A segment the library refused to parse. */
  datatype ParseError = MalformedCandidate(segment: string)

  /** Parses every segment, failing on the first malformed one. */
  function UnmarshalAll(unmarshal: Unmarshal, segments: seq<string>): (r: Result<seq<Candidate>, ParseError>)
    ensures r.Ok? <==> forall i :: 0 <= i < |segments| ==> unmarshal(segments[i]).Some?
    ensures r.Ok? ==> (|r.value| == |segments|
      && forall i :: 0 <= i < |segments| ==> unmarshal(segments[i]) == Some(r.value[i]))
    ensures r.Err? ==> r.error.segment in segments && unmarshal(r.error.segment).None?
    decreases |segments|
  {
    if |segments| == 0 then Ok([])
    else match unmarshal(segments[0])
      case None => Err(MalformedCandidate(segments[0]))
      case Some(c) =>
        match UnmarshalAll(unmarshal, segments[1..])
        case Err(e) => Err(e)
        case Ok(cs) =>
          assert forall i :: 1 <= i < |segments| ==> segments[i] == segments[1..][i - 1];
          Ok([c] + cs)
  }

  /**
   * `IceEndpoint::from_str`: split on CRLF, drop empty segments, parse each.
   * All or nothing: on success there is one candidate per non-empty segment,
   * in order; any malformed segment fails the whole call.
   */
  function FromStr(unmarshal: Unmarshal, text: string): (r: Result<IceEndpoint, ParseError>)
    ensures var segments := NonEmpty(SplitCrlf(text));
      && (r.Ok? <==> forall i :: 0 <= i < |segments| ==> unmarshal(segments[i]).Some?)
      && (r.Ok? ==> (|r.value.candidates| == |segments|
            && forall i :: 0 <= i < |segments| ==> unmarshal(segments[i]) == Some(r.value.candidates[i])))
      && (r.Err? ==> r.error.segment != "" && unmarshal(r.error.segment).None?)
  {
    match UnmarshalAll(unmarshal, NonEmpty(SplitCrlf(text)))
    case Ok(cs) => Ok(IceEndpoint(cs))
    case Err(e) => Err(e)
  }

  /** Round trip: parsing the wire form of well-formed candidates gives them back, in order. */
  lemma RoundTrip(unmarshal: Unmarshal, e: IceEndpoint)
    requires forall i :: 0 <= i < |e.candidates| ==> WellFormed(unmarshal, e.candidates[i])
    ensures FromStr(unmarshal, ToString(e)) == Ok(e)
  {
    var cs := e.candidates;
    var ms := Marshals(cs);
    var segments := NonEmpty(SplitCrlf(ToString(e)));
    if |cs| == 0 {
      assert SplitCrlf("") == [""];
      assert segments == [];
    } else {
      NonEmptyKeepsNonEmpty(ms);
      assert segments == ms;
    }
    var r := FromStr(unmarshal, ToString(e));
    assert r.Ok?;
    assert r.value.candidates == cs;
  }

  // ----- Fingerprints -----

  /** The per-candidate line of `to_unique_strings`: type, network and address, never the port. */
  function UniqueString(c: Candidate): string {
    "candidate_type: " + TypeName(c.kind) + ", network_type: " + NetworkName(c.network)
      + ", address: " + c.address
  }

  function UniqueStrings(cs: seq<Candidate>): (us: seq<string>)
    ensures |us| == |cs| && forall i :: 0 <= i < |cs| ==> us[i] == UniqueString(cs[i])
    decreases |cs|
  {
    if |cs| == 0 then [] else [UniqueString(cs[0])] + UniqueStrings(cs[1..])
  }

  /**
   * `IceEndpoint::to_unique_strings`: one line per candidate, sorted, so the
   * result is the sorted arrangement of the candidates' lines.
   */
  function ToUniqueStrings(e: IceEndpoint): (r: seq<string>)
    ensures |r| == |e.candidates| && Sorted(r)
    ensures multiset(r) == multiset(UniqueStrings(e.candidates))
  {
    SortStrings(UniqueStrings(e.candidates))
  }

  /** The part of a candidate the fingerprint sees. */
  predicate SameIdentity(c: Candidate, d: Candidate) {
    c.kind == d.kind && c.network == d.network && c.address == d.address
  }

  lemma SplitAt<T>(b: seq<T>, k: nat)
    requires k < |b|
    ensures b == (b[..k] + [b[k]]) + b[k + 1..]
  {
  }

  /** The lines of a concatenation are the concatenated lines. */
  lemma UniqueStringsAppend(x: seq<Candidate>, y: seq<Candidate>)
    ensures UniqueStrings(x + y) == UniqueStrings(x) + UniqueStrings(y)
  {
    var l, r := UniqueStrings(x + y), UniqueStrings(x) + UniqueStrings(y);
    assert |l| == |r|;
    forall i | 0 <= i < |l| ensures l[i] == r[i] {
      if i < |x| { assert (x + y)[i] == x[i]; } else { assert (x + y)[i] == y[i - |x|]; }
    }
  }

  /** Taking candidate `k` out of a list takes its line out of the lines' multiset. */
  lemma UniqueStringsRemove(b: seq<Candidate>, k: nat)
    requires k < |b|
    ensures multiset(UniqueStrings(b))
      == multiset(UniqueStrings(b[..k] + b[k + 1..])) + multiset{UniqueString(b[k])}
  {
    var p, q, u := b[..k], b[k + 1..], UniqueString(b[k]);
    SplitAt(b, k);
    UniqueStringsAppend(p + [b[k]], q);
    UniqueStringsAppend(p, [b[k]]);
    UniqueStringsAppend(p, q);
    assert UniqueStrings([b[k]]) == [u];
    var up, uq := UniqueStrings(p), UniqueStrings(q);
    assert UniqueStrings(b) == (up + [u]) + uq;
    assert multiset((up + [u]) + uq) == multiset(up) + multiset{u} + multiset(uq);
    assert multiset(up + uq) == multiset(up) + multiset(uq);
  }

  lemma MultisetRemoveAt(b: seq<Candidate>, k: nat)
    requires k < |b|
    ensures multiset(b[..k] + b[k + 1..]) == multiset(b) - multiset{b[k]}
  {
    assert b == b[..k] + [b[k]] + b[k + 1..];
  }

  lemma UniqueStringsCons(a: seq<Candidate>)
    requires |a| > 0
    ensures multiset(UniqueStrings(a)) == multiset(UniqueStrings(a[1..])) + multiset{UniqueString(a[0])}
    ensures multiset(a[1..]) == multiset(a) - multiset{a[0]}
  {
    assert UniqueStrings(a) == [UniqueString(a[0])] + UniqueStrings(a[1..]);
    SplitAt(a, 0);
    assert a[..0] == [];
  }

  /** Candidate lists that are permutations of each other have line multisets that agree. */
  lemma {:induction false} UniqueStringsPermutation(a: seq<Candidate>, b: seq<Candidate>)
    requires multiset(a) == multiset(b)
    ensures multiset(UniqueStrings(a)) == multiset(UniqueStrings(b))
    decreases |a|
  {
    if |a| > 0 {
      assert a[0] in multiset(b);
      var k :| 0 <= k < |b| && b[k] == a[0];
      MultisetRemoveAt(b, k);
      UniqueStringsCons(a);
      UniqueStringsPermutation(a[1..], b[..k] + b[k + 1..]);
      UniqueStringsRemove(b, k);
    } else {
      assert |b| == |multiset(b)| == 0;
    }
  }

  /** Reordering the candidates never changes `to_unique_strings`. */
  lemma ToUniqueStringsPermutationInvariant(e1: IceEndpoint, e2: IceEndpoint)
    requires multiset(e1.candidates) == multiset(e2.candidates)
    ensures ToUniqueStrings(e1) == ToUniqueStrings(e2)
  {
    UniqueStringsPermutation(e1.candidates, e2.candidates);
    SortStringsPermutationInvariant(UniqueStrings(e1.candidates), UniqueStrings(e2.candidates));
  }

  /** Ports (and priorities and marshalled text) do not reach `to_unique_strings`. */
  lemma ToUniqueStringsIgnoresPort(e1: IceEndpoint, e2: IceEndpoint)
    requires |e1.candidates| == |e2.candidates|
    requires forall i :: 0 <= i < |e1.candidates| ==> SameIdentity(e1.candidates[i], e2.candidates[i])
    ensures ToUniqueStrings(e1) == ToUniqueStrings(e2)
  {
    assert UniqueStrings(e1.candidates) == UniqueStrings(e2.candidates);
  }

  /** Two candidates share a fingerprint line exactly when they share type, network and address. */
  lemma UniqueStringInjective(c: Candidate, d: Candidate)
    ensures UniqueString(c) == UniqueString(d) <==> SameIdentity(c, d)
  {
    if UniqueString(c) == UniqueString(d) {
      var p := "candidate_type: ";
      var u, v := UniqueString(c), UniqueString(d);
      assert u[16] == TypeName(c.kind)[0] && v[16] == TypeName(d.kind)[0];
      assert c.kind == d.kind;
      var q := p + TypeName(c.kind) + ", network_type: ";
      var n := |q|;
      assert u[..n] == q && v[..n] == q;
      assert u[n] == NetworkName(c.network)[0] && v[n] == NetworkName(d.network)[0];
      assert u[n + 3] == NetworkName(c.network)[3] && v[n + 3] == NetworkName(d.network)[3];
      assert c.network == d.network;
      var w := q + NetworkName(c.network) + ", address: ";
      assert u == w + c.address && v == w + d.address;
      CancelPrefix(w, c.address, d.address);
    }
  }

  /** A candidate whose type, network and address are new changes the fingerprint. */
  lemma NewIdentityChangesFingerprint(e: IceEndpoint, c: Candidate)
    requires forall i :: 0 <= i < |e.candidates| ==> !SameIdentity(e.candidates[i], c)
    ensures ToUniqueStrings(IceEndpoint(e.candidates + [c])) != ToUniqueStrings(e)
  {
    var cs := e.candidates;
    var u := UniqueString(c);
    var before := UniqueStrings(cs);
    var after := UniqueStrings(cs + [c]);
    assert after[|cs|] == u;
    assert u in multiset(after);
    forall i | 0 <= i < |cs|
      ensures before[i] != u
    {
      UniqueStringInjective(cs[i], c);
    }
    assert u !in multiset(before);
    assert u in multiset(ToUniqueStrings(IceEndpoint(cs + [c])));
    assert u !in multiset(ToUniqueStrings(e));
  }

  function BoolName(b: bool): string {
    if b then "true" else "false"
  }

  /** What `to_unique_string` appends to the fingerprint line. */
  function PortSuffix(port: Port, isUdp: bool, proxyPort: Port): string {
    ", port:" + (Decimal(port) + FlagSuffix(isUdp, proxyPort))
  }

  function FlagSuffix(isUdp: bool, proxyPort: Port): string {
    ", is_udp: " + (BoolName(isUdp) + (", proxy_port: " + Decimal(proxyPort)))
  }

  lemma FlagSuffixInjective(u1: bool, q1: Port, u2: bool, q2: Port)
    requires FlagSuffix(u1, q1) == FlagSuffix(u2, q2)
    ensures u1 == u2 && q1 == q2
  {
    var r1 := BoolName(u1) + (", proxy_port: " + Decimal(q1));
    var r2 := BoolName(u2) + (", proxy_port: " + Decimal(q2));
    CancelPrefix(", is_udp: ", r1, r2);
    assert r1[0] == BoolName(u1)[0] && r2[0] == BoolName(u2)[0];
    assert u1 == u2;
    CancelPrefix(BoolName(u1), ", proxy_port: " + Decimal(q1), ", proxy_port: " + Decimal(q2));
    CancelPrefix(", proxy_port: ", Decimal(q1), Decimal(q2));
    DecimalInjective(q1, q2);
  }

  lemma PortSuffixInjective(p1: Port, u1: bool, q1: Port, p2: Port, u2: bool, q2: Port)
    requires PortSuffix(p1, u1, q1) == PortSuffix(p2, u2, q2)
    ensures p1 == p2 && u1 == u2 && q1 == q2
  {
    var t1, t2 := FlagSuffix(u1, q1), FlagSuffix(u2, q2);
    CancelPrefix(", port:", Decimal(p1) + t1, Decimal(p2) + t2);
    assert t1[0] == ',' && t2[0] == ',';
    DecimalPrefixUnique(p1, t1, p2, t2);
    FlagSuffixInjective(u1, q1, u2, q2);
  }

  /**
   * `IceEndpoint::to_unique_string`: the fingerprint line of the parsed
   * candidate extended with its port, the transport flag and the proxied
   * port; fails exactly when the text does not parse.
   */
  function ToUniqueString(unmarshal: Unmarshal, text: string, isUdp: bool, proxyPort: Port): (r: Result<string, ParseError>)
    ensures r.Err? <==> unmarshal(text).None?
    ensures r.Ok? ==> UniqueString(unmarshal(text).value) <= r.value
  {
    match unmarshal(text)
    case None => Err(MalformedCandidate(text))
    case Some(c) =>
      var prefix := UniqueString(c);
      var s := prefix + PortSuffix(c.port, isUdp, proxyPort);
      assert s[..|prefix|] == prefix;
      Ok(s)
  }

  /**
   * For texts that parse to candidates of the same type, network and address,
   * `to_unique_string` separates any difference in port, transport flag or
   * proxied port.
   */
  lemma ToUniqueStringSeparates(unmarshal: Unmarshal, t1: string, u1: bool, p1: Port, t2: string, u2: bool, p2: Port)
    requires ToUniqueString(unmarshal, t1, u1, p1).Ok? && ToUniqueString(unmarshal, t2, u2, p2).Ok?
    requires SameIdentity(unmarshal(t1).value, unmarshal(t2).value)
    requires ToUniqueString(unmarshal, t1, u1, p1) == ToUniqueString(unmarshal, t2, u2, p2)
    ensures unmarshal(t1).value.port == unmarshal(t2).value.port && u1 == u2 && p1 == p2
  {
    var c1, c2 := unmarshal(t1).value, unmarshal(t2).value;
    var head := UniqueString(c1);
    assert head == UniqueString(c2);
    var s := ToUniqueString(unmarshal, t1, u1, p1).value;
    var x1, x2 := PortSuffix(c1.port, u1, p1), PortSuffix(c2.port, u2, p2);
    CancelPrefix(head, x1, x2);
    PortSuffixInjective(c1.port, u1, p1, c2.port, u2, p2);
  }
}
