/**
 * String utilities that the Rust code gets from its standard library and
 * that the model needs stated: the ordering `Vec<String>::sort` and
 * `BTreeMap<String, _>` use, decimal formatting of integers, and splitting
 * and joining on the CRLF candidate delimiter.
 */
module Text {
  import opened Wrappers

  // ----- Ordering -----

  /**
   * `a <= b` in Rust's `Ord` for `str`: lexicographic on UTF-8 bytes, which
   * coincides with lexicographic order on code points.
   */
  predicate LexLe(a: string, b: string)
    decreases |a|
  {
    |a| == 0 || (|b| > 0 && (a[0] < b[0] || (a[0] == b[0] && LexLe(a[1..], b[1..]))))
  }

  predicate LexLt(a: string, b: string) {
    LexLe(a, b) && a != b
  }

  lemma {:induction false} LexLeReflexive(a: string)
    ensures LexLe(a, a)
    decreases |a|
  {
    if |a| > 0 { LexLeReflexive(a[1..]); }
  }

  lemma {:induction false} LexLeAntisymmetric(a: string, b: string)
    requires LexLe(a, b) && LexLe(b, a)
    ensures a == b
    decreases |a|
  {
    if |a| > 0 {
      LexLeAntisymmetric(a[1..], b[1..]);
      assert a == [a[0]] + a[1..] && b == [b[0]] + b[1..];
    }
  }

  lemma {:induction false} LexLeTransitive(a: string, b: string, c: string)
    requires LexLe(a, b) && LexLe(b, c)
    ensures LexLe(a, c)
    decreases |a|
  {
    if |a| > 0 && a[0] == b[0] && b[0] == c[0] {
      LexLeTransitive(a[1..], b[1..], c[1..]);
    }
  }

  lemma {:induction false} LexLeTotal(a: string, b: string)
    ensures LexLe(a, b) || LexLe(b, a)
    decreases |a|
  {
    if |a| > 0 && |b| > 0 && a[0] == b[0] {
      LexLeTotal(a[1..], b[1..]);
    }
  }

  // ----- Sorting a vector of strings (`Vec<String>::sort`) -----

  predicate Sorted(s: seq<string>) {
    forall i, j :: 0 <= i < j < |s| ==> LexLe(s[i], s[j])
  }

  function InsertSorted(x: string, s: seq<string>): (r: seq<string>)
    requires Sorted(s)
    ensures Sorted(r) && multiset(r) == multiset(s) + multiset{x}
    decreases |s|
  {
    if |s| == 0 then [x]
    else if LexLe(x, s[0]) then
      forall j | 0 < j < |s| ensures LexLe(x, s[j]) { LexLeTransitive(x, s[0], s[j]); }
      SortedCons(x, s);
      [x] + s
    else
      LexLeTotal(x, s[0]);
      SortedTail(s);
      var t := InsertSorted(x, s[1..]);
      assert s == [s[0]] + s[1..];
      HeadBoundsInsert(s, x, t);
      SortedCons(s[0], t);
      [s[0]] + t
  }

  /** A string below every element of a sorted vector may go in front of it. */
  lemma SortedCons(h: string, t: seq<string>)
    requires Sorted(t) && forall j :: 0 <= j < |t| ==> LexLe(h, t[j])
    ensures Sorted([h] + t)
  {
    var r := [h] + t;
    forall i, j | 0 <= i < j < |r| ensures LexLe(r[i], r[j]) {
      assert r[j] == t[j - 1];
      if i > 0 { assert r[i] == t[i - 1]; }
    }
  }

  /** The head of a sorted vector bounds its tail with one more element above it inserted. */
  lemma HeadBoundsInsert(s: seq<string>, x: string, t: seq<string>)
    requires Sorted(s) && |s| > 0 && LexLe(s[0], x)
    requires multiset(t) == multiset(s[1..]) + multiset{x}
    ensures forall j :: 0 <= j < |t| ==> LexLe(s[0], t[j])
  {
    forall j | 0 <= j < |t| ensures LexLe(s[0], t[j]) {
      assert t[j] in multiset(t);
      if t[j] != x {
        assert t[j] in multiset(s[1..]);
        var k :| 0 <= k < |s[1..]| && s[1..][k] == t[j];
        assert s[k + 1] == t[j];
      }
    }
  }

  /** `results.sort()` on a vector of strings. */
  function SortStrings(s: seq<string>): (r: seq<string>)
    ensures Sorted(r) && multiset(r) == multiset(s) && |r| == |s|
    decreases |s|
  {
    if |s| == 0 then []
    else
      assert s == [s[0]] + s[1..];
      InsertSorted(s[0], SortStrings(s[1..]))
  }

  /** The head of a sorted vector is below every element of it. */
  lemma SortedHeadLeast(a: seq<string>, x: string)
    requires Sorted(a) && x in multiset(a)
    ensures LexLe(a[0], x)
  {
    assert x in a;
    var k :| 0 <= k < |a| && a[k] == x;
    if k == 0 { LexLeReflexive(x); }
  }

  lemma SortedTail(a: seq<string>)
    requires Sorted(a) && |a| > 0
    ensures Sorted(a[1..])
  {
    forall i, j | 0 <= i < j < |a| - 1 ensures LexLe(a[1..][i], a[1..][j]) {
      assert a[1..][i] == a[i + 1] && a[1..][j] == a[j + 1];
    }
  }

  lemma TailMultiset(a: seq<string>)
    requires |a| > 0
    ensures multiset(a[1..]) == multiset(a) - multiset{a[0]}
  {
    assert a == [a[0]] + a[1..];
  }

  /** A sorted arrangement of a multiset of strings is unique. */
  lemma {:induction false} SortedUnique(a: seq<string>, b: seq<string>)
    requires Sorted(a) && Sorted(b) && multiset(a) == multiset(b)
    ensures a == b
    decreases |a|
  {
    if |a| > 0 {
      SortedSameHead(a, b);
      TailMultiset(a);
      TailMultiset(b);
      SortedTail(a);
      SortedTail(b);
      SortedUnique(a[1..], b[1..]);
      assert a == [a[0]] + a[1..] && b == [b[0]] + b[1..];
    } else {
      assert |b| == |multiset(b)| == 0;
    }
  }

  /** Two sorted arrangements of the same non-empty multiset start alike. */
  lemma SortedSameHead(a: seq<string>, b: seq<string>)
    requires Sorted(a) && Sorted(b) && multiset(a) == multiset(b) && |a| > 0
    ensures |b| > 0 && a[0] == b[0]
  {
    assert a[0] in multiset(b);
    assert b[0] in multiset(a);
    SortedHeadLeast(a, b[0]);
    SortedHeadLeast(b, a[0]);
    LexLeAntisymmetric(a[0], b[0]);
  }

  /** Sorting forgets the input order: permutations sort to the same vector. */
  lemma SortStringsPermutationInvariant(a: seq<string>, b: seq<string>)
    requires multiset(a) == multiset(b)
    ensures SortStrings(a) == SortStrings(b)
  {
    SortedUnique(SortStrings(a), SortStrings(b));
  }

  /** A common prefix cancels. */
  lemma CancelPrefix(p: string, a: string, b: string)
    requires p + a == p + b
    ensures a == b
  {
    assert a == (p + a)[|p|..];
    assert b == (p + b)[|p|..];
  }

  // ----- Decimal formatting (`format!("{}", n)` for an unsigned integer) -----

  predicate IsDigit(c: char) {
    '0' <= c <= '9'
  }

  function DigitChar(d: nat): (c: char)
    requires d < 10
    ensures IsDigit(c)
  {
    ('0' as int + d) as char
  }

  /** The decimal representation of `n`, without sign or leading zeros. */
  function Decimal(n: nat): (r: string)
    ensures |r| >= 1 && forall i :: 0 <= i < |r| ==> IsDigit(r[i])
    ensures r[0] == '0' ==> n == 0
    decreases n
  {
    if n < 10 then [DigitChar(n)] else Decimal(n / 10) + [DigitChar(n % 10)]
  }

  /** Reads a string of decimal digits back as a number. */
  function ParseDecimal(s: string): nat
    requires forall i :: 0 <= i < |s| ==> IsDigit(s[i])
    decreases |s|
  {
    if |s| == 0 then 0
    else
      assert IsDigit(s[|s| - 1]);
      10 * ParseDecimal(s[..|s| - 1]) + (s[|s| - 1] as int - '0' as int)
  }

  lemma {:induction false} ParseDecimalOfDecimal(n: nat)
    ensures ParseDecimal(Decimal(n)) == n
    decreases n
  {
    if n >= 10 {
      var s := Decimal(n);
      assert s[..|s| - 1] == Decimal(n / 10);
      ParseDecimalOfDecimal(n / 10);
    }
  }

  /** Distinct numbers print differently. */
  lemma DecimalInjective(m: nat, n: nat)
    requires Decimal(m) == Decimal(n)
    ensures m == n
  {
    ParseDecimalOfDecimal(m);
    ParseDecimalOfDecimal(n);
  }

  /** Length of the leading run of digits of `s`. */
  function DigitRun(s: string): (k: nat)
    ensures k <= |s|
    decreases |s|
  {
    if |s| == 0 || !IsDigit(s[0]) then 0 else 1 + DigitRun(s[1..])
  }

  lemma {:induction false} DigitRunOfDecimal(d: string, x: string)
    requires forall i :: 0 <= i < |d| ==> IsDigit(d[i])
    requires |x| > 0 && !IsDigit(x[0])
    ensures DigitRun(d + x) == |d|
    decreases |d|
  {
    if |d| == 0 {
      assert d + x == x;
    } else {
      assert (d + x)[1..] == d[1..] + x;
      DigitRunOfDecimal(d[1..], x);
    }
  }

  /**
   * A decimal followed by text that starts with a non-digit determines both
   * the number and the text: `Decimal(m) + x == Decimal(n) + y` forces
   * `m == n` and `x == y`.
   */
  lemma DecimalPrefixUnique(m: nat, x: string, n: nat, y: string)
    requires |x| > 0 && !IsDigit(x[0]) && |y| > 0 && !IsDigit(y[0])
    requires Decimal(m) + x == Decimal(n) + y
    ensures m == n && x == y
  {
    var dm, dn := Decimal(m), Decimal(n);
    DigitRunOfDecimal(dm, x);
    DigitRunOfDecimal(dn, y);
    assert dm == (dm + x)[..|dm|];
    assert dn == (dn + y)[..|dn|];
    DecimalInjective(m, n);
    assert x == (dm + x)[|dm|..];
    assert y == (dn + y)[|dn|..];
  }

  // ----- The CRLF delimiter -----

  const Crlf: string := "\r\n"

  /** Index of the first CRLF in `s`, scanning left to right as `str::split` does. */
  function FindCrlf(s: string): (r: Option<nat>)
    ensures r.Some? ==> r.value + 2 <= |s| && s[r.value..r.value + 2] == Crlf
    decreases |s|
  {
    if |s| < 2 then None
    else if s[0] == '\r' && s[1] == '\n' then Some(0)
    else match FindCrlf(s[1..])
      case None => None
      case Some(i) => Some(i + 1)
  }

  predicate HasCrlf(s: string) {
    FindCrlf(s).Some?
  }

  /** `s.split("\r\n")`: always at least one segment, possibly empty. */
  function SplitCrlf(s: string): (parts: seq<string>)
    ensures |parts| >= 1
    decreases |s|
  {
    match FindCrlf(s)
    case None => [s]
    case Some(i) => [s[..i]] + SplitCrlf(s[i + 2..])
  }

  /** `parts.join("\r\n")`. */
  function JoinCrlf(parts: seq<string>): (r: string)
    ensures |parts| == 0 ==> r == ""
    decreases |parts|
  {
    if |parts| == 0 then ""
    else if |parts| == 1 then parts[0]
    else parts[0] + Crlf + JoinCrlf(parts[1..])
  }

  /** The first CRLF of `p + CRLF + rest` is the one just after `p` when `p` has none. */
  lemma {:induction false} FindCrlfAfter(p: string, rest: string)
    requires !HasCrlf(p)
    ensures FindCrlf(p + Crlf + rest) == Some(|p|)
    decreases |p|
  {
    var s := p + Crlf + rest;
    if |p| > 0 {
      assert s[1..] == p[1..] + Crlf + rest;
      FindCrlfAfter(p[1..], rest);
      if |p| == 1 {
        assert s[1] == '\r';
      }
    }
  }

  /** Splitting undoes joining when no part contains the delimiter. */
  lemma {:induction false} SplitJoin(parts: seq<string>)
    requires |parts| >= 1
    requires forall i :: 0 <= i < |parts| ==> !HasCrlf(parts[i])
    ensures SplitCrlf(JoinCrlf(parts)) == parts
    decreases |parts|
  {
    if |parts| > 1 {
      SplitFirst(parts[0], JoinCrlf(parts[1..]));
      SplitJoin(parts[1..]);
      assert parts == [parts[0]] + parts[1..];
    }
  }

  /** A CRLF-free first part is split off whole. */
  lemma SplitFirst(p: string, rest: string)
    requires !HasCrlf(p)
    ensures SplitCrlf(p + Crlf + rest) == [p] + SplitCrlf(rest)
  {
    FindCrlfAfter(p, rest);
    var s := p + Crlf + rest;
    assert s[..|p|] == p;
    assert s[|p| + 2..] == rest;
  }

  /** `.filter(|s| !s.is_empty())`. */
  function NonEmpty(parts: seq<string>): (r: seq<string>)
    ensures forall i :: 0 <= i < |r| ==> r[i] != "" && r[i] in parts
    ensures forall i :: 0 <= i < |parts| && parts[i] != "" ==> parts[i] in r
    ensures |r| <= |parts|
    decreases |parts|
  {
    if |parts| == 0 then []
    else if parts[0] == "" then NonEmpty(parts[1..])
    else [parts[0]] + NonEmpty(parts[1..])
  }

  /**
   * The filter works part by part: filtering a concatenation concatenates
   * the filtered halves, so with the one-part cases (an empty part goes, any
   * other stays) it keeps exactly the non-empty parts, in their order.
   */
  lemma {:induction false} NonEmptyAppend(a: seq<string>, b: seq<string>)
    ensures NonEmpty(a + b) == NonEmpty(a) + NonEmpty(b)
    ensures NonEmpty([""]) == [] && forall p :: p != "" ==> NonEmpty([p]) == [p]
    decreases |a|
  {
    assert [""][1..] == [];
    forall p | p != "" ensures NonEmpty([p]) == [p] {
      assert [p][1..] == [];
    }
    if |a| == 0 {
      assert a + b == b;
    } else {
      assert (a + b)[0] == a[0] && (a + b)[1..] == a[1..] + b;
      NonEmptyAppend(a[1..], b);
    }
  }

  lemma {:induction false} NonEmptyKeepsNonEmpty(parts: seq<string>)
    requires forall i :: 0 <= i < |parts| ==> parts[i] != ""
    ensures NonEmpty(parts) == parts
    decreases |parts|
  {
    if |parts| > 0 {
      NonEmptyKeepsNonEmpty(parts[1..]);
      assert parts == [parts[0]] + parts[1..];
    }
  }
}
