/**
  The status-change clauses the scraper searches a ticket's text for:
  `"from A to B"` for every ordered pair of distinct status keywords, in the
  order `itertools.permutations(keywords, 2)` yields them, followed by the
  opening clause `"to Opened"`; and the split of a clause back into its
  from-status and to-status.
*/
module Clauses {
  import opened PyStr

  /** The six ticket statuses, in the order the script lists them. */
  const Keywords: seq<string> :=
    ["Change Request", "Suspended", "In Progress", "Acknowledged", "Dispatched", "Opened"]

  /** The clause every ticket's history starts with; it has no from-status. */
  const OpeningClause: string := "to Opened"

  /** What the split reports as the from-status of the opening clause. */
  const NoStatus: string := "None"

  function Clause(a: string, b: string): string
  {
    "from " + a + " to " + b
  }

  /** The `k`-th index other than `i`: the inner position of `permutations`. */
  function Skip(i: nat, k: nat): nat
  {
    if k < i then k else k + 1
  }

  /** `(xs[i], xs[j'])` for every `j'` from `j` on that is not `i`, in increasing `j'`. */
  function PairsWith<T>(xs: seq<T>, i: nat, j: nat): seq<(T, T)>
    requires i < |xs| && j <= |xs|
    decreases |xs| - j
  {
    if j == |xs| then []
    else if j == i then PairsWith(xs, i, j + 1)
    else [(xs[i], xs[j])] + PairsWith(xs, i, j + 1)
  }

  /** The rows of `permutations(xs, 2)` whose first index is `i` or later. */
  function PairsFrom<T>(xs: seq<T>, i: nat): seq<(T, T)>
    requires i <= |xs|
    decreases |xs| - i
  {
    if i == |xs| then [] else PairsWith(xs, i, 0) + PairsFrom(xs, i + 1)
  }

  /** Python `list(itertools.permutations(xs, 2))`, which has `n * (n - 1)` pairs. */
  function OrderedPairs<T>(xs: seq<T>): (r: seq<(T, T)>)
    ensures |r| == |xs| * (|xs| - 1)
  {
    PairsFromLength(xs, 0);
    RowStartIsProduct(xs, 0, |xs|);
    PairsFrom(xs, 0)
  }

  lemma {:induction false} PairsWithAt<T>(xs: seq<T>, i: nat, j: nat)
    requires i < |xs| && j <= i
    ensures |PairsWith(xs, i, j)| == |xs| - 1 - j
    ensures forall k :: 0 <= k < |xs| - 1 - j ==> PairsWith(xs, i, j)[k] == (xs[i], xs[Skip(i, j + k)])
    decreases |xs| - j
  {
    if j < i {
      PairsWithAt(xs, i, j + 1);
      var row, rest := PairsWith(xs, i, j), PairsWith(xs, i, j + 1);
      assert row == [(xs[i], xs[j])] + rest;
      forall k | 0 <= k < |xs| - 1 - j ensures row[k] == (xs[i], xs[Skip(i, j + k)]) {
        if k > 0 {
          assert row[k] == rest[k - 1];
        }
      }
    } else {
      PairsWithPast(xs, i, j + 1);
    }
  }
  lemma {:induction false} PairsWithPast<T>(xs: seq<T>, i: nat, j: nat)
    requires i < j <= |xs|
    ensures |PairsWith(xs, i, j)| == |xs| - j
    ensures forall k :: 0 <= k < |xs| - j ==> PairsWith(xs, i, j)[k] == (xs[i], xs[j + k])
    decreases |xs| - j
  {
    if j < |xs| {
      PairsWithPast(xs, i, j + 1);
      var row, rest := PairsWith(xs, i, j), PairsWith(xs, i, j + 1);
      assert row == [(xs[i], xs[j])] + rest;
      forall k | 0 <= k < |xs| - j ensures row[k] == (xs[i], xs[j + k]) {
        if k > 0 {
          assert row[k] == rest[k - 1];
        }
      }
    }
  }

  /** Where row `r` of `permutations(xs, 2)` starts when the rows from `i` on are laid end to end. */
  function RowStart<T>(xs: seq<T>, i: nat, r: nat): nat
    requires i <= r <= |xs|
    decreases r - i
  {
    if r == i then 0 else (|xs| - 1) + RowStart(xs, i + 1, r)
  }

  lemma {:induction false} RowStartIsProduct<T>(xs: seq<T>, i: nat, r: nat)
    requires i <= r <= |xs|
    ensures RowStart(xs, i, r) == (r - i) * (|xs| - 1)
    decreases r - i
  {
    if r > i {
      RowStartIsProduct(xs, i + 1, r);
      assert (r - i) * (|xs| - 1) == (|xs| - 1) + (r - (i + 1)) * (|xs| - 1);
    }
  }

  /** `permutations(xs, 2)` from row `i` on has `|xs| - 1` pairs per row. */
  lemma {:induction false} PairsFromLength<T>(xs: seq<T>, i: nat)
    requires i <= |xs|
    ensures |PairsFrom(xs, i)| == RowStart(xs, i, |xs|)
    decreases |xs| - i
  {
    if i < |xs| {
      PairsWithAt(xs, i, 0);
      PairsFromLength(xs, i + 1);
    }
  }

  /**
    `permutations(xs, 2)` lists its pairs row by row: the outer index runs over
    the first element, and row `r` is `xs[r]` paired with every other element.
  */
  lemma {:induction false} PairsFromAt<T>(xs: seq<T>, i: nat, r: nat, k: nat)
    requires i <= r < |xs| && k < |xs| - 1
    ensures RowStart(xs, i, r) + k < |PairsFrom(xs, i)|
    ensures PairsFrom(xs, i)[RowStart(xs, i, r) + k] == (xs[r], xs[Skip(r, k)])
    decreases r - i
  {
    PairsWithAt(xs, i, 0);
    var row, rest := PairsWith(xs, i, 0), PairsFrom(xs, i + 1);
    assert PairsFrom(xs, i) == row + rest;
    if r == i {
      assert (row + rest)[k] == row[k];
    } else {
      PairsFromAt(xs, i + 1, r, k);
      var m := RowStart(xs, i + 1, r) + k;
      assert RowStart(xs, i, r) + k == |row| + m;
      assert (row + rest)[|row| + m] == rest[m];
    }
  }

  /** Row `r` of `permutations(xs, 2)` starts at `r * (|xs| - 1)`; position `k` of it pairs `xs[r]` with the `k`-th other element. */
  lemma OrderedPairsAt<T>(xs: seq<T>, r: nat, k: nat)
    requires r < |xs| && k < |xs| - 1
    ensures r * (|xs| - 1) + k < |OrderedPairs(xs)|
    ensures OrderedPairs(xs)[r * (|xs| - 1) + k] == (xs[r], xs[Skip(r, k)])
  {
    PairsFromAt(xs, 0, r, k);
    RowStartIsProduct(xs, 0, r);
  }

  /** The search clauses built from a list of pairs, one per pair and in the same order. */
  function ClausesOf(pairs: seq<(string, string)>): (r: seq<string>)
    ensures |r| == |pairs|
  {
    seq(|pairs|, p requires 0 <= p < |pairs| => Clause(pairs[p].0, pairs[p].1))
  }

  /**
    The list `make_permutations` returns when its keyword list is `keywords`:
    one clause per ordered pair, then the opening clause last.
  */
  function SearchClauses(keywords: seq<string>): (r: seq<string>)
    ensures |r| == |keywords| * (|keywords| - 1) + 1
    ensures r[|r| - 1] == OpeningClause
  {
    ClausesOf(OrderedPairs(keywords)) + [OpeningClause]
  }

  /**
    `make_permutations`, whose keyword list is fixed: the clause list built
    from `Keywords`, 30 `"from A to B"` entries and the opening clause.
  */
  method MakePermutations() returns (results: seq<string>)
    ensures results == SearchClauses(Keywords)
    ensures |results| == 31 && results[30] == OpeningClause
  {
    results := BuildClauses(Keywords);
  }

  /**
    The body of `make_permutations` for a keyword list: one clause for each
    pair `permutations` yields, appended in turn, then the opening clause.
  */
  method BuildClauses(keywords: seq<string>) returns (results: seq<string>)
    ensures results == SearchClauses(keywords)
    ensures |results| == |keywords| * (|keywords| - 1) + 1
    ensures results[|results| - 1] == OpeningClause
  {
    results := [];
    var perm := OrderedPairs(keywords);
    for p := 0 to |perm|
      invariant results == ClausesOf(perm[..p])
    {
      var pair := perm[p];
      var searchTerm := "from " + pair.0 + " to " + pair.1;
      assert perm[..p + 1] == perm[..p] + [pair];
      results := results + [searchTerm];
    }
    assert perm[..|perm|] == perm;
    results := results + [OpeningClause];
  }

  /** The clause at `permutations` position `(r, k)` joins `keywords[r]` to the `k`-th other keyword. */
  lemma ClauseAt(keywords: seq<string>, r: nat, k: nat)
    requires r < |keywords| && k < |keywords| - 1
    ensures r * (|keywords| - 1) + k < |SearchClauses(keywords)| - 1
    ensures SearchClauses(keywords)[r * (|keywords| - 1) + k] == Clause(keywords[r], keywords[Skip(r, k)])
  {
    var pairs := OrderedPairs(keywords);
    var p := r * (|keywords| - 1) + k;
    OrderedPairsAt(keywords, r, k);
    assert SearchClauses(keywords)[p] == ClausesOf(pairs)[p];
  }

  /**
    Entry `p` of the 31 search clauses (p < 30) is the clause from keyword
    `p / 5` to the `p % 5`-th other keyword: `A` and `B` are two different
    keywords, and the order is that of `permutations`.
  */
  lemma SearchClauseAt(p: nat)
    requires p < 30
    ensures p / 5 < 6 && Skip(p / 5, p % 5) < 6 && p / 5 != Skip(p / 5, p % 5)
    ensures |SearchClauses(Keywords)| == 31
    ensures SearchClauses(Keywords)[p] == Clause(Keywords[p / 5], Keywords[Skip(p / 5, p % 5)])
  {
    var r, k := p / 5, p % 5;
    assert r * 5 + k == p;
    ClauseAtSix(Keywords, r, k);
  }

  lemma ClauseAtSix(keywords: seq<string>, r: nat, k: nat)
    requires |keywords| == 6 && r < 6 && k < 5
    ensures |SearchClauses(keywords)| == 31
    ensures SearchClauses(keywords)[r * 5 + k] == Clause(keywords[r], keywords[Skip(r, k)])
  {
    ClauseAt(keywords, r, k);
  }

  /** The clause of every ordered pair of different keywords is among the search clauses, at its `permutations` position. */
  lemma SearchClausesCoverPairs(i: nat, j: nat)
    requires i < 6 && j < 6 && i != j
    ensures SearchClauses(Keywords)[5 * i + (if j < i then j else j - 1)] == Clause(Keywords[i], Keywords[j])
  {
    PairPositionSix(Keywords, i, j);
  }

  lemma PairPositionSix(keywords: seq<string>, i: nat, j: nat)
    requires |keywords| == 6 && i < 6 && j < 6 && i != j
    ensures 5 * i + (if j < i then j else j - 1) < |SearchClauses(keywords)|
    ensures SearchClauses(keywords)[5 * i + (if j < i then j else j - 1)] == Clause(keywords[i], keywords[j])
  {
    var k := if j < i then j else j - 1;
    assert Skip(i, k) == j;
    ClauseAtSix(keywords, i, k);
    assert i * 5 + k == 5 * i + k;
  }

  /**
    Python's `perm.strip()` followed by the split at lines 129-136: a clause
    without `"from "` has no from-status and its to-status follows the first
    `"to "`; any other clause has its from-status from position 5 to the first
    `" to "` and its to-status after it. None stands for the ValueError
    `index` raises when the separator is missing.
  */
  function SplitClause(perm: string): (r: Option<(string, string)>)
    ensures var p := Strip(perm);
      r.None? <==> (if Contains(p, "from ") then !Contains(p, " to ") else !Contains(p, "to "))
    ensures r.Some? && !Contains(Strip(perm), "from ") ==> r.value.0 == NoStatus
  {
    var p := Strip(perm);
    if !Contains(p, "from ") then
      match IndexOf(p, "to ")
      case None => None
      case Some(i) => Some((NoStatus, p[i + 3..]))
    else
      match IndexOf(p, " to ")
      case None => None
      case Some(i) => Some((Slice(p, 5, i), p[i + 4..]))
  }

  /** A from-status that cannot hide a `" to "`: no word of it starts with a lower-case `t`. */
  predicate NoWordStartsWithT(a: string)
  {
    forall k :: 0 <= k < |a| && a[k] == 't' ==> 0 < k && a[k - 1] != ' '
  }

  /** A to-status that `strip()` leaves alone. */
  predicate EndsInNonSpace(b: string)
  {
    b != [] && !IsSpace(b[|b| - 1])
  }

  /** No `" to "` starts before the one `Clause` puts after the from-status. */
  lemma NoEarlierSeparator(a: string, b: string, p: int)
    requires NoWordStartsWithT(a)
    requires 0 <= p < 5 + |a|
    ensures !IsAt(Clause(a, b), " to ", p)
  {
    var s := Clause(a, b);
    assert s[p] != ' ' || s[p + 1] != 't' by {
      if p < 4 {
        assert s[p] == "from "[p];
      } else if p == 4 {
        assert |a| > 0 ==> s[p + 1] == a[0];
      } else {
        assert s[p] == a[p - 5];
        assert p + 1 < 5 + |a| ==> s[p + 1] == a[p - 4];
      }
    }
    if p + 4 <= |s| {
      assert s[p..p + 4][0] == s[p] && s[p..p + 4][1] == s[p + 1];
    }
  }

  lemma FirstSeparator(a: string, b: string)
    requires NoWordStartsWithT(a)
    ensures IndexOf(Clause(a, b), " to ") == Some(5 + |a|)
  {
    var s := Clause(a, b);
    assert IsAt(s, " to ", 5 + |a|) by {
      assert s[5 + |a|..5 + |a| + 4] == " to ";
    }
    forall p | 0 <= p < 5 + |a| ensures !IsAt(s, " to ", p) {
      NoEarlierSeparator(a, b, p);
    }
  }

  lemma StripLeavesClause(a: string, b: string)
    requires EndsInNonSpace(b)
    ensures Strip(Clause(a, b)) == Clause(a, b)
  {
    var s := Clause(a, b);
    StripPadded([], s, []);
    assert [] + s + [] == s;
  }

  lemma ClauseHasFrom(a: string, b: string)
    ensures Contains(Clause(a, b), "from ")
  {
    var s := Clause(a, b);
    assert IsAt(s, "from ", 0) by {
      assert s[..5] == "from ";
    }
    ContainsIff(s, "from ");
  }

  /** Splitting `"from A to B"` gives back `A` and `B`. */
  lemma SplitClauseRoundTrip(a: string, b: string)
    requires NoWordStartsWithT(a) && EndsInNonSpace(b)
    ensures SplitClause(Clause(a, b)) == Some((a, b))
  {
    var s := Clause(a, b);
    var i := 5 + |a|;
    StripLeavesClause(a, b);
    ClauseHasFrom(a, b);
    FirstSeparator(a, b);
    ClauseParts(a, b);
    SplitAtSeparator(s, i);
  }

  lemma ClauseParts(a: string, b: string)
    ensures Slice(Clause(a, b), 5, 5 + |a|) == a
    ensures Clause(a, b)[5 + |a| + 4..] == b
  {
    var s := Clause(a, b);
    assert s[5..5 + |a|] == a;
  }

  /** How a stripped clause with a from-status splits at its first `" to "`. */
  lemma SplitAtSeparator(s: string, i: nat)
    requires Strip(s) == s && Contains(s, "from ") && IndexOf(s, " to ") == Some(i)
    ensures i + 4 <= |s|
    ensures SplitClause(s) == Some((Slice(s, 5, i), s[i + 4..]))
  {
  }

  lemma OpeningHasNoFrom(b: string)
    requires !Contains(b, "from ")
    ensures !Contains("to " + b, "from ")
  {
    ContainsIff(b, "from ");
    ContainsIff("to " + b, "from ");
    forall p | 0 <= p ensures !IsAt("to " + b, "from ", p) {
      NoFromAt(b, p);
    }
  }

  lemma NoFromAt(b: string, p: nat)
    requires forall q :: !IsAt(b, "from ", q)
    ensures !IsAt("to " + b, "from ", p)
  {
    var s := "to " + b;
    if p + 5 <= |s| {
      if p < 3 {
        assert s[p] == "to "[p];
        assert s[p..p + 5][0] == s[p];
      } else {
        assert !IsAt(b, "from ", p - 3);
        assert s[p..p + 5] == b[p - 3..p + 2];
      }
    }
  }

  /** Splitting `"to B"` gives the missing from-status and `B`. */
  lemma SplitOpeningRoundTrip(b: string)
    requires EndsInNonSpace(b) && !Contains(b, "from ")
    ensures SplitClause("to " + b) == Some((NoStatus, b))
  {
    var s := "to " + b;
    assert Strip(s) == s by {
      StripPadded([], s, []);
      assert [] + s + [] == s;
    }
    OpeningHasNoFrom(b);
    assert IsAt(s, "to ", 0) by {
      assert s[..3] == "to ";
    }
    assert IndexOf(s, "to ") == Some(0);
    assert s[3..] == b;
  }

  lemma KeywordsAreSplittable()
    ensures forall i :: 0 <= i < 6 ==> NoWordStartsWithT(Keywords[i]) && EndsInNonSpace(Keywords[i])
  {
    forall i | 0 <= i < 6 ensures NoWordStartsWithT(Keywords[i]) && EndsInNonSpace(Keywords[i]) {
      var a := Keywords[i];
      assert EndsInNonSpace(a) by {
        assert a[|a| - 1] in "tsd";
      }
      assert NoWordStartsWithT(a) by {
        forall k | 0 <= k < |a| && a[k] == 't' ensures 0 < k && a[k - 1] != ' ' {
          assert a == "Change Request" || a == "Dispatched" || !('t' in a);
        }
      }
    }
  }

  lemma KeywordsDistinct()
    ensures forall i, j :: 0 <= i < j < 6 ==> Keywords[i] != Keywords[j]
  {
  }

  /** Splitting the opening clause gives the missing from-status and `"Opened"`. */
  lemma SplitOpeningClause()
    ensures SplitClause(OpeningClause) == Some((NoStatus, "Opened"))
  {
    var b := "Opened";
    assert !Contains(b, "from ") by {
      ContainsIff(b, "from ");
      forall p | 0 <= p ensures !IsAt(b, "from ", p) {
        if p + 5 <= |b| {
          assert b[p..p + 5][0] == b[p] != 'f';
        }
      }
    }
    assert OpeningClause == "to " + b;
    SplitOpeningRoundTrip(b);
  }

  /** Splitting any clause `make_permutations` returns gives back the statuses it was built from. */
  lemma SplitSearchClause(p: nat)
    requires p < 31
    ensures p < 30 ==> SplitClause(SearchClauses(Keywords)[p]) == Some((Keywords[p / 5], Keywords[Skip(p / 5, p % 5)]))
    ensures p == 30 ==> SplitClause(SearchClauses(Keywords)[p]) == Some((NoStatus, "Opened"))
  {
    var keywords := Keywords;
    if p < 30 {
      SearchClauseAt(p);
      KeywordsAreSplittable();
      SplitClauseRoundTrip(keywords[p / 5], keywords[Skip(p / 5, p % 5)]);
    } else {
      assert SearchClauses(keywords)[p] == OpeningClause;
      SplitOpeningClause();
    }
  }

  /** No two of the 31 search clauses are equal: each ordered pair of keywords is searched for once. */
  lemma SearchClausesDistinct(p: nat, q: nat)
    requires p < q < 31
    ensures SearchClauses(Keywords)[p] != SearchClauses(Keywords)[q]
  {
    if q < 30 {
      PairClausesDistinct(p, q);
    } else {
      PairClauseIsNotOpening(p);
    }
  }

  lemma PairClausesDistinct(p: nat, q: nat)
    requires p < q < 30
    ensures SearchClauses(Keywords)[p] != SearchClauses(Keywords)[q]
  {
    SplitSearchClause(p);
    SplitSearchClause(q);
    if p / 5 != q / 5 {
      KeywordsDistinctAt(p / 5, q / 5);
    } else {
      KeywordsDistinctAt(Skip(p / 5, p % 5), Skip(q / 5, q % 5));
    }
  }

  lemma KeywordsDistinctAt(i: nat, j: nat)
    requires i < 6 && j < 6 && i != j
    ensures Keywords[i] != Keywords[j]
  {
    KeywordsDistinct();
  }

  lemma PairClauseIsNotOpening(p: nat)
    requires p < 30
    ensures SearchClauses(Keywords)[p] != SearchClauses(Keywords)[30]
  {
    SearchClauseAt(p);
    SplitSearchClause(30);
    var keywords := Keywords;
    assert SearchClauses(keywords)[p][0] == 'f';
    assert SearchClauses(keywords)[30] == OpeningClause;
  }
}
