/** Candidate questions of a group: for every facet, every non-empty proper subset of the
    values the facet takes in the group. */
module Generation {
  import opened Records
  import opened Impurity
  import opened FacetValues
  import opened Questions

  /** Adds `x` to each of the sets in `ss`, keeping their order. */
  function AddToEach(x: char, ss: seq<set<char>>): (r: seq<set<char>>)
    ensures |r| == |ss| && forall i :: 0 <= i < |ss| ==> r[i] == {x} + ss[i]
  {
    seq(|ss|, i requires 0 <= i < |ss| => {x} + ss[i])
  }

  /** The k-element subsets of the values in `vals`, in lexicographic order of positions. */
  function Combinations(vals: seq<char>, k: nat): (cs: seq<set<char>>)
    decreases |vals|
  {
    if k == 0 then [{}]
    else if |vals| < k then []
    else AddToEach(vals[0], Combinations(vals[1..], k - 1)) + Combinations(vals[1..], k)
  }

  /** A subset is no larger than its superset. */
  lemma SubsetCard(s: set<char>, t: set<char>)
    requires s <= t
    ensures |s| <= |t|
  {
    assert t == s + (t - s);
  }

  /** `s` is a k-element subset of the values in `vals`. */
  ghost predicate SubsetOfSize(s: set<char>, vals: seq<char>, k: nat)
  {
    s <= Elems(vals) && |s| == k
  }

  /** Adding a fresh element grows a set by one. */
  lemma AddCard(x: char, t: set<char>)
    requires x !in t
    ensures |{x} + t| == |t| + 1
  {
  }

  /** Over distinct values, `Combinations` yields exactly the k-element subsets. */
  lemma CombinationsExact(vals: seq<char>, k: nat)
    requires NoDuplicates(vals)
    ensures forall s :: s in Combinations(vals, k) <==> SubsetOfSize(s, vals, k)
  {
    forall s ensures s in Combinations(vals, k) <==> SubsetOfSize(s, vals, k) {
      if s in Combinations(vals, k) {
        CombinationsSound(vals, k, s);
      }
      if SubsetOfSize(s, vals, k) {
        CombinationsComplete(vals, k, s);
      }
    }
  }

  /** The first value of a sequence without duplicates does not occur in its tail. */
  lemma HeadNotInTail(vals: seq<char>)
    requires NoDuplicates(vals) && vals != []
    ensures NoDuplicates(vals[1..])
    ensures Elems(vals) == {vals[0]} + Elems(vals[1..]) && vals[0] !in Elems(vals[1..])
  {
    assert forall c :: c in vals <==> c == vals[0] || c in vals[1..];
  }

  /** Every generated set is a k-element subset of the values. */
  lemma {:induction false} CombinationsSound(vals: seq<char>, k: nat, s: set<char>)
    requires NoDuplicates(vals)
    requires s in Combinations(vals, k)
    ensures SubsetOfSize(s, vals, k)
    decreases |vals|
  {
    if k == 0 {
      assert s == {};
    } else {
      var x, rest := vals[0], vals[1..];
      HeadNotInTail(vals);
      var withHead := AddToEach(x, Combinations(rest, k - 1));
      if s in withHead {
        var i :| 0 <= i < |withHead| && withHead[i] == s;
        var t := Combinations(rest, k - 1)[i];
        CombinationsSound(rest, k - 1, t);
        AddCard(x, t);
      } else {
        CombinationsSound(rest, k, s);
      }
    }
  }

  /** Every k-element subset of the values is generated. */
  lemma {:induction false} CombinationsComplete(vals: seq<char>, k: nat, s: set<char>)
    requires NoDuplicates(vals)
    requires SubsetOfSize(s, vals, k)
    ensures s in Combinations(vals, k)
    decreases |vals|
  {
    if k == 0 {
      assert s == {};
    } else {
      var x, rest := vals[0], vals[1..];
      assert k <= |vals| by {
        ElemsCard(vals);
        SubsetCard(s, Elems(vals));
      }
      HeadNotInTail(vals);
      var withHead := AddToEach(x, Combinations(rest, k - 1));
      var withoutHead := Combinations(rest, k);
      assert Combinations(vals, k) == withHead + withoutHead;
      if x in s {
        var t := s - {x};
        assert s == {x} + t;
        AddCard(x, t);
        assert SubsetOfSize(t, rest, k - 1);
        CombinationsComplete(rest, k - 1, t);
        var i :| 0 <= i < |Combinations(rest, k - 1)| && Combinations(rest, k - 1)[i] == t;
        assert withHead[i] == s;
        assert s in withHead;
      } else {
        assert SubsetOfSize(s, rest, k);
        CombinationsComplete(rest, k, s);
        assert s in withoutHead;
      }
    }
  }

  /** The concatenation of a sequence of sequences, in order. */
  function Flatten<T>(ss: seq<seq<T>>): (r: seq<T>)
  {
    if ss == [] then [] else ss[0] + Flatten(ss[1..])
  }

  /** An element of the concatenation lies in one of the parts; `i` is the first such part. */
  lemma {:induction false} FlattenIndex<T>(ss: seq<seq<T>>, x: T) returns (i: nat)
    requires x in Flatten(ss)
    ensures i < |ss| && x in ss[i]
  {
    if x in ss[0] {
      i := 0;
    } else {
      var j := FlattenIndex(ss[1..], x);
      i := j + 1;
    }
  }

  /** An element of any part is an element of the concatenation. */
  lemma {:induction false} FlattenHas<T>(ss: seq<seq<T>>, i: nat, x: T)
    requires i < |ss| && x in ss[i]
    ensures x in Flatten(ss)
  {
    if i > 0 {
      assert ss[1..][i - 1] == ss[i];
      FlattenHas(ss[1..], i - 1, x);
    }
  }

  /** The combinations of each size from 1 up to, but excluding, the number of values. */
  function BySize(vals: seq<char>): (r: seq<seq<set<char>>>)
    ensures |r| == if vals == [] then 0 else |vals| - 1
  {
    seq(if vals == [] then 0 else |vals| - 1, k requires 0 <= k => Combinations(vals, k + 1))
  }

  /** The non-empty proper subsets, by ascending size. */
  function ProperSubsets(vals: seq<char>): (subsets: seq<set<char>>)
  {
    Flatten(BySize(vals))
  }

  /** A set listed among the combinations of size `i + 1` is a subset of that size, and that
      size is below the number of values. */
  lemma PartMember(vals: seq<char>, i: nat, s: set<char>)
    requires NoDuplicates(vals) && i < |BySize(vals)| && s in BySize(vals)[i]
    ensures s <= Elems(vals) && |s| == i + 1 < |vals|
  {
    CombinationsSound(vals, i + 1, s);
  }

  /** A non-empty proper subset is listed among the combinations of its own size. */
  lemma PartHas(vals: seq<char>, s: set<char>)
    requires NoDuplicates(vals) && s <= Elems(vals) && 0 < |s| < |vals|
    ensures |s| - 1 < |BySize(vals)| && s in BySize(vals)[|s| - 1]
  {
    CombinationsComplete(vals, |s|, s);
  }

  /** Over distinct values, `ProperSubsets` yields exactly the non-empty proper subsets. */
  lemma ProperSubsetsExact(vals: seq<char>)
    requires StrictlyIncreasing(vals)
    ensures forall s :: s in ProperSubsets(vals) <==> s <= Elems(vals) && 0 < |s| < |vals|
  {
    IncreasingNoDuplicates(vals);
    forall s ensures s in ProperSubsets(vals) <==> s <= Elems(vals) && 0 < |s| < |vals| {
      if s in ProperSubsets(vals) {
        var i := FlattenIndex(BySize(vals), s);
        PartMember(vals, i, s);
      }
      if s <= Elems(vals) && 0 < |s| < |vals| {
        PartHas(vals, s);
        FlattenHas(BySize(vals), |s| - 1, s);
      }
    }
  }

  /** The questions generated for one facet of a group. */
  function FacetQuestions(g: seq<Mush>, facet: Facet): (qs: seq<Question>)
  {
    var subsets := ProperSubsets(FacetVals(g, facet));
    seq(|subsets|, i requires 0 <= i < |subsets| => Question(facet, subsets[i]))
  }

  /** The questions generated for facets `0 .. n - 1`, facets ascending. */
  function Candidates(g: seq<Mush>, n: nat): (cs: seq<Question>)
    requires n <= NumFacets
  {
    if n == 0 then [] else Candidates(g, n - 1) + FacetQuestions(g, n - 1)
  }

  /** Every candidate question of a group, in generation order. */
  function AllCandidates(g: seq<Mush>): (cs: seq<Question>)
  {
    Candidates(g, NumFacets)
  }

  /** A question is generated for `facet` iff it asks about `facet` and its value set is a
      non-empty proper subset of the values that facet takes in the group. */
  lemma FacetQuestionsExact(g: seq<Mush>, facet: Facet, q: Question)
    ensures q in FacetQuestions(g, facet) <==>
      q.facet == facet && q.vals <= Elems(FacetVals(g, facet)) && 0 < |q.vals| < |FacetVals(g, facet)|
  {
    var vals := FacetVals(g, facet);
    var subsets := ProperSubsets(vals);
    FacetValsSpec(g, facet);
    ProperSubsetsExact(vals);
    if q in FacetQuestions(g, facet) {
      var i :| 0 <= i < |subsets| && FacetQuestions(g, facet)[i] == q;
      assert q.vals == subsets[i];
    }
    if q.facet == facet && q.vals in subsets {
      var i :| 0 <= i < |subsets| && subsets[i] == q.vals;
      assert FacetQuestions(g, facet)[i] == q;
    }
  }

  /** A question is among the candidates of the first `n` facets iff its facet is below `n`
      and its value set is a non-empty proper subset of the values that facet takes. */
  lemma CandidateIff(g: seq<Mush>, n: nat, q: Question)
    requires n <= NumFacets
    ensures q in Candidates(g, n) <==>
      q.facet < n && q.vals <= Elems(FacetVals(g, q.facet)) && 0 < |q.vals| < |FacetVals(g, q.facet)|
  {
    if q in Candidates(g, n) {
      CandidateSound(g, n, q);
    }
    if q.facet < n && q.vals <= Elems(FacetVals(g, q.facet)) && 0 < |q.vals| < |FacetVals(g, q.facet)| {
      CandidateComplete(g, n, q);
    }
  }

  /** Every candidate of the first `n` facets asks about one of them, with a non-empty proper
      subset of its values. */
  lemma {:induction false} CandidateSound(g: seq<Mush>, n: nat, q: Question)
    requires n <= NumFacets && q in Candidates(g, n)
    ensures q.facet < n && q.vals <= Elems(FacetVals(g, q.facet)) && 0 < |q.vals| < |FacetVals(g, q.facet)|
  {
    CandidatesStep(g, n, q);
    if q in FacetQuestions(g, n - 1) {
      FacetQuestionIff(g, n - 1, q);
    } else {
      CandidateSound(g, n - 1, q);
    }
  }

  /** Every such question about one of the first `n` facets is a candidate. */
  lemma {:induction false} CandidateComplete(g: seq<Mush>, n: nat, q: Question)
    requires n <= NumFacets && q.facet < n
    requires q.vals <= Elems(FacetVals(g, q.facet)) && 0 < |q.vals| < |FacetVals(g, q.facet)|
    ensures q in Candidates(g, n)
  {
    CandidatesStep(g, n, q);
    if q.facet == n - 1 {
      FacetQuestionIff(g, n - 1, q);
    } else {
      CandidateComplete(g, n - 1, q);
    }
  }

  /** `FacetQuestionsExact`, read off at the question's own facet. */
  lemma FacetQuestionIff(g: seq<Mush>, facet: Facet, q: Question)
    ensures q in FacetQuestions(g, facet) <==>
      q.facet == facet && q.vals <= Elems(FacetVals(g, q.facet)) && 0 < |q.vals| < |FacetVals(g, q.facet)|
  {
    FacetQuestionsExact(g, facet, q);
  }

  /** The candidates of the first `n` facets are those of the first `n - 1`, then facet `n - 1`'s. */
  lemma CandidatesStep(g: seq<Mush>, n: nat, q: Question)
    requires 0 < n <= NumFacets
    ensures q in Candidates(g, n) <==> q in Candidates(g, n - 1) || q in FacetQuestions(g, n - 1)
  {
  }

  /** A question is generated iff its facet is in range and its value set is a non-empty
      proper subset of the values that facet takes in the group. */
  lemma CandidatesExact(g: seq<Mush>)
    ensures forall q :: q in AllCandidates(g) <==>
      q.vals <= Elems(FacetVals(g, q.facet)) && 0 < |q.vals| < |FacetVals(g, q.facet)|
  {
    forall q ensures q in AllCandidates(g) <==>
      q.vals <= Elems(FacetVals(g, q.facet)) && 0 < |q.vals| < |FacetVals(g, q.facet)|
    {
      CandidateIff(g, NumFacets, q);
    }
  }

  /** Both sides of every generated question are non-empty, hence smaller than the group. */
  lemma CandidateSplits(g: seq<Mush>, q: Question)
    requires q in AllCandidates(g)
    ensures SplitsNontrivially(q, g)
  {
    CandidateIff(g, NumFacets, q);
    var vals := FacetVals(g, q.facet);
    FacetValsSpec(g, q.facet);
    var v :| v in q.vals;
    assert v in vals;
    IncreasingNoDuplicates(vals);
    ElemsCard(vals);
    assert Elems(vals) == q.vals + (Elems(vals) - q.vals);
    assert |Elems(vals) - q.vals| > 0;
    var w :| w in Elems(vals) - q.vals;
    assert w in vals;
  }

  /** The question for the complementary set of a candidate is a candidate too. */
  lemma ComplementCandidate(g: seq<Mush>, q: Question, q': Question)
    requires q in AllCandidates(g)
    requires q'.facet == q.facet && q'.vals == Elems(FacetVals(g, q.facet)) - q.vals
    ensures q' in AllCandidates(g)
  {
    var vals := FacetVals(g, q.facet);
    CandidateIff(g, NumFacets, q);
    CandidateIff(g, NumFacets, q');
    FacetValsSpec(g, q.facet);
    IncreasingNoDuplicates(vals);
    ElemsCard(vals);
    assert Elems(vals) == q.vals + q'.vals && q.vals !! q'.vals;
  }

  /** The question for the complementary set of a candidate is a candidate too; it swaps the
      two sides and so scores the same. */
  lemma ComplementSameImpurity(g: seq<Mush>, q: Question, q': Question)
    requires q in AllCandidates(g)
    requires q'.facet == q.facet && q'.vals == Elems(FacetVals(g, q.facet)) - q.vals
    ensures q' in AllCandidates(g)
    ensures SplitsNontrivially(q, g) && SplitsNontrivially(q', g)
    ensures Ask(q', g).yes.rows == Ask(q, g).no.rows && Ask(q', g).no.rows == Ask(q, g).yes.rows
    ensures Ask(q', g).impurity == Ask(q, g).impurity
  {
    var vals := Elems(FacetVals(g, q.facet));
    ComplementCandidate(g, q, q');
    FacetValsSpec(g, q.facet);
    forall i | 0 <= i < |g| ensures g[i].attrs[q.facet] in vals {
      assert g[i] in g;
    }
    ComplementSwaps(q, q', g, vals);
    CandidateSplits(g, q);
    CandidateSplits(g, q');
    SplitSidesNonEmpty(q, g);
    AnswerSwapSymmetric(Partition(q, g).0, Partition(q, g).1);
  }

  /** A facet yields no question iff it takes at most one value in the group. */
  lemma FacetQuestionsEmpty(g: seq<Mush>, facet: Facet)
    ensures FacetQuestions(g, facet) == [] <==> |FacetVals(g, facet)| <= 1
  {
    var vals := FacetVals(g, facet);
    FacetValsSpec(g, facet);
    ProperSubsetsExact(vals);
    if |vals| > 1 {
      var s := {vals[0]};
      assert s <= Elems(vals);
      assert s in ProperSubsets(vals);
    }
  }

  /** No candidate exists iff all records of the group agree on every facet. */
  lemma NoCandidatesIff(g: seq<Mush>)
    ensures AllCandidates(g) == [] <==>
      forall f: Facet, i, j :: 0 <= i < |g| && 0 <= j < |g| ==> g[i].attrs[f] == g[j].attrs[f]
  {
    if AllCandidates(g) == [] {
      forall f: Facet, i, j | 0 <= i < |g| && 0 <= j < |g| ensures g[i].attrs[f] == g[j].attrs[f] {
        NoCandidatesAgree(g, f, i, j);
      }
    } else {
      CandidateDisagrees(g);
    }
  }

  /** Without candidates, a facet takes at most one value, so any two records agree on it. */
  lemma NoCandidatesAgree(g: seq<Mush>, f: Facet, i: nat, j: nat)
    requires AllCandidates(g) == [] && i < |g| && j < |g|
    ensures g[i].attrs[f] == g[j].attrs[f]
  {
    var vals := FacetVals(g, f);
    FacetValsSpec(g, f);
    assert |vals| <= 1 by {
      CandidatesContainFacet(g, NumFacets, f);
      FacetQuestionsEmpty(g, f);
    }
    assert g[i] in g && g[j] in g;
    assert g[i].attrs[f] in vals && g[j].attrs[f] in vals;
  }

  /** A candidate separates two records that differ on its facet. */
  lemma CandidateDisagrees(g: seq<Mush>)
    requires AllCandidates(g) != []
    ensures exists f: Facet, i, j :: 0 <= i < |g| && 0 <= j < |g| && g[i].attrs[f] != g[j].attrs[f]
  {
    var q := AllCandidates(g)[0];
    CandidateSplits(g, q);
    var y :| y in g && Holds(q, y);
    var n :| n in g && !Holds(q, n);
    var i :| 0 <= i < |g| && g[i] == y;
    var j :| 0 <= j < |g| && g[j] == n;
    assert g[i].attrs[q.facet] != g[j].attrs[q.facet];
  }

  /** The questions of facet `f` appear among the candidates of every facet range past `f`. */
  lemma {:induction false} CandidatesContainFacet(g: seq<Mush>, n: nat, f: Facet)
    requires f < n <= NumFacets
    ensures |FacetQuestions(g, f)| <= |Candidates(g, n)|
    ensures forall q :: q in FacetQuestions(g, f) ==> q in Candidates(g, n)
  {
    if f < n - 1 {
      CandidatesContainFacet(g, n - 1, f);
    }
  }

  /** The candidates of the first `n` facets are a prefix of all candidates. */
  lemma {:induction false} CandidatesPrefix(g: seq<Mush>, n: nat)
    requires n <= NumFacets
    ensures |Candidates(g, n)| <= |AllCandidates(g)|
    ensures forall i :: 0 <= i < |Candidates(g, n)| ==> AllCandidates(g)[i] == Candidates(g, n)[i]
    decreases NumFacets - n
  {
    if n < NumFacets {
      CandidatesPrefix(g, n + 1);
      assert Candidates(g, n + 1) == Candidates(g, n) + FacetQuestions(g, n);
    }
  }

  /** The questions of `facet` follow those of the earlier facets in the full candidate list. */
  lemma FacetBlock(g: seq<Mush>, facet: Facet)
    ensures |Candidates(g, facet + 1)| == |Candidates(g, facet)| + |FacetQuestions(g, facet)|
    ensures |Candidates(g, facet + 1)| <= |AllCandidates(g)|
    ensures forall j :: 0 <= j < |FacetQuestions(g, facet)| ==>
      AllCandidates(g)[|Candidates(g, facet)| + j] == FacetQuestions(g, facet)[j]
  {
    CandidatesPrefix(g, facet + 1);
    BlockOfPrefix(AllCandidates(g), Candidates(g, facet), FacetQuestions(g, facet));
  }

  /** When `p + f` is a prefix of `s`, the elements of `f` sit in `s` right after `p`. */
  lemma BlockOfPrefix<T>(s: seq<T>, p: seq<T>, f: seq<T>)
    requires |p + f| <= |s| && forall i :: 0 <= i < |p + f| ==> s[i] == (p + f)[i]
    ensures forall j :: 0 <= j < |f| ==> s[|p| + j] == f[j]
  {
    forall j | 0 <= j < |f| ensures s[|p| + j] == f[j] {
      assert (p + f)[|p| + j] == f[j];
    }
  }
}
