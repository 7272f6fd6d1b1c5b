/** Choosing the question that splits a group best: every candidate is answered, and the
    first one whose answer has the least impurity is kept. */
module Selection {
  import opened Records
  import opened Impurity
  import opened FacetValues
  import opened Questions
  import opened Generation

  datatype Option<T> = None | Some(value: T)

  /** Every question in `cs` splits `g` into two non-empty sides. */
  ghost predicate AllSplit(cs: seq<Question>, g: seq<Mush>)
  {
    forall j :: 0 <= j < |cs| ==> SplitsNontrivially(cs[j], g)
  }

  /** Every generated candidate question splits its group. */
  lemma CandidatesSplit(g: seq<Mush>)
    ensures AllSplit(AllCandidates(g), g)
  {
    forall j | 0 <= j < |AllCandidates(g)| ensures SplitsNontrivially(AllCandidates(g)[j], g) {
      CandidateSplits(g, AllCandidates(g)[j]);
    }
  }

  /** The impurity of the answer to each question of `cs`, in order. */
  ghost function Scores(cs: seq<Question>, g: seq<Mush>): (s: seq<real>)
    requires AllSplit(cs, g)
    ensures |s| == |cs|
  {
    if cs == [] then [] else Scores(cs[..|cs| - 1], g) + [Ask(cs[|cs| - 1], g).impurity]
  }

  /** Entry `j` of `Scores` is the impurity of the answer to question `j`. */
  lemma {:induction false} ScoresAt(cs: seq<Question>, g: seq<Mush>, j: nat)
    requires AllSplit(cs, g) && j < |cs|
    ensures Scores(cs, g)[j] == Ask(cs[j], g).impurity
  {
    if j < |cs| - 1 {
      var init := cs[..|cs| - 1];
      assert init[j] == cs[j];
      ScoresAt(init, g, j);
    }
  }

  /** The position of the first least entry among the first `n` entries of `s`: scanning
      forward, a later entry takes over only when it is strictly lower. */
  function FirstMinIndex(s: seq<real>, n: nat): (k: nat)
    requires 0 < n <= |s|
    ensures k < n
  {
    if n == 1 then 0
    else
      var k := FirstMinIndex(s, n - 1);
      if s[n - 1] < s[k] then n - 1 else k
  }

  /** Among the first `n` entries, entry `k` is least and every earlier entry is strictly larger. */
  ghost predicate FirstMinimal(s: seq<real>, n: nat, k: nat)
    requires k < n <= |s|
  {
    (forall j :: 0 <= j < n ==> s[k] <= s[j]) && (forall j :: 0 <= j < k ==> s[k] < s[j])
  }

  /** The scan finds the first least entry. */
  lemma {:induction false} FirstMinIndexMinimal(s: seq<real>, n: nat)
    requires 0 < n <= |s|
    ensures FirstMinimal(s, n, FirstMinIndex(s, n))
  {
    if n > 1 {
      FirstMinIndexMinimal(s, n - 1);
    }
  }

  /** The first least entry is unique: any position with that property is the one found. */
  lemma FirstMinimalUnique(s: seq<real>, n: nat, k: nat)
    requires k < n <= |s| && FirstMinimal(s, n, k)
    ensures k == FirstMinIndex(s, n)
  {
    FirstMinIndexMinimal(s, n);
  }

  /** The kept candidate: its impurity, the question and its answer, as the scan keeps them. */
  type Kept = (real, Question, Answer)

  /** After the first `n` questions of `cs`, `best` holds the first least-impurity one with its
      answer and impurity; it is `None` exactly when no question has been seen. */
  ghost predicate Tracks(best: Option<Kept>, cs: seq<Question>, n: nat, g: seq<Mush>)
    requires AllSplit(cs, g) && n <= |cs|
  {
    (best.None? <==> n == 0) &&
    (best.Some? ==>
      var k := FirstMinIndex(Scores(cs, g), n);
      best.value.0 == Scores(cs, g)[k] && best.value.1 == cs[k] && best.value.2 == Ask(cs[k], g))
  }

  /** One step of the scan: the question `cs[n]` replaces the kept one when nothing is kept yet
      or when its impurity is strictly lower. */
  lemma Step(best: Option<Kept>, cs: seq<Question>, n: nat, g: seq<Mush>, q: Question, a: Answer)
    requires AllSplit(cs, g) && n < |cs| && Tracks(best, cs, n, g)
    requires q == cs[n] && a == Ask(q, g)
    ensures Tracks(if best.None? || a.impurity < best.value.0 then Some((a.impurity, q, a)) else best,
                   cs, n + 1, g)
  {
    ScoresAt(cs, g, n);
  }

  /** Scans the candidates facet by facet, keeping the first answer of least impurity. */
  method SelectBest(g: seq<Mush>) returns (best: Option<Kept>)
    ensures AllSplit(AllCandidates(g), g)
    ensures best.None? <==> AllCandidates(g) == []
    ensures best.Some? ==>
      var k := FirstMinIndex(Scores(AllCandidates(g), g), |AllCandidates(g)|);
      best.value.1 == AllCandidates(g)[k] && best.value.2 == Ask(best.value.1, g) &&
      best.value.0 == best.value.2.impurity
  {
    CandidatesSplit(g);
    best := None;
    for facet := 0 to NumFacets
      invariant |Candidates(g, facet)| <= |AllCandidates(g)|
      invariant Tracks(best, AllCandidates(g), |Candidates(g, facet)|, g)
    {
      best := ScanFacetAt(g, facet, best);
    }
    TrackedAll(best, g);
  }

  /** Having tracked every candidate, the kept triple is the first least-impurity candidate. */
  lemma TrackedAll(best: Option<Kept>, g: seq<Mush>)
    requires AllSplit(AllCandidates(g), g)
    requires Tracks(best, AllCandidates(g), |AllCandidates(g)|, g)
    ensures best.None? <==> AllCandidates(g) == []
    ensures best.Some? ==>
      var k := FirstMinIndex(Scores(AllCandidates(g), g), |AllCandidates(g)|);
      best.value.1 == AllCandidates(g)[k] && best.value.2 == Ask(best.value.1, g) &&
      best.value.0 == best.value.2.impurity
  {
    var all := AllCandidates(g);
    if best.Some? {
      ScoresAt(all, g, FirstMinIndex(Scores(all, g), |all|));
    }
  }

  /** The scan over the questions generated for `facet`, which follow the candidates of the
      earlier facets. */
  method ScanFacetAt(g: seq<Mush>, facet: Facet, best0: Option<Kept>) returns (best: Option<Kept>)
    requires AllSplit(AllCandidates(g), g) && |Candidates(g, facet)| <= |AllCandidates(g)|
    requires Tracks(best0, AllCandidates(g), |Candidates(g, facet)|, g)
    ensures |Candidates(g, facet + 1)| <= |AllCandidates(g)|
    ensures Tracks(best, AllCandidates(g), |Candidates(g, facet + 1)|, g)
  {
    var questions := FacetQuestions(g, facet);
    ghost var all, base, stop := AllCandidates(g), |Candidates(g, facet)|, |Candidates(g, facet + 1)|;
    FacetBlockAt(g, facet, questions, all, base, stop);
    best := ScanFacet(g, questions, best0, all, base, stop);
  }

  /** The questions of `facet` sit at positions `base .. stop - 1` of the candidate list. */
  lemma FacetBlockAt(g: seq<Mush>, facet: Facet, questions: seq<Question>, all: seq<Question>,
                     base: nat, stop: nat)
    requires questions == FacetQuestions(g, facet) && all == AllCandidates(g)
    requires base == |Candidates(g, facet)| && stop == |Candidates(g, facet + 1)|
    ensures stop == base + |questions| <= |all|
    ensures forall j :: 0 <= j < |questions| ==> all[base + j] == questions[j]
  {
    FacetBlock(g, facet);
  }

  /** The scan over the questions of one facet, which sit at positions
      `base .. stop - 1` of `all`. */
  method ScanFacet(g: seq<Mush>, questions: seq<Question>, best0: Option<Kept>,
                   ghost all: seq<Question>, ghost base: nat, ghost stop: nat)
    returns (best: Option<Kept>)
    requires AllSplit(all, g) && stop == base + |questions| <= |all|
    requires forall j :: 0 <= j < |questions| ==> all[base + j] == questions[j]
    requires Tracks(best0, all, base, g)
    ensures Tracks(best, all, stop, g)
  {
    best := best0;
    for j := 0 to |questions|
      invariant Tracks(best, all, base + j, g)
    {
      var question := questions[j];
      var answer := Ask(question, g);
      var impurity := answer.impurity;
      Step(best, all, base + j, g, question, answer);
      match best {
        case Some((minImpurity, _, _)) =>
          if impurity < minImpurity {
            best := Some((impurity, question, answer));
          }
        case None =>
          best := Some((impurity, question, answer));
      }
    }
  }

  /** The kept question's answer is no worse than any candidate's and strictly better than
      the answer of every candidate generated before it. */
  lemma SelectedIsFirstBest(g: seq<Mush>, k: nat)
    requires AllSplit(AllCandidates(g), g) && 0 < |AllCandidates(g)|
    requires k == FirstMinIndex(Scores(AllCandidates(g), g), |AllCandidates(g)|)
    ensures forall j :: 0 <= j < |AllCandidates(g)| ==>
      Ask(AllCandidates(g)[k], g).impurity <= Ask(AllCandidates(g)[j], g).impurity
    ensures forall j :: 0 <= j < k ==>
      Ask(AllCandidates(g)[k], g).impurity < Ask(AllCandidates(g)[j], g).impurity
  {
    var cs := AllCandidates(g);
    var s := Scores(cs, g);
    FirstMinIndexMinimal(s, |cs|);
    forall j | 0 <= j < |cs| ensures Ask(cs[k], g).impurity <= Ask(cs[j], g).impurity {
      ScoresAt(cs, g, j);
      ScoresAt(cs, g, k);
    }
    forall j | 0 <= j < k ensures Ask(cs[k], g).impurity < Ask(cs[j], g).impurity {
      ScoresAt(cs, g, j);
      ScoresAt(cs, g, k);
    }
  }
}
