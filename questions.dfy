/** A yes/no question about one facet, and the split it induces on a group. */
module Questions {
  import opened Records
  import opened Impurity

  /** "Is the record's value at `facet` one of `vals`?" */
  datatype Question = Question(facet: Facet, vals: set<char>)

  /** The question's answer for one record. */
  predicate Holds(q: Question, m: Mush)
  {
    m.attrs[q.facet] in q.vals
  }

  /** `a` can be obtained from `s` by deleting elements, keeping the order of the rest. */
  ghost predicate IsSubsequence(a: seq<Mush>, s: seq<Mush>)
    decreases |s|
  {
    if a == [] then true
    else if s == [] then false
    else (a[0] == s[0] && IsSubsequence(a[1..], s[1..])) || IsSubsequence(a, s[1..])
  }

  /** The two-way partition of `input` by the question: (yes side, no side). */
  function Partition(q: Question, input: seq<Mush>): (r: (seq<Mush>, seq<Mush>))
    ensures |r.0| + |r.1| == |input|
  {
    if input == [] then ([], [])
    else
      var rest := Partition(q, input[1..]);
      if Holds(q, input[0]) then ([input[0]] + rest.0, rest.1)
      else (rest.0, [input[0]] + rest.1)
  }

  /** A record is on the yes side iff it is in the input and the question holds for it,
      and on the no side iff it is in the input and the question fails for it. */
  lemma {:induction false} PartitionSides(q: Question, input: seq<Mush>)
    ensures forall m :: m in Partition(q, input).0 <==> m in input && Holds(q, m)
    ensures forall m :: m in Partition(q, input).1 <==> m in input && !Holds(q, m)
  {
    if input != [] {
      PartitionSides(q, input[1..]);
      assert forall m :: m in input <==> m == input[0] || m in input[1..];
    }
  }

  /** Every record lands on exactly one side: the sides together are a permutation of the
      input, so their poisonous counts add up to the input's. */
  lemma {:induction false} PartitionPermutes(q: Question, input: seq<Mush>)
    ensures var r := Partition(q, input);
      multiset(r.0) + multiset(r.1) == multiset(input) &&
      PoisonCount(r.0) + PoisonCount(r.1) == PoisonCount(input)
  {
    if input != [] {
      var x, rest := input[0], input[1..];
      PartitionPermutes(q, rest);
      assert input == [x] + rest;
      var r := Partition(q, rest);
      if Holds(q, x) {
        assert ([x] + r.0)[1..] == r.0;
      } else {
        assert ([x] + r.1)[1..] == r.1;
      }
    }
  }

  /** The partition is stable: each side keeps the input's relative order. */
  lemma {:induction false} PartitionStable(q: Question, input: seq<Mush>)
    ensures IsSubsequence(Partition(q, input).0, input)
    ensures IsSubsequence(Partition(q, input).1, input)
  {
    if input != [] {
      var x, rest := input[0], input[1..];
      PartitionStable(q, rest);
      var r := Partition(q, rest);
      SubsequenceSkip(r.0, x, rest);
      SubsequenceSkip(r.1, x, rest);
      assert ([x] + r.0)[1..] == r.0;
      assert ([x] + r.1)[1..] == r.1;
    }
  }

  /** Dropping one more leading element of the longer sequence keeps a subsequence. */
  lemma SubsequenceSkip(a: seq<Mush>, x: Mush, s: seq<Mush>)
    requires IsSubsequence(a, s)
    ensures IsSubsequence(a, [x] + s)
  {
    assert ([x] + s)[1..] == s;
  }

  /** Both sides of the question's partition of `g` are non-empty. */
  predicate SplitsNontrivially(q: Question, g: seq<Mush>)
  {
    (exists m :: m in g && Holds(q, m)) && (exists m :: m in g && !Holds(q, m))
  }

  /** Applies the question to a group it splits, scoring the two sides. */
  function Ask(q: Question, g: seq<Mush>): (a: Answer)
    requires SplitsNontrivially(q, g)
    ensures 0 < |a.yes.rows| < |g| && 0 < |a.no.rows| < |g|
  {
    SplitSidesNonEmpty(q, g);
    NewAnswer(Partition(q, g).0, Partition(q, g).1)
  }

  /** A question that splits `g` leaves neither side of its partition empty. */
  lemma SplitSidesNonEmpty(q: Question, g: seq<Mush>)
    requires SplitsNontrivially(q, g)
    ensures |Partition(q, g).0| > 0 && |Partition(q, g).1| > 0
  {
    PartitionSides(q, g);
    var y :| y in g && Holds(q, y);
    var n :| n in g && !Holds(q, n);
    assert y in Partition(q, g).0 && n in Partition(q, g).1;
  }

  /** The answer's nodes are the scored sides of the partition, which together hold the
      whole group. */
  lemma AskSides(q: Question, g: seq<Mush>)
    requires SplitsNontrivially(q, g)
    ensures Ask(q, g).yes == NewNode(Ask(q, g).yes.rows)
    ensures Ask(q, g).no == NewNode(Ask(q, g).no.rows)
    ensures |Ask(q, g).yes.rows| + |Ask(q, g).no.rows| == |g|
  {
  }

  /** Over a group whose values at the facet all lie in `vals`, asking for the complement
      of `q`'s set within `vals` swaps the two sides. */
  lemma {:induction false} ComplementSwaps(q: Question, q': Question, g: seq<Mush>, vals: set<char>)
    requires q'.facet == q.facet && q'.vals == vals - q.vals
    requires forall i :: 0 <= i < |g| ==> g[i].attrs[q.facet] in vals
    ensures Partition(q', g) == (Partition(q, g).1, Partition(q, g).0)
  {
    if g != [] {
      assert forall i :: 0 <= i < |g[1..]| ==> g[1..][i] == g[i + 1];
      ComplementSwaps(q, q', g[1..], vals);
      assert Holds(q', g[0]) <==> !Holds(q, g[0]);
    }
  }

  /** One step of the partition: the head goes to the side its answer selects. */
  lemma PartitionCons(q: Question, x: Mush, rest: seq<Mush>)
    ensures Partition(q, [x] + rest)
         == if Holds(q, x) then ([x] + Partition(q, rest).0, Partition(q, rest).1)
            else (Partition(q, rest).0, [x] + Partition(q, rest).1)
  {
    assert ([x] + rest)[1..] == rest;
  }

  /** A record whose every facet carries the code `c`. */
  function Uniform(poison: char, c: char): (m: Mush)
  {
    Mush(poison, seq(NumFacets, _ => c))
  }

  /** The five records of the unit test, with facet codes a to e. */
  function Fives(): (rows: seq<Mush>)
  {
    [Uniform('p', 'a'), Uniform('p', 'b'), Uniform('p', 'c'), Uniform('p', 'd'), Uniform('p', 'e')]
  }

  /** Asking "is facet 0 one of a, b, c" of the five records sends the first three to the yes
      side and the other two to the no side. */
  lemma AnswerExample()
    ensures SplitsNontrivially(Question(0, {'a', 'b', 'c'}), Fives())
    ensures Ask(Question(0, {'a', 'b', 'c'}), Fives()).yes.rows == Fives()[..3]
    ensures Ask(Question(0, {'a', 'b', 'c'}), Fives()).no.rows == Fives()[3..]
    ensures |Ask(Question(0, {'a', 'b', 'c'}), Fives()).yes.rows| == 3
    ensures |Ask(Question(0, {'a', 'b', 'c'}), Fives()).no.rows| == 2
  {
    var q := Question(0, {'a', 'b', 'c'});
    var rows := Fives();
    assert Holds(q, rows[0]) && !Holds(q, rows[3]);
    assert rows[0] in rows && rows[3] in rows;
    PartitionExample();
  }

  /** The partition behind the answer above. */
  lemma PartitionExample()
    ensures Partition(Question(0, {'a', 'b', 'c'}), Fives()) == (Fives()[..3], Fives()[3..])
  {
    var q := Question(0, {'a', 'b', 'c'});
    var rows := Fives();
    assert Holds(q, rows[0]) && Holds(q, rows[1]) && Holds(q, rows[2]);
    assert !Holds(q, rows[3]) && !Holds(q, rows[4]);
    var r0, r1, r2, r3, r4 := rows[0], rows[1], rows[2], rows[3], rows[4];
    PartitionCons(q, r4, []);
    assert [r4] == [r4] + [];
    assert Partition(q, [r4]) == ([], [r4]);
    PartitionCons(q, r3, [r4]);
    assert [r3, r4] == [r3] + [r4];
    assert Partition(q, [r3, r4]) == ([], [r3, r4]);
    PartitionCons(q, r2, [r3, r4]);
    assert [r2, r3, r4] == [r2] + [r3, r4] && [r2] + [] == [r2];
    assert Partition(q, [r2, r3, r4]) == ([r2], [r3, r4]);
    PartitionCons(q, r1, [r2, r3, r4]);
    assert [r1, r2, r3, r4] == [r1] + [r2, r3, r4] && [r1] + [r2] == [r1, r2];
    assert Partition(q, [r1, r2, r3, r4]) == ([r1, r2], [r3, r4]);
    PartitionCons(q, r0, [r1, r2, r3, r4]);
    assert rows == [r0] + [r1, r2, r3, r4] && [r0] + [r1, r2] == [r0, r1, r2];
    assert rows[..3] == [r0, r1, r2] && rows[3..] == [r3, r4];
  }
}
