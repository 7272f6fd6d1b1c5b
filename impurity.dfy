/** Label counting and the two-class Gini impurity of a node and of a two-way split. */
module Impurity {
  import opened Records

  /** Number of poisonous records in `rows`. */
  function PoisonCount(rows: seq<Mush>): (n: nat)
    ensures n <= |rows|
  {
    if rows == [] then 0
    else (if Poisonous(rows[0]) then 1 else 0) + PoisonCount(rows[1..])
  }

  /** The count is zero exactly when no record is poisonous, and full exactly when all are. */
  lemma {:induction false} PoisonCountExtremes(rows: seq<Mush>)
    ensures PoisonCount(rows) == 0 <==> forall i :: 0 <= i < |rows| ==> !Poisonous(rows[i])
    ensures PoisonCount(rows) == |rows| <==> forall i :: 0 <= i < |rows| ==> Poisonous(rows[i])
  {
    if rows != [] {
      PoisonCountExtremes(rows[1..]);
      assert forall i :: 1 <= i < |rows| ==> rows[i] == rows[1..][i - 1];
    }
  }

  /** Counting distributes over concatenation. */
  lemma {:induction false} PoisonCountAppend(a: seq<Mush>, b: seq<Mush>)
    ensures PoisonCount(a + b) == PoisonCount(a) + PoisonCount(b)
  {
    if a == [] {
      assert a + b == b;
    } else {
      assert (a + b)[1..] == a[1..] + b;
      PoisonCountAppend(a[1..], b);
    }
  }

  /** `2 * (p / l) * ((l - p) / l)` lies in [0, 1/2] and vanishes exactly at p = 0 or p = l. */
  lemma GiniBounds(p: nat, l: nat)
    requires 0 < l && p <= l
    ensures 0.0 <= Gini(p, l) <= 0.5
    ensures Gini(p, l) == 0.0 <==> p == 0 || p == l
  {
    var lr, pr := l as real, p as real;
    var x := pr / lr;
    var y := (l - p) as real / lr;
    assert (l - p) as real == lr - pr;
    SumOfQuotients(pr, lr - pr, lr);
    assert pr + (lr - pr) == lr;
    assert lr / lr == 1.0;
    assert y == 1.0 - x;
    QuotientZero(pr, lr);
    QuotientZero(lr - pr, lr);
    ProductZero(x, y);
    HalfMinusGini(x);
  }

  /** The formula reaches its maximum 1/2 exactly at an even split, 2p = l. */
  lemma GiniHalfIff(p: nat, l: nat)
    requires 0 < l && p <= l
    ensures Gini(p, l) == 0.5 <==> 2 * p == l
  {
    if 2 * p == l {
      assert (l - p) as real == p as real && 2.0 * p as real == l as real;
      QuotientHalf(p as real, l as real);
      assert Gini(p, l) == 2.0 * 0.5 * 0.5;
    } else {
      GiniBelowHalf(p, l);
    }
  }

  /** Away from an even split the formula stays strictly below 1/2. */
  lemma GiniBelowHalf(p: nat, l: nat)
    requires 0 < l && p <= l && 2 * p != l
    ensures Gini(p, l) < 0.5
  {
    var x := p as real / l as real;
    GiniOfShare(p, l, x);
    QuotientHalf(p as real, l as real);
    HalfOnlyAtHalf(x);
    GiniBounds(p, l);
  }

  /** The formula in terms of the poisonous share `x = p / l`: `2x(1 - x)`. */
  lemma GiniOfShare(p: nat, l: nat, x: real)
    requires 0 < l && p <= l && x == p as real / l as real
    ensures Gini(p, l) == 2.0 * x * (1.0 - x)
  {
    var lr, pr := l as real, p as real;
    var y := (l - p) as real / lr;
    assert (l - p) as real == lr - pr;
    SumOfQuotients(pr, lr - pr, lr);
    assert pr + (lr - pr) == lr;
    assert lr / lr == 1.0;
    assert y == 1.0 - x;
  }

  /** `2x(1 - x)` reaches 1/2 only at the share x = 1/2. */
  lemma HalfOnlyAtHalf(x: real)
    ensures 2.0 * x * (1.0 - x) == 0.5 <==> x == 0.5
  {
    HalfMinusGini(x);
    if x >= 0.5 {
      ProductZero(x - 0.5, x - 0.5);
    } else {
      var a := 0.5 - x;
      assert 2.0 * a * a == 2.0 * (x - 0.5) * (x - 0.5);
      ProductZero(a, a);
    }
  }

  /** A quotient by a positive denominator is 1/2 exactly when the denominator is twice the
      numerator. */
  lemma QuotientHalf(a: real, c: real)
    requires c > 0.0
    ensures a / c == 0.5 <==> 2.0 * a == c
  {
  }

  /** Quotients over one positive denominator add up. */
  lemma SumOfQuotients(a: real, b: real, c: real)
    requires c > 0.0
    ensures a / c + b / c == (a + b) / c
  {
  }

  /** A non-negative quotient by a positive denominator is zero exactly when its numerator is. */
  lemma QuotientZero(a: real, c: real)
    requires a >= 0.0 && c > 0.0
    ensures a / c >= 0.0 && (a / c == 0.0 <==> a == 0.0)
  {
  }

  /** A product of non-negative reals is zero exactly when one factor is. */
  lemma ProductZero(x: real, y: real)
    requires x >= 0.0 && y >= 0.0
    ensures 2.0 * x * y >= 0.0 && (2.0 * x * y == 0.0 <==> x == 0.0 || y == 0.0)
  {
  }

  /** `1/2 - 2x(1 - x)` is the square `2(x - 1/2)^2`, hence never negative. */
  lemma HalfMinusGini(x: real)
    ensures 0.5 - 2.0 * x * (1.0 - x) == 2.0 * (x - 0.5) * (x - 0.5) >= 0.0
  {
  }

  /** Two-class Gini impurity of a side with `p` poisonous records out of `l`. */
  function Gini(p: nat, l: nat): (g: real)
    requires 0 < l && p <= l
  {
    2.0 * (p as real / l as real) * ((l - p) as real / l as real)
  }

  /** One side of a split: its rows, their poisonous count and their impurity. */
  datatype Node = Node(rows: seq<Mush>, poisonCnt: nat, impurity: real)

  /** Builds a node; only ever applied to a non-empty side. */
  function NewNode(rows: seq<Mush>): (n: Node)
    requires |rows| > 0
  {
    var cnt := PoisonCount(rows);
    Node(rows, cnt, Gini(cnt, |rows|))
  }

  /** A node's impurity lies in [0, 1/2], is zero exactly when its rows are pure, and is 1/2
      exactly when half of them are poisonous. */
  lemma NodeImpurity(rows: seq<Mush>)
    requires |rows| > 0
    ensures 0.0 <= NewNode(rows).impurity <= 0.5
    ensures NewNode(rows).impurity == 0.0 <==> Pure(rows)
    ensures NewNode(rows).impurity == 0.5 <==> 2 * PoisonCount(rows) == |rows|
  {
    var cnt := PoisonCount(rows);
    PoisonCountExtremes(rows);
    GiniBounds(cnt, |rows|);
    GiniHalfIff(cnt, |rows|);
    if Poisonous(rows[0]) {
      assert cnt != 0;
    } else {
      assert cnt != |rows|;
    }
  }

  /** The result of a split: both sides and the sum of their impurities. */
  datatype Answer = Answer(yes: Node, no: Node, impurity: real)

  /** Scores a split whose two sides are both non-empty. */
  function NewAnswer(yes: seq<Mush>, no: seq<Mush>): (a: Answer)
    requires |yes| > 0 && |no| > 0
  {
    var yesNode := NewNode(yes);
    var noNode := NewNode(no);
    Answer(yesNode, noNode, yesNode.impurity + noNode.impurity)
  }

  /** A split's impurity lies in [0, 1] and is zero exactly when both sides are pure. */
  lemma AnswerImpurity(yes: seq<Mush>, no: seq<Mush>)
    requires |yes| > 0 && |no| > 0
    ensures 0.0 <= NewAnswer(yes, no).impurity <= 1.0
    ensures NewAnswer(yes, no).impurity == 0.0 <==> Pure(yes) && Pure(no)
  {
    NodeImpurity(yes);
    NodeImpurity(no);
  }

  /** Swapping the two sides leaves the impurity of the split unchanged. */
  lemma AnswerSwapSymmetric(yes: seq<Mush>, no: seq<Mush>)
    requires |yes| > 0 && |no| > 0
    ensures NewAnswer(yes, no).impurity == NewAnswer(no, yes).impurity
  {
  }

  /** Attribute array with every facet set to 'a', as in the unit tests. */
  const AllA: Attrs := seq(NumFacets, _ => 'a')

  /** Ten poisonous, ten edible, and ten alternating records (edible at even positions). */
  function Poisons(): (rows: seq<Mush>)
    ensures |rows| == 10 && PoisonCount(rows) == 10
  {
    var rows := seq(10, _ => Mush('p', AllA));
    PoisonCountExtremes(rows);
    rows
  }

  function Edibles(): (rows: seq<Mush>)
    ensures |rows| == 10 && PoisonCount(rows) == 0
  {
    var rows := seq(10, _ => Mush('e', AllA));
    PoisonCountExtremes(rows);
    rows
  }

  function Mixed(): (rows: seq<Mush>)
    ensures |rows| == 10 && PoisonCount(rows) == 5
  {
    var rows := seq(10, i => Mush(if i % 2 == 0 then 'e' else 'p', AllA));
    var pair := [Mush('e', AllA), Mush('p', AllA)];
    assert rows == pair + pair + pair + pair + pair;
    PoisonCountAppend(pair, pair);
    PoisonCountAppend(pair + pair, pair);
    PoisonCountAppend(pair + pair + pair, pair);
    PoisonCountAppend(pair + pair + pair + pair, pair);
    assert PoisonCount(pair) == 1 by {
      assert pair[1..][1..] == [];
    }
    rows
  }

  /** A perfect split by label beats a split with one 5/5 mixed side, in either order,
      and the mixed split scores the same when its sides are swapped. */
  lemma ImpurityScenario()
    ensures NewAnswer(Poisons(), Edibles()).impurity == 0.0
    ensures NewAnswer(Poisons(), Mixed()).impurity == 0.5
    ensures NewAnswer(Poisons(), Edibles()).impurity < NewAnswer(Poisons(), Mixed()).impurity
    ensures NewAnswer(Edibles(), Poisons()).impurity < NewAnswer(Poisons(), Mixed()).impurity
    ensures NewAnswer(Poisons(), Mixed()).impurity == NewAnswer(Mixed(), Poisons()).impurity
  {
    ScenarioNodes();
  }

  /** The all-poisonous and all-edible fixtures are pure nodes; the alternating one scores 1/2. */
  lemma ScenarioNodes()
    ensures NewNode(Poisons()).impurity == 0.0 && NewNode(Edibles()).impurity == 0.0
    ensures NewNode(Mixed()).impurity == 0.5
  {
    GiniBounds(10, 10);
    GiniBounds(0, 10);
    GiniHalfIff(5, 10);
  }
}
