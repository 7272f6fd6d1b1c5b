/** The distinct values one facet takes across a group, in ascending order. */
module FacetValues {
  import opened Records

  /** Sorted without duplicates. */
  predicate StrictlyIncreasing(s: seq<char>)
  {
    forall i, j :: 0 <= i < j < |s| ==> s[i] < s[j]
  }

  /** The elements of a sequence, as a set. */
  function Elems(s: seq<char>): (e: set<char>)
  {
    set x | x in s
  }

  /** No value occurs twice. */
  predicate NoDuplicates(s: seq<char>)
  {
    s == [] || (s[0] !in s[1..] && NoDuplicates(s[1..]))
  }

  /** Sorted without duplicates implies without duplicates. */
  lemma {:induction false} IncreasingNoDuplicates(s: seq<char>)
    requires StrictlyIncreasing(s)
    ensures NoDuplicates(s)
  {
    if s != [] {
      assert StrictlyIncreasing(s[1..]);
      IncreasingNoDuplicates(s[1..]);
      assert forall j :: 0 <= j < |s[1..]| ==> s[0] < s[1..][j];
    }
  }

  /** A sequence without duplicates has as many elements as its set of elements. */
  lemma {:induction false} ElemsCard(s: seq<char>)
    requires NoDuplicates(s)
    ensures |Elems(s)| == |s|
  {
    if s != [] {
      assert Elems(s) == {s[0]} + Elems(s[1..]);
      ElemsCard(s[1..]);
    } else {
      assert Elems(s) == {};
    }
  }

  /** Ordered-set insertion: `c` lands in its place and is dropped if already present. */
  function Insert(s: seq<char>, c: char): (r: seq<char>)
  {
    if s == [] then [c]
    else if c < s[0] then [c] + s
    else if c == s[0] then s
    else [s[0]] + Insert(s[1..], c)
  }

  /** Insertion into a sorted sequence keeps it sorted and adds exactly `c`. */
  lemma {:induction false} InsertSorted(s: seq<char>, c: char)
    requires StrictlyIncreasing(s)
    ensures StrictlyIncreasing(Insert(s, c))
    ensures forall x :: x in Insert(s, c) <==> x in s || x == c
  {
    if s != [] && s[0] < c {
      var t := Insert(s[1..], c);
      InsertSorted(s[1..], c);
      assert forall x :: x in s <==> x == s[0] || x in s[1..];
      assert forall j :: 0 <= j < |t| ==> s[0] < t[j] by {
        forall j | 0 <= j < |t| ensures s[0] < t[j] {
          assert t[j] in t;
        }
      }
    }
  }

  /** Models collecting `attrs[facet]` of every record into an ordered set and listing it. */
  function FacetVals(g: seq<Mush>, facet: Facet): (vs: seq<char>)
  {
    if g == [] then [] else Insert(FacetVals(g[..|g| - 1], facet), g[|g| - 1].attrs[facet])
  }

  /** The listed values are sorted without duplicates, are exactly the values the facet takes
      in the group, and are no more numerous than the records. */
  lemma {:induction false} FacetValsSpec(g: seq<Mush>, facet: Facet)
    ensures StrictlyIncreasing(FacetVals(g, facet))
    ensures forall c :: c in FacetVals(g, facet) <==> exists m :: m in g && m.attrs[facet] == c
    ensures |FacetVals(g, facet)| <= |g|
  {
    if g != [] {
      var prefix := g[..|g| - 1];
      var last := g[|g| - 1];
      var before := FacetVals(prefix, facet);
      FacetValsSpec(prefix, facet);
      InsertSorted(before, last.attrs[facet]);
      assert forall m :: m in g <==> m in prefix || m == last by {
        assert g == prefix + [last];
      }
      InsertGrows(before, last.attrs[facet]);
    }
  }

  /** Inserting into a sorted sequence adds at most one element. */
  lemma InsertGrows(s: seq<char>, c: char)
    requires StrictlyIncreasing(s) && StrictlyIncreasing(Insert(s, c))
    requires forall x :: x in Insert(s, c) <==> x in s || x == c
    ensures |Insert(s, c)| <= |s| + 1
  {
    var r := Insert(s, c);
    IncreasingNoDuplicates(r);
    IncreasingNoDuplicates(s);
    ElemsCard(r);
    ElemsCard(s);
    assert Elems(r) == Elems(s) + {c};
  }
}
