/** Records of the mushroom dataset: a class label and one categorical code per facet. */
module Records {

  /** Number of categorical attributes every record carries. */
  const NumFacets: nat := 22

  /** An index into a record's attribute sequence. */
  type Facet = f: nat | f < NumFacets

  /** The fixed-length attribute array of a record. */
  type Attrs = s: seq<char> | |s| == NumFacets witness seq(NumFacets, _ => 'a')

  /** One data row: the label character ('p' for poisonous) and its attribute codes. */
  datatype Mush = Mush(poison: char, attrs: Attrs)

  /** A record is poisonous when its label is the character 'p'. */
  predicate Poisonous(m: Mush)
  {
    m.poison == 'p'
  }

  /** All records of a group carry the same label. */
  ghost predicate Pure(rows: seq<Mush>)
  {
    forall i, j :: 0 <= i < |rows| && 0 <= j < |rows| ==> Poisonous(rows[i]) == Poisonous(rows[j])
  }
}
