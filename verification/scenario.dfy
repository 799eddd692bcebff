/** A worked instance of the address search: three rows in Recife, two of
    them on access point AT01, and one row in another city. */
module Scenario {
  import opened Seqs
  import opened Ordering
  import opened Addresses

  const R1: Row := map["CIDADE" := Text("Recife"), "AT" := Text("AT01"), "FAC" := Text("F1")]
  const R2: Row := map["CIDADE" := Text("Recife"), "AT" := Text("AT01"), "FAC" := Text("F2")]
  const R3: Row := map["CIDADE" := Text("Recife"), "AT" := Text("AT02"), "FAC" := Text("F3")]
  const R4: Row := map["CIDADE" := Text("Olinda"), "AT" := Text("AT01"), "FAC" := Text("F4")]

  /** Choosing Recife keeps its three rows, in order. */
  lemma ByCity()
    ensures Matching([R1, R2, R3, R4], CityColumn, "Recife") == [R1, R2, R3]
  {
    var keep := (row: Row) => HasValue(row, CityColumn, "Recife");
    assert keep(R1) && keep(R2) && keep(R3) && !keep(R4);
    var all := [R1, R2, R3, R4];
    assert all[1..] == [R2, R3, R4] && all[1..][1..] == [R3, R4] && all[1..][1..][1..] == [R4];
    assert Filter([R4], keep) == [];
    assert Filter([R3, R4], keep) == [R3];
    assert Filter([R2, R3, R4], keep) == [R2, R3];
    assert Filter(all, keep) == [R1, R2, R3];
    assert Matching(all, CityColumn, "Recife") == Filter(all, keep);
  }

  /** Then choosing AT01 keeps exactly its two rows. */
  lemma ByAccessPoint()
    ensures Narrow([R1, R2, R3], AtColumn, "AT01") == [R1, R2]
  {
    var rows := [R1, R2, R3];
    assert Domain(rows, AtColumn) != [] by {
      DomainEmpty(rows, AtColumn);
      assert R1 in rows;
    }
    var keep := (row: Row) => HasValue(row, AtColumn, "AT01");
    assert keep(R1) && keep(R2) && !keep(R3);
    assert rows[1..] == [R2, R3] && rows[1..][1..] == [R3];
    assert Filter([R3], keep) == [];
    assert Filter([R2, R3], keep) == [R2];
  }

  /** The FAC options offered afterwards are only those of the two rows. */
  lemma FacilitiesOfAccessPoint()
    ensures Domain([R1, R2], FacColumn) == ["F1", "F2"]
  {
    assert [R1, R2][1..] == [R2];
    assert Present([R2], FacColumn) == ["F2"];
    assert Present([R1, R2], FacColumn) == ["F1", "F2"];
    assert Less("F1", "F2");
    assert SortedDistinct(["F1"]) == ["F1"];
  }
}
