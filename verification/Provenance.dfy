/** All rows of one coordinate must come from the same binary, model, corpus
    and server (`coordinate_provenance_matches`). */
module Provenance {
  import opened Wrappers
  import opened EvidenceRows
  import opened PairedSummary

  /** Provenance without what legitimately differs between rows. */
  function Normal(row: Row): (RunProvenance, Evaluation) {
    (row.provenance.(variant := "autonomy_matrix"),
     row.evaluation.(pairId := None, pairSlot := None, pairOrder := None, workspaceSha256 := None, treeSha256 := None))
  }

  predicate SameBackground(a: Row, b: Row) {
    && a.provenance.model == b.provenance.model
    && a.provenance.protocol == b.provenance.protocol
    && a.provenance.pythonBin == b.provenance.pythonBin
  }

  predicate SameSource(a: Row, b: Row) {
    a.arm == b.arm && a.policy == b.policy ==> Normal(a) == Normal(b)
  }

  /** Every two rows agree. */
  predicate Consistent(rows: seq<Row>) {
    forall i, j | 0 <= i < |rows| && 0 <= j < |rows| ::
      SameBackground(rows[i], rows[j]) && SameSource(rows[i], rows[j])
  }

  /** One pass against the first row seen of each coordinate decides whether
      all rows agree pairwise. */
  method ProvenanceMatches(rows: seq<Row>) returns (ok: bool)
    ensures ok <==> Consistent(rows)
  {
    if rows == [] {
      return true;
    }
    if exists i :: 0 <= i < |rows| && !SameBackground(rows[i], rows[0]) {
      return false;
    }
    var exemplars: map<Coordinate, (RunProvenance, Evaluation)> := map[];
    for n := 0 to |rows|
      invariant forall i | 0 <= i < n ::
                  var c := Coordinate(rows[i].arm, rows[i].policy);
                  c in exemplars && exemplars[c] == Normal(rows[i])
      invariant forall c | c in exemplars ::
                  exists i | 0 <= i < n :: c == Coordinate(rows[i].arm, rows[i].policy)
    {
      var c := Coordinate(rows[n].arm, rows[n].policy);
      if c !in exemplars {
        exemplars := exemplars[c := Normal(rows[n])];
      } else if exemplars[c] != Normal(rows[n]) {
        assert !Consistent(rows) by {
          var i :| 0 <= i < n && c == Coordinate(rows[i].arm, rows[i].policy);
          assert !SameSource(rows[i], rows[n]);
        }
        return false;
      }
      assert c == Coordinate(rows[n].arm, rows[n].policy);
    }
    forall i, j | 0 <= i < |rows| && 0 <= j < |rows|
      ensures SameBackground(rows[i], rows[j]) && SameSource(rows[i], rows[j])
    {
      assert SameBackground(rows[i], rows[0]) && SameBackground(rows[j], rows[0]);
    }
    return true;
  }
}
