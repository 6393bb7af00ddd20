// The parity and Cauchy packets an encoder makes are a perfect code.
module Protection {
  import opened Columns
  import opened Gf256
  import opened Coefficients
  import opened RecoveryMatrix
  import opened Recoveries
  import opened Regions
  import opened Mds
  import opened SentPackets

  // The decoder holds packets the encoder made, at the places they were made for.
  ghost predicate MadeAs(recs: seq<Recovery>, base: nat, log: seq<Sent>, picks: seq<nat>) {
    && |recs| == |picks| && (forall i :: 0 <= i < |picks| ==> picks[i] < |log|)
    && (forall i, j :: 0 <= i < j < |picks| ==> picks[i] != picks[j])
    && forall i :: 0 <= i < |picks| ==> recs[i].metadata == log[picks[i]].metadata && StartOf(recs[i], base) == log[picks[i]].start
  }

  // No two of them are 192 Cauchy packets or more apart.
  ghost predicate Near(log: seq<Sent>, picks: seq<nat>) {
    forall i, j :: 0 <= i < |picks| && 0 <= j < |picks| && picks[i] < |log| && picks[j] < |log| ==>
      CauchyCount(log[..picks[j]]) < CauchyCount(log[..picks[i]]) + 192
  }

  // Two packets that protect the same two losses have different rows.
  lemma SentRowsDiffer(recs: seq<Recovery>, base: nat, log: seq<Sent>, picks: seq<nat>, lost: seq<nat>, p: nat, q: nat)
    requires InTurn(log) && MadeAs(recs, base, log, picks) && Near(log, picks)
    requires p < |recs| && q < |recs| && picks[p] < picks[q]
    requires |lost| > 1 && lost[0] < lost[1] && Covers(recs[p], base, lost) && Covers(recs[q], base, lost)
    ensures recs[p].metadata.row != recs[q].metadata.row
  {
    hide CauchyCount, InTurn;
    var i, j := picks[p], picks[q];
    assert StartOf(recs[q], base) <= lost[0] < StartOf(recs[p], base) + recs[p].metadata.sumCount;
    if recs[p].metadata.row == recs[q].metadata.row {
      if recs[p].metadata.row == 0 {
        ParityRowsApart(log, i, j);
      } else {
        CauchyRowsDiffer(log, i, j);
      }
    }
  }

  // Any k packets made by the encoder with parity or Cauchy rows, or as copies of a
  // single packet, that all protect the same k losses recover these: in whatever
  // order they are listed, and whichever others were lost.
  lemma AnySentRecover(recs: seq<Recovery>, raw: Draws, base: nat, log: seq<Sent>, picks: seq<nat>, lost: seq<nat>)
    requires InTurn(log) && MadeAs(recs, base, log, picks) && Near(log, picks) && Ranged(recs, base)
    requires 0 < |lost| == |recs| && forall i, j :: 0 <= i < j < |lost| ==> lost[i] < lost[j]
    requires forall i :: 0 <= i < |recs| ==> Covers(recs[i], base, lost)
    ensures Determined(recs, |recs|, raw, base, lost)
    ensures PivotsInOrder(MatrixRows(recs, |recs|, raw, base, lost), seq(|recs|, _ => |lost|), |lost|)
  {
    hide InTurn, Covers, Determined, PivotsInOrder;
    forall p, q | 0 <= p < q < |recs| ensures recs[p].metadata.row != recs[q].metadata.row {
      if picks[p] < picks[q] {
        SentRowsDiffer(recs, base, log, picks, lost, p, q);
      } else {
        SentRowsDiffer(recs, base, log, picks, lost, q, p);
      }
    }
    AnyLossesRecoverable(recs, |recs|, raw, base, lost, seq(|recs|, _ => |lost|));
  }
}
