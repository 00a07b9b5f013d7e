/** The per-document dictionary of the store: it maps `str(ts)` to the
    content written at second `ts`, and holds one bookkeeping entry,
    "latest_ts", whose value is the integer timestamp of the last write. */
module Revisions {
  import opened Decimal

  /** The Python values that occur as keys and values of that dictionary. A
      string and an int are never equal as dict keys. */
  datatype PyValue = Str(s: string) | Int(i: int)

  /** The bookkeeping key. */
  const LatestKey: PyValue := Str("latest_ts")

  /** The key a revision written at second `ts` is stored under. */
  function RevisionKey(ts: nat): (k: PyValue)
    ensures k != LatestKey
  {
    var k := Str(NatToDecimal(ts));
    assert k.s[0] != LatestKey.s[0];
    k
  }

  /** Every key other than "latest_ts" is a string of digits holding content. */
  ghost predicate OnlyRevisions(revisions: map<PyValue, PyValue>) {
    forall k :: k in revisions && k != LatestKey ==>
      k.Str? && IsCanonical(k.s) && revisions[k].Str?
  }

  /** The shape every stored document has after its first write: the
      bookkeeping entry is a non-negative int and names a stored revision. */
  ghost predicate WellFormed(revisions: map<PyValue, PyValue>) {
    && OnlyRevisions(revisions)
    && LatestKey in revisions
    && revisions[LatestKey].Int?
    && revisions[LatestKey].i >= 0
    && RevisionKey(revisions[LatestKey].i) in revisions
  }

  /** The timestamp recorded by the last write. */
  function LatestStamp(revisions: map<PyValue, PyValue>): (ts: nat)
    requires WellFormed(revisions)
    ensures RevisionKey(ts) in revisions && revisions[RevisionKey(ts)].Str?
  {
    revisions[LatestKey].i
  }

  /** The two assignments a write makes to a document's dictionary: its
      content under `str(ts)`, then `ts` under "latest_ts". */
  function Write(revisions: map<PyValue, PyValue>, content: string, ts: nat): (r: map<PyValue, PyValue>)
    ensures r.Keys == revisions.Keys + {RevisionKey(ts), LatestKey}
    ensures r[RevisionKey(ts)] == Str(content)
    ensures r[LatestKey] == Int(ts)
    ensures forall k :: k in revisions && k != RevisionKey(ts) && k != LatestKey ==> r[k] == revisions[k]
    ensures OnlyRevisions(revisions) ==> WellFormed(r) && LatestStamp(r) == ts
  {
    revisions[RevisionKey(ts) := Str(content)][LatestKey := Int(ts)]
  }

  /** A write in another second leaves an earlier revision as it was; a write
      in the same second replaces it. */
  lemma WriteOtherSecond(revisions: map<PyValue, PyValue>, content: string, ts: nat, earlier: nat)
    requires RevisionKey(earlier) in revisions
    ensures Write(revisions, content, ts)[RevisionKey(earlier)]
         == if earlier == ts then Str(content) else revisions[RevisionKey(earlier)]
  {
    if earlier != ts && RevisionKey(earlier) == RevisionKey(ts) {
      NatToDecimalInjective(earlier, ts);
    }
  }
}
