/**
 * The photo metadata the clustering reads: one record per photo id, reduced
 * to the two fields the core looks up (owner and date taken). Timestamps are
 * whole seconds on one absolute scale, as produced by parsing the
 * "%Y-%m-%d %H:%M:%S" date strings.
 */
module Photos {

  datatype Record = Record(username: string, taken: int)

  /** The in-memory lookup from photo id to its record. */
  type Metadata = map<int, Record>

  /** Every listed photo has a record. */
  predicate AllKnown(d: Metadata, imgs: seq<int>) {
    forall i :: 0 <= i < |imgs| ==> imgs[i] in d
  }

  /**
   * Position of the first listed photo without a record: where a loop that
   * looks the photos up in order first raises KeyError.
   */
  function FirstMissing(d: Metadata, imgs: seq<int>): (i: nat)
    requires !AllKnown(d, imgs)
    ensures i < |imgs| && imgs[i] !in d && AllKnown(d, imgs[..i])
  {
    if imgs[0] !in d then 0
    else
      var i := 1 + FirstMissing(d, imgs[1..]);
      assert imgs[..i] == [imgs[0]] + imgs[1..][..i - 1];
      i
  }

  /** A photo without a record, preceded only by known photos, is the first missing one. */
  lemma {:induction false} FirstMissingAt(d: Metadata, imgs: seq<int>, i: nat)
    requires i < |imgs| && imgs[i] !in d && AllKnown(d, imgs[..i])
    ensures !AllKnown(d, imgs) && FirstMissing(d, imgs) == i
  {
  }
}
