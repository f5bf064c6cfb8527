/**
 * An overlap edge between two reads: the two read names, and the match that
 * carries one coordinate per read, the strand relation and the edit count.
 * As with SeqCoord, the defining header is not part of this model.
 */
module Overlaps {
  import opened SeqCoords
  import opened ReadIds

  datatype Match = Match(coord0: SeqCoord, coord1: SeqCoord, isRC: bool, numDiff: int) {

    /** One of the reads lies wholly inside the other. */
    predicate IsContainment() {
      coord0.IsContained() || coord1.IsContained()
    }
  }

  datatype Overlap = Overlap(id0: ReadId, id1: ReadId, matching: Match)

  /** The same overlap listed from the other read's side. */
  function Swap(o: Overlap): Overlap {
    Overlap(o.id1, o.id0, Match(o.matching.coord1, o.matching.coord0, o.matching.isRC, o.matching.numDiff))
  }

  /** The two ways of listing an overlap's reads are exchanged by Swap. */
  lemma SwapInvolutive(o: Overlap)
    ensures Swap(Swap(o)) == o
    ensures Swap(o).matching.IsContainment() == o.matching.IsContainment()
  {
  }
}
