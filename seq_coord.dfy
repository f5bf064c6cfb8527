/**
 * A closed interval [start, end] over a read of length seqLen, as used for the
 * two endpoints of an overlap.  The class that defines it in the repository is
 * not part of this model; its predicates are taken with the definitions below.
 */
module SeqCoords {

  datatype SeqCoord = SeqCoord(start: int, end: int, seqLen: int) {

    /** A non-empty interval lying inside its read. */
    predicate Valid() {
      0 <= start <= end < seqLen
    }

    /** Number of bases covered (end is inclusive). */
    function Length(): int {
      end - start + 1
    }

    /** The interval touches the first base of the read. */
    predicate IsLeftExtreme() {
      start == 0
    }

    /** The interval touches the last base of the read. */
    predicate IsRightExtreme() {
      end == seqLen - 1
    }

    predicate IsExtreme() {
      IsLeftExtreme() || IsRightExtreme()
    }

    /** The interval spans the whole read. */
    predicate IsContained() {
      start == 0 && end == seqLen - 1
    }

    /** The same interval, expressed in the frame of the reverse-complemented read. */
    function Flip(): (r: SeqCoord)
      ensures r.seqLen == seqLen && r.Length() == Length()
      ensures r.IsLeftExtreme() == IsRightExtreme()
      ensures r.IsRightExtreme() == IsLeftExtreme()
      ensures r.IsContained() == IsContained()
      ensures r.Valid() == Valid()
    {
      SeqCoord(seqLen - 1 - end, seqLen - 1 - start, seqLen)
    }
  }

  /** Flipping twice gives back the original interval. */
  lemma FlipInvolutive(c: SeqCoord)
    ensures c.Flip().Flip() == c
  {
  }

  /** Flips the coordinate exactly when its side of the alignment was searched reversed. */
  function Orient(c: SeqCoord, reversed: bool): SeqCoord {
    if reversed then c.Flip() else c
  }

  /** Orienting never changes which read, how long, whether contained or whether extreme. */
  lemma OrientKeeps(c: SeqCoord, reversed: bool)
    ensures Orient(c, reversed).seqLen == c.seqLen
    ensures Orient(c, reversed).Length() == c.Length()
    ensures Orient(c, reversed).IsContained() == c.IsContained()
    ensures Orient(c, reversed).IsExtreme() == c.IsExtreme()
    ensures Orient(c, reversed).Valid() == c.Valid()
  {
  }
}
