/**
 * The legacy output path (writeOverlap): every overlap goes to exactly one of
 * the containment stream, the overlap stream, or is dropped with a warning as
 * non-extreme or improper.  The stream writes are the only effect, so the
 * model returns the destination instead of writing.
 */
module OverlapRouting {
  import opened SeqCoords
  import opened Overlaps
  import opened HitConversion

  datatype Destination = ContainStream | OverlapStream | DropNonExtreme | DropImproper

  /** Extremity pattern writeOverlap accepts, given the strand relation. */
  predicate IsProper(m: Match) {
    if !m.isRC then
      m.coord0.IsLeftExtreme() != m.coord1.IsLeftExtreme()
      && m.coord0.IsRightExtreme() != m.coord1.IsRightExtreme()
    else
      m.coord0.IsLeftExtreme() == m.coord1.IsLeftExtreme()
      && m.coord0.IsRightExtreme() == m.coord1.IsRightExtreme()
  }

  /** writeOverlap's decision chain. */
  function Route(ovr: Overlap): Destination {
    var m := ovr.matching;
    if m.coord0.IsContained() || m.coord1.IsContained() then ContainStream
    else if !m.coord0.IsExtreme() || !m.coord1.IsExtreme() then DropNonExtreme
    else if !IsProper(m) then DropImproper
    else OverlapStream
  }

  // Reference descriptions of the two accepted shapes, stated per coordinate.

  /** The coordinate covers a proper suffix of its read: it reaches the last base but not the first. */
  predicate IsSuffixOnly(c: SeqCoord) {
    c.IsRightExtreme() && !c.IsLeftExtreme()
  }

  /** The coordinate covers a proper prefix of its read. */
  predicate IsPrefixOnly(c: SeqCoord) {
    c.IsLeftExtreme() && !c.IsRightExtreme()
  }

  /**
   * A join that can be an edge of the overlap graph: on the same strand, one
   * read's suffix meets the other's prefix; on opposite strands, the two
   * suffixes meet or the two prefixes meet.
   */
  predicate IsDovetail(m: Match) {
    if !m.isRC then
      (IsSuffixOnly(m.coord0) && IsPrefixOnly(m.coord1)) || (IsPrefixOnly(m.coord0) && IsSuffixOnly(m.coord1))
    else
      (IsSuffixOnly(m.coord0) && IsSuffixOnly(m.coord1)) || (IsPrefixOnly(m.coord0) && IsPrefixOnly(m.coord1))
  }

  /** Any overlap with a contained coordinate goes to the containment stream, and only those do. */
  lemma RouteContainment(ovr: Overlap)
    ensures Route(ovr) == ContainStream <==> ovr.matching.IsContainment()
  {
  }

  /** An overlap is dropped as non-extreme exactly when it is no containment and one coordinate touches neither end. */
  lemma RouteNonExtreme(ovr: Overlap)
    ensures Route(ovr) == DropNonExtreme
            <==> !ovr.matching.IsContainment() && !(ovr.matching.coord0.IsExtreme() && ovr.matching.coord1.IsExtreme())
  {
  }

  /** An overlap is dropped as improper exactly when it is no containment, both ends are extreme, and the pattern is wrong for its strand. */
  lemma RouteImproper(ovr: Overlap)
    ensures Route(ovr) == DropImproper
            <==> !ovr.matching.IsContainment() && ovr.matching.coord0.IsExtreme() && ovr.matching.coord1.IsExtreme()
                 && !IsProper(ovr.matching)
  {
  }

  /** The overlap stream receives exactly the dovetail joins. */
  lemma RouteOverlapStream(ovr: Overlap)
    ensures Route(ovr) == OverlapStream <==> IsDovetail(ovr.matching)
  {
  }

  /** What reaches the overlap stream: no contained coordinate, both extreme, and the strand's flag pattern. */
  lemma RouteOverlapStreamConditions(ovr: Overlap)
    requires Route(ovr) == OverlapStream
    ensures !ovr.matching.coord0.IsContained() && !ovr.matching.coord1.IsContained()
    ensures ovr.matching.coord0.IsExtreme() && ovr.matching.coord1.IsExtreme()
    ensures !ovr.matching.isRC ==>
              ovr.matching.coord0.IsLeftExtreme() != ovr.matching.coord1.IsLeftExtreme()
              && ovr.matching.coord0.IsRightExtreme() != ovr.matching.coord1.IsRightExtreme()
    ensures ovr.matching.isRC ==>
              ovr.matching.coord0.IsLeftExtreme() == ovr.matching.coord1.IsLeftExtreme()
              && ovr.matching.coord0.IsRightExtreme() == ovr.matching.coord1.IsRightExtreme()
  {
  }

  /** Listing the reads the other way round does not change the destination. */
  lemma RouteSwapInvariant(ovr: Overlap)
    ensures Route(Swap(ovr)) == Route(ovr)
  {
  }

  /** The same overlap described on the reverse strand of both reads goes to the same destination. */
  lemma RouteFlipInvariant(ovr: Overlap)
    ensures Route(Overlap(ovr.id0, ovr.id1,
                          Match(ovr.matching.coord0.Flip(), ovr.matching.coord1.Flip(),
                                ovr.matching.isRC, ovr.matching.numDiff)))
            == Route(ovr)
  {
  }

  /**
   * Overlaps built by the hit conversion, when the overlap length fits both
   * reads, are never dropped: they go to the containment stream exactly when
   * the overlap covers a whole read, and to the overlap stream otherwise.
   */
  lemma ConvertedOverlapRoute(query: SeqItem, target: SeqItem, b: OverlapBlock)
    requires 1 <= b.overlapLen <= query.length && b.overlapLen <= target.length
    ensures Route(MakeOverlap(query, target, b)) == ContainStream
            <==> b.overlapLen == query.length || b.overlapLen == target.length
    ensures Route(MakeOverlap(query, target, b)) != ContainStream
            ==> Route(MakeOverlap(query, target, b)) == OverlapStream
  {
    var q := QueryCoord(query.length, b.overlapLen);
    var t := TargetCoord(target.length, b.overlapLen);
    QueryCoordShape(query.length, b.overlapLen);
    TargetCoordShape(target.length, b.overlapLen);
    var o := MakeOverlap(query, target, b);
    assert o.matching.coord0 == Orient(q, b.queryRev);
    assert o.matching.coord1 == Orient(t, b.targetRev);
  }

  /**
   * At block level: if every read on the searched strand is at least as long
   * as the block's overlap length, no overlap the block emits is dropped by
   * writeOverlap.
   */
  lemma BlockOverlapsNeverDropped(readIdx: nat, b: OverlapBlock, fwd: StrandIndex, rev: StrandIndex, o: Overlap)
    requires BlockInRange(readIdx, b, fwd, rev)
    requires 1 <= b.overlapLen
    requires forall k | 0 <= k < |Side(b, fwd, rev).table| :: b.overlapLen <= Side(b, fwd, rev).table[k].length
    requires o in BlockOverlaps(readIdx, b, fwd, rev)
    ensures Route(o) == ContainStream || Route(o) == OverlapStream
  {
    var side := Side(b, fwd, rev);
    SpanOverlapsFrom(readIdx, b, side, End(b), o);
    var j :| b.ranges.interval0.lower <= j < End(b) && o in PositionOverlaps(readIdx, b, side, j);
    assert Resolvable(readIdx, side, j);
    var query, target := side.table[readIdx], side.table[side.sai[j]];
    assert o == MakeOverlap(query, target, b);
    ConvertedOverlapRoute(query, target, b);
  }
}
