/**
 * A worked conversion over three reads: R0 and R1 of length 8, and R2 of
 * length 4, a prefix of R0.  The hit's only block matches the query against
 * every position of the index (positions 0, 1, 2 hold R0, R1, R2) with an
 * overlap length of 4, which is a containment of R2 in each longer read.
 */
module ConversionScenario {
  import opened SeqCoords
  import opened ReadIds
  import opened Overlaps
  import opened HitConversion
  import opened OverlapRouting
  import opened Wrappers

  /** The read table in name order, indexed position by position. */
  function ScenarioIndex(): StrandIndex {
    StrandIndex([SeqItem("R0", 8), SeqItem("R1", 8), SeqItem("R2", 4)], [0, 1, 2])
  }

  /** One block covering positions 0 .. 2 with an overlap length of 4, target on the forward strand. */
  function Block(queryRev: bool): OverlapBlock {
    OverlapBlock(IntervalPair(Interval(0, 2), Interval(0, -1)), 4, 0, queryRev, false)
  }

  /**
   * The containment edge R2 has with a read x of length 8, listed from R2;
   * with the query reversed the two reads are on opposite strands.
   */
  function Contained(x: ReadId, queryRev: bool): Overlap {
    Overlap("R2", x, Match(SeqCoord(0, 3, 4), SeqCoord(0, 3, 8), queryRev, 0))
  }

  /** A single-block hit converts to what its block's span converts to. */
  lemma SingleBlockHit(readIdx: nat, b: OverlapBlock, side: StrandIndex)
    requires BlockInRange(readIdx, b, side, side)
    ensures BlocksInRange(readIdx, [b], side, side)
    ensures HitOverlaps(HitRecord(readIdx, [b]), side, side) == SpanOverlaps(readIdx, b, side, End(b))
  {
    assert [b][..0] == [];
  }

  /** A resolved position whose overlap survives the de-duplication filter contributes exactly that overlap. */
  lemma KeptPosition(readIdx: nat, b: OverlapBlock, side: StrandIndex, j: int, c: Overlap)
    requires Resolvable(readIdx, side, j)
    requires Resolve(readIdx, b, side, j) == Some(c) && !Discarded(c, b.queryRev)
    ensures PositionOverlaps(readIdx, b, side, j) == [c]
  {
  }

  /** A resolved position whose overlap the filter discards contributes nothing. */
  lemma DroppedPosition(readIdx: nat, b: OverlapBlock, side: StrandIndex, j: int, c: Overlap)
    requires Resolvable(readIdx, side, j)
    requires Resolve(readIdx, b, side, j) == Some(c) && Discarded(c, b.queryRev)
    ensures PositionOverlaps(readIdx, b, side, j) == []
  {
  }

  /** Every index position of the scenario, looked up from R2's slot, names a read of the table. */
  predicate ScenarioResolvable() {
    forall j | 0 <= j < 3 :: Resolvable(2, ScenarioIndex(), j)
  }

  lemma ScenarioInRange(queryRev: bool)
    ensures ScenarioResolvable()
    ensures BlockInRange(2, Block(queryRev), ScenarioIndex(), ScenarioIndex())
    ensures End(Block(queryRev)) == 3
  {
  }

  /** Read x at position 0 or 1 of the index. */
  function LongerAt(j: int): ReadId {
    if j == 0 then "R0" else "R1"
  }

  /** R2 matched against a read of length 8 gives the containment edge, on either strand of the query. */
  lemma ContainmentBuilt(x: ReadId, queryRev: bool)
    ensures MakeOverlap(SeqItem("R2", 4), SeqItem(x, 8), Block(queryRev)) == Contained(x, queryRev)
  {
    WholeQueryBuilt("R2", x, 4, 8, Block(queryRev));
  }

  /** When the overlap covers the whole query and the target is forward, both coordinates start at 0 and the strand relation is the query's flag. */
  lemma WholeQueryBuilt(q: ReadId, x: ReadId, n: nat, m: nat, b: OverlapBlock)
    requires 1 <= n <= m && b.overlapLen == n && !b.targetRev
    ensures MakeOverlap(SeqItem(q, n), SeqItem(x, m), b)
            == Overlap(q, x, Match(SeqCoord(0, n - 1, n), SeqCoord(0, n - 1, m), b.queryRev, b.numDiff))
  {
  }

  /** Seen from R2, positions 0 and 1 resolve to the containments in R0 and R1. */
  lemma ResolvedLonger(j: int, queryRev: bool)
    requires j == 0 || j == 1
    ensures ScenarioResolvable()
    ensures Resolve(2, Block(queryRev), ScenarioIndex(), j) == Some(Contained(LongerAt(j), queryRev))
  {
    var r := ScenarioIndex();
    assert r.table[2] == SeqItem("R2", 4);
    assert r.table[r.sai[j]] == SeqItem(LongerAt(j), 8);
    assert "R2"[1] != LongerAt(j)[1];
    ContainmentBuilt(LongerAt(j), queryRev);
  }

  /** An overlap listed from R2 towards a read named before it passes the name test. */
  lemma NamedBeforeR2(x: ReadId)
    requires IdLess(x, "R2")
    ensures !IdLess("R2", x)
  {
    IdLessTotal(x, "R2");
  }

  /** Position 2 holds R2 itself: the self-match is skipped. */
  lemma R2SeesItself(queryRev: bool)
    ensures ScenarioResolvable()
    ensures PositionOverlaps(2, Block(queryRev), ScenarioIndex(), 2) == []
  {
  }

  /** With the query forward, R2 keeps its containments in R0 and R1. */
  lemma R2SeesLonger()
    ensures ScenarioResolvable()
    ensures PositionOverlaps(2, Block(false), ScenarioIndex(), 0) == [Contained("R0", false)]
    ensures PositionOverlaps(2, Block(false), ScenarioIndex(), 1) == [Contained("R1", false)]
  {
    ResolvedLonger(0, false);
    ResolvedLonger(1, false);
    assert IdLess("R0", "R2") && IdLess("R1", "R2");
    NamedBeforeR2("R0");
    NamedBeforeR2("R1");
    KeptPosition(2, Block(false), ScenarioIndex(), 0, Contained("R0", false));
    KeptPosition(2, Block(false), ScenarioIndex(), 1, Contained("R1", false));
  }

  /** With the query reversed, the same containments are dropped. */
  lemma R2Reversed()
    ensures ScenarioResolvable()
    ensures PositionOverlaps(2, Block(true), ScenarioIndex(), 0) == []
    ensures PositionOverlaps(2, Block(true), ScenarioIndex(), 1) == []
  {
    ResolvedLonger(0, true);
    ResolvedLonger(1, true);
    DroppedPosition(2, Block(true), ScenarioIndex(), 0, Contained("R0", true));
    DroppedPosition(2, Block(true), ScenarioIndex(), 1, Contained("R1", true));
  }

  /** A span one position longer ends with what that position contributes. */
  lemma SpanStep(readIdx: nat, b: OverlapBlock, side: StrandIndex, hi: int, before: seq<Overlap>, at: seq<Overlap>)
    requires SpanInRange(readIdx, b, side)
    requires b.ranges.interval0.lower <= hi < End(b)
    requires SpanOverlaps(readIdx, b, side, hi) == before
    requires PositionOverlaps(readIdx, b, side, hi) == at
    ensures SpanOverlaps(readIdx, b, side, hi + 1) == before + at
  {
  }

  /** With the query forward, the span of R2's block up to position 0 holds the edge with R0. */
  lemma ForwardSpanR0()
    ensures SpanInRange(2, Block(false), ScenarioIndex())
    ensures SpanOverlaps(2, Block(false), ScenarioIndex(), 1) == [Contained("R0", false)]
  {
    ScenarioInRange(false);
    R2SeesLonger();
    SpanStep(2, Block(false), ScenarioIndex(), 0, [], [Contained("R0", false)]);
  }

  /** Position 1 adds the edge with R1. */
  lemma ForwardSpanR1()
    ensures SpanInRange(2, Block(false), ScenarioIndex())
    ensures SpanOverlaps(2, Block(false), ScenarioIndex(), 2) == [Contained("R0", false)] + [Contained("R1", false)]
  {
    ForwardSpanR0();
    R2SeesLonger();
    SpanStep(2, Block(false), ScenarioIndex(), 1, [Contained("R0", false)], [Contained("R1", false)]);
  }

  /** With the query forward, the span of R2's block collects positions 0 and 1 and skips position 2. */
  lemma ForwardSpanFromR2()
    ensures SpanInRange(2, Block(false), ScenarioIndex())
    ensures SpanOverlaps(2, Block(false), ScenarioIndex(), 3) == [Contained("R0", false), Contained("R1", false)]
  {
    ForwardSpanR1();
    R2SeesItself(false);
    SpanStep(2, Block(false), ScenarioIndex(), 2, [Contained("R0", false)] + [Contained("R1", false)], []);
    assert [Contained("R0", false)] + [Contained("R1", false)] + [] == [Contained("R0", false), Contained("R1", false)];
  }

  /** With the query forward, R2's hit converts to its two containment edges, in position order. */
  lemma ForwardHitFromR2()
    ensures BlocksInRange(2, [Block(false)], ScenarioIndex(), ScenarioIndex())
    ensures HitOverlaps(HitRecord(2, [Block(false)]), ScenarioIndex(), ScenarioIndex())
            == [Contained("R0", false), Contained("R1", false)]
  {
    ScenarioInRange(false);
    ForwardSpanFromR2();
    SingleBlockHit(2, Block(false), ScenarioIndex());
  }

  /** With the query reversed, R2's hit converts to nothing. */
  lemma ReversedHitFromR2()
    ensures BlocksInRange(2, [Block(true)], ScenarioIndex(), ScenarioIndex())
    ensures HitOverlaps(HitRecord(2, [Block(true)]), ScenarioIndex(), ScenarioIndex()) == []
  {
    var r := ScenarioIndex();
    ScenarioInRange(true);
    R2Reversed();
    R2SeesItself(true);
    SingleBlockHit(2, Block(true), r);
    assert SpanOverlaps(2, Block(true), r, 1) == [];
    assert SpanOverlaps(2, Block(true), r, 2) == [];
  }

  /** The scenario's containment edges, on either strand, go to the containment stream. */
  lemma ScenarioRoutes(x: ReadId, queryRev: bool)
    ensures Route(Contained(x, queryRev)) == ContainStream
  {
  }
}
