/**
 * Conversion of one hit record into overlap edges (hitStringToOverlaps).
 *
 * A hit record names a query read and a list of blocks.  Each block carries the
 * suffix-array interval of the reads that share a prefix/suffix match with the
 * query, the overlap length, the edit count and the two strand flags.  Every
 * position of the interval resolves, through the forward or the reverse index,
 * to a target read; each resolved pair becomes an overlap unless it is a
 * self-match or is discarded by the deduplication rule.
 */
module HitConversion {
  import opened SeqCoords
  import opened ReadIds
  import opened Overlaps
  import opened Wrappers

  /** An inclusive range [lower, upper] of suffix-array positions; empty when lower > upper. */
  datatype Interval = Interval(lower: int, upper: int)

  /** The two intervals a block carries; only the first is read when converting. */
  datatype IntervalPair = IntervalPair(interval0: Interval, interval1: Interval)

  datatype OverlapBlock = OverlapBlock(
    ranges: IntervalPair,
    overlapLen: int,
    numDiff: int,
    queryRev: bool,
    targetRev: bool)

  /** A parsed line of a hits file: the query read's index and its blocks, in line order. */
  datatype HitRecord = HitRecord(readIdx: nat, blocks: seq<OverlapBlock>)

  /** A read of the read table, reduced to what the conversion uses: its name and length. */
  datatype SeqItem = SeqItem(id: ReadId, length: nat)

  /**
   * One strand's read table together with its suffix-array index, which maps a
   * position to the index of a read in that table.
   */
  datatype StrandIndex = StrandIndex(table: seq<SeqItem>, sai: seq<nat>)

  /** The query's slot and index position j exist on this strand, and position j names a read of the table. */
  predicate Resolvable(readIdx: nat, side: StrandIndex, j: int) {
    readIdx < |side.table| && 0 <= j < |side.sai| && side.sai[j] < |side.table|
  }

  /** The table and index searched for the target: the reverse ones when the target was reversed. */
  function Side(b: OverlapBlock, fwd: StrandIndex, rev: StrandIndex): StrandIndex {
    if b.targetRev then rev else fwd
  }

  /** One past the last position visited for block b (equal to lower when the interval is empty). */
  function End(b: OverlapBlock): int {
    var iv := b.ranges.interval0;
    if iv.lower <= iv.upper then iv.upper + 1 else iv.lower
  }

  /** Number of positions of block b's first interval. */
  function Width(b: OverlapBlock): nat {
    End(b) - b.ranges.interval0.lower
  }

  /** What the index and table must answer for block b: the query and every visited position exist. */
  predicate SpanInRange(readIdx: nat, b: OverlapBlock, side: StrandIndex) {
    forall p | b.ranges.interval0.lower <= p <= b.ranges.interval0.upper :: Resolvable(readIdx, side, p)
  }

  predicate BlockInRange(readIdx: nat, b: OverlapBlock, fwd: StrandIndex, rev: StrandIndex) {
    SpanInRange(readIdx, b, Side(b, fwd, rev))
  }

  predicate BlocksInRange(readIdx: nat, blocks: seq<OverlapBlock>, fwd: StrandIndex, rev: StrandIndex) {
    forall k | 0 <= k < |blocks| :: BlockInRange(readIdx, blocks[k], fwd, rev)
  }

  /** Coordinate of the query before any flip: its last overlapLen bases. */
  function QueryCoord(len: int, overlapLen: int): SeqCoord {
    var s := len - overlapLen;
    SeqCoord(s, s + overlapLen - 1, len)
  }

  /** Coordinate of the target before any flip: its first overlapLen bases. */
  function TargetCoord(len: int, overlapLen: int): SeqCoord {
    SeqCoord(0, overlapLen - 1, len)
  }

  /**
   * The unflipped query coordinate covers overlapLen bases and reaches the end
   * of the query; it reaches the start only when it covers the whole query.
   */
  lemma QueryCoordShape(len: int, overlapLen: int)
    ensures QueryCoord(len, overlapLen).seqLen == len && QueryCoord(len, overlapLen).Length() == overlapLen
    ensures QueryCoord(len, overlapLen).IsRightExtreme()
    ensures QueryCoord(len, overlapLen).IsLeftExtreme() <==> overlapLen == len
    ensures 1 <= overlapLen <= len ==> QueryCoord(len, overlapLen).Valid()
  {
  }

  /**
   * The unflipped target coordinate covers overlapLen bases from the start of
   * the target; it reaches the end only when it covers the whole target.
   */
  lemma TargetCoordShape(len: int, overlapLen: int)
    ensures TargetCoord(len, overlapLen).seqLen == len && TargetCoord(len, overlapLen).Length() == overlapLen
    ensures TargetCoord(len, overlapLen).IsLeftExtreme()
    ensures TargetCoord(len, overlapLen).IsRightExtreme() <==> overlapLen == len
    ensures 1 <= overlapLen <= len ==> TargetCoord(len, overlapLen).Valid()
  {
  }

  /** The overlap between query and target that block b describes, coordinates in each read's own frame. */
  function MakeOverlap(query: SeqItem, target: SeqItem, b: OverlapBlock): Overlap {
    Overlap(query.id, target.id,
      Match(Orient(QueryCoord(query.length, b.overlapLen), b.queryRev),
            Orient(TargetCoord(target.length, b.overlapLen), b.targetRev),
            b.targetRev != b.queryRev,
            b.numDiff))
  }

  /**
   * The deduplication rule: an overlap is dropped when its first name is the
   * smaller, or when it is a containment found with the query reversed.
   */
  predicate Discarded(o: Overlap, queryRev: bool) {
    IdLess(o.id0, o.id1) || (o.matching.IsContainment() && queryRev)
  }

  /** Resolves position j of block b; None for a self-match. */
  function Resolve(readIdx: nat, b: OverlapBlock, side: StrandIndex, j: int): Option<Overlap>
    requires Resolvable(readIdx, side, j)
  {
    var query := side.table[readIdx];
    var target := side.table[side.sai[j]];
    if query.id == target.id then None else Some(MakeOverlap(query, target, b))
  }

  /** What position j of block b contributes to the output: nothing or one overlap. */
  function PositionOverlaps(readIdx: nat, b: OverlapBlock, side: StrandIndex, j: int): (r: seq<Overlap>)
    requires Resolvable(readIdx, side, j)
    ensures |r| <= 1
  {
    var resolved := Resolve(readIdx, b, side, j);
    if resolved.Some? && !Discarded(resolved.value, b.queryRev) then [resolved.value] else []
  }

  /** Overlaps from the positions lower .. hi-1 of block b's first interval, in ascending position order. */
  function SpanOverlaps(readIdx: nat, b: OverlapBlock, side: StrandIndex, hi: int): (r: seq<Overlap>)
    requires SpanInRange(readIdx, b, side)
    requires b.ranges.interval0.lower <= hi <= End(b)
    ensures |r| <= hi - b.ranges.interval0.lower
    decreases hi - b.ranges.interval0.lower
  {
    if hi == b.ranges.interval0.lower then []
    else SpanOverlaps(readIdx, b, side, hi - 1) + PositionOverlaps(readIdx, b, side, hi - 1)
  }

  /** Overlaps contributed by one block. */
  function BlockOverlaps(readIdx: nat, b: OverlapBlock, fwd: StrandIndex, rev: StrandIndex): (r: seq<Overlap>)
    requires BlockInRange(readIdx, b, fwd, rev)
    ensures |r| <= Width(b)
  {
    SpanOverlaps(readIdx, b, Side(b, fwd, rev), End(b))
  }

  /** Sum of the widths of the blocks' first intervals. */
  function TotalWidth(blocks: seq<OverlapBlock>): nat {
    if |blocks| == 0 then 0 else TotalWidth(blocks[..|blocks| - 1]) + Width(blocks[|blocks| - 1])
  }

  /** Overlaps contributed by a list of blocks, block by block in list order. */
  function BlocksOverlaps(readIdx: nat, blocks: seq<OverlapBlock>, fwd: StrandIndex, rev: StrandIndex): (r: seq<Overlap>)
    requires BlocksInRange(readIdx, blocks, fwd, rev)
    ensures |r| <= TotalWidth(blocks)
  {
    if |blocks| == 0 then []
    else
      BlocksOverlaps(readIdx, blocks[..|blocks| - 1], fwd, rev)
      + BlockOverlaps(readIdx, blocks[|blocks| - 1], fwd, rev)
  }

  /** The overlaps one hit record converts to. */
  function HitOverlaps(hit: HitRecord, fwd: StrandIndex, rev: StrandIndex): (r: seq<Overlap>)
    requires BlocksInRange(hit.readIdx, hit.blocks, fwd, rev)
    ensures |r| <= TotalWidth(hit.blocks)
  {
    BlocksOverlaps(hit.readIdx, hit.blocks, fwd, rev)
  }

  /**
   * hitStringToOverlaps on an already parsed hit record: walks the blocks in
   * line order and lets ConvertBlock append each block's overlaps.
   */
  method HitToOverlaps(hit: HitRecord, fwd: StrandIndex, rev: StrandIndex) returns (outvec: seq<Overlap>)
    requires BlocksInRange(hit.readIdx, hit.blocks, fwd, rev)
    ensures outvec == HitOverlaps(hit, fwd, rev)
    ensures forall o | o in outvec :: o.id0 != o.id1 && IdLess(o.id1, o.id0)
  {
    outvec := [];
    for i := 0 to |hit.blocks|
      invariant BlocksInRange(hit.readIdx, hit.blocks[..i], fwd, rev)
      invariant outvec == BlocksOverlaps(hit.readIdx, hit.blocks[..i], fwd, rev)
    {
      outvec := ConvertBlock(hit.readIdx, hit.blocks[i], fwd, rev, outvec);
      BlocksOverlapsStep(hit.readIdx, hit.blocks, i, fwd, rev);
    }
    assert hit.blocks[..|hit.blocks|] == hit.blocks;
    HitOverlapsCanonical(hit, fwd, rev);
  }

  /** Converting the first i + 1 blocks is converting the first i, then block i. */
  lemma BlocksOverlapsStep(readIdx: nat, blocks: seq<OverlapBlock>, i: nat, fwd: StrandIndex, rev: StrandIndex)
    requires BlocksInRange(readIdx, blocks, fwd, rev) && i < |blocks|
    ensures BlocksInRange(readIdx, blocks[..i + 1], fwd, rev)
    ensures BlocksOverlaps(readIdx, blocks[..i + 1], fwd, rev)
            == BlocksOverlaps(readIdx, blocks[..i], fwd, rev) + BlockOverlaps(readIdx, blocks[i], fwd, rev)
  {
    assert blocks[..i + 1][..i] == blocks[..i];
    assert blocks[..i + 1][i] == blocks[i];
  }

  /**
   * The body of the block loop of hitStringToOverlaps: visits the positions of
   * the block's first interval in ascending order and lets ConvertPosition
   * append what each contributes.
   */
  method ConvertBlock(readIdx: nat, record: OverlapBlock, fwd: StrandIndex, rev: StrandIndex, outvec: seq<Overlap>)
    returns (outvec': seq<Overlap>)
    requires BlockInRange(readIdx, record, fwd, rev)
    ensures outvec' == outvec + BlockOverlaps(readIdx, record, fwd, rev)
  {
    outvec' := outvec;
    var j := record.ranges.interval0.lower;
    while j <= record.ranges.interval0.upper
      invariant record.ranges.interval0.lower <= j <= End(record)
      invariant outvec' == outvec + SpanOverlaps(readIdx, record, Side(record, fwd, rev), j)
    {
      outvec' := ConvertPosition(readIdx, record, fwd, rev, j, outvec');
      j := j + 1;
    }
  }

  /**
   * The body of the position loop: resolves position j to a target read
   * through the index the target flag selects, skips a self-match, builds the
   * two coordinates, flips each whose side was reversed, and appends the
   * overlap to outvec unless the deduplication rule drops it.
   */
  method ConvertPosition(readIdx: nat, record: OverlapBlock, fwd: StrandIndex, rev: StrandIndex, j: int, outvec: seq<Overlap>)
    returns (outvec': seq<Overlap>)
    requires BlockInRange(readIdx, record, fwd, rev)
    requires record.ranges.interval0.lower <= j <= record.ranges.interval0.upper
    ensures outvec' == outvec + PositionOverlaps(readIdx, record, Side(record, fwd, rev), j)
  {
    outvec' := outvec;
    var currRT := if record.targetRev then rev else fwd;
    assert Resolvable(readIdx, currRT, j);
    var query := currRT.table[readIdx];
    var target := currRT.table[currRT.sai[j]];
    if query.id != target.id {
      var s1 := query.length - record.overlapLen;
      var e1 := s1 + record.overlapLen - 1;
      var sc1 := SeqCoord(s1, e1, query.length);
      var s2 := 0;
      var e2 := s2 + record.overlapLen - 1;
      var sc2 := SeqCoord(s2, e2, target.length);
      if record.queryRev {
        sc1 := sc1.Flip();
      }
      if record.targetRev {
        sc2 := sc2.Flip();
      }
      var isRC := record.targetRev != record.queryRev;
      var o := Overlap(query.id, target.id, Match(sc1, sc2, isRC, record.numDiff));
      assert sc1 == Orient(QueryCoord(query.length, record.overlapLen), record.queryRev);
      assert sc2 == Orient(TargetCoord(target.length, record.overlapLen), record.targetRev);
      assert o == MakeOverlap(query, target, record);
      if !(IdLess(o.id0, o.id1) || (o.matching.IsContainment() && record.queryRev)) {
        outvec' := outvec' + [o];
      }
    }
    PositionOverlapsCases(readIdx, record, currRT, j);
  }

  /**
   * Proof aid: unfolds PositionOverlaps and Resolve. Position j contributes the
   * overlap with its resolved target, unless that is the query itself or the
   * rule discards it.
   */
  lemma PositionOverlapsCases(readIdx: nat, b: OverlapBlock, side: StrandIndex, j: int)
    requires Resolvable(readIdx, side, j)
    ensures var query, target := side.table[readIdx], side.table[side.sai[j]];
            var o := MakeOverlap(query, target, b);
            PositionOverlaps(readIdx, b, side, j)
            == if query.id != target.id && !Discarded(o, b.queryRev) then [o] else []
  {
  }

  // ---------------------------------------------------------------------------
  // What each emitted overlap satisfies

  /** Everything known about an overlap that position j of block b emits. */
  lemma PositionOverlapFacts(readIdx: nat, b: OverlapBlock, side: StrandIndex, j: int, o: Overlap)
    requires Resolvable(readIdx, side, j)
    requires o in PositionOverlaps(readIdx, b, side, j)
    ensures o.id0 == side.table[readIdx].id && o.id1 == side.table[side.sai[j]].id
    ensures o.id0 != o.id1
    ensures IdLess(o.id1, o.id0)
    ensures !(b.queryRev && o.matching.IsContainment())
    ensures o.matching.isRC == (b.targetRev != b.queryRev)
    ensures o.matching.numDiff == b.numDiff
    ensures o.matching.coord0 == Orient(QueryCoord(side.table[readIdx].length, b.overlapLen), b.queryRev)
    ensures o.matching.coord1 == Orient(TargetCoord(side.table[side.sai[j]].length, b.overlapLen), b.targetRev)
  {
    IdLessTotal(o.id0, o.id1);
  }

  /** Every overlap of SpanOverlaps comes from one visited position. */
  lemma {:induction false} SpanOverlapsFrom(readIdx: nat, b: OverlapBlock, side: StrandIndex, hi: int, o: Overlap)
    requires SpanInRange(readIdx, b, side)
    requires b.ranges.interval0.lower <= hi <= End(b)
    requires o in SpanOverlaps(readIdx, b, side, hi)
    ensures exists j :: b.ranges.interval0.lower <= j < hi && o in PositionOverlaps(readIdx, b, side, j)
    decreases hi - b.ranges.interval0.lower
  {
    if hi > b.ranges.interval0.lower {
      if o in SpanOverlaps(readIdx, b, side, hi - 1) {
        SpanOverlapsFrom(readIdx, b, side, hi - 1, o);
      } else {
        assert o in PositionOverlaps(readIdx, b, side, hi - 1);
      }
    }
  }

  /**
   * An overlap emitted for block b: the query is the hit's read, the target was
   * found at a position of the first interval, self-matches and the
   * deduplication rule's cases are absent, the strand relation is the XOR of
   * the flags, and each coordinate is the unflipped one, flipped exactly when
   * its side was reversed.
   */
  lemma BlockOverlapFacts(readIdx: nat, b: OverlapBlock, fwd: StrandIndex, rev: StrandIndex, o: Overlap)
    requires BlockInRange(readIdx, b, fwd, rev)
    requires o in BlockOverlaps(readIdx, b, fwd, rev)
    ensures readIdx < |Side(b, fwd, rev).table|
    ensures o.id0 == Side(b, fwd, rev).table[readIdx].id
    ensures exists j :: b.ranges.interval0.lower <= j <= b.ranges.interval0.upper
                        && Resolvable(readIdx, Side(b, fwd, rev), j)
                        && o.id1 == Side(b, fwd, rev).table[Side(b, fwd, rev).sai[j]].id
                        && o.matching.coord1
                           == Orient(TargetCoord(Side(b, fwd, rev).table[Side(b, fwd, rev).sai[j]].length, b.overlapLen),
                                     b.targetRev)
    ensures IdLess(o.id1, o.id0) && o.id0 != o.id1
    ensures !(b.queryRev && o.matching.IsContainment())
    ensures o.matching.isRC == (b.targetRev != b.queryRev)
    ensures o.matching.numDiff == b.numDiff
    ensures o.matching.coord0 == Orient(QueryCoord(Side(b, fwd, rev).table[readIdx].length, b.overlapLen), b.queryRev)
  {
    var side := Side(b, fwd, rev);
    SpanOverlapsFrom(readIdx, b, side, End(b), o);
    var j :| b.ranges.interval0.lower <= j < End(b) && o in PositionOverlaps(readIdx, b, side, j);
    PositionOverlapFacts(readIdx, b, side, j, o);
  }

  /** Every overlap of a hit comes from one of its blocks. */
  lemma {:induction false} BlocksOverlapsFrom(readIdx: nat, blocks: seq<OverlapBlock>, fwd: StrandIndex, rev: StrandIndex, o: Overlap)
    requires BlocksInRange(readIdx, blocks, fwd, rev)
    requires o in BlocksOverlaps(readIdx, blocks, fwd, rev)
    ensures exists k :: 0 <= k < |blocks| && o in BlockOverlaps(readIdx, blocks[k], fwd, rev)
  {
    var n := |blocks|;
    if o in BlocksOverlaps(readIdx, blocks[..n - 1], fwd, rev) {
      BlocksOverlapsFrom(readIdx, blocks[..n - 1], fwd, rev, o);
      var k :| 0 <= k < n - 1 && o in BlockOverlaps(readIdx, blocks[..n - 1][k], fwd, rev);
      assert blocks[..n - 1][k] == blocks[k];
    } else {
      assert o in BlockOverlaps(readIdx, blocks[n - 1], fwd, rev);
    }
  }

  /**
   * The canonical-form guarantee: no overlap of a hit is a self-match, each has
   * its first name strictly greater than its second, and none is a containment
   * produced by a block whose query was reversed.
   */
  lemma HitOverlapsCanonical(hit: HitRecord, fwd: StrandIndex, rev: StrandIndex)
    requires BlocksInRange(hit.readIdx, hit.blocks, fwd, rev)
    ensures forall o | o in HitOverlaps(hit, fwd, rev) :: o.id0 != o.id1 && IdLess(o.id1, o.id0)
    ensures forall o | o in HitOverlaps(hit, fwd, rev) ::
              exists k :: 0 <= k < |hit.blocks| && o in BlockOverlaps(hit.readIdx, hit.blocks[k], fwd, rev)
                          && !(hit.blocks[k].queryRev && o.matching.IsContainment())
                          && o.matching.isRC == (hit.blocks[k].targetRev != hit.blocks[k].queryRev)
  {
    forall o | o in HitOverlaps(hit, fwd, rev)
      ensures o.id0 != o.id1 && IdLess(o.id1, o.id0)
      ensures exists k :: 0 <= k < |hit.blocks| && o in BlockOverlaps(hit.readIdx, hit.blocks[k], fwd, rev)
                          && !(hit.blocks[k].queryRev && o.matching.IsContainment())
                          && o.matching.isRC == (hit.blocks[k].targetRev != hit.blocks[k].queryRev)
    {
      BlocksOverlapsFrom(hit.readIdx, hit.blocks, fwd, rev, o);
      var k :| 0 <= k < |hit.blocks| && o in BlockOverlaps(hit.readIdx, hit.blocks[k], fwd, rev);
      BlockOverlapFacts(hit.readIdx, hit.blocks[k], fwd, rev, o);
    }
  }

  // ---------------------------------------------------------------------------
  // Order of the output and what it depends on

  /** Overlaps of earlier positions come before those of later ones: a shorter span is a prefix. */
  lemma {:induction false} SpanOverlapsPrefix(readIdx: nat, b: OverlapBlock, side: StrandIndex, mid: int, hi: int)
    requires SpanInRange(readIdx, b, side)
    requires b.ranges.interval0.lower <= mid <= hi <= End(b)
    ensures SpanOverlaps(readIdx, b, side, mid) <= SpanOverlaps(readIdx, b, side, hi)
    decreases hi - mid
  {
    if mid < hi {
      SpanOverlapsPrefix(readIdx, b, side, mid, hi - 1);
    }
  }

  /** Output follows block order: converting two runs of blocks one after the other concatenates their output. */
  lemma {:induction false} BlocksOverlapsAppend(readIdx: nat, xs: seq<OverlapBlock>, ys: seq<OverlapBlock>, fwd: StrandIndex, rev: StrandIndex)
    requires BlocksInRange(readIdx, xs, fwd, rev) && BlocksInRange(readIdx, ys, fwd, rev)
    ensures BlocksInRange(readIdx, xs + ys, fwd, rev)
    ensures BlocksOverlaps(readIdx, xs + ys, fwd, rev)
            == BlocksOverlaps(readIdx, xs, fwd, rev) + BlocksOverlaps(readIdx, ys, fwd, rev)
    decreases |ys|
  {
    assert BlocksInRange(readIdx, xs + ys, fwd, rev) by {
      forall k | 0 <= k < |xs + ys| ensures BlockInRange(readIdx, (xs + ys)[k], fwd, rev) {
        if k >= |xs| {
          assert (xs + ys)[k] == ys[k - |xs|];
        }
      }
    }
    if |ys| == 0 {
      assert xs + ys == xs;
    } else {
      var n := |ys|;
      var ys' := ys[..n - 1];
      assert BlocksInRange(readIdx, ys', fwd, rev) by {
        forall k | 0 <= k < |ys'| ensures BlockInRange(readIdx, ys'[k], fwd, rev) {
          assert ys'[k] == ys[k];
        }
      }
      BlocksOverlapsAppend(readIdx, xs, ys', fwd, rev);
      assert (xs + ys)[..|xs + ys| - 1] == xs + ys';
      assert (xs + ys)[|xs + ys| - 1] == ys[n - 1];
    }
  }

  /** Two blocks that differ at most in their second interval. */
  predicate SameButSecondInterval(b: OverlapBlock, b': OverlapBlock) {
    b.ranges.interval0 == b'.ranges.interval0 && b.overlapLen == b'.overlapLen && b.numDiff == b'.numDiff
    && b.queryRev == b'.queryRev && b.targetRev == b'.targetRev
  }

  /** Only the first interval of a block is consulted: the second never changes the output. */
  lemma {:induction false} SpanIgnoresSecondInterval(readIdx: nat, b: OverlapBlock, b': OverlapBlock, side: StrandIndex, hi: int)
    requires SameButSecondInterval(b, b')
    requires SpanInRange(readIdx, b, side)
    requires b.ranges.interval0.lower <= hi <= End(b)
    ensures SpanInRange(readIdx, b', side) && hi <= End(b')
    ensures SpanOverlaps(readIdx, b, side, hi) == SpanOverlaps(readIdx, b', side, hi)
    decreases hi - b.ranges.interval0.lower
  {
    if hi > b.ranges.interval0.lower {
      SpanIgnoresSecondInterval(readIdx, b, b', side, hi - 1);
      assert Resolvable(readIdx, side, hi - 1);
      assert MakeOverlap(side.table[readIdx], side.table[side.sai[hi - 1]], b)
          == MakeOverlap(side.table[readIdx], side.table[side.sai[hi - 1]], b');
      assert PositionOverlaps(readIdx, b, side, hi - 1) == PositionOverlaps(readIdx, b', side, hi - 1);
    }
  }

  /** Hit-level form: hits whose blocks agree except in their second intervals convert identically. */
  lemma {:induction false} HitIgnoresSecondInterval(hit: HitRecord, hit': HitRecord, fwd: StrandIndex, rev: StrandIndex)
    requires hit.readIdx == hit'.readIdx && |hit.blocks| == |hit'.blocks|
    requires forall k | 0 <= k < |hit.blocks| :: SameButSecondInterval(hit.blocks[k], hit'.blocks[k])
    requires BlocksInRange(hit.readIdx, hit.blocks, fwd, rev)
    ensures BlocksInRange(hit'.readIdx, hit'.blocks, fwd, rev)
    ensures HitOverlaps(hit, fwd, rev) == HitOverlaps(hit', fwd, rev)
    decreases |hit.blocks|
  {
    var n := |hit.blocks|;
    forall k | 0 <= k < n ensures BlockInRange(hit'.readIdx, hit'.blocks[k], fwd, rev) {
      var b, b' := hit.blocks[k], hit'.blocks[k];
      SpanIgnoresSecondInterval(hit.readIdx, b, b', Side(b, fwd, rev), b.ranges.interval0.lower);
    }
    if n > 0 {
      var shorter := HitRecord(hit.readIdx, hit.blocks[..n - 1]);
      var shorter' := HitRecord(hit'.readIdx, hit'.blocks[..n - 1]);
      HitIgnoresSecondInterval(shorter, shorter', fwd, rev);
      var b, b' := hit.blocks[n - 1], hit'.blocks[n - 1];
      SpanIgnoresSecondInterval(hit.readIdx, b, b', Side(b, fwd, rev), End(b));
    }
  }

  // ---------------------------------------------------------------------------
  // Deduplication

  /**
   * A proper (non-containment) overlap between two different reads is
   * discovered once from each read's side; exactly one of the two discoveries
   * survives the deduplication rule, whatever the strand flags.
   */
  lemma DedupKeepsExactlyOne(x: ReadId, y: ReadId, m: Match, m': Match, queryRev: bool, queryRev': bool)
    requires x != y
    requires !m.IsContainment() && !m'.IsContainment()
    ensures Discarded(Overlap(x, y, m), queryRev) != Discarded(Overlap(y, x, m'), queryRev')
  {
    IdLessTotal(x, y);
  }

  function KeptCount(o: Overlap, queryRev: bool): nat {
    if Discarded(o, queryRev) then 0 else 1
  }

  /**
   * A containment between two different reads can be discovered four times:
   * from either read's side, with the query forward or reversed.  Exactly one
   * of the four survives the deduplication rule.
   */
  lemma DedupContainmentOnce(x: ReadId, y: ReadId, m1: Match, m2: Match, m3: Match, m4: Match)
    requires x != y
    requires m1.IsContainment() && m2.IsContainment() && m3.IsContainment() && m4.IsContainment()
    ensures KeptCount(Overlap(x, y, m1), false) + KeptCount(Overlap(x, y, m2), true)
            + KeptCount(Overlap(y, x, m3), false) + KeptCount(Overlap(y, x, m4), true) == 1
  {
    IdLessTotal(x, y);
  }

  // ---------------------------------------------------------------------------
  // Completeness: what a hit emits, exactly

  /**
   * Position j lies in the first interval of block k of the hit and can be
   * resolved (the last conjunct follows from BlocksInRange; it is listed so
   * that Found is defined without it).
   */
  predicate Visits(hit: HitRecord, fwd: StrandIndex, rev: StrandIndex, k: int, j: int) {
    0 <= k < |hit.blocks|
    && hit.blocks[k].ranges.interval0.lower <= j <= hit.blocks[k].ranges.interval0.upper
    && Resolvable(hit.readIdx, Side(hit.blocks[k], fwd, rev), j)
  }

  /** The overlap that position j of block k resolves to, before the self-match test and the rule. */
  function Found(hit: HitRecord, fwd: StrandIndex, rev: StrandIndex, k: int, j: int): Overlap
    requires Visits(hit, fwd, rev, k, j)
  {
    var side := Side(hit.blocks[k], fwd, rev);
    MakeOverlap(side.table[hit.readIdx], side.table[side.sai[j]], hit.blocks[k])
  }

  /** Whatever a visited position contributes is part of its block's output. */
  lemma SpanOverlapsComplete(readIdx: nat, b: OverlapBlock, side: StrandIndex, j: int, o: Overlap)
    requires SpanInRange(readIdx, b, side)
    requires b.ranges.interval0.lower <= j <= b.ranges.interval0.upper
    requires o in PositionOverlaps(readIdx, b, side, j)
    ensures o in SpanOverlaps(readIdx, b, side, End(b))
  {
    var upTo, all := SpanOverlaps(readIdx, b, side, j + 1), SpanOverlaps(readIdx, b, side, End(b));
    SpanOverlapsPrefix(readIdx, b, side, j + 1, End(b));
    assert upTo == SpanOverlaps(readIdx, b, side, j) + PositionOverlaps(readIdx, b, side, j);
    var i :| 0 <= i < |upTo| && upTo[i] == o;
    assert all[i] == o;
  }

  /** Whatever a block contributes is part of the output of any block list holding it. */
  lemma BlocksOverlapsComplete(readIdx: nat, blocks: seq<OverlapBlock>, fwd: StrandIndex, rev: StrandIndex, k: int, o: Overlap)
    requires BlocksInRange(readIdx, blocks, fwd, rev)
    requires 0 <= k < |blocks|
    requires o in BlockOverlaps(readIdx, blocks[k], fwd, rev)
    ensures o in BlocksOverlaps(readIdx, blocks, fwd, rev)
  {
    var xs, ys := blocks[..k + 1], blocks[k + 1..];
    BlocksOverlapsStep(readIdx, blocks, k, fwd, rev);
    assert BlocksInRange(readIdx, ys, fwd, rev) by {
      forall i | 0 <= i < |ys| ensures BlockInRange(readIdx, ys[i], fwd, rev) {
        assert ys[i] == blocks[k + 1 + i];
      }
    }
    BlocksOverlapsAppend(readIdx, xs, ys, fwd, rev);
    assert xs + ys == blocks;
  }

  /**
   * Completeness of the conversion: a visited position whose target is not the
   * query and whose overlap the deduplication rule keeps is in the output.
   */
  lemma HitOverlapsComplete(hit: HitRecord, fwd: StrandIndex, rev: StrandIndex, k: int, j: int)
    requires BlocksInRange(hit.readIdx, hit.blocks, fwd, rev)
    requires Visits(hit, fwd, rev, k, j)
    requires Found(hit, fwd, rev, k, j).id0 != Found(hit, fwd, rev, k, j).id1
    requires !Discarded(Found(hit, fwd, rev, k, j), hit.blocks[k].queryRev)
    ensures Found(hit, fwd, rev, k, j) in HitOverlaps(hit, fwd, rev)
  {
    var b := hit.blocks[k];
    var side := Side(b, fwd, rev);
    var o := Found(hit, fwd, rev, k, j);
    assert PositionOverlaps(hit.readIdx, b, side, j) == [o];
    SpanOverlapsComplete(hit.readIdx, b, side, j, o);
    BlocksOverlapsComplete(hit.readIdx, hit.blocks, fwd, rev, k, o);
  }

  /**
   * Membership in a hit's output, both ways: an overlap is emitted exactly
   * when some visited position resolves to it, it is no self-match, and the
   * rule keeps it for that position's block.
   */
  lemma HitOverlapsMembership(hit: HitRecord, fwd: StrandIndex, rev: StrandIndex, o: Overlap)
    requires BlocksInRange(hit.readIdx, hit.blocks, fwd, rev)
    ensures o in HitOverlaps(hit, fwd, rev)
            <==> exists k, j :: Visits(hit, fwd, rev, k, j) && o == Found(hit, fwd, rev, k, j)
                                && o.id0 != o.id1 && !Discarded(o, hit.blocks[k].queryRev)
  {
    if o in HitOverlaps(hit, fwd, rev) {
      BlocksOverlapsFrom(hit.readIdx, hit.blocks, fwd, rev, o);
      var k :| 0 <= k < |hit.blocks| && o in BlockOverlaps(hit.readIdx, hit.blocks[k], fwd, rev);
      var b := hit.blocks[k];
      var side := Side(b, fwd, rev);
      SpanOverlapsFrom(hit.readIdx, b, side, End(b), o);
      var j :| b.ranges.interval0.lower <= j < End(b) && o in PositionOverlaps(hit.readIdx, b, side, j);
      assert Visits(hit, fwd, rev, k, j);
      PositionOverlapsCases(hit.readIdx, b, side, j);
    }
    if exists k, j :: Visits(hit, fwd, rev, k, j) && o == Found(hit, fwd, rev, k, j)
                      && o.id0 != o.id1 && !Discarded(o, hit.blocks[k].queryRev) {
      var k, j :| Visits(hit, fwd, rev, k, j) && o == Found(hit, fwd, rev, k, j)
                  && o.id0 != o.id1 && !Discarded(o, hit.blocks[k].queryRev);
      HitOverlapsComplete(hit, fwd, rev, k, j);
    }
  }

  /**
   * The deduplication guarantee on the conversion's output: a proper
   * (non-containment) overlap between two different reads, found once in the
   * hit of each read (the second listing naming the reads the other way
   * round), is emitted by exactly one of the two hits.
   */
  lemma ProperOverlapEmittedOnce(hx: HitRecord, kx: int, jx: int, hy: HitRecord, ky: int, jy: int,
                                 fwd: StrandIndex, rev: StrandIndex)
    requires BlocksInRange(hx.readIdx, hx.blocks, fwd, rev) && BlocksInRange(hy.readIdx, hy.blocks, fwd, rev)
    requires Visits(hx, fwd, rev, kx, jx) && Visits(hy, fwd, rev, ky, jy)
    requires Found(hx, fwd, rev, kx, jx).id0 == Found(hy, fwd, rev, ky, jy).id1
    requires Found(hx, fwd, rev, kx, jx).id1 == Found(hy, fwd, rev, ky, jy).id0
    requires Found(hx, fwd, rev, kx, jx).id0 != Found(hx, fwd, rev, kx, jx).id1
    requires !Found(hx, fwd, rev, kx, jx).matching.IsContainment()
    requires !Found(hy, fwd, rev, ky, jy).matching.IsContainment()
    ensures (Found(hx, fwd, rev, kx, jx) in HitOverlaps(hx, fwd, rev))
            != (Found(hy, fwd, rev, ky, jy) in HitOverlaps(hy, fwd, rev))
  {
    var ox, oy := Found(hx, fwd, rev, kx, jx), Found(hy, fwd, rev, ky, jy);
    IdLessTotal(ox.id0, ox.id1);
    HitOverlapsCanonical(hx, fwd, rev);
    HitOverlapsCanonical(hy, fwd, rev);
    if IdLess(ox.id1, ox.id0) {
      HitOverlapsComplete(hx, fwd, rev, kx, jx);
    } else {
      HitOverlapsComplete(hy, fwd, rev, ky, jy);
    }
  }

  /** Coordinates built for a block whose overlap length fits both reads are well formed, in either frame. */
  lemma CoordinatesWellFormed(query: SeqItem, target: SeqItem, b: OverlapBlock)
    requires 1 <= b.overlapLen <= query.length && b.overlapLen <= target.length
    ensures MakeOverlap(query, target, b).matching.coord0.Valid()
    ensures MakeOverlap(query, target, b).matching.coord1.Valid()
    ensures MakeOverlap(query, target, b).matching.coord0.Length() == b.overlapLen
    ensures MakeOverlap(query, target, b).matching.coord1.Length() == b.overlapLen
  {
    QueryCoordShape(query.length, b.overlapLen);
    TargetCoordShape(target.length, b.overlapLen);
    OrientKeeps(QueryCoord(query.length, b.overlapLen), b.queryRev);
    OrientKeeps(TargetCoord(target.length, b.overlapLen), b.targetRev);
  }
}
