# Overlap inference from index hits (SGA `overlap` stage)

This project models the core of the `overlap` subprogram of the SGA genome
assembler (`src/SGA/overlap.cpp`). It covers three pieces:

- `hitStringToOverlaps` turns one record of a hits file into overlap edges.
  The record names a query read and a list of overlap blocks. For each block,
  every position of the block's first suffix-array interval is resolved to a
  target read, through the forward or the reverse index depending on the
  target-reverse flag. Self-matches are skipped. The query coordinate is the
  last `overlapLen` bases of the query and the target coordinate is the first
  `overlapLen` bases of the target. Each coordinate is flipped into the
  reverse frame when its side was searched reversed, and the strand relation
  is the XOR of the two flags. The deduplication rule then drops an overlap
  whose first read name is lexicographically smaller than the second, or
  which is a containment found with the query reversed. The comment at
  `src/SGA/overlap.cpp:285` describes the skipped overlaps as those whose
  query has the higher name, but the test at line 312 (and the comment at
  lines 309-311) skips an overlap whose first name (the query's) is the lower of the two;
  the model follows line 312. It is modelled as a
  method (`HitConversion.HitToOverlaps`, with the two loop bodies in
  `HitConversion.ConvertBlock` and `HitConversion.ConvertPosition`) proved equal to a specification function
  (`HitConversion.HitOverlaps`). The canonical-form guarantees, the output
  order and the deduplication's "exactly one survivor" property are proved
  about that function.
- `writeOverlap` (the legacy two-stream output) sends an overlap to the
  containment stream, the overlap stream, or drops it as non-extreme or
  improper. It is modelled as the pure classifier `OverlapRouting.Route`,
  which returns the destination.
- The clamps `parseOverlapOptions` applies to the numeric run parameters are
  modelled as `OverlapOptions.NormaliseOptions`, a function from the old
  parameter record to the new one, or to an error for a non-positive thread
  count.

`SeqCoord`, `Overlap`, `Match` and `SeqItem` are declared in headers that are
not part of this model. Their behaviour is taken as stated assumptions in
`seq_coord.dfy` and `overlap_types.dfy`:

- `flip` maps `[start, end]` to `[seqLen-1-end, seqLen-1-start]`.
- `isContained` means `start == 0 && end == seqLen-1`.
- `isExtreme` means left-extreme or right-extreme.
- `isContainment` means either coordinate is contained.

Read names are strings. They are compared by the lexicographic order
`ReadIds.IdLess`, which is what `std::string`'s `<` does on names made of
ASCII characters.

The read tables and suffix-array indexes are external. Each strand is a
`StrandIndex`: a table of reads (name and length only) and an index mapping
a position to a table slot. The query is looked up in the table of the
target's strand, as the source does. The two tables share names, so only a
read's name and length matter.

Files:

- `wrappers.dfy`: `Option` and `Result`.
- `read_ids.dfy`: read names and their order.
- `seq_coord.dfy`: sequence coordinates.
- `overlap_types.dfy`: overlaps and matches.
- `hit_conversion.dfy`: `hitStringToOverlaps` and its properties.
- `overlap_routing.dfy`: `writeOverlap`.
- `overlap_options.dfy`: the parameter clamps.
- `scenario.dfy`: a worked three-read conversion with a containment.

## Model

| member | source | states |
|---|---|---|
| `HitConversion.HitToOverlaps` | src/SGA/overlap.cpp:253-320 | The output is the specification function `HitOverlaps` of the record and indexes. Every overlap has two different read names, with the first name strictly greater than the second. |
| `HitConversion.ConvertBlock` | src/SGA/overlap.cpp:274-317 | One block appends exactly `BlockOverlaps` to the accumulated vector. Positions are visited in ascending order over the inclusive first interval. |
| `HitConversion.ConvertPosition` | src/SGA/overlap.cpp:276-316 | One position appends exactly `PositionOverlaps`: nothing for a self-match or a discarded overlap, otherwise the overlap with the target that the index chosen by the target-reverse flag resolves. |
| `HitConversion.QueryCoordShape` | src/SGA/overlap.cpp:289-291 | The unflipped query coordinate has length `overlapLen` and is right-extreme. It is left-extreme only when the overlap covers the whole query, and it is well formed when `1 <= overlapLen <= len`. |
| `HitConversion.TargetCoordShape` | src/SGA/overlap.cpp:293-295 | The unflipped target coordinate has length `overlapLen` and is left-extreme. It is right-extreme only when the overlap covers the whole target, and it is well formed when `1 <= overlapLen <= len`. |
| `HitConversion.BlockOverlaps` | src/SGA/overlap.cpp:274 | A block yields at most `upper - lower + 1` overlaps, at most one per visited position. |
| `HitConversion.HitOverlaps` | src/SGA/overlap.cpp:266-318 | A record yields at most the total width of its blocks' first intervals. |
| `HitConversion.QueryCoord` | src/SGA/overlap.cpp:289-291 | The query coordinate before any flip, `[len-ovl, len-1]` against the query length. Its shape is stated by `QueryCoordShape`. |
| `HitConversion.TargetCoord` | src/SGA/overlap.cpp:293-295 | The target coordinate before any flip, `[0, ovl-1]` against the target length. Its shape is stated by `TargetCoordShape`. |
| `HitConversion.MakeOverlap` | src/SGA/overlap.cpp:289-306 | The overlap of one resolved pair: both coordinates, each flipped when its side was searched reversed, `isRC` as the XOR of the two flags, and the block's edit count. `PositionOverlapFacts` and `CoordinatesWellFormed` state its properties. |
| `HitConversion.Discarded` | src/SGA/overlap.cpp:308-313 | The deduplication rule: drop when the first name is the smaller one, or when the match is a containment and the query was reversed. `DedupKeepsExactlyOne`, `DedupContainmentOnce` and `ProperOverlapEmittedOnce` state what it guarantees. |
| `HitConversion.Resolve` | src/SGA/overlap.cpp:276-286 | Looks up the query and the target at position `j` in the table and index of the target's strand. It gives nothing for a self-match. |
| `HitConversion.Side` | src/SGA/overlap.cpp:276-277 | The strand searched for the target: the reverse table and index when the target-reverse flag is set, the forward ones otherwise. Both the query and the target are looked up on that one strand. |
| `HitConversion.PositionOverlaps` | src/SGA/overlap.cpp:276-315 | A visited position contributes at most one overlap. |
| `HitConversion.SpanOverlaps` | src/SGA/overlap.cpp:274-317 | The overlaps of positions `lower .. hi-1`, in ascending order, number at most `hi - lower`. |
| `HitConversion.BlocksOverlaps` | src/SGA/overlap.cpp:266-318 | The overlaps of a list of blocks, in block order, number at most the total width of their first intervals. |
| `HitConversion.SpanOverlapsComplete` | src/SGA/overlap.cpp:274-315 | What a visited position contributes is part of its block's output. |
| `HitConversion.BlocksOverlapsComplete` | src/SGA/overlap.cpp:266-318 | What a block contributes is part of the output of the whole block list. |
| `HitConversion.HitOverlapsComplete` | src/SGA/overlap.cpp:266-318 | A visited position whose target is not the query, and whose overlap the rule keeps, has that overlap in the hit's output. |
| `HitConversion.HitOverlapsMembership` | src/SGA/overlap.cpp:266-318 | An overlap is in the hit's output if and only if some visited position resolves to it, it is no self-match, and the rule keeps it. |
| `HitConversion.ProperOverlapEmittedOnce` | src/SGA/overlap.cpp:308-315 | A non-containment between two different reads, found in each read's hit with the names in opposite order, is emitted by exactly one of the two hits. |
| `HitConversion.PositionOverlapFacts` | src/SGA/overlap.cpp:276-315 | What one position emits: the query's and the resolved target's names, never equal, first name greater. It is no containment if the query was reversed, `isRC` is the XOR of the flags, the edit count is the block's, and each coordinate is the unflipped one, flipped exactly when its side was reversed. |
| `HitConversion.BlockOverlapFacts` | src/SGA/overlap.cpp:274-315 | The same facts for every overlap of a block, with the target found at some position of the first interval. |
| `HitConversion.SpanOverlapsFrom` | src/SGA/overlap.cpp:274-283 | Every overlap of a span comes from one visited position of that span. |
| `HitConversion.BlocksOverlapsFrom` | src/SGA/overlap.cpp:266-270 | Every overlap of a record comes from one of its blocks. |
| `HitConversion.HitOverlapsCanonical` | src/SGA/overlap.cpp:285-315 | Canonical form: no self-match, first name strictly greater, no containment from a block with the query reversed, and `isRC` equal to the XOR of the producing block's flags. |
| `HitConversion.SpanOverlapsPrefix` | src/SGA/overlap.cpp:274-315 | Within a block, the overlaps of earlier positions precede those of later ones. |
| `HitConversion.BlocksOverlapsAppend` | src/SGA/overlap.cpp:266-318 | Output follows block order: converting two runs of blocks back to back concatenates their outputs. |
| `HitConversion.SpanIgnoresSecondInterval` | src/SGA/overlap.cpp:274 | Blocks differing only in their second interval give the same span output. |
| `HitConversion.HitIgnoresSecondInterval` | src/SGA/overlap.cpp:266-318 | Only `interval[0]` is consulted: records differing only in their blocks' second intervals convert identically. |
| `HitConversion.DedupKeepsExactlyOne` | src/SGA/overlap.cpp:308-313 | A non-containment between two different reads, found once from each read's side, survives the rule exactly once, whatever the strand flags. |
| `HitConversion.DedupContainmentOnce` | src/SGA/overlap.cpp:308-313 | A containment found four times (either side, query forward or reversed) survives exactly once. |
| `HitConversion.CoordinatesWellFormed` | src/SGA/overlap.cpp:289-302 | When the overlap length fits both reads, both built coordinates are well formed and have length `overlapLen`, flipped or not. |
| `SeqCoords.SeqCoord.Flip` | src/SGA/overlap.cpp:297-302 | Flipping keeps the read length and the interval length, exchanges left- and right-extremity, and keeps containment and well-formedness. |
| `SeqCoords.FlipInvolutive` | src/SGA/overlap.cpp:299-302 | Flipping twice gives back the original coordinate. |
| `SeqCoords.Orient` | src/SGA/overlap.cpp:299-302 | A coordinate as reported: flipped into the reverse frame exactly when its side of the alignment was searched reversed, unchanged otherwise. `OrientKeeps` states what it preserves. |
| `SeqCoords.OrientKeeps` | src/SGA/overlap.cpp:299-302 | A conditional flip keeps length, containment, extremity and well-formedness. |
| `ReadIds.IdLess` | src/SGA/overlap.cpp:312 | The lexicographic order on read names that the rule compares by. `IdLessTotal`, `IdLessIrreflexive` and `IdLessTransitive` state that it is a strict total order. |
| `ReadIds.IdLessTotal` | src/SGA/overlap.cpp:312 | The name order used by the rule is asymmetric, and any two different names are ordered one way or the other. |
| `ReadIds.IdLessIrreflexive` | src/SGA/overlap.cpp:312 | No name is smaller than itself. |
| `ReadIds.IdLessTransitive` | src/SGA/overlap.cpp:312 | The name order is transitive. |
| `Overlaps.SwapInvolutive` | src/SGA/overlap.cpp:306 | Listing an overlap from the other read twice gives it back, and keeps whether it is a containment. |
| `OverlapRouting.Route` | src/SGA/overlap.cpp:324-362 | The destination of `writeOverlap`: the containment stream, a non-extreme drop, an improper drop, or the overlap stream. The four lemmas below characterise each outcome. |
| `OverlapRouting.RouteContainment` | src/SGA/overlap.cpp:327-331 | An overlap goes to the containment stream if and only if one of its coordinates is contained. |
| `OverlapRouting.RouteNonExtreme` | src/SGA/overlap.cpp:334-338 | An overlap is dropped as non-extreme if and only if it is no containment and some coordinate touches neither end of its read. |
| `OverlapRouting.IsProper` | src/SGA/overlap.cpp:340-352 | The properness test: on the same strand the two coordinates must differ in both left and right extremity; on opposite strands they must agree in both. `RouteImproper` and `RouteOverlapStream` state how `Route` uses it. |
| `OverlapRouting.RouteImproper` | src/SGA/overlap.cpp:340-358 | An overlap is dropped as improper if and only if it is no containment, both coordinates are extreme, and the extremity pattern is wrong for its strand relation. |
| `OverlapRouting.RouteOverlapStream` | src/SGA/overlap.cpp:324-362 | The overlap stream receives exactly the dovetail joins: suffix meets prefix on the same strand, suffix meets suffix or prefix meets prefix on opposite strands. |
| `OverlapRouting.RouteOverlapStreamConditions` | src/SGA/overlap.cpp:334-361 | What reaches the overlap stream has no contained coordinate and both coordinates extreme. On the same strand both flag pairs differ; on opposite strands both flag pairs are equal. |
| `OverlapRouting.RouteSwapInvariant` | src/SGA/overlap.cpp:324-362 | The destination does not depend on which read is listed first. |
| `OverlapRouting.RouteFlipInvariant` | src/SGA/overlap.cpp:324-362 | Describing both coordinates in the reverse frame does not change the destination. |
| `OverlapRouting.ConvertedOverlapRoute` | src/SGA/overlap.cpp:289-361 | An overlap built by the conversion, with the overlap length fitting both reads, is never dropped. It is a containment exactly when the overlap covers a whole read, and otherwise goes to the overlap stream. |
| `OverlapRouting.BlockOverlapsNeverDropped` | src/SGA/overlap.cpp:274-361 | If every read on the searched strand is at least as long as the overlap, nothing a block emits is dropped by the router. |
| `OverlapOptions.Normalised` | src/SGA/overlap.cpp:404-424 | The parameters the run proceeds with: a positive thread count, a non-negative error rate and seed length, and a positive stride whenever a seed length is set. |
| `OverlapOptions.NormaliseOptions` | src/SGA/overlap.cpp:404-424 | A non-positive thread count is rejected. Otherwise the error rate is clamped at 0, the seed length is clamped at 0, and the stride becomes the seed length when a seed length is set but no positive stride is. Everything else is unchanged, and the result satisfies `Normalised`. |
| `OverlapOptions.NormaliseFixedPoints` | src/SGA/overlap.cpp:416-424 | The clamps change nothing exactly when the parameters are already normalised. |
| `OverlapOptions.NormaliseIdempotent` | src/SGA/overlap.cpp:404-424 | Normalising twice is the same as normalising once. |
| `ConversionScenario.ForwardHitFromR2` | src/SGA/overlap.cpp:253-320 | From the short read R2 with the query forward, the hit yields its containment edges with R0 and R1, in position order, and skips R2 itself. |
| `ConversionScenario.ReversedHitFromR2` | src/SGA/overlap.cpp:253-320 | With the query reversed, the same containments are all dropped. |
| `ConversionScenario.R2SeesItself` | src/SGA/overlap.cpp:286 | The position that resolves to the query's own read contributes nothing. |
| `ConversionScenario.ScenarioRoutes` | src/SGA/overlap.cpp:327-331 | The scenario's containment edges go to the containment stream. |

## Left out

- Parsing of the hit line (`operator>>` for `OverlapBlock`, line 270, and the leading `readIdx numBlocks` fields, line 263). The token syntax is defined in code that is not part of this model. Records come already parsed, and `numBlocks` is the length of the block list.
- Out-of-range index positions and read indexes. The source does not check them. The model requires only what a block visits to be in range (`BlockInRange`): the query's slot, each position of the first interval, and the table slot each of those positions names.
- Integer widths. The source computes `s1` as `int` from a `size_t` length minus the overlap length, and visits positions with `int64_t`. The model uses unbounded integers. When the overlap length exceeds a read's length, the model yields the negative start the arithmetic gives, but not the wrap-around of very large values.
- The name order compares characters by code point. This matches `std::string`'s `<` for ASCII read names.
- `writeOverlap`'s stream writes and the warnings written to the error stream (lines 329, 336, 356, 361). The model returns the destination instead of writing the overlap text.
- `overlapMain`, `convertHitsToASQG` and `convertHitsToOverlaps` (lines 102-250): file and gzip I/O, index loading, the ASQG header and edge text, and progress output. Of the header, only note that its transitive tag is the negation of the irreducible-only option (line 119).
- `computeHitsSerial` and `computeHitsParallel` and the worker threads: an external dispatcher and concurrency.
- Timing and throughput reporting: floating point, for observability only.
- Command-line handling in `parseOverlapOptions` (lines 367-403 and 427-432). This covers getopt, usage and version output, the argument-count checks, `exit`, and the default prefix from `stripFilename`. Of its checks, only the thread-count rejection is modelled.
- The error rate is a `double`. It is modelled as a `real`, with the clamp only and no numerics.
- `DedupContainmentOnce` states the four-discoveries guarantee for the rule alone, not for the output of the hits. One hit can resolve the same containment from several blocks, so the output can hold it more than once. For proper overlaps, `ProperOverlapEmittedOnce` states the guarantee on the output.
