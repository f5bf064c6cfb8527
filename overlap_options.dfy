/**
 * The checks and clamps parseOverlapOptions applies to the numeric run
 * parameters once the command line has been read.  The global option fields
 * the source updates step by step become one record mapped to its normalised
 * form.
 */
module OverlapOptions {
  import opened Wrappers

  datatype Options = Options(
    numThreads: int,
    errorRate: real,
    minOverlap: nat,
    seedLength: int,
    seedStride: int,
    irreducibleOnly: bool)

  /** The run is refused (usage message, failing exit) for a thread count that is not positive. */
  datatype OptionsError = InvalidThreadCount(numThreads: int)

  /** Parameters the overlap computation can be started with. */
  predicate Normalised(o: Options) {
    o.numThreads > 0 && o.errorRate >= 0.0 && o.seedLength >= 0
    && (o.seedLength > 0 ==> o.seedStride > 0)
  }

  /**
   * Rejects a non-positive thread count; otherwise clamps a non-positive error
   * rate to 0, a negative seed length to 0, and when a seed length is given
   * but no positive stride, makes the stride equal to the seed length.
   */
  function NormaliseOptions(o: Options): (r: Result<Options, OptionsError>)
    ensures r.Failure? <==> o.numThreads <= 0
    ensures r.Failure? ==> r.error == InvalidThreadCount(o.numThreads)
    ensures r.Success? ==> Normalised(r.value)
    ensures r.Success? ==>
              r.value.numThreads == o.numThreads && r.value.minOverlap == o.minOverlap
              && r.value.irreducibleOnly == o.irreducibleOnly
    ensures r.Success? ==> r.value.errorRate == (if o.errorRate > 0.0 then o.errorRate else 0.0)
    ensures r.Success? ==> r.value.seedLength == (if o.seedLength > 0 then o.seedLength else 0)
    ensures r.Success? && o.seedLength > 0 && o.seedStride <= 0 ==> r.value.seedStride == o.seedLength
    ensures r.Success? && !(o.seedLength > 0 && o.seedStride <= 0) ==> r.value.seedStride == o.seedStride
  {
    if o.numThreads <= 0 then Failure(InvalidThreadCount(o.numThreads))
    else
      var errorRate := if o.errorRate <= 0.0 then 0.0 else o.errorRate;
      var seedLength := if o.seedLength < 0 then 0 else o.seedLength;
      var seedStride := if seedLength > 0 && o.seedStride <= 0 then seedLength else o.seedStride;
      Success(o.(errorRate := errorRate, seedLength := seedLength, seedStride := seedStride))
  }

  /** Parameters are left as they are exactly when they are already normalised. */
  lemma NormaliseFixedPoints(o: Options)
    ensures NormaliseOptions(o) == Success(o) <==> Normalised(o)
  {
  }

  /** Normalising twice is the same as normalising once. */
  lemma NormaliseIdempotent(o: Options)
    requires NormaliseOptions(o).Success?
    ensures NormaliseOptions(NormaliseOptions(o).value) == NormaliseOptions(o)
  {
    NormaliseFixedPoints(NormaliseOptions(o).value);
  }
}
