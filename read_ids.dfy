/**
 * Read names and the order the deduplication rule compares them by.  Names are
 * strings and are compared lexicographically, character by character, the
 * shorter of two strings that agree on its whole length coming first.
 */
module ReadIds {

  type ReadId = string

  /** Lexicographic strict order on read names. */
  predicate IdLess(a: ReadId, b: ReadId)
    decreases |a|
  {
    if |b| == 0 then false
    else if |a| == 0 then true
    else a[0] < b[0] || (a[0] == b[0] && IdLess(a[1..], b[1..]))
  }

  /** The order is a strict total order: never both ways, and two different names are always ordered. */
  lemma {:induction false} IdLessTotal(a: ReadId, b: ReadId)
    ensures !(IdLess(a, b) && IdLess(b, a))
    ensures a != b ==> IdLess(a, b) || IdLess(b, a)
    decreases |a|
  {
    if |a| > 0 && |b| > 0 && a[0] == b[0] {
      IdLessTotal(a[1..], b[1..]);
      if a != b {
        assert a == [a[0]] + a[1..] && b == [b[0]] + b[1..];
        assert a[1..] != b[1..];
      }
    }
  }

  /** No name is smaller than itself. */
  lemma IdLessIrreflexive(a: ReadId)
    ensures !IdLess(a, a)
  {
    IdLessTotal(a, a);
  }

  /** The order is transitive. */
  lemma {:induction false} IdLessTransitive(a: ReadId, b: ReadId, c: ReadId)
    requires IdLess(a, b) && IdLess(b, c)
    ensures IdLess(a, c)
    decreases |a|
  {
    if |a| > 0 && a[0] == b[0] && b[0] == c[0] {
      IdLessTransitive(a[1..], b[1..], c[1..]);
    }
  }
}
