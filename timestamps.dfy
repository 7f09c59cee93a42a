/**
 * Timestamps are the opaque strings the booking requests carry ("2024-05-01T09:00").
 * The service never parses them: the store compares them. The store's order is
 * modelled as lexicographic code-point order, which agrees with the order in time
 * for timestamps written in one fixed ISO-8601 format and zone.
 */
module Timestamps {

  type Timestamp = string

  /** `a` sorts strictly before `b` (the store's `lt` / `gt` filters). */
  predicate Before(a: Timestamp, b: Timestamp)
    decreases |a|
  {
    if b == [] then false
    else if a == [] then true
    else if a[0] != b[0] then a[0] < b[0]
    else Before(a[1..], b[1..])
  }

  /** `a` sorts before `b` or equals it. */
  predicate AtOrBefore(a: Timestamp, b: Timestamp)
  {
    a == b || Before(a, b)
  }

  lemma {:induction false} BeforeIrreflexive(a: Timestamp)
    ensures !Before(a, a)
    decreases |a|
  {
    if a != [] {
      BeforeIrreflexive(a[1..]);
    }
  }

  lemma {:induction false} BeforeTransitive(a: Timestamp, b: Timestamp, c: Timestamp)
    requires Before(a, b) && Before(b, c)
    ensures Before(a, c)
    decreases |a|
  {
    if a != [] && a[0] == b[0] && b[0] == c[0] {
      BeforeTransitive(a[1..], b[1..], c[1..]);
    }
  }

  /** Any two timestamps are comparable: the order is total. */
  lemma {:induction false} BeforeTotal(a: Timestamp, b: Timestamp)
    ensures a == b || Before(a, b) || Before(b, a)
    decreases |a|
  {
    if a != [] && b != [] && a[0] == b[0] {
      BeforeTotal(a[1..], b[1..]);
      if a[1..] == b[1..] {
        assert a == [a[0]] + a[1..] && b == [b[0]] + b[1..];
      }
    }
  }

  lemma AtOrBeforeBeforeIsBefore(a: Timestamp, b: Timestamp, c: Timestamp)
    requires AtOrBefore(a, b) && Before(b, c)
    ensures Before(a, c)
  {
    if a != b {
      BeforeTransitive(a, b, c);
    }
  }
}
