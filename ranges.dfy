/**
 * The range value shared by both balancers: a pair of character offsets.
 * Only the operations that the balancing code calls are modelled, with the
 * meaning their call sites give them.
 */
module Ranges {

  datatype Range = Range(start: int, end: int)

  /** `length()`: the distance between the two endpoints. */
  function Length(r: Range): nat
  {
    if r.start <= r.end then r.end - r.start else r.start - r.end
  }

  /** A range whose start does not lie after its end. */
  predicate WellFormed(r: Range)
  {
    r.start <= r.end
  }

  /** `cmp(pos, 'lt', 'gte')`: the range starts before `pos` and ends at or after it. */
  predicate Encloses(r: Range, pos: int)
  {
    r.start < pos && pos <= r.end
  }

  /** `inside(pos)`: `pos` is one of the offsets the range covers. */
  predicate Inside(r: Range, pos: int)
  {
    r.start <= pos < r.end
  }

  /** `outer` covers every offset `inner` covers. */
  predicate Contains(outer: Range, inner: Range)
  {
    outer.start <= inner.start && inner.end <= outer.end
  }

  /** Two well-formed ranges, one inside the other, of the same length are the same range. */
  lemma NestedSameLength(a: Range, b: Range)
    requires WellFormed(a) && WellFormed(b)
    requires Contains(a, b) || Contains(b, a)
    requires Length(a) == Length(b)
    ensures a == b
  {
  }

  function Clamp(i: int, n: nat): nat
  {
    if i < 0 then 0 else if i > n then n else i
  }

  /** `substring(text)`: empty for an empty range, otherwise the text between the clamped endpoints. */
  function Substring(r: Range, text: string): (s: string)
    ensures |s| <= |text|
  {
    if Length(r) == 0 then ""
    else
      var a, b := Clamp(r.start, |text|), Clamp(r.end, |text|);
      if a <= b then text[a..b] else text[b..a]
  }
}
