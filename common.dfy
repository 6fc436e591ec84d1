/** Small shared vocabulary: an Option type, absolute value on reals, and the
    `-Infinity` start value that the chained scans of the PDF handler use. */
module Common {

  datatype Option<T> = None | Some(value: T)

  function Abs(r: real): (a: real)
    ensures a >= 0.0 && (a == r || a == -r)
  {
    if r < 0.0 then -r else r
  }

  /** A JavaScript number that is either `-Infinity` or finite. The chained
      scans start with `prev = -Infinity`, so their first element always opens
      a new group. */
  datatype Extended = NegInfinity | Finite(value: real)

  /** `Math.abs(v - prev) > threshold`, where `v - (-Infinity)` is `+Infinity`
      and therefore exceeds every finite threshold. */
  predicate GapExceeds(v: real, prev: Extended, threshold: real)
  {
    prev.NegInfinity? || Abs(v - prev.value) > threshold
  }
}
