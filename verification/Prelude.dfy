/** Small datatypes shared by every module. */
module Prelude {

  /** A Go value that may be absent: a missing map entry, a failed parse, a nil result. */
  datatype Option<+T> = None | Some(value: T)

  /** Go's integer division, which truncates toward zero. */
  function TruncDiv(a: int, b: int): int
    requires b > 0
  {
    if a >= 0 then a / b else -(-a / b)
  }

  /** The number without its fraction: nearer to zero by less than one. */
  predicate IsTruncated(n: int, x: real) {
    if x >= 0.0 then n as real <= x < n as real + 1.0 else n as real - 1.0 < x <= n as real
  }

  /** Go's conversion of a float to an int, which truncates toward zero. */
  function Trunc(x: real): (n: int)
    ensures IsTruncated(n, x)
  {
    if x >= 0.0 then x.Floor else -((-x).Floor)
  }

  /** A subset is as large as the set exactly if it is the set. */
  lemma SubsetSize<T>(a: set<T>, b: set<T>)
    requires a <= b
    ensures |a| <= |b| && (|a| == |b| <==> a == b)
  {
    assert b == a + (b - a);
  }
}
