/** Small value types and sequence helpers shared by the other modules. */
module Basics {

  /** A value that may be absent: pandas' NaN in an object column, or a
      statistic that pandas reports as NaN because its input is empty. */
  datatype Option<+T> = None | Some(value: T)

  function Min(a: int, b: int): (m: int)
    ensures m <= a && m <= b
    ensures m == a || m == b
  {
    if a <= b then a else b
  }

  /** Python's `xs[:-1]`: every element but the last, and nothing for an
      empty sequence (slicing never raises). */
  function AllButLast<T>(s: seq<T>): (r: seq<T>)
    ensures |s| == 0 ==> r == []
    ensures |s| > 0 ==> |r| == |s| - 1
    ensures r == s[..|r|]
  {
    if |s| == 0 then [] else s[..|s| - 1]
  }
}
