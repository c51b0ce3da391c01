/** Stock types and the few facts about finite sets and maps that the other modules share. */
module Prelude {

  datatype Option<+T> = None | Some(value: T)

  datatype Result<+T, +E> = Ok(value: T) | Err(error: E)

  function Max(a: int, b: int): int { if a >= b then a else b }

  function Min(a: int, b: int): int { if a <= b then a else b }

  /** SQL's `COALESCE(a, b)` on two nullable columns. */
  function Coalesce<T>(a: Option<T>, b: Option<T>): Option<T> { if a.Some? then a else b }

  /** SQL's `NULLIF(s, '')`. */
  function NullIfEmpty(s: string): Option<string> { if s == "" then None else Some(s) }

  function SetOf<T>(s: seq<T>): set<T> { set x | x in s }

  lemma SubsetSize<T>(a: set<T>, b: set<T>)
    requires a <= b
    ensures |a| <= |b|
    ensures |b - a| == |b| - |a|
  {
    assert a + (b - a) == b;
  }
}
