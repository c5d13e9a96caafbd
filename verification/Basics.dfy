/** What several modules share: a value that may be missing, absolute values, and
    the newest part of a list. */
module Basics {
  datatype Option<+T> = None | Some(value: T)

  function Abs(x: real): real { if x < 0.0 then -x else x }

  /** The last n elements, or all if there are fewer. */
  function Latest<T>(s: seq<T>, n: nat): seq<T> { if |s| > n then s[|s| - n..] else s }
}
