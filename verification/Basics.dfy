// Shared by the other modules.
module Basics {

  datatype Option<+T> = None | Some(value: T)

  // The numbers with an infinity above them: times that never come, scores that
  // nothing is worse than.
  datatype Extended = Finite(value: real) | Infinity

  predicate AtMost(a: Extended, b: Extended) {
    b.Infinity? || (a.Finite? && a.value <= b.value)
  }

  function Reversed<T>(s: seq<T>): (r: seq<T>)
    ensures |r| == |s| && forall i | 0 <= i < |s| :: r[i] == s[|s| - 1 - i]
  {
    seq(|s|, i requires 0 <= i < |s| => s[|s| - 1 - i])
  }
}
