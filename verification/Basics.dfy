/** What several components share. */
module Basics {

  datatype Option<+T> = None | Some(value: T)

  /** A string stands for its bytes. */
  type Text = string

  /** A stream of an account of a platform. */
  datatype StreamIDFQ = StreamIDFQ(platform: Text, account: Text, stream: Text)

  function LastN<T>(q: seq<T>, n: nat): seq<T> {
    if |q| <= n then q else q[|q| - n..]
  }

  /** Go's conversion of a float to an integer drops the fraction. */
  function Trunc(x: real): int {
    if x >= 0.0 then x.Floor else -((-x).Floor)
  }
}
