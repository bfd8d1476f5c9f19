/** What several modules share. */
module Common {
  datatype Option<T> = None | Some(value: T)

  function Zeroes(n: nat): (r: seq<nat>)
    ensures |r| == n && forall i :: 0 <= i < n ==> r[i] == 0
  {
    seq(n, i => 0)
  }
}
