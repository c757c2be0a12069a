module Sequences {

  /** `s[:n]` */
  function Take<T>(s: seq<T>, n: nat): (front: seq<T>)
    ensures forall x :: x in front ==> x in s
  {
    if n < |s| then s[..n] else s
  }
}
