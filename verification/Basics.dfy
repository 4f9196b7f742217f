/** Words that several modules use: 32-bit wrap-around, lists, memory, and calls that fail only for want of memory. */
module Basics {
  /** The outcome of a call that can fail only for want of memory. */
  datatype MemStatus = Success | OutOfMemory

  /** What is left of a value in an unsigned 32-bit variable. */
  function Wrap32(x: int): nat {
    x % 0x1_0000_0000
  }

  predicate Distinct(xs: seq<nat>) {
    forall i, j | 0 <= i < j < |xs| :: xs[i] != xs[j]
  }

  function RemoveAt<T>(xs: seq<T>, i: nat): seq<T>
    requires i < |xs|
  {
    xs[..i] + xs[i + 1..]
  }

  /** The value at an address; memory never written holds 0. */
  function Load(mem: map<nat, nat>, a: nat): nat {
    if a in mem then mem[a] else 0
  }
}
