/** Circular buffers as sequences. */
module Rings {
  /** The `count` elements of a ring that start at `head`. */
  function Ring<T>(q: seq<T>, head: nat, count: nat): (r: seq<T>)
    requires head < |q| && count <= |q|
    ensures |r| == count
  {
    if head + count <= |q| then q[head..head + count] else q[head..] + q[..head + count - |q|]
  }

  function Next(i: nat, n: nat): (r: nat)
    requires i < n
    ensures r < n
  {
    if i + 1 == n then 0 else i + 1
  }

  /** The slot `count` places behind `head`. */
  function Tail(head: nat, count: nat, n: nat): (r: nat)
    requires head < n && count <= n
    ensures r < n
  {
    if head + count < n then head + count else head + count - n
  }

  lemma TailSteps(head: nat, count: nat, n: nat)
    requires head < n && count < n
    ensures Next(Tail(head, count, n), n) == Tail(head, count + 1, n) == Tail(Next(head, n), count, n)
  {
  }

  lemma RingPush<T>(q: seq<T>, head: nat, count: nat, x: T)
    requires head < |q| && count < |q|
    ensures Ring(q[Tail(head, count, |q|) := x], head, count + 1) == Ring(q, head, count) + [x]
  {
  }

  lemma RingPop<T>(q: seq<T>, head: nat, count: nat)
    requires head < |q| && 0 < count <= |q|
    ensures Ring(q, head, count)[0] == q[head]
    ensures Ring(q, Next(head, |q|), count - 1) == Ring(q, head, count)[1..]
  {
  }

  /** Adding to a ring that gives up its oldest element when it is full. */
  lemma RingOffer<T>(q: seq<T>, head: nat, count: nat, x: T)
    requires head < |q| && count <= |q|
    ensures
      var full := count == |q|;
      var tail := if full then head else Tail(head, count, |q|);
      Ring(q[tail := x], if full then Next(head, |q|) else head, if full then count else count + 1) ==
        (if full then Ring(q, head, count)[1..] else Ring(q, head, count)) + [x]
  {
    if count == |q| {
      RingOverwrite(q, head, x);
    } else {
      RingPush(q, head, count, x);
    }
  }

  /** Changing a slot changes one element of the whole ring read from `head`. */
  lemma RingUpdate<T>(q: seq<T>, head: nat, j: nat, x: T)
    requires head < |q| && j < |q|
    ensures Ring(q, head, |q|)[j] == q[Tail(head, j, |q|)]
    ensures Ring(q[Tail(head, j, |q|) := x], head, |q|) == Ring(q, head, |q|)[j := x]
  {
  }

  /** A full ring that overwrites its oldest element. */
  lemma RingOverwrite<T>(q: seq<T>, head: nat, x: T)
    requires head < |q|
    ensures Ring(q[head := x], Next(head, |q|), |q|) == Ring(q, head, |q|)[1..] + [x]
  {
    RingPop(q, head, |q|);
    var h := Next(head, |q|);
    assert Tail(h, |q| - 1, |q|) == head;
    RingPush(q, h, |q| - 1, x);
  }
}
