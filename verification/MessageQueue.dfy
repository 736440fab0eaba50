/** The bounded queue of the message bus, as the ring the lock protects. */
module MessageQueue {
  import opened Rings

  const QUEUE_LEN := 16

  class Queue<T(0)> {
    const items: array<T>
    var head: nat
    var tail: nat
    var count: nat

    ghost predicate Valid()
      reads this, items
    {
      && items.Length == QUEUE_LEN && head < QUEUE_LEN && count <= QUEUE_LEN
      && tail == Tail(head, count, QUEUE_LEN)
    }

    ghost function Contents(): (r: seq<T>)
      requires Valid()
      reads this, items
    {
      Ring(items[..], head, count)
    }

    constructor ()
      ensures Valid() && Contents() == [] && fresh(items)
    {
      items := new T[QUEUE_LEN];
      head, tail, count := 0, 0, 0;
    }

    /** A push that does not wait: a full queue refuses and stays as it is. */
    method Push(msg: T) returns (ok: bool)
      requires Valid()
      modifies this, items
      ensures Valid()
      ensures ok == (|old(Contents())| < 16)
      ensures Contents() == if ok then old(Contents()) + [msg] else old(Contents())
    {
      if count >= QUEUE_LEN {
        return false;
      }
      ghost var q, h, c := items[..], head, count;
      RingPush(q, h, c, msg);
      items[tail] := msg;
      assert items[..] == q[Tail(h, c, QUEUE_LEN) := msg];
      tail := (tail + 1) % QUEUE_LEN;
      count := count + 1;
      ok := true;
    }

    /** A pop that does not wait: an empty queue refuses and stays as it is. */
    method Pop() returns (ok: bool, msg: T)
      requires Valid()
      modifies this
      ensures Valid()
      ensures ok == (old(Contents()) != [])
      ensures ok ==> msg == old(Contents())[0] && Contents() == old(Contents())[1..]
      ensures !ok ==> Contents() == []
    {
      msg := items[head];
      if count == 0 {
        return false, msg;
      }
      ghost var h, c := head, count;
      RingPop(items[..], h, c);
      head := (head + 1) % QUEUE_LEN;
      assert head == Next(h, QUEUE_LEN);
      count := count - 1;
      ok := true;
    }
  }
}
