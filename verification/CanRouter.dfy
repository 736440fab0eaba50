/** The receive router: six subscriptions, each a ring of sixteen frames tied
    to a counting semaphore. */
module CanRouter {
  import opened Bytes
  import opened CanBus
  import opened Rings
  import opened RouterSpec
  import opened Errno

  const WRAP32 := 0x1_0000_0000

  class Subscriber {
    var active: bool
    var extended: bool
    var id: nat
    var mask: nat
    var head: nat
    var count: nat
    var available: nat
    const queue: array<CanFrame>
    ghost var log: QueueLog

    ghost predicate Valid()
      reads this, queue
    {
      && queue.Length == QUEUE_DEPTH && head < QUEUE_DEPTH && count <= QUEUE_DEPTH
      && (active ==> available == count && Ring(queue[..], head, count) == log.Queued())
    }

    constructor ()
      ensures Valid() && View() == NOBODY && fresh(queue)
    {
      active, extended, id, mask, head, count, available := false, false, 0, 0, 0, 0, 0;
      queue := new CanFrame[QUEUE_DEPTH](_ => CanFrame(0, false, false, 0, [0, 0, 0, 0, 0, 0, 0, 0]));
      log := EMPTY;
    }

    /** The subscription as an entry of the table. */
    ghost function View(): Sub
      reads this
    {
      Sub(active, extended, id, mask, log)
    }

    predicate Matches(msg: CanFrame)
      reads this
      ensures Matches(msg) == View().Matches(msg)
    {
      extended == msg.extended && AndBits(msg.id, mask, 32) == AndBits(id, mask, 32)
    }

    method Open(id: nat, mask: nat, extended: bool)
      requires Valid() && !active
      modifies this
      ensures Valid() && active && log == EMPTY
      ensures this.id == id && this.mask == mask && this.extended == extended
    {
      head, count, available, log := 0, 0, 0, EMPTY;
      this.id, this.mask, this.extended := id, mask, extended;
      active := true;
    }

    /** Queues a matching frame, overwriting the oldest one when full. */
    method Offer(msg: CanFrame) returns (overflow: bool)
      requires Valid() && active
      modifies this, queue
      ensures Valid() && active && log == old(log).Offer(msg)
      ensures id == old(id) && mask == old(mask) && extended == old(extended)
      ensures overflow == (|old(log.Queued())| == QUEUE_DEPTH)
    {
      hide Ring;
      ghost var q, h, c := queue[..], head, count;
      overflow := count == QUEUE_DEPTH;
      if overflow {
        head := (head + 1) % QUEUE_DEPTH;
      } else {
        count := count + 1;
        available := available + 1;
      }
      var tail := (head + count - 1) % QUEUE_DEPTH;
      assert head == if overflow then Next(h, QUEUE_DEPTH) else h;
      assert tail == if overflow then h else Tail(h, c, QUEUE_DEPTH);
      RingOffer(q, h, c, msg);
      queue[tail] := msg;
      assert queue[..] == q[tail := msg];
      log := log.Offer(msg);
    }

    /** What a receiver does once the semaphore let it pass. */
    method TakeOldest() returns (msg: CanFrame)
      requires Valid() && active && log.Queued() != []
      modifies this
      ensures Valid() && active && log == old(log).Take()
      ensures id == old(id) && mask == old(mask) && extended == old(extended)
      ensures msg == old(log.Queued())[0]
    {
      ghost var h, c, before := head, count, log;
      RingPop(queue[..], h, c);
      available := available - 1;
      msg := queue[head];
      head := (head + 1) % QUEUE_DEPTH;
      count := count - 1;
      assert head == Next(h, QUEUE_DEPTH);
      log := before.Take();
      assert Ring(queue[..], head, count) == before.Queued()[1..];
    }

    /** Waits without blocking and takes the oldest frame. */
    method Receive() returns (ret: int, msg: CanFrame)
      requires Valid()
      modifies this
      ensures Valid() && active == old(active)
      ensures id == old(id) && mask == old(mask) && extended == old(extended)
      ensures !active ==> ret == -ENOENT && log == old(log)
      ensures active && old(log.Queued()) == [] ==> ret == -EAGAIN && log == old(log)
      ensures active && old(log.Queued()) != [] ==>
                ret == 0 && msg == old(log.Queued())[0] && log == old(log).Take()
    {
      msg := CanFrame(0, false, false, 0, [0, 0, 0, 0, 0, 0, 0, 0]);
      if !active {
        ret := -ENOENT;
      } else if available == 0 {
        ret := -EAGAIN;
      } else {
        msg := TakeOldest();
        ret := 0;
      }
    }

    method Close()
      requires Valid() && active
      modifies this
      ensures Valid() && View() == old(View()).(active := false)
    {
      active, count, head := false, 0, 0;
    }
  }

  lemma CountOneMore(drops: int)
    ensures (drops % WRAP32 + 1) % WRAP32 == (drops + 1) % WRAP32
  {
    assert (drops % 0x1_0000_0000 + 1) % 0x1_0000_0000 == (drops + 1) % 0x1_0000_0000;
  }

  ghost predicate Apart(slots: seq<Subscriber>) {
    forall i, j :: 0 <= i < j < |slots| ==> slots[i] != slots[j] && slots[i].queue != slots[j].queue
  }

  method NewSlots() returns (slots: seq<Subscriber>)
    ensures |slots| == MAX_SUBSCRIBERS && Apart(slots)
    ensures forall i :: 0 <= i < |slots| ==> fresh(slots[i]) && fresh(slots[i].queue)
    ensures forall i :: 0 <= i < |slots| ==> slots[i].Valid() && slots[i].View() == NOBODY
  {
    slots := [];
    while |slots| < MAX_SUBSCRIBERS
      invariant |slots| <= MAX_SUBSCRIBERS && Apart(slots)
      invariant forall i :: 0 <= i < |slots| ==> fresh(slots[i]) && fresh(slots[i].queue)
      invariant forall i :: 0 <= i < |slots| ==> slots[i].Valid() && slots[i].View() == NOBODY
    {
      var slot := new Subscriber();
      slots := slots + [slot];
    }
  }

  class Router {
    const subs: seq<Subscriber>
    var rxDropped: nat
    /** The table of RouterSpec that the slots stand for. */
    ghost var table: Table

    ghost predicate Separate() {
      |subs| == MAX_SUBSCRIBERS && Apart(subs)
    }

    ghost function Footprint(): set<object> {
      (set i | 0 <= i < |subs| :: subs[i] as object) + (set i | 0 <= i < |subs| :: subs[i].queue as object)
    }

    ghost predicate SlotValid(i: nat)
      requires i < |subs|
      reads this, subs[i], subs[i].queue
    {
      subs[i].Valid() && i < |table.subs| && subs[i].View() == table.subs[i]
    }

    /** Every slot is its entry of the table, and the drop counter is the table's
        drops: those of closed subscriptions, plus, for each live one, the frames
        that arrived, were not handed out and are not queued. */
    ghost predicate Valid()
      reads this, Footprint()
    {
      && Separate() && |table.subs| == |subs|
      && (forall i :: 0 <= i < |subs| ==> SlotValid(i))
      && rxDropped == table.Drops() % WRAP32
    }

    /** The service over its zeroed slots. */
    constructor (slots: seq<Subscriber>)
      requires Apart(slots) && |slots| == MAX_SUBSCRIBERS
      requires forall i :: 0 <= i < |slots| ==> slots[i].Valid() && slots[i].View() == NOBODY
      ensures Valid() && table == BOOTED && subs == slots
    {
      subs := slots;
      rxDropped, table := 0, BOOTED;
      NoneLive(BOOTED.subs, MAX_SUBSCRIBERS);
    }

    /** Hands a frame to subscription `i` and counts the frame it displaces. */
    method DispatchTo(i: nat, msg: CanFrame)
      requires Valid() && i < |subs| && subs[i].active && subs[i].Matches(msg)
      modifies this, subs[i], subs[i].queue
      ensures Valid() && table == old(table).(subs := old(table).subs[i := old(table).subs[i].Offer(msg)])
    {
      hide Ring, Sum, AndBits, Log.Offer;
      var sub := subs[i];
      assert SlotValid(i);
      OfferDrops(table, msg, i);
      CountOneMore(table.Drops());
      var overflow := sub.Offer(msg);
      if overflow {
        rxDropped := (rxDropped + 1) % WRAP32;
      }
      table := table.(subs := table.subs[i := table.subs[i].Offer(msg)]);
      forall k | 0 <= k < |subs| ensures SlotValid(k) {
        assert k != i ==> old(SlotValid(k)) && unchanged(subs[k]) && unchanged(subs[k].queue);
      }
    }

    /** Hands a frame to every live subscription it matches. */
    method Dispatch(msg: CanFrame)
      requires Valid()
      modifies this, Footprint()
      ensures Valid() && table == Step(old(table), Arrive(msg))
      ensures forall i :: 0 <= i < |subs| ==> subs[i].View() == old(subs[i].View()).Offer(msg)
    {
      var i := 0;
      while i < MAX_SUBSCRIBERS
        invariant 0 <= i <= MAX_SUBSCRIBERS
        invariant Valid() && table == Dispatched(old(table), msg, i)
      {
        assert SlotValid(i);
        if subs[i].active && subs[i].Matches(msg) {
          DispatchTo(i, msg);
        } else {
          assert table.subs[i := table.subs[i]] == table.subs;
        }
        i := i + 1;
      }
      forall k | 0 <= k < |subs| ensures subs[k].View() == old(subs[k].View()).Offer(msg) {
        assert SlotValid(k) && old(SlotValid(k));
      }
    }

    /** Opens the first free slot. */
    method Subscribe(id: nat, mask: nat, extended: bool) returns (ret: int, subscription: nat)
      requires Valid()
      modifies this, Footprint()
      ensures Valid() && table == Step(old(table), Open(id, mask, extended))
      ensures var k := FirstFree(old(table).subs, 0);
              if k < |subs| then ret == 0 && subscription == k else ret == -ENOSPC
      ensures ret == 0 ==>
                && subscription < |subs| && subs[subscription].active && subs[subscription].log == EMPTY
                && subs[subscription].id == id && subs[subscription].mask == mask
                && subs[subscription].extended == extended
      ensures forall i :: 0 <= i < |subs| && (ret == 0 ==> i != subscription) ==>
                unchanged(subs[i]) && unchanged(subs[i].queue)
    {
      var i := 0;
      while i < MAX_SUBSCRIBERS
        invariant 0 <= i <= MAX_SUBSCRIBERS
        invariant FirstFree(table.subs, 0) == FirstFree(table.subs, i)
      {
        assert SlotValid(i);
        if !subs[i].active {
          OpenSlot(i, id, mask, extended);
          return 0, i;
        }
        i := i + 1;
      }
      return -ENOSPC, 0;
    }

    method OpenSlot(i: nat, id: nat, mask: nat, extended: bool)
      requires Valid() && i < |subs| && FirstFree(table.subs, 0) == i && !subs[i].active
      modifies this, subs[i]
      ensures Valid() && table == Step(old(table), Open(id, mask, extended))
      ensures subs[i].active && subs[i].log == EMPTY
      ensures subs[i].id == id && subs[i].mask == mask && subs[i].extended == extended
    {
      assert SlotValid(i);
      StepDrops(table, Open(id, mask, extended));
      subs[i].Open(id, mask, extended);
      table := Step(table, Open(id, mask, extended));
      forall k | 0 <= k < |subs| ensures SlotValid(k) {
        assert k != i ==> old(SlotValid(k)) && unchanged(subs[k]) && unchanged(subs[k].queue);
      }
    }

    method Unsubscribe(subscription: int) returns (ret: int)
      requires Valid()
      modifies this, Footprint()
      ensures Valid() && table == Step(old(table), Close(subscription))
      ensures ret == if !(0 <= subscription < |subs|) then -EINVAL
                     else if !Live(old(table), subscription) then -ENOENT else 0
      ensures forall i :: 0 <= i < |subs| && i != subscription ==> unchanged(subs[i]) && unchanged(subs[i].queue)
    {
      if subscription < 0 || subscription >= MAX_SUBSCRIBERS {
        return -EINVAL;
      }
      assert SlotValid(subscription);
      if !subs[subscription].active {
        return -ENOENT;
      }
      StepDrops(table, Close(subscription));
      subs[subscription].Close();
      table := Step(table, Close(subscription));
      forall k | 0 <= k < |subs| ensures SlotValid(k) {
        assert k != subscription ==> old(SlotValid(k)) && unchanged(subs[k]) && unchanged(subs[k].queue);
      }
      ret := 0;
    }

    method Receive(subscription: int) returns (ret: int, msg: CanFrame)
      requires Valid()
      modifies this, Footprint()
      ensures Valid() && table == Step(old(table), Take(subscription))
      ensures ret == if !(0 <= subscription < |subs|) then -EINVAL
                     else if !Live(old(table), subscription) then -ENOENT
                     else if old(table).subs[subscription].log.Queued() == [] then -EAGAIN else 0
      ensures ret == 0 ==> msg == old(table).subs[subscription].log.Queued()[0]
      ensures forall i :: 0 <= i < |subs| && i != subscription ==> unchanged(subs[i]) && unchanged(subs[i].queue)
    {
      if subscription < 0 || subscription >= MAX_SUBSCRIBERS {
        return -EINVAL, CanFrame(0, false, false, 0, [0, 0, 0, 0, 0, 0, 0, 0]);
      }
      assert SlotValid(subscription);
      StepDrops(table, Take(subscription));
      ret, msg := subs[subscription].Receive();
      table := Step(table, Take(subscription));
      forall k | 0 <= k < |subs| ensures SlotValid(k) {
        assert k != subscription ==> old(SlotValid(k)) && unchanged(subs[k]) && unchanged(subs[k].queue);
      }
    }
  }
}
