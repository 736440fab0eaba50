/** Classic CAN frames and the endpoint a transport task sees. */
module CanBus {
  import opened Bytes

  type Octets8 = s: seq<byte> | |s| == 8 witness [0, 0, 0, 0, 0, 0, 0, 0]

  datatype CanFrame = CanFrame(id: nat, extended: bool, rtr: bool, dlc: nat, data: Octets8)
  {
    // The high and the low nibble of the protocol control octet.
    function Kind(): nat { data[0] / 16 }
    function Low(): nat { data[0] % 16 }
  }

  datatype Event = Tx(frame: CanFrame) | Rx(frame: CanFrame)

  /** What one side did on the bus so far, latest event last. */
  datatype Trace = Start | Then(before: Trace, event: Event)

  /** The frames a trace transmits, in order. */
  function Sent(trace: Trace): seq<CanFrame> {
    match trace
    case Start => []
    case Then(before, e) => Sent(before) + (if e.Tx? then [e.frame] else [])
  }

  /** One side's access to the bus for the duration of one transfer.  `inbox`
      holds the frames that will arrive before the deadline and `credits` the
      number of transmissions that will succeed before it, so every finite
      behaviour of the bus, including expiry at any point, is one choice of
      the two.  `trace` records what this side did. */
  class CanPort {
    var inbox: seq<CanFrame>
    var credits: nat
    var trace: Trace
    const rxError: int
    const txError: int

    constructor (inbox: seq<CanFrame>, credits: nat, rxError: int, txError: int)
      requires rxError < 0 && txError < 0
      ensures this.inbox == inbox && this.credits == credits && trace == Start
      ensures this.rxError == rxError && this.txError == txError
    {
      this.inbox, this.credits, this.trace := inbox, credits, Start;
      this.rxError, this.txError := rxError, txError;
    }

    method Send(frame: CanFrame) returns (ret: int)
      modifies this
      ensures inbox == old(inbox)
      ensures old(credits) == 0 ==> ret == txError && credits == 0 && trace == old(trace)
      ensures old(credits) > 0 ==> ret == 0 && credits == old(credits) - 1 && trace == Then(old(trace), Tx(frame))
    {
      if credits == 0 {
        return txError;
      }
      credits := credits - 1;
      trace := Then(trace, Tx(frame));
      ret := 0;
    }

    method Receive() returns (ret: int, frame: CanFrame)
      modifies this
      ensures credits == old(credits)
      ensures old(inbox) == [] ==> ret == rxError && inbox == [] && trace == old(trace)
      ensures old(inbox) != [] ==>
                && ret == 0 && frame == old(inbox)[0]
                && inbox == old(inbox)[1..] && trace == Then(old(trace), Rx(frame))
    {
      if inbox == [] {
        ret, frame := rxError, CanFrame(0, false, false, 0, [0, 0, 0, 0, 0, 0, 0, 0]);
        return;
      }
      ret, frame := 0, inbox[0];
      inbox := inbox[1..];
      trace := Then(trace, Rx(frame));
    }
  }
}
