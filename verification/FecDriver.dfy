/** The Ethernet driver's transmit call and receive loop over its two descriptor
    rings, with the DMA engine at rest; RxRing and TxRing prove what holds when
    it is not. */
module FecDriver {
  import opened Bytes
  import RxRing
  import TxRing
  import opened Errno
  import opened EthernetBuffers

  /** The first `n` octets of `buffer` are those of `s`, the others are as before. */
  ghost predicate Overlaid(buffer: seq<byte>, before: seq<byte>, s: seq<byte>, n: nat)
    requires n <= |s|
  {
    && |buffer| == |before| && n <= |before|
    && forall k :: 0 <= k < |before| ==> buffer[k] == if k < n then s[k] else before[k]
  }

  lemma OverlayStarts(before: seq<byte>, s: seq<byte>)
    requires |s| <= |before|
    ensures Overlaid(before, before, s, 0)
  {
  }

  lemma OverlayGrows(buffer: seq<byte>, before: seq<byte>, s: seq<byte>, n: nat)
    requires n < |s| <= |before| && Overlaid(buffer, before, s, n)
    ensures n < |buffer| && Overlaid(buffer[n := s[n]], before, s, n + 1)
  {
  }

  lemma OverlayEnds(buffer: seq<byte>, before: seq<byte>, s: seq<byte>)
    requires |s| <= |before| && Overlaid(buffer, before, s, |s|)
    ensures buffer == s + before[|s|..]
  {
  }

  class FecNet {
    const rx: array<RxRing.Desc>
    const tx: array<TxRing.Desc>
    var rxhead: nat
    var txhead: nat
    var rxErrors: nat
    var txErrors: nat
    var txBusy: nat
    var txAttempts: nat

    /** The driver's part of a transmit state is what its fields say. */
    ghost predicate IsTx(s: TxRing.State)
      reads this, tx
    {
      s.descs == tx[..] && s.head == txhead && s.phase.Idle?
    }

    ghost predicate IsRx(s: RxRing.State)
      reads this, rx
    {
      s.descs == rx[..] && s.head == rxhead && s.phase.Looking?
    }

    constructor (rxCount: nat, txCount: nat)
      requires rxCount > 0 && txCount > 0
      ensures rx.Length == rxCount && tx.Length == txCount && fresh(rx) && fresh(tx)
      ensures IsRx(RxRing.Initial(rxCount)) && IsTx(TxRing.Initial(txCount))
    {
      rx := new RxRing.Desc[rxCount](i => RxRing.Desc(true, false, 0, seq(BUFFER_SIZE, _ => 0)));
      tx := new TxRing.Desc[txCount](i => TxRing.Desc(false, false, false, true, 0, seq(BUFFER_SIZE, _ => 0)));
      rxhead, txhead := 0, 0;
      rxErrors, txErrors, txBusy, txAttempts := 0, 0, 0, 0;
      new;
      rx[rxCount - 1] := rx[rxCount - 1].(wrap := true);
      tx[txCount - 1] := tx[txCount - 1].(wrap := true);
    }

    /** Hands a frame to the engine, or leaves the ring alone: too long, or no
        free slot. */
    method Transmit(frame: seq<byte>, ghost s: TxRing.State) returns (ret: int)
      requires IsTx(s) && TxRing.Inv(s)
      modifies this, tx
      ensures IsTx(TxRing.Transmitted(s, frame)) && TxRing.Inv(TxRing.Transmitted(s, frame))
      ensures ret == (if |frame| > 1536 then -EMSGSIZE
                      else if frame != [] && old(tx[txhead]).ready then -EBUSY else 0)
      ensures txErrors == old(txErrors) + (if ret == -EMSGSIZE then 1 else 0)
      ensures txBusy == old(txBusy) + (if ret == -EBUSY then 1 else 0)
      ensures txAttempts == old(txAttempts) + (if TxRing.Takes(s, frame) then 1 else 0)
      ensures rxhead == old(rxhead) && rxErrors == old(rxErrors)
    {
      TxRing.TransmittedKeeps(s, frame);
      if frame == [] {
        return 0;
      }
      if |frame| > BUFFER_SIZE {
        txErrors := txErrors + 1;
        return -EMSGSIZE;
      }
      var index := txhead;
      if tx[index].ready {
        txBusy := txBusy + 1;
        return -EBUSY;
      }
      txAttempts := txAttempts + 1;
      var length := if |frame| < MIN_FRAME then MIN_FRAME else |frame|;
      FillSlot(index, frame, length);
      tx[index] := tx[index].(length := length, last := true, crc := true);
      tx[index] := tx[index].(ready := true);
      txhead := txhead + 1;
      if txhead >= tx.Length {
        txhead := 0;
      }
      ret := 0;
    }

    /** Copies the frame into the slot's buffer and pads it. */
    method FillSlot(index: nat, frame: seq<byte>, length: nat)
      requires index < tx.Length && |frame| <= length <= BUFFER_SIZE == |tx[index].buffer|
      requires length == if |frame| < MIN_FRAME then MIN_FRAME else |frame|
      modifies tx
      ensures tx[..] == old(tx[..])[index := TxRing.Filled(old(tx[index]), frame)]
    {
      hide Overlaid;
      ghost var d, padded := tx[index], TxRing.Padded(frame);
      OverlayStarts(d.buffer, padded);
      var offset := 0;
      while offset < |frame|
        invariant 0 <= offset <= |frame|
        invariant tx[index] == d.(buffer := tx[index].buffer) && Overlaid(tx[index].buffer, d.buffer, padded, offset)
        invariant forall i :: 0 <= i < tx.Length && i != index ==> tx[i] == old(tx[i])
      {
        OverlayGrows(tx[index].buffer, d.buffer, padded, offset);
        tx[index] := tx[index].(buffer := tx[index].buffer[offset := frame[offset]]);
        offset := offset + 1;
      }
      while offset < length
        invariant |frame| <= offset <= length
        invariant tx[index] == d.(buffer := tx[index].buffer) && Overlaid(tx[index].buffer, d.buffer, padded, offset)
        invariant forall i :: 0 <= i < tx.Length && i != index ==> tx[i] == old(tx[i])
      {
        OverlayGrows(tx[index].buffer, d.buffer, padded, offset);
        tx[index] := tx[index].(buffer := tx[index].buffer[offset := 0]);
        offset := offset + 1;
      }
      OverlayEnds(tx[index].buffer, d.buffer, padded);
    }

    /** Takes the full slot at `rxhead`: hands its frame up unless the length makes
        no sense, and gives the slot back. */
    method TakeSlot(ghost s: RxRing.State) returns (frames: seq<seq<byte>>)
      requires IsRx(s) && RxRing.Inv(s) && !rx[rxhead].empty
      modifies this, rx
      ensures IsRx(RxRing.Round(s)) && RxRing.Round(s).dispatched == s.dispatched + frames
      ensures rxErrors == old(rxErrors) + if old(rx[rxhead]).length > 1536 then 1 else 0
      ensures txhead == old(txhead)
    {
      frames := [];
      var index := rxhead;
      var d := rx[index];
      var length := d.length;
      if length > BUFFER_SIZE {
        rxErrors := rxErrors + 1;
        length := 0;
      }
      if length != 0 {
        frames := [d.buffer[..length]];
      }
      rx[index] := rx[index].(length := 0);
      rx[index] := rx[index].(empty := true);
      rxhead := rxhead + 1;
      if rxhead >= rx.Length {
        rxhead := 0;
      }
    }

    /** Takes every full slot in ring order. */
    method Receive(ghost s: RxRing.State) returns (frames: seq<seq<byte>>, ghost t: RxRing.State)
      requires IsRx(s) && RxRing.Inv(s)
      modifies this, rx
      ensures IsRx(t) && RxRing.Inv(t)
      ensures t.arrived == s.arrived && t.returned == |s.arrived| && t.engine == s.engine
      ensures t.dispatched == s.dispatched + frames == RxRing.Accepted(s.arrived, |s.arrived|)
      ensures forall i :: 0 <= i < rx.Length ==> rx[i].empty
      ensures rxErrors == old(rxErrors) + RxRing.TooLong(s.arrived, s.returned, |s.arrived|)
      ensures txhead == old(txhead)
    {
      hide RxRing.Inv, RxRing.Round, RxRing.Accepted;
      frames, t := [], s;
      RxRing.InvBounds(s);
      while !rx[rxhead].empty
        invariant IsRx(t) && RxRing.Inv(t) && t.Bounded()
        invariant t.arrived == s.arrived && t.engine == s.engine && t.dispatched == s.dispatched + frames
        invariant s.returned <= t.returned <= |s.arrived|
        invariant rxErrors == old(rxErrors) + RxRing.TooLong(s.arrived, s.returned, t.returned)
        invariant txhead == old(txhead)
        decreases |t.arrived| - t.returned
      {
        RxRing.OneRound(t);
        var more := TakeSlot(t);
        assert t.dispatched + more == s.dispatched + (frames + more);
        frames := frames + more;
        t := RxRing.Round(t);
        RxRing.InvBounds(t);
      }
      RxRing.Drained(t);
    }
  }
}
