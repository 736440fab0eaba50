/** The eight-octet frame buffer both stations fill in place. */
module FrameBuffer {
  import opened Bytes
  import opened CanBus
  import opened IsotpSpec

  /** Copies `payload[from..from + n]` to `frame[at..]`. */
  method CopyIn(frame: array<byte>, at: nat, payload: seq<byte>, from: nat, n: nat)
    requires frame.Length == 8 && at + n <= 8 && from + n <= |payload|
    modifies frame
    ensures frame[..] == old(frame[..at]) + payload[from..from + n] + old(frame[at + n..])
  {
    forall i | 0 <= i < n {
      frame[at + i] := payload[from + i];
    }
  }

  /** Fills the buffer with a single frame, or with the first frame of a longer payload. */
  method FillFirst(frame: array<byte>, payload: Payload)
    requires frame.Length == 8 && frame[..] == [0, 0, 0, 0, 0, 0, 0, 0] && |payload| <= MAX_PAYLOAD
    modifies frame
    ensures frame[..] == Octets(payload, 0)
  {
    var length := |payload|;
    if length <= 7 {
      frame[0] := length;
      CopyIn(frame, 1, payload, 0, length);
    } else {
      frame[0], frame[1] := 16 + length / 256 % 16, length % 256;
      CopyIn(frame, 2, payload, 0, 6);
    }
  }

  /** Fills the buffer with the consecutive frame that starts at `copied`. */
  method FillConsecutive(frame: array<byte>, payload: Payload, copied: nat, sequence: nat, chunk: nat, ghost k: nat)
    requires frame.Length == 8 && 7 < |payload| <= MAX_PAYLOAD && 1 <= k < FrameCount(payload)
    requires copied == 6 + 7 * (k - 1) && sequence == k % 16 && chunk == Min(7, |payload| - copied)
    modifies frame
    ensures frame[..] == Octets(payload, k)
  {
    forall i | 0 <= i < 8 {
      frame[i] := 0;
    }
    frame[0] := 32 + sequence % 16;
    CopyIn(frame, 1, payload, copied, chunk);
  }

  /** Where the octets of consecutive frame `k` start and end. */
  lemma ConsecutiveEnd(p: Payload, k: nat)
    requires 7 < |p| <= MAX_PAYLOAD && 1 <= k && 6 + 7 * (k - 1) < |p|
    ensures k < FrameCount(p) && k <= 18
    ensures (k % 16 + 1) % 16 == (k + 1) % 16
    ensures 6 + 7 * k >= |p| <==> k + 1 == FrameCount(p)
  {
  }

  /** Transmits the next consecutive frame of the ghost sender `s`. */
  method EmitConsecutive(port: CanPort, l: Link, frame: array<byte>, payload: Payload, copied: nat, sequence: nat,
                         chunk: nat, ghost s: Sender) returns (ret: int, ghost s': Sender)
    requires s.Valid() && s.phase.Emit? && s.payload == payload && s.sent >= 1 && port.txError < 0
    requires frame.Length == 8 && |payload| > 7
    requires copied == 6 + 7 * (s.sent - 1) < |payload| && sequence == s.sent % 16
    requires chunk == Min(7, |payload| - copied)
    modifies port, frame
    ensures s'.Valid()
    ensures Transfer(SendRun(s, old(port.inbox), old(port.credits), old(port.trace)), l)
         == Transfer(SendRun(s', port.inbox, port.credits, port.trace), l)
    ensures ret < 0 ==> ret == port.txError && s'.phase == Ended(SendTxFailed)
    ensures ret >= 0 ==>
              && ret == 0 && (sequence + 1) % 16 == s'.sent % 16
              && s' == s.(sent := s.sent + 1, blockCount := s.blockCount + 1, phase := s'.phase, waits := s'.waits)
              && s'.phase == (if copied + chunk == |payload| then Ended(SendOk)
                              else if s.blockSize != 0 && s'.blockCount >= s.blockSize then AwaitFlow else Emit)
              && (s'.phase.AwaitFlow? ==> s'.waits == 0)
  {
    FillConsecutive(frame, payload, copied, sequence, chunk, s.sent);
    ret := port.Send(CanFrame(l.txId, l.txExtended, false, 8, frame[..]));
    ConsecutiveEnd(payload, s.sent);
    s' := if ret >= 0 then AfterEmit(s) else s.(phase := Ended(SendTxFailed));
  }

  /** Copies `n` data octets of a consecutive frame behind the first `at` octets of `payload`. */
  method CopyOut(payload: array<byte>, at: nat, data: Octets8, n: nat, ghost limit: nat)
    requires n <= 7 && at + n <= limit <= payload.Length
    modifies payload
    ensures payload[..at + n] == old(payload[..at]) + data[1..1 + n]
    ensures payload[limit..] == old(payload[limit..])
  {
    forall i | 0 <= i < n {
      payload[at + i] := data[1 + i];
    }
  }
}
