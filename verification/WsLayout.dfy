/** The WebSocket frames octet by octet, and what cut-off frames come to. */
module WsLayout {
  import opened Bytes
  import opened WsFrames

  lemma FromEightOctets(s: seq<byte>)
    requires |s| == 8
    ensures
      var a: nat := s[0];
      FromBigEndian(s) ==
      ((((((a * 256 + s[1]) * 256 + s[2]) * 256 + s[3]) * 256 + s[4]) * 256 + s[5]) * 256 + s[6]) * 256 + s[7]
  {
    FromTwoOctets(s[..2]);
    FromOneMore(s, 3);
    FromOneMore(s, 4);
    FromOneMore(s, 5);
    FromOneMore(s, 6);
    FromOneMore(s, 7);
    FromOneMore(s, 8);
    assert s[..8] == s;
  }

  lemma FromOneMore(s: seq<byte>, k: nat)
    requires 1 <= k <= |s|
    ensures FromBigEndian(s[..k]) == FromBigEndian(s[..k - 1]) * 256 + s[k - 1]
  {
    assert s[..k][..k - 1] == s[..k - 1];
  }

  /** The shortest of the three length forms (RFC 6455, section 5.2). */
  lemma LengthForms(n: nat, flag: nat)
    requires (flag == 0 || flag == 128) && n < 0x1_0000_0000_0000_0000
    ensures n <= 125 ==> Length(n, flag) == [flag + n]
    ensures 126 <= n <= 65535 ==> Length(n, flag) == [flag + 126, n / 256, n % 256]
    ensures n >= 65536 ==>
              var l: seq<int> := Length(n, flag);
              && |l| == 9 && l[0] == flag + 127
              && n == ((((((l[1] * 256 + l[2]) * 256 + l[3]) * 256 + l[4]) * 256 + l[5]) * 256 + l[6]) * 256 + l[7])
                      * 256 + l[8]
  {
    if 126 <= n <= 65535 {
      TwoOctets(n);
    } else if n >= 65536 {
      LengthRoundTrip(n, flag, []);
      var l := Length(n, flag);
      assert l[1..] + [] == l[1..] && l[1..][..8] == l[1..];
      FromEightOctets(l[1..]);
    }
  }

  /** A client's frame: final, with its opcode and the masking bit set, the mask in
      front of the payload (RFC 6455, sections 5.2 and 5.3). */
  lemma ClientFrameLayout(opcode: nat, mask: seq<byte>, p: seq<byte>)
    requires |mask| == 4 && opcode < 16 && |p| < 0x1_0000_0000_0000_0000
    ensures
      var s, n := ClientFrame(opcode, mask, p), if |p| <= 125 then 2 else if |p| <= 65535 then 4 else 10;
      && |s| == n + 4 + |p| && s[0] == 128 + opcode && s[1..n] == Length(|p|, 128) && s[n..n + 4] == mask
      && forall i :: 0 <= i < |p| ==> s[n + 4..][i] == Xor(p[i], mask[i % 4])
  {
    hide ClientFrame, Length, Masked;
    LengthForms(|p|, 128);
    var l, body := Length(|p|, 128), Masked(p, mask);
    FrameParts(0x80 + opcode, l, mask, body);
    forall i | 0 <= i < |p| ensures body[i] == Xor(p[i], mask[i % 4]) {
      MaskedAt(p, mask, i);
    }
    ClientFrameIs(opcode, mask, p);
  }

  lemma {:induction false} ClientFrameIs(opcode: nat, mask: seq<byte>, p: seq<byte>)
    requires |mask| == 4 && opcode < 16
    ensures ClientFrame(opcode, mask, p) == [0x80 + opcode] + Length(|p|, 128) + mask + Masked(p, mask)
  {
    hide Length, Masked;
    FirstOctet(opcode);
    var first, same: byte := 0x80 + opcode % 16, 0x80 + opcode;
    assert first == same;
  }

  lemma FrameParts(first: byte, l: seq<byte>, mask: seq<byte>, body: seq<byte>)
    requires |mask| == 4
    ensures
      var s, n := [first] + l + mask + body, 1 + |l|;
      |s| == n + 4 + |body| && s[0] == first && s[1..n] == l && s[n..n + 4] == mask && s[n + 4..] == body
  {
  }

  /** The examples of RFC 6455, section 5.7: a text "Hello", unmasked and masked. */
  lemma Hello()
    ensures ServerFrame([0x48, 0x65, 0x6c, 0x6c, 0x6f]) == [0x81, 0x05, 0x48, 0x65, 0x6c, 0x6c, 0x6f]
    ensures ClientFrame(1, [0x37, 0xfa, 0x21, 0x3d], [0x48, 0x65, 0x6c, 0x6c, 0x6f]) ==
            [0x81, 0x85, 0x37, 0xfa, 0x21, 0x3d, 0x7f, 0x9f, 0x4d, 0x51, 0x58]
  {
    hide Masked, Xor;
    HelloMasked();
  }

  lemma HelloMasked()
    ensures Masked([0x48, 0x65, 0x6c, 0x6c, 0x6f], [0x37, 0xfa, 0x21, 0x3d]) == [0x7f, 0x9f, 0x4d, 0x51, 0x58]
  {
    hide Masked, Xor;
    var mask, p: seq<byte> := [0x37, 0xfa, 0x21, 0x3d], [0x48, 0x65, 0x6c, 0x6c, 0x6f];
    HelloOctets();
    MaskedAt(p, mask, 0);
    MaskedAt(p, mask, 1);
    MaskedAt(p, mask, 2);
    MaskedAt(p, mask, 3);
    MaskedAt(p, mask, 4);
  }

  lemma HelloOctets()
    ensures Xor(0x48, 0x37) == 0x7f && Xor(0x65, 0xfa) == 0x9f && Xor(0x6c, 0x21) == 0x4d
    ensures Xor(0x6c, 0x3d) == 0x51 && Xor(0x6f, 0x37) == 0x58
  {
  }

  // ---- Cut-off frames ------------------------------------------------------

  /** Of a stream that ends earlier, either the head cannot be read, or the same
      head is read and that much of the payload is missing. */
  lemma HeadOfPrefix(short: nat, masked: bool, s: seq<byte>, j: nat, wide: bool)
    requires short < 128 && j <= |s| && ParseHead(short, masked, s, wide).Head?
    ensures
      var whole, cut := ParseHead(short, masked, s, wide), ParseHead(short, masked, s[..j], wide);
      cut == NoHead([])
      || (cut.Head? && cut.length == whole.length && cut.mask == whole.mask
          && |cut.rest| == |whole.rest| - (|s| - j))
  {
    var more := if short == 126 then 2 else if short == 127 then 8 else 0;
    if j >= more {
      assert s[..j][..more] == s[..more];
      if masked && j - more >= 4 {
        assert s[..j][more..][..4] == s[more..][..4];
      }
    }
  }

  /** A frame that is cut off anywhere is a failure at the end of the stream, and
      nothing is sent back. */
  lemma CutFrameFails(opcode: nat, mask: seq<byte>, p: seq<byte>, k: nat, capacity: nat)
    requires |mask| == 4 && |p| < 0x1_0000 && k < |ClientFrame(opcode, mask, p)|
    requires if opcode == 9 || opcode == 10 then |p| <= 125 else (opcode == 1 || opcode == 2) && |p| < capacity
    ensures ServerParse(ClientFrame(opcode, mask, p)[..k], capacity) == Result(-1, [], [], [])
  {
    hide ParseHead, ClientFrame;
    var s := ClientFrame(opcode, mask, p);
    ClientFrameHead(opcode, mask, p, []);
    assert s + [] == s;
    if k >= 2 {
      var cut := s[..k];
      assert cut[2..] == s[2..][..k - 2] && cut[0] == s[0] && cut[1] == s[1];
      HeadOfPrefix(s[1] % 128, s[1] >= 128, s[2..], k - 2, false);
      var head := ParseHead(s[1] % 128, s[1] >= 128, cut[2..], false);
      ServerParseOf(cut, opcode, head, capacity);
    }
  }
}
