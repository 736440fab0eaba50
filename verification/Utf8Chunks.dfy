/** Long messages are cut into segments that never split a character
    (RFC 3629, section 4). */
module Utf8Chunks {
  import opened Bytes

  const MAX_LENGTH := 4000

  // ---- Characters ----------------------------------------------------------

  /** A continuation octet: its two top bits are 10. */
  predicate IsTail(b: byte) { b / 64 == 2 }

  predicate Tails(s: seq<byte>, from: nat, to: nat) {
    to <= |s| && forall i :: from <= i < to ==> IsTail(s[i])
  }

  /** The length of the character that `s` starts with, 0 if there is none. */
  function CharLength(s: seq<byte>): (n: nat)
    ensures n <= 4 && n <= |s|
    ensures n > 0 ==> !IsTail(s[0]) && Tails(s, 1, n)
  {
    if s == [] then 0
    else if s[0] <= 0x7f then 1
    else if 0xc2 <= s[0] <= 0xdf && Tails(s, 1, 2) then 2
    else if 0xe0 <= s[0] <= 0xef && Tails(s, 1, 3) && SecondOk(s[0], s[1]) then 3
    else if 0xf0 <= s[0] <= 0xf4 && Tails(s, 1, 4) && SecondOk(s[0], s[1]) then 4
    else 0
  }

  /** No overlong form, no surrogate, nothing above U+10FFFF. */
  predicate SecondOk(first: byte, second: byte) {
    && (first == 0xe0 ==> second >= 0xa0) && (first == 0xed ==> second <= 0x9f)
    && (first == 0xf0 ==> second >= 0x90) && (first == 0xf4 ==> second <= 0x8f)
  }

  predicate WellFormed(s: seq<byte>)
    decreases |s|
  {
    s == [] || (CharLength(s) > 0 && WellFormed(s[CharLength(s)..]))
  }

  // ---- Characters as code points -------------------------------------------

  /** A Unicode scalar value: no surrogate, nothing above U+10FFFF. */
  predicate Scalar(c: nat) { c <= 0x10ffff && !(0xd800 <= c <= 0xdfff) }

  /** RFC 3629, section 3. */
  function Encoded(c: nat): (r: seq<byte>)
    requires Scalar(c)
  {
    if c <= 0x7f then [c]
    else if c <= 0x7ff then [0xc0 + c / 64, 0x80 + c % 64]
    else if c <= 0xffff then [0xe0 + c / 4096, 0x80 + c / 64 % 64, 0x80 + c % 64]
    else [0xf0 + c / 262144, 0x80 + c / 4096 % 64, 0x80 + c / 64 % 64, 0x80 + c % 64]
  }

  function EncodedAll(cs: seq<nat>): seq<byte>
    requires forall i :: 0 <= i < |cs| ==> Scalar(cs[i])
  {
    if cs == [] then [] else Encoded(cs[0]) + EncodedAll(cs[1..])
  }

  lemma EncodedIsCharacter(c: nat, rest: seq<byte>)
    requires Scalar(c)
    ensures CharLength(Encoded(c) + rest) == |Encoded(c)| > 0
  {
    var s := Encoded(c) + rest;
    assert forall i :: 0 <= i < |Encoded(c)| ==> s[i] == Encoded(c)[i];
    assert c / 64 / 64 == c / 4096 && c / 4096 / 64 == c / 262144;
  }

  /** The scalar value of the character that `s` starts with. */
  lemma CharacterIsEncoded(s: seq<byte>) returns (c: nat)
    requires CharLength(s) > 0
    ensures Scalar(c) && s[..CharLength(s)] == Encoded(c)
  {
    var n := CharLength(s);
    if n == 1 {
      c := s[0];
    } else if n == 2 {
      c := (s[0] as int - 0xc0) * 64 + (s[1] - 0x80);
      assert c / 64 == s[0] - 0xc0;
    } else if n == 3 {
      var high := (s[0] as int - 0xe0) * 64 + (s[1] - 0x80);
      c := high * 64 + (s[2] - 0x80);
      assert c / 64 == high && high / 64 == s[0] - 0xe0 && c / 4096 == c / 64 / 64;
    } else {
      var top := (s[0] as int - 0xf0) * 64 + (s[1] - 0x80);
      var high := top * 64 + (s[2] - 0x80);
      c := high * 64 + (s[3] - 0x80);
      assert c / 64 == high && high / 64 == top && top / 64 == s[0] - 0xf0;
      assert c / 4096 == c / 64 / 64 && c / 262144 == c / 4096 / 64;
    }
  }

  /** Well-formed text is exactly the encoding of some scalar values. */
  lemma {:induction false} EncodedIsWellFormed(cs: seq<nat>)
    requires forall i :: 0 <= i < |cs| ==> Scalar(cs[i])
    ensures WellFormed(EncodedAll(cs))
  {
    if cs != [] {
      var rest := EncodedAll(cs[1..]);
      EncodedIsCharacter(cs[0], rest);
      EncodedIsWellFormed(cs[1..]);
      assert (Encoded(cs[0]) + rest)[|Encoded(cs[0])|..] == rest;
    }
  }

  lemma {:induction false} WellFormedIsEncoded(s: seq<byte>) returns (cs: seq<nat>)
    requires WellFormed(s)
    ensures (forall i :: 0 <= i < |cs| ==> Scalar(cs[i])) && EncodedAll(cs) == s
    decreases |s|
  {
    hide CharLength, Encoded;
    cs := [];
    if s != [] {
      var n := CharLength(s);
      var c := CharacterIsEncoded(s);
      var rest := WellFormedIsEncoded(s[n..]);
      cs := [c] + rest;
      assert cs[1..] == rest && s == s[..n] + s[n..];
    }
  }

  /** Well-formed text may be cut before any octet that is not a continuation. */
  lemma {:induction false} CutBeforeCharacter(s: seq<byte>, k: nat)
    requires WellFormed(s) && k <= |s| && (k < |s| ==> !IsTail(s[k]))
    ensures WellFormed(s[..k]) && WellFormed(s[k..])
    decreases |s|
  {
    if k == 0 {
      assert s[k..] == s;
    } else {
      var n := CharLength(s);
      assert k >= n;
      assert s[n..][..k - n] == s[..k][n..] && s[n..][k - n..] == s[k..];
      CutBeforeCharacter(s[n..], k - n);
      assert CharLength(s[..k]) == n;
    }
  }

  /** Of four successive octets of well-formed text at least one starts a
      character. */
  lemma {:induction false} CharacterNearby(s: seq<byte>, k: nat) returns (j: nat)
    requires WellFormed(s) && k < |s|
    ensures j <= k < j + 4 && !IsTail(s[j])
    decreases |s|
  {
    var n := CharLength(s);
    if k < n {
      j := 0;
    } else {
      j := CharacterNearby(s[n..], k - n);
      j := j + n;
    }
  }

  // ---- Segments ------------------------------------------------------------

  function Joined(segments: seq<seq<byte>>): seq<byte> {
    if segments == [] then [] else Joined(segments[..|segments| - 1]) + segments[|segments| - 1]
  }

  /** The longest cut within the limit that is not before a continuation; the
      limit itself if there is none. */
  ghost predicate Cut(text: seq<byte>, offset: nat, chunk: nat)
    requires offset + MAX_LENGTH < |text| && 0 < chunk <= MAX_LENGTH
  {
    (!IsTail(text[offset + chunk]) && forall i :: offset + chunk < i <= offset + MAX_LENGTH ==> IsTail(text[i]))
    || (chunk == MAX_LENGTH && forall i :: offset < i <= offset + MAX_LENGTH ==> IsTail(text[i]))
  }

  method BackToCharacter(text: seq<byte>, offset: nat) returns (chunk: nat)
    requires offset + MAX_LENGTH < |text|
    ensures 0 < chunk <= MAX_LENGTH && Cut(text, offset, chunk)
  {
    chunk := MAX_LENGTH;
    while chunk > 0 && IsTail(text[offset + chunk])
      invariant 0 <= chunk <= MAX_LENGTH
      invariant forall i :: offset + chunk < i <= offset + MAX_LENGTH ==> IsTail(text[i])
    {
      chunk := chunk - 1;
    }
    if chunk == 0 {
      chunk := MAX_LENGTH;
    }
  }

  /** In well-formed text the cut falls between characters, close to the limit. */
  lemma CutIsGood(text: seq<byte>, offset: nat, chunk: nat)
    requires offset + MAX_LENGTH < |text| && 0 < chunk <= MAX_LENGTH && Cut(text, offset, chunk)
    requires WellFormed(text[offset..])
    ensures MAX_LENGTH - 4 < chunk && !IsTail(text[offset + chunk])
  {
    var rest := text[offset..];
    var j := CharacterNearby(rest, MAX_LENGTH);
    assert rest[j] == text[offset + j];
  }

  lemma SplitRest(text: seq<byte>, offset: nat, chunk: nat)
    requires offset + chunk <= |text| && WellFormed(text[offset..])
    requires offset + chunk < |text| ==> !IsTail(text[offset + chunk])
    ensures WellFormed(text[offset..offset + chunk]) && WellFormed(text[offset + chunk..])
  {
    var rest := text[offset..];
    CutBeforeCharacter(rest, chunk);
    assert rest[..chunk] == text[offset..offset + chunk] && rest[chunk..] == text[offset + chunk..];
  }

  /** The length of the next segment: the whole rest, or as much as fits without
      splitting a character. */
  method NextChunk(text: seq<byte>, offset: nat) returns (chunk: nat)
    requires offset < |text|
    ensures 0 < chunk <= MAX_LENGTH && offset + chunk <= |text|
    ensures WellFormed(text[offset..]) ==>
              WellFormed(text[offset..offset + chunk]) && WellFormed(text[offset + chunk..])
              && (offset + chunk < |text| ==> chunk > MAX_LENGTH - 4)
  {
    ghost var good := WellFormed(text[offset..]);
    chunk := |text| - offset;
    if chunk > MAX_LENGTH {
      chunk := BackToCharacter(text, offset);
      if good {
        CutIsGood(text, offset, chunk);
      }
    }
    if good {
      SplitRest(text, offset, chunk);
    }
  }

  ghost predicate Fit(segments: seq<seq<byte>>) {
    forall i :: 0 <= i < |segments| ==> 1 <= |segments[i]| <= 4000
  }

  ghost predicate AllWellFormed(segments: seq<seq<byte>>) {
    forall i :: 0 <= i < |segments| ==> WellFormed(segments[i])
  }

  /** The first `n` segments are nearly full. */
  ghost predicate Full(segments: seq<seq<byte>>, n: int)
    requires n <= |segments|
  {
    forall i :: 0 <= i < n ==> |segments[i]| >= 3997
  }

  lemma Appended(segments: seq<seq<byte>>, segment: seq<byte>, text: seq<byte>, offset: nat)
    requires offset + |segment| <= |text| && segment == text[offset..offset + |segment|]
    requires Joined(segments) == text[..offset] && Fit(segments) && 0 < |segment| <= MAX_LENGTH
    ensures Joined(segments + [segment]) == text[..offset + |segment|] && Fit(segments + [segment])
  {
    assert (segments + [segment])[..|segments|] == segments;
    assert text[..offset + |segment|] == text[..offset] + segment;
  }

  /** Nothing has been split yet, and `rest` is still to be sent. */
  ghost predicate Unsplit(segments: seq<seq<byte>>, rest: seq<byte>) {
    WellFormed(rest) && AllWellFormed(segments) && Full(segments, if rest == [] then |segments| - 1 else |segments|)
  }

  lemma StillUnsplit(segments: seq<seq<byte>>, segment: seq<byte>, before: seq<byte>, rest: seq<byte>)
    requires Unsplit(segments, before) && before != [] && WellFormed(segment) && WellFormed(rest)
    requires rest != [] ==> |segment| > MAX_LENGTH - 4
    ensures Unsplit(segments + [segment], rest)
  {
  }

  /** Any text, well-formed or not, is sent whole in non-empty segments that fit;
      of well-formed text every segment is well-formed, and all but the last are
      nearly full. */
  method SendMessageChunks(text: seq<byte>) returns (segments: seq<seq<byte>>)
    ensures Joined(segments) == text && Fit(segments)
    ensures WellFormed(text) ==> AllWellFormed(segments) && Full(segments, |segments| - 1)
  {
    hide CharLength;
    segments := [];
    var offset := 0;
    ghost var good := WellFormed(text);
    assert text[0..] == text;
    while offset < |text|
      invariant 0 <= offset <= |text| && Joined(segments) == text[..offset] && Fit(segments)
      invariant good ==> Unsplit(segments, text[offset..])
    {
      var chunk := NextChunk(text, offset);
      var segment := text[offset..offset + chunk];
      Appended(segments, segment, text, offset);
      if good {
        StillUnsplit(segments, segment, text[offset..], text[offset + chunk..]);
      }
      segments := segments + [segment];
      offset := offset + chunk;
    }
    assert text[..|text|] == text;
  }
}
