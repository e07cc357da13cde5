/** Conversion between 32-bit code points and UTF-8 (RFC 3629, section 3, and its older forms of up
    to six bytes). */
module Utf8 {
  import opened Sequences

  type byte = bv8

  /** The low eight bits, as a cast to an unsigned byte keeps them. */
  function Low8(c: bv32): byte {
    (c & 0xFF) as bv8
  }

  /** The bytes of one code point; a value of 32 bits is replaced by the byte 1. */
  function Encoded(c: bv32): (s: seq<byte>)
    ensures 1 <= |s| <= 6
  {
    if c < 0x80 then [Low8(c)]
    else if c < 0x800 then [Low8(0xC0 | (c >> 6)), Low8(0x80 | (c & 0x3F))]
    else if c <= 0xFFFF then
      [Low8(0xE0 | (c >> 12)), Low8(0x80 | ((c >> 6) & 0x3F)), Low8(0x80 | (c & 0x3F))]
    else if c <= 0x1FFFFF then
      [Low8(0xF0 | (c >> 18)), Low8(0x80 | ((c >> 12) & 0x3F)), Low8(0x80 | ((c >> 6) & 0x3F)), Low8(0x80 | (c & 0x3F))]
    else if c <= 0x3FFFFFF then
      [Low8(0xF8 | (c >> 24)), Low8(0x80 | (c >> 18)), Low8(0x80 | ((c >> 12) & 0x3F)),
       Low8(0x80 | ((c >> 6) & 0x3F)), Low8(0x80 | (c & 0x3F))]
    else if c <= 0x7FFFFFFF then
      [Low8(0xFC | (c >> 30)), Low8(0x80 | ((c >> 24) & 0x3F)), Low8(0x80 | ((c >> 18) & 0x3F)),
       Low8(0x80 | ((c >> 12) & 0x3F)), Low8(0x80 | ((c >> 6) & 0x3F)), Low8(0x80 | (c & 0x3F))]
    else [1]
  }

  predicate Continuation(b: byte) {
    b & 0xC0 == 0x80
  }

  /** What the decoder finds at the start of the bytes: how far it moves on and the code point. */
  datatype Decoded = Decoded(ok: bool, length: nat, c: bv32)

  const FAILURE := Decoded(false, 1, 0xFFFF)

  function Payload(b: byte): bv32 {
    (b & 0x3F) as bv32
  }

  /** The code points that sequences of two, three and four bytes stand for. */
  function Two(b0: byte, b1: byte): bv32 {
    Joined(0, 0, (b0 & 0x1F) as bv32, Payload(b1))
  }

  function Three(b0: byte, b1: byte, b2: byte): bv32 {
    Joined(0, (b0 & 0xF) as bv32, Payload(b1), Payload(b2))
  }

  function Four(b0: byte, b1: byte, b2: byte, b3: byte): bv32 {
    Joined((b0 & 0x7) as bv32, Payload(b1), Payload(b2), Payload(b3))
  }

  /** Groups of six bits, the highest first. */
  function Joined(x: bv32, y: bv32, z: bv32, w: bv32): bv32 {
    (x << 18) | (y << 12) | (z << 6) | w
  }

  function Decode(s: seq<byte>): Decoded {
    if s == [] then FAILURE
    else if s[0] < 0x80 then Decoded(true, 1, s[0] as bv32)
    else if s[0] & 0xC0 != 0xC0 then FAILURE
    else if s[0] & 0xE0 == 0xC0 then
      if |s| < 2 then FAILURE
      else
        var c := Two(s[0], s[1]);
        if Continuation(s[1]) && 0x80 <= c < 0x800 then Decoded(true, 2, c) else FAILURE
    else if s[0] & 0xF0 == 0xE0 then
      if |s| < 3 then FAILURE
      else
        var c := Three(s[0], s[1], s[2]);
        if Continuation(s[1]) && Continuation(s[2]) && 0x800 <= c < 0x10000 then Decoded(true, 3, c) else FAILURE
    else if s[0] & 0xF8 == 0xF0 then
      if |s| < 4 then FAILURE
      else
        var c := Four(s[0], s[1], s[2], s[3]);
        if Continuation(s[1]) && Continuation(s[2]) && 0x10000 <= c <= 0x10FFFF then Decoded(true, 4, c) else FAILURE
    else if s[0] & 0xFC == 0xF8 then
      if |s| < 4 then FAILURE else Decoded(true, 4, 0xFFFF)
    else if s[0] & 0xFE == 0xFC then
      if |s| < 5 then FAILURE else Decoded(true, 5, 0xFFFF)
    else FAILURE
  }

  /** The decoder always moves on, and not beyond the end. */
  lemma DecodeAdvances(s: seq<byte>)
    ensures Decode(s).length >= 1
    ensures s != [] ==> Decode(s).length <= |s|
  {
  }

  /** The syntax of section 4 of RFC 3629, but with surrogates, with any fourth byte and with the lead bytes the
      decoder leaves unfinished: which bytes are taken as one code point, and how many of them. */
  predicate Admitted(s: seq<byte>, n: nat) {
    s != [] &&
    match n
    case 1 => s[0] <= 0x7F
    case 2 => |s| >= 2 && 0xC2 <= s[0] <= 0xDF && 0x80 <= s[1] <= 0xBF
    case 3 =>
      && |s| >= 3 && 0xE0 <= s[0] <= 0xEF && (if s[0] == 0xE0 then 0xA0 else 0x80) <= s[1] <= 0xBF
      && 0x80 <= s[2] <= 0xBF
    case 4 =>
      && |s| >= 4
      && (0xF8 <= s[0] <= 0xFB
          || (&& 0xF0 <= s[0] <= 0xF4 && 0x80 <= s[2] <= 0xBF
              && (if s[0] == 0xF0 then 0x90 else 0x80) <= s[1] <= (if s[0] == 0xF4 then 0x8F else 0xBF)))
    case 5 => |s| >= 5 && 0xFC <= s[0] <= 0xFD
    case _ => false
  }

  lemma DecoderAccepts(s: seq<byte>, n: nat)
    ensures Decode(s).ok && Decode(s).length == n <==> Admitted(s, n)
  {
    if s != [] {
      LeadBytes(s[0]);
      if |s| >= 2 && 0xC0 <= s[0] <= 0xDF {
        AcceptedTwo(s[0], s[1]);
      }
      if |s| >= 3 && 0xE0 <= s[0] <= 0xEF {
        AcceptedThree(s[0], s[1], s[2]);
      }
      if |s| >= 4 && 0xF0 <= s[0] <= 0xF7 {
        AcceptedFour(s[0], s[1], s[2], s[3]);
      }
    }
    hide Two, Three, Four, Continuation;
  }

  lemma LeadBytes(b: byte)
    ensures b & 0xC0 != 0xC0 <==> b < 0xC0
    ensures b & 0xE0 == 0xC0 <==> 0xC0 <= b <= 0xDF
    ensures b & 0xF0 == 0xE0 <==> 0xE0 <= b <= 0xEF
    ensures b & 0xF8 == 0xF0 <==> 0xF0 <= b <= 0xF7
    ensures b & 0xFC == 0xF8 <==> 0xF8 <= b <= 0xFB
    ensures b & 0xFE == 0xFC <==> 0xFC <= b <= 0xFD
    ensures Continuation(b) <==> 0x80 <= b <= 0xBF
  {
  }

  lemma AcceptedTwo(b0: byte, b1: byte)
    requires 0xC0 <= b0 <= 0xDF
    ensures Continuation(b1) && 0x80 <= Two(b0, b1) < 0x800 <==> 0xC2 <= b0 && 0x80 <= b1 <= 0xBF
  {
  }

  lemma AcceptedThree(b0: byte, b1: byte, b2: byte)
    requires 0xE0 <= b0 <= 0xEF
    ensures Continuation(b1) && Continuation(b2) && 0x800 <= Three(b0, b1, b2) < 0x10000
       <==> (if b0 == 0xE0 then 0xA0 else 0x80) <= b1 <= 0xBF && 0x80 <= b2 <= 0xBF
  {
  }

  lemma AcceptedFour(b0: byte, b1: byte, b2: byte, b3: byte)
    requires 0xF0 <= b0 <= 0xF7
    ensures Continuation(b1) && Continuation(b2) && 0x10000 <= Four(b0, b1, b2, b3) <= 0x10FFFF
       <==> b0 <= 0xF4 && 0x80 <= b2 <= 0xBF
            && (if b0 == 0xF0 then 0x90 else 0x80) <= b1 <= (if b0 == 0xF4 then 0x8F else 0xBF)
  {
  }

  // Values above the code points, which the decoder does not give back.

  /** Four, five and six bytes carry the value, the lead byte tells how many there are, and the others continue it,
      but for the second of five bytes, whose high bits keep bit 24 of the value. */
  lemma LongForms(c: bv32)
    requires c > 0xFFFF
    ensures var s := Encoded(c);
      && (c <= 0x1FFFFF ==> |s| == 4 && CarriedByFour(c, s[0], s[1], s[2], s[3]))
      && (0x1FFFFF < c <= 0x3FFFFFF ==> |s| == 5 && CarriedByFive(c, s[0], s[1], s[2], s[3], s[4]))
      && (0x3FFFFFF < c <= 0x7FFFFFFF ==> |s| == 6 && CarriedBySix(c, s[0], s[1], s[2], s[3], s[4], s[5]))
      && (c > 0x7FFFFFFF ==> s == [1])
  {
    hide CarriedByFour, CarriedByFive, CarriedBySix, Low8;
    if c <= 0x1FFFFF {
      LongFour(c);
    } else if c <= 0x3FFFFFF {
      LongFive(c);
    } else if c <= 0x7FFFFFFF {
      LongSix(c);
    }
  }

  predicate CarriedByFour(c: bv32, b0: byte, b1: byte, b2: byte, b3: byte) {
    && b0 & 0xF8 == 0xF0 && Continuation(b1) && Continuation(b2) && Continuation(b3)
    && c == Joined((b0 & 0x7) as bv32, Payload(b1), Payload(b2), Payload(b3))
  }

  predicate CarriedByFive(c: bv32, b0: byte, b1: byte, b2: byte, b3: byte, b4: byte) {
    && b0 & 0xFC == 0xF8 && b1 & 0x80 == 0x80 && (b1 & 0x40 == 0 <==> c & 0x1000000 == 0)
    && Continuation(b2) && Continuation(b3) && Continuation(b4)
    && c == (((b0 & 0x3) as bv32) << 24) | Joined(Payload(b1), Payload(b2), Payload(b3), Payload(b4))
  }

  predicate CarriedBySix(c: bv32, b0: byte, b1: byte, b2: byte, b3: byte, b4: byte, b5: byte) {
    && b0 & 0xFE == 0xFC && Continuation(b1)
    && Continuation(b2) && Continuation(b3) && Continuation(b4) && Continuation(b5)
    && c == (((b0 & 0x1) as bv32) << 30) | (Payload(b1) << 24)
            | Joined(Payload(b2), Payload(b3), Payload(b4), Payload(b5))
  }

  lemma LongFour(c: bv32)
    requires 0xFFFF < c <= 0x1FFFFF
    ensures CarriedByFour(c, Low8(0xF0 | (c >> 18)), Low8(0x80 | ((c >> 12) & 0x3F)), Low8(0x80 | ((c >> 6) & 0x3F)),
                      Low8(0x80 | (c & 0x3F)))
  {
  }

  lemma LongFive(c: bv32)
    requires 0x1FFFFF < c <= 0x3FFFFFF
    ensures CarriedByFive(c, Low8(0xF8 | (c >> 24)), Low8(0x80 | (c >> 18)), Low8(0x80 | ((c >> 12) & 0x3F)),
                      Low8(0x80 | ((c >> 6) & 0x3F)), Low8(0x80 | (c & 0x3F)))
  {
  }

  lemma LongSix(c: bv32)
    requires 0x3FFFFFF < c <= 0x7FFFFFFF
    ensures CarriedBySix(c, Low8(0xFC | (c >> 30)), Low8(0x80 | ((c >> 24) & 0x3F)), Low8(0x80 | ((c >> 18) & 0x3F)),
                     Low8(0x80 | ((c >> 12) & 0x3F)), Low8(0x80 | ((c >> 6) & 0x3F)), Low8(0x80 | (c & 0x3F)))
  {
  }

  // The bits that the bytes carry.

  lemma CarriedTail(x: bv32)
    requires x <= 0x3F
    ensures Payload(Low8(0x80 | x)) == x && Continuation(Low8(0x80 | x))
  {
  }

  lemma CarriedLead(x: bv32)
    ensures x <= 0x1F ==> Low8(0xC0 | x) & 0xE0 == 0xC0 && (Low8(0xC0 | x) & 0x1F) as bv32 == x
    ensures x <= 0xF ==> Low8(0xE0 | x) & 0xF0 == 0xE0 && (Low8(0xE0 | x) & 0xF) as bv32 == x
    ensures x <= 0x7 ==> Low8(0xF0 | x) & 0xF8 == 0xF0 && (Low8(0xF0 | x) & 0x7) as bv32 == x
  {
  }

  lemma Rejoined2(c: bv32)
    requires c < 0x800
    ensures c >> 6 <= 0x1F && c & 0x3F <= 0x3F && Joined(0, 0, c >> 6, c & 0x3F) == c
  {
  }

  lemma Rejoined3(c: bv32)
    requires c <= 0xFFFF
    ensures c >> 12 <= 0xF && (c >> 6) & 0x3F <= 0x3F && c & 0x3F <= 0x3F
    ensures Joined(0, c >> 12, (c >> 6) & 0x3F, c & 0x3F) == c
  {
  }

  lemma Rejoined4(c: bv32)
    requires c <= 0x1FFFFF
    ensures c >> 18 <= 0x7 && (c >> 12) & 0x3F <= 0x3F && (c >> 6) & 0x3F <= 0x3F && c & 0x3F <= 0x3F
    ensures Joined(c >> 18, (c >> 12) & 0x3F, (c >> 6) & 0x3F, c & 0x3F) == c
  {
  }

  /** A lead byte is of one kind only. */
  lemma LeadKinds(b: byte)
    ensures b & 0xE0 == 0xC0 ==> b >= 0x80 && b & 0xC0 == 0xC0
    ensures b & 0xF0 == 0xE0 ==> b >= 0x80 && b & 0xC0 == 0xC0 && b & 0xE0 != 0xC0
    ensures b & 0xF8 == 0xF0 ==> b >= 0x80 && b & 0xC0 == 0xC0 && b & 0xE0 != 0xC0 && b & 0xF0 != 0xE0
  {
  }

  lemma DecodeTwo(s: seq<byte>, c: bv32)
    requires |s| >= 2 && s[0] & 0xE0 == 0xC0 && Continuation(s[1]) && Two(s[0], s[1]) == c && 0x80 <= c < 0x800
    ensures Decode(s) == Decoded(true, 2, c)
  {
    hide Continuation, Two;
    LeadKinds(s[0]);
  }

  lemma DecodeThree(s: seq<byte>, c: bv32)
    requires |s| >= 3 && s[0] & 0xF0 == 0xE0 && Continuation(s[1]) && Continuation(s[2])
    requires Three(s[0], s[1], s[2]) == c && 0x800 <= c < 0x10000
    ensures Decode(s) == Decoded(true, 3, c)
  {
    hide Continuation, Three;
    LeadKinds(s[0]);
  }

  lemma DecodeFour(s: seq<byte>, c: bv32)
    requires |s| >= 4 && s[0] & 0xF8 == 0xF0 && Continuation(s[1]) && Continuation(s[2])
    requires Four(s[0], s[1], s[2], s[3]) == c && 0x10000 <= c <= 0x10FFFF
    ensures Decode(s) == Decoded(true, 4, c)
  {
    hide Continuation, Four;
    LeadKinds(s[0]);
  }

  /** Bytes made of groups of bits stand for the groups joined. */
  lemma Groups3(x: bv32, y: bv32, z: bv32)
    requires x <= 0xF && y <= 0x3F && z <= 0x3F
    ensures var b0, b1, b2 := Low8(0xE0 | x), Low8(0x80 | y), Low8(0x80 | z);
      b0 & 0xF0 == 0xE0 && Continuation(b1) && Continuation(b2) && Three(b0, b1, b2) == Joined(0, x, y, z)
  {
    hide Low8, Payload, Continuation, Joined;
    CarriedLead(x);
    CarriedTail(y);
    CarriedTail(z);
  }

  lemma Groups4(x: bv32, y: bv32, z: bv32, w: bv32)
    requires x <= 0x7 && y <= 0x3F && z <= 0x3F && w <= 0x3F
    ensures var b0, b1, b2, b3 := Low8(0xF0 | x), Low8(0x80 | y), Low8(0x80 | z), Low8(0x80 | w);
      && b0 & 0xF8 == 0xF0 && Continuation(b1) && Continuation(b2) && Continuation(b3)
      && Four(b0, b1, b2, b3) == Joined(x, y, z, w)
  {
    hide Low8, Payload, Continuation, Joined;
    CarriedLead(x);
    CarriedTail(y);
    CarriedTail(z);
    CarriedTail(w);
  }

  lemma Layout3(c: bv32)
    requires 0x800 <= c <= 0xFFFF
    ensures Encoded(c) == [Low8(0xE0 | (c >> 12)), Low8(0x80 | ((c >> 6) & 0x3F)), Low8(0x80 | (c & 0x3F))]
  {
    hide Low8;
  }

  lemma Layout4(c: bv32)
    requires 0x10000 <= c <= 0x1FFFFF
    ensures Encoded(c) == [Low8(0xF0 | (c >> 18)), Low8(0x80 | ((c >> 12) & 0x3F)), Low8(0x80 | ((c >> 6) & 0x3F)),
                           Low8(0x80 | (c & 0x3F))]
  {
    hide Low8;
  }

  lemma Bytes4(c: bv32) returns (b0: byte, b1: byte, b2: byte, b3: byte)
    requires 0x10000 <= c <= 0x10FFFF
    ensures Encoded(c) == [b0, b1, b2, b3] && b0 & 0xF8 == 0xF0
    ensures Continuation(b1) && Continuation(b2) && Continuation(b3) && Four(b0, b1, b2, b3) == c
  {
    var x, y, z, w := c >> 18, (c >> 12) & 0x3F, (c >> 6) & 0x3F, c & 0x3F;
    b0, b1, b2, b3 := Low8(0xF0 | x), Low8(0x80 | y), Low8(0x80 | z), Low8(0x80 | w);
    Layout4(c);
    Rejoined4(c);
    Groups4(x, y, z, w);
    hide *;
  }

  lemma Bytes2(c: bv32) returns (b0: byte, b1: byte)
    requires 0x80 <= c < 0x800
    ensures Encoded(c) == [b0, b1] && b0 & 0xE0 == 0xC0 && Continuation(b1) && Two(b0, b1) == c
  {
    b0, b1 := Low8(0xC0 | (c >> 6)), Low8(0x80 | (c & 0x3F));
    assert Encoded(c) == [b0, b1];
    hide Encoded, Low8, Payload, Continuation, Joined;
    Rejoined2(c);
    CarriedLead(c >> 6);
    CarriedTail(c & 0x3F);
  }

  lemma Bytes3(c: bv32) returns (b0: byte, b1: byte, b2: byte)
    requires 0x800 <= c <= 0xFFFF
    ensures Encoded(c) == [b0, b1, b2]
    ensures b0 & 0xF0 == 0xE0 && Continuation(b1) && Continuation(b2) && Three(b0, b1, b2) == c
  {
    var x, y, z := c >> 12, (c >> 6) & 0x3F, c & 0x3F;
    b0, b1, b2 := Low8(0xE0 | x), Low8(0x80 | y), Low8(0x80 | z);
    Layout3(c);
    Rejoined3(c);
    Groups3(x, y, z);
    hide *;
  }

  lemma RoundTrip2(c: bv32, rest: seq<byte>)
    requires 0x80 <= c < 0x800
    ensures Decode(Encoded(c) + rest) == Decoded(true, |Encoded(c)|, c)
  {
    hide *;
    var b0, b1 := Bytes2(c);
    DecodeTwo([b0, b1] + rest, c);
  }

  lemma RoundTrip3(c: bv32, rest: seq<byte>)
    requires 0x800 <= c <= 0xFFFF
    ensures Decode(Encoded(c) + rest) == Decoded(true, |Encoded(c)|, c)
  {
    hide *;
    var b0, b1, b2 := Bytes3(c);
    DecodeThree([b0, b1, b2] + rest, c);
  }

  lemma RoundTrip4(c: bv32, rest: seq<byte>)
    requires 0x10000 <= c <= 0x10FFFF
    ensures Decode(Encoded(c) + rest) == Decoded(true, |Encoded(c)|, c)
  {
    hide *;
    var b0, b1, b2, b3 := Bytes4(c);
    DecodeFour([b0, b1, b2, b3] + rest, c);
  }

  /** Every code point of Unicode survives encoding and decoding, whatever follows. */
  lemma RoundTrip(c: bv32, rest: seq<byte>)
    requires c <= 0x10FFFF
    ensures Decode(Encoded(c) + rest) == Decoded(true, |Encoded(c)|, c)
  {
    if c < 0x80 {
    } else {
      hide Encoded, Decode;
      if c < 0x800 {
        RoundTrip2(c, rest);
      } else if c <= 0xFFFF {
        RoundTrip3(c, rest);
      } else {
        RoundTrip4(c, rest);
      }
    }
  }

  // The other direction.

  lemma Split2(b0: byte, b1: byte)
    requires b0 & 0xE0 == 0xC0 && Continuation(b1)
    ensures var c := Two(b0, b1); Low8(0xC0 | (c >> 6)) == b0 && Low8(0x80 | (c & 0x3F)) == b1
  {
  }

  lemma Split3(b0: byte, b1: byte, b2: byte)
    requires b0 & 0xF0 == 0xE0 && Continuation(b1) && Continuation(b2)
    ensures var c := Three(b0, b1, b2);
      Low8(0xE0 | (c >> 12)) == b0 && Low8(0x80 | ((c >> 6) & 0x3F)) == b1 && Low8(0x80 | (c & 0x3F)) == b2
  {
  }

  lemma Split4(b0: byte, b1: byte, b2: byte, b3: byte)
    requires b0 & 0xF8 == 0xF0 && Continuation(b1) && Continuation(b2)
    ensures var c := Four(b0, b1, b2, b3);
      && Low8(0xF0 | (c >> 18)) == b0 && Low8(0x80 | ((c >> 12) & 0x3F)) == b1 && Low8(0x80 | ((c >> 6) & 0x3F)) == b2
      && (Low8(0x80 | (c & 0x3F)) == b3 <==> Continuation(b3))
  {
  }

  lemma Layout2(c: bv32)
    requires 0x80 <= c < 0x800
    ensures Encoded(c) == [Low8(0xC0 | (c >> 6)), Low8(0x80 | (c & 0x3F))]
  {
    hide Low8;
  }

  /** The lead bytes the decoder accepts without reading what they stand for. */
  predicate Unfinished(b: byte) {
    b & 0xFC == 0xF8 || b & 0xFE == 0xFC
  }

  /** Why the decoder accepts. */
  lemma Accepted(s: seq<byte>)
    requires Decode(s).ok
    ensures s != [] && var d := Decode(s);
      || (s[0] < 0x80 && d == Decoded(true, 1, s[0] as bv32))
      || (|s| >= 2 && s[0] & 0xE0 == 0xC0 && Continuation(s[1]) && d == Decoded(true, 2, Two(s[0], s[1]))
          && 0x80 <= d.c < 0x800)
      || (|s| >= 3 && s[0] & 0xF0 == 0xE0 && Continuation(s[1]) && Continuation(s[2])
          && d == Decoded(true, 3, Three(s[0], s[1], s[2])) && 0x800 <= d.c < 0x10000)
      || (|s| >= 4 && s[0] & 0xF8 == 0xF0 && Continuation(s[1]) && Continuation(s[2])
          && d == Decoded(true, 4, Four(s[0], s[1], s[2], s[3])) && 0x10000 <= d.c <= 0x10FFFF)
      || (|s| >= d.length >= 4 && Unfinished(s[0]) && d.c == 0xFFFF)
  {
    hide Continuation, Two, Three, Four;
  }

  lemma KindOfLead(b: byte)
    ensures b < 0x80 ==> !Unfinished(b) && Encoded(b as bv32) == [b]
    ensures b & 0xE0 == 0xC0 || b & 0xF0 == 0xE0 || b & 0xF8 == 0xF0 ==> b >= 0x80 && !Unfinished(b)
    ensures Unfinished(b) ==> b >= 0x80
  {
  }

  lemma Prefixes(s: seq<byte>)
    ensures |s| >= 2 ==> s[..2] == [s[0], s[1]]
    ensures |s| >= 3 ==> s[..3] == [s[0], s[1], s[2]]
    ensures |s| >= 4 ==> s[..4] == [s[0], s[1], s[2], s[3]]
  {
  }

  /** Four bytes that agree with s but for the last one. */
  lemma LastDiffers(e: seq<byte>, s: seq<byte>, x: byte)
    requires |s| >= 4 && e == [s[0], s[1], s[2], x]
    ensures e == s[..4] <==> x == s[3]
  {
    assert e[3] == x && s[..4][3] == s[3];
  }

  lemma ReEncodeTwo(s: seq<byte>)
    requires |s| >= 2 && s[0] & 0xE0 == 0xC0 && Continuation(s[1]) && 0x80 <= Two(s[0], s[1]) < 0x800
    ensures Encoded(Two(s[0], s[1])) == s[..2]
  {
    hide *;
    Split2(s[0], s[1]);
    Layout2(Two(s[0], s[1]));
    Prefixes(s);
  }

  lemma ReEncodeThree(s: seq<byte>)
    requires |s| >= 3 && s[0] & 0xF0 == 0xE0 && Continuation(s[1]) && Continuation(s[2])
    requires 0x800 <= Three(s[0], s[1], s[2]) < 0x10000
    ensures Encoded(Three(s[0], s[1], s[2])) == s[..3]
  {
    hide *;
    Split3(s[0], s[1], s[2]);
    Layout3(Three(s[0], s[1], s[2]));
    Prefixes(s);
  }

  lemma LastByte(s: seq<byte>, c: bv32) returns (last: byte)
    requires |s| >= 4 && s[0] & 0xF8 == 0xF0 && Continuation(s[1]) && Continuation(s[2])
    requires c == Four(s[0], s[1], s[2], s[3]) && 0x10000 <= c <= 0x10FFFF
    ensures Encoded(c) == [s[0], s[1], s[2], last] && (last == s[3] <==> Continuation(s[3]))
  {
    hide *;
    last := Low8(0x80 | (c & 0x3F));
    Split4(s[0], s[1], s[2], s[3]);
    Layout4(c);
  }

  lemma ReEncodeFour(s: seq<byte>)
    requires |s| >= 4 && s[0] & 0xF8 == 0xF0 && Continuation(s[1]) && Continuation(s[2])
    requires 0x10000 <= Four(s[0], s[1], s[2], s[3]) <= 0x10FFFF
    ensures Encoded(Four(s[0], s[1], s[2], s[3])) == s[..4] <==> Continuation(s[3])
  {
    hide *;
    var c := Four(s[0], s[1], s[2], s[3]);
    var last := LastByte(s, c);
    LastDiffers(Encoded(c), s, last);
  }

  /** What the decoder accepts re-encodes to the same bytes, except after an unfinished lead byte and
      when the last of four bytes, which it does not check, is no continuation. */
  lemma ReEncode(s: seq<byte>)
    requires Decode(s).ok
    ensures var d := Decode(s);
      && s != [] && d.length <= |s|
      && (Encoded(d.c) == s[..d.length] <==>
          !Unfinished(s[0]) && (s[0] & 0xF8 == 0xF0 ==> |s| > 3 && Continuation(s[3])))
  {
    Accepted(s);
    DecodeAdvances(s);
    KindOfLead(s[0]);
    hide *;
    var d := Decode(s);
    if Unfinished(s[0]) {
      Layout3(0xFFFF);
    } else if d.length == 2 {
      ReEncodeTwo(s);
    } else if d.length == 3 {
      ReEncodeThree(s);
    } else if d.length == 4 {
      ReEncodeFour(s);
    }
  }

  /** Two inputs that are accepted and encoded otherwise: a last byte that is no continuation, and an
      unfinished lead byte. */
  lemma ReEncodedOtherwise()
    ensures var s: seq<byte> := [0xF0, 0x90, 0x80, 0x00];
      Decode(s) == Decoded(true, 4, 0x10000) && Encoded(0x10000) == [0xF0, 0x90, 0x80, 0x80] && Encoded(0x10000) != s
    ensures var s: seq<byte> := [0xF8, 0x80, 0x80, 0x80];
      Decode(s) == Decoded(true, 4, 0xFFFF) && Encoded(0xFFFF) == [0xEF, 0xBF, 0xBF]
  {
    var s: seq<byte>, t: seq<byte> := [0xF0, 0x90, 0x80, 0x00], [0xF0, 0x90, 0x80, 0x80];
    assert s[3] != t[3];
  }

  // The converters, on buffers and cursors.

  /** UCS4ToUTF8: write the bytes of c at the cursor, at most six, and move it on. */
  method UCS4ToUTF8(c: bv32, buffer: array<byte>, p: nat) returns (next: nat, ok: bool)
    requires p + 6 <= buffer.Length
    modifies buffer
    ensures next == p + |Encoded(c)| && buffer[p..next] == Encoded(c) && (ok <==> c <= 0x7FFFFFFF)
    ensures forall k :: 0 <= k < p || next <= k < buffer.Length ==> buffer[k] == old(buffer[k])
  {
    hide *;
    next, ok := p, true;
    assert buffer[p..next] == [];
    if c < 0x80 {
      Layout1(c);
      next := Put(buffer, next, Low8(c), p);
    } else if c < 0x800 {
      Layout2(c);
      next := Put(buffer, next, Low8(0xC0 | (c >> 6)), p);
      next := Put(buffer, next, Low8(0x80 | (c & 0x3F)), p);
      OneByOne(Low8(0xC0 | (c >> 6)), Low8(0x80 | (c & 0x3F)), 0, 0, 0, 0);
    } else if c <= 0xFFFF {
      Layout3(c);
      next := Put(buffer, next, Low8(0xE0 | (c >> 12)), p);
      next := Put(buffer, next, Low8(0x80 | ((c >> 6) & 0x3F)), p);
      next := Put(buffer, next, Low8(0x80 | (c & 0x3F)), p);
      OneByOne(Low8(0xE0 | (c >> 12)), Low8(0x80 | ((c >> 6) & 0x3F)), Low8(0x80 | (c & 0x3F)), 0, 0, 0);
    } else if c <= 0x1FFFFF {
      next := FourBytes(c, buffer, p);
    } else {
      next, ok := ExtendedToUTF8(c, buffer, p);
    }
  }

  lemma Layout1(c: bv32)
    requires c < 0x80
    ensures Encoded(c) == [] + [Low8(c)]
  {
    hide Low8;
  }

  method FourBytes(c: bv32, buffer: array<byte>, p: nat) returns (next: nat)
    requires p + 4 <= buffer.Length && 0xFFFF < c <= 0x1FFFFF
    modifies buffer
    ensures next == p + |Encoded(c)| && buffer[p..next] == Encoded(c)
    ensures forall k :: 0 <= k < p || next <= k < buffer.Length ==> buffer[k] == old(buffer[k])
  {
    hide *;
    Layout4(c);
    next := p;
    assert buffer[p..next] == [];
    next := Put(buffer, next, Low8(0xF0 | (c >> 18)), p);
    next := Put(buffer, next, Low8(0x80 | ((c >> 12) & 0x3F)), p);
    next := Put(buffer, next, Low8(0x80 | ((c >> 6) & 0x3F)), p);
    next := Put(buffer, next, Low8(0x80 | (c & 0x3F)), p);
    OneByOne(Low8(0xF0 | (c >> 18)), Low8(0x80 | ((c >> 12) & 0x3F)), Low8(0x80 | ((c >> 6) & 0x3F)),
             Low8(0x80 | (c & 0x3F)), 0, 0);
  }

  /** The forms of five and six bytes, and the values that have none. */
  method ExtendedToUTF8(c: bv32, buffer: array<byte>, p: nat) returns (next: nat, ok: bool)
    requires p + 6 <= buffer.Length && c > 0x1FFFFF
    modifies buffer
    ensures next == p + |Encoded(c)| && buffer[p..next] == Encoded(c) && (ok <==> c <= 0x7FFFFFFF)
    ensures forall k :: 0 <= k < p || next <= k < buffer.Length ==> buffer[k] == old(buffer[k])
  {
    hide Low8;
    ok := true;
    if c <= 0x3FFFFFF {
      next := FiveBytes(c, buffer, p);
    } else if c <= 0x7FFFFFFF {
      next := SixBytes(c, buffer, p);
    } else {
      assert buffer[p..p] == [];
      next := Put(buffer, p, 1, p);
      ok := false;
    }
  }

  lemma Layout5(c: bv32)
    requires 0x1FFFFF < c <= 0x3FFFFFF
    ensures Encoded(c) == [Low8(0xF8 | (c >> 24)), Low8(0x80 | (c >> 18)), Low8(0x80 | ((c >> 12) & 0x3F)),
                           Low8(0x80 | ((c >> 6) & 0x3F)), Low8(0x80 | (c & 0x3F))]
  {
    hide Low8;
  }

  lemma Layout6(c: bv32)
    requires 0x3FFFFFF < c <= 0x7FFFFFFF
    ensures Encoded(c) == [Low8(0xFC | (c >> 30)), Low8(0x80 | ((c >> 24) & 0x3F)), Low8(0x80 | ((c >> 18) & 0x3F)),
                           Low8(0x80 | ((c >> 12) & 0x3F)), Low8(0x80 | ((c >> 6) & 0x3F)), Low8(0x80 | (c & 0x3F))]
  {
    hide Low8;
  }

  method FiveBytes(c: bv32, buffer: array<byte>, p: nat) returns (next: nat)
    requires p + 5 <= buffer.Length && 0x1FFFFF < c <= 0x3FFFFFF
    modifies buffer
    ensures next == p + |Encoded(c)| && buffer[p..next] == Encoded(c)
    ensures forall k :: 0 <= k < p || next <= k < buffer.Length ==> buffer[k] == old(buffer[k])
  {
    hide *;
    Layout5(c);
    next := p;
    assert buffer[p..next] == [];
    next := Put(buffer, next, Low8(0xF8 | (c >> 24)), p);
    next := Put(buffer, next, Low8(0x80 | (c >> 18)), p);
    next := Put(buffer, next, Low8(0x80 | ((c >> 12) & 0x3F)), p);
    next := Put(buffer, next, Low8(0x80 | ((c >> 6) & 0x3F)), p);
    next := Put(buffer, next, Low8(0x80 | (c & 0x3F)), p);
    OneByOne(Low8(0xF8 | (c >> 24)), Low8(0x80 | (c >> 18)), Low8(0x80 | ((c >> 12) & 0x3F)),
             Low8(0x80 | ((c >> 6) & 0x3F)), Low8(0x80 | (c & 0x3F)), 0);
  }

  method SixBytes(c: bv32, buffer: array<byte>, p: nat) returns (next: nat)
    requires p + 6 <= buffer.Length && 0x3FFFFFF < c <= 0x7FFFFFFF
    modifies buffer
    ensures next == p + |Encoded(c)| && buffer[p..next] == Encoded(c)
    ensures forall k :: 0 <= k < p || next <= k < buffer.Length ==> buffer[k] == old(buffer[k])
  {
    hide *;
    Layout6(c);
    next := p;
    assert buffer[p..next] == [];
    next := Put(buffer, next, Low8(0xFC | (c >> 30)), p);
    next := Put(buffer, next, Low8(0x80 | ((c >> 24) & 0x3F)), p);
    next := Put(buffer, next, Low8(0x80 | ((c >> 18) & 0x3F)), p);
    next := Put(buffer, next, Low8(0x80 | ((c >> 12) & 0x3F)), p);
    next := Put(buffer, next, Low8(0x80 | ((c >> 6) & 0x3F)), p);
    next := Put(buffer, next, Low8(0x80 | (c & 0x3F)), p);
    OneByOne(Low8(0xFC | (c >> 30)), Low8(0x80 | ((c >> 24) & 0x3F)), Low8(0x80 | ((c >> 18) & 0x3F)),
             Low8(0x80 | ((c >> 12) & 0x3F)), Low8(0x80 | ((c >> 6) & 0x3F)), Low8(0x80 | (c & 0x3F)));
  }

  lemma OneByOne(a: byte, b: byte, c: byte, d: byte, e: byte, f: byte)
    ensures [] + [a] + [b] == [a, b] && [] + [a] + [b] + [c] == [a, b, c] && [] + [a] + [b] + [c] + [d] == [a, b, c, d]
    ensures [] + [a] + [b] + [c] + [d] + [e] == [a, b, c, d, e]
    ensures [] + [a] + [b] + [c] + [d] + [e] + [f] == [a, b, c, d, e, f]
  {
  }

  /** *p++ = b */
  method Put(buffer: array<byte>, p: nat, b: byte, ghost start: nat) returns (next: nat)
    requires start <= p < buffer.Length
    modifies buffer
    ensures next == p + 1 && buffer[start..next] == old(buffer[start..p]) + [b]
    ensures forall k :: 0 <= k < buffer.Length && k != p ==> buffer[k] == old(buffer[k])
  {
    buffer[p] := b;
    next := p + 1;
  }

  /** UTF8ToUCS4: the code point at the cursor, which moves on by its bytes, or by one on failure. */
  method UTF8ToUCS4(src: seq<byte>, p: nat) returns (next: nat, result: bv32, success: bool)
    requires p <= |src|
    ensures var d := Decode(src[p..]); next == p + d.length && result == d.c && success == d.ok
  {
    hide Continuation, Two, Three, Four;
    var c: bv32 := 0xFFFF;
    var n := p;
    success := true;
    if p < |src| {
      var b := src[p];
      if b < 0x80 {
        n, c := p + 1, b as bv32;
      } else if b & 0xC0 != 0xC0 {
        success := false;
      } else if b & 0xE0 == 0xC0 {
        n := p + 2;
        if n <= |src| {
          c := Two(b, src[p + 1]);
          if !Continuation(src[p + 1]) || !(0x80 <= c < 0x800) {
            success := false;
          }
        } else {
          success := false;
        }
      } else if b & 0xF0 == 0xE0 {
        n := p + 3;
        if n <= |src| {
          c := Three(b, src[p + 1], src[p + 2]);
          if !Continuation(src[p + 1]) || !Continuation(src[p + 2]) || !(0x800 <= c < 0x10000) {
            success := false;
          }
        } else {
          success := false;
        }
      } else if b & 0xF8 == 0xF0 {
        n := p + 4;
        if n <= |src| {
          c := Four(b, src[p + 1], src[p + 2], src[p + 3]);
          if !Continuation(src[p + 1]) || !Continuation(src[p + 2]) || !(0x10000 <= c <= 0x10FFFF) {
            success := false;
          }
        } else {
          success := false;
        }
      } else if b & 0xFC == 0xF8 {
        n := p + 4;
        success := n <= |src|;
      } else if b & 0xFE == 0xFC {
        n := p + 5;
        success := n <= |src|;
      } else {
        success := false;
      }
    } else {
      success := false;
    }
    if success {
      next, result := n, c;
    } else {
      next, result := p + 1, 0xFFFF;
    }
  }

  // Whole sequences.

  function EncodeAll(cs: seq<bv32>): seq<byte> {
    if cs == [] then [] else Encoded(cs[0]) + EncodeAll(cs[1..])
  }

  lemma EncodeNone()
    ensures EncodeAll([]) == []
  {
  }

  lemma EncodeFirst(cs: seq<bv32>)
    requires cs != []
    ensures EncodeAll(cs) == Encoded(cs[0]) + EncodeAll(cs[1..])
  {
    hide Encoded;
  }

  lemma {:induction false} EncodeConcat(a: seq<bv32>, b: seq<bv32>)
    ensures EncodeAll(a + b) == EncodeAll(a) + EncodeAll(b)
  {
    EncodeNone();
    hide *;
    if a == [] {
      assert a + b == b;
    } else {
      EncodeFirst(a);
      EncodeFirst(a + b);
      EncodeConcat(a[1..], b);
      assert (a + b)[1..] == a[1..] + b;
      Associative(Encoded(a[0]), EncodeAll(a[1..]), EncodeAll(b));
    }
  }

  lemma EncodeOne(c: bv32)
    ensures EncodeAll([c]) == Encoded(c)
  {
    hide Encoded;
    assert [c][1..] == [];
  }

  lemma EncodeNext(src: seq<bv32>, p0: nat, p: nat)
    requires p0 <= p < |src|
    ensures EncodeAll(src[p0..p + 1]) == EncodeAll(src[p0..p]) + Encoded(src[p])
  {
    hide *;
    EncodeConcat(src[p0..p], [src[p]]);
    EncodeOne(src[p]);
    assert src[p0..p + 1] == src[p0..p] + [src[p]];
  }

  /** Code points decoded from the start of some bytes, and the bytes they took. */
  datatype Run = Run(consumed: nat, cs: seq<bv32>, ok: bool)

  /** At most n code points; the first failure ends the run. */
  function DecodeRun(s: seq<byte>, n: nat): Run {
    if n == 0 || s == [] then Run(0, [], true)
    else
      var d := Decode(s);
      DecodeAdvances(s);
      if !d.ok then Run(1, [0xFFFF], false)
      else
        var r := DecodeRun(s[d.length..], n - 1);
        Run(d.length + r.consumed, [d.c] + r.cs, r.ok)
  }

  lemma RunStep(s: seq<byte>, n: nat)
    requires n > 0 && s != []
    ensures var d := Decode(s);
      && 1 <= d.length <= |s|
      && (if d.ok then
            var r := DecodeRun(s[d.length..], n - 1);
            DecodeRun(s, n) == Run(d.length + r.consumed, [d.c] + r.cs, r.ok)
          else d == Decoded(false, 1, 0xFFFF) && DecodeRun(s, n) == Run(1, [0xFFFF], false))
  {
    DecodeAdvances(s);
    FailedCode(s);
    hide Decode;
  }

  lemma FailedCode(s: seq<byte>)
    ensures !Decode(s).ok ==> Decode(s) == Decoded(false, 1, 0xFFFF)
  {
  }

  lemma RunWithin(s: seq<byte>, n: nat)
    ensures var r := DecodeRun(s, n); r.consumed <= |s| && |r.cs| <= n && (n > 0 && s != [] ==> r.consumed > 0)
  {
    if n > 0 && s != [] {
      RunStep(s, n);
      hide DecodeRun, Decode;
      var d := Decode(s);
      if d.ok {
        RunWithin(s[d.length..], n - 1);
      }
    }
  }

  /** All the code points in some bytes, 0xFFFF standing for a byte at which no sequence starts. */
  function DecodeAll(s: seq<byte>): seq<bv32> {
    if s == [] then []
    else
      var d := Decode(s);
      DecodeAdvances(s);
      [d.c] + DecodeAll(s[d.length..])
  }

  lemma AllStep(s: seq<byte>)
    requires s != []
    ensures var d := Decode(s); 1 <= d.length <= |s| && DecodeAll(s) == [d.c] + DecodeAll(s[d.length..])
  {
    DecodeAdvances(s);
    hide Decode;
  }

  /** Decoding a run and then what is left decodes everything. */
  lemma {:induction false} RunThenRest(s: seq<byte>, n: nat)
    ensures var r := DecodeRun(s, n); r.consumed <= |s| && DecodeAll(s) == r.cs + DecodeAll(s[r.consumed..])
  {
    NothingLeft(s, n);
    hide *;
    if n > 0 && s != [] {
      RunStep(s, n);
      AllStep(s);
      var d := Decode(s);
      if d.ok {
        var tail := s[d.length..];
        var r := DecodeRun(tail, n - 1);
        RunWithin(tail, n - 1);
        RunThenRest(tail, n - 1);
        DropTwice(s, d.length, r.consumed);
        Associative([d.c], r.cs, DecodeAll(tail[r.consumed..]));
      } else {
        FailedCode(s);
      }
    } else {
      assert s[0..] == s;
      assert DecodeRun(s, n).cs + DecodeAll(s) == DecodeAll(s);
    }
  }

  /** Decoding what was encoded gives the code points back. */
  lemma {:induction false} RoundTripAll(cs: seq<bv32>)
    requires forall k :: 0 <= k < |cs| ==> cs[k] <= 0x10FFFF
    ensures DecodeAll(EncodeAll(cs)) == cs
  {
    hide Encoded, Decode;
    if cs != [] {
      var rest := EncodeAll(cs[1..]);
      RoundTrip(cs[0], rest);
      assert (Encoded(cs[0]) + rest)[|Encoded(cs[0])|..] == rest;
      RoundTripAll(cs[1..]);
    }
  }

  /** DecodePart from 32-bit code points to UTF-8: as many as surely fit into the buffer from d up to
      the end, six bytes being kept in reserve. */
  method EncodePart(src: seq<bv32>, p0: nat, dest: array<byte>, d0: nat, dEnd: nat)
    returns (p: nat, d: nat, success: bool)
    requires p0 <= |src| && d0 + 6 < dEnd <= dest.Length
    modifies dest
    ensures p0 <= p <= |src| && d0 <= d < dEnd && dest[d0..d] == EncodeAll(src[p0..p])
    ensures forall k :: 0 <= k < d0 || d <= k < dest.Length ==> dest[k] == old(dest[k])
    ensures success ==> p == |src| || d + 6 >= dEnd
    ensures forall k :: p0 <= k < (if success then p else p - 1) ==> src[k] <= 0x7FFFFFFF
    ensures !success ==> p > p0 && src[p - 1] > 0x7FFFFFFF
    ensures p0 < |src| ==> p0 < p
  {
    EncodeNone();
    hide *;
    assert src[p0..p0] == [] && dest[d0..d0] == [];
    p, d, success := p0, d0, true;
    var end := dEnd - 6;
    while success && p < |src| && d < end
      invariant p0 <= p <= |src| && d0 <= d && d <= end + 5 && dest[d0..d] == EncodeAll(src[p0..p])
      invariant forall k :: 0 <= k < d0 || d <= k < dest.Length ==> dest[k] == old(dest[k])
      invariant forall k :: p0 <= k < (if success then p else p - 1) ==> src[k] <= 0x7FFFFFFF
      invariant !success ==> p > p0 && src[p - 1] > 0x7FFFFFFF
      invariant p == p0 ==> d == d0
      decreases |src| - p
    {
      ghost var was := d;
      d, success := UCS4ToUTF8(src[p], dest, d);
      EncodeNext(src, p0, p);
      assert dest[d0..d] == dest[d0..was] + dest[was..d];
      p := p + 1;
    }
  }

  /** DecodePart from UTF-8 to 32-bit code points, until the buffer is full. */
  method DecodePart(src: seq<byte>, p0: nat, dest: array<bv32>, d0: nat, dEnd: nat)
    returns (p: nat, d: nat, success: bool)
    requires p0 <= |src| && d0 <= dEnd <= dest.Length
    modifies dest
    ensures var r := DecodeRun(src[p0..], dEnd - d0);
      p == p0 + r.consumed && d == d0 + |r.cs| && success == r.ok && p <= |src| && d <= dEnd && dest[d0..d] == r.cs
    ensures forall k :: 0 <= k < d0 || d <= k < dest.Length ==> dest[k] == old(dest[k])
  {
    hide *;
    p, d, success := p0, d0, true;
    ghost var whole := DecodeRun(src[p0..], dEnd - d0);
    ghost var left := whole;
    while success && p < |src| && d < dEnd
      invariant p0 <= p <= |src| && d0 <= d <= dEnd
      invariant forall k :: 0 <= k < d0 || d <= k < dest.Length ==> dest[k] == old(dest[k])
      invariant left == if success then DecodeRun(src[p..], dEnd - d) else Run(0, [], false)
      invariant p + left.consumed == p0 + whole.consumed && left.ok == whole.ok
      invariant dest[d0..d] + left.cs == whole.cs
      decreases |src| - p
    {
      var c;
      ghost var was, before := p, dest[d0..d];
      RunStep(src[p..], dEnd - d);
      p, c, success := UTF8ToUCS4(src, p);
      dest[d] := c;
      d := d + 1;
      left := if success then DecodeRun(src[p..], dEnd - d) else Run(0, [], false);
      DropTwice(src, was, p - was);
      assert dest[d0..d] == before + [c];
      Associative(before, [c], left.cs);
    }
    NothingLeft(src[p..], dEnd - d);
  }

  lemma NothingLeft(s: seq<byte>, n: nat)
    ensures n == 0 || s == [] ==> DecodeRun(s, n) == Run(0, [], true)
  {
  }

  // Conversion of whole strings, a buffer at a time. The library's buffer has 512 elements.

  /** append_convert from 32-bit code points: whatever the buffer, the bytes of all of them. */
  method ConvertToUTF8(src: seq<bv32>, size: nat) returns (out: seq<byte>)
    requires size > 6
    ensures out == EncodeAll(src)
  {
    hide Encoded, EncodeAll;
    var buffer := new byte[size];
    var p := 0;
    out := [];
    EncodeNone();
    while p != |src|
      invariant p <= |src| && out == EncodeAll(src[..p])
      decreases |src| - p
    {
      var was := p;
      var d, success;
      p, d, success := EncodePart(src, p, buffer, 0, size);
      out := out + buffer[0..d];
      EncodeConcat(src[..was], src[was..p]);
      assert src[..p] == src[..was] + src[was..p];
    }
    assert src[..p] == src;
  }

  /** append_convert from UTF-8: whatever the buffer, all the code points. */
  method ConvertFromUTF8(src: seq<byte>, size: nat) returns (out: seq<bv32>)
    requires size > 0
    ensures out == DecodeAll(src)
  {
    hide *;
    var buffer := new bv32[size];
    var p := 0;
    out := [];
    AllOfNothing();
    assert src[0..] == src;
    while p != |src|
      invariant p <= |src| && out + DecodeAll(src[p..]) == DecodeAll(src)
      decreases |src| - p
    {
      var was := p;
      ghost var before, run := out, DecodeRun(src[p..], size);
      RunThenRest(src[p..], size);
      RunWithin(src[p..], size);
      var d, success;
      p, d, success := DecodePart(src, p, buffer, 0, size);
      out := out + buffer[0..d];
      DropTwice(src, was, run.consumed);
      Associative(before, run.cs, DecodeAll(src[p..]));
    }
  }

  lemma AllOfNothing()
    ensures DecodeAll([]) == []
  {
  }

  /** The whole way: code points of Unicode come back whatever buffers they went through. */
  method ThereAndBack(cs: seq<bv32>, size: nat, backSize: nat) returns (back: seq<bv32>)
    requires size > 6 && backSize > 0 && forall k :: 0 <= k < |cs| ==> cs[k] <= 0x10FFFF
    ensures back == cs
  {
    var bytes := ConvertToUTF8(cs, size);
    back := ConvertFromUTF8(bytes, backSize);
    RoundTripAll(cs);
  }
}
