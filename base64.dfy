/** Base64 as defined in section 4 of RFC 4648: the 64-character
    alphabet `A-Z a-z 0-9 + /`, 4 characters for every 3 bytes, and `=`
    padding for a final group of 1 or 2 bytes.  The decoder is strict: it
    takes only alphabet characters and padding in its final position. */
module Base64 {
  import opened Wrappers

  newtype byte = x: int | 0 <= x < 256

  /** A 6-bit value, the index of one alphabet character. */
  type Sextet = x: int | 0 <= x < 64

  const Pad: char := '='

  predicate IsAlphabet(c: char) {
    ('A' <= c <= 'Z') || ('a' <= c <= 'z') || ('0' <= c <= '9') || c == '+' || c == '/'
  }

  /** The alphabet character that encodes `v` (table 1 of RFC 4648). */
  function CharOf(v: Sextet): (c: char)
    ensures IsAlphabet(c)
  {
    if v < 26 then ('A' as int + v) as char
    else if v < 52 then ('a' as int + (v - 26)) as char
    else if v < 62 then ('0' as int + (v - 52)) as char
    else if v == 62 then '+'
    else '/'
  }

  /** The value an alphabet character encodes. */
  function ValueOf(c: char): (v: Sextet)
    requires IsAlphabet(c)
  {
    if 'A' <= c <= 'Z' then c as int - 'A' as int
    else if 'a' <= c <= 'z' then c as int - 'a' as int + 26
    else if '0' <= c <= '9' then c as int - '0' as int + 52
    else if c == '+' then 62
    else 63
  }

  lemma ValueOfCharOf(v: Sextet)
    ensures ValueOf(CharOf(v)) == v
  {
  }

  /** The four characters of a complete 3-byte group. */
  function EncodeGroup(b0: byte, b1: byte, b2: byte): (s: string)
    ensures |s| == 4 && forall k :: 0 <= k < 4 ==> IsAlphabet(s[k])
  {
    [CharOf(b0 as int / 4),
     CharOf((b0 as int % 4) * 16 + b1 as int / 16),
     CharOf((b1 as int % 16) * 4 + b2 as int / 64),
     CharOf(b2 as int % 64)]
  }

  /** The base64 text of a byte string, padded to a multiple of 4. */
  function Encode(b: seq<byte>): (s: string)
    ensures |s| % 4 == 0
    ensures |s| == 0 <==> |b| == 0
    ensures forall k :: 0 <= k < |s| ==> IsAlphabet(s[k]) || s[k] == Pad
  {
    if |b| == 0 then []
    else if |b| == 1 then
      [CharOf(b[0] as int / 4), CharOf((b[0] as int % 4) * 16), Pad, Pad]
    else if |b| == 2 then
      [CharOf(b[0] as int / 4),
       CharOf((b[0] as int % 4) * 16 + b[1] as int / 16),
       CharOf((b[1] as int % 16) * 4),
       Pad]
    else EncodeGroup(b[0], b[1], b[2]) + Encode(b[3..])
  }

  /** The first byte that two leading sextets carry. */
  function Byte0(v0: Sextet, v1: Sextet): byte {
    (v0 * 4 + v1 / 16) as byte
  }

  /** The second byte, from the second and third sextets. */
  function Byte1(v1: Sextet, v2: Sextet): byte {
    ((v1 % 16) * 16 + v2 / 4) as byte
  }

  /** The third byte, from the third and fourth sextets. */
  function Byte2(v2: Sextet, v3: Sextet): byte {
    ((v2 % 4) * 64 + v3) as byte
  }

  predicate AllAlphabet(q: string) {
    forall k :: 0 <= k < |q| ==> IsAlphabet(q[k])
  }

  /** The three bytes of a complete, unpadded 4-character group. */
  function GroupBytes(q: string): (b: seq<byte>)
    requires |q| == 4 && AllAlphabet(q)
    ensures |b| == 3
  {
    [Byte0(ValueOf(q[0]), ValueOf(q[1])),
     Byte1(ValueOf(q[1]), ValueOf(q[2])),
     Byte2(ValueOf(q[2]), ValueOf(q[3]))]
  }

  /** The bytes of the last 4-character group, which may end in `=` or
      `==`; `None` for anything else. */
  function DecodeFinal(q: string): (r: Option<seq<byte>>)
    requires |q| == 4
    ensures r.Some? ==> 1 <= |r.value| <= 3
  {
    if AllAlphabet(q) then Some(GroupBytes(q))
    else if AllAlphabet(q[..3]) && q[3] == Pad then
      Some([Byte0(ValueOf(q[0]), ValueOf(q[1])), Byte1(ValueOf(q[1]), ValueOf(q[2]))])
    else if AllAlphabet(q[..2]) && q[2] == Pad && q[3] == Pad then
      Some([Byte0(ValueOf(q[0]), ValueOf(q[1]))])
    else None
  }

  /** Strict decoding: `None` unless the text is a whole number of
      4-character groups, only the last of which may carry padding. */
  function Decode(s: string): (r: Option<seq<byte>>)
    ensures r.Some? ==> |s| % 4 == 0
    ensures r.Some? ==> |r.value| <= |s| / 4 * 3
    decreases |s|
  {
    if |s| == 0 then Some([])
    else if |s| < 4 then None
    else if |s| == 4 then DecodeFinal(s)
    else if !AllAlphabet(s[..4]) then None
    else
      match Decode(s[4..])
      case None => None
      case Some(rest) => Some(GroupBytes(s[..4]) + rest)
  }

  /** One complete group decodes to the three bytes it encodes. */
  lemma GroupRoundTrip(b0: byte, b1: byte, b2: byte)
    ensures GroupBytes(EncodeGroup(b0, b1, b2)) == [b0, b1, b2]
  {
    var x0, x1, x2 := b0 as int, b1 as int, b2 as int;
    var v0, v1 := x0 / 4, (x0 % 4) * 16 + x1 / 16;
    var v2, v3 := (x1 % 16) * 4 + x2 / 64, x2 % 64;
    ValueOfCharOf(v0); ValueOfCharOf(v1); ValueOfCharOf(v2); ValueOfCharOf(v3);
    assert v1 / 16 == x0 % 4 && v1 % 16 == x1 / 16;
    assert v2 / 4 == x1 % 16 && v2 % 4 == x2 / 64;
  }

  /** A final group of one byte, `xx==`, decodes to that byte. */
  lemma OneByteRoundTrip(b0: byte)
    ensures Decode(Encode([b0])) == Some([b0])
  {
    var x0 := b0 as int;
    ValueOfCharOf(x0 / 4); ValueOfCharOf((x0 % 4) * 16);
    var q := Encode([b0]);
    assert q[2] == Pad && q[3] == Pad;
    assert !AllAlphabet(q) && !AllAlphabet(q[..3]) by {
      assert !IsAlphabet(q[2]) && q[..3][2] == q[2];
    }
    assert AllAlphabet(q[..2]);
    assert (x0 % 4) * 16 / 16 == x0 % 4;
    assert Byte0(ValueOf(q[0]), ValueOf(q[1])) == b0;
  }

  /** A final group of two bytes, `xxx=`, decodes to those bytes. */
  lemma TwoByteRoundTrip(b0: byte, b1: byte)
    ensures Decode(Encode([b0, b1])) == Some([b0, b1])
  {
    var x0, x1 := b0 as int, b1 as int;
    var v0, v1, v2 := x0 / 4, (x0 % 4) * 16 + x1 / 16, (x1 % 16) * 4;
    var q := Encode([b0, b1]);
    assert q == [CharOf(v0), CharOf(v1), CharOf(v2), Pad];
    assert !AllAlphabet(q) by { assert !IsAlphabet(q[3]); }
    assert AllAlphabet(q[..3]);
    ValueOfCharOf(v0); ValueOfCharOf(v1); ValueOfCharOf(v2);
    assert Byte0(v0, v1) == b0 by { assert v1 / 16 == x0 % 4; }
    assert Byte1(v1, v2) == b1 by { assert v1 % 16 == x1 / 16 && v2 / 4 == x1 % 16; }
    assert DecodeFinal(q) == Some([Byte0(v0, v1), Byte1(v1, v2)]);
  }

  /** A complete group in front of a decodable non-empty text decodes to
      its three bytes in front of that text's bytes. */
  lemma DecodeGroupPrefix(q: string, t: string)
    requires |q| == 4 && AllAlphabet(q) && t != [] && Decode(t).Some?
    ensures Decode(q + t) == Some(GroupBytes(q) + Decode(t).value)
  {
    var s := q + t;
    assert s[..4] == q && s[4..] == t;
  }

  /** A text of three or more bytes encodes as its first group followed
      by the encoding of the rest. */
  lemma EncodeSplit(b: seq<byte>)
    requires |b| >= 3
    ensures Encode(b) == EncodeGroup(b[0], b[1], b[2]) + Encode(b[3..])
  {
  }

  lemma HeadGroup(b: seq<byte>)
    requires |b| >= 3
    ensures [b[0], b[1], b[2]] + b[3..] == b
  {
    assert b[..3] == [b[0], b[1], b[2]];
    assert b[..3] + b[3..] == b;
  }

  /** Exactly three bytes: one complete group, no padding. */
  lemma ThreeByteRoundTrip(b: seq<byte>)
    requires |b| == 3
    ensures Decode(Encode(b)) == Some(b)
  {
    EncodeSplit(b);
    GroupRoundTrip(b[0], b[1], b[2]);
    assert Encode(b[3..]) == [];
    assert b == [b[0], b[1], b[2]];
  }

  /** The inductive step: if the bytes after the first group round-trip,
      so does the whole text. */
  lemma GroupStep(b: seq<byte>)
    requires |b| > 3 && Decode(Encode(b[3..])) == Some(b[3..])
    ensures Decode(Encode(b)) == Some(b)
  {
    var q, t := EncodeGroup(b[0], b[1], b[2]), Encode(b[3..]);
    EncodeSplit(b);
    GroupRoundTrip(b[0], b[1], b[2]);
    DecodeGroupPrefix(q, t);
    HeadGroup(b);
  }

  /** Decoding inverts encoding for every byte string (RFC 4648 section 4
      defines the encoding; this is the property a decoder owes it). */
  lemma {:induction false} DecodeEncode(b: seq<byte>)
    ensures Decode(Encode(b)) == Some(b)
    decreases |b|
  {
    if |b| == 1 {
      assert b == [b[0]];
      OneByteRoundTrip(b[0]);
    } else if |b| == 2 {
      assert b == [b[0], b[1]];
      TwoByteRoundTrip(b[0], b[1]);
    } else if |b| == 3 {
      ThreeByteRoundTrip(b);
    } else if |b| > 3 {
      DecodeEncode(b[3..]);
      GroupStep(b);
    }
  }

  /** The number of `=` characters that end a text: none, one or two. */
  function TrailingPads(s: string): nat {
    if |s| >= 2 && s[|s| - 1] == Pad && s[|s| - 2] == Pad then 2
    else if |s| >= 1 && s[|s| - 1] == Pad then 1
    else 0
  }

  /** The shape of every text the decoder accepts (RFC 4648 section 4):
      alphabet characters throughout, except for `=` in the last two
      positions, where a `=` in the next-to-last position needs one after
      it; and exactly 3 bytes per group less one per trailing `=`. */
  lemma {:induction false} DecodeShape(s: string)
    requires Decode(s).Some?
    ensures forall k :: 0 <= k < |s| - 2 ==> IsAlphabet(s[k])
    ensures |s| >= 4 ==> IsAlphabet(s[|s| - 1]) || s[|s| - 1] == Pad
    ensures |s| >= 4 && s[|s| - 2] == Pad ==> s[|s| - 1] == Pad
    ensures |Decode(s).value| == |s| / 4 * 3 - TrailingPads(s)
    decreases |s|
  {
    if |s| == 4 {
      if AllAlphabet(s) {
      } else if AllAlphabet(s[..3]) && s[3] == Pad {
        assert forall k :: 0 <= k < 3 ==> IsAlphabet(s[k]) by {
          forall k | 0 <= k < 3 ensures IsAlphabet(s[k]) { assert s[..3][k] == s[k]; }
        }
      } else {
        assert forall k :: 0 <= k < 2 ==> IsAlphabet(s[k]) by {
          forall k | 0 <= k < 2 ensures IsAlphabet(s[k]) { assert s[..2][k] == s[k]; }
        }
      }
    } else if |s| > 4 {
      var t := s[4..];
      DecodeShape(t);
      assert forall k :: 0 <= k < 4 ==> IsAlphabet(s[k]) by {
        forall k | 0 <= k < 4 ensures IsAlphabet(s[k]) { assert s[..4][k] == s[k]; }
      }
      assert forall k :: 4 <= k < |s| ==> s[k] == t[k - 4];
      assert TrailingPads(s) == TrailingPads(t);
    }
  }

  /** A `=` anywhere before the last two positions makes decoding fail. */
  lemma MisplacedPadRejected(s: string, i: nat)
    requires i < |s| - 2 && s[i] == Pad
    ensures Decode(s) == None
  {
    if Decode(s).Some? {
      DecodeShape(s);
    }
  }

  /** "Y=Q=" has a `=` in second position and is rejected, as Python's
      decoder rejects it with an incorrect-padding error. */
  lemma MidPadExample()
    ensures Decode("Y=Q=") == None
  {
    MisplacedPadRejected("Y=Q=", 1);
  }

  /** Any character outside the alphabet and `=` makes decoding fail. */
  lemma {:induction false} ForeignCharRejected(s: string, i: nat)
    requires i < |s| && !IsAlphabet(s[i]) && s[i] != Pad
    ensures Decode(s) == None
    decreases |s|
  {
    if |s| > 4 && AllAlphabet(s[..4]) {
      assert forall k :: 0 <= k < 4 ==> IsAlphabet(s[k]) by {
        forall k | 0 <= k < 4 ensures IsAlphabet(s[k]) { assert s[..4][k] == s[k]; }
      }
      ForeignCharRejected(s[4..], i - 4);
    } else if |s| == 4 {
      assert !AllAlphabet(s);
      if i < 3 { assert s[..3][i] == s[i]; }
      if i < 2 { assert s[..2][i] == s[i]; }
    }
  }
}
