/** Bytes and text. The leaf future sends its request as the UTF-8 bytes of a
    string and turns the response bytes back into text with a lossy decoder:
    every well-formed UTF-8 sequence becomes its scalar value, and every
    maximal ill-formed subpart becomes one U+FFFD REPLACEMENT CHARACTER
    (the practice described in section 3.9 of the Unicode Standard). */
module Utf8 {

  newtype byte = x: int | 0 <= x < 0x100

  /** The values a Dafny `char` can hold: the Unicode scalar values. */
  predicate IsScalar(v: int) {
    0 <= v < 0xD800 || 0xE000 <= v < 0x11_0000
  }

  const Replacement: char := '\U{FFFD}'

  /** The length of the well-formed sequence that `lead` starts (Table 3-7 of
      the Unicode Standard), or 0 when no well-formed sequence starts with it. */
  function Width(lead: byte): (w: nat)
    ensures w <= 4
    ensures w == 1 <==> lead < 0x80
    ensures w == 0 <==> (0x80 <= lead < 0xC2 || 0xF4 < lead)
  {
    if lead < 0x80 then 1
    else if 0xC2 <= lead <= 0xDF then 2
    else if 0xE0 <= lead <= 0xEF then 3
    else if 0xF0 <= lead <= 0xF4 then 4
    else 0
  }

  /** Whether `b` may stand at position `i` (1 to 3) of a well-formed sequence
      that starts with `lead`: the second byte has a range that depends on the
      lead, the later ones are always 0x80..0xBF. */
  predicate Fits(lead: byte, i: nat, b: byte) {
    if i == 1 then
      if lead == 0xE0 then 0xA0 <= b <= 0xBF
      else if lead == 0xED then 0x80 <= b <= 0x9F
      else if lead == 0xF0 then 0x90 <= b <= 0xBF
      else if lead == 0xF4 then 0x80 <= b <= 0x8F
      else 0x80 <= b <= 0xBF
    else
      0x80 <= b <= 0xBF
  }

  /** Whether `s` is exactly one well-formed UTF-8 sequence. */
  predicate WellFormed(s: seq<byte>) {
    |s| > 0 && Width(s[0]) == |s| && forall j :: 1 <= j < |s| ==> Fits(s[0], j, s[j])
  }

  /** Starting at position `i`, how far the bytes of `s` keep fitting the
      sequence announced by `s[0]`, stopping at its width `w`: the length of
      the maximal subpart of `s` that starts a well-formed sequence. */
  function Matched(s: seq<byte>, w: nat, i: nat): (k: nat)
    requires 1 <= i <= w && i <= |s|
    ensures i <= k <= w && k <= |s|
    ensures forall j :: i <= j < k ==> Fits(s[0], j, s[j])
    ensures k < w && k < |s| ==> !Fits(s[0], k, s[k])
    decreases w - i
  {
    if i == w || i == |s| || !Fits(s[0], i, s[i]) then i else Matched(s, w, i + 1)
  }

  /** The scalar value a well-formed sequence encodes. */
  function ScalarOf(s: seq<byte>): (v: int)
    requires WellFormed(s)
    ensures IsScalar(v)
    ensures |s| == 1 <==> v < 0x80
    ensures |s| == 2 <==> 0x80 <= v < 0x800
    ensures |s| == 3 <==> 0x800 <= v < 0x1_0000
    ensures |s| == 4 <==> 0x1_0000 <= v
  {
    assert forall j :: 1 <= j < |s| ==> Fits(s[0], j, s[j]);
    if |s| == 1 then
      s[0] as int
    else if |s| == 2 then
      (s[0] as int - 0xC0) * 64 + (s[1] as int - 0x80)
    else if |s| == 3 then
      assert Fits(s[0], 1, s[1]) && Fits(s[0], 2, s[2]);
      (s[0] as int - 0xE0) * 4096 + (s[1] as int - 0x80) * 64 + (s[2] as int - 0x80)
    else
      assert Fits(s[0], 1, s[1]) && Fits(s[0], 2, s[2]) && Fits(s[0], 3, s[3]);
      (s[0] as int - 0xF0) * 0x4_0000 + (s[1] as int - 0x80) * 4096
        + (s[2] as int - 0x80) * 64 + (s[3] as int - 0x80)
  }

  /** Lossy decoding, as `String::from_utf8_lossy` does it. */
  function Decode(s: seq<byte>): (t: string)
    ensures |t| <= |s|
    decreases |s|
  {
    if s == [] then []
    else
      var w := Width(s[0]);
      if w == 0 then [Replacement] + Decode(s[1..])
      else
        var k := Matched(s, w, 1);
        if k == w then [ScalarOf(s[..w]) as char] + Decode(s[w..])
        else [Replacement] + Decode(s[k..])
  }

  /** The UTF-8 encoding of one character: its scalar value cut into 6-bit
      groups, the lowest group last. */
  function EncodeChar(c: char): (s: seq<byte>)
    ensures WellFormed(s) && ScalarOf(s) == c as int
  {
    var v := c as int;
    if v < 0x80 then
      [v as byte]
    else if v < 0x800 then
      EncodeTwo(v)
    else if v < 0x1_0000 then
      EncodeThree(v)
    else
      EncodeFour(v)
  }

  function EncodeTwo(v: int): (s: seq<byte>)
    requires 0x80 <= v < 0x800
    ensures WellFormed(s) && ScalarOf(s) == v
  {
    var hi, lo := v / 64, v % 64;
    assert v == 64 * hi + lo && 2 <= hi < 32;
    [(0xC0 + hi) as byte, (0x80 + lo) as byte]
  }

  function EncodeThree(v: int): (s: seq<byte>)
    requires 0x800 <= v < 0x1_0000 && IsScalar(v)
    ensures WellFormed(s) && ScalarOf(s) == v
  {
    var q, lo := v / 64, v % 64;
    var hi, mid := q / 64, q % 64;
    assert v == 4096 * hi + 64 * mid + lo && hi < 16;
    assert hi == 0 ==> mid >= 32;
    assert hi == 13 ==> mid < 32;
    [(0xE0 + hi) as byte, (0x80 + mid) as byte, (0x80 + lo) as byte]
  }

  function EncodeFour(v: int): (s: seq<byte>)
    requires 0x1_0000 <= v < 0x11_0000
    ensures WellFormed(s) && ScalarOf(s) == v
  {
    var q1, b3 := v / 64, v % 64;
    var q2, b2 := q1 / 64, q1 % 64;
    var b0, b1 := q2 / 64, q2 % 64;
    assert v == 0x4_0000 * b0 + 4096 * b1 + 64 * b2 + b3 && b0 <= 4;
    assert b0 == 0 ==> b1 >= 16;
    assert b0 == 4 ==> b1 < 16;
    [(0xF0 + b0) as byte, (0x80 + b1) as byte, (0x80 + b2) as byte, (0x80 + b3) as byte]
  }

  /** The UTF-8 encoding of a string (`str::as_bytes`). */
  function Encode(t: string): (s: seq<byte>)
    ensures |t| <= |s| <= 4 * |t|
  {
    if t == [] then [] else EncodeChar(t[0]) + Encode(t[1..])
  }

  lemma {:induction false} EncodeAppend(a: string, b: string)
    ensures Encode(a + b) == Encode(a) + Encode(b)
  {
    if a == [] {
      assert a + b == b;
    } else {
      assert (a + b)[0] == a[0] && (a + b)[1..] == a[1..] + b;
      EncodeAppend(a[1..], b);
    }
  }

  /** Decoding reads one encoded character back and carries on after it. */
  lemma DecodeEncodedChar(c: char, rest: seq<byte>)
    ensures Decode(EncodeChar(c) + rest) == [c] + Decode(rest)
  {
    var e := EncodeChar(c);
    var s := e + rest;
    var w := Width(s[0]);
    assert s[0] == e[0] && w == |e|;
    assert forall j :: 1 <= j < w ==> s[j] == e[j];
    var k := Matched(s, w, 1);
    assert k == w;
    assert s[..w] == e && s[w..] == rest;
  }

  /** Decoding undoes encoding: text survives the trip through bytes. */
  lemma {:induction false} DecodeEncode(t: string)
    ensures Decode(Encode(t)) == t
  {
    if t != [] {
      DecodeEncodedChar(t[0], Encode(t[1..]));
      DecodeEncode(t[1..]);
    }
  }

  /** Decoding must see the whole buffer: a character whose bytes arrive in
      two separate pieces decodes to two replacement characters when each
      piece is decoded on its own. */
  lemma PieceWiseDecodingDiffers()
    ensures Decode([0xC3]) + Decode([0xA9]) != Decode([0xC3, 0xA9])
  {
    assert Decode([0xC3]) == [Replacement] by {
      assert Matched([0xC3], 2, 1) == 1;
    }
    assert Decode([0xA9]) == [Replacement];
    assert EncodeChar('é') == [0xC3, 0xA9];
    DecodeEncodedChar('é', []);
  }
}
