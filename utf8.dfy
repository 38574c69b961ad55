/** `std::str::from_utf8`: the check that a byte string is well-formed
    UTF-8 (table 3-7 of the Unicode Standard, the same table as section 4 of
    RFC 3629) together with the decoding into Unicode scalar values. */
module Utf8 {
  import opened Results

  type uint8 = x: int | 0 <= x < 256

  predicate IsContinuation(x: uint8) {
    0x80 <= x <= 0xBF
  }

  /** The length of the well-formed sequence that starts `b`, or 0 when `b`
      does not start with one. */
  function WidthAt(b: seq<uint8>): (n: nat)
    requires |b| > 0
    ensures n <= 4 && n <= |b|
  {
    var b0 := b[0];
    if b0 < 0x80 then 1
    else if 0xC2 <= b0 <= 0xDF then
      if |b| >= 2 && IsContinuation(b[1]) then 2 else 0
    else if 0xE0 <= b0 <= 0xEF then
      var lo := if b0 == 0xE0 then 0xA0 else 0x80;
      var hi := if b0 == 0xED then 0x9F else 0xBF;
      if |b| >= 3 && lo <= b[1] <= hi && IsContinuation(b[2]) then 3 else 0
    else if 0xF0 <= b0 <= 0xF4 then
      var lo := if b0 == 0xF0 then 0x90 else 0x80;
      var hi := if b0 == 0xF4 then 0x8F else 0xBF;
      if |b| >= 4 && lo <= b[1] <= hi && IsContinuation(b[2]) && IsContinuation(b[3]) then 4 else 0
    else 0
  }

  /** The scalar value encoded by the well-formed sequence that starts `b`. */
  function ScalarAt(b: seq<uint8>): char
    requires |b| > 0 && WidthAt(b) > 0
  {
    var n := WidthAt(b);
    var x0: int := b[0];
    if n == 1 then x0 as char
    else
      var x1: int := b[1];
      if n == 2 then ((x0 - 0xC0) * 0x40 + (x1 - 0x80)) as char
      else
        var x2: int := b[2];
        if n == 3 then ((x0 - 0xE0) * 0x1000 + (x1 - 0x80) * 0x40 + (x2 - 0x80)) as char
        else
          var x3: int := b[3];
          ((x0 - 0xF0) * 0x40000 + (x1 - 0x80) * 0x1000 + (x2 - 0x80) * 0x40 + (x3 - 0x80)) as char
  }

  /** `from_utf8`: `None` exactly when the bytes are not well-formed UTF-8. */
  function Decode(b: seq<uint8>): Option<string>
    decreases |b|
  {
    if b == [] then Some([])
    else
      var n := WidthAt(b);
      if n == 0 then None
      else match Decode(b[n..])
        case None => None
        case Some(rest) => Some([ScalarAt(b)] + rest)
  }

  /** The encoding of one scalar value, the partner of `ScalarAt`. */
  function EncodeChar(c: char): (b: seq<uint8>)
  {
    var v := c as int;
    if v < 0x80 then [v]
    else if v < 0x800 then [0xC0 + v / 0x40, 0x80 + v % 0x40]
    else if v < 0x10000 then [0xE0 + v / 0x1000, 0x80 + (v / 0x40) % 0x40, 0x80 + v % 0x40]
    else [0xF0 + v / 0x40000, 0x80 + (v / 0x1000) % 0x40, 0x80 + (v / 0x40) % 0x40, 0x80 + v % 0x40]
  }

  function Encode(s: string): seq<uint8> {
    if s == [] then [] else EncodeChar(s[0]) + Encode(s[1..])
  }

  /** The arithmetic of the two-byte form: the bytes' payloads give back `v`. */
  lemma TwoByteArithmetic(v: int)
    requires 0x80 <= v < 0x800
    ensures 0xC2 <= 0xC0 + v / 0x40 <= 0xDF
    ensures (v / 0x40) * 0x40 + v % 0x40 == v
  {
  }

  lemma ThreeByteArithmetic(v: int)
    requires 0x800 <= v < 0x10000 && !(0xD800 <= v < 0xE000)
    ensures var b0, b1 := 0xE0 + v / 0x1000, 0x80 + (v / 0x40) % 0x40;
      && 0xE0 <= b0 <= 0xEF
      && (if b0 == 0xE0 then 0xA0 else 0x80) <= b1 <= (if b0 == 0xED then 0x9F else 0xBF)
    ensures (v / 0x1000) * 0x1000 + ((v / 0x40) % 0x40) * 0x40 + v % 0x40 == v
  {
  }

  lemma FourByteArithmetic(v: int)
    requires 0x10000 <= v < 0x110000
    ensures var b0, b1 := 0xF0 + v / 0x40000, 0x80 + (v / 0x1000) % 0x40;
      && 0xF0 <= b0 <= 0xF4
      && (if b0 == 0xF0 then 0x90 else 0x80) <= b1 <= (if b0 == 0xF4 then 0x8F else 0xBF)
    ensures (v / 0x40000) * 0x40000 + ((v / 0x1000) % 0x40) * 0x1000 + ((v / 0x40) % 0x40) * 0x40 + v % 0x40 == v
  {
  }

  /** The two-byte form of `c` is well-formed and reads back as `c`. */
  lemma TwoByteDecodes(c: char, rest: seq<uint8>)
    requires 0x80 <= c as int < 0x800
    ensures var b := EncodeChar(c) + rest;
      |b| > 0 && WidthAt(b) == 2 && ScalarAt(b) == c
  {
    TwoByteArithmetic(c as int);
  }

  /** The three-byte form of `c` is well-formed and reads back as `c`. */
  lemma ThreeByteDecodes(c: char, rest: seq<uint8>)
    requires 0x800 <= c as int < 0x10000
    ensures var b := EncodeChar(c) + rest;
      |b| > 0 && WidthAt(b) == 3 && ScalarAt(b) == c
  {
    ThreeByteArithmetic(c as int);
  }

  /** The four-byte form of `c` is well-formed and reads back as `c`. */
  lemma FourByteDecodes(c: char, rest: seq<uint8>)
    requires 0x10000 <= c as int
    ensures var b := EncodeChar(c) + rest;
      |b| > 0 && WidthAt(b) == 4 && ScalarAt(b) == c
  {
    FourByteArithmetic(c as int);
  }

  /** Each scalar value's encoding is well-formed, and reads back as that value
      whatever follows it. */
  lemma EncodeCharDecodes(c: char, rest: seq<uint8>)
    ensures var b := EncodeChar(c) + rest;
      |b| > 0 && WidthAt(b) == |EncodeChar(c)| && ScalarAt(b) == c
  {
    var v := c as int;
    if v < 0x80 {
    } else if v < 0x800 {
      TwoByteDecodes(c, rest);
    } else if v < 0x10000 {
      ThreeByteDecodes(c, rest);
    } else {
      FourByteDecodes(c, rest);
    }
  }

  /** Decoding inverts encoding: every string survives the trip through bytes. */
  lemma {:induction false} DecodeEncode(s: string)
    ensures Decode(Encode(s)) == Some(s)
  {
    if s != [] {
      var b := Encode(s);
      EncodeCharDecodes(s[0], Encode(s[1..]));
      assert b[WidthAt(b)..] == Encode(s[1..]);
      DecodeEncode(s[1..]);
      assert [s[0]] + s[1..] == s;
    }
  }

  /** Bytes below 0x80 decode one by one to the characters with those codes. */
  lemma {:induction false} DecodeAscii(b: seq<uint8>)
    requires forall i :: 0 <= i < |b| ==> b[i] < 0x80
    ensures Decode(b).Some?
    ensures |Decode(b).value| == |b|
    ensures forall i :: 0 <= i < |b| ==> Decode(b).value[i] == b[i] as char
  {
    if b != [] {
      assert WidthAt(b) == 1 && ScalarAt(b) == b[0] as char;
      assert b[WidthAt(b)..] == b[1..];
      DecodeAscii(b[1..]);
      var rest := Decode(b[1..]).value;
      assert Decode(b) == Some([b[0] as char] + rest);
    }
  }

  /** A continuation byte with no leading byte before it is ill-formed, so
      `b"cl\x82ippy"` fails to decode. */
  lemma StrayContinuationFails()
    ensures Decode([0x63, 0x6C, 0x82, 0x69, 0x70, 0x70, 0x79]) == None
  {
    var b: seq<uint8> := [0x63, 0x6C, 0x82, 0x69, 0x70, 0x70, 0x79];
    assert b[1..][1..] == [0x82, 0x69, 0x70, 0x70, 0x79];
    assert WidthAt([0x82, 0x69, 0x70, 0x70, 0x79]) == 0;
  }
}
