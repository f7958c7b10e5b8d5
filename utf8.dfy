/** `TextEncoder` and `TextDecoder('utf-8', { fatal: false })`: UTF-8 encoding
    of a string, and decoding of arbitrary bytes in which every maximal
    ill-formed subpart becomes one U+FFFD and a leading byte order mark is
    dropped (the decoder of the WHATWG Encoding Standard). */
module Utf8 {

  /** A byte, as `Uint8Array` holds it. */
  type uint8 = x: int | 0 <= x < 256

  const Replacement: char := '\U{FFFD}'

  predicate IsAscii(s: string) {
    forall i :: 0 <= i < |s| ==> s[i] as int < 0x80
  }

  /** The UTF-8 bytes of one scalar value. */
  function EncodeChar(c: char): (bs: seq<uint8>)
    ensures 1 <= |bs| <= 4
    ensures |bs| == 1 <==> c as int < 0x80
    ensures |bs| == 1 ==> bs[0] == c as int
  {
    var v := c as int;
    if v < 0x80 then [v]
    else if v < 0x800 then [0xC0 + v / 64, 0x80 + v % 64]
    else if v < 0x10000 then [0xE0 + v / 64 / 64, 0x80 + v / 64 % 64, 0x80 + v % 64]
    else [0xF0 + v / 64 / 64 / 64, 0x80 + v / 64 / 64 % 64, 0x80 + v / 64 % 64, 0x80 + v % 64]
  }

  /** `new TextEncoder().encode(s)`. */
  function Encode(s: string): (bs: seq<uint8>)
    ensures |bs| >= |s|
    decreases |s|
  {
    if |s| == 0 then [] else EncodeChar(s[0]) + Encode(s[1..])
  }

  lemma {:induction false} EncodeAppend(a: string, b: string)
    ensures Encode(a + b) == Encode(a) + Encode(b)
    decreases |a|
  {
    if |a| == 0 {
      assert a + b == b;
    } else {
      assert (a + b)[0] == a[0];
      assert (a + b)[1..] == a[1..] + b;
      EncodeAppend(a[1..], b);
    }
  }

  /** An ASCII string encodes to one byte per character, of the same value. */
  lemma {:induction false} EncodeAscii(s: string)
    requires IsAscii(s)
    ensures |Encode(s)| == |s|
    ensures forall i :: 0 <= i < |s| ==> Encode(s)[i] == s[i] as int
    decreases |s|
  {
    if |s| > 0 {
      EncodeAscii(s[1..]);
      assert Encode(s) == EncodeChar(s[0]) + Encode(s[1..]);
    }
  }

  lemma AsciiAppend(a: string, b: string)
    requires IsAscii(a) && IsAscii(b)
    ensures IsAscii(a + b)
  {
    forall i | 0 <= i < |a + b| ensures (a + b)[i] as int < 0x80 {
      if i >= |a| {
        assert (a + b)[i] == b[i - |a|];
      }
    }
  }

  /** Byte `i` of `b` exists and lies in `[lo, hi]`. */
  predicate InRange(b: seq<uint8>, i: nat, lo: int, hi: int) {
    i < |b| && lo <= b[i] <= hi
  }

  /** One step of the decoder: how many bytes the next character takes and
      which character it is (U+FFFD for an ill-formed subpart). */
  function DecodeOne(b: seq<uint8>): (r: (nat, char))
    requires |b| > 0
    ensures 1 <= r.0 <= |b| && r.0 <= 4
  {
    var b0: int := b[0];
    if b0 < 0x80 then (1, b0 as char)
    else if 0xC2 <= b0 <= 0xDF then
      if InRange(b, 1, 0x80, 0xBF) then (2, ((b0 - 0xC0) * 64 + (b[1] as int - 0x80)) as char)
      else (1, Replacement)
    else if 0xE0 <= b0 <= 0xEF then
      var lo := if b0 == 0xE0 then 0xA0 else 0x80;
      var hi := if b0 == 0xED then 0x9F else 0xBF;
      if !InRange(b, 1, lo, hi) then (1, Replacement)
      else if !InRange(b, 2, 0x80, 0xBF) then (2, Replacement)
      else
        var cp := (b0 - 0xE0) * 4096 + (b[1] as int - 0x80) * 64 + (b[2] as int - 0x80);
        (3, cp as char)
    else if 0xF0 <= b0 <= 0xF4 then
      var lo := if b0 == 0xF0 then 0x90 else 0x80;
      var hi := if b0 == 0xF4 then 0x8F else 0xBF;
      if !InRange(b, 1, lo, hi) then (1, Replacement)
      else if !InRange(b, 2, 0x80, 0xBF) then (2, Replacement)
      else if !InRange(b, 3, 0x80, 0xBF) then (3, Replacement)
      else
        var cp := (b0 - 0xF0) * 262144 + (b[1] as int - 0x80) * 4096
                  + (b[2] as int - 0x80) * 64 + (b[3] as int - 0x80);
        (4, cp as char)
    else (1, Replacement)
  }

  /** Decoding without the byte-order-mark check. */
  function DecodeNoBom(b: seq<uint8>): (s: string)
    ensures |s| <= |b|
    decreases |b|
  {
    if |b| == 0 then ""
    else
      var step := DecodeOne(b);
      [step.1] + DecodeNoBom(b[step.0..])
  }

  /** `new TextDecoder('utf-8', { fatal: false }).decode(b)`. */
  function Decode(b: seq<uint8>): (s: string)
    ensures |s| <= |b|
  {
    if StartsWithBom(b) then DecodeNoBom(b[3..]) else DecodeNoBom(b)
  }

  lemma DecodeEncodeTwo(c: char, rest: seq<uint8>)
    requires 0x80 <= c as int < 0x800
    ensures DecodeOne(EncodeChar(c) + rest) == (2, c)
  {
    var v := c as int;
    var b := EncodeChar(c) + rest;
    assert b[0] == 0xC0 + v / 64;
    assert b[1] == 0x80 + v % 64;
  }

  lemma DecodeEncodeThree(c: char, rest: seq<uint8>)
    requires 0x800 <= c as int < 0x10000
    ensures DecodeOne(EncodeChar(c) + rest) == (3, c)
  {
    var v := c as int;
    var b := EncodeChar(c) + rest;
    var q1 := v / 64;
    var q2 := q1 / 64;
    assert v == 64 * q1 + v % 64;
    assert q1 == 64 * q2 + q1 % 64;
    assert b[0] == 0xE0 + q2 && b[1] == 0x80 + q1 % 64 && b[2] == 0x80 + v % 64;
  }

  lemma DecodeEncodeFour(c: char, rest: seq<uint8>)
    requires 0x10000 <= c as int
    ensures DecodeOne(EncodeChar(c) + rest) == (4, c)
  {
    var v := c as int;
    var b := EncodeChar(c) + rest;
    var q1 := v / 64;
    var q2 := q1 / 64;
    var q3 := q2 / 64;
    assert v == 64 * q1 + v % 64;
    assert q1 == 64 * q2 + q1 % 64;
    assert q2 == 64 * q3 + q2 % 64;
    assert b[0] == 0xF0 + q3 && b[1] == 0x80 + q2 % 64;
    assert b[2] == 0x80 + q1 % 64 && b[3] == 0x80 + v % 64;
  }

  /** The decoder reads back the character the encoder wrote, whatever follows. */
  lemma DecodeEncodeChar(c: char, rest: seq<uint8>)
    ensures DecodeOne(EncodeChar(c) + rest) == (|EncodeChar(c)|, c)
  {
    var v := c as int;
    if v < 0x80 {
    } else if v < 0x800 {
      DecodeEncodeTwo(c, rest);
    } else if v < 0x10000 {
      DecodeEncodeThree(c, rest);
    } else {
      DecodeEncodeFour(c, rest);
    }
  }

  /** Decoding an encoded string followed by any bytes yields the string
      followed by the decoding of those bytes. */
  lemma DecodeEncodeCharPrefix(c: char, t: seq<uint8>)
    ensures DecodeNoBom(EncodeChar(c) + t) == [c] + DecodeNoBom(t)
  {
    var e := EncodeChar(c);
    DecodeEncodeChar(c, t);
    assert (e + t)[|e|..] == t;
  }

  lemma ConsAppend(a: string, b: string, c: char, s: string, d: string)
    requires a == [c] + b && b == s + d
    ensures a == ([c] + s) + d
  {
  }

  lemma {:induction false} DecodeEncodePrefix(s: string, rest: seq<uint8>)
    ensures DecodeNoBom(Encode(s) + rest) == s + DecodeNoBom(rest)
    decreases |s|
  {
    if |s| == 0 {
      assert Encode(s) + rest == rest;
      assert s + DecodeNoBom(rest) == DecodeNoBom(rest);
    } else {
      var t := Encode(s[1..]) + rest;
      assert Encode(s) + rest == EncodeChar(s[0]) + t;
      DecodeEncodeCharPrefix(s[0], t);
      DecodeEncodePrefix(s[1..], rest);
      ConsAppend(DecodeNoBom(EncodeChar(s[0]) + t), DecodeNoBom(t), s[0], s[1..], DecodeNoBom(rest));
      assert [s[0]] + s[1..] == s;
    }
  }

  /** The first three bytes of `b` are EF BB BF, the UTF-8 byte order mark. */
  predicate StartsWithBom(b: seq<uint8>) {
    |b| >= 3 && b[0] == 0xEF && b[1] == 0xBB && b[2] == 0xBF
  }

  lemma EncodeStartsWithBom(s: string)
    ensures StartsWithBom(Encode(s)) <==> (s != "" && s[0] == '\U{FEFF}')
  {
    if s != "" {
      var e := EncodeChar(s[0]);
      assert Encode(s) == e + Encode(s[1..]);
      if |e| == 3 {
        DecodeEncodeChar(s[0], Encode(s[1..]));
      }
    }
  }

  /** `decode(encode(s)) == s` exactly when `s` does not begin with U+FEFF,
      which the decoder takes for a byte order mark and drops. */
  lemma DecodeEncode(s: string)
    ensures Decode(Encode(s)) == s <==> (s == "" || s[0] != '\U{FEFF}')
  {
    DecodeEncodePrefix(s, []);
    assert Encode(s) + [] == Encode(s);
    EncodeStartsWithBom(s);
    if s != [] && s[0] == '\U{FEFF}' {
      assert Encode(s) == EncodeChar(s[0]) + Encode(s[1..]);
      DecodeEncodePrefix(s[1..], []);
      assert Encode(s[1..]) + [] == Encode(s[1..]);
      assert Encode(s)[3..] == Encode(s[1..]);
      assert |Decode(Encode(s))| == |s| - 1;
    }
  }
}
