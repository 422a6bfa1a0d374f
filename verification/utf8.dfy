/** UTF-8 as Swift applies it to the database passphrase: `Data(key.utf8)` when
    the passphrase is saved to the keychain, `String(decoding:as: UTF8.self)`
    when it is read back, and `utf8CString` when it is handed to the engine. */
module Utf8 {
  import opened Common

  /** U+FFFD, which decoding puts in place of ill-formed input. */
  const Replacement: char := '\U{FFFD}'

  /** The UTF-8 encoding of one Unicode scalar value, in one to four octets. */
  function EncodeScalar(c: char): (e: Bytes)
    ensures 1 <= |e| <= 4
  {
    var n := c as int;
    if n < 0x80 then
      [n]
    else if n < 0x800 then
      [0xC0 + n / 64, 0x80 + n % 64]
    else if n < 0x1_0000 then
      var low := n % 4096;
      [0xE0 + n / 4096, 0x80 + low / 64, 0x80 + low % 64]
    else
      var mid := n % 262144;
      var low := mid % 4096;
      [0xF0 + n / 262144, 0x80 + mid / 4096, 0x80 + low / 64, 0x80 + low % 64]
  }

  /** `Data(s.utf8)`: the UTF-8 encoding of a string. */
  function Encode(s: string): (e: Bytes)
  {
    if |s| == 0 then [] else EncodeScalar(s[0]) + Encode(s[1..])
  }

  predicate IsContinuation(b: Byte)
  {
    0x80 <= b <= 0xBF
  }

  /** The six payload bits of a continuation octet. */
  function Payload(b: Byte): (p: int)
  {
    b - 0x80
  }

  predicate IsScalar(v: int)
  {
    0 <= v < 0xD800 || 0xE000 <= v < 0x11_0000
  }

  /** The value that the two-, three- or four-octet sequence starting at `b[0]` spells. */
  function Combine(b: Bytes, len: nat): (v: int)
    requires 2 <= len <= 4 && len <= |b|
  {
    if len == 2 then (b[0] - 0xC0) * 64 + Payload(b[1])
    else if len == 3 then (b[0] - 0xE0) * 4096 + Payload(b[1]) * 64 + Payload(b[2])
    else (b[0] - 0xF0) * 262144 + Payload(b[1]) * 4096 + Payload(b[2]) * 64 + Payload(b[3])
  }

  /** The length of the sequence a leading octet announces, or 0 for an octet that cannot lead one. */
  function Announced(b0: Byte): (n: nat)
  {
    if b0 < 0x80 then 1
    else if 0xC2 <= b0 <= 0xDF then 2
    else if 0xE0 <= b0 <= 0xEF then 3
    else if 0xF0 <= b0 <= 0xF4 then 4
    else 0
  }

  /** `b` starts with a well-formed sequence of `len` octets: continuation octets
      follow, and they spell a scalar value that needs exactly `len` octets. */
  predicate WellFormedPrefix(b: Bytes, len: nat)
  {
    && 2 <= len <= 4 && len <= |b|
    && (forall i :: 1 <= i < len ==> IsContinuation(b[i]))
    && IsScalar(Combine(b, len))
    && (len == 3 ==> Combine(b, len) >= 0x800)
    && (len == 4 ==> Combine(b, len) >= 0x1_0000)
  }

  /** The first character decoded from `b` and the number of octets it takes. */
  function DecodeFirst(b: Bytes): (d: (char, nat))
    requires |b| > 0
    ensures 1 <= d.1 <= |b|
  {
    var len := Announced(b[0]);
    if len == 1 then
      (b[0] as char, 1)
    else if WellFormedPrefix(b, len) then
      (Combine(b, len) as char, len)
    else
      (Replacement, 1)
  }

  /** `String(decoding: b, as: UTF8.self)`. */
  function Decode(b: Bytes): (s: string)
    decreases |b|
  {
    if |b| == 0 then "" else
      var d := DecodeFirst(b);
      [d.0] + Decode(b[d.1..])
  }

  /** The three-octet digits of a number recombine to it. */
  lemma DigitsThree(n: int)
    requires 0 <= n
    ensures n / 4096 * 4096 + n % 4096 / 64 * 64 + n % 4096 % 64 == n
    ensures 0 <= n % 4096 / 64 < 64
  {
    var low := n % 4096;
    assert low == low / 64 * 64 + low % 64;
  }

  /** The four-octet digits of a number recombine to it. */
  lemma DigitsFour(n: int)
    requires 0 <= n
    ensures n / 262144 * 262144 + n % 262144 / 4096 * 4096 + n % 262144 % 4096 / 64 * 64 + n % 262144 % 4096 % 64 == n
    ensures 0 <= n % 262144 / 4096 < 64 && 0 <= n % 262144 % 4096 / 64 < 64
  {
    var mid := n % 262144;
    var low := mid % 4096;
    assert low == low / 64 * 64 + low % 64;
    assert mid == mid / 4096 * 4096 + low;
  }

  lemma DecodeTwo(c: char, rest: Bytes)
    requires 0x80 <= c as int < 0x800
    ensures DecodeFirst(EncodeScalar(c) + rest) == (c, 2)
  {
    var b := EncodeScalar(c) + rest;
    assert Announced(b[0]) == 2;
    assert Combine(b, 2) == c as int;
  }

  lemma DecodeThree(c: char, rest: Bytes)
    requires 0x800 <= c as int < 0x1_0000
    ensures DecodeFirst(EncodeScalar(c) + rest) == (c, 3)
  {
    var b := EncodeScalar(c) + rest;
    DigitsThree(c as int);
    assert Announced(b[0]) == 3;
    assert Combine(b, 3) == c as int;
    assert WellFormedPrefix(b, 3);
  }

  lemma DecodeFour(c: char, rest: Bytes)
    requires 0x1_0000 <= c as int
    ensures DecodeFirst(EncodeScalar(c) + rest) == (c, 4)
  {
    var b := EncodeScalar(c) + rest;
    DigitsFour(c as int);
    assert Announced(b[0]) == 4;
    assert Combine(b, 4) == c as int;
    assert WellFormedPrefix(b, 4);
  }

  /** Decoding reads back exactly the character whose encoding leads the input. */
  lemma DecodeFirstEncodeScalar(c: char, rest: Bytes)
    ensures DecodeFirst(EncodeScalar(c) + rest) == (c, |EncodeScalar(c)|)
  {
    var n := c as int;
    if n < 0x80 {
    } else if n < 0x800 {
      DecodeTwo(c, rest);
    } else if n < 0x1_0000 {
      DecodeThree(c, rest);
    } else {
      DecodeFour(c, rest);
    }
  }

  /** Decoding inverts encoding: a passphrase saved as UTF-8 reads back unchanged. */
  lemma {:induction false} DecodeEncode(s: string)
    ensures Decode(Encode(s)) == s
  {
    if |s| > 0 {
      var e := EncodeScalar(s[0]);
      var rest := Encode(s[1..]);
      assert Encode(s) == e + rest;
      DecodeFirstEncodeScalar(s[0], rest);
      assert (e + rest)[|e|..] == rest;
      DecodeEncode(s[1..]);
      assert [s[0]] + s[1..] == s;
    }
  }
}
