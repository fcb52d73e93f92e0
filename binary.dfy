// Bytes, little-endian integer reads and UTF-8 as Rust's standard library
// provides them: `str::as_bytes` (encode) and `std::str::from_utf8`
// (validating decode, RFC 3629 section 4).

module Binary {
  import opened Wrappers

  newtype byte = x: int | 0 <= x < 256

  type Bytes = seq<byte>

  /// Little-endian unsigned value of `b` (`u32::from_le_bytes`, `u64::from_le_bytes`).
  function LittleEndian(b: Bytes): (v: nat)
    ensures v < Pow256(|b|)
  {
    if b == [] then 0 else b[0] as nat + 256 * LittleEndian(b[1..])
  }

  function Pow256(n: nat): (p: nat)
    ensures p >= 1
  {
    if n == 0 then 1 else 256 * Pow256(n - 1)
  }

  predicate IsContinuation(b: byte)
  {
    0x80 <= b <= 0xBF
  }

  /// UTF-8 encoding of one scalar value, in one to four bytes.
  function EncodeChar(c: char): (r: Bytes)
    ensures 1 <= |r| <= 4
    ensures (|r| == 1) == (c as int < 0x80)
  {
    var v := c as int;
    if v < 0x80 then [v as byte]
    else if v < 0x800 then [(0xC0 + v / 64) as byte, (0x80 + v % 64) as byte]
    else if v < 0x1_0000 then
      [(0xE0 + v / 4096) as byte, (0x80 + (v / 64) % 64) as byte, (0x80 + v % 64) as byte]
    else
      [(0xF0 + v / 262144) as byte, (0x80 + (v / 4096) % 64) as byte,
       (0x80 + (v / 64) % 64) as byte, (0x80 + v % 64) as byte]
  }

  /// `str::as_bytes`.
  function Encode(s: string): (r: Bytes)
    ensures |r| >= |s|
  {
    if s == [] then [] else EncodeChar(s[0]) + Encode(s[1..])
  }

  /// The scalar value at the head of `b` and the number of bytes it takes,
  /// or None when the head is not a well-formed UTF-8 sequence (Table 3-7 of
  /// the Unicode Standard: no overlong forms, no surrogates, nothing above
  /// U+10FFFF).
  function DecodeChar(b: Bytes): (r: Option<(char, nat)>)
    ensures r.Some? ==> 1 <= r.value.1 <= |b|
  {
    if b == [] then None
    else
      var b0 := b[0] as int;
      if b0 < 0x80 then Some((b0 as char, 1))
      else if 0xC2 <= b0 <= 0xDF then
        if |b| >= 2 && IsContinuation(b[1]) then
          Some((((b0 - 0xC0) * 64 + (b[1] as int - 0x80)) as char, 2))
        else None
      else if 0xE0 <= b0 <= 0xEF then
        if |b| >= 3 && IsContinuation(b[1]) && IsContinuation(b[2])
          && (b0 != 0xE0 || b[1] >= 0xA0) && (b0 != 0xED || b[1] <= 0x9F)
        then
          Some((((b0 - 0xE0) * 4096 + (b[1] as int - 0x80) * 64 + (b[2] as int - 0x80)) as char, 3))
        else None
      else if 0xF0 <= b0 <= 0xF4 then
        if |b| >= 4 && IsContinuation(b[1]) && IsContinuation(b[2]) && IsContinuation(b[3])
          && (b0 != 0xF0 || b[1] >= 0x90) && (b0 != 0xF4 || b[1] <= 0x8F)
        then
          Some((((b0 - 0xF0) * 262144 + (b[1] as int - 0x80) * 4096
                 + (b[2] as int - 0x80) * 64 + (b[3] as int - 0x80)) as char, 4))
        else None
      else None
  }

  /// `std::str::from_utf8`: the text, or None when `b` is not UTF-8.
  function Decode(b: Bytes): Option<string>
    decreases |b|
  {
    if b == [] then Some([])
    else match DecodeChar(b)
      case None => None
      case Some((c, n)) =>
        match Decode(b[n..])
        case None => None
        case Some(rest) => Some([c] + rest)
  }

  predicate IsUtf8(b: Bytes)
  {
    Decode(b).Some?
  }

  lemma DecodeEncodedTwo(c: char, rest: Bytes)
    requires 0x80 <= c as int < 0x800
    ensures DecodeChar(EncodeChar(c) + rest) == Some((c, 2))
  {
    var v := c as int;
    var hi, lo := v / 64, v % 64;
    assert v == hi * 64 + lo;
    var e := EncodeChar(c) + rest;
    assert e[0] as int == 0xC0 + hi && e[1] as int == 0x80 + lo;
  }

  lemma DecodeEncodedThree(c: char, rest: Bytes)
    requires 0x800 <= c as int < 0x1_0000
    ensures DecodeChar(EncodeChar(c) + rest) == Some((c, 3))
  {
    var v := c as int;
    var q := v / 64;
    var b0, b1, b2 := v / 4096, q % 64, v % 64;
    assert v == q * 64 + b2;
    assert q == b0 * 64 + b1 by { assert v / 4096 == q / 64; }
    var e := EncodeChar(c) + rest;
    assert e[0] as int == 0xE0 + b0 && e[1] as int == 0x80 + b1 && e[2] as int == 0x80 + b2;
  }

  lemma DecodeEncodedFour(c: char, rest: Bytes)
    requires 0x1_0000 <= c as int
    ensures DecodeChar(EncodeChar(c) + rest) == Some((c, 4))
  {
    var v := c as int;
    var q := v / 64;
    var r := q / 64;
    var b0, b1, b2, b3 := v / 262144, r % 64, q % 64, v % 64;
    assert v == q * 64 + b3;
    assert q == r * 64 + b2;
    assert v / 4096 == r;
    assert r == b0 * 64 + b1 by { assert v / 262144 == r / 64; }
    var e := EncodeChar(c) + rest;
    assert e[0] as int == 0xF0 + b0 && e[1] as int == 0x80 + b1;
    assert e[2] as int == 0x80 + b2 && e[3] as int == 0x80 + b3;
  }

  lemma DecodeEncodedChar(c: char, rest: Bytes)
    ensures DecodeChar(EncodeChar(c) + rest) == Some((c, |EncodeChar(c)|))
  {
    var v := c as int;
    if v < 0x80 {
    } else if v < 0x800 {
      DecodeEncodedTwo(c, rest);
    } else if v < 0x1_0000 {
      DecodeEncodedThree(c, rest);
    } else {
      DecodeEncodedFour(c, rest);
    }
  }

  /// Decoding what `Encode` produced gives the text back: every Rust string
  /// is valid UTF-8.
  lemma {:induction false} DecodeEncode(s: string)
    ensures Decode(Encode(s)) == Some(s)
  {
    if s != [] {
      var e := EncodeChar(s[0]);
      var b := Encode(s);
      assert b == e + Encode(s[1..]);
      DecodeEncodedChar(s[0], Encode(s[1..]));
      assert b[|e|..] == Encode(s[1..]);
      DecodeEncode(s[1..]);
      assert Decode(b) == Some([s[0]] + s[1..]);
      assert [s[0]] + s[1..] == s;
    }
  }

  /// ASCII text encodes one byte per character.
  lemma {:induction false} EncodeAscii(s: string)
    requires forall k :: 0 <= k < |s| ==> s[k] as int < 0x80
    ensures |Encode(s)| == |s|
    ensures forall k :: 0 <= k < |s| ==> Encode(s)[k] as int == s[k] as int
  {
    if s != [] {
      EncodeAscii(s[1..]);
    }
  }

  /// The number of bytes an ill-formed sequence at the head of `b` takes:
  /// the longest prefix that could still begin a well-formed sequence, and
  /// at least one byte (the "maximal subpart" of section 3.9 of the Unicode
  /// Standard).
  function InvalidLength(b: Bytes): (n: nat)
    requires b != []
    ensures 1 <= n <= |b| && n <= 3
  {
    var b0 := b[0];
    if 0xE0 <= b0 <= 0xF4 then
      var lo := if b0 == 0xE0 then 0xA0 else if b0 == 0xF0 then 0x90 else 0x80;
      var hi := if b0 == 0xED then 0x9F else if b0 == 0xF4 then 0x8F else 0xBF;
      if |b| >= 2 && lo <= b[1] <= hi then
        if 0xF0 <= b0 && |b| >= 3 && IsContinuation(b[2]) then 3 else 2
      else 1
    else 1
  }

  /// `String::from_utf8_lossy`: the text, with each ill-formed sequence
  /// replaced by U+FFFD.
  function Lossy(b: Bytes): (s: string)
    ensures |s| <= |b|
    decreases |b|
  {
    if b == [] then []
    else match DecodeChar(b)
      case Some((c, n)) => [c] + Lossy(b[n..])
      case None => ['\U{FFFD}'] + Lossy(b[InvalidLength(b)..])
  }

  /// On UTF-8 input the lossy conversion is the decoding.
  lemma {:induction false} LossyOfUtf8(b: Bytes)
    requires IsUtf8(b)
    ensures Lossy(b) == Decode(b).value
    decreases |b|
  {
    if b != [] {
      var n := DecodeChar(b).value.1;
      LossyOfUtf8(b[n..]);
    }
  }

  /// A string's bytes display as the string.
  lemma LossyEncode(s: string)
    ensures Lossy(Encode(s)) == s
  {
    DecodeEncode(s);
    LossyOfUtf8(Encode(s));
  }
}
