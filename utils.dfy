/**
 * String helpers of `zutils/src/utils.rs`: suffix removal and the
 * "decode UTF-8 or show a placeholder" conversion. UTF-8 is the
 * well-formed byte syntax of section 4 of RFC 3629, which is what Rust's
 * `std::str::from_utf8` accepts.
 */
module Utils {
  import opened Wrappers

  newtype byte = x: int | 0 <= x < 256

  // ---------------------------------------------------------------------
  // remove_suffix
  // ---------------------------------------------------------------------

  predicate EndsWith(s: string, suffix: string) {
    |suffix| <= |s| && s[|s| - |suffix|..] == suffix
  }

  /** `strip_suffix`, falling back to the input when it does not end with `suffix`. */
  function RemoveSuffix(input: string, suffix: string): (r: string)
    ensures EndsWith(input, suffix) ==> r + suffix == input
    ensures !EndsWith(input, suffix) ==> r == input
    ensures r == input[..|r|] && |r| >= |input| - |suffix|
  {
    if EndsWith(input, suffix) then input[..|input| - |suffix|] else input
  }

  /** An empty suffix leaves every input unchanged. */
  lemma {:induction false} RemoveEmptySuffix(input: string)
    ensures RemoveSuffix(input, "") == input
  {
    assert EndsWith(input, "");
  }

  /** At most one copy of the suffix is removed: `"abab"` minus `"ab"` is `"ab"`. */
  lemma {:induction false} RemoveSuffixOnce(body: string, suffix: string)
    ensures RemoveSuffix(body + suffix + suffix, suffix) == body + suffix
  {
    var s := body + suffix + suffix;
    assert s[|s| - |suffix|..] == suffix;
    assert s[..|s| - |suffix|] == body + suffix;
  }

  // ---------------------------------------------------------------------
  // UTF-8 (RFC 3629, section 4)
  // ---------------------------------------------------------------------

  predicate IsTail(b: byte) { 0x80 <= b <= 0xBF }

  /** Number of bytes of the well-formed sequence starting at `b[0]`, or 0 if none. */
  function SequenceLength(b: seq<byte>): (n: nat)
    ensures n <= 4 && n <= |b|
  {
    if |b| == 0 then 0
    else if b[0] <= 0x7F then 1
    else if 0xC2 <= b[0] <= 0xDF then
      (if |b| >= 2 && IsTail(b[1]) then 2 else 0)
    else if 0xE0 <= b[0] <= 0xEF then
      (if |b| >= 3 && IsTail(b[1]) && IsTail(b[2])
          && (b[0] != 0xE0 || b[1] >= 0xA0)
          && (b[0] != 0xED || b[1] <= 0x9F)
       then 3 else 0)
    else if 0xF0 <= b[0] <= 0xF4 then
      (if |b| >= 4 && IsTail(b[1]) && IsTail(b[2]) && IsTail(b[3])
          && (b[0] != 0xF0 || b[1] >= 0x90)
          && (b[0] != 0xF4 || b[1] <= 0x8F)
       then 4 else 0)
    else 0
  }

  /** The scalar value encoded by the well-formed sequence at the front of `b`. */
  function DecodeScalar(b: seq<byte>): (c: char)
    requires SequenceLength(b) > 0
  {
    var n := SequenceLength(b);
    if n == 1 then b[0] as char
    else if n == 2 then
      ((b[0] as int - 0xC0) * 64 + (b[1] as int - 0x80)) as char
    else if n == 3 then
      var v := (b[0] as int - 0xE0) * 4096 + (b[1] as int - 0x80) * 64 + (b[2] as int - 0x80);
      assert v < 0xD800 || 0xE000 <= v;
      v as char
    else
      ((b[0] as int - 0xF0) * 262144 + (b[1] as int - 0x80) * 4096
       + (b[2] as int - 0x80) * 64 + (b[3] as int - 0x80)) as char
  }

  /** The UTF-8 encoding of one scalar value. */
  function EncodeScalar(c: char): (b: seq<byte>)
    ensures 1 <= |b| <= 4
  {
    var v := c as int;
    if v < 0x80 then [v as byte]
    else if v < 0x800 then [(0xC0 + v / 64) as byte, (0x80 + v % 64) as byte]
    else if v < 0x10000 then
      [(0xE0 + v / 4096) as byte, (0x80 + (v / 64) % 64) as byte, (0x80 + v % 64) as byte]
    else
      [(0xF0 + v / 262144) as byte, (0x80 + (v / 4096) % 64) as byte,
       (0x80 + (v / 64) % 64) as byte, (0x80 + v % 64) as byte]
  }

  function EncodeUtf8(s: string): seq<byte> {
    if |s| == 0 then [] else EncodeScalar(s[0]) + EncodeUtf8(s[1..])
  }

  /** `std::str::from_utf8`: the text when `b` is well-formed UTF-8, none otherwise. */
  function DecodeUtf8(b: seq<byte>): Option<string>
    decreases |b|
  {
    if |b| == 0 then Some("")
    else
      var n := SequenceLength(b);
      if n == 0 then None
      else match DecodeUtf8(b[n..])
        case None => None
        case Some(rest) => Some([DecodeScalar(b)] + rest)
  }

  /** One-, two-, three- and four-byte encodings decode back to their scalar value. */
  lemma {:induction false} ScalarRoundTrip(c: char, tail: seq<byte>)
    ensures SequenceLength(EncodeScalar(c) + tail) == |EncodeScalar(c)|
    ensures DecodeScalar(EncodeScalar(c) + tail) == c
  {
    var v := c as int;
    if v < 0x80 {
    } else if v < 0x800 {
      TwoByteScalar(c, tail);
    } else if v < 0x10000 {
      ThreeByteScalar(c, tail);
    } else {
      FourByteScalar(c, tail);
    }
  }

  lemma {:induction false} TwoByteScalar(c: char, tail: seq<byte>)
    requires 0x80 <= c as int < 0x800
    ensures SequenceLength(EncodeScalar(c) + tail) == 2
    ensures DecodeScalar(EncodeScalar(c) + tail) == c
  {
    var v := c as int;
    var r := v % 64;
    var w := v / 64;
    assert v == 64 * w + r;
    assert 2 <= w < 32;
    var b := EncodeScalar(c) + tail;
    assert b[0] as int == 0xC0 + w && b[1] as int == 0x80 + r;
  }

  lemma {:induction false} ThreeByteScalar(c: char, tail: seq<byte>)
    requires 0x800 <= c as int < 0x10000
    ensures SequenceLength(EncodeScalar(c) + tail) == 3
    ensures DecodeScalar(EncodeScalar(c) + tail) == c
  {
    var v := c as int;
    var r := v % 64;
    var w := v / 64;
    var m := w % 64;
    var x := w / 64;
    assert v == 64 * w + r && w == 64 * x + m;
    assert v / 4096 == x && x < 16;
    assert x == 0 ==> m >= 32;
    assert x == 13 ==> m < 32;
    var b := EncodeScalar(c) + tail;
    assert b[0] as int == 0xE0 + x && b[1] as int == 0x80 + m && b[2] as int == 0x80 + r;
  }

  lemma {:induction false} FourByteScalar(c: char, tail: seq<byte>)
    requires 0x10000 <= c as int
    ensures SequenceLength(EncodeScalar(c) + tail) == 4
    ensures DecodeScalar(EncodeScalar(c) + tail) == c
  {
    var v := c as int;
    var r := v % 64;
    var w := v / 64;
    var m := w % 64;
    var x := w / 64;
    var k := x % 64;
    var q := x / 64;
    assert v == 64 * w + r && w == 64 * x + m && x == 64 * q + k;
    assert v / 4096 == x && v / 262144 == q;
    assert v <= 0x10FFFF;
    assert q <= 4;
    assert q == 0 ==> k >= 16;
    assert q == 4 ==> k < 16;
    var b := EncodeScalar(c) + tail;
    assert b[0] as int == 0xF0 + q && b[1] as int == 0x80 + k;
    assert b[2] as int == 0x80 + m && b[3] as int == 0x80 + r;
  }

  /** A well-formed sequence is the encoding of the scalar value it decodes to. */
  lemma {:induction false} ScalarBytesRoundTrip(b: seq<byte>)
    requires SequenceLength(b) > 0
    ensures EncodeScalar(DecodeScalar(b)) == b[..SequenceLength(b)]
  {
    var n := SequenceLength(b);
    if n == 2 {
      TwoBytesRoundTrip(b);
    } else if n == 3 {
      ThreeBytesRoundTrip(b);
    } else if n == 4 {
      FourBytesRoundTrip(b);
    }
  }

  lemma {:induction false} TwoBytesRoundTrip(b: seq<byte>)
    requires SequenceLength(b) == 2
    ensures EncodeScalar(DecodeScalar(b)) == b[..2]
  {
    var x, r := b[0] as int - 0xC0, b[1] as int - 0x80;
    var v := DecodeScalar(b) as int;
    assert v == x * 64 + r;
    assert v / 64 == x && v % 64 == r;
    var e := EncodeScalar(DecodeScalar(b));
    assert e == [(0xC0 + x) as byte, (0x80 + r) as byte];
  }

  lemma {:induction false} ThreeBytesRoundTrip(b: seq<byte>)
    requires SequenceLength(b) == 3
    ensures EncodeScalar(DecodeScalar(b)) == b[..3]
  {
    var x, m, r := b[0] as int - 0xE0, b[1] as int - 0x80, b[2] as int - 0x80;
    var v := DecodeScalar(b) as int;
    assert v == x * 4096 + m * 64 + r;
    assert 0x800 <= v < 0x10000;
    assert v / 64 == x * 64 + m && v % 64 == r;
    assert v / 4096 == x && (v / 64) % 64 == m;
    var e := EncodeScalar(DecodeScalar(b));
    assert e == [(0xE0 + x) as byte, (0x80 + m) as byte, (0x80 + r) as byte];
  }

  lemma {:induction false} FourBytesRoundTrip(b: seq<byte>)
    requires SequenceLength(b) == 4
    ensures EncodeScalar(DecodeScalar(b)) == b[..4]
  {
    var q, k, m, r := b[0] as int - 0xF0, b[1] as int - 0x80, b[2] as int - 0x80, b[3] as int - 0x80;
    var v := DecodeScalar(b) as int;
    assert v == q * 262144 + k * 4096 + m * 64 + r;
    assert 0x10000 <= v;
    assert v / 64 == q * 4096 + k * 64 + m && v % 64 == r;
    assert (v / 64) % 64 == m;
    assert v / 4096 == q * 64 + k && (v / 4096) % 64 == k;
    assert v / 262144 == q;
    var e := EncodeScalar(DecodeScalar(b));
    assert e == [(0xF0 + q) as byte, (0x80 + k) as byte, (0x80 + m) as byte, (0x80 + r) as byte];
  }

  /** Decoding the encoding of any text gives the text back. */
  lemma {:induction false} DecodeEncode(s: string)
    ensures DecodeUtf8(EncodeUtf8(s)) == Some(s)
  {
    if |s| > 0 {
      var e := EncodeScalar(s[0]);
      ScalarRoundTrip(s[0], EncodeUtf8(s[1..]));
      DecodeEncode(s[1..]);
      assert (e + EncodeUtf8(s[1..]))[|e|..] == EncodeUtf8(s[1..]);
      assert s == [s[0]] + s[1..];
    }
  }

  /** Decoding succeeds only on the encoding of the decoded text. */
  lemma {:induction false} EncodeDecode(b: seq<byte>, s: string)
    requires DecodeUtf8(b) == Some(s)
    ensures EncodeUtf8(s) == b
    decreases |b|
  {
    if |b| > 0 {
      var n, c, rest := DecodeStep(b, s);
      EncodeDecode(b[n..], rest);
      EncodeFirst(b, rest);
    }
  }

  /** Encoding the first decoded character and then `rest` re-creates the first sequence of `b`. */
  lemma {:induction false} EncodeFirst(b: seq<byte>, rest: string)
    requires SequenceLength(b) > 0
    ensures EncodeUtf8([DecodeScalar(b)] + rest) == b[..SequenceLength(b)] + EncodeUtf8(rest)
  {
    ScalarBytesRoundTrip(b);
    EncodeCons(DecodeScalar(b), rest);
  }

  /** A successful decoding of non-empty bytes starts with one well-formed sequence. */
  lemma {:induction false} DecodeStep(b: seq<byte>, s: string) returns (n: nat, c: char, rest: string)
    requires |b| > 0 && DecodeUtf8(b) == Some(s)
    ensures n == SequenceLength(b) && n > 0
    ensures c == DecodeScalar(b) && DecodeUtf8(b[n..]) == Some(rest) && s == [c] + rest
    ensures b == b[..n] + b[n..]
  {
    n := SequenceLength(b);
    c := DecodeScalar(b);
    rest := DecodeUtf8(b[n..]).value;
  }

  /** Encoding a text is encoding its first character, then the rest. */
  lemma {:induction false} EncodeCons(c: char, rest: string)
    ensures EncodeUtf8([c] + rest) == EncodeScalar(c) + EncodeUtf8(rest)
  {
    assert ([c] + rest)[1..] == rest;
  }

  const NotRepresentable: string := "<not_representable>"

  /** The decoded text for well-formed UTF-8, the placeholder otherwise. */
  function StringOrEmptyFromU8(b: seq<byte>): (r: string)
    ensures DecodeUtf8(b).Some? ==> EncodeUtf8(r) == b
    ensures DecodeUtf8(b).None? ==> r == NotRepresentable
  {
    match DecodeUtf8(b)
    case Some(s) => EncodeDecode(b, s); s
    case None => NotRepresentable
  }
}
