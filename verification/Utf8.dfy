/** UTF-8 (section 3 of RFC 3629): encoding of Unicode scalar values and the
    lossy decoder of `String::from_utf8_lossy`. */
module Utf8 {
  import opened Prelude

  // ----------------------------------------------------------------- encoding

  function EncodeChar(c: char): (bytes: seq<byte>)
    ensures 1 <= |bytes| <= 4
    ensures c as int < 0x80 <==> |bytes| == 1
  {
    var n := c as int;
    if n < 0x80 then [n]
    else if n < 0x800 then [0xC0 + n / 64, 0x80 + n % 64]
    else if n < 0x10000 then [0xE0 + n / 4096, 0x80 + n / 64 % 64, 0x80 + n % 64]
    else [0xF0 + n / 262144, 0x80 + n / 4096 % 64, 0x80 + n / 64 % 64, 0x80 + n % 64]
  }

  function Encode(s: string): seq<byte> {
    if s == "" then [] else EncodeChar(s[0]) + Encode(s[1..])
  }

  lemma {:induction false} EncodeConcat(s: string, t: string)
    ensures Encode(s + t) == Encode(s) + Encode(t)
  {
    if s == "" {
      assert s + t == t;
    } else {
      assert (s + t)[1..] == s[1..] + t;
      EncodeConcat(s[1..], t);
    }
  }

  // ----------------------------------------------------------------- decoding

  const REPLACEMENT: char := '\U{FFFD}'

  predicate Continuation(b: byte) {
    0x80 <= b <= 0xBF
  }

  /** The range allowed for the second byte of a multi-byte form. */
  predicate SecondByte(first: byte, second: byte) {
    if first == 0xE0 then 0xA0 <= second <= 0xBF
    else if first == 0xED then 0x80 <= second <= 0x9F
    else if first == 0xF0 then 0x90 <= second <= 0xBF
    else if first == 0xF4 then 0x80 <= second <= 0x8F
    else Continuation(second)
  }

  /** The number of bytes a leading byte announces, 0 when it cannot lead. */
  function Width(first: byte): nat {
    if first < 0x80 then 1
    else if 0xC2 <= first <= 0xDF then 2
    else if 0xE0 <= first <= 0xEF then 3
    else if 0xF0 <= first <= 0xF4 then 4
    else 0
  }

  /** How many bytes at the front form a valid sequence, or the start of one. */
  function ValidPrefix(b: seq<byte>): (n: nat)
    requires b != []
    ensures n <= Width(b[0]) && n <= |b|
  {
    var w := Width(b[0]);
    if w == 0 then 0
    else if w == 1 || |b| < 2 || !SecondByte(b[0], b[1]) then 1
    else if w == 2 || |b| < 3 || !Continuation(b[2]) then 2
    else if w == 3 || |b| < 4 || !Continuation(b[3]) then 3
    else 4
  }

  function Scalar(b: seq<byte>): (n: int)
    requires b != [] && Width(b[0]) > 0 && ValidPrefix(b) == Width(b[0])
    ensures 0 <= n < 0xD800 || 0xE000 <= n < 0x11_0000
  {
    var w := Width(b[0]);
    var b0: int := b[0];
    if w == 1 then b0
    else
      var b1: int := b[1];
      if w == 2 then (b0 - 0xC0) * 64 + (b1 - 0x80)
      else
        var b2: int := b[2];
        if w == 3 then (b0 - 0xE0) * 4096 + (b1 - 0x80) * 64 + (b2 - 0x80)
        else
          var b3: int := b[3];
          (b0 - 0xF0) * 262144 + (b1 - 0x80) * 4096 + (b2 - 0x80) * 64 + (b3 - 0x80)
  }

  /** Valid sequences are decoded; each maximal prefix of one that breaks off
      becomes one replacement character. */
  function DecodeLossy(b: seq<byte>): string
    decreases |b|
  {
    if b == [] then ""
    else
      var n := ValidPrefix(b);
      if n > 0 && n == Width(b[0]) then [Scalar(b) as char] + DecodeLossy(b[n..])
      else [REPLACEMENT] + DecodeLossy(b[if n == 0 then 1 else n..])
  }

  // --------------------------------------------------------------- round trip

  /** The digits of a code point in base 64 and back. */
  lemma Base64Digits(n: nat)
    ensures n == n / 64 * 64 + n % 64
    ensures n / 64 == n / 4096 * 64 + n / 64 % 64
    ensures n / 4096 == n / 262144 * 64 + n / 4096 % 64
  {
  }

  lemma DecodeChar(c: char, rest: seq<byte>)
    ensures var b := EncodeChar(c) + rest;
            && Width(b[0]) == ValidPrefix(b) == |EncodeChar(c)|
            && Scalar(b) == c as int
  {
    Base64Digits(c as int);
  }

  /** Decoding undoes encoding for every string of scalar values. */
  lemma {:induction false} DecodeEncode(s: string)
    ensures DecodeLossy(Encode(s)) == s
  {
    if s != "" {
      var b := Encode(s);
      DecodeChar(s[0], Encode(s[1..]));
      assert b[|EncodeChar(s[0])|..] == Encode(s[1..]);
      DecodeEncode(s[1..]);
    }
  }

  // ---------------------------------------------------------------- any bytes at all

  /** The first `n` bytes begin the encoding of some character. */
  ghost predicate Begins(b: seq<byte>, n: nat) {
    n <= |b| && exists c: char :: n <= |EncodeChar(c)| && EncodeChar(c)[..n] == b[..n]
  }

  /** The least byte that may follow these. */
  function Following(b: seq<byte>): byte
    requires b != []
  {
    if |b| > 1 then 0x80 else if b[0] == 0xE0 then 0xA0 else if b[0] == 0xF0 then 0x90 else 0x80
  }

  /** A valid start, filled up to a whole sequence. */
  function Filled(b: seq<byte>): (full: seq<byte>)
    requires b != [] && Width(b[0]) > 0 && |b| <= Width(b[0]) && ValidPrefix(b) == |b|
    ensures |full| == Width(b[0]) == ValidPrefix(full) && full[..|b|] == b
    decreases 4 - |b|
  {
    if |b| == Width(b[0]) then b
    else
      var more := b + [Following(b)];
      assert ValidPrefix(more) == |more|;
      var full := Filled(more);
      assert full[..|b|] == full[..|more|][..|b|];
      full
  }

  lemma DigitsBack(high: nat, low: nat)
    requires low < 64
    ensures (high * 64 + low) / 64 == high && (high * 64 + low) % 64 == low
  {
  }

  /** Encoding undoes decoding of a valid sequence. */
  lemma EncodeScalar(b: seq<byte>)
    requires b != [] && Width(b[0]) == |b| == ValidPrefix(b)
    ensures EncodeChar(Scalar(b) as char) == b
  {
    var n := Scalar(b);
    if |b| > 1 {
      var x1: nat := b[1] - 0x80;
      if |b| == 2 {
        DigitsBack(b[0] - 0xC0, x1);
        assert 0x80 <= n < 0x800;
      } else {
        var x2: nat := b[2] - 0x80;
        if |b| == 3 {
          EncodeThree(b, b[0] - 0xE0, x1, x2);
        } else {
          EncodeFour(b, b[0] - 0xF0, x1, x2, b[3] - 0x80);
        }
      }
    }
  }

  lemma EncodeThree(b: seq<byte>, x0: nat, x1: nat, x2: nat)
    requires |b| == 3 == Width(b[0]) == ValidPrefix(b)
    requires x0 == b[0] - 0xE0 && x1 == b[1] - 0x80 && x2 == b[2] - 0x80 && x1 < 64 && x2 < 64
    ensures EncodeChar(Scalar(b) as char) == b
  {
    DigitsBack(x0 * 64 + x1, x2);
    DigitsBack(x0, x1);
    var n := Scalar(b);
    assert n == (x0 * 64 + x1) * 64 + x2;
    assert n / 4096 == n / 64 / 64;
  }

  lemma EncodeFour(b: seq<byte>, x0: nat, x1: nat, x2: nat, x3: nat)
    requires |b| == 4 == Width(b[0]) == ValidPrefix(b)
    requires x0 == b[0] - 0xF0 && x1 == b[1] - 0x80 && x2 == b[2] - 0x80 && x3 == b[3] - 0x80
    requires x1 < 64 && x2 < 64 && x3 < 64
    ensures EncodeChar(Scalar(b) as char) == b
  {
    DigitsBack((x0 * 64 + x1) * 64 + x2, x3);
    DigitsBack(x0 * 64 + x1, x2);
    DigitsBack(x0, x1);
    var n := Scalar(b);
    assert n == ((x0 * 64 + x1) * 64 + x2) * 64 + x3;
    assert n / 4096 == n / 64 / 64 && n / 262144 == n / 4096 / 64;
  }

  lemma PrefixBegins(b: seq<byte>)
    requires b != []
    ensures Begins(b, ValidPrefix(b))
  {
    var n := ValidPrefix(b);
    if n > 0 {
      ValidPrefixOfPrefix(b, n);
      var full := Filled(b[..n]);
      EncodeScalar(full);
      var c := Scalar(full) as char;
      assert EncodeChar(c)[..n] == b[..n];
    } else {
      assert EncodeChar('a')[..0] == b[..0];
    }
  }

  lemma ValidPrefixOfPrefix(b: seq<byte>, n: nat)
    requires b != [] && 0 < n <= ValidPrefix(b)
    ensures ValidPrefix(b[..n]) == n
  {
  }

  lemma LongestBegins(b: seq<byte>, n: nat)
    requires b != [] && Begins(b, n)
    ensures n <= ValidPrefix(b)
  {
    if n > 0 {
      var c: char :| n <= |EncodeChar(c)| && EncodeChar(c)[..n] == b[..n];
      DecodeChar(c, []);
      assert EncodeChar(c) + [] == EncodeChar(c);
      ValidPrefixOfPrefix(EncodeChar(c), n);
      assert ValidPrefix(b[..n]) == n;
    }
  }

  /** How any bytes are decoded (section 3.9 of the Unicode Standard): a
      character for its encoding, and one replacement for the longest start of
      an encoding that breaks off, or for a byte that starts none. */
  lemma DecodeLossyIs(b: seq<byte>)
    requires b != []
    ensures forall c: char :: EncodeChar(c) <= b ==> DecodeLossy(b) == [c] + DecodeLossy(b[|EncodeChar(c)|..])
    ensures forall n: nat :: (forall c: char :: !(EncodeChar(c) <= b)) && Begins(b, n) && !Begins(b, n + 1) ==>
              DecodeLossy(b) == [REPLACEMENT] + DecodeLossy(b[if n == 0 then 1 else n..])
  {
    forall c: char | EncodeChar(c) <= b ensures DecodeLossy(b) == [c] + DecodeLossy(b[|EncodeChar(c)|..]) {
      var rest := b[|EncodeChar(c)|..];
      assert b == EncodeChar(c) + rest;
      DecodeChar(c, rest);
    }
    forall n: nat | (forall c: char :: !(EncodeChar(c) <= b)) && Begins(b, n) && !Begins(b, n + 1)
      ensures DecodeLossy(b) == [REPLACEMENT] + DecodeLossy(b[if n == 0 then 1 else n..])
    {
      BrokenOff(b, n);
    }
  }

  lemma ShorterBegins(b: seq<byte>, n: nat, m: nat)
    requires n <= m && Begins(b, m)
    ensures Begins(b, n)
  {
    var c: char :| m <= |EncodeChar(c)| && EncodeChar(c)[..m] == b[..m];
    assert EncodeChar(c)[..n] == EncodeChar(c)[..m][..n] == b[..m][..n] == b[..n];
  }

  lemma WholeStarts(b: seq<byte>)
    requires b != [] && 0 < ValidPrefix(b) == Width(b[0])
    ensures exists c: char :: EncodeChar(c) <= b
  {
    var n := ValidPrefix(b);
    ValidPrefixOfPrefix(b, n);
    EncodeScalar(b[..n]);
    assert EncodeChar(Scalar(b[..n]) as char) <= b;
  }

  lemma BrokenOff(b: seq<byte>, n: nat)
    requires b != [] && (forall c: char :: !(EncodeChar(c) <= b)) && Begins(b, n) && !Begins(b, n + 1)
    ensures n == ValidPrefix(b) && (n == 0 || n < Width(b[0]))
  {
    LongestBegins(b, n);
    PrefixBegins(b);
    if n < ValidPrefix(b) {
      ShorterBegins(b, n + 1, ValidPrefix(b));
    }
    if 0 < ValidPrefix(b) == Width(b[0]) {
      WholeStarts(b);
    }
  }
}
