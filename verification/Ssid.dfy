/** SSID escaping for wpa_supplicant (libnetwork-daemon/src/utils/ssid.rs). */
module Ssid {
  import opened Prelude
  import opened Text
  import opened Utf8

  // ----------------------------------------------------------------- escaping

  predicate IsAsciiControl(c: char) {
    c as int < 0x20 || c as int == 0x7F
  }

  function EscapeChar(c: char): string {
    match c
    case '\\' => "\\\\"
    case '"' => "\\\""
    case '\n' => "\\n"
    case '\r' => "\\r"
    case '\t' => "\\t"
    case _ => if IsAsciiControl(c) || c == ' ' then "\\x" + Hex2(c as int) else [c]
  }

  function Escaped(s: string): string {
    if s == "" then "" else EscapeChar(s[0]) + Escaped(s[1..])
  }

  lemma EscapedNext(done: string, s: string, i: nat)
    requires i < |s|
    ensures done + EscapeChar(s[i]) + Escaped(s[i + 1..]) == done + Escaped(s[i..])
  {
    assert s[i..][0] == s[i] && s[i..][1..] == s[i + 1..];
    var (e, rest) := (EscapeChar(s[i]), Escaped(s[i + 1..]));
    assert Escaped(s[i..]) == e + rest;
  }

  method EscapeSsid(s: string) returns (result: string)
    ensures result == Escaped(s)
  {
    result := "";
    for i := 0 to |s|
      invariant result + Escaped(s[i..]) == Escaped(s)
    {
      EscapedNext(result, s, i);
      result := result + EscapeChar(s[i]);
    }
  }

  // --------------------------------------------------------------- unescaping

  predicate IsOctal(c: char) {
    '0' <= c <= '7'
  }

  /** How many of at most `limit` leading characters are octal digits. */
  function OctalRun(s: string, limit: nat): (n: nat)
    ensures n <= limit && n <= |s|
    ensures forall i :: 0 <= i < n ==> IsOctal(s[i])
    ensures n == limit || n == |s| || !IsOctal(s[n])
  {
    if limit == 0 || s == "" || !IsOctal(s[0]) then 0 else 1 + OctalRun(s[1..], limit - 1)
  }

  /** What the text just after a backslash stands for, and how much of it is
      used up. */
  function AfterBackslash(t: string): (r: (seq<byte>, nat))
    ensures r.1 <= |t|
  {
    if t == "" then ([0x5C], 0)
    else if t[0] == 'x' || t[0] == 'X' then
      var hex := t[1..if |t| < 3 then |t| else 3];
      var b := ParseU8(hex, 16);
      if |Encode(hex)| == 2 && b.Some? then ([b.value], 1 + |hex|)
      else ([0x5C, 0x78] + Encode(hex), 1 + |hex|)
    else if t[0] == '\\' then ([0x5C], 1)
    else if t[0] == '"' then ([0x22], 1)
    else if t[0] == 'n' then ([0x0A], 1)
    else if t[0] == 'r' then ([0x0D], 1)
    else if t[0] == 't' then ([0x09], 1)
    else if IsOctal(t[0]) then
      var n := OctalRun(t, 3);
      var b := ParseU8(t[..n], 8);
      if b.Some? then ([b.value], n) else ([0x5C] + Encode(t[..n]), n)
    else ([0x5C], 0)
  }

  /** The bytes collected before lossy decoding. */
  function UnescapedBytes(s: string): seq<byte>
    decreases |s|
  {
    if s == "" then []
    else if s[0] == '\\' then
      var (bytes, used) := AfterBackslash(s[1..]);
      bytes + UnescapedBytes(s[1 + used..])
    else EncodeChar(s[0]) + UnescapedBytes(s[1..])
  }

  /** One turn of the unescaping loop: what it pushes, and what is left. */
  lemma UnescapeStep(s: string, i: nat, pushed: seq<byte>, next: nat)
    requires i < next <= |s|
    requires if s[i] == '\\' then (pushed, next - i - 1) == AfterBackslash(s[i + 1..])
             else pushed == EncodeChar(s[i]) && next == i + 1
    ensures UnescapedBytes(s[i..]) == pushed + UnescapedBytes(s[next..])
  {
    var rest := s[i..];
    assert rest[1..] == s[i + 1..];
    assert rest[next - i..] == s[next..];
    assert UnescapedBytes(rest) == pushed + UnescapedBytes(s[next..]);
  }

  /** The loop body of the first pass: one character or one escape. */
  method NextPiece(s: string, i: nat) returns (pushed: seq<byte>, next: nat)
    requires i < |s|
    ensures i < next <= |s|
    ensures UnescapedBytes(s[i..]) == pushed + UnescapedBytes(s[next..])
  {
    var used := 0;
    if s[i] == '\\' {
      pushed, used := ConsumeEscape(s, i + 1);
    } else {
      pushed := EncodeChar(s[i]);
    }
    next := i + 1 + used;
    UnescapeStep(s, i, pushed, next);
  }

  /** The first pass: escape sequences to bytes. */
  method CollectBytes(s: string) returns (bytes: seq<byte>)
    ensures bytes == UnescapedBytes(s)
  {
    bytes := [];
    var i := 0;
    ghost var left := UnescapedBytes(s);
    assert s[0..] == s;
    while i < |s|
      invariant 0 <= i <= |s|
      invariant left == UnescapedBytes(s[i..])
      invariant bytes + left == UnescapedBytes(s)
    {
      var pushed, next := NextPiece(s, i);
      bytes := bytes + pushed;
      left := left[|pushed|..];
      i := next;
    }
    assert left == [];
  }

  method UnescapeSsid(s: string) returns (r: string)
    ensures r == DecodeLossy(UnescapedBytes(s))
  {
    var bytes := CollectBytes(s);
    r := DecodeLossy(bytes);
  }

  /** The match on the character that follows a backslash. */
  method ConsumeEscape(s: string, from: nat) returns (bytes: seq<byte>, used: nat)
    requires from <= |s|
    ensures (bytes, used) == AfterBackslash(s[from..])
    ensures from + used <= |s|
  {
    if from < |s| && (s[from] == 'x' || s[from] == 'X') {
      var hex := s[from + 1..if |s| - from < 3 then |s| else from + 3];
      assert hex == s[from..][1..if |s| - from < 3 then |s| - from else 3];
      used := 1 + |hex|;
      var b := ParseU8(hex, 16);
      if |Encode(hex)| == 2 && b.Some? {
        bytes := [b.value];
      } else {
        bytes := [0x5C, 0x78] + Encode(hex);
      }
    } else if from < |s| && s[from] == '\\' {
      bytes, used := [0x5C], 1;
    } else if from < |s| && s[from] == '"' {
      bytes, used := [0x22], 1;
    } else if from < |s| && s[from] == 'n' {
      bytes, used := [0x0A], 1;
    } else if from < |s| && s[from] == 'r' {
      bytes, used := [0x0D], 1;
    } else if from < |s| && s[from] == 't' {
      bytes, used := [0x09], 1;
    } else if from < |s| && IsOctal(s[from]) {
      var octal := CollectOctal(s, from);
      used := |octal|;
      var b := ParseU8(octal, 8);
      if b.Some? {
        bytes := [b.value];
      } else {
        bytes := [0x5C] + Encode(octal);
      }
    } else {
      bytes, used := [0x5C], 0;
    }
  }

  /** Up to three octal digits starting at `from`. */
  method CollectOctal(s: string, from: nat) returns (octal: string)
    requires from <= |s|
    ensures octal == s[from..][..OctalRun(s[from..], 3)]
  {
    octal := "";
    var t := s[from..];
    while |octal| < 3 && |octal| < |t| && IsOctal(t[|octal|])
      invariant |octal| <= 3 && |octal| <= |t|
      invariant octal == t[..|octal|]
      invariant OctalRun(t, 3) == |octal| + OctalRun(t[|octal|..], 3 - |octal|)
    {
      assert t[|octal|..][1..] == t[|octal| + 1..];
      octal := octal + [t[|octal|]];
    }
  }

  // --------------------------------------------------------------- properties

  /** One escaped character stands for exactly its own bytes, whatever
      follows. */
  lemma UnescapeChar(c: char, rest: string)
    ensures UnescapedBytes(EscapeChar(c) + rest) == EncodeChar(c) + UnescapedBytes(rest)
  {
    var e := EscapeChar(c);
    var s := e + rest;
    if |e| == 1 {
      assert s[1..] == rest;
    } else {
      assert s[1..] == e[1..] + rest;
      if e[1] == 'x' {
        assert s[1..][1..3] == Hex2(c as int);
        ParseHex2(c as int);
        EncodeHex2(c as int);
        assert s[4..] == rest;
      } else {
        assert s[2..] == rest;
      }
    }
  }

  lemma EncodeHex2(b: byte)
    ensures |Encode(Hex2(b))| == 2
  {
    var h := Hex2(b);
    assert h[1..][1..] == "";
    assert Encode(h[1..]) == EncodeChar(h[1]) + Encode("");
    assert Encode(h) == EncodeChar(h[0]) + Encode(h[1..]);
    assert h[0] as int < 0x80 && h[1] as int < 0x80;
  }

  lemma {:induction false} UnescapedBytesOfEscaped(s: string)
    ensures UnescapedBytes(Escaped(s)) == Encode(s)
  {
    if s != "" {
      UnescapeChar(s[0], Escaped(s[1..]));
      UnescapedBytesOfEscaped(s[1..]);
    }
  }

  /** Unescaping recovers every SSID that was escaped. */
  lemma RoundTrip(s: string)
    ensures DecodeLossy(UnescapedBytes(Escaped(s))) == s
  {
    UnescapedBytesOfEscaped(s);
    DecodeEncode(s);
  }

  lemma EscapeInjective(s: string, t: string)
    ensures Escaped(s) == Escaped(t) <==> s == t
  {
    RoundTrip(s);
    RoundTrip(t);
  }

  /** An escaped SSID can stand inside a quoted control command: it holds no
      control character and no space, and a quote only right after a
      backslash. */
  lemma {:induction false} EscapedIsSafe(s: string)
    ensures forall i :: 0 <= i < |Escaped(s)| ==>
              && !IsAsciiControl(Escaped(s)[i]) && Escaped(s)[i] != ' '
              && (Escaped(s)[i] == '"' ==> i > 0 && Escaped(s)[i - 1] == '\\')
  {
    if s != "" {
      EscapedIsSafe(s[1..]);
      var e, rest := EscapeChar(s[0]), Escaped(s[1..]);
      forall i | 0 <= i < |Escaped(s)|
        ensures !IsAsciiControl(Escaped(s)[i]) && Escaped(s)[i] != ' '
        ensures Escaped(s)[i] == '"' ==> i > 0 && Escaped(s)[i - 1] == '\\'
      {
        if i >= |e| {
          assert Escaped(s)[i] == rest[i - |e|];
        }
      }
    }
  }

  /** The byte buffer reserved from the input's length never has to grow: an
      escape never stands for more bytes than it takes to write. */
  lemma {:induction false} BytesBounded(s: string)
    ensures |UnescapedBytes(s)| <= |Encode(s)|
    decreases |s|
  {
    if s == "" {
    } else if s[0] == '\\' {
      var t := s[1..];
      var (bytes, used) := AfterBackslash(t);
      AfterBackslashBounded(t);
      assert t == t[..used] + t[used..];
      EncodeConcat(t[..used], t[used..]);
      assert s[1 + used..] == t[used..];
      BytesBounded(s[1 + used..]);
    } else {
      BytesBounded(s[1..]);
    }
  }

  lemma AfterBackslashBounded(t: string)
    ensures var (bytes, used) := AfterBackslash(t); |bytes| <= 1 + |Encode(t[..used])|
  {
  }

  // --------------------------------------------------------- texts of other makers

  /** Two characters after `\x` that stand for a byte: hexadecimal digits in
      either case, or a plus sign and one digit. */
  predicate HexReads(h: string, v: nat) {
    && |h| == 2
    && if h[0] == '+' then DigitValue(h[1], 16) == Some(v)
       else DigitValue(h[0], 16).Some? && DigitValue(h[1], 16).Some?
            && v == 16 * DigitValue(h[0], 16).value + DigitValue(h[1], 16).value
  }

  lemma HexReadsIff(h: string, v: nat)
    requires |h| == 2
    ensures ParseU8(h, 16) == Some(v) <==> HexReads(h, v)
  {
    ParseU8Iff(h, 16, v);
    assert h[1..] == [h[1]] && h[1..][1..] == "";
    if h[0] == '+' {
      assert AllDigits(h[1..], 16) <==> DigitValue(h[1], 16).Some?;
      assert DigitValue(h[1], 16).Some? ==> Number(h[1..], 16, 0) == Number("", 16, DigitValue(h[1], 16).value);
    } else {
      assert AllDigits(h, 16) <==> DigitValue(h[0], 16).Some? && DigitValue(h[1], 16).Some?;
      if AllDigits(h, 16) {
        var (a, b) := (DigitValue(h[0], 16).value, DigitValue(h[1], 16).value);
        assert Number(h, 16, 0) == Number(h[1..], 16, a) == Number("", 16, a * 16 + b);
      }
    }
  }

  lemma TwoBytes(h: string)
    requires |h| == 2
    ensures |Encode(h)| == 2 <==> h[0] as int < 0x80 && h[1] as int < 0x80
  {
    assert h[1..] == [h[1]] && h[1..][1..] == "";
    assert Encode(h) == EncodeChar(h[0]) + Encode(h[1..]) && Encode(h[1..]) == EncodeChar(h[1]) + Encode("");
  }

  /** A hexadecimal escape is its byte, or else stays with a small x. */
  lemma HexEscape(x: char, h: string, rest: string)
    requires (x == 'x' || x == 'X') && (|h| == 2 || (|h| < 2 && rest == ""))
    ensures forall v: byte :: HexReads(h, v) ==>
              UnescapedBytes("\\" + [x] + h + rest) == [v] + UnescapedBytes(rest)
    ensures (forall v: byte :: !HexReads(h, v)) ==>
              UnescapedBytes("\\" + [x] + h + rest) == [0x5C, 0x78] + Encode(h) + UnescapedBytes(rest)
  {
    var s := "\\" + [x] + h + rest;
    var hex := s[1..][1..if |s[1..]| < 3 then |s[1..]| else 3];
    assert s[1..] == [x] + h + rest && hex == h && s[2 + |h|..] == rest;
    HexParsed(h);
  }

  /** A byte that is read has been written in ASCII. */
  lemma HexParsed(h: string)
    requires |h| <= 2
    ensures forall v: byte :: HexReads(h, v) <==> |Encode(h)| == 2 && ParseU8(h, 16) == Some(v)
    ensures |h| < 2 ==> forall v: byte :: !HexReads(h, v)
  {
    if |h| == 2 {
      TwoBytes(h);
      forall v: byte ensures HexReads(h, v) <==> ParseU8(h, 16) == Some(v) {
        HexReadsIff(h, v);
      }
    }
  }

  predicate AllOctal(digits: string) {
    forall i :: 0 <= i < |digits| ==> '0' <= digits[i] <= '7'
  }

  lemma OctalDigits(digits: string)
    ensures AllOctal(digits) <==> AllDigits(digits, 8)
  {
    if AllDigits(digits, 8) {
      forall i | 0 <= i < |digits| ensures '0' <= digits[i] <= '7' {
        assert DigitValue(digits[i], 8).Some?;
      }
    }
  }

  lemma OctalSpan(digits: string, rest: string)
    requires |digits| <= 3 && AllOctal(digits)
    requires |digits| == 3 || rest == "" || !('0' <= rest[0] <= '7')
    ensures OctalRun(digits + rest, 3) == |digits|
  {
    var (t, n) := (digits + rest, OctalRun(digits + rest, 3));
    assert n < |digits| ==> t[n] == digits[n];
    assert n > |digits| ==> t[|digits|] == rest[0] && IsOctal(t[|digits|]);
  }

  lemma OctalParsed(digits: string)
    requires digits != "" && AllDigits(digits, 8)
    ensures var v := Number(digits, 8, 0); ParseU8(digits, 8) == if v < 256 then Some(v) else None
  {
    ParseU8Iff(digits, 8, Number(digits, 8, 0));
    assert DigitValue(digits[0], 8).Some?;
    if ParseU8(digits, 8).Some? {
      ParseU8Iff(digits, 8, ParseU8(digits, 8).value);
    }
  }

  /** Up to three octal digits are the byte that they denote, or stay when there
      is none. */
  lemma OctalEscape(digits: string, rest: string)
    requires 1 <= |digits| <= 3 && AllOctal(digits)
    requires |digits| == 3 || rest == "" || !('0' <= rest[0] <= '7')
    ensures AllDigits(digits, 8)
    ensures var v := Number(digits, 8, 0);
            UnescapedBytes("\\" + digits + rest)
            == (if v < 256 then [v] else [0x5C] + Encode(digits)) + UnescapedBytes(rest)
  {
    OctalDigits(digits);
    OctalSpan(digits, rest);
    OctalParsed(digits);
    OctalUsed(digits, rest, Number(digits, 8, 0));
    var s := "\\" + digits + rest;
    assert s[1..] == digits + rest && s[1 + |digits|..] == rest;
  }

  lemma OctalUsed(digits: string, rest: string, v: nat)
    requires digits != "" && AllOctal(digits) && OctalRun(digits + rest, 3) == |digits|
    requires ParseU8(digits, 8) == if v < 256 then Some(v) else None
    ensures AfterBackslash(digits + rest) == (if v < 256 then [v] else [0x5C] + Encode(digits), |digits|)
  {
    var t := digits + rest;
    assert t[..|digits|] == digits && t[0] == digits[0];
  }

  /** Any other backslash stays. */
  lemma UnknownEscape(c: char, rest: string)
    requires c !in "xX\\\"nrt" && !('0' <= c <= '7')
    ensures UnescapedBytes("\\" + [c] + rest) == [0x5C] + UnescapedBytes([c] + rest)
    ensures UnescapedBytes("\\") == [0x5C]
  {
    var s := "\\" + [c] + rest;
    assert s[1..] == [c] + rest;
    assert "\\"[1..] == "";
  }

  /** The ways to write a byte: an ASCII character as itself, a letter after a
      backslash, two hexadecimal digits, three octal ones. */
  predicate Notation(t: string, b: byte) {
    || (|t| == 1 && t[0] != '\\' && t[0] as int == b < 0x80)
    || (|t| == 2 && t[0] == '\\' && NamedByte(t[1], b))
    || (|t| == 4 && t[0] == '\\' && (t[1] == 'x' || t[1] == 'X') && HexReads(t[2..], b))
    || (|t| == 4 && t[0] == '\\' && AllOctal(t[1..])
        && b == 64 * OctalValue(t[1]) + 8 * OctalValue(t[2]) + OctalValue(t[3]))
  }

  function OctalValue(c: char): int {
    c as int - '0' as int
  }

  predicate NamedByte(c: char, b: byte) {
    || (c == '\\' && b == 0x5C) || (c == '"' && b == 0x22)
    || (c == 'n' && b == 10) || (c == 'r' && b == 13) || (c == 't' && b == 9)
  }

  lemma NotationReads(t: string, b: byte, rest: string)
    requires Notation(t, b)
    ensures UnescapedBytes(t + rest) == [b] + UnescapedBytes(rest)
  {
    if |t| < 4 {
      ShortReads(t, b, rest);
    } else if t[1] == 'x' || t[1] == 'X' {
      assert t == "\\" + [t[1]] + t[2..];
      HexEscape(t[1], t[2..], rest);
    } else {
      assert t == "\\" + t[1..];
      ThreeOctal(t[1..]);
      OctalEscape(t[1..], rest);
    }
  }

  lemma ShortReads(t: string, b: byte, rest: string)
    requires Notation(t, b) && |t| < 4
    ensures UnescapedBytes(t + rest) == [b] + UnescapedBytes(rest)
  {
    var s := t + rest;
    if |t| == 1 {
      assert s[1..] == rest;
    } else {
      assert s[1..][0] == t[1] && s[2..] == rest;
    }
  }

  lemma ThreeOctal(d: string)
    requires |d| == 3 && AllOctal(d)
    ensures AllDigits(d, 8) && Number(d, 8, 0) == 64 * OctalValue(d[0]) + 8 * OctalValue(d[1]) + OctalValue(d[2])
  {
    OctalDigits(d);
    var (a, b, c) := (OctalValue(d[0]), OctalValue(d[1]), OctalValue(d[2]));
    assert d[1..] == [d[1], d[2]] && d[1..][1..] == [d[2]] && d[1..][1..][1..] == "";
    assert DigitValue(d[0], 8) == Some(a) && DigitValue(d[1], 8) == Some(b) && DigitValue(d[2], 8) == Some(c);
    assert Number(d, 8, 0) == Number(d[1..], 8, a) == Number(d[1..][1..], 8, 8 * a + b)
           == Number("", 8, 8 * (8 * a + b) + c);
  }

  function Concatenated(ts: seq<string>): string {
    if ts == [] then "" else ts[0] + Concatenated(ts[1..])
  }

  /** So an SSID is read whatever notation its maker chose for each byte, and
      comes out whole when the bytes are its UTF-8. */
  lemma {:induction false} AnyNotation(ts: seq<string>, bs: seq<byte>)
    requires |ts| == |bs| && forall i :: 0 <= i < |ts| ==> Notation(ts[i], bs[i])
    ensures UnescapedBytes(Concatenated(ts)) == bs
    ensures forall s :: bs == Encode(s) ==> DecodeLossy(UnescapedBytes(Concatenated(ts))) == s
  {
    if ts != [] {
      NotationReads(ts[0], bs[0], Concatenated(ts[1..]));
      AnyNotation(ts[1..], bs[1..]);
    }
    forall s | bs == Encode(s) ensures DecodeLossy(bs) == s {
      DecodeEncode(s);
    }
  }

  /** Only what must be is escaped, by a letter where there is one and by small
      hexadecimal digits otherwise. */
  lemma EscapeCharIs(c: char)
    ensures c as int > 0x20 && c as int != 0x7F && c != '"' && c != '\\' ==> EscapeChar(c) == [c]
    ensures (exists b: byte, x: char :: NamedByte(x, b) && c as int == b) ==> |EscapeChar(c)| == 2
    ensures |EscapeChar(c)| in {1, 2, 4}
    ensures |EscapeChar(c)| == 4 ==>
              EscapeChar(c)[1] == 'x' && forall i :: 2 <= i < 4 ==> LowerChar(EscapeChar(c)[i]) == EscapeChar(c)[i]
  {
  }
}
