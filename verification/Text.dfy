/** The string primitives of the Rust standard library that the codecs rely on:
    trimming, ASCII case folding, splitting and parsing a byte in a radix. */
module Text {
  import opened Prelude

  // ---------------------------------------------------------------- trimming

  /** The code points with the Unicode White_Space property. */
  predicate IsWhitespace(c: char) {
    var n := c as int;
    || 9 <= n <= 13 || n == 32 || n == 0x85 || n == 0xA0 || n == 0x1680
    || 0x2000 <= n <= 0x200A || n == 0x2028 || n == 0x2029 || n == 0x202F
    || n == 0x205F || n == 0x3000
  }

  predicate AllWhitespace(s: string) {
    forall i :: 0 <= i < |s| ==> IsWhitespace(s[i])
  }

  function TrimStart(s: string): string {
    if s != [] && IsWhitespace(s[0]) then TrimStart(s[1..]) else s
  }

  function TrimEnd(s: string): string {
    if s != [] && IsWhitespace(s[|s| - 1]) then TrimEnd(s[..|s| - 1]) else s
  }

  function Trim(s: string): string {
    TrimEnd(TrimStart(s))
  }

  lemma {:induction false} TrimStartDropsPadding(pad: string, s: string)
    requires AllWhitespace(pad)
    requires s == [] || !IsWhitespace(s[0])
    ensures TrimStart(pad + s) == s
  {
    if pad == [] {
      assert pad + s == s;
    } else {
      assert (pad + s)[1..] == pad[1..] + s;
      TrimStartDropsPadding(pad[1..], s);
    }
  }

  lemma {:induction false} TrimEndDropsPadding(s: string, pad: string)
    requires AllWhitespace(pad)
    requires s == [] || !IsWhitespace(s[|s| - 1])
    ensures TrimEnd(s + pad) == s
  {
    if pad == [] {
      assert s + pad == s;
    } else {
      assert (s + pad)[..|s + pad| - 1] == s + pad[..|pad| - 1];
      TrimEndDropsPadding(s, pad[..|pad| - 1]);
    }
  }

  /** Padding of any Unicode white space around a core without it at either
      end disappears. */
  lemma TrimDropsPadding(before: string, s: string, after: string)
    requires AllWhitespace(before) && AllWhitespace(after)
    requires s != [] && !IsWhitespace(s[0]) && !IsWhitespace(s[|s| - 1])
    ensures Trim(before + s + after) == s
  {
    assert before + s + after == before + (s + after);
    TrimStartDropsPadding(before, s + after);
    TrimEndDropsPadding(s, after);
  }

  /** And what is trimmed is only such padding. */
  lemma TrimIs(s: string) returns (before: string, after: string)
    ensures s == before + Trim(s) + after && AllWhitespace(before) && AllWhitespace(after)
    ensures Trim(s) != "" ==> !IsWhitespace(Trim(s)[0]) && !IsWhitespace(Trim(s)[|Trim(s)| - 1])
  {
    before := TrimStartIs(s);
    after := TrimEndIs(TrimStart(s));
    if Trim(s) != "" {
      assert TrimStart(s)[0] == Trim(s)[0];
    }
  }

  lemma {:induction false} TrimStartIs(s: string) returns (before: string)
    ensures s == before + TrimStart(s) && AllWhitespace(before)
    ensures TrimStart(s) != "" ==> !IsWhitespace(TrimStart(s)[0])
  {
    before := "";
    if s != [] && IsWhitespace(s[0]) {
      var rest := TrimStartIs(s[1..]);
      before := [s[0]] + rest;
    }
  }

  lemma {:induction false} TrimEndIs(s: string) returns (after: string)
    ensures s == TrimEnd(s) + after && AllWhitespace(after)
    ensures TrimEnd(s) != "" ==> !IsWhitespace(TrimEnd(s)[|TrimEnd(s)| - 1])
  {
    after := "";
    if s != [] && IsWhitespace(s[|s| - 1]) {
      var rest := TrimEndIs(s[..|s| - 1]);
      after := rest + [s[|s| - 1]];
    }
  }

  // ------------------------------------------------------------ ASCII folding

  function LowerChar(c: char): char {
    if 'A' <= c <= 'Z' then (c as int + 32) as char else c
  }

  function UpperChar(c: char): char {
    if 'a' <= c <= 'z' then (c as int - 32) as char else c
  }

  function Lower(s: string): (r: string)
    ensures |r| == |s|
  {
    seq(|s|, i requires 0 <= i < |s| => LowerChar(s[i]))
  }

  function Upper(s: string): (r: string)
    ensures |r| == |s|
  {
    seq(|s|, i requires 0 <= i < |s| => UpperChar(s[i]))
  }

  // ---------------------------------------------------------------- splitting

  /** `str::split(separator)` collected: always at least one part. */
  function Split(s: string, separator: char): (parts: seq<string>)
    ensures |parts| >= 1
  {
    if s == [] then [""]
    else
      var rest := Split(s[1..], separator);
      if s[0] == separator then [""] + rest
      else [[s[0]] + rest[0]] + rest[1..]
  }

  function Join(parts: seq<string>, separator: char): string {
    if parts == [] then ""
    else if |parts| == 1 then parts[0]
    else parts[0] + [separator] + Join(parts[1..], separator)
  }

  /** Splitting a part that lacks the separator off the front. */
  lemma {:induction false} SplitFirst(part: string, rest: string, separator: char)
    requires separator !in part
    ensures Split(part + [separator] + rest, separator) == [part] + Split(rest, separator)
    decreases |part|
  {
    var whole := part + [separator] + rest;
    if part == [] {
      assert whole[1..] == rest;
    } else {
      assert whole[1..] == part[1..] + [separator] + rest;
      SplitFirst(part[1..], rest, separator);
      assert Split(whole, separator) == [[whole[0]] + part[1..]] + Split(rest, separator);
      assert [whole[0]] + part[1..] == part;
    }
  }

  lemma {:induction false} SplitLast(part: string, separator: char)
    requires separator !in part
    ensures Split(part, separator) == [part]
  {
    if part != [] {
      SplitLast(part[1..], separator);
      assert [part[0]] + part[1..] == part;
    }
  }

  /** Splitting undoes joining, for any non-empty list of parts free of the
      separator. */
  lemma {:induction false} SplitJoin(parts: seq<string>, separator: char)
    requires parts != []
    requires forall i :: 0 <= i < |parts| ==> separator !in parts[i]
    ensures Split(Join(parts, separator), separator) == parts
  {
    if |parts| == 1 {
      SplitLast(parts[0], separator);
    } else {
      SplitFirst(parts[0], Join(parts[1..], separator), separator);
      SplitJoin(parts[1..], separator);
    }
  }

  /** Joining undoes splitting, and no part holds the separator. */
  lemma {:induction false} JoinSplit(s: string, separator: char)
    ensures Join(Split(s, separator), separator) == s
    ensures forall i :: 0 <= i < |Split(s, separator)| ==> separator !in Split(s, separator)[i]
  {
    if s != [] {
      JoinSplit(s[1..], separator);
      var rest := Split(s[1..], separator);
      if s[0] == separator {
        assert Split(s, separator)[1..] == rest;
      } else {
        var first := [s[0]] + rest[0];
        assert Split(s, separator)[1..] == rest[1..];
        assert [s[0]] + Join(rest, separator) == Join([first] + rest[1..], separator);
      }
    }
  }

  // ------------------------------------------------------------ radix parsing

  /** The value of one digit, as `char::to_digit` gives it. */
  function DigitValue(c: char, radix: nat): Option<nat> {
    var v := if '0' <= c <= '9' then c as int - '0' as int
             else if 'a' <= c <= 'z' then c as int - 'a' as int + 10
             else if 'A' <= c <= 'Z' then c as int - 'A' as int + 10
             else radix;
    if v < radix then Some(v) else None
  }

  function ParseDigits(s: string, radix: nat, acc: nat): Option<nat> {
    if s == [] then Some(acc)
    else
      var d := DigitValue(s[0], radix);
      if d.None? || acc * radix + d.value > 255 then None
      else ParseDigits(s[1..], radix, acc * radix + d.value)
  }

  /** `u8::from_str_radix(s, radix).ok()`: a lone sign is an error and one
      leading plus sign is skipped. */
  function ParseU8(s: string, radix: nat): (r: Option<nat>)
    ensures r.Some? ==> r.value < 256
  {
    if s == "" || s == "+" || s == "-" then None
    else if s[0] == '+' then Bounded(ParseDigits(s[1..], radix, 0))
    else Bounded(ParseDigits(s, radix, 0))
  }

  const NUMERALS := "0123456789abcdef"

  /** A digit is one of the first numerals, in either case. */
  lemma DigitValueIff(c: char, radix: nat, n: nat)
    requires radix <= 16 && n < 16
    ensures DigitValue(c, radix) == Some(n) <==> n < radix && LowerChar(c) == NUMERALS[n]
  {
    assert NUMERALS[n] == if n < 10 then ('0' as int + n) as char else ('a' as int + n - 10) as char;
  }

  predicate AllDigits(s: string, radix: nat) {
    forall i :: 0 <= i < |s| ==> DigitValue(s[i], radix).Some?
  }

  /** The number that digits denote, after `acc`. */
  function Number(digits: string, radix: nat, acc: nat): nat
    requires AllDigits(digits, radix)
  {
    if digits == "" then acc else Number(digits[1..], radix, acc * radix + DigitValue(digits[0], radix).value)
  }

  lemma {:induction false} NumberGrows(digits: string, radix: nat, acc: nat)
    requires AllDigits(digits, radix) && radix > 0
    ensures Number(digits, radix, acc) >= acc
  {
    if digits != "" {
      var next := acc * radix + DigitValue(digits[0], radix).value;
      AtLeast(acc, radix);
      NumberGrows(digits[1..], radix, next);
    }
  }

  lemma AtLeast(n: nat, k: nat)
    requires k > 0
    ensures n * k >= n
  {
  }

  lemma {:induction false} ParseDigitsIff(s: string, radix: nat, acc: nat, v: nat)
    requires radix > 0 && acc < 256
    ensures ParseDigits(s, radix, acc) == Some(v) <==> AllDigits(s, radix) && Number(s, radix, acc) == v < 256
  {
    if s != "" && DigitValue(s[0], radix).Some? {
      var next := acc * radix + DigitValue(s[0], radix).value;
      assert AllDigits(s, radix) <==> AllDigits(s[1..], radix) by {
        assert forall i :: 0 < i < |s| ==> s[i] == s[1..][i - 1];
      }
      if next < 256 {
        ParseDigitsIff(s[1..], radix, next, v);
      } else if AllDigits(s, radix) {
        NumberGrows(s[1..], radix, next);
      }
    }
  }

  /** One sign and at least one digit, of a number that fits. */
  lemma ParseU8Iff(s: string, radix: nat, v: nat)
    requires 0 < radix <= 16
    ensures var digits := if s != "" && s[0] == '+' then s[1..] else s;
            ParseU8(s, radix) == Some(v) <==>
            digits != "" && AllDigits(digits, radix) && Number(digits, radix, 0) == v < 256
  {
    var digits := if s != "" && s[0] == '+' then s[1..] else s;
    ParseDigitsIff(digits, radix, 0, v);
    assert s == "-" ==> DigitValue(s[0], radix).None?;
  }

  function Bounded(r: Option<nat>): Option<nat> {
    if r.Some? && r.value < 256 then r else None
  }

  function HexDigit(n: nat): (c: char)
    requires n < 16
    ensures DigitValue(c, 16) == Some(n) && DigitValue(UpperChar(c), 16) == Some(n)
    ensures c != ':' && !IsWhitespace(c) && LowerChar(c) == c && LowerChar(UpperChar(c)) == c
    ensures !IsWhitespace(UpperChar(c)) && c != '+' && c != '\\'
  {
    if n < 10 then ('0' as int + n) as char else ('a' as int + n - 10) as char
  }

  /** `format!("{:02x}")` of a byte. */
  function Hex2(b: byte): (s: string)
    ensures |s| == 2
  {
    [HexDigit(b / 16), HexDigit(b % 16)]
  }

  lemma ParseHex2(b: byte)
    ensures ParseU8(Hex2(b), 16) == Some(b)
  {
    var s := Hex2(b);
    assert s[1..] == [HexDigit(b % 16)];
    assert s[1..][1..] == [];
    assert ParseDigits(s[1..][1..], 16, b) == Some(b);
    assert ParseDigits(s[1..], 16, b / 16) == Some(b);
    assert ParseDigits(s, 16, 0) == Some(b);
  }
}
