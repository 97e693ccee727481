/** MAC addresses and their text form (libnetwork-daemon/src/interface/mac.rs). */
module MacText {
  import opened Prelude
  import opened Text

  type MacAddr = m: seq<byte> | |m| == 6 witness [0, 0, 0, 0, 0, 0]

  function HexParts(m: seq<byte>): (parts: seq<string>)
    ensures |parts| == |m|
    ensures forall i :: 0 <= i < |m| ==> parts[i] == Hex2(m[i])
  {
    seq(|m|, i requires 0 <= i < |m| => Hex2(m[i]))
  }

  /** Six two-digit lower-case hexadecimal numbers separated by colons. */
  function Display(m: MacAddr): string {
    Join(HexParts(m), ':')
  }

  /** Collecting `Option`s: a value only when every part has one. */
  function ParseParts(parts: seq<string>): Option<seq<byte>> {
    if parts == [] then Some([])
    else
      var head := ParseU8(parts[0], 16);
      var tail := ParseParts(parts[1..]);
      if head.Some? && tail.Some? then Some([head.value] + tail.value) else None
  }

  function Parse(s: string): Option<MacAddr> {
    var bytes := ParseParts(Split(Lower(Trim(s)), ':'));
    if bytes.Some? && |bytes.value| == 6 then Some(bytes.value) else None
  }

  lemma {:induction false} ParsePartsOfHex(m: seq<byte>)
    ensures ParseParts(HexParts(m)) == Some(m)
  {
    if m == [] {
    } else {
      ParseHex2(m[0]);
      ParsePartsOfHex(m[1..]);
      assert HexParts(m)[1..] == HexParts(m[1..]);
      assert [m[0]] + m[1..] == m;
    }
  }

  predicate Folds(s: string) {
    forall i :: 0 <= i < |s| ==> LowerChar(s[i]) == s[i] && LowerChar(UpperChar(s[i])) == s[i]
  }

  /** Joined hexadecimal parts start and end in a digit, in either case, and
      are fixed by folding. */
  lemma {:induction false} JoinedShape(m: seq<byte>)
    requires m != []
    ensures var s := Join(HexParts(m), ':');
            && s != [] && Folds(s)
            && !IsWhitespace(s[0]) && !IsWhitespace(UpperChar(s[0]))
            && !IsWhitespace(s[|s| - 1]) && !IsWhitespace(UpperChar(s[|s| - 1]))
  {
    var parts := HexParts(m);
    if |m| == 1 {
      assert Join(parts, ':') == Hex2(m[0]);
    } else {
      JoinedShape(m[1..]);
      assert parts[1..] == HexParts(m[1..]);
      assert Join(parts, ':') == Hex2(m[0]) + [':'] + Join(HexParts(m[1..]), ':');
    }
  }

  /** Parsing accepts what `Display` prints, in either case and with any
      white space around it, and yields the address printed. */
  lemma ParseDisplay(m: MacAddr, before: string, after: string)
    requires AllWhitespace(before) && AllWhitespace(after)
    ensures Parse(before + Display(m) + after) == Some(m)
    ensures Parse(before + Upper(Display(m)) + after) == Some(m)
  {
    var s := Display(m);
    JoinedShape(m);
    TrimDropsPadding(before, s, after);
    TrimDropsPadding(before, Upper(s), after);
    assert Lower(s) == s;
    assert Lower(Upper(s)) == s;
    SplitJoin(HexParts(m), ':');
    ParsePartsOfHex(m);
  }

  lemma RoundTrip(m: MacAddr)
    ensures Parse(Display(m)) == Some(m) && Display(m) != ""
  {
    ParseDisplay(m, "", "");
    JoinedShape(m);
    assert "" + Display(m) + "" == Display(m);
  }

  /** Pairs of digits at every third place, and colons between them. */
  lemma DisplayIs(m: MacAddr, i: nat)
    requires i < 6
    ensures |Display(m)| == 17 && Display(m)[3 * i..3 * i + 2] == Hex2(m[i])
    ensures i < 5 ==> Display(m)[3 * i + 2] == ':'
  {
    JoinedPlaces(m, i);
  }

  lemma {:induction false} JoinedPlaces(m: seq<byte>, i: nat)
    requires i < |m|
    ensures var s := Join(HexParts(m), ':');
            && |s| == 3 * |m| - 1 && s[3 * i..3 * i + 2] == Hex2(m[i])
            && (i < |m| - 1 ==> s[3 * i + 2] == ':')
  {
    if |m| == 1 {
      assert Join(HexParts(m), ':') == Hex2(m[0]);
    } else {
      var rest := Join(HexParts(m[1..]), ':');
      JoinedPlaces(m[1..], if i > 0 then i - 1 else 0);
      JoinedFront(m);
      FrontPlaces(Hex2(m[0]), rest);
      if i > 0 {
        LaterPlaces(Hex2(m[0]), rest, 3 * i);
      }
    }
  }

  lemma JoinedFront(m: seq<byte>)
    requires |m| > 1
    ensures Join(HexParts(m), ':') == Hex2(m[0]) + [':'] + Join(HexParts(m[1..]), ':')
  {
    assert HexParts(m)[1..] == HexParts(m[1..]);
  }

  lemma FrontPlaces(two: string, rest: string)
    requires |two| == 2
    ensures (two + [':'] + rest)[0..2] == two && (two + [':'] + rest)[2] == ':'
  {
  }

  lemma LaterPlaces(two: string, rest: string, n: nat)
    requires |two| == 2 && 3 <= n && n - 1 <= |rest|
    ensures (two + [':'] + rest)[n..n + 2] == rest[n - 3..n - 1]
    ensures n - 1 < |rest| ==> (two + [':'] + rest)[n + 2] == rest[n - 1]
  {
  }

  // ------------------------------------------------------------- any text at all

  lemma {:induction false} ParsePartsIff(parts: seq<string>, m: seq<byte>)
    ensures ParseParts(parts) == Some(m) <==>
            |parts| == |m| && forall i :: 0 <= i < |m| ==> ParseU8(parts[i], 16) == Some(m[i])
  {
    if parts == [] {
    } else if m == [] {
    } else {
      ParsePartsIff(parts[1..], m[1..]);
      assert m == [m[0]] + m[1..];
      if ParseParts(parts) == Some(m) {
        assert ParseParts(parts[1..]).value == m[1..];
      }
      if |parts| == |m| && forall i :: 0 <= i < |m| ==> ParseU8(parts[i], 16) == Some(m[i]) {
        assert forall i :: 0 <= i < |m[1..]| ==> parts[1..][i] == parts[i + 1] && m[1..][i] == m[i + 1];
      }
    }
  }

  function AllLower(parts: seq<string>): (r: seq<string>)
    ensures |r| == |parts|
  {
    seq(|parts|, i requires 0 <= i < |parts| => Lower(parts[i]))
  }

  lemma {:induction false} SplitLower(s: string)
    ensures Split(Lower(s), ':') == AllLower(Split(s, ':'))
  {
    if s != "" {
      assert Lower(s)[1..] == Lower(s[1..]);
      SplitLower(s[1..]);
      var rest := Split(s[1..], ':');
      assert Lower("") == "";
      if s[0] != ':' {
        assert Lower([s[0]] + rest[0]) == [LowerChar(s[0])] + Lower(rest[0]);
        assert AllLower(rest)[1..] == AllLower(rest[1..]);
      }
    } else {
      assert Lower("") == "";
    }
  }

  lemma {:induction false} DigitsLower(s: string, acc: nat)
    ensures ParseDigits(Lower(s), 16, acc) == ParseDigits(s, 16, acc)
  {
    if s != "" {
      assert Lower(s)[1..] == Lower(s[1..]);
      var d := DigitValue(s[0], 16);
      assert DigitValue(LowerChar(s[0]), 16) == d;
      if d.Some? {
        DigitsLower(s[1..], acc * 16 + d.value);
      }
    }
  }

  lemma ParseLower(s: string)
    ensures ParseU8(Lower(s), 16) == ParseU8(s, 16)
  {
    DigitsLower(s, 0);
    if s != "" {
      assert Lower(s)[1..] == Lower(s[1..]);
      DigitsLower(s[1..], 0);
      assert Lower(s) == "+" <==> s == "+";
      assert Lower(s) == "-" <==> s == "-";
    }
  }

  /** A text is the address when, without its padding, it is six hexadecimal
      numbers with colons between them: short, in either case, or signed. */
  lemma ParseIff(s: string, m: MacAddr)
    ensures Parse(s) == Some(m) <==>
            exists parts: seq<string> ::
              && |parts| == 6 && Trim(s) == Join(parts, ':')
              && forall i :: 0 <= i < 6 ==> ':' !in parts[i] && ParseU8(parts[i], 16) == Some(m[i])
  {
    var t := Trim(s);
    SplitLower(t);
    ParsePartsIff(AllLower(Split(t, ':')), m);
    forall p: string ensures ParseU8(Lower(p), 16) == ParseU8(p, 16) {
      ParseLower(p);
    }
    JoinSplit(t, ':');
    if Parse(s) == Some(m) {
      var parts := Split(t, ':');
      assert forall i :: 0 <= i < 6 ==> AllLower(parts)[i] == Lower(parts[i]);
    }
    if parts: seq<string> :|
      && |parts| == 6 && t == Join(parts, ':')
      && forall i :: 0 <= i < 6 ==> ':' !in parts[i] && ParseU8(parts[i], 16) == Some(m[i])
    {
      SplitJoin(parts, ':');
      assert forall i :: 0 <= i < 6 ==> AllLower(parts)[i] == Lower(parts[i]);
    }
  }

  /** Different addresses print differently, so the text can serve as a key. */
  lemma DisplayInjective(a: MacAddr, b: MacAddr)
    ensures Display(a) == Display(b) <==> a == b
  {
    RoundTrip(a);
    RoundTrip(b);
  }
}
