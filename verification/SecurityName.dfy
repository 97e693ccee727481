/** WiFi security types and their stable names
    (libnetwork-daemon/src/wifi/security.rs). */
module SecurityName {
  import opened Prelude
  import opened Text

  datatype Security = Open | Eap | Psk | Unknown

  function Display(s: Security): string {
    match s
    case Open => "Open"
    case Eap => "EAP"
    case Psk => "PSK"
    case Unknown => "N/A"
  }

  function FromName(name: string): Security {
    var key := Lower(Trim(name));
    if key == "open" || key == "none" then Open
    else if key == "psk" || key == "wpa-psk" || key == "wpa2-psk" then Psk
    else if key == "eap" || key == "wpa-eap" || key == "ieee8021x" then Eap
    else Unknown
  }

  /** The name written to disk is read back as the same type, whatever white
      space surrounds it. */
  lemma ReadBack(s: Security, before: string, after: string)
    requires AllWhitespace(before) && AllWhitespace(after)
    ensures FromName(before + Display(s) + after) == s
  {
    TrimDropsPadding(before, Display(s), after);
    var low := Lower(Display(s));
    match s
    case Open => assert low == "open";
    case Eap => assert low == "eap";
    case Psk => assert low == "psk";
    case Unknown => assert low == "n/a";
  }

  lemma RoundTrip(s: Security)
    ensures FromName(Display(s)) == s
  {
    ReadBack(s, "", "");
    assert "" + Display(s) + "" == Display(s);
  }

  /** The names by which a type goes, in lower case; the first stands on disk. */
  function NamesOf(s: Security): seq<string> {
    match s
    case Open => ["open", "none"]
    case Eap => ["eap", "wpa-eap", "ieee8021x"]
    case Psk => ["psk", "wpa-psk", "wpa2-psk"]
    case Unknown => []
  }

  lemma NoPadding(core: string, name: string)
    requires Lower(core) == name && name != "" && !IsWhitespace(name[0]) && !IsWhitespace(name[|name| - 1])
    ensures core != "" && !IsWhitespace(core[0]) && !IsWhitespace(core[|core| - 1])
  {
    assert LowerChar(core[0]) == name[0] && LowerChar(core[|core| - 1]) == name[|name| - 1];
  }

  lemma NamesPlain(s: Security, name: string)
    requires name in NamesOf(s)
    ensures name != "" && !IsWhitespace(name[0]) && !IsWhitespace(name[|name| - 1])
  {
  }

  lemma KeyDecides(text: string, s: Security)
    requires s != Unknown
    ensures FromName(text) == s <==> Lower(Trim(text)) in NamesOf(s)
  {
  }

  ghost predicate Called(text: string, s: Security, before: string, core: string, after: string) {
    text == before + core + after && AllWhitespace(before) && AllWhitespace(after) && Lower(core) in NamesOf(s)
  }

  /** A text is a type's name when it is one of its names in any case and with
      any white space around it. */
  lemma FromNameIff(text: string, s: Security)
    requires s != Unknown
    ensures FromName(text) == s <==> exists before, core, after :: Called(text, s, before, core, after)
  {
    KeyDecides(text, s);
    if FromName(text) == s {
      var before, after := TrimIs(text);
      assert Called(text, s, before, Trim(text), after);
    }
    if before, core, after :| Called(text, s, before, core, after) {
      NamesPlain(s, Lower(core));
      NoPadding(core, Lower(core));
      TrimDropsPadding(before, core, after);
    }
  }

  /** What is written is the first of the names, but for its case. */
  lemma DisplayIsName(s: Security)
    requires s != Unknown
    ensures Lower(Display(s)) == NamesOf(s)[0]
  {
  }

  lemma DisplayInjective(a: Security, b: Security)
    ensures Display(a) == Display(b) <==> a == b
  {
  }
}
