/**
Distinguished names in `scripts/import-icao-pkd.ts`: escape-aware splitting and unescaping
(single-character escapes of RFC 4514, section 2.4).
*/
module DistinguishedName {
  import opened Wrappers
  import opened JsText
  import opened Ldif

  datatype Attribute = Attribute(name: string, value: string)

  // ---- The three scanners ----

  /** `s` cut at every separator that no backslash escapes; `escaped` if one escapes its first character. */
  function SplitFrom(s: string, separator: char, escaped: bool): (parts: seq<string>)
    ensures |parts| >= 1
  {
    if s == "" then [""]
    else if !escaped && s[0] != '\\' && s[0] == separator then [""] + SplitFrom(s[1..], separator, false)
    else
      var rest := SplitFrom(s[1..], separator, !escaped && s[0] == '\\');
      [[s[0]] + rest[0]] + rest[1..]
  }

  method SplitEscaped(input: string, separator: char) returns (parts: seq<string>)
    ensures parts == SplitFrom(input, separator, false)
  {
    parts := [];
    var current := "";
    var escaped := false;
    assert input[0..] == input;
    NothingInFront(SplitFrom(input, separator, false));
    for i := 0 to |input|
      invariant var rest := SplitFrom(input[i..], separator, escaped);
                SplitFrom(input, separator, false) == parts + ([current + rest[0]] + rest[1..])
    {
      var character := input[i];
      assert input[i..][0] == character && input[i..][1..] == input[i + 1..];
      ghost var rest := SplitFrom(input[i + 1..], separator, !escaped && character == '\\');
      assert current + ([character] + rest[0]) == current + [character] + rest[0];
      if escaped {
        current := current + [character];
        escaped := false;
      } else if character == '\\' {
        current := current + [character];
        escaped := true;
      } else if character == separator {
        assert current + "" == current && "" + rest[0] == rest[0];
        parts := parts + [current];
        current := "";
      } else {
        current := current + [character];
      }
    }
    assert current + "" == current;
    parts := parts + [current];
  }

  lemma NothingInFront(parts: seq<string>)
    requires |parts| >= 1
    ensures [] + (["" + parts[0]] + parts[1..]) == parts
  {
    assert "" + parts[0] == parts[0];
  }

  function Unescape(s: string): string {
    if s == "" then ""
    else if s[0] == '\\' then (if |s| == 1 then "\\" else [s[1]] + Unescape(s[2..]))
    else [s[0]] + Unescape(s[1..])
  }

  method UnescapeValue(value: string) returns (output: string)
    ensures output == Unescape(value)
  {
    output := "";
    var escaped := false;
    for i := 0 to |value|
      invariant escaped ==> i > 0 && value[i - 1] == '\\'
      invariant Unescape(value) == output + Unescape(value[if escaped then i - 1 else i..])
    {
      ghost var rest := value[if escaped then i - 1 else i..];
      var character := value[i];
      if escaped {
        assert rest[1] == character && rest[2..] == value[i + 1..];
        output := output + [character];
        escaped := false;
      } else {
        assert rest[0] == character && rest[1..] == value[i + 1..];
        if character == '\\' {
          escaped := true;
        } else {
          output := output + [character];
        }
      }
    }
    if escaped {
      output := output + "\\";
    }
  }

  /** The first index of `target` that no backslash escapes. */
  function FirstUnescaped(s: string, target: char, escaped: bool): (r: Option<nat>)
    ensures r.Some? ==> r.value < |s|
  {
    if s == "" then None
    else if !escaped && s[0] != '\\' && s[0] == target then Some(0)
    else
      match FirstUnescaped(s[1..], target, !escaped && s[0] == '\\')
      case None => None
      case Some(k) => Some(k + 1)
  }

  method FirstUnescapedIndex(input: string, target: char) returns (r: Option<nat>)
    ensures r == FirstUnescaped(input, target, false)
  {
    var escaped := false;
    for i := 0 to |input|
      invariant FirstUnescaped(input, target, false)
             == match FirstUnescaped(input[i..], target, escaped)
                case None => None
                case Some(k) => Some(i + k)
    {
      var character := input[i];
      assert input[i..][0] == character && input[i..][1..] == input[i + 1..];
      if escaped {
        escaped := false;
      } else if character == '\\' {
        escaped := true;
      } else if character == target {
        return Some(i);
      }
    }
    r := None;
  }

  // ---- Attributes ----

  function ComponentAttributes(component: string): seq<Attribute> {
    match FirstUnescaped(component, '=', false)
    case None => []
    case Some(k) =>
      if k == 0 then []
      else [Attribute(Lower(Trim(component[..k])), Unescape(Trim(component[k + 1..])))]
  }

  function AllAttributes(components: seq<string>): seq<Attribute> {
    if components == [] then [] else ComponentAttributes(components[0]) + AllAttributes(components[1..])
  }

  function Attributes(dn: string): seq<Attribute> {
    AllAttributes(SplitFrom(dn, ',', false))
  }

  method ParseDistinguishedNameAttributes(dn: string) returns (attributes: seq<Attribute>)
    ensures attributes == Attributes(dn)
  {
    hide SplitFrom, Trim, Lower, Unescape, FirstUnescaped, AllAttributes;
    var components := SplitEscaped(dn, ',');
    attributes := [];
    assert components[..|components|] == components;
    AllAttributesSnoc([], "");
    for i := 0 to |components|
      invariant attributes == AllAttributes(components[..i])
    {
      var component := components[i];
      assert components[..i + 1] == components[..i] + [component];
      AllAttributesSnoc(components[..i], component);
      var separatorIndex := FirstUnescapedIndex(component, '=');
      if separatorIndex.Some? && separatorIndex.value > 0 {
        var k := separatorIndex.value;
        var value := UnescapeValue(Trim(component[k + 1..]));
        attributes := attributes + [Attribute(Lower(Trim(component[..k])), value)];
      }
    }
  }

  lemma {:induction false} AllAttributesSnoc(components: seq<string>, last: string)
    ensures AllAttributes([]) == []
    ensures AllAttributes(components + [last]) == AllAttributes(components) + ComponentAttributes(last)
  {
    hide ComponentAttributes;
    if components == [] {
      assert components + [last] == [last];
    } else {
      AllAttributesSnoc(components[1..], last);
      assert (components + [last])[1..] == components[1..] + [last];
    }
  }

  // ---- Splitting loses nothing ----

  /** Joining the parts with the separator gives the text back, for every text and separator. */
  lemma {:induction false} JoinOfSplitFrom(s: string, separator: char, escaped: bool)
    ensures Join(SplitFrom(s, separator, escaped), [separator]) == s
  {
    if s != "" {
      var e := !escaped && s[0] == '\\';
      var parts := SplitFrom(s, separator, escaped);
      if !escaped && s[0] != '\\' && s[0] == separator {
        var rest := SplitFrom(s[1..], separator, false);
        JoinOfSplitFrom(s[1..], separator, false);
        assert parts[1..] == rest && s == [separator] + s[1..];
      } else {
        var rest := SplitFrom(s[1..], separator, e);
        JoinOfSplitFrom(s[1..], separator, e);
        JoinHead(s[0], rest[0], rest[1..], [separator]);
        assert [rest[0]] + rest[1..] == rest;
      }
    }
  }

  lemma JoinHead(c: char, first: string, others: seq<string>, separator: string)
    ensures Join([[c] + first] + others, separator) == [c] + Join([first] + others, separator)
  {
    hide Join;
    JoinCons([c] + first, others, separator);
    JoinCons(first, others, separator);
    if others != [] {
      var tail := separator + Join(others, separator);
      assert ([c] + first) + tail == [c] + (first + tail);
    }
  }

  /** No part holds a separator that nothing escapes. */
  lemma {:induction false} PartsHoldNoSeparator(s: string, separator: char, escaped: bool)
    ensures FirstUnescaped(SplitFrom(s, separator, escaped)[0], separator, escaped) == None
    ensures forall k | 0 < k < |SplitFrom(s, separator, escaped)| ::
              FirstUnescaped(SplitFrom(s, separator, escaped)[k], separator, false) == None
  {
    if s != "" {
      var e := !escaped && s[0] == '\\';
      var parts := SplitFrom(s, separator, escaped);
      if !escaped && s[0] != '\\' && s[0] == separator {
        var rest := SplitFrom(s[1..], separator, false);
        PartsHoldNoSeparator(s[1..], separator, false);
        assert forall k | 0 < k < |parts| :: parts[k] == rest[k - 1];
      } else {
        var rest := SplitFrom(s[1..], separator, e);
        PartsHoldNoSeparator(s[1..], separator, e);
        assert parts[0][0] == s[0] && parts[0][1..] == rest[0];
        assert forall k | 0 < k < |parts| :: parts[k] == rest[k];
      }
    }
  }

  // ---- Reading back what was escaped ----

  predicate MustEscape(c: char) {
    c == ',' || c == '=' || c == '\\'
  }

  function Escape(value: string): string {
    if value == "" then ""
    else (if MustEscape(value[0]) then ['\\', value[0]] else [value[0]]) + Escape(value[1..])
  }

  function PrintAttribute(a: Attribute): string {
    a.name + ['='] + Escape(a.value)
  }

  function Print(attributes: seq<Attribute>): string {
    Join(Printed(attributes), ",")
  }

  function Printed(attributes: seq<Attribute>): (r: seq<string>)
    ensures |r| == |attributes|
  {
    if attributes == [] then [] else [PrintAttribute(attributes[0])] + Printed(attributes[1..])
  }

  predicate LegalName(name: string) {
    name != "" && forall i | 0 <= i < |name| :: !MustEscape(name[i])
  }

  /** No white space at either end. */
  predicate NoEdgeSpace(value: string) {
    value == "" || (!IsSpace(value[0]) && !IsSpace(value[|value| - 1]))
  }

  lemma {:induction false} UnescapeInvertsEscape(value: string)
    ensures Unescape(Escape(value)) == value
  {
    if value != "" {
      var e := Escape(value);
      UnescapeInvertsEscape(value[1..]);
      if MustEscape(value[0]) {
        assert e[2..] == Escape(value[1..]);
      } else {
        assert e[1..] == Escape(value[1..]);
      }
    }
  }

  lemma {:induction false} EscapeEdges(value: string)
    requires value != ""
    ensures Escape(value) != "" && Escape(value)[|Escape(value)| - 1] == value[|value| - 1]
    ensures Escape(value)[0] == value[0] || Escape(value)[0] == '\\'
  {
    if |value| > 1 {
      EscapeEdges(value[1..]);
    }
  }

  /** Trimming and escaping commute. */
  lemma TrimOfEscaped(value: string)
    ensures Trim(Escape(value)) == Escape(Trim(value))
  {
    TrimStartOfEscaped(value);
    TrimEndOfEscaped(TrimStart(value));
  }

  lemma {:induction false} TrimStartOfEscaped(value: string)
    ensures TrimStart(Escape(value)) == Escape(TrimStart(value))
  {
    if value != "" {
      if IsSpace(value[0]) {
        assert Escape(value)[1..] == Escape(value[1..]);
        TrimStartOfEscaped(value[1..]);
      } else {
        EscapeEdges(value);
      }
    }
  }

  lemma {:induction false} TrimEndOfEscaped(value: string)
    ensures TrimEnd(Escape(value)) == Escape(TrimEnd(value))
  {
    hide Escape;
    if value == "" {
      EscapeLastSpace("", ' ');
    } else {
      var n := |value| - 1;
      EscapeEdges(value);
      if IsSpace(value[n]) {
        TrimEndOfEscaped(value[..n]);
        EscapeLastSpace(value[..n], value[n]);
        assert value == value[..n] + [value[n]];
        TrimEndStep(Escape(value[..n]), value[n]);
      }
    }
  }

  lemma TrimEndStep(s: string, c: char)
    requires IsSpace(c)
    ensures TrimEnd(s + [c]) == TrimEnd(s)
  {
    assert (s + [c])[..|s|] == s;
  }

  lemma EscapeLastSpace(init: string, c: char)
    requires IsSpace(c)
    ensures Escape(init + [c]) == Escape(init) + [c]
    ensures Escape("") == ""
  {
    EscapeAppend(init, [c]);
    assert [c][1..] == "" && Escape([c]) == [c];
  }

  lemma TrimKeeps(value: string)
    ensures Trim(value) == value <==> NoEdgeSpace(value)
  {
  }

  /** Escaped text contains no separator: it is passed over, whatever follows. */
  lemma {:induction false} SplitPassesEscaped(value: string, rest: string, separator: char)
    requires MustEscape(separator) && separator != '\\'
    ensures SplitFrom(Escape(value) + rest, separator, false)
         == var parts := SplitFrom(rest, separator, false); [Escape(value) + parts[0]] + parts[1..]
  {
    hide SplitFrom;
    var text := Escape(value) + rest;
    var parts := SplitFrom(rest, separator, false);
    if value == "" {
      NothingInFront(parts);
      assert text == rest && [Escape(value) + parts[0]] + parts[1..] == [] + (["" + parts[0]] + parts[1..]);
    } else {
      SplitPassesEscaped(value[1..], rest, separator);
      var tail := Escape(value[1..]) + rest;
      if MustEscape(value[0]) {
        assert text == ['\\'] + ([value[0]] + tail);
        SplitPassesOne(value[0], tail, separator, true);
        SplitPassesOne('\\', [value[0]] + tail, separator, false);
        assert Escape(value) + parts[0] == ['\\'] + ([value[0]] + (Escape(value[1..]) + parts[0]));
      } else {
        assert text == [value[0]] + tail;
        SplitPassesOne(value[0], tail, separator, false);
        assert Escape(value) + parts[0] == [value[0]] + (Escape(value[1..]) + parts[0]);
      }
    }
  }

  lemma SplitPassesOne(c: char, rest: string, separator: char, escaped: bool)
    requires escaped || c != separator || c == '\\'
    ensures SplitFrom([c] + rest, separator, escaped)
         == var parts := SplitFrom(rest, separator, !escaped && c == '\\'); [[c] + parts[0]] + parts[1..]
  {
    assert ([c] + rest)[1..] == rest;
  }

  lemma {:induction false} PlainIsEscaped(name: string)
    requires forall i | 0 <= i < |name| :: !MustEscape(name[i])
    ensures Escape(name) == name
  {
    if name != "" {
      PlainIsEscaped(name[1..]);
    }
  }

  lemma {:induction false} EscapeAppend(a: string, b: string)
    ensures Escape(a + b) == Escape(a) + Escape(b)
  {
    if a == "" {
      assert a + b == b;
    } else {
      assert (a + b)[1..] == a[1..] + b;
      EscapeAppend(a[1..], b);
    }
  }

  lemma {:induction false} NameEndsAtEquals(name: string, rest: string)
    requires forall i | 0 <= i < |name| :: !MustEscape(name[i])
    ensures FirstUnescaped(name + (['='] + rest), '=', false) == Some(|name|)
  {
    var text := name + (['='] + rest);
    if name == "" {
      assert text[0] == '=';
    } else {
      assert text[1..] == name[1..] + (['='] + rest) && text[0] == name[0];
      NameEndsAtEquals(name[1..], rest);
    }
  }

  lemma AttributeReadsBack(a: Attribute)
    requires LegalName(a.name)
    ensures ComponentAttributes(PrintAttribute(a)) == [Normalized(a)]
  {
    hide Escape, Unescape;
    var text := PrintAttribute(a);
    assert text == a.name + (['='] + Escape(a.value));
    NameEndsAtEquals(a.name, Escape(a.value));
    assert text[..|a.name|] == a.name && text[|a.name| + 1..] == Escape(a.value);
    TrimOfEscaped(a.value);
    UnescapeInvertsEscape(Trim(a.value));
  }

  /** One printed attribute is one component. */
  lemma ComponentSplitsOff(a: Attribute, rest: string)
    requires LegalName(a.name)
    ensures SplitFrom(PrintAttribute(a) + rest, ',', false)
         == var parts := SplitFrom(rest, ',', false); [PrintAttribute(a) + parts[0]] + parts[1..]
  {
    hide SplitFrom, IsSpace, Lower;
    var parts := SplitFrom(rest, ',', false);
    var value := Escape(a.value);
    PlainIsEscaped(a.name);
    assert PrintAttribute(a) + rest == Escape(a.name) + (['='] + (value + rest));
    SplitPassesEscaped(a.value, rest, ',');
    SplitPassesOne('=', value + rest, ',', false);
    SplitPassesEscaped(a.name, ['='] + (value + rest), ',');
    assert a.name + (['='] + (value + parts[0])) == PrintAttribute(a) + parts[0];
  }

  lemma ComponentEnds(a: Attribute, tail: string)
    requires LegalName(a.name)
    ensures SplitFrom(PrintAttribute(a), ',', false) == [PrintAttribute(a)]
    ensures SplitFrom(PrintAttribute(a) + ([','] + tail), ',', false)
         == [PrintAttribute(a)] + SplitFrom(tail, ',', false)
  {
    hide LegalName, PrintAttribute;
    var text := PrintAttribute(a);
    assert text + "" == text;
    assert ([','] + tail)[1..] == tail;
    ComponentSplitsOff(a, "");
    ComponentSplitsOff(a, [','] + tail);
  }

  lemma {:induction false} ComponentsSplitBack(attributes: seq<Attribute>)
    requires attributes != [] && forall a <- attributes :: LegalName(a.name)
    ensures SplitFrom(Print(attributes), ',', false) == Printed(attributes)
  {
    hide LegalName, PrintAttribute, SplitFrom, Join;
    var a, rest := attributes[0], attributes[1..];
    assert a in attributes;
    ComponentEnds(a, Print(rest));
    JoinCons(PrintAttribute(a), Printed(rest), ",");
    if rest != [] {
      ComponentsSplitBack(rest);
    }
  }

  /** What is left of an attribute: its name trimmed and in lower case, its value trimmed. */
  function Normalized(a: Attribute): Attribute {
    Attribute(Lower(Trim(a.name)), Trim(a.value))
  }

  predicate IsNormal(a: Attribute) {
    NoEdgeSpace(a.name) && Lower(a.name) == a.name && NoEdgeSpace(a.value)
  }

  lemma TrimShortens(s: string)
    ensures |Trim(s)| == |s| ==> Trim(s) == s
  {
  }

  lemma NormalIsSame(a: Attribute)
    ensures Normalized(a) == a <==> IsNormal(a)
  {
    hide Trim, Lower;
    TrimKeeps(a.value);
    TrimKeeps(a.name);
    TrimShortens(a.name);
  }

  function AllNormalized(attributes: seq<Attribute>): seq<Attribute> {
    if attributes == [] then [] else [Normalized(attributes[0])] + AllNormalized(attributes[1..])
  }

  lemma {:induction false} PrintedReadBack(attributes: seq<Attribute>)
    requires forall a <- attributes :: LegalName(a.name)
    ensures AllAttributes(Printed(attributes)) == AllNormalized(attributes)
  {
    hide LegalName, ComponentAttributes, PrintAttribute;
    if attributes != [] {
      var a := attributes[0];
      assert a in attributes;
      PrintedReadBack(attributes[1..]);
      AttributeReadsBack(a);
    }
  }

  lemma {:induction false} NormalizedIsSame(attributes: seq<Attribute>)
    ensures AllNormalized(attributes) == attributes <==> forall i | 0 <= i < |attributes| :: IsNormal(attributes[i])
  {
    hide Normalized, IsNormal;
    if attributes != [] {
      var a, rest := attributes[0], attributes[1..];
      NormalIsSame(a);
      NormalizedIsSame(rest);
      assert attributes == [a] + rest;
      var all := AllNormalized(attributes);
      assert all[0] == Normalized(a) && all[1..] == AllNormalized(rest);
    }
  }

  /**
  Every escaped and joined list of attributes parses back normalized: names trimmed and in lower
  case, values trimmed.  So it parses back to itself exactly when no name or value has white space
  at an edge and names are in lower case.
  */
  lemma ParseInvertsPrint(attributes: seq<Attribute>)
    requires forall a <- attributes :: LegalName(a.name)
    ensures Attributes(Print(attributes)) == AllNormalized(attributes)
    ensures Attributes(Print(attributes)) == attributes <==> forall i | 0 <= i < |attributes| :: IsNormal(attributes[i])
  {
    hide LegalName, IsNormal;
    if attributes == [] {
      assert Print([]) == "" && SplitFrom("", ',', false) == [""];
      assert ComponentAttributes("") == [];
    } else {
      ComponentsSplitBack(attributes);
      PrintedReadBack(attributes);
    }
    NormalizedIsSame(attributes);
  }

  // ---- Escaped spaces at the edges ----

  lemma ComponentIs(name: string, text: string)
    requires LegalName(name)
    ensures ComponentAttributes(name + (['='] + text)) == [Attribute(Lower(Trim(name)), Unescape(Trim(text)))]
  {
    hide Unescape, IsSpace, Trim, Lower;
    var component := name + (['='] + text);
    NameEndsAtEquals(name, text);
    assert component[..|name|] == name && component[|name| + 1..] == text;
  }

  /**
  An escaped trailing space does not survive: the component is trimmed before it is unescaped, and the
  backslash left behind stays as part of the value.
  */
  lemma TrailingEscapedSpaceIsLost(name: string, value: string)
    requires LegalName(name)
    ensures ComponentAttributes(name + (['='] + (Escape(value) + "\\ ")))
         == [Attribute(Lower(Trim(name)), TrimStart(value) + "\\")]
  {
    hide Escape, Unescape, IsSpace, Trim, TrimStart;
    ComponentIs(name, Escape(value) + "\\ ");
    TrimTrailing(value);
    UnescapeTrailing(TrimStart(value));
  }

  lemma TrimTrailing(value: string)
    ensures Trim(Escape(value) + "\\ ") == Escape(TrimStart(value)) + "\\"
  {
    hide Escape, TrimStart, TrimEnd;
    TrimStartOver(Escape(value), "\\ ");
    TrimStartOfEscaped(value);
    var rest := Escape(TrimStart(value)) + "\\";
    assert Escape(TrimStart(value)) + "\\ " == rest + [' '];
    TrimEndStep(rest, ' ');
    assert !IsSpace(rest[|rest| - 1]);
  }

  /** What begins behind the white space is not touched. */
  lemma {:induction false} TrimStartOver(s: string, rest: string)
    requires rest != "" && !IsSpace(rest[0])
    ensures TrimStart(s + rest) == TrimStart(s) + rest
  {
    if s == "" {
      assert s + rest == rest;
    } else {
      assert (s + rest)[1..] == s[1..] + rest;
      TrimStartOver(s[1..], rest);
    }
  }

  /** Escaping as RFC 4514 asks for: a space at either end is escaped as well. */
  function EscapeWithSpaces(value: string): string {
    if |value| >= 2 && value[0] == ' ' then "\\ " + EscapeLast(value[1..]) else EscapeLast(value)
  }

  function EscapeLast(value: string): string {
    if value != "" && value[|value| - 1] == ' ' then Escape(value[..|value| - 1]) + "\\ " else Escape(value)
  }

  /** Unescaped text ends as the text does. */
  lemma {:induction false} UnescapeEnds(s: string)
    requires s != ""
    ensures Unescape(s) != "" && Unescape(s)[|Unescape(s)| - 1] == s[|s| - 1]
    decreases |s|
  {
    if s[0] == '\\' {
      if |s| > 2 {
        UnescapeEnds(s[2..]);
      }
    } else if |s| > 1 {
      UnescapeEnds(s[1..]);
    }
  }

  lemma {:induction false} TrimmedEnds(s: string)
    ensures TrimEnd(s) != "" ==> !IsSpace(TrimEnd(s)[|TrimEnd(s)| - 1])
  {
    if s != "" && IsSpace(s[|s| - 1]) {
      TrimmedEnds(s[..|s| - 1]);
    }
  }

  /** No text is read as a value that ends in white space. */
  lemma ReadValueEnds(text: string)
    ensures var value := Unescape(Trim(text)); value != "" ==> !IsSpace(value[|value| - 1])
  {
    hide Unescape, IsSpace;
    TrimmedEnds(TrimStart(text));
    if Trim(text) != "" {
      UnescapeEnds(Trim(text));
    } else {
      assert Unescape("") == "" by {
        UnescapeInvertsEscape("");
      }
    }
  }

  lemma LeadingSpaceSurvives(value: string)
    requires |value| >= 2 && value[0] == ' ' && !IsSpace(value[|value| - 1])
    ensures Unescape(Trim(EscapeWithSpaces(value))) == value
  {
    hide Escape, Unescape, TrimStart, TrimEnd;
    var rest := value[1..];
    var text := "\\ " + Escape(rest);
    EscapeEdges(rest);
    assert EscapeWithSpaces(value) == text;
    assert text != [] && !IsSpace(text[0]) && text[|text| - 1] == value[|value| - 1];
    assert Trim(text) == text;
    UnescapePair(' ', Escape(rest));
    UnescapeInvertsEscape(rest);
    assert value == [' '] + rest;
  }

  lemma UnescapePair(c: char, rest: string)
    ensures Unescape(['\\', c] + rest) == [c] + Unescape(rest)
  {
    assert (['\\', c] + rest)[2..] == rest;
  }

  /**
  A value escaped in this way reads back if and only if it does not end in white space, escaped or
  not, and does not begin with white space other than the escaped space.
  */
  lemma EscapedSpacesReadBackIff(name: string, value: string)
    requires LegalName(name)
    ensures ComponentAttributes(name + (['='] + EscapeWithSpaces(value))) == [Attribute(Lower(Trim(name)), value)]
       <==> value == "" || (!IsSpace(value[|value| - 1]) && (value[0] == ' ' || !IsSpace(value[0])))
  {
    hide Unescape, IsSpace, Trim, Lower, LegalName, ComponentAttributes, EscapeWithSpaces;
    var text := EscapeWithSpaces(value);
    ComponentIs(name, text);
    ReadValueEnds(text);
    if value != "" && !IsSpace(value[|value| - 1]) {
      if value[0] == ' ' {
        SpaceIsSpace();
        LeadingSpaceSurvives(value);
      } else {
        PlainSpaces(value);
        TrimOfEscaped(value);
        UnescapeInvertsEscape(Trim(value));
        TrimKeeps(value);
      }
    } else if value == "" {
      EmptyReadsBack();
    }
  }

  lemma SpaceIsSpace()
    ensures IsSpace(' ')
  {
  }

  lemma PlainSpaces(value: string)
    requires value != "" && value[0] != ' ' && !IsSpace(value[|value| - 1])
    ensures EscapeWithSpaces(value) == Escape(value)
  {
  }

  lemma EmptyReadsBack()
    ensures Unescape(Trim(EscapeWithSpaces(""))) == ""
  {
  }

  lemma {:induction false} UnescapeTrailing(value: string)
    ensures Unescape(Escape(value) + "\\") == value + "\\"
  {
    var text := Escape(value) + "\\";
    if value == "" {
      assert text == "\\";
    } else {
      UnescapeTrailing(value[1..]);
      var tail := Escape(value[1..]) + "\\";
      if MustEscape(value[0]) {
        assert text[2..] == tail;
      } else {
        assert text[1..] == tail;
      }
      assert value + "\\" == [value[0]] + (value[1..] + "\\");
    }
  }
}
