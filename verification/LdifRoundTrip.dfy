/**
Parsing inverts printing and folding: every document with legal names and values, folded anywhere
and ended by LF or CR LF line by line, comes back as the same attribute values in the same order.
*/
module LdifRoundTrip {
  import opened Wrappers
  import opened JsText
  import opened Ldif

  // ---- Folding (RFC 2849, note 2 of "Notes on LDIF Syntax") ----

  // A line of text as it stands in the file, with its terminator.
  datatype FileLine = FileLine(text: string, crLf: bool)

  predicate OneLine(s: string) {
    forall i | 0 <= i < |s| :: s[i] != '\r' && s[i] != '\n'
  }

  function Render(lines: seq<FileLine>): string {
    if lines == [] then "" else lines[0].text + (if lines[0].crLf then "\r\n" else "\n") + Render(lines[1..])
  }

  function Texts(lines: seq<FileLine>): seq<string> {
    seq(|lines|, i requires 0 <= i < |lines| => lines[i].text)
  }

  /** A line cut into pieces, of which all but the first are written behind a space. */
  ghost predicate IsFoldOf(folded: seq<string>, line: string) {
    && folded != []
    && (line == "" || line[0] != ' ')
    && (forall i | 1 <= i < |folded| :: IsContinuation(folded[i]))
    && line == folded[0] + Tails(folded[1..])
  }

  function Tails(folded: seq<string>): string {
    if folded == [] then "" else (if folded[0] == "" then "" else folded[0][1..]) + Tails(folded[1..])
  }

  lemma {:induction false} ReplacePlain(text: string, rest: string)
    requires OneLine(text)
    ensures ReplaceCrLf(text + rest) == text + ReplaceCrLf(rest)
  {
    if text == "" {
      assert text + rest == rest;
    } else {
      assert (text + rest)[1..] == text[1..] + rest;
      assert (text + rest)[0] == text[0];
      ReplacePlain(text[1..], rest);
    }
  }

  lemma {:induction false} LinesOfRender(lines: seq<FileLine>)
    requires forall l <- lines :: OneLine(l.text)
    ensures RawLines(Render(lines)) == Texts(lines) + [""]
  {
    hide Find, OneLine, RawLines;
    if lines == [] {
      NoLines();
      assert Texts(lines) + [""] == [""];
    } else {
      assert lines[0] in lines;
      LinesOfRender(lines[1..]);
      FirstLine(lines[0], Render(lines[1..]));
      assert Texts(lines) == [lines[0].text] + Texts(lines[1..]);
      assert [lines[0].text] + (Texts(lines[1..]) + [""]) == Texts(lines) + [""];
    }
  }

  lemma NoLines()
    ensures RawLines("") == [""]
  {
    SplitStep("", '\n');
    assert [""] + [] == [""];
  }

  lemma FirstLine(l: FileLine, rest: string)
    requires OneLine(l.text)
    ensures RawLines(l.text + (if l.crLf then "\r\n" else "\n") + rest) == [l.text] + RawLines(rest)
  {
    hide Split;
    var ending := if l.crLf then "\r\n" else "\n";
    var more := ReplaceCrLf(rest);
    assert l.text + ending + rest == l.text + (ending + rest);
    ReplacePlain(l.text, ending + rest);
    EndingReplaced(l.crLf, rest);
    assert l.text + (['\n'] + more) == l.text + ['\n'] + more;
    SplitAtFirst(l.text, '\n', more);
  }

  lemma EndingReplaced(crLf: bool, rest: string)
    ensures ReplaceCrLf((if crLf then "\r\n" else "\n") + rest) == ['\n'] + ReplaceCrLf(rest)
  {
    var ending := if crLf then "\r\n" else "\n";
    assert (ending + rest)[|ending|..] == rest;
  }

  lemma {:induction false} UnfoldAppend(a: seq<string>, b: seq<string>, mid: seq<string>)
    requires Unfold(a) == Ok(mid)
    ensures Unfold(a + b) == UnfoldOnto(mid, b)
  {
    if b == [] {
      assert a + b == a;
    } else {
      var ab := a + b;
      assert ab[..|ab| - 1] == a + b[..|b| - 1];
      UnfoldAppend(a, b[..|b| - 1], mid);
    }
  }

  /** Unfolding more lines onto an already unfolded list. */
  function UnfoldOnto(mid: seq<string>, lines: seq<string>): Result<seq<string>, Error> {
    if lines == [] then Ok(mid)
    else
      match UnfoldOnto(mid, lines[..|lines| - 1])
      case Err(e) => Err(e)
      case Ok(before) => UnfoldNext(before, lines[|lines| - 1])
  }

  lemma {:induction false} TailsAppend(folded: seq<string>, last: string)
    requires IsContinuation(last)
    ensures Tails(folded + [last]) == Tails(folded) + last[1..]
  {
    if folded == [] {
      assert folded + [last] == [last];
    } else {
      assert (folded + [last])[1..] == folded[1..] + [last];
      TailsAppend(folded[1..], last);
    }
  }

  lemma {:induction false} UnfoldOneLine(mid: seq<string>, folded: seq<string>)
    requires folded != [] && !IsContinuation(folded[0])
    requires forall i | 1 <= i < |folded| :: IsContinuation(folded[i])
    ensures UnfoldOnto(mid, folded) == Ok(mid + [folded[0] + Tails(folded[1..])])
  {
    hide Tails, UnfoldNext, IsContinuation;
    if |folded| == 1 {
      OneFold(mid, folded[0]);
      assert folded == [folded[0]];
    } else {
      var rest, last := folded[..|folded| - 1], folded[|folded| - 1];
      UnfoldOneLine(mid, rest);
      TailsAppend(rest[1..], last);
      assert folded[1..] == rest[1..] + [last];
      JoinLast(mid, rest[0], Tails(rest[1..]), last);
    }
  }

  lemma JoinLast(mid: seq<string>, first: string, tails: string, last: string)
    requires IsContinuation(last)
    ensures UnfoldNext(mid + [first + tails], last) == Ok(mid + [first + (tails + last[1..])])
  {
    assert (mid + [first + tails])[..|mid|] == mid;
    assert first + tails + last[1..] == first + (tails + last[1..]);
  }

  lemma OneFold(mid: seq<string>, line: string)
    requires !IsContinuation(line)
    ensures UnfoldOnto(mid, [line]) == Ok(mid + [line + Tails([line][1..])])
  {
    assert [line][..0] == [] && [line][1..] == [];
    assert line + "" == line;
  }

  /** Unfolding inverts folding, for any list of lines and any way of folding each of them. */
  lemma {:induction false} UnfoldInvertsFold(lines: seq<string>, folds: seq<seq<string>>)
    requires |folds| == |lines| && forall i | 0 <= i < |lines| :: IsFoldOf(folds[i], lines[i])
    ensures Unfold(Concat(folds)) == Ok(lines)
  {
    if lines != [] {
      var n := |lines| - 1;
      UnfoldInvertsFold(lines[..n], folds[..n]);
      ConcatAppend(folds[..n], folds[n]);
      assert folds == folds[..n] + [folds[n]] && lines == lines[..n] + [lines[n]];
      assert IsFoldOf(folds[n], lines[n]);
      UnfoldAppend(Concat(folds[..n]), folds[n], lines[..n]);
      UnfoldOneLine(lines[..n], folds[n]);
    }
  }

  // ---- Printing ----

  // One attribute line: `name: value` or `name:: value`, with any number of spaces before the value.
  datatype Attribute = Attribute(name: string, base64: bool, fill: nat, value: string)

  predicate LegalName(name: string) {
    && name != "" && OneLine(name) && ':' !in name
    && name[0] != ' ' && name[0] != '#'
  }

  predicate LegalValue(value: string) {
    OneLine(value) && TrimStart(value) == value
  }

  predicate Legal(a: Attribute) {
    && LegalName(a.name) && LegalValue(a.value)
    // A plain value that starts with a colon needs a space in front of it.
    && (a.base64 || a.fill > 0 || a.value == "" || a.value[0] != ':')
  }

  function Spaces(n: nat): (s: string)
    ensures |s| == n && forall i | 0 <= i < n :: s[i] == ' '
  {
    seq(n, _ => ' ')
  }

  function AttributeLine(a: Attribute): string {
    a.name + [':'] + ((if a.base64 then ":" else "") + Spaces(a.fill) + a.value)
  }

  function AttributeLines(attributes: seq<Attribute>): seq<string> {
    if attributes == [] then []
    else AttributeLines(attributes[..|attributes| - 1]) + [AttributeLine(attributes[|attributes| - 1])]
  }

  /** Each entry's attributes, one line each, and an empty line after it. */
  function DocumentLines(entries: seq<seq<Attribute>>): seq<string> {
    if entries == [] then []
    else DocumentLines(entries[..|entries| - 1]) + (AttributeLines(entries[|entries| - 1]) + [""])
  }

  ghost predicate LegalEntry(attributes: seq<Attribute>) {
    attributes != [] && forall a <- attributes :: Legal(a)
  }

  /** The values of each name, in lower case, in the order of their lines. */
  function Multimap(attributes: seq<Attribute>): (m: Entry)
    ensures attributes != [] ==> |m| > 0
  {
    if attributes == [] then map[]
    else
      var last := attributes[|attributes| - 1];
      var m := AddValue(Multimap(attributes[..|attributes| - 1]), Lower(last.name), last.value);
      assert Lower(last.name) in m.Keys;
      m
  }

  function Multimaps(entries: seq<seq<Attribute>>): (r: seq<Entry>)
    ensures |r| == |entries| && forall i | 0 <= i < |r| :: r[i] == Multimap(entries[i])
  {
    if entries == [] then [] else Multimaps(entries[..|entries| - 1]) + [Multimap(entries[|entries| - 1])]
  }

  lemma {:induction false} TrimSpaces(n: nat, value: string)
    requires TrimStart(value) == value
    ensures TrimStart(Spaces(n) + value) == value
  {
    if n == 0 {
      assert Spaces(n) + value == value;
    } else {
      assert (Spaces(n) + value)[1..] == Spaces(n - 1) + value;
      TrimSpaces(n - 1, value);
    }
  }

  lemma NameParts(a: Attribute)
    requires Legal(a)
    ensures a.name != "" && ':' !in a.name && a.name[0] != '#'
  {
    hide OneLine, Lower, LegalValue;
  }

  lemma ValueParts(a: Attribute)
    requires Legal(a)
    ensures TrimStart(a.value) == a.value
    ensures a.base64 || a.fill > 0 || a.value == "" || a.value[0] != ':'
  {
    hide OneLine, TrimStart, LegalName;
  }

  lemma LineParts(a: Attribute)
    requires Legal(a)
    ensures OneLine(a.name) && OneLine(a.value)
  {
    hide OneLine, TrimStart, Lower;
  }

  /** The value text behind the colons. */
  function Tail(a: Attribute): string {
    Spaces(a.fill) + a.value
  }

  lemma LineShape(a: Attribute)
    ensures AttributeLine(a) == a.name + ([':'] + Rest(a))
  {
    hide Spaces;
  }

  /** What stands behind the first colon. */
  function Rest(a: Attribute): string {
    (if a.base64 then ":" else "") + Tail(a)
  }

  lemma HeadAndRest(s: string, head: string, c: char, rest: string)
    requires s == head + ([c] + rest)
    ensures |head| < |s| && s[..|head|] == head && s[|head|] == c && s[|head| + 1..] == rest
  {
  }

  lemma SeparatorFound(a: Attribute)
    requires Legal(a)
    ensures var line := AttributeLine(a);
            && Find(line, ':') == |a.name| < |line| && line[..|a.name|] == a.name && line[0] == a.name[0]
  {
    hide AttributeLine, Legal, OneLine, Lower, TrimStart, Rest, Find;
    NameParts(a);
    LineShape(a);
    var line := AttributeLine(a);
    HeadAndRest(line, a.name, ':', Rest(a));
    FindBehind(a.name, ':', Rest(a));
  }

  lemma ValueFound(a: Attribute)
    requires Legal(a)
    ensures |a.name| < |AttributeLine(a)| && ValueText(AttributeLine(a), |a.name|) == a.value
  {
    hide AttributeLine, Legal, OneLine, Lower, TrimStart, Tail, Spaces, Rest;
    ValueParts(a);
    TrimSpaces(a.fill, a.value);
    LineShape(a);
    TailShape(a);
    RestShape(a);
    var line, at := AttributeLine(a), |a.name|;
    HeadAndRest(line, a.name, ':', Rest(a));
    assert at + 1 < |line| ==> line[at + 1] == Rest(a)[0];
    if a.base64 {
      assert line[at + 2..] == Rest(a)[1..];
    }
  }

  lemma RestShape(a: Attribute)
    ensures if a.base64 then Rest(a) != "" && Rest(a)[0] == ':' && Rest(a)[1..] == Tail(a) else Rest(a) == Tail(a)
  {
    hide Tail;
  }

  lemma TailShape(a: Attribute)
    requires Legal(a)
    ensures Tail(a) == Spaces(a.fill) + a.value
    ensures !a.base64 && Tail(a) != "" ==> Tail(a)[0] != ':'
  {
    hide Legal, OneLine, Lower, TrimStart, Spaces;
    ValueParts(a);
  }

  lemma AttributeReadsBack(before: Reading, a: Attribute)
    requires Legal(a)
    ensures ReadLine(before, AttributeLine(a))
         == Ok(before.(current := AddValue(before.current, Lower(a.name), a.value)))
  {
    hide AttributeLine, Find, ValueText, Legal;
    SeparatorFound(a);
    ValueFound(a);
    NameParts(a);
  }

  lemma {:induction false} ReadAppend(a: seq<string>, b: seq<string>, mid: Reading)
    requires ReadLines(a) == Ok(mid)
    ensures ReadLines(a + b) == ReadOnto(mid, b)
  {
    hide ReadLine;
    if b == [] {
      assert a + b == a;
    } else {
      var ab := a + b;
      assert ab[..|ab| - 1] == a + b[..|b| - 1];
      ReadAppend(a, b[..|b| - 1], mid);
    }
  }

  /** Reading more lines from a given state. */
  function ReadOnto(mid: Reading, lines: seq<string>): Result<Reading, Error> {
    if lines == [] then Ok(mid)
    else
      match ReadOnto(mid, lines[..|lines| - 1])
      case Err(e) => Err(e)
      case Ok(before) => ReadLine(before, lines[|lines| - 1])
  }

  lemma {:induction false} AttributesReadBack(mid: Reading, attributes: seq<Attribute>)
    requires mid.current == map[] && forall a <- attributes :: Legal(a)
    ensures ReadOnto(mid, AttributeLines(attributes)) == Ok(mid.(current := Multimap(attributes)))
  {
    if attributes != [] {
      var n := |attributes| - 1;
      assert attributes[n] in attributes;
      AttributesReadBack(mid, attributes[..n]);
      hide AttributeLine, ReadLine, Legal;
      var lines := AttributeLines(attributes);
      assert lines[..|lines| - 1] == AttributeLines(attributes[..n]);
      AttributeReadsBack(mid.(current := Multimap(attributes[..n])), attributes[n]);
    }
  }

  lemma EntryReadsBack(mid: Reading, attributes: seq<Attribute>)
    requires mid.current == map[] && LegalEntry(attributes)
    ensures ReadOnto(mid, AttributeLines(attributes) + [""]) == Ok(Reading(mid.entries + [Multimap(attributes)], map[]))
  {
    AttributesReadBack(mid, attributes);
    hide AttributeLines, Multimap;
    var lines := AttributeLines(attributes) + [""];
    assert lines[..|lines| - 1] == AttributeLines(attributes);
  }

  lemma {:induction false} DocumentReadsBack(entries: seq<seq<Attribute>>)
    requires forall e <- entries :: LegalEntry(e)
    ensures ReadLines(DocumentLines(entries)) == Ok(Reading(Multimaps(entries), map[]))
  {
    hide ReadLine, LegalEntry, ReadOnto, AttributeLines, Multimap;
    if entries != [] {
      var n := |entries| - 1;
      assert entries[n] in entries && forall e <- entries[..n] :: e in entries;
      DocumentReadsBack(entries[..n]);
      var mid := Reading(Multimaps(entries[..n]), map[]);
      ReadAppend(DocumentLines(entries[..n]), AttributeLines(entries[n]) + [""], mid);
      EntryReadsBack(mid, entries[n]);
      assert Multimaps(entries) == mid.entries + [Multimap(entries[n])];
    }
  }

  // ---- The round trip ----

  lemma SpacesOneLine(n: nat)
    ensures OneLine(Spaces(n))
  {
  }

  lemma OneLineAppend(a: string, b: string)
    requires OneLine(a) && OneLine(b)
    ensures OneLine(a + b)
  {
  }

  lemma AttributeLineShape(a: Attribute)
    requires Legal(a)
    ensures OneLine(AttributeLine(a))
  {
    hide AttributeLine, Legal, Lower, TrimStart, Tail, Spaces;
    LineParts(a);
    SpacesOneLine(a.fill);
    LineShape(a);
    TailShape(a);
    OneLineAppend(Spaces(a.fill), a.value);
    OneLineAppend(if a.base64 then ":" else "", Tail(a));
    OneLineAppend([':'], Rest(a));
    OneLineAppend(a.name, [':'] + Rest(a));
  }

  lemma {:induction false} AttributeLinesOneLine(attributes: seq<Attribute>)
    requires forall a <- attributes :: Legal(a)
    ensures forall l <- AttributeLines(attributes) :: OneLine(l)
  {
    if attributes != [] {
      AttributeLinesOneLine(attributes[..|attributes| - 1]);
      AttributeLineShape(attributes[|attributes| - 1]);
    }
  }

  lemma {:induction false} DocumentOneLine(entries: seq<seq<Attribute>>)
    requires forall e <- entries :: LegalEntry(e)
    ensures forall l <- DocumentLines(entries) :: OneLine(l)
  {
    if entries != [] {
      DocumentOneLine(entries[..|entries| - 1]);
      assert LegalEntry(entries[|entries| - 1]);
      AttributeLinesOneLine(entries[|entries| - 1]);
    }
  }

  lemma {:induction false} TailsOneLine(folded: seq<string>)
    requires OneLine(Tails(folded)) && forall f <- folded :: IsContinuation(f)
    ensures forall f <- folded :: OneLine(f)
  {
    if folded != [] {
      assert folded[0] in folded;
      var head, rest := folded[0][1..], Tails(folded[1..]);
      assert Tails(folded)[..|head|] == head && Tails(folded)[|head|..] == rest;
      assert folded[0] == [' '] + head;
      TailsOneLine(folded[1..]);
    }
  }

  lemma FoldOneLine(folded: seq<string>, line: string)
    requires IsFoldOf(folded, line) && OneLine(line)
    ensures forall f <- folded :: OneLine(f)
  {
    forall f <- folded[1..] ensures IsContinuation(f) {
      var i :| 0 <= i < |folded| - 1 && folded[1..][i] == f;
      assert folded[i + 1] == f;
    }
    assert line[..|folded[0]|] == folded[0] && line[|folded[0]|..] == Tails(folded[1..]);
    TailsOneLine(folded[1..]);
    assert folded == [folded[0]] + folded[1..];
  }

  lemma {:induction false} InConcat(folds: seq<seq<string>>, f: string)
    requires f in Concat(folds)
    ensures exists i | 0 <= i < |folds| :: f in folds[i]
  {
    if f !in folds[0] {
      InConcat(folds[1..], f);
      var i :| 0 <= i < |folds| - 1 && f in folds[1..][i];
      assert f in folds[i + 1];
    }
  }

  /**
  Any document, any folding of each of its lines, and any choice of terminators.  `file` is what is
  on disk; its lines without terminators are the foldings of the document's lines.
  */
  lemma ParseInvertsPrint(entries: seq<seq<Attribute>>, folds: seq<seq<string>>, file: seq<FileLine>)
    requires forall e <- entries :: LegalEntry(e)
    requires var lines := DocumentLines(entries);
             |folds| == |lines| && forall i | 0 <= i < |lines| :: IsFoldOf(folds[i], lines[i])
    requires Texts(file) == Concat(folds)
    ensures Entries(Render(file)) == Ok(Multimaps(entries))
  {
    hide LegalEntry;
    var lines := DocumentLines(entries);
    DocumentOneLine(entries);
    hide DocumentLines, OneLine, IsFoldOf;
    forall l <- file ensures OneLine(l.text) {
      var k :| 0 <= k < |file| && file[k] == l;
      assert Texts(file)[k] == l.text;
      InConcat(folds, l.text);
      var i :| 0 <= i < |folds| && l.text in folds[i];
      FoldOneLine(folds[i], lines[i]);
    }
    LinesOfRender(file);
    UnfoldInvertsFold(lines, folds);
    UnfoldAppend(Concat(folds), [""], lines);
    DocumentReadsBack(entries);
    var end := Reading(Multimaps(entries), map[]);
    ReadAppend(lines, [""], end);
    LastLine(lines, end);
  }

  lemma LastLine(lines: seq<string>, end: Reading)
    requires end.current == map[]
    ensures UnfoldOnto(lines, [""]) == Ok(lines + [""]) && ReadOnto(end, [""]) == Ok(end)
  {
    assert [""][..0] == [];
  }
}
