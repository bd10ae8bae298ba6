/**
LDIF reading in `scripts/import-icao-pkd.ts` (RFC 2849): line unfolding and attribute parsing.  The
loops are methods that compute the functions above them.
*/
module Ldif {
  import opened Wrappers
  import opened JsText

  datatype Error = ContinuationWithoutLine | MissingSeparator

  type Entry = map<string, seq<string>>

  /** Lower case of the ASCII letters, the only ones in attribute descriptions. */
  function Lower(s: string): (r: string)
    ensures |r| == |s|
  {
    seq(|s|, i requires 0 <= i < |s| => LowerChar(s[i]))
  }

  function LowerChar(c: char): char {
    if 'A' <= c <= 'Z' then (c as int + 32) as char else c
  }

  // ---- Lines ----

  /** `replaceAll("\r\n", "\n")` */
  function ReplaceCrLf(text: string): string {
    if text == "" then ""
    else if text[0] == '\r' && |text| > 1 && text[1] == '\n' then ['\n'] + ReplaceCrLf(text[2..])
    else [text[0]] + ReplaceCrLf(text[1..])
  }

  function RawLines(text: string): seq<string> {
    Split(ReplaceCrLf(text), '\n')
  }

  predicate IsContinuation(line: string) {
    line != "" && line[0] == ' '
  }

  /** Every continuation line appended, without its leading space, to the line before it. */
  function Unfold(lines: seq<string>): Result<seq<string>, Error> {
    if lines == [] then Ok([])
    else
      match Unfold(lines[..|lines| - 1])
      case Err(e) => Err(e)
      case Ok(before) => UnfoldNext(before, lines[|lines| - 1])
  }

  function UnfoldNext(before: seq<string>, line: string): Result<seq<string>, Error> {
    if !IsContinuation(line) then Ok(before + [line])
    else if before == [] then Err(ContinuationWithoutLine)
    else Ok(before[..|before| - 1] + [before[|before| - 1] + line[1..]])
  }

  method NormalizeLdifText(text: string) returns (r: Result<seq<string>, Error>)
    ensures r == Unfold(RawLines(text))
  {
    var rawLines := RawLines(text);
    var unfolded: seq<string> := [];
    for i := 0 to |rawLines|
      invariant Unfold(rawLines[..i]) == Ok(unfolded)
    {
      assert rawLines[..i + 1][..i] == rawLines[..i];
      var rawLine := rawLines[i];
      if IsContinuation(rawLine) {
        if unfolded == [] {
          UnfoldStops(rawLines, i + 1);
          return Err(ContinuationWithoutLine);
        }
        var previous := unfolded[|unfolded| - 1];
        unfolded := unfolded[..|unfolded| - 1];
        unfolded := unfolded + [previous + rawLine[1..]];
      } else {
        unfolded := unfolded + [rawLine];
      }
    }
    assert rawLines[..|rawLines|] == rawLines;
    r := Ok(unfolded);
  }

  lemma {:induction false} UnfoldStops(lines: seq<string>, n: nat)
    requires n <= |lines| && Unfold(lines[..n]).Err?
    ensures Unfold(lines) == Unfold(lines[..n])
    decreases |lines| - n
  {
    if n == |lines| {
      assert lines[..n] == lines;
    } else {
      assert lines[..n + 1][..n] == lines[..n];
      UnfoldStops(lines, n + 1);
    }
  }

  // ---- Entries ----

  // The entries completed so far and the one being read.
  datatype Reading = Reading(entries: seq<Entry>, current: Entry)

  function AddValue(entry: Entry, name: string, value: string): Entry {
    entry[name := (if name in entry then entry[name] else []) + [value]]
  }

  /** The value of an attribute line: after one colon, or two for base64, and leading white space. */
  function ValueText(line: string, separator: nat): string
    requires separator < |line|
  {
    var isBase64 := separator + 1 < |line| && line[separator + 1] == ':';
    TrimStart(line[separator + if isBase64 then 2 else 1..])
  }

  function ReadLine(before: Reading, line: string): Result<Reading, Error> {
    if line == "" then
      Ok(if |before.current| > 0 then Reading(before.entries + [before.current], map[]) else before)
    else if line[0] == '#' then Ok(before)
    else
      var separator := Find(line, ':');
      if separator == 0 || separator == |line| then Err(MissingSeparator)
      else
        Ok(before.(current := AddValue(before.current, Lower(line[..separator]), ValueText(line, separator))))
  }

  function ReadLines(lines: seq<string>): Result<Reading, Error> {
    if lines == [] then Ok(Reading([], map[]))
    else
      match ReadLines(lines[..|lines| - 1])
      case Err(e) => Err(e)
      case Ok(before) => ReadLine(before, lines[|lines| - 1])
  }

  function Finish(r: Reading): seq<Entry> {
    if |r.current| > 0 then r.entries + [r.current] else r.entries
  }

  function Entries(text: string): Result<seq<Entry>, Error> {
    match Unfold(RawLines(text))
    case Err(e) => Err(e)
    case Ok(lines) =>
      match ReadLines(lines)
      case Err(e) => Err(e)
      case Ok(r) => Ok(Finish(r))
  }

  /** Lines that hold no attribute: an empty one ends an entry that has one, a comment does nothing. */
  lemma OtherLines(before: Reading, line: string)
    ensures line == "" ==>
              ReadLine(before, line) == Ok(if before.current == map[] then before
                                           else Reading(before.entries + [before.current], map[]))
    ensures line != "" && line[0] == '#' ==> ReadLine(before, line) == Ok(before)
    ensures ReadLine(before, line).Err? <==>
              line != "" && line[0] != '#' && (line[0] == ':' || ':' !in line)
  {
    hide Lower, TrimStart;
    if before.current != map[] {
      assert before.current.Keys != {};
    }
  }

  /** Unfolding fails if and only if the first line is a continuation. */
  lemma {:induction false} UnfoldFailsIff(lines: seq<string>)
    ensures Unfold(lines).Err? <==> lines != [] && lines[0] != "" && lines[0][0] == ' '
    ensures Unfold(lines).Ok? && lines != [] ==> Unfold(lines).value != []
  {
    if lines != [] {
      UnfoldFailsIff(lines[..|lines| - 1]);
    }
  }

  lemma {:induction false} ReadStops(lines: seq<string>, n: nat)
    requires n <= |lines| && ReadLines(lines[..n]).Err?
    ensures ReadLines(lines) == ReadLines(lines[..n])
    decreases |lines| - n
  {
    if n == |lines| {
      assert lines[..n] == lines;
    } else {
      assert lines[..n + 1][..n] == lines[..n];
      ReadStops(lines, n + 1);
    }
  }

  lemma ReadOneMore(lines: seq<string>, i: nat)
    requires i < |lines|
    ensures ReadLines([]) == Ok(Reading([], map[]))
    ensures ReadLines(lines[..i]).Ok? ==> ReadLines(lines[..i + 1]) == ReadLine(ReadLines(lines[..i]).value, lines[i])
  {
    assert lines[..i + 1][..i] == lines[..i];
  }

  method ParseLdifEntries(text: string) returns (r: Result<seq<Entry>, Error>)
    ensures r == Entries(text)
  {
    hide Unfold, RawLines, ReadLines, TrimStart, Lower;
    var unfoldedLines := NormalizeLdifText(text);
    if unfoldedLines.Err? {
      return Err(unfoldedLines.error);
    }
    var lines := unfoldedLines.value;
    var entries: seq<Entry> := [];
    var currentEntry: Entry := map[];
    ReadOneMore([""], 0);
    for i := 0 to |lines|
      invariant ReadLines(lines[..i]) == Ok(Reading(entries, currentEntry))
    {
      ReadOneMore(lines, i);
      var line := lines[i];
      if |line| == 0 {
        if |currentEntry| > 0 {
          entries := entries + [currentEntry];
          currentEntry := map[];
        }
      } else if line[0] != '#' {
        var separatorIndex := Find(line, ':');
        if separatorIndex == 0 || separatorIndex == |line| {
          ReadStops(lines, i + 1);
          return Err(MissingSeparator);
        }
        var rawName := Lower(line[..separatorIndex]);
        var isBase64 := separatorIndex + 1 < |line| && line[separatorIndex + 1] == ':';
        var valueStart := separatorIndex + if isBase64 then 2 else 1;
        var rawValue := TrimStart(line[valueStart..]);
        var values := if rawName in currentEntry then currentEntry[rawName] else [];
        currentEntry := currentEntry[rawName := values + [rawValue]];
      }
    }
    assert lines[..|lines|] == lines;
    if |currentEntry| > 0 {
      entries := entries + [currentEntry];
    }
    r := Ok(entries);
  }
}
