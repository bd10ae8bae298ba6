/** String operations of the JavaScript runtime that the sources rely on, on code units. */
module JsText {

  /** White space and line terminators as `trim` and `trimStart` see them. */
  predicate IsSpace(c: char) {
    || '\t' <= c <= '\r' || c == ' ' || c == '\U{00A0}' || c == '\U{1680}'
    || '\U{2000}' <= c <= '\U{200A}' || c == '\U{2028}' || c == '\U{2029}' || c == '\U{202F}'
    || c == '\U{205F}' || c == '\U{3000}' || c == '\U{FEFF}'
  }

  function TrimStart(s: string): (r: string)
    ensures |r| <= |s|
    ensures r != [] ==> !IsSpace(r[0])
    ensures s != [] && !IsSpace(s[0]) ==> r == s
  {
    if s != [] && IsSpace(s[0]) then TrimStart(s[1..]) else s
  }

  function TrimEnd(s: string): (r: string)
    ensures |r| <= |s|
    ensures s != [] && !IsSpace(s[|s| - 1]) ==> r == s
  {
    if s != [] && IsSpace(s[|s| - 1]) then TrimEnd(s[..|s| - 1]) else s
  }

  function Trim(s: string): (r: string)
    ensures |r| <= |s|
    ensures s != [] && !IsSpace(s[0]) && !IsSpace(s[|s| - 1]) ==> r == s
  {
    TrimEnd(TrimStart(s))
  }

  /** The index of the first `c`, or the length when there is none. */
  function Find(s: string, c: char): (k: nat)
    ensures k <= |s| && c !in s[..k] && (k < |s| ==> s[k] == c)
    ensures k == |s| <==> c !in s
  {
    if s == [] || s[0] == c then 0
    else
      assert s == [s[0]] + s[1..];
      var k := 1 + Find(s[1..], c);
      assert s[..k] == [s[0]] + s[1..][..k - 1];
      k
  }

  /** `split` by one character: never empty. */
  function Split(s: string, c: char): (parts: seq<string>)
    ensures |parts| >= 1
    decreases |s|
  {
    var k := Find(s, c);
    if k == |s| then [s] else [s[..k]] + Split(s[k + 1..], c)
  }

  lemma SplitStep(s: string, c: char)
    ensures var k := Find(s, c);
            Split(s, c) == [s[..k]] + if k < |s| then Split(s[k + 1..], c) else []
  {
    assert s[..|s|] == s;
  }

  function Join(parts: seq<string>, separator: string): string {
    if parts == [] then ""
    else if |parts| == 1 then parts[0]
    else parts[0] + separator + Join(parts[1..], separator)
  }

  lemma JoinCons(first: string, others: seq<string>, separator: string)
    ensures Join([first] + others, separator)
         == if others == [] then first else first + (separator + Join(others, separator))
  {
    assert ([first] + others)[1..] == others;
  }

  /** Splitting loses nothing. */
  lemma {:induction false} JoinOfSplit(s: string, c: char)
    ensures Join(Split(s, c), [c]) == s
    ensures forall p <- Split(s, c) :: c !in p
    decreases |s|
  {
    var k := Find(s, c);
    if k < |s| {
      JoinOfSplit(s[k + 1..], c);
      var parts := Split(s, c);
      assert parts[1..] == Split(s[k + 1..], c);
    }
  }

  /** The first separator ends the first part. */
  lemma SplitAtFirst(head: string, c: char, tail: string)
    requires c !in head
    ensures Split(head + [c] + tail, c) == [head] + Split(tail, c)
  {
    var s := head + [c] + tail;
    assert forall i | 0 <= i < |head| :: s[i] == head[i] && head[i] in head;
    FindFirst(s, c, |head|);
    assert s[..|head|] == head && s[|head| + 1..] == tail;
  }

  lemma {:induction false} FindFirst(s: string, c: char, k: nat)
    requires k < |s| && s[k] == c && forall i | 0 <= i < k :: s[i] != c
    ensures Find(s, c) == k
  {
    if k > 0 {
      FindFirst(s[1..], c, k - 1);
    }
  }

  /** The first `c` is right behind a head without one. */
  lemma FindBehind(head: string, c: char, rest: string)
    requires c !in head
    ensures Find(head + ([c] + rest), c) == |head|
  {
    var s := head + ([c] + rest);
    assert forall i | 0 <= i < |head| :: s[i] == head[i] && head[i] in head;
    FindFirst(s, c, |head|);
  }

  /** Parts free of the separator come back from their joined text. */
  lemma {:induction false} SplitOfJoin(parts: seq<string>, c: char)
    requires parts != [] && forall p <- parts :: c !in p
    ensures Split(Join(parts, [c]), c) == parts
  {
    assert parts[0] in parts;
    if |parts| > 1 {
      SplitOfJoin(parts[1..], c);
      SplitAtFirst(parts[0], c, Join(parts[1..], [c]));
    } else {
      assert c !in parts[0];
    }
  }
}
