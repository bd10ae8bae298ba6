/** The part of regular expressions that the role patterns use, by what they match. */
module RegularExpressions {

  datatype Regex =
    | Start
    | End
    | Literal(text: string)
    | Either(left: Regex, right: Regex)
    | Then(first: Regex, second: Regex)
    | Star(body: Regex)

  /** `r` matches `s` from position `i` to position `j`. */
  ghost predicate Matches(r: Regex, s: string, i: nat, j: nat)
    requires i <= j <= |s|
    decreases r, j - i
  {
    match r
    case Start => i == j == 0
    case End => i == j == |s|
    case Literal(text) => s[i..j] == text
    case Either(a, b) => Matches(a, s, i, j) || Matches(b, s, i, j)
    case Then(a, b) => exists k: nat | i <= k <= j :: Matches(a, s, i, k) && Matches(b, s, k, j)
    case Star(a) => i == j || exists k: nat | i < k <= j :: Matches(a, s, i, k) && Matches(r, s, k, j)
  }

  lemma ThenSplit(a: Regex, b: Regex, s: string, i: nat, j: nat) returns (k: nat)
    requires i <= j <= |s| && Matches(Then(a, b), s, i, j)
    ensures i <= k <= j && Matches(a, s, i, k) && Matches(b, s, k, j)
  {
    k :| i <= k <= j && Matches(a, s, i, k) && Matches(b, s, k, j);
  }

  lemma ThenJoin(a: Regex, b: Regex, s: string, i: nat, k: nat, j: nat)
    requires i <= k <= j <= |s| && Matches(a, s, i, k) && Matches(b, s, k, j)
    ensures Matches(Then(a, b), s, i, j)
  {
  }

  lemma Atoms(text: string, s: string, i: nat, j: nat)
    requires i <= j <= |s|
    ensures Matches(Literal(text), s, i, j) <==> s[i..j] == text
    ensures Matches(Start, s, i, j) <==> i == j == 0
    ensures Matches(End, s, i, j) <==> i == j == |s|
  {
  }

  lemma EitherMatches(a: Regex, b: Regex, s: string, i: nat, j: nat)
    requires i <= j <= |s|
    ensures Matches(Either(a, b), s, i, j) <==> Matches(a, s, i, j) || Matches(b, s, i, j)
  {
  }

  lemma StarEmpty(a: Regex, s: string, i: nat)
    requires i <= |s|
    ensures Matches(Star(a), s, i, i)
  {
  }

  lemma StarSplit(a: Regex, s: string, i: nat, j: nat) returns (k: nat)
    requires i < j <= |s| && Matches(Star(a), s, i, j)
    ensures i < k <= j && Matches(a, s, i, k) && Matches(Star(a), s, k, j)
  {
    k :| i < k <= j && Matches(a, s, i, k) && Matches(Star(a), s, k, j);
  }

  lemma StarJoin(a: Regex, s: string, i: nat, k: nat, j: nat)
    requires i < k <= j <= |s| && Matches(a, s, i, k) && Matches(Star(a), s, k, j)
    ensures Matches(Star(a), s, i, j)
  {
  }

  /** `s ~ r`: some part of `s` matches. */
  ghost predicate Found(r: Regex, s: string) {
    exists i: nat, j: nat | i <= j <= |s| :: Matches(r, s, i, j)
  }

  /** `a|b|...` over a list of words. */
  function AnyOf(words: seq<string>): Regex
    requires words != []
  {
    if |words| == 1 then Literal(words[0]) else Either(Literal(words[0]), AnyOf(words[1..]))
  }

  lemma {:induction false} AnyOfMatches(words: seq<string>, s: string, i: nat, j: nat)
    requires words != [] && i <= j <= |s|
    ensures Matches(AnyOf(words), s, i, j) <==> s[i..j] in words
  {
    if |words| > 1 {
      AnyOfMatches(words[1..], s, i, j);
    }
  }
}
