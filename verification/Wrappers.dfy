/** Option and Result, for the source's null values and thrown errors. */
module Wrappers {
  datatype Option<+T> = None | Some(value: T)

  datatype Result<+T, +E> = Ok(value: T) | Err(error: E)

  /** A byte of a `Data` or `Uint8Array` buffer. */
  type byte = b: int | 0 <= b < 256

  type Bytes = seq<byte>

  predicate Distinct<T(==)>(s: seq<T>) {
    forall i, j | 0 <= i < j < |s| :: s[i] != s[j]
  }

  predicate Rising(s: seq<int>) {
    forall i, j | 0 <= i < j < |s| :: s[i] < s[j]
  }

  /** The pieces put back together. */
  function Concat<T>(parts: seq<seq<T>>): seq<T> {
    if parts == [] then [] else parts[0] + Concat(parts[1..])
  }

  lemma {:induction false} ConcatAppend<T>(parts: seq<seq<T>>, last: seq<T>)
    ensures Concat(parts + [last]) == Concat(parts) + last
  {
    if parts == [] {
      assert parts + [last] == [last];
    } else {
      ConcatAppend(parts[1..], last);
      assert (parts + [last])[1..] == parts[1..] + [last];
    }
  }

  lemma ConcatNothing<T>()
    ensures Concat<T>([]) == []
  {
  }

  lemma ConcatCons<T>(first: seq<T>, rest: seq<seq<T>>)
    ensures Concat([first] + rest) == first + Concat(rest)
  {
  }

  lemma {:induction false} ConcatSplit<T>(left: seq<seq<T>>, right: seq<seq<T>>)
    ensures Concat(left + right) == Concat(left) + Concat(right)
  {
    hide Concat;
    if left == [] {
      ConcatNothing<T>();
      assert left + right == right;
    } else {
      var first, rest := left[0], left[1..];
      ConcatSplit(rest, right);
      assert left == [first] + rest && left + right == [first] + (rest + right);
      ConcatCons(first, rest);
      ConcatCons(first, rest + right);
    }
  }
}
