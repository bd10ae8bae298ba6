/**
The SQL seed writer of `scripts/import-icao-pkd.ts`: literals, and rows packed into `INSERT`
statements of limited length.
*/
module SqlBatches {
  import opened Wrappers
  import opened JsText
  import Decimal

  const MAX_SQL_STATEMENT_LENGTH: nat := 90000

  // ---- Literals ----

  datatype Value = Null | NotFinite | Integer(n: int) | Flag(b: bool) | Words(s: string)

  function DoubleQuotes(s: string): string {
    if s == "" then "" else (if s[0] == '\'' then "''" else [s[0]]) + DoubleQuotes(s[1..])
  }

  function IntegerText(n: int): string {
    if n < 0 then ['-'] + Decimal.Text(-n) else Decimal.Text(n)
  }

  function SqlLiteral(v: Value): string {
    match v
    case Null => "NULL"
    case NotFinite => "NULL"
    case Integer(n) => IntegerText(n)
    case Flag(b) => if b then "1" else "0"
    case Words(s) => ['\''] + (DoubleQuotes(s) + ['\''])
  }

  // ---- Statements ----

  function RowSql(row: seq<string>): string {
    "(" + Join(row, ", ") + ")"
  }

  function Prefix(columns: seq<string>, tableName: string): string {
    "INSERT INTO " + tableName + " (" + Join(columns, ", ") + ") VALUES "
  }

  function Statement(prefix: string, values: seq<string>): string {
    prefix + Join(values, ", ") + ";"
  }

  function Statements(prefix: string, batches: seq<seq<string>>): (r: seq<string>)
    ensures |r| == |batches|
    ensures forall i | 0 <= i < |r| :: r[i] == Statement(prefix, batches[i])
  {
    seq(|batches|, i requires 0 <= i < |batches| => Statement(prefix, batches[i]))
  }

  function RowsSql(rows: seq<seq<string>>): (r: seq<string>)
    ensures |r| == |rows|
    ensures forall i | 0 <= i < |r| :: r[i] == RowSql(rows[i])
  {
    seq(|rows|, i requires 0 <= i < |rows| => RowSql(rows[i]))
  }

  // A statement may be longer than the limit only when it has a single row.
  ghost predicate Allowed(prefix: string, batch: seq<string>) {
    batch != [] && (|batch| >= 2 ==> |Statement(prefix, batch)| <= 90000)
  }

  /** `values` cut, in order, into allowed statements. */
  ghost predicate IsPacking(prefix: string, values: seq<string>, batches: seq<seq<string>>) {
    Concat(batches) == values && forall i | 0 <= i < |batches| :: Allowed(prefix, batches[i])
  }

  /** No statement but the last could have taken the first row of the next one. */
  ghost predicate IsGreedy(prefix: string, batches: seq<seq<string>>) {
    forall i, j | 0 <= i && j == i + 1 < |batches| && batches[j] != [] ::
      |Statement(prefix, batches[i] + [batches[j][0]])| > 90000
  }

  method BuildInsertStatements(columns: seq<string>, rows: seq<seq<string>>, tableName: string)
    returns (statements: seq<string>)
    ensures exists batches ::
              && statements == Statements(Prefix(columns, tableName), batches)
              && IsPacking(Prefix(columns, tableName), RowsSql(rows), batches)
              && IsGreedy(Prefix(columns, tableName), batches)
  {
    hide Prefix, RowSql, Statement, Join, IsGreedy, Concat;
    ghost var batches: seq<seq<string>> := [];
    var prefix := Prefix(columns, tableName);
    NoBatches(prefix);
    if |rows| == 0 {
      assert Statements(prefix, batches) == [] && IsPacking(prefix, RowsSql(rows), batches);
      return [];
    }
    statements := [];
    var currentValues: seq<string> := [];
    var currentLength := |prefix|;
    ghost var all := RowsSql(rows);
    for i := 0 to |rows|
      invariant statements == Statements(prefix, batches)
      invariant Concat(batches) + currentValues == all[..i]
      invariant forall k | 0 <= k < |batches| :: Allowed(prefix, batches[k])
      invariant currentLength + 1 == |Statement(prefix, currentValues)|
      invariant currentValues == [] <==> i == 0
      invariant currentValues == [] ==> batches == []
      invariant currentValues != [] ==> Allowed(prefix, currentValues) && IsGreedy(prefix, batches + [currentValues])
    {
      var rowSql := RowSql(rows[i]);
      assert all[..i + 1] == all[..i] + [rowSql];
      var separatorLength := if |currentValues| == 0 then 0 else 2;
      StatementGrows(prefix, currentValues, rowSql);
      if && |currentValues| > 0
         && currentLength + separatorLength + |rowSql| + 1 > MAX_SQL_STATEMENT_LENGTH {
        StatementGrows(prefix, [], rowSql);
        GreedyNext(prefix, batches, currentValues, rowSql);
        ConcatAppend(batches, currentValues);
        statements := statements + [Statement(prefix, currentValues)];
        batches := batches + [currentValues];
        currentValues := [rowSql];
        currentLength := |prefix| + |rowSql|;
      } else {
        GreedyGrows(prefix, batches, currentValues, rowSql);
        currentValues := currentValues + [rowSql];
        currentLength := currentLength + separatorLength + |rowSql|;
      }
    }
    assert all[..|rows|] == all;
    if |currentValues| > 0 {
      ConcatAppend(batches, currentValues);
      statements := statements + [Statement(prefix, currentValues)];
      batches := batches + [currentValues];
    }
    assert IsPacking(prefix, all, batches);
  }

  lemma NoBatches(prefix: string)
    ensures Concat<string>([]) == [] && IsGreedy(prefix, [])
    ensures |Statement(prefix, [])| == |prefix| + 1
  {
  }

  lemma {:induction false} JoinGrows(values: seq<string>, value: string)
    ensures |Join(values + [value], ", ")| == |Join(values, ", ")| + (if values == [] then 0 else 2) + |value|
  {
    if values != [] {
      JoinGrows(values[1..], value);
      assert (values + [value])[1..] == values[1..] + [value];
    }
  }

  lemma StatementGrows(prefix: string, values: seq<string>, value: string)
    ensures |Statement(prefix, values + [value])|
         == |Statement(prefix, values)| + (if values == [] then 0 else 2) + |value|
    ensures [] + [value] == [value]
  {
    JoinGrows(values, value);
  }

  /** The statement under way is closed by a row it has no room for. */
  lemma GreedyNext(prefix: string, batches: seq<seq<string>>, current: seq<string>, row: string)
    requires current != [] && IsGreedy(prefix, batches + [current])
    requires |Statement(prefix, current + [row])| > MAX_SQL_STATEMENT_LENGTH
    ensures IsGreedy(prefix, batches + [current] + [[row]])
  {
    hide Statement;
    var before, after := batches + [current], batches + [current] + [[row]];
    forall i, j | 0 <= i && j == i + 1 < |after| && after[j] != []
      ensures |Statement(prefix, after[i] + [after[j][0]])| > MAX_SQL_STATEMENT_LENGTH
    {
      if j < |before| {
        assert after[i] == before[i] && after[j] == before[j];
      }
    }
  }

  lemma GreedyGrows(prefix: string, batches: seq<seq<string>>, current: seq<string>, row: string)
    requires current == [] ==> batches == []
    requires current != [] ==> IsGreedy(prefix, batches + [current])
    ensures IsGreedy(prefix, batches + [current + [row]])
  {
    hide Statement;
    var before, after := batches + [current], batches + [current + [row]];
    forall i, j | 0 <= i && j == i + 1 < |after| && after[j] != []
      ensures |Statement(prefix, after[i] + [after[j][0]])| > MAX_SQL_STATEMENT_LENGTH
    {
      assert after[i] == before[i] && after[j][0] == before[j][0];
    }
  }

  // ---- Fewest statements ----

  lemma {:induction false} PartIsShorter(prefix: string, values: seq<string>, a: nat, b: nat)
    requires a <= b <= |values|
    ensures |Statement(prefix, values[a..b])| <= |Statement(prefix, values)|
    decreases |values|
  {
    hide Statement;
    var n := |values|;
    if b < n {
      assert values == values[..n - 1] + [values[n - 1]];
      StatementGrows(prefix, values[..n - 1], values[n - 1]);
      PartIsShorter(prefix, values[..n - 1], a, b);
      assert values[..n - 1][a..b] == values[a..b];
    } else if a > 0 {
      assert values == [values[0]] + values[1..];
      StatementDrops(prefix, values[0], values[1..]);
      PartIsShorter(prefix, values[1..], a - 1, b - 1);
      assert values[1..][a - 1..b - 1] == values[a..b];
    } else {
      assert values[a..b] == values;
    }
  }

  lemma StatementDrops(prefix: string, value: string, values: seq<string>)
    ensures |Statement(prefix, values)| <= |Statement(prefix, [value] + values)|
  {
    assert ([value] + values)[1..] == values;
  }

  /** The rows left from `from` on, in allowed statements. */
  ghost predicate Packs(prefix: string, values: seq<string>, from: nat, batches: seq<seq<string>>) {
    from <= |values| && IsPacking(prefix, values[from..], batches)
  }

  lemma FirstBatch(prefix: string, values: seq<string>, from: nat, batches: seq<seq<string>>)
    requires Packs(prefix, values, from, batches) && batches != []
    ensures from < from + |batches[0]| <= |values|
    ensures batches[0] == values[from..from + |batches[0]|]
    ensures Packs(prefix, values, from + |batches[0]|, batches[1..])
  {
    hide Allowed;
    var first, rest := batches[0], batches[1..];
    assert values[from..] == first + Concat(rest);
    assert Concat(rest) == values[from..][|first|..] == values[from + |first|..];
    assert Allowed(prefix, first);
    AllowedIsFull(prefix, first);
  }

  lemma AllowedIsFull(prefix: string, batch: seq<string>)
    requires Allowed(prefix, batch)
    ensures |batch| > 0
  {
  }

  lemma NothingToPack(prefix: string, values: seq<string>, from: nat, batches: seq<seq<string>>)
    requires Packs(prefix, values, from, batches)
    ensures batches == [] <==> from == |values|
  {
    hide Allowed;
    if batches != [] {
      FirstBatch(prefix, values, from, batches);
    }
  }

  /** The first greedy statement reaches as far as that of any packing that starts no later. */
  lemma FirstReaches(
    prefix: string, values: seq<string>, a: nat, greedy: seq<seq<string>>, b: nat, other: seq<seq<string>>)
    requires Packs(prefix, values, a, greedy) && IsGreedy(prefix, greedy) && greedy != []
    requires Packs(prefix, values, b, other) && other != [] && b <= a
    ensures b + |other[0]| <= a + |greedy[0]|
  {
    hide Packs, IsPacking, Concat, Statement;
    var x, y := a + |greedy[0]|, b + |other[0]|;
    FirstBatch(prefix, values, a, greedy);
    FirstBatch(prefix, values, b, other);
    if x < |values| {
      NothingToPack(prefix, values, x, greedy[1..]);
      FirstBatch(prefix, values, x, greedy[1..]);
      var over := greedy[0] + [greedy[1][0]];
      assert |Statement(prefix, over)| > MAX_SQL_STATEMENT_LENGTH;
      assert over == values[a..x + 1];
      if x < y {
        assert values[b..y][a - b..x + 1 - b] == over;
        PartIsShorter(prefix, other[0], a - b, x + 1 - b);
        FirstIsAllowed(prefix, values, b, other);
      }
    }
  }

  lemma FirstIsAllowed(prefix: string, values: seq<string>, from: nat, batches: seq<seq<string>>)
    requires Packs(prefix, values, from, batches) && batches != []
    ensures Allowed(prefix, batches[0])
  {
  }

  lemma TailIsGreedy(prefix: string, batches: seq<seq<string>>)
    requires IsGreedy(prefix, batches) && batches != []
    ensures IsGreedy(prefix, batches[1..])
  {
    hide Statement;
    var rest := batches[1..];
    forall i, j | 0 <= i && j == i + 1 < |rest| && rest[j] != []
      ensures |Statement(prefix, rest[i] + [rest[j][0]])| > MAX_SQL_STATEMENT_LENGTH
    {
      assert rest[i] == batches[i + 1] && rest[j] == batches[j + 1];
    }
  }

  lemma {:induction false} StaysAhead(prefix: string, values: seq<string>, a: nat, greedy: seq<seq<string>>,
                                      b: nat, other: seq<seq<string>>)
    requires Packs(prefix, values, a, greedy) && IsGreedy(prefix, greedy)
    requires Packs(prefix, values, b, other) && b <= a
    ensures |greedy| <= |other|
    decreases |greedy|
  {
    hide IsGreedy, Concat, Allowed, IsPacking;
    NothingToPack(prefix, values, a, greedy);
    NothingToPack(prefix, values, b, other);
    if greedy != [] {
      FirstBatch(prefix, values, a, greedy);
      FirstBatch(prefix, values, b, other);
      FirstReaches(prefix, values, a, greedy, b, other);
      TailIsGreedy(prefix, greedy);
      StaysAhead(prefix, values, a + |greedy[0]|, greedy[1..], b + |other[0]|, other[1..]);
    }
  }

  /** No way to cut the rows into allowed statements has fewer of them. */
  lemma GreedyIsFewest(prefix: string, values: seq<string>, greedy: seq<seq<string>>, other: seq<seq<string>>)
    requires IsPacking(prefix, values, greedy) && IsGreedy(prefix, greedy) && IsPacking(prefix, values, other)
    ensures |greedy| <= |other|
  {
    assert values[0..] == values;
    StaysAhead(prefix, values, 0, greedy, 0, other);
  }

  lemma {:induction false} GreedyFrom(
    prefix: string, values: seq<string>, from: nat, g: seq<seq<string>>, h: seq<seq<string>>)
    requires Packs(prefix, values, from, g) && IsGreedy(prefix, g)
    requires Packs(prefix, values, from, h) && IsGreedy(prefix, h)
    ensures g == h
    decreases |g|
  {
    hide IsGreedy, Concat, Allowed, IsPacking;
    NothingToPack(prefix, values, from, g);
    NothingToPack(prefix, values, from, h);
    if g != [] {
      FirstBatch(prefix, values, from, g);
      FirstBatch(prefix, values, from, h);
      FirstReaches(prefix, values, from, g, from, h);
      FirstReaches(prefix, values, from, h, from, g);
      TailIsGreedy(prefix, g);
      TailIsGreedy(prefix, h);
      GreedyFrom(prefix, values, from + |g[0]|, g[1..], h[1..]);
      assert g == [g[0]] + g[1..] && h == [h[0]] + h[1..];
    }
  }

  /** The statements are determined: only one packing is greedy. */
  lemma GreedyIsUnique(prefix: string, values: seq<string>, g: seq<seq<string>>, h: seq<seq<string>>)
    requires IsPacking(prefix, values, g) && IsGreedy(prefix, g)
    requires IsPacking(prefix, values, h) && IsGreedy(prefix, h)
    ensures g == h
  {
    assert values[0..] == values;
    GreedyFrom(prefix, values, 0, g, h);
  }
}
