/**
Reading the seed statements of `SqlBatches` back: the literals of a statement, row by row, with
doubled quotes undone.  Null and a number that is not finite are both written NULL, and a flag is
written as a number, so what is read back is the literal, not the value.
*/
module SqlReadBack {
  import opened Wrappers
  import opened JsText
  import opened SqlBatches

  datatype Literal = Quoted(s: string) | Bare(s: string)

  function LiteralOf(v: Value): Literal {
    if v.Words? then Quoted(v.s) else Bare(SqlLiteral(v))
  }

  // What was read, and the text behind it.
  datatype Reading<T> = Failed | Read(value: T, rest: string)

  /** The text of a literal whose opening quote has been read. */
  function ReadQuoted(text: string): (r: Reading<string>)
    ensures r.Read? ==> |r.rest| < |text|
  {
    if text == "" then Failed
    else if text[0] != '\'' then
      match ReadQuoted(text[1..])
      case Failed => Failed
      case Read(s, rest) => Read([text[0]] + s, rest)
    else if |text| > 1 && text[1] == '\'' then
      match ReadQuoted(text[2..])
      case Failed => Failed
      case Read(s, rest) => Read(['\''] + s, rest)
    else Read("", text[1..])
  }

  predicate IsBareChar(c: char) {
    'A' <= c <= 'Z' || '0' <= c <= '9' || c == '-'
  }

  function ReadBare(text: string): (r: Reading<string>)
    ensures r.Read? && |r.rest| <= |text|
  {
    if text == "" || !IsBareChar(text[0]) then Read("", text)
    else var r := ReadBare(text[1..]); Read([text[0]] + r.value, r.rest)
  }

  function ReadLiteral(text: string): (r: Reading<Literal>)
    ensures r.Read? ==> |r.rest| <= |text|
  {
    if text != "" && text[0] == '\'' then
      match ReadQuoted(text[1..])
      case Failed => Failed
      case Read(s, rest) => Read(Quoted(s), rest)
    else var r := ReadBare(text); Read(Bare(r.value), r.rest)
  }

  /** Literals separated by a comma and a space, up to the parenthesis that closes the row. */
  function ReadCells(text: string): (r: Reading<seq<Literal>>)
    ensures r.Read? ==> |r.rest| < |text|
    decreases |text|
  {
    match ReadLiteral(text)
    case Failed => Failed
    case Read(cell, rest) =>
      if rest != "" && rest[0] == ')' then Read([cell], rest[1..])
      else if |rest| > 1 && rest[0] == ',' && rest[1] == ' ' then
        (match ReadCells(rest[2..])
         case Failed => Failed
         case Read(cells, after) => Read([cell] + cells, after))
      else Failed
  }

  /** Rows in parentheses separated by a comma and a space, up to the final semicolon. */
  function ReadRows(text: string): Option<seq<seq<Literal>>>
    decreases |text|
  {
    if text == "" || text[0] != '(' then None
    else
      match ReadCells(text[1..])
      case Failed => None
      case Read(row, rest) =>
        if rest == ";" then Some([row])
        else if |rest| > 1 && rest[0] == ',' && rest[1] == ' ' then
          (match ReadRows(rest[2..])
           case None => None
           case Some(rows) => Some([row] + rows))
        else None
  }

  // ---- One literal ----

  lemma QuotedStep(c: char, tail: string, s: string, rest: string)
    requires ReadQuoted(tail) == Read(s, rest)
    ensures ReadQuoted((if c == '\'' then "''" else [c]) + tail) == Read([c] + s, rest)
  {
    if c == '\'' {
      assert ("''" + tail)[2..] == tail;
    } else {
      assert ([c] + tail)[1..] == tail;
    }
  }

  lemma {:induction false} QuotedReadsBack(s: string, rest: string)
    requires rest == "" || rest[0] != '\''
    ensures ReadQuoted(DoubleQuotes(s) + (['\''] + rest)) == Read(s, rest)
  {
    var end := ['\''] + rest;
    if s == "" {
      assert end[1..] == rest && DoubleQuotes(s) + end == end;
    } else {
      hide ReadQuoted;
      QuotedReadsBack(s[1..], rest);
      QuotedStep(s[0], DoubleQuotes(s[1..]) + end, s[1..], rest);
      assert s == [s[0]] + s[1..];
      var first := if s[0] == '\'' then "''" else [s[0]];
      assert DoubleQuotes(s) + end == first + (DoubleQuotes(s[1..]) + end);
    }
  }

  lemma {:induction false} BareReadsBack(s: string, rest: string)
    requires forall c <- s :: IsBareChar(c)
    requires rest == "" || !IsBareChar(rest[0])
    ensures ReadBare(s + rest) == Read(s, rest)
  {
    var text := s + rest;
    if s == "" {
      assert text == rest;
    } else {
      assert s[0] in s && text == [s[0]] + (s[1..] + rest) && text[1..] == s[1..] + rest;
      BareReadsBack(s[1..], rest);
      assert s == [s[0]] + s[1..];
    }
  }

  /** A written literal reads back, and whatever is behind it is left. */
  lemma LiteralReadsBack(v: Value, rest: string)
    requires rest == "" || (rest[0] != '\'' && !IsBareChar(rest[0]))
    ensures ReadLiteral(SqlLiteral(v) + rest) == Read(LiteralOf(v), rest)
  {
    hide ReadQuoted, ReadBare, DoubleQuotes;
    var text := SqlLiteral(v) + rest;
    if v.Words? {
      assert text == ['\''] + (DoubleQuotes(v.s) + (['\''] + rest));
      assert text[1..] == DoubleQuotes(v.s) + (['\''] + rest);
      QuotedReadsBack(v.s, rest);
    } else {
      BareLiteral(v);
      assert text[0] == SqlLiteral(v)[0] && text[0] in SqlLiteral(v);
      BareReadsBack(SqlLiteral(v), rest);
    }
  }

  lemma BareLiteral(v: Value)
    requires !v.Words?
    ensures |SqlLiteral(v)| > 0 && forall c <- SqlLiteral(v) :: IsBareChar(c)
  {
  }

  // ---- A row, and the rows of a statement ----

  function Written(row: seq<Value>): (r: seq<string>)
    ensures |r| == |row|
  {
    if row == [] then [] else [SqlLiteral(row[0])] + Written(row[1..])
  }

  function Literals(row: seq<Value>): (r: seq<Literal>)
    ensures |r| == |row|
  {
    if row == [] then [] else [LiteralOf(row[0])] + Literals(row[1..])
  }

  lemma LastCell(cell: Value, rest: string)
    ensures ReadCells(SqlLiteral(cell) + ([')'] + rest)) == Read([LiteralOf(cell)], rest)
  {
    hide ReadLiteral, SqlLiteral, LiteralOf;
    LiteralReadsBack(cell, [')'] + rest);
    assert ([')'] + rest)[1..] == rest;
  }

  lemma NextCell(cell: Value, tail: string, cells: seq<Literal>, rest: string)
    requires ReadCells(tail) == Read(cells, rest)
    ensures ReadCells(SqlLiteral(cell) + (", " + tail)) == Read([LiteralOf(cell)] + cells, rest)
  {
    hide ReadLiteral, SqlLiteral, LiteralOf;
    LiteralReadsBack(cell, ", " + tail);
    assert (", " + tail)[2..] == tail;
  }

  lemma CellsUnfold(row: seq<Value>)
    requires row != []
    ensures Written(row) == [SqlLiteral(row[0])] + Written(row[1..])
    ensures Literals(row) == [LiteralOf(row[0])] + Literals(row[1..])
    ensures Written(row[1..]) == [] <==> row[1..] == []
  {
    hide SqlLiteral, LiteralOf;
  }

  lemma NoCells()
    ensures Literals([]) == []
  {
  }

  lemma Regroup(text: string, tail: string, end: string)
    ensures (text + (", " + tail)) + end == text + (", " + (tail + end))
  {
    assert (text + (", " + tail)) + end == text + ((", " + tail) + end);
    assert (", " + tail) + end == ", " + (tail + end);
  }

  lemma {:induction false} CellsReadBack(row: seq<Value>, rest: string)
    requires row != []
    ensures ReadCells(Join(Written(row), ", ") + ([')'] + rest)) == Read(Literals(row), rest)
  {
    hide ReadCells, SqlLiteral, LiteralOf, Join, Written, Literals;
    var cell, others := row[0], row[1..];
    var text := SqlLiteral(cell);
    CellsUnfold(row);
    JoinCons(text, Written(others), ", ");
    if others == [] {
      NoCells();
      LastCell(cell, rest);
      assert [LiteralOf(cell)] + [] == [LiteralOf(cell)];
    } else {
      var tail := Join(Written(others), ", ");
      CellsReadBack(others, rest);
      NextCell(cell, tail + ([')'] + rest), Literals(others), rest);
      Regroup(text, tail, [')'] + rest);
    }
  }

  function WrittenRows(rows: seq<seq<Value>>): (r: seq<string>)
    ensures |r| == |rows|
  {
    if rows == [] then [] else [RowSql(Written(rows[0]))] + WrittenRows(rows[1..])
  }

  function LiteralRows(rows: seq<seq<Value>>): (r: seq<seq<Literal>>)
    ensures |r| == |rows|
  {
    if rows == [] then [] else [Literals(rows[0])] + LiteralRows(rows[1..])
  }

  lemma LastRow(row: seq<Value>)
    requires row != []
    ensures ReadRows(RowSql(Written(row)) + ";") == Some([Literals(row)])
  {
    hide ReadCells, Written, Literals, Join;
    var cells := Join(Written(row), ", ");
    var text := RowSql(Written(row)) + ";";
    assert text == ['('] + (cells + ([')'] + ";")) && text[1..] == cells + ([')'] + ";");
    CellsReadBack(row, ";");
  }

  lemma NextRow(row: seq<Value>, tail: string, rows: seq<seq<Literal>>)
    requires row != [] && ReadRows(tail) == Some(rows)
    ensures ReadRows(RowSql(Written(row)) + (", " + tail)) == Some([Literals(row)] + rows)
  {
    hide ReadCells, Written, Literals, Join;
    var cells := Join(Written(row), ", ");
    var text := RowSql(Written(row)) + (", " + tail);
    assert text == ['('] + (cells + ([')'] + (", " + tail))) && text[1..] == cells + ([')'] + (", " + tail));
    CellsReadBack(row, ", " + tail);
    assert (", " + tail)[2..] == tail;
  }

  /** The rows of a statement read back in order, literal by literal. */
  lemma {:induction false} RowsReadBack(rows: seq<seq<Value>>)
    requires rows != [] && forall i | 0 <= i < |rows| :: rows[i] != []
    ensures ReadRows(Join(WrittenRows(rows), ", ") + ";") == Some(LiteralRows(rows))
  {
    hide ReadRows, RowSql, Join;
    var row, others := rows[0], rows[1..];
    var text := RowSql(Written(row));
    JoinCons(text, WrittenRows(others), ", ");
    if others == [] {
      LastRow(row);
      assert LiteralRows(rows) == [Literals(row)];
    } else {
      var tail := Join(WrittenRows(others), ", ");
      RowsReadBack(others);
      NextRow(row, tail + ";", LiteralRows(others));
      assert (text + (", " + tail)) + ";" == text + (", " + (tail + ";"));
    }
  }

  // ---- The whole seed of one table ----

  /** The rows of all statements, each read behind its prefix. */
  function ReadStatements(prefix: string, statements: seq<string>): Option<seq<seq<Literal>>> {
    if statements == [] then Some([])
    else if !(prefix <= statements[0]) then None
    else
      match ReadRows(statements[0][|prefix|..])
      case None => None
      case Some(rows) =>
        match ReadStatements(prefix, statements[1..])
        case None => None
        case Some(others) => Some(rows + others)
  }

  lemma StatementReadsBack(prefix: string, rows: seq<seq<Value>>, others: seq<string>, read: seq<seq<Literal>>)
    requires rows != [] && forall i | 0 <= i < |rows| :: rows[i] != []
    requires ReadStatements(prefix, others) == Some(read)
    ensures ReadStatements(prefix, [Statement(prefix, WrittenRows(rows))] + others) == Some(LiteralRows(rows) + read)
  {
    hide ReadRows, WrittenRows, LiteralRows, Join;
    var values := Join(WrittenRows(rows), ", ");
    var statement := Statement(prefix, WrittenRows(rows));
    assert statement == prefix + (values + ";") && statement[|prefix|..] == values + ";";
    RowsReadBack(rows);
  }

  lemma WrittenCons(row: seq<Value>, rows: seq<seq<Value>>)
    ensures WrittenRows([row] + rows) == [RowSql(Written(row))] + WrittenRows(rows)
    ensures LiteralRows([row] + rows) == [Literals(row)] + LiteralRows(rows)
  {
    hide RowSql, Written, Literals;
    assert ([row] + rows)[1..] == rows;
  }

  lemma {:induction false} WrittenSplit(left: seq<seq<Value>>, right: seq<seq<Value>>)
    ensures WrittenRows(left + right) == WrittenRows(left) + WrittenRows(right)
    ensures LiteralRows(left + right) == LiteralRows(left) + LiteralRows(right)
  {
    hide RowSql, Written, Literals, WrittenRows, LiteralRows;
    if left == [] {
      assert left + right == right && |WrittenRows([])| == 0 && |LiteralRows([])| == 0;
    } else {
      var first, rest := left[0], left[1..];
      WrittenSplit(rest, right);
      assert left == [first] + rest && left + right == [first] + (rest + right);
      WrittenCons(first, rest);
      WrittenCons(first, rest + right);
    }
  }

  /** However the rows are packed, the statements read back to all of them, in order. */
  lemma {:induction false} PackedRowsReadBack(prefix: string, rows: seq<seq<Value>>, batches: seq<seq<string>>)
    requires IsPacking(prefix, WrittenRows(rows), batches) && forall i | 0 <= i < |rows| :: rows[i] != []
    ensures ReadStatements(prefix, Statements(prefix, batches)) == Some(LiteralRows(rows))
    decreases |batches|
  {
    hide Statement, RowSql, Allowed, Written, Literals, ReadRows;
    if batches == [] {
      assert rows == [];
    } else {
      var first, rest := batches[0], batches[1..];
      assert Allowed(prefix, first);
      AllowedIsFull(prefix, first);
      var n := |first|;
      var mine, others := rows[..n], rows[n..];
      assert rows == mine + others;
      WrittenSplit(mine, others);
      assert first == WrittenRows(rows)[..n] == WrittenRows(mine);
      assert Concat(rest) == WrittenRows(rows)[n..] == WrittenRows(others);
      PackedRowsReadBack(prefix, others, rest);
      StatementReadsBack(prefix, mine, Statements(prefix, rest), LiteralRows(others));
      assert Statements(prefix, batches) == [Statement(prefix, first)] + Statements(prefix, rest);
    }
  }
}
