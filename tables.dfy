/** `conservative_remove_tables`: drop a line only when it is plainly a table's separator
    row, such as `|---|:---:|`, and log it under `table_separators`; data rows stay. */
module Tables {
  import opened Text
  import opened Ledger
  import opened Patterns
  import opened Lines

  /** A character `^[\s\-:|\|]*$` accepts. */
  predicate SeparatorChar(c: char) {
    IsSpace(c) || c == '-' || c == ':' || c == '|'
  }

  /** `s[1:-1]`: the text between the outer pipes. */
  function Interior(s: string): string {
    if |s| >= 2 then s[1..|s| - 1] else []
  }

  /** `[part.strip() for part in parts if part.strip()]` */
  function Cells(parts: seq<string>): (cells: seq<string>)
    ensures forall k | 0 <= k < |cells| :: cells[k] != []
    decreases |parts|
  {
    if parts == [] then []
    else
      var rest := Cells(parts[1..]);
      if Strip(parts[0]) != [] then [Strip(parts[0])] + rest else rest
  }

  /** A text is a cell exactly when it is not empty and is some part, stripped. */
  lemma {:induction false} CellsOfParts(parts: seq<string>)
    ensures |Cells(parts)| <= |parts|
    ensures forall c :: c in Cells(parts) <==> c != [] && exists j | 0 <= j < |parts| :: Strip(parts[j]) == c
    decreases |parts|
  {
    if parts != [] {
      CellsOfParts(parts[1..]);
      forall c | c != [] && exists j | 0 <= j < |parts| :: Strip(parts[j]) == c
        ensures c in Cells(parts)
      {
        var j :| 0 <= j < |parts| && Strip(parts[j]) == c;
        if j > 0 {
          assert Strip(parts[1..][j - 1]) == c;
        }
      }
      forall c | c in Cells(parts[1..])
        ensures exists j | 0 <= j < |parts| :: Strip(parts[j]) == c
      {
        var j :| 0 <= j < |parts[1..]| && Strip(parts[1..][j]) == c;
        assert Strip(parts[j + 1]) == c;
      }
    }
  }

  /** The cells keep the order of the parts they come from. */
  lemma {:induction false} CellsConcat(a: seq<string>, b: seq<string>)
    ensures Cells(a + b) == Cells(a) + Cells(b)
    decreases |a|
  {
    if a == [] {
      assert a + b == b;
    } else {
      assert (a + b)[1..] == a[1..] + b;
      CellsConcat(a[1..], b);
    }
  }

  /** `re.match(r'^:?-+:?$', cell)`: dashes, optionally with a colon at either end. */
  predicate IsCell(cell: string) {
    var a := if cell != [] && cell[0] == ':' then 1 else 0;
    var b := RepeatEnd(cell, a, '-');
    b > a && (b == |cell| || (b + 1 == |cell| && cell[b] == ':'))
  }

  /** The test the loop applies to each line. The cells are stripped already, so stripping
      them again, as the source does, changes nothing. */
  predicate IsTableSeparator(line: string) {
    var stripped := Strip(line);
    && StartsWith(stripped, "|") && EndsWith(stripped, "|")
    && var inner := Interior(stripped);
       && (forall k | 0 <= k < |inner| :: SeparatorChar(inner[k]))
       && '-' in inner
       && var cells := Cells(Split(inner, '|'));
          |cells| >= 2 && forall k | 0 <= k < |cells| :: IsCell(cells[k])
  }

  /** The loop over the lines: separator rows are logged and dropped, the rest kept. */
  method ConservativeRemoveTables(text: string, logger: StrippedContentLogger) returns (r: string)
    modifies logger
    ensures r == FilterPass(IsTableSeparator, "table_separators", text).text
    ensures logger.sections == Replay(logger.enabled, old(logger.sections), FilterPass(IsTableSeparator, "table_separators", text).entries)
  {
    r := DropLines(IsTableSeparator, "table_separators", text, logger);
  }

  /** A separator row is made of pipes, dashes, colons and whitespace only, and holds a
      dash. */
  lemma SeparatorShape(line: string)
    requires IsTableSeparator(line)
    ensures forall k | 0 <= k < |line| :: SeparatorChar(line[k])
    ensures '-' in line
  {
    var a, b := StripSpec(line);
    var stripped := Strip(line);
    var inner := Interior(stripped);
    assert stripped[0] == '|' && stripped[|stripped| - 1] == '|';
    forall k | 0 <= k < |line|
      ensures SeparatorChar(line[k])
    {
      if a <= k < b {
        assert line[k] == stripped[k - a];
        if 0 < k - a < |stripped| - 1 {
          assert stripped[k - a] == inner[k - a - 1];
        }
      }
    }
    var d :| 0 <= d < |inner| && inner[d] == '-';
    assert stripped[d + 1] == '-';
    assert line[a + 1 + d] == '-';
  }

  /** A line that holds a character other than whitespace, `-`, `:` and `|` is kept. */
  lemma DataRowKept(line: string, k: nat)
    requires k < |line| && !SeparatorChar(line[k])
    ensures !IsTableSeparator(line)
  {
    if IsTableSeparator(line) {
      SeparatorShape(line);
    }
  }
}
