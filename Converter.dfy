/** The spreadsheet normaliser `convert_excel_to_json` of
    convert_excel_to_json.py: column names are mapped onto the three names the
    app looks for first, every cell is cleaned to a string, and the rows that
    are not completely empty become the tickets, in table order. */
module Converter {
  import opened Wrappers
  import opened Text

  /** The names the converter gives to recognised columns. */
  const NumberName: string := "Номер билета"
  const QuestionName: string := "Вопрос"
  const AnswerName: string := "Ответ"

  /** The words looked for in a column name. */
  const NumberWord: string := "номер"
  const TicketWord: string := "билет"
  const QuestionWord: string := "вопрос"
  const AnswerWord: string := "ответ"

  /** A table cell as read: missing (`NaN`) or the text `str(value)`. */
  type Cell = Option<string>

  /** The frame after reading: column names and rows of cells, one cell per
      column. */
  datatype Table = Table(columns: seq<string>, rows: seq<seq<Cell>>)

  predicate WellFormed(t: Table) {
    forall i :: 0 <= i < |t.rows| ==> |t.rows[i]| == |t.columns|
  }

  /** A ticket as emitted: a dictionary from column name to cleaned text, in
      column order. */
  type Ticket = seq<(string, string)>

  /** The name test applied to `name`: the number words take precedence over
      the question word, which takes precedence over the answer word. */
  function ClassifyName(name: string): (t: Option<string>)
    ensures t == Some(NumberName) <==> Contains(name, NumberWord) || Contains(name, TicketWord)
    ensures t.None? <==>
      !Contains(name, NumberWord) && !Contains(name, TicketWord) &&
      !Contains(name, QuestionWord) && !Contains(name, AnswerWord)
    ensures t == Some(QuestionName) <==>
      !Contains(name, NumberWord) && !Contains(name, TicketWord) && Contains(name, QuestionWord)
    ensures t == Some(AnswerName) <==>
      !Contains(name, NumberWord) && !Contains(name, TicketWord) &&
      !Contains(name, QuestionWord) && Contains(name, AnswerWord)
  {
    if Contains(name, NumberWord) || Contains(name, TicketWord) then Some(NumberName)
    else if Contains(name, QuestionWord) then Some(QuestionName)
    else if Contains(name, AnswerWord) then Some(AnswerName)
    else None
  }

  /** The target name of column `col` (from `str(col).lower().strip()`), or
      `None` when the column is left out of the mapping. Each recognised
      column gets one of the three fixed names, and which one depends only on
      which words the lower-cased name contains: surrounding whitespace makes
      no difference. */
  function Classify(col: string): (t: Option<string>)
    ensures t == ClassifyName(Lower(col))
  {
    WordsIgnoreStrip(Lower(col));
    ClassifyName(Strip(Lower(col)))
  }

  /** A column's name after `df.rename(columns=column_mapping)`. */
  function NormalName(col: string): (r: string)
    ensures r == col || r == NumberName || r == QuestionName || r == AnswerName
    ensures Classify(col).None? ==> r == col
    ensures Contains(Lower(col), NumberWord) || Contains(Lower(col), TicketWord) ==> r == NumberName
    ensures (!Contains(Lower(col), NumberWord) && !Contains(Lower(col), TicketWord) &&
             Contains(Lower(col), QuestionWord)) ==> r == QuestionName
    ensures (!Contains(Lower(col), NumberWord) && !Contains(Lower(col), TicketWord) &&
             !Contains(Lower(col), QuestionWord) && Contains(Lower(col), AnswerWord)) ==> r == AnswerName
  {
    Classify(col).GetOr(col)
  }

  /** The words of the name test are found in a stripped name exactly when
      they are found in the name itself. */
  lemma WordsIgnoreStrip(name: string)
    ensures ClassifyName(Strip(name)) == ClassifyName(name)
  {
    assert forall k :: 0 <= k < |NumberWord| ==> !IsSpace(NumberWord[k]);
    assert forall k :: 0 <= k < |TicketWord| ==> !IsSpace(TicketWord[k]);
    assert forall k :: 0 <= k < |QuestionWord| ==> !IsSpace(QuestionWord[k]);
    assert forall k :: 0 <= k < |AnswerWord| ==> !IsSpace(AnswerWord[k]);
    StripKeepsWords(name, NumberWord);
    StripKeepsWords(name, TicketWord);
    StripKeepsWords(name, QuestionWord);
    StripKeepsWords(name, AnswerWord);
  }

  lemma NumberNameIsFixed()
    ensures Classify(NumberName) == Some(NumberName)
  {
    assert Lower(NumberName)[..5] == NumberWord;
    ContainsPrefix(Lower(NumberName), NumberWord);
  }

  lemma QuestionNameIsFixed()
    ensures Classify(QuestionName) == Some(QuestionName)
  {
    assert Lower(QuestionName) == QuestionWord;
    ContainsNeedsChar(QuestionWord, NumberWord, 0);
    ContainsNeedsChar(QuestionWord, TicketWord, 0);
    ContainsPrefix(QuestionWord, QuestionWord);
  }

  lemma AnswerNameIsFixed()
    ensures Classify(AnswerName) == Some(AnswerName)
  {
    assert Lower(AnswerName) == AnswerWord;
    ContainsNeedsChar(AnswerWord, NumberWord, 0);
    ContainsNeedsChar(AnswerWord, TicketWord, 0);
    ContainsNeedsLength(AnswerWord, QuestionWord);
    ContainsPrefix(AnswerWord, AnswerWord);
  }

  /** Normalising is idempotent: a sheet whose columns already carry the
      app's names, or that was normalised before, is left as it is. */
  lemma NormalNameIdempotent(col: string)
    ensures NormalName(NormalName(col)) == NormalName(col)
  {
    var t := ClassifyName(Lower(col));
    if t == Some(NumberName) {
      NumberNameIsFixed();
    } else if t == Some(QuestionName) {
      QuestionNameIsFixed();
    } else if t == Some(AnswerName) {
      AnswerNameIsFixed();
    } else {
      assert t == None;
    }
  }

  /** The loop that fills `column_mapping`: exactly the recognised columns are
      keys, each mapped to its target name. */
  method ColumnMapping(columns: seq<string>) returns (mapping: map<string, string>)
    ensures forall c :: c in mapping <==> c in columns && Classify(c).Some?
    ensures forall c :: c in mapping ==> mapping[c] == Classify(c).value
  {
    mapping := map[];
    for i := 0 to |columns|
      invariant forall c :: c in mapping <==> c in columns[..i] && Classify(c).Some?
      invariant forall c :: c in mapping ==> mapping[c] == Classify(c).value
    {
      var col := columns[i];
      assert columns[..i + 1] == columns[..i] + [col];
      var target := Classify(col);
      if target.Some? {
        mapping := mapping[col := target.value];
      }
    }
    assert columns[..|columns|] == columns;
  }

  /** `df.rename(columns=mapping)`: a column in the mapping takes its new
      name, any other keeps its own. */
  function Rename(columns: seq<string>, mapping: map<string, string>): (r: seq<string>)
    ensures |r| == |columns|
    ensures forall i :: 0 <= i < |columns| && columns[i] !in mapping ==> r[i] == columns[i]
    ensures forall i :: 0 <= i < |columns| && columns[i] in mapping ==> r[i] == mapping[columns[i]]
  {
    seq(|columns|, i requires 0 <= i < |columns| =>
      if columns[i] in mapping then mapping[columns[i]] else columns[i])
  }

  /** The cleaning of one cell: a missing value becomes `''`; any other is
      stripped and then has `_x000D_`, `\r\n` and `\r`, in that order,
      rewritten to `\n`. A cleaned cell never holds a carriage return, and it
      is empty exactly when the value was missing or blank. */
  function CleanCell(v: Cell): (r: string)
    ensures '\r' !in r
    ensures r == "" <==> v.None? || Blank(v.value)
  {
    match v
    case None => ""
    case Some(x) =>
      var s := Strip(x);
      var s1 := ReplaceAll(s, "_x000D_", "\n");
      var s2 := ReplaceAll(s1, "\r\n", "\n");
      var r := ReplaceAll(s2, "\r", "\n");
      ReplaceRemovesChar(s2, '\r', "\n");
      assert s == "" ==> r == "";
      r
  }

  /** No `_x000D_` escape survives cleaning: the first rewrite removes
      every one, and the two later ones, which only write line feeds, create
      none. */
  lemma CleanCellNoEscape(v: Cell)
    ensures !Contains(CleanCell(v), "_x000D_")
  {
    if v.Some? {
      var s := Strip(v.value);
      var s1 := ReplaceAll(s, "_x000D_", "\n");
      var s2 := ReplaceAll(s1, "\r\n", "\n");
      ReplaceKeepsAbsent(s, "_x000D_", "\n", "_x000D_");
      ReplaceKeepsAbsent(s1, "\r\n", "\n", "_x000D_");
      ReplaceKeepsAbsent(s2, "\r", "\n", "_x000D_");
    }
  }

  /** A cell with no carriage return and no `_x000D_` escape is only
      stripped: none of the three replacements finds anything. */
  lemma CleanPlainCell(x: string)
    requires '\r' !in x && !Contains(x, "_x000D_")
    ensures CleanCell(Some(x)) == Strip(x)
  {
    var s := Strip(x);
    StripIsSubstring(x, "_x000D_");
    ReplaceAbsent(s, "_x000D_", "\n");
    ContainsNeedsChar(s, "\r\n", 0);
    ReplaceAbsent(s, "\r\n", "\n");
    ContainsNeedsChar(s, "\r", 0);
    ReplaceAbsent(s, "\r", "\n");
  }

  /** Without `_x000D_` escapes or Windows line ends, every carriage return
      left after stripping becomes a line feed and nothing else changes. */
  lemma CleanLoneCarriageReturns(x: string)
    requires !Contains(x, "_x000D_") && !Contains(x, "\r\n")
    ensures var s := Strip(x);
      CleanCell(Some(x)) == seq(|s|, i requires 0 <= i < |s| => if s[i] == '\r' then '\n' else s[i])
  {
    var s := Strip(x);
    StripIsSubstring(x, "_x000D_");
    ReplaceAbsent(s, "_x000D_", "\n");
    StripIsSubstring(x, "\r\n");
    ReplaceAbsent(s, "\r\n", "\n");
    ReplaceChar(s, '\r', '\n');
  }

  /** The three rewrites on one cell: the `_x000D_` escape, the Windows line
      end and the lone carriage return each become one line feed, and the
      surrounding blanks are stripped. */
  lemma CleanCellExample()
    ensures CleanCell(Some(" a_x000D_b\r\nc\rd ")) == "a\nb\nc\nd"
  {
    StripExample();
    EscapeExample();
    WindowsLineEndExample();
    CarriageReturnExample();
  }

  lemma StripExample()
    ensures Strip(" a_x000D_b\r\nc\rd ") == "a_x000D_b\r\nc\rd"
  {
    var s := "a_x000D_b\r\nc\rd";
    assert " a_x000D_b\r\nc\rd " == [' '] + s + [' '];
    StripPadded(s);
  }

  /** One blank on each side of a text with non-blank ends is stripped. */
  lemma StripPadded(s: string)
    requires s != [] && !IsSpace(s[0]) && !IsSpace(s[|s| - 1])
    ensures Strip([' '] + s + [' ']) == s
  {
    var x := [' '] + s + [' '];
    assert x[1..] == s + [' '];
    assert TrimStart(x) == TrimStart(s + [' ']) == s + [' '];
    assert (s + [' '])[..|s|] == s;
  }

  /** `pat` starts nowhere inside `a` when its first character is not in `a`
      and does not recur later in `pat`. */
  lemma StartsAfter(a: string, pat: string)
    requires pat != [] && pat[0] !in a
    ensures !Contains(a + pat[..|pat| - 1], pat)
  {
    ContainsNeedsLength(pat[..|pat| - 1], pat);
    NoOccurrenceAcross(a, pat[..|pat| - 1], pat);
  }

  lemma EscapeExample()
    ensures ReplaceAll("a_x000D_b\r\nc\rd", "_x000D_", "\n") == "a\nb\r\nc\rd"
  {
    var b := "b\r\nc\rd";
    assert "a_x000D_b\r\nc\rd" == "a" + "_x000D_" + b;
    assert "a\nb\r\nc\rd" == "a" + "\n" + b;
    EscapeAround("a", b);
  }

  /** One escape between two texts without `_` becomes one line feed. */
  lemma EscapeAround(a: string, b: string)
    requires '_' !in a && '_' !in b
    ensures ReplaceAll(a + "_x000D_" + b, "_x000D_", "\n") == a + "\n" + b
  {
    var pat := "_x000D_";
    StartsAfter(a, pat);
    ReplaceLeftmost(a, pat, b, "\n");
    ContainsNeedsChar(b, pat, 0);
    ReplaceAbsent(b, pat, "\n");
  }

  lemma WindowsLineEndExample()
    ensures ReplaceAll("a\nb\r\nc\rd", "\r\n", "\n") == "a\nb\nc\rd"
  {
    var pat := "\r\n";
    var a, b := "a\nb", "c\rd";
    assert "a\nb\r\nc\rd" == a + pat + b;
    assert "a\nb\nc\rd" == a + "\n" + b;
    assert pat[0] !in a && pat[1] !in b;
    StartsAfter(a, pat);
    ReplaceLeftmost(a, pat, b, "\n");
    ContainsNeedsChar(b, pat, 1);
    ReplaceAbsent(b, pat, "\n");
  }

  lemma CarriageReturnExample()
    ensures ReplaceAll("a\nb\nc\rd", "\r", "\n") == "a\nb\nc\nd"
  {
    var s := "a\nb\nc\rd";
    ReplaceChar(s, '\r', '\n');
    assert seq(|s|, i requires 0 <= i < |s| => if s[i] == '\r' then '\n' else s[i]) == "a\nb\nc\nd";
  }

  /** The dictionary built for one row: one entry per column, in column
      order, holding the cleaned cell. */
  function MakeTicket(columns: seq<string>, row: seq<Cell>): (t: Ticket)
    requires |row| == |columns|
    ensures |t| == |columns|
    ensures forall i :: 0 <= i < |t| ==> t[i].0 == columns[i] && t[i].1 == CleanCell(row[i])
  {
    seq(|columns|, i requires 0 <= i < |columns| => (columns[i], CleanCell(row[i])))
  }

  /** Every emitted value is free of carriage returns, and a row's ticket has
      some content exactly when some cell of the row is present and not
      blank. */
  lemma TicketContent(columns: seq<string>, row: seq<Cell>)
    requires |row| == |columns|
    ensures forall i :: 0 <= i < |columns| ==> '\r' !in MakeTicket(columns, row)[i].1
    ensures HasContent(MakeTicket(columns, row)) <==> Filled(row)
  {
    var t := MakeTicket(columns, row);
    if HasContent(t) {
      var i :| 0 <= i < |t| && t[i].1 != "";
      assert t[i].1 == CleanCell(row[i]);
    }
    if Filled(row) {
      var i :| 0 <= i < |row| && row[i].Some? && !Blank(row[i].value);
      assert t[i].1 == CleanCell(row[i]) != "";
    }
  }

  /** Some cell of the row is present and not blank. */
  predicate Filled(row: seq<Cell>) {
    exists i :: 0 <= i < |row| && row[i].Some? && !Blank(row[i].value)
  }

  /** `any(ticket.values())`: some value is a non-empty string. */
  predicate HasContent(t: Ticket) {
    exists i :: 0 <= i < |t| && t[i].1 != ""
  }

  /** The tickets the conversion emits from `rows`, in row order. */
  function Emitted(columns: seq<string>, rows: seq<seq<Cell>>): (ts: seq<Ticket>)
    requires WellFormed(Table(columns, rows))
    ensures |ts| <= |rows|
    ensures forall k :: 0 <= k < |ts| ==> HasContent(ts[k]) && |ts[k]| == |columns|
  {
    if rows == [] then []
    else
      var t := MakeTicket(columns, rows[|rows| - 1]);
      Emitted(columns, rows[..|rows| - 1]) + if HasContent(t) then [t] else []
  }

  /** The positions of the rows that are emitted: in increasing order, and
      exactly those rows with some present, non-blank cell. */
  ghost function Kept(rows: seq<seq<Cell>>): (ks: seq<nat>)
    ensures forall k :: 0 <= k < |ks| ==> ks[k] < |rows|
    ensures forall k, l :: 0 <= k < l < |ks| ==> ks[k] < ks[l]
    ensures forall i :: 0 <= i < |rows| ==> (i in ks <==> Filled(rows[i]))
  {
    if rows == [] then []
    else
      var last := |rows| - 1;
      var init := Kept(rows[..last]);
      assert forall i :: 0 <= i < last ==> rows[..last][i] == rows[i];
      init + if Filled(rows[last]) then [last] else []
  }

  /** Filtering and order: the k-th emitted ticket is the ticket of the k-th
      kept row, and there are as many tickets as kept rows. */
  lemma {:induction false} EmittedSelectsRows(columns: seq<string>, rows: seq<seq<Cell>>)
    requires WellFormed(Table(columns, rows))
    ensures |Emitted(columns, rows)| == |Kept(rows)|
    ensures forall k :: 0 <= k < |Kept(rows)| ==>
      Emitted(columns, rows)[k] == MakeTicket(columns, rows[Kept(rows)[k]])
  {
    if rows != [] {
      var last := |rows| - 1;
      var init := rows[..last];
      assert WellFormed(Table(columns, init));
      EmittedSelectsRows(columns, init);
      var row := rows[last];
      TicketContent(columns, row);
      var t := MakeTicket(columns, row);
      var ki := Kept(init);
      var ei := Emitted(columns, init);
      assert forall k :: 0 <= k < |ki| ==> init[ki[k]] == rows[ki[k]];
      assert Kept(rows) == ki + if Filled(row) then [last] else [];
      assert Emitted(columns, rows) == ei + if Filled(row) then [t] else [];
      SelectsStep(columns, rows, ki, ei, Kept(rows), Emitted(columns, rows));
    }
  }

  /** The inductive step of EmittedSelectsRows over plain sequences: the
      last row's ticket is appended exactly when its position is. */
  lemma SelectsStep(columns: seq<string>, rows: seq<seq<Cell>>,
                    ki: seq<nat>, ei: seq<Ticket>, ks: seq<nat>, es: seq<Ticket>)
    requires rows != [] && |rows[|rows| - 1]| == |columns|
    requires forall k :: 0 <= k < |ki| ==> ki[k] < |rows| && |rows[ki[k]]| == |columns|
    requires |ei| == |ki|
    requires forall k :: 0 <= k < |ki| ==> ei[k] == MakeTicket(columns, rows[ki[k]])
    requires var last := |rows| - 1;
      ks == ki + (if Filled(rows[last]) then [last] else []) &&
      es == ei + (if Filled(rows[last]) then [MakeTicket(columns, rows[last])] else [])
    ensures |es| == |ks|
    ensures forall k :: 0 <= k < |ks| ==> ks[k] < |rows| && es[k] == MakeTicket(columns, rows[ks[k]])
  {
    var last := |rows| - 1;
    if Filled(rows[last]) {
      var t := MakeTicket(columns, rows[last]);
      assert ks == ki + [last] && es == ei + [t];
      forall k | 0 <= k < |ks|
        ensures ks[k] < |rows| && es[k] == MakeTicket(columns, rows[ks[k]])
      {
        if k < |ki| {
          assert ks[k] == ki[k] && es[k] == ei[k];
        } else {
          assert ks[k] == last && es[k] == t;
        }
      }
    } else {
      assert ks == ki && es == ei;
    }
  }

  /** Some cell of the row is present: `dropna(how='all')` keeps the row. */
  predicate SomePresent(row: seq<Cell>) {
    exists j :: 0 <= j < |row| && row[j].Some?
  }

  /** `df.dropna(how='all')`: the rows whose every cell is missing are
      removed; the others stay, in order. */
  function DropMissingRows(rows: seq<seq<Cell>>): (r: seq<seq<Cell>>)
    ensures |r| <= |rows|
    ensures forall k :: 0 <= k < |r| ==> SomePresent(r[k]) && r[k] in rows
  {
    if rows == [] then []
    else
      var last := rows[|rows| - 1];
      var init := DropMissingRows(rows[..|rows| - 1]);
      assert forall k :: 0 <= k < |init| ==> init[k] in rows by {
        forall k | 0 <= k < |init| ensures init[k] in rows {
          var i :| 0 <= i < |rows| - 1 && rows[..|rows| - 1][i] == init[k];
          assert rows[i] == init[k];
        }
      }
      init + if SomePresent(last) then [last] else []
  }

  /** Every row with some present cell is kept. */
  lemma {:induction false} DropMissingRowsKeeps(rows: seq<seq<Cell>>)
    ensures forall row :: row in rows && SomePresent(row) ==> row in DropMissingRows(rows)
  {
    if rows != [] {
      var init := rows[..|rows| - 1];
      DropMissingRowsKeeps(init);
      forall row | row in rows && SomePresent(row) ensures row in DropMissingRows(rows) {
        if row != rows[|rows| - 1] {
          var i :| 0 <= i < |rows| && rows[i] == row;
          assert init[i] == row;
        }
      }
    }
  }

  /** Dropping the rows that are entirely missing changes nothing in the
      output: such a row cleans to empty values and is skipped anyway. */
  lemma {:induction false} DropMissingRowsRedundant(columns: seq<string>, rows: seq<seq<Cell>>)
    requires WellFormed(Table(columns, rows))
    ensures WellFormed(Table(columns, DropMissingRows(rows)))
    ensures Emitted(columns, DropMissingRows(rows)) == Emitted(columns, rows)
  {
    if rows != [] {
      var last := |rows| - 1;
      var init := rows[..last];
      assert WellFormed(Table(columns, init));
      DropMissingRowsRedundant(columns, init);
      var row := rows[last];
      var dropped := DropMissingRows(init);
      if SomePresent(row) {
        assert DropMissingRows(rows) == dropped + [row];
        assert DropMissingRows(rows)[..|DropMissingRows(rows)| - 1] == dropped;
      } else {
        assert DropMissingRows(rows) == dropped;
        TicketContent(columns, row);
      }
    }
  }

  /** The row loop: one dictionary per row, built column by column, appended
      when it has some content. */
  method BuildTickets(columns: seq<string>, rows: seq<seq<Cell>>) returns (tickets: seq<Ticket>)
    requires WellFormed(Table(columns, rows))
    ensures tickets == Emitted(columns, rows)
  {
    tickets := [];
    for i := 0 to |rows|
      invariant WellFormed(Table(columns, rows[..i]))
      invariant tickets == Emitted(columns, rows[..i])
    {
      var ticket := BuildTicket(columns, rows[i]);
      EmittedStep(columns, rows, i);
      if HasContent(ticket) {
        tickets := tickets + [ticket];
      }
    }
    assert rows[..|rows|] == rows;
  }

  /** One more row emits its ticket after the earlier ones, when the ticket
      has content. */
  lemma EmittedStep(columns: seq<string>, rows: seq<seq<Cell>>, i: nat)
    requires WellFormed(Table(columns, rows)) && i < |rows|
    ensures WellFormed(Table(columns, rows[..i + 1]))
    ensures var t := MakeTicket(columns, rows[i]);
      Emitted(columns, rows[..i + 1]) == Emitted(columns, rows[..i]) + if HasContent(t) then [t] else []
  {
    assert rows[..i + 1][..i] == rows[..i] && rows[..i + 1][i] == rows[i];
  }

  /** The inner loop over the columns: the dictionary of one row. */
  method BuildTicket(columns: seq<string>, row: seq<Cell>) returns (ticket: Ticket)
    requires |row| == |columns|
    ensures ticket == MakeTicket(columns, row)
  {
    ticket := [];
    for j := 0 to |columns|
      invariant |ticket| == j
      invariant forall k :: 0 <= k < j ==> ticket[k] == (columns[k], CleanCell(row[k]))
    {
      ticket := ticket + [(columns[j], CleanCell(row[j]))];
    }
  }

  /** The conversion from the read frame to the ticket list: map the column
      names, rename when anything was mapped, drop the all-missing rows and
      build the tickets. The result carries the normalised names and the
      tickets of exactly the rows with content. */
  method Convert(table: Table) returns (columns: seq<string>, tickets: seq<Ticket>)
    requires WellFormed(table)
    ensures |columns| == |table.columns|
    ensures forall i :: 0 <= i < |columns| ==> columns[i] == NormalName(table.columns[i])
    ensures WellFormed(Table(columns, table.rows))
    ensures tickets == Emitted(columns, table.rows)
  {
    var mapping := ColumnMapping(table.columns);
    columns := table.columns;
    if mapping != map[] {
      columns := Rename(columns, mapping);
    }
    forall i | 0 <= i < |columns|
      ensures columns[i] == NormalName(table.columns[i])
    {
      assert table.columns[i] in table.columns;
    }
    var rows := DropMissingRows(table.rows);
    DropMissingRowsRedundant(columns, table.rows);
    tickets := BuildTickets(columns, rows);
  }
}
