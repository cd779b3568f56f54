// The CSV writer and reader of the file converter.
module Csv {
  import opened Ndjson
  import opened Text

  // ------------------------------------------------------------ writing

  predicate NeedsQuotes(s: string) {
    '"' in s || '\n' in s || ',' in s || '\r' in s
  }

  /** Every quote twice. */
  function Doubled(s: string): string {
    if s == "" then "" else (if s[0] == '"' then "\"\"" else [s[0]]) + Doubled(s[1..])
  }

  /** esc */
  function Escaped(cell: string): string {
    if NeedsQuotes(cell) then "\"" + Doubled(cell) + "\"" else cell
  }

  /** A cell is written as it is if and only if it holds no quote, comma or line end. */
  lemma EscapedOnlyIfNeeded(cell: string)
    ensures Escaped(cell) == cell <==> forall c :: c in cell ==> c !in {'"', ',', '\n', '\r'}
  {
    DoubledNotShorter(cell);
  }

  lemma {:induction false} DoubledNotShorter(s: string)
    ensures |Doubled(s)| >= |s|
  {
    if s != "" { DoubledNotShorter(s[1..]); }
  }

  /** Array.prototype.join(',') */
  function Commas(cells: seq<string>): string {
    if cells == [] then "" else if |cells| == 1 then cells[0] else cells[0] + "," + Commas(cells[1..])
  }

  function EscapedAll(row: seq<string>): (r: seq<string>)
    ensures |r| == |row|
  {
    if row == [] then [] else [Escaped(row[0])] + EscapedAll(row[1..])
  }

  // ------------------------------------------------------------ reading a line

  /** The cells of the rest of a line, given the cell begun and whether it is inside quotes. */
  function Cells(rest: string, cur: string, quoted: bool): (r: seq<string>)
    ensures r != []
    decreases |rest|
  {
    if rest == "" then [cur]
    else if quoted then
      if rest[0] == '"' && |rest| > 1 && rest[1] == '"' then Cells(rest[2..], cur + "\"", true)
      else if rest[0] == '"' then Cells(rest[1..], cur, false)
      else Cells(rest[1..], cur + [rest[0]], true)
    else if rest[0] == '"' then Cells(rest[1..], cur, true)
    else if rest[0] == ',' then [cur] + Cells(rest[1..], "", false)
    else Cells(rest[1..], cur + [rest[0]], false)
  }

  /** parseLine */
  method ParseLine(line: string) returns (out: seq<string>)
    ensures out == Cells(line, "", false)
  {
    out := [];
    var cur, quoted, i := "", false, 0;
    while i < |line|
      invariant i <= |line|
      invariant out + Cells(line[i..], cur, quoted) == Cells(line, "", false)
    {
      var c := line[i];
      assert line[i..][1..] == line[i + 1..];
      if quoted {
        if c == '"' && i + 1 < |line| && line[i + 1] == '"' {
          assert line[i..][2..] == line[i + 2..];
          cur := cur + "\"";
          i := i + 1;
        } else if c == '"' {
          quoted := false;
        } else {
          cur := cur + [c];
        }
      } else if c == '"' {
        quoted := true;
      } else if c == ',' {
        out, cur := out + [cur], "";
      } else {
        cur := cur + [c];
      }
      i := i + 1;
    }
    out := out + [cur];
  }

  // ------------------------------------------------------------ a row round trip

  /** What follows a cell: the end of the line, or a comma and the other cells. */
  predicate Follows(rest: string) {
    rest == "" || rest[0] == ','
  }

  function After(cell: string, rest: string): seq<string>
    requires Follows(rest)
  {
    if rest == "" then [cell] else [cell] + Cells(rest[1..], "", false)
  }

  lemma {:induction false} PlainCell(cell: string, rest: string, cur: string)
    requires '"' !in cell && ',' !in cell && Follows(rest)
    ensures Cells(cell + rest, cur, false) == After(cur + cell, rest)
  {
    if cell == "" {
      assert cell + rest == rest && cur + cell == cur;
    } else {
      assert (cell + rest)[1..] == cell[1..] + rest;
      assert cur + [cell[0]] + cell[1..] == cur + cell;
      PlainCell(cell[1..], rest, cur + [cell[0]]);
    }
  }

  lemma QuotedSteps(c: char, rest: string, cur: string)
    ensures Cells("\"\"" + rest, cur, true) == Cells(rest, cur + "\"", true)
    ensures c != '"' ==> Cells([c] + rest, cur, true) == Cells(rest, cur + [c], true)
  {
    assert ("\"\"" + rest)[2..] == rest && ([c] + rest)[1..] == rest;
  }

  lemma {:induction false} QuotedCell(cell: string, rest: string, cur: string)
    requires Follows(rest)
    ensures Cells(Doubled(cell) + ("\"" + rest), cur, true) == After(cur + cell, rest)
  {
    hide Cells, Follows, Doubled, After;
    var tail := "\"" + rest;
    if cell == "" {
      QuotedEnd(rest, cur);
      DoubledNothing(tail);
      assert cur + cell == cur;
    } else {
      var inner := Doubled(cell[1..]) + tail;
      QuotedSteps(cell[0], inner, cur);
      assert cur + [cell[0]] + cell[1..] == cur + cell;
      DoubledNext(cell, tail);
      QuotedCell(cell[1..], rest, cur + [cell[0]]);
    }
  }

  lemma DoubledNothing(tail: string)
    ensures Doubled("") + tail == tail
  {
  }

  lemma DoubledNext(cell: string, tail: string)
    requires cell != ""
    ensures Doubled(cell) + tail == (if cell[0] == '"' then "\"\"" else [cell[0]]) + (Doubled(cell[1..]) + tail)
  {
  }

  lemma QuotedEnd(rest: string, cur: string)
    requires Follows(rest)
    ensures Cells("\"" + rest, cur, true) == After(cur, rest)
  {
    assert ("\"" + rest)[1..] == rest;
    PlainCell("", rest, cur);
    assert "" + rest == rest && cur + "" == cur;
  }

  lemma QuotedStart(rest: string)
    ensures Cells("\"" + rest, "", false) == Cells(rest, "", true)
  {
    assert ("\"" + rest)[1..] == rest;
  }

  /** An escaped cell is read back whole, whatever it holds. */
  lemma EscapedCell(cell: string, rest: string)
    requires Follows(rest)
    ensures Cells(Escaped(cell) + rest, "", false) == After(cell, rest)
  {
    assert "" + cell == cell;
    if NeedsQuotes(cell) {
      hide NeedsQuotes, Doubled;
      QuotedStart(Doubled(cell) + ("\"" + rest));
      assert Escaped(cell) + rest == "\"" + (Doubled(cell) + ("\"" + rest));
      QuotedCell(cell, rest, "");
    } else {
      PlainCell(cell, rest, "");
    }
  }

  /** Every row but the empty one is read back from its escaped cells. */
  lemma {:induction false} RowRoundTrip(row: seq<string>)
    requires row != []
    ensures Cells(Commas(EscapedAll(row)), "", false) == row
  {
    hide Cells, Escaped;
    var texts := EscapedAll(row);
    if |row| == 1 {
      EscapedCell(row[0], "");
      assert Escaped(row[0]) + "" == Escaped(row[0]);
      assert texts == [Escaped(row[0])];
    } else {
      var others := Commas(texts[1..]);
      EscapedCell(row[0], "," + others);
      assert ("," + others)[1..] == others;
      assert texts[1..] == EscapedAll(row[1..]);
      assert Escaped(row[0]) + "," + others == Escaped(row[0]) + ("," + others);
      RowRoundTrip(row[1..]);
    }
  }

  // ------------------------------------------------------------ the heading, which is not escaped

  predicate Plain(key: string) {
    '"' !in key && ',' !in key
  }

  /** Reading on only adds to the cell that is begun. */
  lemma {:induction false} FirstCellGrows(rest: string, cur: string, quoted: bool)
    ensures cur <= Cells(rest, cur, quoted)[0]
    decreases |rest|
  {
    if rest != "" {
      if quoted && rest[0] == '"' && |rest| > 1 && rest[1] == '"' {
        FirstCellGrows(rest[2..], cur + "\"", true);
      } else if rest[0] == '"' {
        FirstCellGrows(rest[1..], cur, !quoted);
      } else if quoted || rest[0] != ',' {
        FirstCellGrows(rest[1..], cur + [rest[0]], quoted);
      }
    }
  }

  /** The quotes a text begins with. */
  function Quotes(s: string): (n: nat)
    ensures n <= |s|
  {
    if s == "" || s[0] != '"' then 0 else 1 + Quotes(s[1..])
  }

  /**
   * A cell that is to become k, whose next characters are to be more quotes than there
   * are quotes to read, does not become k.
   */
  lemma {:induction false} TooFewQuotes(rest: string, cur: string, quoted: bool, k: string)
    requires cur <= k && Quotes(rest) < Quotes(k[|cur|..]) && (quoted || Quotes(rest) == 0)
    ensures Cells(rest, cur, quoted)[0] != k
    decreases |rest|
  {
    assert k[|cur|] == '"';
    if rest != "" {
      if rest[0] != '"' {
        if quoted || rest[0] != ',' { FirstCellGrows(rest[1..], cur + [rest[0]], quoted); }
      } else if |rest| > 1 && rest[1] == '"' {
        assert rest[1..][1..] == rest[2..];
        assert k[|cur|..][1..] == k[|cur + "\""|..];
        TooFewQuotes(rest[2..], cur + "\"", true, k);
      } else {
        TooFewQuotes(rest[1..], cur, false, k);
      }
    }
  }

  lemma {:induction false} QuotesEnd(s: string, rest: string)
    requires Follows(rest)
    ensures Quotes(s + rest) == Quotes(s)
  {
    if s == "" {
      assert s + rest == rest;
    } else {
      assert (s + rest)[1..] == s[1..] + rest;
      QuotesEnd(s[1..], rest);
    }
  }

  /** A key with a quote or a comma in it is not the cell that is read where it stands. */
  lemma {:induction false} FirstCellDiffers(k: string, p: nat, rest: string)
    requires p <= |k| && Plain(k[..p]) && !Plain(k) && Follows(rest)
    ensures Cells(k[p..] + rest, k[..p], false)[0] != k
    decreases |k| - p
  {
    assert k[..|k|] == k;
    if p < |k| {
      var text := k[p..] + rest;
      assert text[1..] == k[p + 1..] + rest && text[0] == k[p];
      if k[p] == '"' {
        QuotesEnd(k[p + 1..], rest);
        assert k[p..][1..] == k[p + 1..];
        TooFewQuotes(text[1..], k[..p], true, k);
      } else if k[p] != ',' {
        assert k[..p + 1] == k[..p] + [k[p]];
        FirstCellDiffers(k, p + 1, rest);
      }
    }
  }

  /** The first cell of a text that begins with the key is the key if and only if the key is plain. */
  lemma FirstCellIs(k: string, rest: string)
    requires Follows(rest)
    ensures Cells(k + rest, "", false)[0] == k <==> Plain(k)
    ensures Plain(k) ==> Cells(k + rest, "", false) == After(k, rest)
  {
    assert "" + k == k && k[..0] == "" && k[0..] == k;
    if Plain(k) { PlainCell(k, rest, ""); } else { FirstCellDiffers(k, 0, rest); }
  }

  /** Object.fromEntries is given this name for a cell of the heading. */
  function Name(cell: string, n: nat): string {
    if cell == "" then "column" + Decimal(n) else cell
  }

  lemma {:induction false} DecimalDigits(n: nat)
    ensures forall i :: 0 <= i < |Decimal(n)| ==> '0' <= Decimal(n)[i] <= '9'
  {
    if n >= 10 { DecimalDigits(n / 10); }
  }

  lemma NumberedName(n: nat)
    ensures var name := "column" + Decimal(n);
            name != "" && Plain(name) && '\n' !in name && !EndsInReturn(name)
  {
    DecimalDigits(n);
    hide Decimal;
    var name := "column" + Decimal(n);
    assert name[|name| - 1] == Decimal(n)[|Decimal(n)| - 1];
  }

  predicate EndsInReturn(s: string) {
    s != "" && s[|s| - 1] == '\r'
  }

  /** line.replace(/\r$/, ''), which is what cutting at /\r?\n/ does to a line. */
  function DropReturn(line: string): string {
    if EndsInReturn(line) then line[..|line| - 1] else line
  }

  /** A cell read in place of a key, which may have lost a return, can only name the key if it is the key, and plain. */
  lemma NameReadBack(k: string, key: string, rest: string, n: nat)
    requires (k == key || k == DropReturn(key)) && Follows(rest) && Name(Cells(k + rest, "", false)[0], n) == key
    requires k != key ==> rest == "" && |Cells(k, "", false)| == 1
    ensures k == key && Plain(key) && key != ""
  {
    NumberedName(n);
    hide Decimal;
    FirstCellIs(k, rest);
    if k != key {
      assert k + rest == k;
      CellsShrink(k, "", false);
    }
  }

  /** The characters of the cells, and the commas between them. */
  function Size(cells: seq<string>): nat {
    if cells == [] then 0 else if |cells| == 1 then |cells[0]| else |cells[0]| + 1 + Size(cells[1..])
  }

  /** Reading never makes cells longer than the text. */
  lemma {:induction false} CellsShrink(rest: string, cur: string, quoted: bool)
    ensures Size(Cells(rest, cur, quoted)) <= |cur| + |rest|
    decreases |rest|
  {
    if rest != "" {
      if quoted && rest[0] == '"' && |rest| > 1 && rest[1] == '"' {
        CellsShrink(rest[2..], cur + "\"", true);
      } else if rest[0] == '"' {
        CellsShrink(rest[1..], cur, !quoted);
      } else if !quoted && rest[0] == ',' {
        CellsShrink(rest[1..], "", false);
        var others := Cells(rest[1..], "", false);
        assert ([cur] + others)[1..] == others;
      } else {
        CellsShrink(rest[1..], cur + [rest[0]], quoted);
      }
    }
  }

  /** The keys, the last of which has lost the return it ends in. */
  function Trimmed(keys: seq<string>): (r: seq<string>)
    requires keys != []
    ensures |r| == |keys|
  {
    keys[|keys| - 1 := DropReturn(keys[|keys| - 1])]
  }

  /** The names read from a heading are the keys. */
  predicate NamesAre(cells: seq<string>, keys: seq<string>, n: nat) {
    |cells| == |keys| && forall j :: 0 <= j < |keys| ==> Name(cells[j], n + j + 1) == keys[j]
  }

  /** A heading that gives the keys back has plain keys that are not empty, and has lost nothing. */
  lemma {:induction false} NamesReadBack(keys: seq<string>, n: nat)
    requires keys != [] && NamesAre(Cells(Commas(Trimmed(keys)), "", false), keys, n)
    ensures Trimmed(keys) == keys && forall j :: 0 <= j < |keys| ==> Plain(keys[j]) && keys[j] != ""
  {
    hide Cells, Name, Plain, DropReturn;
    var ks := Trimmed(keys);
    if |keys| == 1 {
      assert ks[0] + "" == ks[0];
      NameReadBack(ks[0], keys[0], "", n + 1);
    } else {
      var others := Commas(ks[1..]);
      assert ks[0] + "," + others == ks[0] + ("," + others);
      NameReadBack(keys[0], keys[0], "," + others, n + 1);
      FirstCellIs(keys[0], "," + others);
      assert ("," + others)[1..] == others;
      assert ks[1..] == Trimmed(keys[1..]);
      var cells := Cells(others, "", false);
      forall j | 0 <= j < |keys| - 1 ensures Name(cells[j], n + 1 + j + 1) == keys[1..][j] {
        assert ([keys[0]] + cells)[j + 1] == cells[j];
      }
      NamesReadBack(keys[1..], n + 1);
      forall j | 0 <= j < |keys| ensures Plain(keys[j]) && keys[j] != "" {
        if j > 0 { assert keys[1..][j - 1] == keys[j]; }
      }
      assert keys == [keys[0]] + keys[1..] && ks == [ks[0]] + ks[1..];
    }
  }

  lemma {:induction false} PlainRow(row: seq<string>)
    requires row != [] && forall i :: 0 <= i < |row| ==> Plain(row[i])
    ensures Cells(Commas(row), "", false) == row
  {
    hide Cells, Plain;
    if |row| == 1 {
      FirstCellIs(row[0], "");
      assert row[0] + "" == row[0];
    } else {
      var others := Commas(row[1..]);
      FirstCellIs(row[0], "," + others);
      assert ("," + others)[1..] == others;
      assert row[0] + "," + others == row[0] + ("," + others);
      PlainRow(row[1..]);
    }
  }

  // ------------------------------------------------------------ whole tables

  function DropReturns(lines: seq<string>): (r: seq<string>)
    ensures |r| == |lines| && forall i :: 0 <= i < |r| ==> r[i] == DropReturn(lines[i])
  {
    if lines == [] then [] else [DropReturn(lines[0])] + DropReturns(lines[1..])
  }

  /** text.split(/\r?\n/) */
  function Lines(text: string): seq<string> {
    DropReturns(Init(Pieces(text))) + [Last(Pieces(text))]
  }

  function NotEmpty(lines: seq<string>): (r: seq<string>)
    ensures |r| <= |lines|
  {
    if lines == [] then [] else (if lines[0] == "" then [] else [lines[0]]) + NotEmpty(lines[1..])
  }

  /** What Object.fromEntries is given: a missing name is numbered, a missing cell is empty. */
  function Record(keys: seq<string>, cells: seq<string>, n: nat): (r: seq<(string, string)>)
    requires n <= |keys|
    ensures |r| == n
    ensures forall i :: 0 <= i < n ==> r[i] == (Name(keys[i], i + 1), if i < |cells| then cells[i] else "")
  {
    if n == 0 then []
    else Record(keys, cells, n - 1) + [(Name(keys[n - 1], n), if n - 1 < |cells| then cells[n - 1] else "")]
  }

  function Records(keys: seq<string>, lines: seq<string>): (r: seq<seq<(string, string)>>)
    ensures |r| == |lines|
    ensures forall i :: 0 <= i < |r| ==> r[i] == Record(keys, Cells(lines[i], "", false), |keys|)
  {
    if lines == [] then [] else [Record(keys, Cells(lines[0], "", false), |keys|)] + Records(keys, lines[1..])
  }

  function RowLines(rows: seq<seq<string>>): (r: seq<string>)
    ensures |r| == |rows| && forall i :: 0 <= i < |r| ==> r[i] == Commas(EscapedAll(rows[i]))
  {
    if rows == [] then [] else [Commas(EscapedAll(rows[0]))] + RowLines(rows[1..])
  }

  /** json2csv: the heading, and a line for each row of cells. */
  function WriteTable(keys: seq<string>, rows: seq<seq<string>>): string {
    if rows == [] then "" else Commas(keys) + "\n" + Joined(RowLines(rows))
  }

  /** csv2json */
  function ReadTable(text: string): seq<seq<(string, string)>> {
    var lines := NotEmpty(Lines(text));
    if lines == [] then [] else Records(Cells(lines[0], "", false), lines[1..])
  }

  /** A row under its keys. */
  function Under(keys: seq<string>, row: seq<string>, n: nat): (r: seq<(string, string)>)
    requires n <= |keys| && n <= |row|
    ensures |r| == n && forall i :: 0 <= i < n ==> r[i] == (keys[i], row[i])
  {
    if n == 0 then [] else Under(keys, row, n - 1) + [(keys[n - 1], row[n - 1])]
  }

  /** A cell for each key in every row. */
  predicate Rectangular(keys: seq<string>, rows: seq<seq<string>>) {
    forall i :: 0 <= i < |rows| ==> |rows[i]| == |keys|
  }

  function TableOf(keys: seq<string>, rows: seq<seq<string>>): (r: seq<seq<(string, string)>>)
    requires Rectangular(keys, rows)
    ensures |r| == |rows| && forall i :: 0 <= i < |r| ==> r[i] == Under(keys, rows[i], |keys|)
  {
    if rows == [] then [] else [Under(keys, rows[0], |keys|)] + TableOf(keys, rows[1..])
  }

  // ------------------------------------------------------------ which tables come back

  /** There are keys, none is empty or holds a comma, a quote or a line feed, and the last does not end in a return. */
  predicate GoodHeading(keys: seq<string>) {
    && keys != [] && !EndsInReturn(keys[|keys| - 1])
    && forall i :: 0 <= i < |keys| ==> keys[i] != "" && Plain(keys[i]) && '\n' !in keys[i]
  }

  /** No cell holds a line feed, and the row is not a single empty cell. */
  predicate GoodRow(row: seq<string>) {
    row != [""] && Unbroken(row)
  }

  predicate Portable(keys: seq<string>, rows: seq<seq<string>>) {
    rows == [] || (GoodHeading(keys) && forall i :: 0 <= i < |rows| ==> GoodRow(rows[i]))
  }

  lemma {:induction false} DoubledUnbroken(s: string)
    requires '\n' !in s
    ensures '\n' !in Doubled(s)
  {
    if s != "" {
      assert s == [s[0]] + s[1..];
      DoubledUnbroken(s[1..]);
    }
  }

  /** An escaped cell never ends in a return, has a line feed only if the cell has, and is empty only if the cell is. */
  lemma EscapedText(cell: string)
    ensures !EndsInReturn(Escaped(cell)) && (Escaped(cell) == "" <==> cell == "")
    ensures '\n' !in cell ==> '\n' !in Escaped(cell)
  {
    if '\n' !in cell { DoubledUnbroken(cell); }
    if EndsInReturn(cell) { assert '\r' in cell; }
    hide Doubled;
  }

  lemma {:induction false} CommasText(cells: seq<string>)
    requires cells != []
    ensures Unbroken(cells) ==> '\n' !in Commas(cells)
    ensures Commas(cells) == "" <==> cells == [""]
    ensures EndsInReturn(Commas(cells)) <==> EndsInReturn(cells[|cells| - 1])
  {
    if |cells| > 1 {
      var others := Commas(cells[1..]);
      CommasText(cells[1..]);
      assert others != "" ==> Commas(cells)[|Commas(cells)| - 1] == others[|others| - 1];
    }
  }

  lemma {:induction false} EscapedRow(row: seq<string>)
    ensures forall i :: 0 <= i < |row| ==> EscapedAll(row)[i] == Escaped(row[i])
  {
    if row != [] { EscapedRow(row[1..]); }
  }

  /** The line of a row does not end in a return, and is empty only for a single empty cell. */
  lemma RowLineText(row: seq<string>)
    requires row != []
    ensures var line := Commas(EscapedAll(row));
            !EndsInReturn(line) && (line == "" <==> row == [""]) && (Unbroken(row) ==> '\n' !in line)
  {
    hide Escaped, Commas, EndsInReturn;
    EscapedRow(row);
    forall i | 0 <= i < |row|
      ensures !EndsInReturn(Escaped(row[i])) && (Escaped(row[i]) == "" <==> row[i] == "")
      ensures '\n' !in row[i] ==> '\n' !in Escaped(row[i])
    {
      EscapedText(row[i]);
    }
    CommasText(EscapedAll(row));
  }

  lemma {:induction false} CommasTrimmed(keys: seq<string>)
    requires keys != [] && keys[|keys| - 1] != ""
    ensures DropReturn(Commas(keys)) == Commas(Trimmed(keys))
  {
    CommasText(keys);
    if |keys| > 1 {
      CommasTrimmed(keys[1..]);
      assert Trimmed(keys)[1..] == Trimmed(keys[1..]);
      CommasText(keys[1..]);
    }
  }

  lemma {:induction false} NoReturns(lines: seq<string>)
    requires forall i :: 0 <= i < |lines| ==> !EndsInReturn(lines[i])
    ensures DropReturns(lines) == lines
  {
    hide EndsInReturn;
    if lines != [] { NoReturns(lines[1..]); }
  }

  lemma LinesOfPieces(text: string, heading: string, others: seq<string>)
    requires others != [] && Pieces(text) == [heading] + others && DropReturns(Init(others)) == Init(others)
    ensures Lines(text) == [DropReturn(heading)] + others
  {
    hide Pieces, DropReturn;
    var init := Init([heading] + others);
    assert init == [heading] + Init(others);
    assert DropReturns(init) == [DropReturn(heading)] + DropReturns(Init(others));
    assert Init(others) + [Last(others)] == others;
  }

  /** Lines that hold no line feed, and do not end in a return, are read back; the first may lose a return. */
  lemma LinesBack(heading: string, others: seq<string>)
    requires others != [] && '\n' !in heading && Unbroken(others)
    requires forall i :: 0 <= i < |others| ==> !EndsInReturn(others[i])
    ensures Lines(heading + "\n" + Joined(others)) == [DropReturn(heading)] + others
  {
    hide Pieces, Joined, DropReturns, Lines, EndsInReturn, DropReturn, Unbroken;
    NoReturns(Init(others));
    UnbrokenHeading(heading, others);
    hide Init;
    JoinedHeading(heading, others);
    PiecesUnique([heading] + others);
    LinesOfPieces(heading + "\n" + Joined(others), heading, others);
  }

  lemma UnbrokenHeading(heading: string, others: seq<string>)
    requires '\n' !in heading && Unbroken(others)
    ensures Unbroken([heading] + others)
  {
  }

  /** Without line feeds in keys and cells, the lines that are read are the lines that were written. */
  lemma LinesRead(keys: seq<string>, rows: seq<seq<string>>)
    requires keys != [] && rows != [] && Rectangular(keys, rows)
    requires Unbroken(keys) && forall i :: 0 <= i < |rows| ==> Unbroken(rows[i])
    ensures Lines(WriteTable(keys, rows)) == [DropReturn(Commas(keys))] + RowLines(rows)
  {
    hide Joined, Lines, EscapedAll, Commas, EndsInReturn, DropReturn;
    var others := RowLines(rows);
    CommasText(keys);
    forall i | 0 <= i < |others| ensures '\n' !in others[i] && !EndsInReturn(others[i]) {
      RowLineText(rows[i]);
    }
    LinesBack(Commas(keys), others);
  }

  lemma JoinedHeading(heading: string, lines: seq<string>)
    requires lines != []
    ensures Joined([heading] + lines) == heading + "\n" + Joined(lines)
  {
    assert ([heading] + lines)[1..] == lines;
  }

  lemma {:induction false} NoneEmpty(lines: seq<string>)
    ensures |NotEmpty(lines)| == |lines| <==> forall i :: 0 <= i < |lines| ==> lines[i] != ""
    ensures |NotEmpty(lines)| == |lines| ==> NotEmpty(lines) == lines
  {
    if lines != [] {
      NoneEmpty(lines[1..]);
      assert lines == [lines[0]] + lines[1..];
    }
  }

  /** A table without faults comes back. */
  lemma PortableComesBack(keys: seq<string>, rows: seq<seq<string>>)
    requires rows != [] && Rectangular(keys, rows) && Portable(keys, rows)
    ensures ReadTable(WriteTable(keys, rows)) == TableOf(keys, rows)
  {
    hide Cells, Lines, NotEmpty, Commas, EscapedAll, Plain, EndsInReturn, WriteTable, Decimal;
    var lines := [Commas(keys)] + RowLines(rows);
    CommasText(keys);
    assert keys != [""] by { assert keys[0] != ""; }
    LinesRead(keys, rows);
    forall i | 0 <= i < |lines| ensures lines[i] != "" {
      if i > 0 { RowLineText(rows[i - 1]); }
    }
    NoneEmpty(lines);
    PlainRow(keys);
    assert lines[1..] == RowLines(rows);
    var table, expected := ReadTable(WriteTable(keys, rows)), TableOf(keys, rows);
    forall i | 0 <= i < |rows| ensures table[i] == expected[i] {
      RowRoundTrip(rows[i]);
    }
  }

  // ------------------------------------------------------------ and which do not

  lemma {:induction false} CellsUnbroken(rest: string, cur: string, quoted: bool)
    requires '\n' !in rest && '\n' !in cur
    ensures Unbroken(Cells(rest, cur, quoted))
    decreases |rest|
  {
    if rest != "" {
      if quoted && rest[0] == '"' && |rest| > 1 && rest[1] == '"' {
        CellsUnbroken(rest[2..], cur + "\"", true);
      } else if rest[0] == '"' {
        CellsUnbroken(rest[1..], cur, !quoted);
      } else if !quoted && rest[0] == ',' {
        CellsUnbroken(rest[1..], "", false);
      } else {
        CellsUnbroken(rest[1..], cur + [rest[0]], quoted);
      }
    }
  }

  lemma {:induction false} NotEmptyUnbroken(lines: seq<string>)
    requires Unbroken(lines)
    ensures Unbroken(NotEmpty(lines))
  {
    if lines != [] { NotEmptyUnbroken(lines[1..]); }
  }

  lemma LinesUnbroken(text: string)
    ensures Unbroken(Lines(text))
  {
    PiecesJoin(text);
    hide Pieces;
    var lines := Lines(text);
    forall i | 0 <= i < |lines| ensures '\n' !in lines[i] {
      assert '\n' !in Pieces(text)[i];
    }
  }

  /** Nothing that is read holds a line feed, and no name is empty. */
  lemma ReadUnbroken(text: string, i: nat, j: nat)
    requires i < |ReadTable(text)| && j < |ReadTable(text)[i]|
    ensures var (name, value) := ReadTable(text)[i][j]; name != "" && '\n' !in name && '\n' !in value
  {
    hide Cells, Lines, NotEmpty, Unbroken, Name, Record, Records;
    LinesUnbroken(text);
    NotEmptyUnbroken(Lines(text));
    RecordsUnbroken(NotEmpty(Lines(text)), i, j);
  }

  lemma RecordsUnbroken(lines: seq<string>, i: nat, j: nat)
    requires lines != [] && Unbroken(lines) && i < |lines| - 1 && j < |Cells(lines[0], "", false)|
    ensures var (name, value) := Records(Cells(lines[0], "", false), lines[1..])[i][j];
            name != "" && '\n' !in name && '\n' !in value
  {
    hide Cells, Decimal, Record, Records;
    assert '\n' !in lines[0] && '\n' !in lines[i + 1];
    CellsUnbroken(lines[0], "", false);
    CellsUnbroken(lines[i + 1], "", false);
    NumberedName(j + 1);
  }

  /** What a table that comes back looked like when it was written. */
  lemma CameBack(keys: seq<string>, rows: seq<seq<string>>)
    requires rows != [] && Rectangular(keys, rows) && ReadTable(WriteTable(keys, rows)) == TableOf(keys, rows)
    ensures keys != [] && Unbroken(keys) && forall i :: 0 <= i < |keys| ==> keys[i] != ""
    ensures forall i :: 0 <= i < |rows| ==> Unbroken(rows[i])
    ensures var lines := NotEmpty(Lines(WriteTable(keys, rows)));
            |lines| == |rows| + 1 && NamesAre(Cells(lines[0], "", false), keys, 0)
  {
    hide Cells, Lines, NotEmpty, WriteTable, Name;
    var text, table := WriteTable(keys, rows), TableOf(keys, rows);
    var lines := NotEmpty(Lines(text));
    var cells := Cells(lines[0], "", false);
    assert |table[0]| == |cells|;
    forall i, j | 0 <= i < |rows| && 0 <= j < |keys| ensures '\n' !in rows[i][j] && keys[j] != "" && '\n' !in keys[j] {
      assert table[i][j] == (keys[j], rows[i][j]);
      ReadUnbroken(text, i, j);
    }
    forall j | 0 <= j < |keys| ensures Name(cells[j], 0 + j + 1) == keys[j] {
      assert table[0][j] == (keys[j], rows[0][j]);
    }
  }

  /** A table that comes back has no faults. */
  lemma CameBackPortable(keys: seq<string>, rows: seq<seq<string>>)
    requires rows != [] && Rectangular(keys, rows) && ReadTable(WriteTable(keys, rows)) == TableOf(keys, rows)
    ensures Portable(keys, rows)
  {
    hide Cells, Lines, NotEmpty, WriteTable, ReadTable, TableOf, Commas, EscapedAll, Plain;
    CameBack(keys, rows);
    LinesRead(keys, rows);
    var lines := Lines(WriteTable(keys, rows));
    NoneEmpty(lines);
    forall i | 0 <= i < |rows| ensures GoodRow(rows[i]) {
      RowLineText(rows[i]);
      assert lines[i + 1] == RowLines(rows)[i];
    }
    CommasTrimmed(keys);
    NamesReadBack(keys, 0);
    assert DropReturn(keys[|keys| - 1]) == keys[|keys| - 1];
  }

  lemma NoRows(keys: seq<string>)
    ensures ReadTable(WriteTable(keys, [])) == []
  {
    NothingToRead();
    hide Lines, Cells;
    NoneEmpty([""]);
  }

  lemma NothingToRead()
    ensures Lines("") == [""]
  {
    NoBreak("");
    hide Pieces;
    assert DropReturns([]) == [];
  }

  /** A table comes back, name by name and cell by cell, if and only if it is portable. */
  lemma TableRoundTrip(keys: seq<string>, rows: seq<seq<string>>)
    requires Rectangular(keys, rows)
    ensures ReadTable(WriteTable(keys, rows)) == TableOf(keys, rows) <==> Portable(keys, rows)
  {
    hide ReadTable, WriteTable, GoodHeading, GoodRow;
    if rows == [] {
      NoRows(keys);
    } else {
      if Portable(keys, rows) { PortableComesBack(keys, rows); }
      if ReadTable(WriteTable(keys, rows)) == TableOf(keys, rows) { CameBackPortable(keys, rows); }
    }
  }

  /** Over good rows, a heading comes back if and only if it is a good one. */
  lemma HeadingRoundTrip(keys: seq<string>, rows: seq<seq<string>>)
    requires rows != [] && Rectangular(keys, rows) && forall i :: 0 <= i < |rows| ==> GoodRow(rows[i])
    ensures ReadTable(WriteTable(keys, rows)) == TableOf(keys, rows) <==> GoodHeading(keys)
  {
    hide ReadTable, WriteTable, TableOf, GoodHeading, GoodRow;
    TableRoundTrip(keys, rows);
  }

  // ------------------------------------------------------------ some of them

  lemma RowLineOf(cell: string)
    ensures RowLines([[cell]]) == [Escaped(cell)]
  {
    hide Escaped;
    assert EscapedAll([cell]) == [Escaped(cell)];
  }

  lemma JoinedTwo(a: string, b: string)
    ensures Joined([b]) == b && Joined([a, b]) == a + "\n" + b
  {
    assert [a, b][1..] == [b];
  }

  lemma WrittenCell(key: string, cell: string)
    ensures WriteTable([key], [[cell]]) == key + "\n" + Escaped(cell)
  {
    hide Escaped, RowLines;
    RowLineOf(cell);
    JoinedTwo("", Escaped(cell));
  }

  /** A single empty name: the heading is an empty line, and the row is taken for it. */
  lemma EmptyNameLosesTable()
    ensures ReadTable(WriteTable([""], [["x"]])) == []
  {
    WrittenCell("", "x");
    JoinedTwo("", "x");
    LinesBack("", ["x"]);
    assert DropReturn("") == "" && Escaped("x") == "x";
    hide WriteTable, Lines, Joined, Escaped, Cells;
    NotEmptyNext("", ["x"]);
    NotEmptyNext("x", []);
    assert ["x"] == ["x"] + [];
  }

  lemma NotEmptyNext(line: string, lines: seq<string>)
    ensures NotEmpty([line] + lines) == (if line == "" then [] else [line]) + NotEmpty(lines)
  {
    assert ([line] + lines)[1..] == lines;
  }

  /** Three lines, none empty, are read as two records. */
  lemma ThreeLines(a: string, b: string, c: string)
    requires a != "" && b != "" && c != "" && '\n' !in a && '\n' !in b && '\n' !in c
    requires !EndsInReturn(a) && !EndsInReturn(b) && !EndsInReturn(c)
    ensures |ReadTable(a + "\n" + (b + "\n" + c))| == 2
  {
    hide Lines, Joined, Cells;
    JoinedTwo(b, c);
    LinesBack(a, [b, c]);
    assert [a] + [b, c] == [a, b, c];
    hide NotEmpty, EndsInReturn;
    NoneEmpty([a, b, c]);
  }

  /** A line feed in a name makes one record more, */
  lemma BreakInName(a: string, b: string, cell: string)
    requires a != "" && b != "" && cell != "" && '\n' !in a && '\n' !in b && '\n' !in cell
    requires !EndsInReturn(a) && !EndsInReturn(b)
    ensures |ReadTable(WriteTable([a + "\n" + b], [[cell]]))| == 2
  {
    hide WriteTable, ReadTable, Escaped, EndsInReturn;
    WrittenCell(a + "\n" + b, cell);
    EscapedText(cell);
    ThreeLines(a, b, Escaped(cell));
    assert a + "\n" + b + "\n" + Escaped(cell) == a + "\n" + (b + "\n" + Escaped(cell));
  }

  lemma {:induction false} NothingDoubled(s: string)
    requires '"' !in s
    ensures Doubled(s) == s
  {
    if s != "" {
      assert s == [s[0]] + s[1..];
      NothingDoubled(s[1..]);
    }
  }

  /** and so does one in a cell, */
  lemma BreakInCell(key: string, a: string, b: string)
    requires key != "" && '\n' !in key && !EndsInReturn(key) && !EndsInReturn(a)
    requires '\n' !in a && '"' !in a && '\n' !in b && '"' !in b
    ensures |ReadTable(WriteTable([key], [[a + "\n" + b]]))| == 2
  {
    hide WriteTable, ReadTable, Doubled;
    var cell := a + "\n" + b;
    WrittenCell(key, cell);
    assert cell[|a|] == '\n';
    NothingDoubled(cell);
    assert Escaped(cell) == "\"" + cell + "\"";
    hide Escaped, NeedsQuotes;
    ThreeLines(key, "\"" + a, b + "\"");
    assert "\"" + cell + "\"" == "\"" + a + "\n" + (b + "\"");
  }

  /** but a return in a cell does no harm: any cell without a line feed comes back, unless it is the empty record. */
  lemma OneCell(key: string, cell: string)
    requires key != "" && Plain(key) && '\n' !in key && !EndsInReturn(key)
    ensures ReadTable(WriteTable([key], [[cell]])) == TableOf([key], [[cell]]) <==> '\n' !in cell && cell != ""
  {
    hide ReadTable, WriteTable, TableOf, Plain, EndsInReturn, GoodRow;
    assert GoodHeading([key]);
    OneCellRow(cell);
    hide GoodHeading;
    TableRoundTrip([key], [[cell]]);
    assert [[cell]][0] == [cell];
  }

  lemma OneCellRow(cell: string)
    ensures GoodRow([cell]) <==> '\n' !in cell && cell != ""
  {
    assert [cell][0] == cell && [""][0] == "";
  }
  /** Records without any name are written as empty lines, and nothing is read back. */
  lemma NoNamesLoseRecords(rows: seq<seq<string>>)
    requires rows != [] && Rectangular([], rows)
    ensures ReadTable(WriteTable([], rows)) == []
  {
    var others := RowLines(rows);
    assert forall i :: 0 <= i < |rows| ==> others[i] == "";
    hide Cells, Lines, RowLines, Joined;
    LinesBack("", others);
    AllEmpty([""] + others);
    assert DropReturn("") == "";
  }

  lemma {:induction false} AllEmpty(lines: seq<string>)
    requires forall i :: 0 <= i < |lines| ==> lines[i] == ""
    ensures NotEmpty(lines) == []
  {
    if lines != [] { AllEmpty(lines[1..]); }
  }

  /** A name left out is numbered by its place, and a cell left out is empty. */
  lemma MissingIsNumbered(key: string, cell: string)
    requires key != "" && Plain(key) && '\n' !in key && !EndsInReturn(key)
    requires cell != "" && Plain(cell) && '\n' !in cell && !EndsInReturn(cell)
    ensures ReadTable("," + key + "\n" + cell) == [[("column1", cell), (key, "")]]
  {
    hide Cells, Plain, Lines, NotEmpty, Records, EndsInReturn;
    NamelessCells(key, cell);
    NamelessLines("," + key, cell, key);
    OneRecord(["", key], cell);
    assert ["," + key, cell][1..] == [cell];
  }

  lemma NamelessCells(key: string, cell: string)
    requires Plain(key) && Plain(cell)
    ensures Cells("," + key, "", false) == ["", key] && Cells(cell, "", false) == [cell]
  {
    FirstCellIs("", "," + key);
    FirstCellIs(key, "");
    FirstCellIs(cell, "");
    hide Cells;
    assert ("," + key)[1..] == key && "" + ("," + key) == "," + key && key + "" == key && cell + "" == cell;
  }

  lemma NamelessLines(heading: string, cell: string, key: string)
    requires heading == "," + key && key != "" && '\n' !in key && !EndsInReturn(key)
    requires cell != "" && '\n' !in cell && !EndsInReturn(cell)
    ensures NotEmpty(Lines(heading + "\n" + cell)) == [heading, cell]
  {
    hide Lines, Joined;
    JoinedTwo("", cell);
    LinesBack(heading, [cell]);
    assert DropReturn(heading) == heading;
    assert [heading] + [cell] == [heading, cell];
    NoneEmpty([heading, cell]);
  }

  lemma OneRecord(keys: seq<string>, cell: string)
    requires |keys| == 2 && keys[0] == "" && keys[1] != "" && Cells(cell, "", false) == [cell]
    ensures Records(keys, [cell]) == [[("column1", cell), (keys[1], "")]]
  {
    assert Decimal(1) == "1";
    hide Cells, Decimal;
    var r := Record(keys, [cell], 2);
    assert "column" + "1" == "column1";
    assert r[0] == ("column1", cell) && r[1] == (keys[1], "");
    assert r == [("column1", cell), (keys[1], "")];
    assert [cell][1..] == [];
  }

  // ------------------------------------------------------------ line ends of two characters

  /** Lines with a return and a line feed between neighbours. */
  function JoinedCrlf(lines: seq<string>): string
    requires lines != []
  {
    if |lines| == 1 then lines[0] else lines[0] + "\r\n" + JoinedCrlf(lines[1..])
  }

  /** The lines but the last, each with a return behind it. */
  function Returned(lines: seq<string>): seq<string> {
    if |lines| <= 1 then lines else [lines[0] + "\r"] + Returned(lines[1..])
  }

  lemma {:induction false} CrlfIsReturned(lines: seq<string>)
    requires lines != [] && Unbroken(lines)
    ensures |Returned(lines)| == |lines| && Unbroken(Returned(lines))
    ensures JoinedCrlf(lines) == Joined(Returned(lines))
    ensures DropReturns(Init(Returned(lines))) == Init(lines) && Last(Returned(lines)) == Last(lines)
  {
    hide Joined, JoinedCrlf, DropReturns, Returned, Init, Last;
    if |lines| > 1 {
      var others := Returned(lines[1..]);
      CrlfIsReturned(lines[1..]);
      JoinedHeading(lines[0] + "\r", others);
      CrlfStep(lines);
      ReturnedStep(lines[0], others, lines[1..]);
      UnbrokenHeading(lines[0] + "\r", others);
      assert lines == [lines[0]] + lines[1..];
      assert lines[0] + "\r\n" == lines[0] + "\r" + "\n";
    } else {
      OneLineReturned(lines);
    }
  }

  lemma OneLineReturned(lines: seq<string>)
    requires |lines| == 1
    ensures Returned(lines) == lines && JoinedCrlf(lines) == Joined(lines) && DropReturns(Init(lines)) == Init(lines)
  {
    assert Init(lines) == [];
  }

  lemma CrlfStep(lines: seq<string>)
    requires |lines| > 1
    ensures JoinedCrlf(lines) == lines[0] + "\r\n" + JoinedCrlf(lines[1..])
    ensures Returned(lines) == [lines[0] + "\r"] + Returned(lines[1..])
  {
  }

  lemma ReturnedStep(line: string, others: seq<string>, rest: seq<string>)
    requires others != [] && rest != [] && DropReturns(Init(others)) == Init(rest)
    ensures DropReturns(Init([line + "\r"] + others)) == Init([line] + rest)
    ensures Last([line + "\r"] + others) == Last(others) && Last([line] + rest) == Last(rest)
  {
    assert Init([line + "\r"] + others) == [line + "\r"] + Init(others);
    assert Init([line] + rest) == [line] + Init(rest);
    assert ([line + "\r"] + Init(others))[1..] == Init(others);
    assert DropReturn(line + "\r") == line;
  }

  /** A text whose lines end in a return and a line feed is cut into its lines. */
  lemma CrlfLines(lines: seq<string>)
    requires lines != [] && Unbroken(lines)
    ensures Lines(JoinedCrlf(lines)) == lines
  {
    hide Pieces, DropReturns, Joined, JoinedCrlf, Returned;
    CrlfIsReturned(lines);
    PiecesUnique(Returned(lines));
  }

  lemma LfLines(lines: seq<string>)
    requires lines != [] && Unbroken(lines) && forall i :: 0 <= i < |lines| ==> !EndsInReturn(lines[i])
    ensures Lines(Joined(lines)) == lines
  {
    hide Pieces, DropReturns, Joined, EndsInReturn;
    PiecesUnique(lines);
    LinesAre(Joined(lines), lines);
  }

  lemma LinesAre(text: string, lines: seq<string>)
    requires lines != [] && Pieces(text) == lines && forall i :: 0 <= i < |lines| ==> !EndsInReturn(lines[i])
    ensures Lines(text) == lines
  {
    hide Pieces, EndsInReturn;
    NoReturns(Init(lines));
    hide DropReturns;
    assert Init(lines) + [Last(lines)] == lines;
  }

  /** It makes no difference to csv2json which of the two a file ends its lines in. */
  lemma CrlfReadsAlike(lines: seq<string>)
    requires lines != [] && Unbroken(lines) && forall i :: 0 <= i < |lines| ==> !EndsInReturn(lines[i])
    ensures ReadTable(JoinedCrlf(lines)) == ReadTable(Joined(lines))
  {
    hide Lines, Joined, JoinedCrlf, EndsInReturn;
    CrlfLines(lines);
    LfLines(lines);
  }
}
