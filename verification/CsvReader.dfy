/** Reading delimited text into a table. */
module CsvReader {
  import opened Wrappers
  import opened JsText

  const QUOTE := '"'

  // ----- One line -----

  /** The automaton over the rest of a line: the cells so far, the one being read, and whether it is
      inside quotes. */
  function Scan(rest: string, delimiter: char, current: string, quoted: bool, cells: seq<string>):
    (all: seq<string>)
    ensures |all| > |cells|
    decreases |rest|
  {
    if rest == [] then cells + [current]
    else if rest[0] == QUOTE then
      if quoted && |rest| > 1 && rest[1] == QUOTE
      then Scan(rest[2..], delimiter, current + [QUOTE], quoted, cells)
      else Scan(rest[1..], delimiter, current, !quoted, cells)
    else if rest[0] == delimiter && !quoted then Scan(rest[1..], delimiter, [], quoted, cells + [current])
    else Scan(rest[1..], delimiter, current + [rest[0]], quoted, cells)
  }

  function TrimAll(cells: seq<string>): (r: seq<string>)
    ensures |r| == |cells|
    ensures forall k :: 0 <= k < |cells| ==> r[k] == Trim(cells[k])
  {
    seq(|cells|, k requires 0 <= k < |cells| => Trim(cells[k]))
  }

  function LineCells(line: string, delimiter: char): (cells: seq<string>)
    ensures cells != []
  {
    TrimAll(Scan(line, delimiter, [], false, []))
  }

  method ParseCsvLine(line: string, delimiter: char) returns (cells: seq<string>)
    ensures cells == LineCells(line, delimiter)
  {
    var raw: seq<string> := [];
    var current: string := [];
    var quoted := false;
    var index := 0;
    while index < |line|
      invariant 0 <= index <= |line|
      invariant Scan(line, delimiter, [], false, []) == Scan(line[index..], delimiter, current, quoted, raw)
      decreases |line| - index
    {
      var c := line[index];
      if c == QUOTE {
        if quoted && index + 1 < |line| && line[index + 1] == QUOTE {
          current := current + [QUOTE];
          index := index + 1;
        } else {
          quoted := !quoted;
        }
      } else if c == delimiter && !quoted {
        raw := raw + [current];
        current := [];
      } else {
        current := current + [c];
      }
      index := index + 1;
    }
    raw := raw + [current];
    cells := TrimAll(raw);
  }

  // ----- A printer to read back -----

  function Doubled(field: string): string {
    if field == [] then []
    else (if field[0] == QUOTE then [QUOTE, QUOTE] else [field[0]]) + Doubled(field[1..])
  }

  /** A field in quotes, with its quotes doubled: section 2 of RFC 4180. */
  function Quoted(field: string): string {
    [QUOTE] + Doubled(field) + [QUOTE]
  }

  function PrintLine(fields: seq<string>, delimiter: char): string {
    if fields == [] then []
    else if |fields| == 1 then Quoted(fields[0])
    else Quoted(fields[0]) + [delimiter] + PrintLine(fields[1..], delimiter)
  }

  lemma {:induction false} ScanDoubled(field: string, tail: string, delimiter: char, current: string,
                                       cells: seq<string>)
    requires delimiter != QUOTE && (tail == [] || tail[0] != QUOTE)
    ensures Scan(Doubled(field) + [QUOTE] + tail, delimiter, current, true, cells) ==
            Scan(tail, delimiter, current + field, false, cells)
    decreases |field|
  {
    var text := Doubled(field) + [QUOTE] + tail;
    if field == [] {
      assert text[1..] == tail;
      assert current + field == current;
    } else {
      var after := Doubled(field[1..]) + [QUOTE] + tail;
      ScanDoubled(field[1..], tail, delimiter, current + [field[0]], cells);
      assert current + [field[0]] + field[1..] == current + field;
      if field[0] == QUOTE {
        assert text[2..] == after;
      } else {
        assert text[1..] == after;
      }
    }
  }

  lemma ScanQuoted(field: string, tail: string, delimiter: char, cells: seq<string>)
    requires delimiter != QUOTE && (tail == [] || tail[0] != QUOTE)
    ensures Scan(Quoted(field) + tail, delimiter, [], false, cells) == Scan(tail, delimiter, field, false, cells)
  {
    var text := Quoted(field) + tail;
    assert text[1..] == Doubled(field) + [QUOTE] + tail;
    ScanDoubled(field, tail, delimiter, [], cells);
    assert [] + field == field;
  }

  lemma ScanDelimiter(rest: string, delimiter: char, current: string, cells: seq<string>)
    requires delimiter != QUOTE
    ensures Scan([delimiter] + rest, delimiter, current, false, cells) ==
            Scan(rest, delimiter, [], false, cells + [current])
  {
    assert ([delimiter] + rest)[1..] == rest;
  }

  lemma {:induction false} ScanPrinted(fields: seq<string>, delimiter: char, cells: seq<string>)
    requires fields != [] && delimiter != QUOTE
    ensures Scan(PrintLine(fields, delimiter), delimiter, [], false, cells) == cells + fields
    decreases |fields|
  {
    if |fields| == 1 {
      assert Scan([], delimiter, fields[0], false, cells) == cells + [fields[0]];
      hide Scan, Quoted;
      ScanQuoted(fields[0], [], delimiter, cells);
      assert PrintLine(fields, delimiter) == Quoted(fields[0]) + [];
      assert fields == [fields[0]];
    } else {
      hide Scan, Quoted;
      var rest := PrintLine(fields[1..], delimiter);
      ScanQuoted(fields[0], [delimiter] + rest, delimiter, cells);
      assert PrintLine(fields, delimiter) == Quoted(fields[0]) + ([delimiter] + rest);
      ScanDelimiter(rest, delimiter, fields[0], cells);
      ScanPrinted(fields[1..], delimiter, cells + [fields[0]]);
      assert cells + [fields[0]] + fields[1..] == cells + fields;
    }
  }

  /** Reading a printed line gives back its fields, trimmed, whatever characters they hold. */
  lemma LineInverse(fields: seq<string>, delimiter: char)
    requires fields != [] && delimiter != QUOTE
    ensures LineCells(PrintLine(fields, delimiter), delimiter) == TrimAll(fields)
  {
    ScanPrinted(fields, delimiter, []);
    assert [] + fields == fields;
  }

  lemma {:induction false} ScanPlain(rest: string, delimiter: char, current: string, cells: seq<string>)
    requires QUOTE !in rest && delimiter != QUOTE
    ensures
      var parts := Split(rest, delimiter);
      Scan(rest, delimiter, current, false, cells) == cells + [current + parts[0]] + parts[1..]
    decreases |rest|
  {
    if rest == [] {
      assert current + [] == current;
    } else if rest[0] == delimiter {
      ScanPlain(rest[1..], delimiter, [], cells + [current]);
      var parts := Split(rest[1..], delimiter);
      assert [] + parts[0] == parts[0] && parts == [parts[0]] + parts[1..];
      assert current + [] == current;
      assert cells + [current] + [parts[0]] + parts[1..] == cells + [current] + parts;
    } else {
      ScanPlain(rest[1..], delimiter, current + [rest[0]], cells);
      var parts := Split(rest[1..], delimiter);
      assert current + [rest[0]] + parts[0] == current + ([rest[0]] + parts[0]);
    }
  }

  /** A line without quotes is simply cut at the delimiters. */
  lemma {:induction false} PlainLine(line: string, delimiter: char)
    requires QUOTE !in line && delimiter != QUOTE
    ensures LineCells(line, delimiter) == TrimAll(Split(line, delimiter))
  {
    ScanPlain(line, delimiter, [], []);
    var parts := Split(line, delimiter);
    assert [] + parts[0] == parts[0];
    assert [] + [parts[0]] + parts[1..] == parts;
  }

  // ----- Any line -----

  /** A stretch of a cell outside quotes, or inside. */
  datatype Segment = Bare(text: string) | InQuotes(text: string)

  function SegmentText(s: Segment): string {
    match s
    case Bare(text) => text
    case InQuotes(text) => Quoted(text)
  }

  function CellText(cell: seq<Segment>): string {
    if cell == [] then [] else SegmentText(cell[0]) + CellText(cell[1..])
  }

  /** What the cell holds: the text of its stretches, one after the other. */
  function Content(cell: seq<Segment>): string {
    if cell == [] then [] else cell[0].text + Content(cell[1..])
  }

  /** Outside quotes there is text without quotes or delimiters; stretches in quotes do not touch. */
  predicate Segmented(cell: seq<Segment>, delimiter: char) {
    && (forall k :: 0 <= k < |cell| && cell[k].Bare? ==>
          cell[k].text != [] && QUOTE !in cell[k].text && delimiter !in cell[k].text)
    && (forall k :: 0 < k < |cell| ==> cell[k - 1].Bare? || cell[k].Bare?)
  }

  lemma {:induction false} ScanBare(text: string, tail: string, delimiter: char, current: string, cells: seq<string>)
    requires QUOTE !in text && delimiter !in text
    ensures Scan(text + tail, delimiter, current, false, cells) == Scan(tail, delimiter, current + text, false, cells)
    decreases |text|
  {
    if text == [] {
      assert text + tail == tail && current + text == current;
    } else {
      assert (text + tail)[1..] == text[1..] + tail;
      ScanBare(text[1..], tail, delimiter, current + [text[0]], cells);
      assert current + [text[0]] + text[1..] == current + text;
    }
  }

  lemma ScanInQuotes(text: string, tail: string, delimiter: char, current: string, cells: seq<string>)
    requires delimiter != QUOTE && (tail == [] || tail[0] != QUOTE)
    ensures Scan(Quoted(text) + tail, delimiter, current, false, cells) ==
            Scan(tail, delimiter, current + text, false, cells)
  {
    assert (Quoted(text) + tail)[1..] == Doubled(text) + [QUOTE] + tail;
    ScanDoubled(text, tail, delimiter, current, cells);
  }

  /** A quote that nothing closes takes in the rest of the line. */
  lemma {:induction false} ScanUnclosed(text: string, delimiter: char, current: string, cells: seq<string>)
    requires delimiter != QUOTE
    ensures Scan(Doubled(text), delimiter, current, true, cells) == cells + [current + text]
    decreases |text|
  {
    if text == [] {
      assert current + text == current;
    } else {
      ScanUnclosed(text[1..], delimiter, current + [text[0]], cells);
      assert current + [text[0]] + text[1..] == current + text;
      if text[0] == QUOTE {
        assert Doubled(text)[2..] == Doubled(text[1..]);
      } else {
        assert Doubled(text)[1..] == Doubled(text[1..]);
      }
    }
  }

  lemma {:induction false} ScanCell(cell: seq<Segment>, tail: string, delimiter: char, current: string,
                                    cells: seq<string>)
    requires delimiter != QUOTE && Segmented(cell, delimiter)
    requires tail == [] || tail[0] != QUOTE || cell == [] || cell[|cell| - 1].Bare?
    ensures Scan(CellText(cell) + tail, delimiter, current, false, cells) ==
            Scan(tail, delimiter, current + Content(cell), false, cells)
    decreases |cell|
  {
    hide Scan, Quoted;
    if cell == [] {
      assert CellText(cell) + tail == tail && current + Content(cell) == current;
    } else {
      var rest := CellText(cell[1..]) + tail;
      assert CellText(cell) + tail == SegmentText(cell[0]) + rest;
      if cell[0].Bare? {
        ScanBare(cell[0].text, rest, delimiter, current, cells);
      } else {
        assert |cell| > 1 ==> cell[1].Bare? && rest[0] == cell[1].text[0] && cell[1].text[0] in cell[1].text;
        ScanInQuotes(cell[0].text, rest, delimiter, current, cells);
      }
      ScanCell(cell[1..], tail, delimiter, current + cell[0].text, cells);
      assert current + cell[0].text + Content(cell[1..]) == current + Content(cell);
    }
  }

  /** The cells with delimiters between them, and after the last one a quote that nothing closes, if any. */
  function MixedLine(row: seq<seq<Segment>>, unclosed: Option<string>, delimiter: char): string
    requires row != []
  {
    if |row| == 1 then CellText(row[0]) + (if unclosed.Some? then [QUOTE] + Doubled(unclosed.value) else [])
    else CellText(row[0]) + [delimiter] + MixedLine(row[1..], unclosed, delimiter)
  }

  function Contents(row: seq<seq<Segment>>, unclosed: Option<string>): (cells: seq<string>)
    requires row != []
    ensures |cells| == |row|
  {
    if |row| == 1 then [Content(row[0]) + unclosed.GetOr([])]
    else [Content(row[0])] + Contents(row[1..], unclosed)
  }

  ghost predicate Mixed(row: seq<seq<Segment>>, unclosed: Option<string>, delimiter: char) {
    && row != [] && (forall k :: 0 <= k < |row| ==> Segmented(row[k], delimiter))
    && (unclosed.Some? ==> var last := row[|row| - 1]; last == [] || last[|last| - 1].Bare?)
  }

  lemma MixedMore(row: seq<seq<Segment>>, unclosed: Option<string>, delimiter: char)
    requires |row| > 1 && Mixed(row, unclosed, delimiter)
    ensures Mixed(row[1..], unclosed, delimiter)
    ensures MixedLine(row, unclosed, delimiter) ==
            CellText(row[0]) + ([delimiter] + MixedLine(row[1..], unclosed, delimiter))
    ensures Contents(row, unclosed) == [Content(row[0])] + Contents(row[1..], unclosed)
  {
    hide CellText, Content, Segmented;
    var rest := MixedLine(row[1..], unclosed, delimiter);
    assert CellText(row[0]) + [delimiter] + rest == CellText(row[0]) + ([delimiter] + rest);
  }

  lemma {:induction false} ScanMixed(row: seq<seq<Segment>>, unclosed: Option<string>, delimiter: char,
                                     cells: seq<string>)
    requires delimiter != QUOTE && Mixed(row, unclosed, delimiter)
    ensures Scan(MixedLine(row, unclosed, delimiter), delimiter, [], false, cells) == cells + Contents(row, unclosed)
    decreases |row|
  {
    hide Scan, CellText, Content, Doubled;
    if |row| == 1 {
      hide MixedLine, Segmented;
      assert row == [row[0]];
      ScanLastCell(row[0], unclosed, delimiter, cells);
    } else {
      MixedMore(row, unclosed, delimiter);
      assert Segmented(row[0], delimiter);
      hide MixedLine, Contents, Mixed, Segmented;
      var first, rest := row[0], MixedLine(row[1..], unclosed, delimiter);
      assert [] + Content(first) == Content(first);
      ScanCell(first, [delimiter] + rest, delimiter, [], cells);
      ScanDelimiter(rest, delimiter, Content(first), cells);
      ScanMixed(row[1..], unclosed, delimiter, cells + [Content(first)]);
      assert cells + [Content(first)] + Contents(row[1..], unclosed) == cells + Contents(row, unclosed);
    }
  }

  lemma ScanLastCell(cell: seq<Segment>, unclosed: Option<string>, delimiter: char, cells: seq<string>)
    requires delimiter != QUOTE && Segmented(cell, delimiter)
    requires unclosed.Some? ==> cell == [] || cell[|cell| - 1].Bare?
    ensures Scan(MixedLine([cell], unclosed, delimiter), delimiter, [], false, cells) ==
            cells + [Content(cell) + unclosed.GetOr([])]
  {
    assert [] + Content(cell) == Content(cell) && Content(cell) + [] == Content(cell);
    if unclosed.Some? {
      var tail := [QUOTE] + Doubled(unclosed.value);
      ScanCell(cell, tail, delimiter, [], cells);
      assert tail[1..] == Doubled(unclosed.value);
      ScanUnclosed(unclosed.value, delimiter, Content(cell), cells);
    } else {
      ScanCell(cell, [], delimiter, [], cells);
    }
  }

  /** Reading any line: quotes take delimiters and doubled quotes as text wherever in a cell they stand,
      and the stretches of a cell, in quotes or not, are put together and trimmed. */
  lemma MixedInverse(row: seq<seq<Segment>>, unclosed: Option<string>, delimiter: char)
    requires delimiter != QUOTE && Mixed(row, unclosed, delimiter)
    ensures LineCells(MixedLine(row, unclosed, delimiter), delimiter) == TrimAll(Contents(row, unclosed))
  {
    ScanMixed(row, unclosed, delimiter, []);
    assert [] + Contents(row, unclosed) == Contents(row, unclosed);
  }

  // ----- A document -----

  datatype Document = Document(headers: seq<string>, rows: seq<map<string, string>>)

  function WithoutBom(raw: string): string {
    if raw != [] && raw[0] == '\U{FEFF}' then raw[1..] else raw
  }

  function WithoutCr(line: string): (r: string)
    ensures forall c :: c in r ==> c in line
  {
    if line != [] && line[|line| - 1] == '\r' then line[..|line| - 1] else line
  }

  /** `split(/\r?\n/)`, blank lines dropped: every piece but the last was ended by a line break. */
  function InkedLines(pieces: seq<string>): seq<string> {
    if pieces == [] then []
    else
      var line := if |pieces| == 1 then pieces[0] else WithoutCr(pieces[0]);
      var rest := InkedLines(pieces[1..]);
      if Trim(line) == [] then rest else [line] + rest
  }

  function ColumnKey(headers: seq<string>, j: nat): string
    requires j < |headers|
  {
    if headers[j] == [] then "column_" + Decimal(j + 1) else headers[j]
  }

  /** Filling a row object with the first n columns. Assigning a text to __proto__ sets nothing. */
  function RowObject(headers: seq<string>, values: seq<string>, n: nat): map<string, string>
    requires n <= |headers|
  {
    if n == 0 then map[]
    else
      var row, key := RowObject(headers, values, n - 1), ColumnKey(headers, n - 1);
      if key == "__proto__" then row
      else row[key := if n - 1 < |values| then values[n - 1] else []]
  }

  /** The first line's cells name the columns, every other line's fill a row. */
  function Assemble(lines: seq<seq<string>>): (d: Document)
    ensures lines != [] ==> d.headers == lines[0] && |d.rows| == |lines| - 1
    ensures lines != [] ==>
              forall i :: 0 <= i < |d.rows| ==> d.rows[i] == RowObject(d.headers, lines[i + 1], |d.headers|)
  {
    if lines == [] then Document([], [])
    else Document(lines[0], seq(|lines| - 1, i requires 0 <= i < |lines| - 1 =>
      RowObject(lines[0], lines[i + 1], |lines[0]|)))
  }

  function AllCells(lines: seq<string>, delimiter: char): (cells: seq<seq<string>>)
    ensures |cells| == |lines|
    ensures forall i :: 0 <= i < |lines| ==> cells[i] == LineCells(lines[i], delimiter)
  {
    seq(|lines|, i requires 0 <= i < |lines| => LineCells(lines[i], delimiter))
  }

  function FileLines(raw: string): seq<string> {
    InkedLines(Split(WithoutBom(raw), '\n'))
  }

  function ParseCsvDocument(raw: string, delimiter: char): Document {
    Assemble(AllCells(FileLines(raw), delimiter))
  }

  // ----- Any document -----

  /** A line with its ending, up to the last character of that. */
  function Piece(line: string, crlf: bool): string {
    if crlf then line + ['\r'] else line
  }

  /** Lines with line breaks between them; crlf[k] tells which kind follows line k. */
  function Joined(lines: seq<string>, crlf: seq<bool>): string
    requires lines != [] && |crlf| == |lines| - 1
  {
    if |lines| == 1 then lines[0]
    else Piece(lines[0], crlf[0]) + ['\n'] + Joined(lines[1..], crlf[1..])
  }

  /** No line holds a line break, also not together with the one after it. */
  predicate Separate(lines: seq<string>, crlf: seq<bool>)
    requires |crlf| == |lines| - 1
  {
    && (forall k :: 0 <= k < |lines| ==> '\n' !in lines[k])
    && (forall k :: 0 <= k < |crlf| && !crlf[k] ==> lines[k] == [] || lines[k][|lines[k]| - 1] != '\r')
  }

  /** The lines that are not blank. */
  function NotBlank(lines: seq<string>): (kept: seq<string>) {
    if lines == [] then []
    else
      var rest := NotBlank(lines[1..]);
      if Blank(lines[0]) then rest else [lines[0]] + rest
  }

  lemma InkedMore(piece: string, pieces: seq<string>)
    requires pieces != []
    ensures InkedLines([piece] + pieces) ==
            if Blank(WithoutCr(piece)) then InkedLines(pieces) else [WithoutCr(piece)] + InkedLines(pieces)
  {
    BlankIffTrimmedAway(WithoutCr(piece));
    hide Trim, Blank, WithoutCr;
    assert ([piece] + pieces)[1..] == pieces;
  }

  lemma InkedLast(piece: string)
    ensures InkedLines([piece]) == NotBlank([piece])
  {
    BlankIffTrimmedAway(piece);
    hide Trim, Blank;
    assert [piece][1..] == [];
    assert InkedLines([]) == [] && NotBlank([]) == [];
  }

  lemma PieceIs(line: string, crlf: bool)
    requires '\n' !in line && (!crlf ==> line == [] || line[|line| - 1] != '\r')
    ensures '\n' !in Piece(line, crlf) && WithoutCr(Piece(line, crlf)) == line
  {
  }

  lemma SeparateMore(lines: seq<string>, crlf: seq<bool>)
    requires |lines| > 1 && |crlf| == |lines| - 1 && Separate(lines, crlf)
    ensures Separate(lines[1..], crlf[1..])
    ensures '\n' !in lines[0] && (!crlf[0] ==> lines[0] == [] || lines[0][|lines[0]| - 1] != '\r')
  {
  }

  lemma {:induction false} LinesKept(lines: seq<string>, crlf: seq<bool>)
    requires lines != [] && |crlf| == |lines| - 1 && Separate(lines, crlf)
    ensures InkedLines(Split(Joined(lines, crlf), '\n')) == NotBlank(lines)
    decreases |lines|
  {
    if |lines| == 1 {
      assert lines == [lines[0]] && '\n' !in lines[0];
      InkedLast(lines[0]);
    } else {
      hide Blank, Split, Separate, InkedLines, WithoutCr, Piece;
      var rest := Joined(lines[1..], crlf[1..]);
      var piece := Piece(lines[0], crlf[0]);
      SeparateMore(lines, crlf);
      PieceIs(lines[0], crlf[0]);
      SplitPiece(piece, rest, '\n');
      InkedMore(piece, Split(rest, '\n'));
      LinesKept(lines[1..], crlf[1..]);
    }
  }

  /** Column j is called k: by its header, or by its number if that is empty. */
  predicate Names(headers: seq<string>, j: nat, k: string)
    requires j < |headers|
  {
    k == if headers[j] != "" then headers[j] else "column_" + Decimal(j + 1)
  }

  /** One of the first n columns is called k; and j is the last of them that is. */
  ghost predicate Named(headers: seq<string>, n: nat, k: string)
    requires n <= |headers|
  {
    exists j: nat :: j < n && Names(headers, j, k)
  }

  ghost predicate LastNamed(headers: seq<string>, n: nat, j: nat, k: string)
    requires n <= |headers|
  {
    j < n && Names(headers, j, k) && forall i: nat :: j < i < n ==> !Names(headers, i, k)
  }

  /** A row holds a value for each of the first n columns by its name: the empty text if the line was too
      short, and of columns of one name the last one's. A column called __proto__ is lost. */
  ghost predicate RowMeans(row: map<string, string>, headers: seq<string>, values: seq<string>, n: nat)
    requires n <= |headers|
  {
    && (forall k :: k in row <==> k != "__proto__" && Named(headers, n, k))
    && (forall j: nat, k :: k in row && LastNamed(headers, n, j, k) ==>
          row[k] == if j < |values| then values[j] else "")
  }

  lemma NamedMore(headers: seq<string>, n: nat, j: nat, k: string)
    requires 0 < n <= |headers|
    ensures Named(headers, n, k) <==> Named(headers, n - 1, k) || k == ColumnKey(headers, n - 1)
    ensures LastNamed(headers, n, j, k) <==>
            if k == ColumnKey(headers, n - 1) then j == n - 1 else LastNamed(headers, n - 1, j, k)
  {
    assert Names(headers, n - 1, k) <==> k == ColumnKey(headers, n - 1);
    hide ColumnKey, Names;
    if LastNamed(headers, n - 1, j, k) && !Names(headers, n - 1, k) {
      assert LastNamed(headers, n, j, k);
    }
  }

  lemma {:induction false} RowMeansMore(row: map<string, string>, headers: seq<string>, values: seq<string>, n: nat)
    requires 0 < n <= |headers| && RowMeans(row, headers, values, n - 1)
    ensures
      var key, value := ColumnKey(headers, n - 1), if n - 1 < |values| then values[n - 1] else "";
      RowMeans(if key == "__proto__" then row else row[key := value], headers, values, n)
  {
    hide ColumnKey, Named, LastNamed;
    var key, value := ColumnKey(headers, n - 1), if n - 1 < |values| then values[n - 1] else "";
    var after := if key == "__proto__" then row else row[key := value];
    forall k ensures k in after <==> k != "__proto__" && Named(headers, n, k) {
      NamedMore(headers, n, 0, k);
    }
    forall j: nat, k | k in after && LastNamed(headers, n, j, k)
      ensures after[k] == if j < |values| then values[j] else ""
    {
      NamedMore(headers, n, j, k);
    }
  }

  lemma {:induction false} RowObjectMeans(headers: seq<string>, values: seq<string>, n: nat)
    requires n <= |headers|
    ensures RowMeans(RowObject(headers, values, n), headers, values, n)
  {
    if n > 0 {
      hide RowMeans, ColumnKey;
      RowObjectMeans(headers, values, n - 1);
      RowMeansMore(RowObject(headers, values, n - 1), headers, values, n);
    }
  }

  lemma {:induction false} AssembleMeans(lines: seq<seq<string>>)
    requires lines != []
    ensures
      var d := Assemble(lines);
      && d.headers == lines[0] && |d.rows| == |lines| - 1
      && forall i :: 0 <= i < |d.rows| ==> RowMeans(d.rows[i], d.headers, lines[i + 1], |d.headers|)
  {
    hide RowMeans, RowObject;
    var d := Assemble(lines);
    forall i | 0 <= i < |d.rows| ensures RowMeans(d.rows[i], d.headers, lines[i + 1], |d.headers|) {
      RowObjectMeans(d.headers, lines[i + 1], |d.headers|);
    }
  }

  /** Reading any text: a byte order mark and blank lines are passed over, of either line ending; the
      first line that is left names the columns, and each other one fills a row. */
  lemma {:induction false} DocumentMeans(lines: seq<string>, crlf: seq<bool>, bom: bool, delimiter: char)
    requires lines != [] && |crlf| == |lines| - 1 && Separate(lines, crlf)
    requires bom || lines[0] == [] || lines[0][0] != '\U{FEFF}'
    ensures
      var d := ParseCsvDocument((if bom then "\U{FEFF}" else "") + Joined(lines, crlf), delimiter);
      var kept := NotBlank(lines);
      if kept == [] then d == Document([], [])
      else
        && d.headers == LineCells(kept[0], delimiter) && |d.rows| == |kept| - 1
        && forall i :: 0 <= i < |d.rows| ==>
             RowMeans(d.rows[i], d.headers, LineCells(kept[i + 1], delimiter), |d.headers|)
  {
    hide *;
    var raw := (if bom then "\U{FEFF}" else "") + Joined(lines, crlf);
    BomTaken(lines, crlf, bom);
    LinesKept(lines, crlf);
    ReadAssembled(raw, Joined(lines, crlf), NotBlank(lines), delimiter);
  }

  lemma ReadAssembled(raw: string, body: string, kept: seq<string>, delimiter: char)
    requires WithoutBom(raw) == body && InkedLines(Split(body, '\n')) == kept
    ensures
      var d := ParseCsvDocument(raw, delimiter);
      if kept == [] then d == Document([], [])
      else
        && d.headers == LineCells(kept[0], delimiter) && |d.rows| == |kept| - 1
        && forall i :: 0 <= i < |d.rows| ==>
             RowMeans(d.rows[i], d.headers, LineCells(kept[i + 1], delimiter), |d.headers|)
  {
    hide LineCells, RowMeans, RowObject, InkedLines, Split, WithoutBom;
    assert FileLines(raw) == kept;
    if kept != [] {
      hide Assemble;
      AssembleMeans(AllCells(kept, delimiter));
    } else {
      assert AllCells(kept, delimiter) == [];
    }
  }

  lemma BomTaken(lines: seq<string>, crlf: seq<bool>, bom: bool)
    requires lines != [] && |crlf| == |lines| - 1
    requires bom || lines[0] == [] || lines[0][0] != '\U{FEFF}'
    ensures WithoutBom((if bom then "\U{FEFF}" else "") + Joined(lines, crlf)) == Joined(lines, crlf)
  {
    var text := Joined(lines, crlf);
    if bom {
      assert ("\U{FEFF}" + text)[1..] == text;
    } else {
      assert "" + text == text;
    }
  }

  // ----- Reading a document back -----

  datatype Table = Table(headers: seq<string>, rows: seq<seq<string>>)

  /** At least one column, distinguishable headers, and full-width rows. */
  predicate WellFormed(t: Table) {
    && t.headers != [] && Distinguishable(t.headers)
    && (forall i :: 0 <= i < |t.rows| ==> |t.rows[i]| == |t.headers|)
  }

  /** What printing can carry across: no outer white space, no line break. */
  predicate Plain(cell: string) {
    Trimmed(cell) && '\n' !in cell
  }

  predicate AllPlain(cells: seq<string>) {
    forall j :: 0 <= j < |cells| ==> Plain(cells[j])
  }

  predicate PlainTable(t: Table) {
    AllPlain(t.headers) && forall i :: 0 <= i < |t.rows| ==> AllPlain(t.rows[i])
  }

  /** The document holds the table: the same headers, and row by row the same cell under each. */
  ghost predicate Holds(d: Document, t: Table)
    requires WellFormed(t)
  {
    && d.headers == t.headers
    && |d.rows| == |t.rows|
    && forall i :: 0 <= i < |t.rows| ==> RowHolds(d.rows[i], t.headers, t.rows[i])
  }

  ghost predicate RowHolds(row: map<string, string>, headers: seq<string>, cells: seq<string>)
    requires |cells| == |headers|
  {
    && (forall k :: k in row ==> k in headers)
    && (forall j :: 0 <= j < |headers| ==> headers[j] in row && row[headers[j]] == cells[j])
  }

  datatype Layout = Layout(delimiter: char, crlf: bool, bom: bool)

  function LineEnd(f: Layout): string {
    if f.crlf then "\r\n" else "\n"
  }

  function PrintLines(lines: seq<seq<string>>, f: Layout): string {
    if lines == [] then []
    else PrintLine(lines[0], f.delimiter) + LineEnd(f) + PrintLines(lines[1..], f)
  }

  /** The header line and then the rows. */
  function Lines(t: Table): (lines: seq<seq<string>>)
    ensures |lines| == |t.rows| + 1 && lines[0] == t.headers
    ensures forall i :: 0 <= i < |t.rows| ==> lines[i + 1] == t.rows[i]
  {
    [t.headers] + t.rows
  }

  function PrintDocument(t: Table, f: Layout): string {
    (if f.bom then "\U{FEFF}" else "") + PrintLines(Lines(t), f)
  }

  predicate Free(texts: seq<string>, c: char) {
    forall i :: 0 <= i < |texts| ==> c !in texts[i]
  }

  lemma {:induction false} DoubledChars(field: string, c: char)
    ensures c in Doubled(field) <==> c in field
  {
    if field != [] {
      DoubledChars(field[1..], c);
      assert field == [field[0]] + field[1..];
    }
  }

  lemma {:induction false} PrintedShape(fields: seq<string>, delimiter: char)
    requires fields != [] && Free(fields, '\n') && delimiter != '\n'
    ensures
      var s := PrintLine(fields, delimiter);
      |s| >= 2 && s[0] == QUOTE && s[|s| - 1] == QUOTE && '\n' !in s
    decreases |fields|
  {
    DoubledChars(fields[0], '\n');
    if |fields| > 1 {
      PrintedShape(fields[1..], delimiter);
    }
  }

  function Printed(lines: seq<seq<string>>, delimiter: char): (s: seq<string>)
    ensures |s| == |lines|
    ensures forall i :: 0 <= i < |lines| ==> s[i] == PrintLine(lines[i], delimiter)
  {
    seq(|lines|, i requires 0 <= i < |lines| => PrintLine(lines[i], delimiter))
  }

  /** One more printed line in front of a text. */
  lemma {:induction false} LineInFront(line: string, f: Layout, rest: string)
    requires |line| >= 2 && line[0] == QUOTE && line[|line| - 1] == QUOTE && '\n' !in line
    ensures InkedLines(Split(line + LineEnd(f) + rest, '\n')) == [line] + InkedLines(Split(rest, '\n'))
  {
    var piece := if f.crlf then line + ['\r'] else line;
    var pieces := Split(rest, '\n');
    assert line + LineEnd(f) + rest == piece + ['\n'] + rest;
    SplitPiece(piece, rest, '\n');
    assert ([piece] + pieces)[1..] == pieces;
    assert WithoutCr(piece) == line;
    assert !IsSpace(QUOTE);
    TrimKeepsInk(line, 0);
  }

  lemma PrintLinesMore(lines: seq<seq<string>>, f: Layout)
    requires lines != []
    ensures PrintLines(lines, f) == PrintLine(lines[0], f.delimiter) + LineEnd(f) + PrintLines(lines[1..], f)
  {
  }

  /** Splitting the printed lines gives them back. */
  lemma {:induction false} LinesInverse(lines: seq<seq<string>>, f: Layout)
    requires f.delimiter !in {QUOTE, '\n'}
    requires forall i :: 0 <= i < |lines| ==> lines[i] != [] && Free(lines[i], '\n')
    ensures InkedLines(Split(PrintLines(lines, f), '\n')) == Printed(lines, f.delimiter)
    decreases |lines|
  {
    hide *;
    if lines == [] {
      NothingPrinted(lines, f);
    } else {
      var first, rest := PrintLine(lines[0], f.delimiter), PrintLines(lines[1..], f);
      assert InkedLines(Split(first + LineEnd(f) + rest, '\n')) == [first] + InkedLines(Split(rest, '\n')) by {
        PrintedShape(lines[0], f.delimiter);
        LineInFront(first, f, rest);
      }
      assert PrintLines(lines, f) == first + LineEnd(f) + rest by { PrintLinesMore(lines, f); }
      assert Printed(lines, f.delimiter) == [first] + Printed(lines[1..], f.delimiter) by {
        PrintedMore(lines, f.delimiter);
      }
      LinesInverse(lines[1..], f);
    }
  }

  lemma NothingPrinted(lines: seq<seq<string>>, f: Layout)
    requires lines == []
    ensures InkedLines(Split(PrintLines(lines, f), '\n')) == Printed(lines, f.delimiter)
  {
    assert PrintLines(lines, f) == [];
    hide *;
    NoLines(PrintLines(lines, f));
  }

  lemma NoLines(text: string)
    requires text == []
    ensures InkedLines(Split(text, '\n')) == []
  {
    assert Split(text, '\n') == [text];
    assert Trim(text) == text;
  }

  lemma PrintedMore(lines: seq<seq<string>>, delimiter: char)
    requires lines != []
    ensures Printed(lines, delimiter) == [PrintLine(lines[0], delimiter)] + Printed(lines[1..], delimiter)
  {
  }

  /** Headers a row object can tell apart. */
  predicate Distinguishable(headers: seq<string>) {
    && (forall j :: 0 <= j < |headers| ==> headers[j] != [] && headers[j] != "__proto__")
    && (forall j, k :: 0 <= j < k < |headers| ==> headers[j] != headers[k])
  }

  lemma RowObjectStep(headers: seq<string>, values: seq<string>, n: nat)
    requires 0 < n <= |headers| == |values| && Distinguishable(headers)
    ensures RowObject(headers, values, n) == RowObject(headers, values, n - 1)[headers[n - 1] := values[n - 1]]
  {
  }

  lemma {:induction false} RowObjectHolds(headers: seq<string>, values: seq<string>, n: nat)
    requires n <= |headers| == |values| && Distinguishable(headers)
    ensures forall k :: k in RowObject(headers, values, n) ==> k in headers
    ensures forall j :: 0 <= j < n ==>
              headers[j] in RowObject(headers, values, n) && RowObject(headers, values, n)[headers[j]] == values[j]
  {
    if n > 0 {
      RowObjectHolds(headers, values, n - 1);
      RowObjectStep(headers, values, n);
    }
  }

  lemma TrimAllPlain(cells: seq<string>)
    requires AllPlain(cells)
    ensures TrimAll(cells) == cells
  {
    forall j | 0 <= j < |cells| ensures Trim(cells[j]) == cells[j] {
      assert Plain(cells[j]);
      TrimOfTrimmed(cells[j]);
    }
  }

  lemma UnbrokenLines(t: Table)
    requires WellFormed(t) && PlainTable(t)
    ensures forall i :: 0 <= i < |Lines(t)| ==> Lines(t)[i] != [] && AllPlain(Lines(t)[i]) && Free(Lines(t)[i], '\n')
  {
    forall i | 0 <= i < |Lines(t)|
      ensures Lines(t)[i] != [] && AllPlain(Lines(t)[i]) && Free(Lines(t)[i], '\n')
    {
      assert i > 0 ==> Lines(t)[i] == t.rows[i - 1];
      assert forall j :: 0 <= j < |Lines(t)[i]| ==> Plain(Lines(t)[i][j]);
    }
  }

  /** The lines of a printed document of plain cells are its printed lines. */
  lemma {:induction false} DocumentLines(t: Table, f: Layout)
    requires WellFormed(t) && PlainTable(t) && f.delimiter !in {QUOTE, '\n'}
    ensures FileLines(PrintDocument(t, f)) == Printed(Lines(t), f.delimiter)
  {
    var lines := Lines(t);
    var raw, body := PrintDocument(t, f), PrintLines(lines, f);
    UnbrokenLines(t);
    assert body != [] && body[0] == QUOTE by {
      PrintLinesMore(lines, f);
      PrintedShape(t.headers, f.delimiter);
    }
    assert WithoutBom(raw) == body by {
      if f.bom { assert raw[1..] == body; } else { assert raw == body; }
    }
    assert InkedLines(Split(body, '\n')) == Printed(lines, f.delimiter) by { LinesInverse(lines, f); }
  }

  /** A table's own lines assemble to that table. */
  lemma {:induction false} AssembleHolds(t: Table)
    requires WellFormed(t)
    ensures Holds(Assemble(Lines(t)), t)
  {
    forall i | 0 <= i < |t.rows|
      ensures RowHolds(Assemble(Lines(t)).rows[i], t.headers, t.rows[i])
    {
      RowObjectHolds(t.headers, t.rows[i], |t.headers|);
    }
  }

  lemma CellsInverse(cells: seq<string>, delimiter: char)
    requires cells != [] && AllPlain(cells) && delimiter != QUOTE
    ensures LineCells(PrintLine(cells, delimiter), delimiter) == cells
  {
    LineInverse(cells, delimiter);
    TrimAllPlain(cells);
  }

  lemma AllCellsInverse(lines: seq<seq<string>>, delimiter: char)
    requires forall i :: 0 <= i < |lines| ==> lines[i] != [] && AllPlain(lines[i])
    requires delimiter != QUOTE
    ensures AllCells(Printed(lines, delimiter), delimiter) == lines
  {
    forall i | 0 <= i < |lines| ensures AllCells(Printed(lines, delimiter), delimiter)[i] == lines[i] {
      CellsInverse(lines[i], delimiter);
    }
  }

  /** A printed table of plain cells is read back exactly. */
  lemma {:induction false} DocumentInverse(t: Table, f: Layout)
    requires WellFormed(t) && PlainTable(t) && f.delimiter !in {QUOTE, '\n'}
    ensures Holds(ParseCsvDocument(PrintDocument(t, f), f.delimiter), t)
  {
    DocumentLines(t, f);
    UnbrokenLines(t);
    AllCellsInverse(Lines(t), f.delimiter);
    AssembleHolds(t);
  }

  // ----- What no document can hold -----

  lemma {:induction false} ScanInvents(rest: string, delimiter: char, current: string, quoted: bool,
                                       cells: seq<string>, c: char)
    requires c !in rest && c !in current && forall x :: x in cells ==> c !in x
    ensures forall x :: x in Scan(rest, delimiter, current, quoted, cells) ==> c !in x
    decreases |rest|
  {
    if rest == [] {
    } else if rest[0] == QUOTE {
      if quoted && |rest| > 1 && rest[1] == QUOTE {
        ScanInvents(rest[2..], delimiter, current + [QUOTE], quoted, cells, c);
      } else {
        ScanInvents(rest[1..], delimiter, current, !quoted, cells, c);
      }
    } else if rest[0] == delimiter && !quoted {
      ScanInvents(rest[1..], delimiter, [], quoted, cells + [current], c);
    } else {
      ScanInvents(rest[1..], delimiter, current + [rest[0]], quoted, cells, c);
    }
  }

  lemma CellsPlain(line: string, delimiter: char)
    requires '\n' !in line
    ensures AllPlain(LineCells(line, delimiter))
  {
    var raw := Scan(line, delimiter, [], false, []);
    ScanInvents(line, delimiter, [], false, [], '\n');
    forall j | 0 <= j < |raw| ensures Plain(Trim(raw[j])) {
      assert raw[j] in raw;
    }
  }

  lemma {:induction false} RowObjectPlain(headers: seq<string>, values: seq<string>, n: nat)
    requires n <= |headers| && AllPlain(values)
    ensures forall k :: k in RowObject(headers, values, n) ==> Plain(RowObject(headers, values, n)[k])
  {
    if n > 0 {
      RowObjectPlain(headers, values, n - 1);
    }
  }

  lemma {:induction false} InkedLinesFree(pieces: seq<string>, c: char)
    requires Free(pieces, c)
    ensures Free(InkedLines(pieces), c)
  {
    if pieces != [] {
      InkedLinesFree(pieces[1..], c);
      var line := if |pieces| == 1 then pieces[0] else WithoutCr(pieces[0]);
      assert c !in line;
    }
  }

  lemma {:induction false} FileLinesFree(raw: string)
    ensures Free(FileLines(raw), '\n')
  {
    var pieces := Split(WithoutBom(raw), '\n');
    assert forall i :: 0 <= i < |pieces| ==> pieces[i] in pieces;
    InkedLinesFree(pieces, '\n');
  }

  /** Whatever is read, no header or cell has outer white space or a line break. */
  lemma AssemblePlain(lines: seq<seq<string>>)
    requires forall i :: 0 <= i < |lines| ==> AllPlain(lines[i])
    ensures
      var d := Assemble(lines);
      AllPlain(d.headers) && forall i, k :: 0 <= i < |d.rows| && k in d.rows[i] ==> Plain(d.rows[i][k])
  {
    var d := Assemble(lines);
    forall i, k | 0 <= i < |d.rows| && k in d.rows[i] ensures Plain(d.rows[i][k]) {
      RowObjectPlain(d.headers, lines[i + 1], |d.headers|);
    }
  }

  lemma AllCellsPlain(lines: seq<string>, delimiter: char)
    requires Free(lines, '\n')
    ensures forall i :: 0 <= i < |lines| ==> AllPlain(AllCells(lines, delimiter)[i])
  {
    forall i | 0 <= i < |lines| ensures AllPlain(AllCells(lines, delimiter)[i]) {
      CellsPlain(lines[i], delimiter);
    }
  }

  /** A table survives printing and reading exactly when its headers and cells have no outer white
      space and no line break: unlike in RFC 4180, quotes do not protect a line break. */
  lemma {:induction false} DocumentInverseIff(t: Table, f: Layout)
    requires WellFormed(t) && f.delimiter !in {QUOTE, '\n'}
    ensures Holds(ParseCsvDocument(PrintDocument(t, f), f.delimiter), t) <==> PlainTable(t)
  {
    var raw := PrintDocument(t, f);
    var d := ParseCsvDocument(raw, f.delimiter);
    if PlainTable(t) {
      DocumentInverse(t, f);
    }
    if Holds(d, t) {
      FileLinesFree(raw);
      AllCellsPlain(FileLines(raw), f.delimiter);
      AssemblePlain(AllCells(FileLines(raw), f.delimiter));
      forall i, j | 0 <= i < |t.rows| && 0 <= j < |t.headers| ensures Plain(t.rows[i][j]) {
        assert RowHolds(d.rows[i], t.headers, t.rows[i]);
        assert t.headers[j] in d.rows[i];
      }
      assert forall i :: 0 <= i < |t.rows| ==> AllPlain(t.rows[i]);
    }
  }

  /** One quoted cell with a line break in it is enough. */
  lemma {:induction false} LineBreakIsLost(t: Table, f: Layout)
    requires t.headers == ["note"] && t.rows == [["one\ntwo"]] && f.delimiter !in {QUOTE, '\n'}
    ensures WellFormed(t) && !Holds(ParseCsvDocument(PrintDocument(t, f), f.delimiter), t)
  {
    hide Holds, ParseCsvDocument, PrintDocument;
    assert WellFormed(t);
    DocumentInverseIff(t, f);
    assert t.rows[0][0][3] == '\n';
    assert !Plain(t.rows[0][0]);
  }
}
