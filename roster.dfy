/** The roster-text parser of `src/lib/palworld/utils.ts`.

    The text is a header line followed by data lines. It is not RFC 4180 CSV: there is no
    quoting, and every comma separates two fields. A record is a JavaScript object built by
    zipping a data line's fields against the header names; a key whose column the line
    lacks holds `undefined`, modelled as `None`. */
module Roster {
  import opened Wrappers
  import opened Seqs
  import opened JsText

  /** One parsed row: header name to field, `None` for `undefined`. */
  type Record = map<string, Option<string>>

  /** `parsePlayerInfo` applied to `null`/`undefined`: `csvdata.toString()` throws a TypeError. */
  datatype ParseError = NullResponse

  /** The text has no leading or trailing whitespace. */
  predicate Unpadded(s: string) {
    s == [] || (s[0] !in Whitespace && s[|s| - 1] !in Whitespace)
  }

  /** `line.split(",").map(v => v.trim())`. */
  function Fields(line: string): seq<string> {
    Map(Split(line, ','), Trim)
  }

  /** One field per comma-separated piece, each without commas or surrounding whitespace. */
  lemma FieldsShape(line: string)
    ensures |Fields(line)| == Count(line, ',') + 1
    ensures forall i :: 0 <= i < |Fields(line)| ==> ',' !in Fields(line)[i] && Unpadded(Fields(line)[i])
  {
    var parts := Split(line, ',');
    SplitCount(line, ',');
    forall i | 0 <= i < |parts| ensures ',' !in Fields(line)[i] {
      TrimChars(parts[i]);
    }
  }

  /** Every character of `Trim(s)` comes from `s`. */
  lemma TrimChars(s: string)
    ensures forall c :: c in Trim(s) ==> c in s
  {
    var t := StripStart(s, Whitespace);
    var r := StripEnd(t, Whitespace);
    SliceMember(t, 0, |r|);
    SliceMember(s, |s| - |t|, |s|);
  }

  /** Every character of a piece of `Split(s, sep)` comes from `s`. */
  lemma {:induction false} SplitChars(s: string, sep: char, k: nat)
    requires k < |Split(s, sep)|
    ensures forall c :: c in Split(s, sep)[k] ==> c in s
    decreases |s|
  {
    if sep in s {
      var i := FirstIndex(s, sep);
      assert s == s[..i] + [sep] + s[i + 1..];
      if k > 0 {
        SplitChars(s[i + 1..], sep, k - 1);
      }
    }
  }

  /** Fields of a line of separator-free, unpadded cells are those cells: `Fields` undoes
      `join(",")`. */
  lemma FieldsJoin(cells: seq<string>)
    requires |cells| >= 1
    requires forall i :: 0 <= i < |cells| ==> ',' !in cells[i] && Unpadded(cells[i])
    ensures Fields(Join(cells, ',')) == cells
  {
    SplitJoin(cells, ',');
    TrimEachUnpadded(cells);
    FieldsOfPieces(Join(cells, ','), cells);
  }

  lemma TrimEachUnpadded(cells: seq<string>)
    requires forall i :: 0 <= i < |cells| ==> Unpadded(cells[i])
    ensures forall i :: 0 <= i < |cells| ==> Trim(cells[i]) == cells[i]
  {
    forall i | 0 <= i < |cells| ensures Trim(cells[i]) == cells[i] {
      TrimUnpadded(cells[i]);
    }
  }

  lemma FieldsOfPieces(line: string, cells: seq<string>)
    requires Split(line, ',') == cells
    requires forall i :: 0 <= i < |cells| ==> Trim(cells[i]) == cells[i]
    ensures Fields(line) == cells
  {
  }

  /** `values[index]`: the field at `index`, `undefined` past the end of the line. */
  function At(values: seq<string>, index: nat): (r: Option<string>)
    ensures r.Some? <==> index < |values|
    ensures r.Some? ==> r.value == values[index]
  {
    if index < |values| then Some(values[index]) else None
  }

  /** `headers.reduce((object, header, index) => { object[header] = values[index]; ... }, {})`:
      a left fold, so a later column overwrites an earlier one with the same name. */
  function ToRecord(headers: seq<string>, values: seq<string>): Record {
    if headers == [] then map[]
    else
      var n := |headers| - 1;
      ToRecord(headers[..n], values)[headers[n] := At(values, n)]
  }

  /** A record has exactly the header names as keys. */
  lemma {:induction false} ToRecordKeys(headers: seq<string>, values: seq<string>)
    ensures ToRecord(headers, values).Keys == set h | h in headers
  {
    if headers != [] {
      var n := |headers| - 1;
      assert forall h :: h in headers <==> h in headers[..n] || h == headers[n];
      ToRecordKeys(headers[..n], values);
    }
  }

  /** Position of the last `h` in `headers`. */
  function LastIndex(headers: seq<string>, h: string): (j: nat)
    requires h in headers
    ensures j < |headers| && headers[j] == h && h !in headers[j + 1..]
  {
    var n := |headers| - 1;
    if headers[n] == h then n
    else
      assert headers == headers[..n] + [headers[n]];
      LastIndex(headers[..n], h)
  }

  /** Each header name holds the field of its LAST column: the value of a repeated header
      comes from its rightmost column, `undefined` when the line has no such field. */
  lemma {:induction false} ToRecordLookup(headers: seq<string>, values: seq<string>, h: string)
    requires h in headers
    ensures h in ToRecord(headers, values) && ToRecord(headers, values)[h] == At(values, LastIndex(headers, h))
  {
    var n := |headers| - 1;
    if headers[n] != h {
      assert headers == headers[..n] + [headers[n]];
      assert h in headers[..n];
      ToRecordLookup(headers[..n], values, h);
      assert LastIndex(headers, h) == LastIndex(headers[..n], h);
    }
  }

  /** With distinct header names, column `i` of the line is the field of `headers[i]`. */
  lemma ToRecordDistinct(headers: seq<string>, values: seq<string>, i: nat)
    requires i < |headers|
    requires forall j, k :: 0 <= j < k < |headers| ==> headers[j] != headers[k]
    ensures headers[i] in ToRecord(headers, values) && ToRecord(headers, values)[headers[i]] == At(values, i)
  {
    ToRecordLookup(headers, values, headers[i]);
  }

  /** `csvData.trim().split("\n")`. */
  function Lines(csv: string): (lines: seq<string>)
    ensures |lines| == Count(Trim(csv), '\n') + 1
  {
    SplitCount(Trim(csv), '\n');
    Split(Trim(csv), '\n')
  }

  /** The header names: the trimmed comma-separated pieces of the first line. */
  function Headers(csv: string): seq<string> {
    Fields(Lines(csv)[0])
  }

  /** `lines.map(line => ...)`: the record of each data line, in order. */
  function Records(headers: seq<string>, lines: seq<string>): (rows: seq<Record>)
    ensures |rows| == |lines|
  {
    if lines == [] then [] else [ToRecord(headers, Fields(lines[0]))] + Records(headers, lines[1..])
  }

  /** Record `i` zips data line `i` against the header names. */
  lemma {:induction false} RecordsAt(headers: seq<string>, lines: seq<string>, i: nat)
    requires i < |lines|
    ensures Records(headers, lines)[i] == ToRecord(headers, Fields(lines[i]))
  {
    if i > 0 {
      RecordsAt(headers, lines[1..], i - 1);
    }
  }

  /** `parseCSV`: one record per line after the header, in the order of the lines. */
  function ParseCSV(csv: string): (rows: seq<Record>)
    ensures |rows| == |Lines(csv)| - 1 == Count(Trim(csv), '\n')
  {
    Records(Headers(csv), Lines(csv)[1..])
  }

  /** Whitespace, blank lines included, around the whole text never adds records. */
  lemma ParsePadded(w1: string, csv: string, w2: string)
    requires AllIn(w1, Whitespace) && AllIn(w2, Whitespace)
    ensures ParseCSV(w1 + csv + w2) == ParseCSV(csv)
  {
    TrimPadded(w1, csv, w2);
  }

  /** The cells of a table are usable as text: no comma, no line break, no surrounding
      whitespace; and each line has a character, so trimming the text takes nothing. */
  predicate Renderable(cells: seq<string>) {
    && |cells| >= 1
    && (|cells| > 1 || cells[0] != "")
    && forall i :: 0 <= i < |cells| ==> ',' !in cells[i] && '\n' !in cells[i] && Unpadded(cells[i])
  }

  /** The lines of a table's text: the header line, then one line per row. */
  function RenderedLines(headers: seq<string>, rows: seq<seq<string>>): (lines: seq<string>)
    ensures |lines| == |rows| + 1
  {
    [Join(headers, ',')] + JoinRows(rows)
  }

  function JoinRows(rows: seq<seq<string>>): (lines: seq<string>)
    ensures |lines| == |rows|
  {
    if rows == [] then [] else [Join(rows[0], ',')] + JoinRows(rows[1..])
  }

  lemma {:induction false} JoinRowsAt(rows: seq<seq<string>>, i: nat)
    requires i < |rows|
    ensures JoinRows(rows)[i] == Join(rows[i], ',')
  {
    if i > 0 {
      JoinRowsAt(rows[1..], i - 1);
    }
  }

  /** The text of a table. */
  function Render(headers: seq<string>, rows: seq<seq<string>>): string {
    Join(RenderedLines(headers, rows), '\n')
  }

  /** Every line of a table's text is non-empty, has no line break and is unpadded. */
  lemma RenderedLinesShape(headers: seq<string>, rows: seq<seq<string>>)
    requires Renderable(headers)
    requires forall i :: 0 <= i < |rows| ==> Renderable(rows[i])
    ensures var lines := RenderedLines(headers, rows);
      forall k :: 0 <= k < |lines| ==>
        '\n' !in lines[k] && lines[k] != [] && lines[k][0] !in Whitespace && lines[k][|lines[k]| - 1] !in Whitespace
  {
    var lines := RenderedLines(headers, rows);
    forall k | 0 <= k < |lines|
      ensures '\n' !in lines[k] && lines[k] != [] && lines[k][0] !in Whitespace && lines[k][|lines[k]| - 1] !in Whitespace
    {
      if k == 0 {
        JoinLine(headers);
      } else {
        JoinRowsAt(rows, k - 1);
        JoinLine(rows[k - 1]);
      }
    }
  }

  /** The lines `parseCSV` sees in a rendered table are the table's lines. */
  lemma RenderLines(headers: seq<string>, rows: seq<seq<string>>)
    requires Renderable(headers)
    requires forall i :: 0 <= i < |rows| ==> Renderable(rows[i])
    ensures Lines(Render(headers, rows)) == RenderedLines(headers, rows)
  {
    var lines := RenderedLines(headers, rows);
    var text := Render(headers, rows);
    assert Unpadded(text) by {
      RenderedLinesShape(headers, rows);
      JoinEnds(lines);
    }
    assert Split(text, '\n') == lines by {
      RenderedLinesShape(headers, rows);
      SplitJoin(lines, '\n');
    }
    TrimUnpadded(text);
  }

  /** `parseCSV` reads back a rendered table: one record per row, in order, each zipping the
      row's cells against the header names. */
  lemma ParseRender(headers: seq<string>, rows: seq<seq<string>>)
    requires Renderable(headers)
    requires forall i :: 0 <= i < |rows| ==> Renderable(rows[i])
    ensures |ParseCSV(Render(headers, rows))| == |rows|
    ensures forall i :: 0 <= i < |rows| ==> ParseCSV(Render(headers, rows))[i] == ToRecord(headers, rows[i])
  {
    var text := Render(headers, rows);
    assert |ParseCSV(text)| == |rows| by { RenderLines(headers, rows); }
    forall i | 0 <= i < |rows| ensures ParseCSV(text)[i] == ToRecord(headers, rows[i]) {
      ParseRenderRow(headers, rows, i);
    }
  }

  lemma ParseRenderRow(headers: seq<string>, rows: seq<seq<string>>, i: nat)
    requires Renderable(headers)
    requires forall i :: 0 <= i < |rows| ==> Renderable(rows[i])
    requires i < |rows|
    ensures i < |ParseCSV(Render(headers, rows))|
    ensures ParseCSV(Render(headers, rows))[i] == ToRecord(headers, rows[i])
  {
    var text, lines := Render(headers, rows), RenderedLines(headers, rows);
    assert Lines(text) == lines by { RenderLines(headers, rows); }
    assert Fields(lines[0]) == headers by { RenderedHeader(headers, rows); }
    assert Fields(lines[i + 1]) == rows[i] by { RenderedRow(headers, rows, i); }
    ParseCSVAt(text, lines, i, headers, rows[i]);
  }

  /** Record `i` zips line `i + 1` against the fields of the first line. */
  lemma ParseCSVAt(csv: string, lines: seq<string>, i: nat, headers: seq<string>, values: seq<string>)
    requires Lines(csv) == lines && i + 1 < |lines|
    requires Fields(lines[0]) == headers && Fields(lines[i + 1]) == values
    ensures i < |ParseCSV(csv)| && ParseCSV(csv)[i] == ToRecord(headers, values)
  {
    RecordsAt(headers, lines[1..], i);
  }

  /** The header line of a rendered table reads back as the header names. */
  lemma RenderedHeader(headers: seq<string>, rows: seq<seq<string>>)
    requires Renderable(headers)
    ensures Fields(RenderedLines(headers, rows)[0]) == headers
  {
    FieldsJoin(headers);
  }

  /** Line `i + 1` of a rendered table reads back as the cells of row `i`. */
  lemma RenderedRow(headers: seq<string>, rows: seq<seq<string>>, i: nat)
    requires i < |rows| && Renderable(rows[i])
    ensures Fields(RenderedLines(headers, rows)[i + 1]) == rows[i]
  {
    assert RenderedLines(headers, rows)[i + 1] == Join(rows[i], ',') by { JoinRowsAt(rows, i); }
    FieldsJoin(rows[i]);
  }

  /** A line built from renderable cells is non-empty, has no line break, and neither starts
      nor ends with whitespace. */
  lemma JoinLine(cells: seq<string>)
    requires Renderable(cells)
    ensures var line := Join(cells, ',');
      '\n' !in line && line != [] && line[0] !in Whitespace && line[|line| - 1] !in Whitespace
  {
    JoinChars(cells, ',', '\n');
    FirstOfJoin(cells, ',');
    LastOfJoin(cells, ',');
  }

  /** The characters of a join are the separator and the characters of the pieces. */
  lemma {:induction false} JoinChars(parts: seq<string>, sep: char, c: char)
    requires c != sep
    requires forall i :: 0 <= i < |parts| ==> c !in parts[i]
    ensures c !in Join(parts, sep)
  {
    if |parts| > 1 {
      JoinChars(parts[1..], sep, c);
    }
  }

  /** The first character of a join comes from the first piece, or is the separator. */
  lemma FirstOfJoin(parts: seq<string>, sep: char)
    requires |parts| >= 1
    ensures var j := Join(parts, sep);
      if parts[0] == [] then
        (|parts| == 1 ==> j == []) && (|parts| > 1 ==> j != [] && j[0] == sep)
      else j != [] && j[0] == parts[0][0]
  {
  }

  /** The last character of a join comes from the last piece, or is the separator. */
  lemma {:induction false} LastOfJoin(parts: seq<string>, sep: char)
    requires |parts| >= 1
    ensures var j := Join(parts, sep);
      if parts[|parts| - 1] == [] then
        (|parts| == 1 ==> j == []) && (|parts| > 1 ==> j != [] && j[|j| - 1] == sep)
      else j != [] && j[|j| - 1] == parts[|parts| - 1][|parts[|parts| - 1]| - 1]
  {
    if |parts| > 1 {
      LastOfJoin(parts[1..], sep);
    }
  }

  /** A join of non-empty, unpadded lines is itself unpadded. */
  lemma {:induction false} JoinEnds(lines: seq<string>)
    requires |lines| >= 1
    requires forall k :: 0 <= k < |lines| ==> lines[k] != [] && lines[k][0] !in Whitespace && lines[k][|lines[k]| - 1] !in Whitespace
    ensures Unpadded(Join(lines, '\n'))
  {
    LastOfJoin(lines, '\n');
  }

  /** The JavaScript test `x.playeruid`: the key is present, defined and non-empty. */
  predicate HasPlayerUid(r: Record) {
    "playeruid" in r && r["playeruid"].Some? && r["playeruid"].value != ""
  }

  /** `.filter((x: Player) => x.playeruid)`. */
  function KeepPlayers(rows: seq<Record>): (players: seq<Record>)
    ensures IsSubsequence(players, rows)
    ensures forall i :: 0 <= i < |players| ==> HasPlayerUid(players[i])
    ensures forall i :: 0 <= i < |rows| && HasPlayerUid(rows[i]) ==> rows[i] in players
  {
    Filter(rows, HasPlayerUid)
  }

  /** `parsePlayerInfo`: delete every NUL, parse, keep the records with a `playeruid`. A null
      response throws before anything is parsed. */
  function ParsePlayerInfo(data: Option<string>): (r: Result<seq<Record>, ParseError>)
    ensures r.Err? <==> data.None?
    ensures r.Ok? ==> IsSubsequence(r.value, ParseCSV(Remove(data.value, NUL)))
    ensures r.Ok? ==> forall i :: 0 <= i < |r.value| ==> HasPlayerUid(r.value[i])
  {
    match data
    case None => Err(NullResponse)
    case Some(text) => Ok(KeepPlayers(ParseCSV(Remove(text, NUL))))
  }

  /** Neither a key nor a defined value of `rec` contains `c`. */
  predicate Avoids(rec: Record, c: char) {
    forall k :: k in rec ==> c !in k && (rec[k].Some? ==> c !in rec[k].value)
  }

  /** A character absent from the text is absent from every parsed header and field. */
  lemma ParseCSVAvoids(csv: string, c: char)
    requires c !in csv
    ensures forall i :: 0 <= i < |ParseCSV(csv)| ==> Avoids(ParseCSV(csv)[i], c)
  {
    var lines := Lines(csv);
    var headers := Fields(lines[0]);
    assert forall k :: 0 <= k < |lines| ==> c !in lines[k] by { LinesAvoid(csv, c); }
    assert forall j :: 0 <= j < |headers| ==> c !in headers[j] by { FieldsAvoid(lines[0], c); }
    forall i | 0 <= i < |ParseCSV(csv)| ensures Avoids(ParseCSV(csv)[i], c) {
      var values := Fields(lines[i + 1]);
      assert ParseCSV(csv)[i] == ToRecord(headers, values) by { RecordsAt(headers, lines[1..], i); }
      assert forall j :: 0 <= j < |values| ==> c !in values[j] by { FieldsAvoid(lines[i + 1], c); }
      ToRecordAvoids(headers, values, c);
    }
  }

  lemma LinesAvoid(csv: string, c: char)
    requires c !in csv
    ensures forall k :: 0 <= k < |Lines(csv)| ==> c !in Lines(csv)[k]
  {
    TrimChars(csv);
    forall k | 0 <= k < |Lines(csv)| ensures c !in Lines(csv)[k] {
      SplitChars(Trim(csv), '\n', k);
    }
  }

  lemma FieldsAvoid(line: string, c: char)
    requires c !in line
    ensures forall j :: 0 <= j < |Fields(line)| ==> c !in Fields(line)[j]
  {
    forall j | 0 <= j < |Fields(line)| ensures c !in Fields(line)[j] {
      SplitChars(line, ',', j);
      TrimChars(Split(line, ',')[j]);
    }
  }

  /** A record built from headers and fields that avoid `c` avoids `c`. */
  lemma ToRecordAvoids(headers: seq<string>, values: seq<string>, c: char)
    requires forall j :: 0 <= j < |headers| ==> c !in headers[j]
    requires forall j :: 0 <= j < |values| ==> c !in values[j]
    ensures Avoids(ToRecord(headers, values), c)
  {
    var rec := ToRecord(headers, values);
    forall k | k in rec ensures c !in k && (rec[k].Some? ==> c !in rec[k].value) {
      ToRecordKeys(headers, values);
      ToRecordLookup(headers, values, k);
    }
  }

  /** No header or field of `parsePlayerInfo`'s result contains a NUL. */
  lemma PlayerInfoNulFree(text: string)
    ensures var r := ParsePlayerInfo(Some(text));
      r.Ok? && forall i :: 0 <= i < |r.value| ==> Avoids(r.value[i], NUL)
  {
    var rows := ParseCSV(Remove(text, NUL));
    ParseCSVAvoids(Remove(text, NUL), NUL);
    var players := KeepPlayers(rows);
    forall i | 0 <= i < |players| ensures Avoids(players[i], NUL) {
      SubsequenceMember(players, rows, i);
    }
  }

  /** `parsePlayerInfo` keeps exactly the records that have a `playeruid`: each occurs in
      the result as often as in the parse, and any other record not at all. */
  lemma PlayerInfoExactly(text: string, rec: Record)
    ensures var r := ParsePlayerInfo(Some(text));
      var rows := ParseCSV(Remove(text, NUL));
      r.Ok? && Count(r.value, rec) == (if HasPlayerUid(rec) then Count(rows, rec) else 0)
  {
    FilterCount(ParseCSV(Remove(text, NUL)), HasPlayerUid, rec);
  }
}
