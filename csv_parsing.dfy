/**
 * The two field parsers of app.js: `parseCSVLine`, a quote-aware comma splitter
 * (a simplified form of the quoting rules in section 2 of RFC 4180), and
 * `parseListField`, which reads a `|`-separated multi-value cell.
 */
module CsvParsing {
  import opened Wrappers
  import opened Strings
  import opened Sequences

  /**
   * The splitter's state machine, run over the unread rest `s` of a line while
   * the quote flag is `inQuotes` and the field read so far is `current`.
   * A `"` followed by another `"` inside quotes is one literal quote; any other
   * `"` flips the flag; a comma outside quotes ends the field; every other
   * character, a comma inside quotes included, is appended to the field.
   */
  function ScanFields(s: string, inQuotes: bool, current: string): (fields: seq<string>)
    ensures |fields| >= 1
    decreases |s|
  {
    if s == [] then [current]
    else if s[0] == '"' then
      if inQuotes && |s| > 1 && s[1] == '"' then ScanFields(s[2..], inQuotes, current + ['"'])
      else ScanFields(s[1..], !inQuotes, current)
    else if s[0] == ',' && !inQuotes then [current] + ScanFields(s[1..], false, [])
    else ScanFields(s[1..], inQuotes, current + [s[0]])
  }

  /** The fields `parseCSVLine(line)` returns. */
  function CsvFields(line: string): seq<string> {
    ScanFields(line, false, [])
  }

  /** `parseCSVLine`: one pass over the line with a quote flag and a field accumulator. */
  method ParseCsvLine(line: string) returns (result: seq<string>)
    ensures result == CsvFields(line)
  {
    result := [];
    var current := "";
    var inQuotes := false;
    var i := 0;
    while i < |line|
      invariant 0 <= i <= |line|
      invariant result + ScanFields(line[i..], inQuotes, current) == CsvFields(line)
    {
      var c := line[i];
      if c == '"' {
        if inQuotes && i + 1 < |line| && line[i + 1] == '"' {
          assert line[i..][2..] == line[i + 2..];
          current := current + ['"'];
          i := i + 1;
        } else {
          assert line[i..][1..] == line[i + 1..];
          inQuotes := !inQuotes;
        }
      } else if c == ',' && !inQuotes {
        assert line[i..][1..] == line[i + 1..];
        assert result + ScanFields(line[i..], inQuotes, current)
            == (result + [current]) + ScanFields(line[i + 1..], false, []);
        result := result + [current];
        current := "";
      } else {
        assert line[i..][1..] == line[i + 1..];
        current := current + [c];
      }
      i := i + 1;
    }
    result := result + [current];
  }

  /** The number of commas the splitter reads while outside quotes. */
  function CommasOutsideQuotes(s: string, inQuotes: bool): nat
    decreases |s|
  {
    if s == [] then 0
    else if s[0] == '"' then
      if inQuotes && |s| > 1 && s[1] == '"' then CommasOutsideQuotes(s[2..], inQuotes)
      else CommasOutsideQuotes(s[1..], !inQuotes)
    else if s[0] == ',' && !inQuotes then 1 + CommasOutsideQuotes(s[1..], false)
    else CommasOutsideQuotes(s[1..], inQuotes)
  }

  /** There is one field more than there are commas read outside quotes. */
  lemma {:induction false} FieldCount(s: string, inQuotes: bool, current: string)
    ensures |ScanFields(s, inQuotes, current)| == 1 + CommasOutsideQuotes(s, inQuotes)
    decreases |s|
  {
    if s != [] {
      if s[0] == '"' {
        if inQuotes && |s| > 1 && s[1] == '"' {
          FieldCount(s[2..], inQuotes, current + ['"']);
        } else {
          FieldCount(s[1..], !inQuotes, current);
        }
      } else if s[0] == ',' && !inQuotes {
        FieldCount(s[1..], false, []);
      } else {
        FieldCount(s[1..], inQuotes, current + [s[0]]);
      }
    }
  }

  /** A whole line has one field more than it has commas outside quotes, so never none. */
  lemma LineFieldCount(line: string)
    ensures |CsvFields(line)| == 1 + CommasOutsideQuotes(line, false)
  {
    FieldCount(line, false, []);
  }

  /** Without quotes the splitter behaves as a plain `split(',')`, continuing `current`. */
  lemma {:induction false} UnquotedScan(s: string, current: string)
    requires '"' !in s
    ensures var pieces := SplitOn(s, ',');
            ScanFields(s, false, current) == [current + pieces[0]] + pieces[1..]
    decreases |s|
  {
    if s == [] {
      assert current + [] == current;
    } else {
      var rest := SplitOn(s[1..], ',');
      assert s[0] in s;
      if s[0] == ',' {
        UnquotedScan(s[1..], []);
        assert [] + rest[0] == rest[0];
        assert [rest[0]] + rest[1..] == rest;
        assert current + [] == current;
      } else {
        UnquotedScan(s[1..], current + [s[0]]);
        assert current + [s[0]] + rest[0] == current + ([s[0]] + rest[0]);
      }
    }
  }

  /**
   * A line with no `"` splits at every comma: joining its fields with `,` gives
   * the line back, and no field holds a comma.
   */
  lemma UnquotedLineRoundTrip(line: string)
    requires '"' !in line
    ensures CsvFields(line) == SplitOn(line, ',')
    ensures Join(CsvFields(line), ',') == line
    ensures forall f :: f in CsvFields(line) ==> ',' !in f
  {
    UnquotedScan(line, []);
    var pieces := SplitOn(line, ',');
    assert [] + pieces[0] == pieces[0];
    assert [pieces[0]] + pieces[1..] == pieces;
    JoinSplit(line, ',');
  }

  /** The body of a quoted field: every `"` written twice. */
  function Escape(f: string): (e: string)
    ensures |e| >= |f|
    decreases |f|
  {
    if f == [] then []
    else (if f[0] == '"' then "\"\"" else [f[0]]) + Escape(f[1..])
  }

  /** A field written inside quotes. */
  function QuoteField(f: string): string {
    "\"" + Escape(f) + "\""
  }

  /** Inside quotes, an escaped body is read back into the field, commas and doubled quotes included. */
  lemma {:induction false} ScanEscaped(f: string, rest: string, current: string)
    ensures ScanFields(Escape(f) + rest, true, current) == ScanFields(rest, true, current + f)
    decreases |f|
  {
    if f == [] {
      assert Escape(f) + rest == rest;
      assert current + f == current;
    } else {
      ScanEscapedFirst(f, rest, current);
      ScanEscaped(f[1..], rest, current + [f[0]]);
      assert current + [f[0]] + f[1..] == current + f;
    }
  }

  /** Inside quotes the escaped form of a field's first character reads back as that character. */
  lemma ScanEscapedFirst(f: string, rest: string, current: string)
    requires f != []
    ensures ScanFields(Escape(f) + rest, true, current)
            == ScanFields(Escape(f[1..]) + rest, true, current + [f[0]])
  {
    var head := if f[0] == '"' then "\"\"" else [f[0]];
    var tail := Escape(f[1..]) + rest;
    assert Escape(f) == head + Escape(f[1..]);
    AppendAssoc(head, Escape(f[1..]), rest);
    DropPrefix(head, tail);
  }

  /** A quoted field followed by a comma or the end of the line reads back as the field. */
  lemma ScanQuoted(f: string, rest: string, current: string)
    requires rest == [] || rest[0] == ','
    ensures ScanFields(QuoteField(f) + rest, false, current) == ScanFields(rest, false, current + f)
  {
    var s := QuoteField(f) + rest;
    assert s == "\"" + (Escape(f) + ("\"" + rest));
    assert s[1..] == Escape(f) + ("\"" + rest);
    ScanEscaped(f, "\"" + rest, current);
    assert ("\"" + rest)[1..] == rest;
  }

  /** A field with no quote and no comma, followed by a comma or the end, reads back as itself. */
  lemma {:induction false} ScanBare(f: string, rest: string, current: string)
    requires '"' !in f && ',' !in f
    ensures ScanFields(f + rest, false, current) == ScanFields(rest, false, current + f)
    decreases |f|
  {
    if f == [] {
      assert f + rest == rest;
      assert current + f == current;
    } else {
      assert f[0] in f;
      assert (f + rest)[1..] == f[1..] + rest;
      assert forall c :: c in f[1..] ==> c in f;
      ScanBare(f[1..], rest, current + [f[0]]);
      assert current + [f[0]] + f[1..] == current + f;
    }
  }

  /** How a record is written: each field bare or in quotes, separated by commas. */
  function RenderRecord(fields: seq<string>, quoted: seq<bool>): string
    requires |quoted| == |fields|
    decreases |fields|
  {
    if fields == [] then []
    else
      var first := if quoted[0] then QuoteField(fields[0]) else fields[0];
      if |fields| == 1 then first else first + "," + RenderRecord(fields[1..], quoted[1..])
  }

  /** A bare field must hold neither a quote nor a comma; a quoted one may hold anything. */
  predicate Renderable(fields: seq<string>, quoted: seq<bool>) {
    |quoted| == |fields|
    && forall i :: 0 <= i < |fields| && !quoted[i] ==> '"' !in fields[i] && ',' !in fields[i]
  }

  /**
   * Every well-formed line reads back exactly: the splitter returns the fields
   * that were written, literal commas and doubled quotes inside quoted fields included.
   */
  lemma {:induction false} RenderRoundTrip(fields: seq<string>, quoted: seq<bool>)
    requires |fields| >= 1 && Renderable(fields, quoted)
    ensures CsvFields(RenderRecord(fields, quoted)) == fields
    decreases |fields|
  {
    var f := fields[0];
    var rest := if |fields| == 1 then [] else "," + RenderRecord(fields[1..], quoted[1..]);
    assert RenderRecord(fields, quoted) == (if quoted[0] then QuoteField(f) else f) + rest;
    if quoted[0] {
      ScanQuoted(f, rest, []);
    } else {
      ScanBare(f, rest, []);
    }
    AppendEmpty(f);
    if |fields| > 1 {
      RenderableTail(fields, quoted);
      RenderRoundTrip(fields[1..], quoted[1..]);
      TailOfCons(',', RenderRecord(fields[1..], quoted[1..]));
      HeadTail(fields);
    }
  }

  /** Dropping the first field of a renderable record leaves a renderable record. */
  lemma RenderableTail(fields: seq<string>, quoted: seq<bool>)
    requires |fields| >= 1 && Renderable(fields, quoted)
    ensures Renderable(fields[1..], quoted[1..])
  {
    forall i | 0 <= i < |fields| - 1 && !quoted[1..][i]
      ensures '"' !in fields[1..][i] && ',' !in fields[1..][i]
    {
      assert fields[1..][i] == fields[i + 1];
    }
  }

  /** A comma inside quotes stays in its field: `"X,Y",Z` reads as the two fields `X,Y` and `Z`. */
  lemma QuotedCommaExample()
    ensures CsvFields("\"X,Y\",Z") == ["X,Y", "Z"]
  {
    QuotedCommaRecord();
    RenderRoundTrip(["X,Y", "Z"], [true, false]);
  }

  /** `"X,Y",Z` is the record of a quoted `X,Y` and a bare `Z`. */
  lemma QuotedCommaRecord()
    ensures Renderable(["X,Y", "Z"], [true, false])
    ensures RenderRecord(["X,Y", "Z"], [true, false]) == "\"X,Y\",Z"
  {
    var fields, quoted := ["X,Y", "Z"], [true, false];
    EscapeUnquoted("X,Y");
    assert QuoteField("X,Y") == "\"X,Y\"";
    assert RenderRecord(fields[1..], quoted[1..]) == "Z";
    assert RenderRecord(fields, quoted) == "\"X,Y\"" + "," + "Z" == "\"X,Y\",Z";
  }

  /** An unbalanced opening quote makes the rest of the line, commas included, one field. */
  lemma UnbalancedQuote(s: string)
    requires '"' !in s
    ensures CsvFields("\"" + s) == [s]
  {
    EscapeUnquoted(s);
    TailOfCons('"', s);
    ScanEscaped(s, [], []);
    AppendEmpty(s);
  }

  /** Escaping leaves a quote-free string alone. */
  lemma {:induction false} EscapeUnquoted(s: string)
    requires '"' !in s
    ensures Escape(s) == s
    decreases |s|
  {
    if s != [] {
      assert s[0] in s;
      assert forall c :: c in s[1..] ==> c in s;
      EscapeUnquoted(s[1..]);
      assert [s[0]] + s[1..] == s;
    }
  }

  /** An item a list cell can yield: non-empty, trimmed and free of the `|` separator. */
  predicate CleanItem(item: string) {
    item != "" && IsTrimmed(item) && '|' !in item
  }

  /** `pieces.map(item => item.trim()).filter(item => item !== '')`. */
  function TrimAndDropEmpty(pieces: seq<string>): (items: seq<string>)
    requires forall p :: p in pieces ==> '|' !in p
    ensures |items| <= |pieces|
    ensures forall item :: item in items ==> CleanItem(item)
    decreases |pieces|
  {
    if pieces == [] then []
    else
      var t := Trim(pieces[0]);
      var first := if t == [] then [] else [t];
      assert forall item :: item in first ==> CleanItem(item);
      first + TrimAndDropEmpty(pieces[1..])
  }

  /**
   * The map-and-filter keeps exactly the non-blank trims of the pieces: every
   * piece whose trim is non-empty contributes that trim, and nothing else appears.
   */
  lemma {:induction false} TrimAndDropEmptyItems(pieces: seq<string>)
    requires forall p :: p in pieces ==> '|' !in p
    ensures forall item :: item in TrimAndDropEmpty(pieces) <==> item != "" && exists p :: p in pieces && Trim(p) == item
    decreases |pieces|
  {
    if pieces != [] {
      var tail := pieces[1..];
      var t := Trim(pieces[0]);
      var first := if t == [] then [] else [t];
      var rest := TrimAndDropEmpty(tail);
      assert forall p :: p in tail ==> p in pieces;
      TrimAndDropEmptyItems(tail);
      assert TrimAndDropEmpty(pieces) == first + rest;
      forall p | p in pieces && Trim(p) != "" ensures Trim(p) in first + rest {
        HeadTail(pieces);
        if p != pieces[0] {
          assert p in tail;
        }
      }
      forall item | item in first + rest ensures exists p :: p in pieces && Trim(p) == item {
        if item in first {
          assert Trim(pieces[0]) == item;
        } else {
          var p :| p in tail && Trim(p) == item;
          assert p in pieces;
        }
      }
    }
  }

  /**
   * `parseListField`: the non-empty trimmed pieces of a `|`-separated cell, and
   * nothing for an empty or absent (`None`) cell.
   */
  function ParseListField(field: Option<string>): (items: seq<string>)
    ensures field.None? || |field.value| == 0 ==> items == []
    ensures forall item :: item in items ==> CleanItem(item)
  {
    match field
    case None => []
    case Some(s) => if s == "" then [] else TrimAndDropEmpty(SplitOn(s, '|'))
  }

  /** A non-empty cell yields exactly the non-blank trims of its `|`-separated pieces. */
  lemma ListFieldItems(cell: string)
    requires cell != ""
    ensures forall item :: item in ParseListField(Some(cell)) <==>
              item != "" && exists p :: p in SplitOn(cell, '|') && Trim(p) == item
  {
    TrimAndDropEmptyItems(SplitOn(cell, '|'));
  }

  /** The cell `a | b|c` splits into `a `, ` b` and `c`: `split` keeps the spaces around the separator. */
  lemma ListCellPieces()
    ensures SplitOn("a | b|c", '|') == ["a ", " b", "c"]
  {
    var pieces := ["a ", " b", "c"];
    assert Join(pieces, '|') == "a | b|c";
    SplitJoin(pieces, '|');
  }

  /** `pieces.map(item => item.trim())`: the map stage alone. */
  function TrimEach(pieces: seq<string>): (trimmed: seq<string>)
    ensures |trimmed| == |pieces|
    decreases |pieces|
  {
    if pieces == [] then [] else [Trim(pieces[0])] + TrimEach(pieces[1..])
  }

  /**
   * When no piece is blank the filter drops nothing: the items are the trims
   * of the pieces, in order (so `a | b|c` lists `a`, `b` and `c`).
   */
  lemma {:induction false} NoneDropped(pieces: seq<string>)
    requires forall p :: p in pieces ==> '|' !in p
    requires forall p :: p in pieces ==> Trim(p) != []
    ensures TrimAndDropEmpty(pieces) == TrimEach(pieces)
    decreases |pieces|
  {
    if pieces != [] {
      var tail := pieces[1..];
      assert forall p :: p in tail ==> p in pieces;
      assert pieces[0] in pieces;
      NoneDropped(tail);
    }
  }

  /** Clean items pass the map-and-filter unchanged. */
  lemma {:induction false} CleanItemsKept(items: seq<string>)
    requires forall item :: item in items ==> item != "" && IsTrimmed(item) && '|' !in item
    ensures TrimAndDropEmpty(items) == items
    decreases |items|
  {
    if items != [] {
      var head, tail := items[0], items[1..];
      assert head in items;
      assert Trim(head) == head;
      assert forall item :: item in tail ==> item in items;
      CleanItemsKept(tail);
      HeadTail(items);
    }
  }

  /**
   * Writing clean items joined by `|` and parsing the cell gives the items back;
   * the empty list is written as the empty cell.
   */
  lemma ListFieldRoundTrip(items: seq<string>)
    requires forall item :: item in items ==> item != "" && IsTrimmed(item) && '|' !in item
    ensures ParseListField(Some(Join(items, '|'))) == items
  {
    if items != [] {
      SplitJoin(items, '|');
      CleanItemsKept(items);
    }
  }

}
