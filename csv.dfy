/**
 * The CSV side of the exporter: `fromCSV` reads one record per line of four
 * comma-separated, optionally quoted fields, and `toCSV` writes every record
 * as four quoted fields, lines separated by a newline.
 */
module Csv {
  import opened Wrappers
  import opened Errors
  import opened PhpStrings
  import opened PhpArrays
  import opened Geo

  /** A field wrapped in the CSV enclosure character. */
  function Enclose(s: string): (r: string)
    ensures |r| == |s| + 2 && r[0] == '"' && r[|r| - 1] == '"' && r[1..|r| - 1] == s
  {
    "\"" + s + "\""
  }

  /**
   * The escape character `str_getcsv` uses when none is given, the backslash;
   * None is the empty escape argument, which turns escaping off.
   */
  const Backslash: Option<char> := Some('\\')

  /** C's `isspace`: space, tab, newline, vertical tab, form feed, carriage return. */
  predicate IsSpace(c: char) { c == ' ' || '\t' <= c <= '\r' }

  /** `str_getcsv` first removes one trailing "\r\n", "\n" or "\r"; so does it from an unquoted field. */
  function DropLineEnd(s: string): (r: string)
    ensures |r| <= |s| && r == s[..|r|]
  {
    if |s| >= 2 && s[|s| - 2] == '\r' && s[|s| - 1] == '\n' then s[..|s| - 2]
    else if |s| >= 1 && (s[|s| - 1] == '\n' || s[|s| - 1] == '\r') then s[..|s| - 1]
    else s
  }

  /** What DropLineEnd removes is one of "\n", "\r" and "\r\n", and nothing when the line has no line end. */
  lemma DropLineEndCases(s: string)
    ensures var r := DropLineEnd(s);
      r == s || s[|r|..] == "\n" || s[|r|..] == "\r" || s[|r|..] == "\r\n"
    ensures s != [] && s[|s| - 1] != '\n' && s[|s| - 1] != '\r' ==> DropLineEnd(s) == s
    ensures |s| >= 2 && s[|s| - 2..] == "\r\n" ==> DropLineEnd(s) == s[..|s| - 2]
    ensures s != [] && (s[|s| - 1] == '\n' || s[|s| - 1] == '\r') && !(|s| >= 2 && s[|s| - 2..] == "\r\n")
            ==> DropLineEnd(s) == s[..|s| - 1]
  {
    if |s| >= 2 && s[|s| - 2..] == "\r\n" {
      assert s[|s| - 2] == s[|s| - 2..][0];
    }
  }

  /** The white space before the next delimiter, which `str_getcsv` looks past for an opening quote. */
  function SpacesBefore(t: string, delim: char): (k: nat)
    ensures k <= |t|
    ensures k < |t| ==> !IsSpace(t[k]) || t[k] == delim
  {
    if t != [] && t[0] != delim && IsSpace(t[0]) then 1 + SpacesBefore(t[1..], delim) else 0
  }

  /** Everything SpacesBefore looks past is white space other than the delimiter. */
  lemma {:induction false} SpacesSkipped(t: string, delim: char)
    ensures forall i :: 0 <= i < SpacesBefore(t, delim) ==> IsSpace(t[i]) && t[i] != delim
  {
    if t != [] && t[0] != delim && IsSpace(t[0]) {
      SpacesSkipped(t[1..], delim);
      forall i | 1 <= i < SpacesBefore(t, delim)
        ensures IsSpace(t[i]) && t[i] != delim
      {
        assert t[i] == t[1..][i - 1];
      }
    }
  }

  /** The index of the first `c` in `s`, or `|s|` when there is none. */
  function IndexOf(s: string, c: char): (j: nat)
    ensures j <= |s| && (j < |s| ==> s[j] == c)
    ensures forall i :: 0 <= i < j ==> s[i] != c
  {
    if s == [] || s[0] == c then 0 else 1 + IndexOf(s[1..], c)
  }

  /**
   * The body of a quoted field, read from just after its opening quote: a
   * doubled quote stands for one quote; the escape character keeps itself and
   * the character after it, even a quote; a single quote closes the field.
   * The second component is what follows the closing quote, the third whether
   * there is one; the second is empty when the quote is never closed.
   */
  function Quoted(u: string, esc: Option<char>): (r: (string, string, bool))
    ensures |r.1| <= |u|
    ensures !r.2 ==> r.1 == []
  {
    if u == [] then ("", [], false)
    else if u[0] == '"' then
      if |u| >= 2 && u[1] == '"' then
        var q := Quoted(u[2..], esc);
        ("\"" + q.0, q.1, q.2)
      else ("", u[1..], true)
    else if esc == Some(u[0]) && |u| >= 2 then
      var q := Quoted(u[2..], esc);
      ([u[0], u[1]] + q.0, q.1, q.2)
    else
      var q := Quoted(u[1..], esc);
      ([u[0]] + q.0, q.1, q.2)
  }

  /** One field read: its text, the text after it, and whether a delimiter ended it. */
  datatype Scan = Scan(field: string, rest: string, more: bool)

  /**
   * One field of `str_getcsv`, `lineEnd` being the line end taken off the
   * whole text. A field that opens with a quote (after white space) is read
   * by Quoted, and whatever follows the closing quote up to the delimiter is
   * kept as it is; when the quote is never closed, the line end is put back
   * at the end of the field. Any other field runs to the delimiter and loses
   * a trailing line end.
   */
  function ScanField(t: string, lineEnd: string, delim: char, esc: Option<char>): (r: Scan)
    ensures r.more ==> |r.rest| < |t|
  {
    var k := SpacesBefore(t, delim);
    if k < |t| && t[k] == '"' then QuotedScan(Quoted(t[k + 1..], esc), lineEnd, delim) else BareScan(t, delim)
  }

  /** A quoted field from what Quoted read: the text after the closing quote is kept up to the delimiter. */
  function QuotedScan(q: (string, string, bool), lineEnd: string, delim: char): (r: Scan)
    ensures r.more ==> |r.rest| < |q.1|
  {
    var j := IndexOf(q.1, delim);
    if j < |q.1| then Scan(q.0 + q.1[..j], q.1[j + 1..], true)
    else if q.2 then Scan(q.0 + q.1, [], false)
    else Scan(q.0 + lineEnd, [], false)
  }

  /** An unquoted field: it runs to the delimiter and loses a trailing line end. */
  function BareScan(t: string, delim: char): (r: Scan)
    ensures r.more ==> |r.rest| < |t|
  {
    var j := IndexOf(t, delim);
    if j < |t| then Scan(DropLineEnd(t[..j]), t[j + 1..], true)
    else Scan(DropLineEnd(t), [], false)
  }

  /** The fields of a line: a field, and another after each delimiter, a trailing one included. */
  function ParseFields(t: string, lineEnd: string, delim: char, esc: Option<char>): (fs: seq<string>)
    ensures |fs| > 0
    decreases |t|
  {
    var r := ScanField(t, lineEnd, delim, esc);
    if r.more then [r.field] + ParseFields(r.rest, lineEnd, delim, esc) else [r.field]
  }

  /** The line end `str_getcsv` takes off the end of `s`: "\r\n", "\n", "\r" or nothing. */
  function LineEnd(s: string): string
  {
    s[|DropLineEnd(s)|..]
  }

  /**
   * `str_getcsv($s, $delim, '"', $esc)`. The NULL that PHP gives for an
   * empty line is the one empty field here; both count as one field.
   */
  function GetCsv(s: string, delim: char, esc: Option<char>): (fs: seq<string>)
    ensures |fs| > 0
  {
    ParseFields(DropLineEnd(s), LineEnd(s), delim, esc)
  }

  /** `str_getcsv($contents, "\n")`: the rows of a file. */
  function CsvLines(contents: string, esc: Option<char>): seq<string>
  {
    GetCsv(contents, '\n', esc)
  }

  /** `str_getcsv($row)`: the fields of one row. */
  function Fields(line: string, esc: Option<char>): seq<string>
  {
    GetCsv(line, ',', esc)
  }

  /** The universal item a row yields, or nothing when it does not hold exactly four fields. */
  function Row(line: string, esc: Option<char>): (r: Option<Value>)
    ensures r.Some? <==> |Fields(line, esc)| == 4
    ensures r.Some? ==> r.value == UniversalItem(Fields(line, esc)[0], Fields(line, esc)[1],
                                                 Fields(line, esc)[2], Fields(line, esc)[3])
  {
    var fs := Fields(line, esc);
    if |fs| == 4 then Some(UniversalItem(fs[0], fs[1], fs[2], fs[3])) else None
  }

  /** What each line yields, one entry per line. */
  function Parsed(lines: seq<string>, esc: Option<char>): (ps: seq<Option<Value>>)
    ensures |ps| == |lines| && forall i :: 0 <= i < |lines| ==> ps[i] == Row(lines[i], esc)
  {
    seq(|lines|, i requires 0 <= i < |lines| => Row(lines[i], esc))
  }

  /** The items kept from the lines' results, in order: `$result[] = ...` for each four-field line. */
  function Collect(ps: seq<Option<Value>>): (rows: seq<Value>)
    ensures |rows| <= |ps|
  {
    if ps == [] then []
    else
      var prefix := Collect(ps[..|ps| - 1]);
      match ps[|ps| - 1]
      case Some(item) => prefix + [item]
      case None => prefix
  }

  /** The items `fromCSV` collects from its lines. */
  function Rows(lines: seq<string>, esc: Option<char>): seq<Value>
  {
    Collect(Parsed(lines, esc))
  }

  /** Collecting over two batches of lines is collecting over each in turn. */
  lemma {:induction false} CollectAppend(a: seq<Option<Value>>, b: seq<Option<Value>>)
    ensures Collect(a + b) == Collect(a) + Collect(b)
    decreases |b|
  {
    if b == [] {
      assert a + b == a;
    } else {
      var n := |b| - 1;
      CollectAppend(a, b[..n]);
      assert (a + b)[..|a + b| - 1] == a + b[..n];
      assert (a + b)[|a + b| - 1] == b[n];
    }
  }

  /** When every line holds four fields, each yields one item, in order. */
  lemma {:induction false} CollectAll(ps: seq<Option<Value>>)
    requires forall i :: 0 <= i < |ps| ==> ps[i].Some?
    ensures |Collect(ps)| == |ps|
    ensures forall i :: 0 <= i < |ps| ==> Collect(ps)[i] == ps[i].value
  {
    if ps != [] {
      var n := |ps| - 1;
      CollectAll(ps[..n]);
    }
  }

  /** Lines without four fields contribute nothing. */
  lemma {:induction false} CollectNone(ps: seq<Option<Value>>)
    requires forall i :: 0 <= i < |ps| ==> ps[i].None?
    ensures Collect(ps) == []
  {
    if ps != [] {
      CollectNone(ps[..|ps| - 1]);
    }
  }

  /** One more line: its item is appended exactly when it holds four fields. */
  lemma RowsSnoc(lines: seq<string>, line: string, esc: Option<char>)
    ensures Rows(lines + [line], esc) ==
              Rows(lines, esc) + (if |Fields(line, esc)| == 4 then [Row(line, esc).value] else [])
  {
    var r := Row(line, esc);
    CollectLast(Parsed(lines + [line], esc), Parsed(lines, esc), r);
  }

  /** Collecting a batch with one more result after the others. */
  lemma CollectLast(ps: seq<Option<Value>>, prefix: seq<Option<Value>>, r: Option<Value>)
    requires ps == prefix + [r]
    ensures Collect(ps) == Collect(prefix) + (if r.Some? then [r.value] else [])
  {
    assert ps[..|prefix|] == prefix;
  }

  /** The loop of `fromCSV` over the rows of the file, `str_getcsv` called with escape `esc`. */
  method ParseRows(contents: string, esc: Option<char>) returns (rows: seq<Value>)
    ensures rows == Rows(CsvLines(contents, esc), esc)
  {
    var lines := CsvLines(contents, esc);
    ghost var ps := Parsed(lines, esc);
    rows := [];
    for i := 0 to |lines|
      invariant rows == Collect(ps[..i])
    {
      var r := Row(lines[i], esc);
      assert r == ps[i];
      CollectStep(ps, i);
      if r.Some? {
        rows := rows + [r.value];
      }
    }
    assert ps[..|lines|] == ps;
  }

  /** Collecting one more result: its item is appended when there is one. */
  lemma CollectStep(ps: seq<Option<Value>>, i: nat)
    requires i < |ps|
    ensures Collect(ps[..i + 1]) == Collect(ps[..i]) + (if ps[i].Some? then [ps[i].value] else [])
  {
    assert ps[..i + 1][..i] == ps[..i];
  }

  /** `fromCSV` as written: both `str_getcsv` calls use the default escape, the backslash. */
  function FromCsvAsWritten(contents: string): Result<seq<Option<GeoRange>>, Error>
  {
    FromUniversal(List(Rows(CsvLines(contents, Backslash), Backslash)))
  }

  /** `fromCSV` with escaping turned off (an empty escape argument), so a backslash is an ordinary character. */
  function FromCsv(contents: string): Result<seq<Option<GeoRange>>, Error>
  {
    FromUniversal(List(Rows(CsvLines(contents, None), None)))
  }

  /** One written line: the four fields of a universal item, each quoted. */
  function Line(item: Value): (line: string)
    ensures |line| > 0 && line[0] == '"' && line[|line| - 1] == '"'
  {
    Enclose(Text(At(item, StartIpKey))) + "," + Enclose(Text(At(item, EndIpKey))) + ","
      + Enclose(Text(At(item, CountryCodeKey))) + "," + Enclose(Text(At(item, CountryNameKey)))
  }

  function Lines(items: seq<Value>): (lines: seq<string>)
    ensures |lines| == |items| && forall i :: 0 <= i < |items| ==> lines[i] == Line(items[i])
  {
    seq(|items|, i requires 0 <= i < |items| => Line(items[i]))
  }

  /** The text `toCSV` accumulates from its lines: each one preceded by a newline unless the text is still empty. */
  function Accumulated(lines: seq<string>): string
  {
    if lines == [] then ""
    else
      var prefix := Accumulated(lines[..|lines| - 1]);
      (if prefix != "" then prefix + "\n" else prefix) + lines[|lines| - 1]
  }

  /** What `toCSV` writes for the items. */
  function CsvText(items: seq<Value>): string
  {
    Accumulated(Lines(items))
  }

  /** With non-empty lines, the accumulated text is the lines joined by newlines. */
  lemma {:induction false} AccumulatedIsJoin(lines: seq<string>)
    requires lines != [] && forall i :: 0 <= i < |lines| ==> lines[i] != ""
    ensures Accumulated(lines) == Join(lines, '\n')
  {
    var n := |lines| - 1;
    if n == 0 {
      assert Accumulated(lines[..0]) == "";
    } else {
      AccumulatedIsJoin(lines[..n]);
      assert lines[..n] + [lines[n]] == lines;
      JoinSnoc(lines[..n], lines[n], '\n');
      JoinNonEmpty(lines[..n], '\n');
    }
  }

  lemma JoinNonEmpty(parts: seq<string>, sep: char)
    requires |parts| > 0 && parts[0] != ""
    ensures Join(parts, sep) != ""
  {
  }

  lemma AccumulatedStep(lines: seq<string>, i: nat)
    requires i < |lines|
    ensures Accumulated(lines[..i + 1]) ==
              (if Accumulated(lines[..i]) != "" then Accumulated(lines[..i]) + "\n" else "") + lines[i]
  {
    assert lines[..i + 1][..i] == lines[..i];
  }

  /** An empty collection is written as the empty text, any other as its lines joined by single newlines. */
  lemma CsvTextIsJoin(items: seq<Value>)
    ensures items == [] ==> CsvText(items) == ""
    ensures items != [] ==> CsvText(items) == Join(Lines(items), '\n')
  {
    if items != [] {
      AccumulatedIsJoin(Lines(items));
    }
  }

  /** The loop of `toCSV`. */
  method WriteText(items: seq<Value>) returns (result: string)
    ensures result == CsvText(items)
  {
    ghost var lines := Lines(items);
    result := "";
    for i := 0 to |items|
      invariant result == Accumulated(lines[..i])
    {
      var line := Line(items[i]);
      AccumulatedStep(lines, i);
      if result != "" {
        result := result + "\n";
      }
      result := result + line;
    }
    assert lines[..|items|] == lines;
  }


  /** Rows without four fields, wherever they are appended, change nothing that is read. */
  lemma RowsSkipMalformed(lines: seq<string>, junk: seq<string>, esc: Option<char>)
    requires forall j :: 0 <= j < |junk| ==> |Fields(junk[j], esc)| != 4
    ensures Rows(lines + junk, esc) == Rows(lines, esc)
  {
    assert Parsed(lines + junk, esc) == Parsed(lines, esc) + Parsed(junk, esc);
    CollectAppend(Parsed(lines, esc), Parsed(junk, esc));
    CollectNone(Parsed(junk, esc));
  }

  /** An empty file holds one empty row, which yields nothing. */
  lemma EmptyTextReadsNothing(esc: Option<char>)
    ensures CsvLines("", esc) == [""]
    ensures Rows(CsvLines("", esc), esc) == []
  {
    assert Fields("", esc) == [""];
    assert Parsed([""], esc) == [None];
  }

  /** Whether the field at the start of `t` opens with a quote that is never closed. */
  predicate OpensUnclosed(t: string, delim: char, esc: Option<char>)
  {
    var k := SpacesBefore(t, delim);
    k < |t| && t[k] == '"' && !Quoted(t[k + 1..], esc).2
  }

  /** Whether the last field of `t` opens with a quote that is never closed. */
  predicate EndsOpen(t: string, delim: char, esc: Option<char>)
    decreases |t|
  {
    var r := ScanField(t, [], delim, esc);
    if r.more then EndsOpen(r.rest, delim, esc) else OpensUnclosed(t, delim, esc)
  }

  /** The line end changes one field read only when its quote is never closed, and then only at its end. */
  lemma ScanLineEnd(t: string, lineEnd: string, delim: char, esc: Option<char>)
    ensures OpensUnclosed(t, delim, esc) ==> !ScanField(t, [], delim, esc).more
    ensures var r := ScanField(t, [], delim, esc);
      ScanField(t, lineEnd, delim, esc) ==
        if OpensUnclosed(t, delim, esc) then Scan(r.field + lineEnd, [], false) else r
  {
    var k := SpacesBefore(t, delim);
    if OpensUnclosed(t, delim, esc) {
      var q := Quoted(t[k + 1..], esc);
      assert q.0 + [] == q.0;
    }
  }

  /**
   * The line end taken off a text reaches its fields only through a last
   * field whose quote is never closed, at whose end it is put back.
   */
  lemma {:induction false} LineEndKept(t: string, lineEnd: string, delim: char, esc: Option<char>)
    ensures var fs := ParseFields(t, [], delim, esc);
      ParseFields(t, lineEnd, delim, esc) ==
        if EndsOpen(t, delim, esc) then ExtendLast(fs, lineEnd) else fs
    decreases |t|
  {
    var r := ScanField(t, [], delim, esc);
    if r.more {
      LineEndKept(r.rest, lineEnd, delim, esc);
      LineEndMore(t, lineEnd, delim, esc);
    } else {
      LineEndLast(t, lineEnd, delim, esc);
    }
  }

  lemma LineEndMore(t: string, lineEnd: string, delim: char, esc: Option<char>)
    requires ScanField(t, [], delim, esc).more
    requires var r := ScanField(t, [], delim, esc); var gs := ParseFields(r.rest, [], delim, esc);
      ParseFields(r.rest, lineEnd, delim, esc) == if EndsOpen(r.rest, delim, esc) then ExtendLast(gs, lineEnd) else gs
    ensures var fs := ParseFields(t, [], delim, esc);
      ParseFields(t, lineEnd, delim, esc) == if EndsOpen(t, delim, esc) then ExtendLast(fs, lineEnd) else fs
  {
    var r := ScanField(t, [], delim, esc);
    var gs := ParseFields(r.rest, [], delim, esc);
    var hs := ParseFields(r.rest, lineEnd, delim, esc);
    assert ParseFields(t, [], delim, esc) == [r.field] + gs by {
      ParseMore(t, [], delim, esc, r.field, r.rest);
    }
    assert ParseFields(t, lineEnd, delim, esc) == [r.field] + hs by {
      ScanLineEnd(t, lineEnd, delim, esc);
      ParseMore(t, lineEnd, delim, esc, r.field, r.rest);
    }
    assert EndsOpen(t, delim, esc) == EndsOpen(r.rest, delim, esc);
    ConsLast(r.field, gs, lineEnd);
  }

  /** The fields with `e` put back at the end of the last one. */
  function ExtendLast(fs: seq<string>, e: string): seq<string>
    requires fs != []
  {
    fs[..|fs| - 1] + [fs[|fs| - 1] + e]
  }

  /** Putting a field in front commutes with extending the last one. */
  lemma ConsLast(f: string, gs: seq<string>, e: string)
    requires gs != []
    ensures [f] + ExtendLast(gs, e) == ExtendLast([f] + gs, e)
  {
    var fs := [f] + gs;
    assert fs[..|fs| - 1] == [f] + gs[..|gs| - 1];
  }

  lemma LineEndLast(t: string, lineEnd: string, delim: char, esc: Option<char>)
    requires !ScanField(t, [], delim, esc).more
    ensures var fs := ParseFields(t, [], delim, esc);
      ParseFields(t, lineEnd, delim, esc) ==
        if EndsOpen(t, delim, esc) then ExtendLast(fs, lineEnd) else fs
  {
    var r := ScanField(t, [], delim, esc);
    var fs := ParseFields(t, [], delim, esc);
    assert fs == [r.field] by {
      ParseLast(t, [], delim, esc, r.field);
    }
    assert EndsOpen(t, delim, esc) == OpensUnclosed(t, delim, esc);
    if OpensUnclosed(t, delim, esc) {
      assert ParseFields(t, lineEnd, delim, esc) == [r.field + lineEnd] by {
        ScanLineEnd(t, lineEnd, delim, esc);
        ParseLast(t, lineEnd, delim, esc, r.field + lineEnd);
      }
      assert ExtendLast(fs, lineEnd) == [r.field + lineEnd];
    } else {
      assert ParseFields(t, lineEnd, delim, esc) == [r.field] by {
        ScanLineEnd(t, lineEnd, delim, esc);
        ParseLast(t, lineEnd, delim, esc, r.field);
      }
    }
  }

  /**
   * A row ending in a carriage return has the same fields as the row without
   * it, unless its last field opens with a quote that is never closed: that
   * field keeps the "\r". In a file with "\r\n" line ends, a row whose first
   * field is quoted, as `toCSV` writes it, keeps its "\r" through the outer
   * split on "\n" (all but the last row); a row whose first field is not
   * quoted has already lost it there.
   */
  lemma CarriageReturnDropped(line: string, esc: Option<char>)
    requires line != [] && line[|line| - 1] != '\n' && line[|line| - 1] != '\r'
    ensures var fs := Fields(line, esc);
      Fields(line + "\r", esc) == if EndsOpen(line, ',', esc) then ExtendLast(fs, "\r") else fs
    ensures !EndsOpen(line, ',', esc) ==> Row(line + "\r", esc) == Row(line, esc)
  {
    CarriageReturnFields(line, esc);
    if !EndsOpen(line, ',', esc) {
      SameFieldsSameRow(line + "\r", line, esc);
    }
  }

  lemma CarriageReturnFields(line: string, esc: Option<char>)
    requires line != [] && line[|line| - 1] != '\n' && line[|line| - 1] != '\r'
    ensures var fs := Fields(line, esc);
      Fields(line + "\r", esc) == if EndsOpen(line, ',', esc) then ExtendLast(fs, "\r") else fs
  {
    CarriageReturnEnd(line);
    FieldsOfBody(line + "\r", line, "\r", esc);
    FieldsOfBody(line, line, [], esc);
    LineEndKept(line, "\r", ',', esc);
  }

  /** `str_getcsv` of a row reads the row's body with its line end set aside. */
  lemma FieldsOfBody(s: string, body: string, e: string, esc: Option<char>)
    requires DropLineEnd(s) == body && LineEnd(s) == e
    ensures Fields(s, esc) == ParseFields(body, e, ',', esc)
  {
  }

  lemma SameFieldsSameRow(x: string, y: string, esc: Option<char>)
    requires Fields(x, esc) == Fields(y, esc)
    ensures Row(x, esc) == Row(y, esc)
  {
  }

  /** A carriage return after a line that does not already end a line is its line end. */
  lemma CarriageReturnEnd(line: string)
    requires line != [] && line[|line| - 1] != '\n' && line[|line| - 1] != '\r'
    ensures DropLineEnd(line + "\r") == line && LineEnd(line + "\r") == "\r"
  {
    var t := line + "\r";
    assert t[|t| - 1] == '\r' && t[|t| - 2] == line[|line| - 1];
    assert t[..|t| - 1] == line;
  }

  /** A quote that is never closed: the field runs to the end and keeps the line end, `"A\r` reading as `A\r`. */
  lemma UnclosedQuoteKeepsLineEnd(s: string, esc: Option<char>)
    requires QuoteFree(s, esc)
    ensures Fields("\"" + s + "\r", esc) == [s + "\r"]
    ensures Row("\"" + s + "\r", esc) == None
  {
    var t := "\"" + s + "\r";
    assert t[..|t| - 1] == "\"" + s;
    assert DropLineEnd(t) == "\"" + s && LineEnd(t) == "\r";
    QuotedUnclosed(s, esc);
    OpenQuote(s, "\r", ',', esc);
    ParseLast("\"" + s, "\r", ',', esc, s + "\r");
  }

  /** Text read back from between quotes: no quote and no escape character. */
  predicate QuoteFree(s: string, esc: Option<char>)
  {
    '"' !in s && (esc.Some? ==> esc.value !in s)
  }

  /** A code or name `toCSV` and `fromCSV` carry unchanged: quote-free and without a newline. */
  predicate Safe(s: string, esc: Option<char>)
  {
    QuoteFree(s, esc) && '\n' !in s
  }

  /** The escape characters the readers use: the backslash as written, none once corrected. */
  predicate KnownEscape(esc: Option<char>)
  {
    esc == None || esc == Backslash
  }

  lemma DigitsQuoteFree(s: string, esc: Option<char>)
    requires IsDigits(s) && KnownEscape(esc)
    ensures Safe(s, esc) && ',' !in s && '\r' !in s
  {
    DigitsExclude(s, '"');
    DigitsExclude(s, '\\');
    DigitsExclude(s, ',');
    DigitsExclude(s, '\n');
    DigitsExclude(s, '\r');
  }

  lemma {:induction false} IndexOfAfter(s: string, c: char, x: string)
    requires c !in s
    ensures IndexOf(s + [c] + x, c) == |s|
    ensures IndexOf(s, c) == |s|
  {
    if s != [] {
      assert (s + [c] + x)[1..] == s[1..] + [c] + x;
      IndexOfAfter(s[1..], c, x);
    }
  }

  /** A quote-free body, then a single quote: the body is read and the quote closes the field. */
  lemma {:induction false} QuotedBody(s: string, tail: string, esc: Option<char>)
    requires QuoteFree(s, esc) && (tail == [] || tail[0] != '"')
    ensures Quoted(s + "\"" + tail, esc) == (s, tail, true)
  {
    var u := s + "\"" + tail;
    if s == [] {
      assert u == "\"" + tail && u[1..] == tail;
    } else {
      assert u[0] == s[0] && u[1..] == s[1..] + "\"" + tail;
      QuotedBody(s[1..], tail, esc);
      assert [s[0]] + s[1..] == s;
    }
  }

  /** A quote-free body that runs to the end: the quote is never closed. */
  lemma {:induction false} QuotedUnclosed(s: string, esc: Option<char>)
    requires QuoteFree(s, esc)
    ensures Quoted(s, esc) == (s, [], false)
  {
    if s != [] {
      QuotedUnclosed(s[1..], esc);
      assert [s[0]] + s[1..] == s;
    }
  }

  /**
   * A quoted quote-free field is read as its text, followed by whatever
   * comes after the closing quote up to the delimiter.
   */
  lemma EnclosedField(s: string, tail: string, lineEnd: string, delim: char, esc: Option<char>)
    requires QuoteFree(s, esc) && (tail == [] || tail[0] != '"')
    ensures var j := IndexOf(tail, delim);
      ScanField(Enclose(s) + tail, lineEnd, delim, esc) ==
        if j < |tail| then Scan(s + tail[..j], tail[j + 1..], true) else Scan(s + tail, [], false)
  {
    var t := Enclose(s) + tail;
    assert t[0] == '"' && SpacesBefore(t, delim) == 0;
    assert t[1..] == s + "\"" + tail;
    QuotedBody(s, tail, esc);
  }

  /** A quoted field followed by the delimiter. */
  lemma EnclosedThenDelimiter(s: string, lineEnd: string, delim: char, rest: string, esc: Option<char>)
    requires QuoteFree(s, esc) && delim != '"'
    ensures ScanField(Enclose(s) + [delim] + rest, lineEnd, delim, esc) == Scan(s, rest, true)
  {
    EnclosedField(s, [delim] + rest, lineEnd, delim, esc);
    assert Enclose(s) + [delim] + rest == Enclose(s) + ([delim] + rest);
    assert ([delim] + rest)[1..] == rest;
  }

  /** A quoted field that ends the text. */
  lemma EnclosedLast(s: string, lineEnd: string, delim: char, esc: Option<char>)
    requires QuoteFree(s, esc)
    ensures ScanField(Enclose(s), lineEnd, delim, esc) == Scan(s, [], false)
  {
    EnclosedField(s, [], lineEnd, delim, esc);
    assert Enclose(s) + [] == Enclose(s);
  }

  /** A quoted field, the delimiter, then more fields. */
  lemma ParseEnclosedMore(s: string, lineEnd: string, delim: char, rest: string, esc: Option<char>)
    requires QuoteFree(s, esc) && delim != '"'
    ensures ParseFields(Enclose(s) + [delim] + rest, lineEnd, delim, esc) == [s] + ParseFields(rest, lineEnd, delim, esc)
  {
    EnclosedThenDelimiter(s, lineEnd, delim, rest, esc);
    ParseMore(Enclose(s) + [delim] + rest, lineEnd, delim, esc, s, rest);
  }

  /** A quoted field alone. */
  lemma ParseEnclosedLast(s: string, lineEnd: string, delim: char, esc: Option<char>)
    requires QuoteFree(s, esc)
    ensures ParseFields(Enclose(s), lineEnd, delim, esc) == [s]
  {
    EnclosedLast(s, lineEnd, delim, esc);
    ParseLast(Enclose(s), lineEnd, delim, esc, s);
  }

  function QuotedAll(fs: seq<string>): (parts: seq<string>)
    ensures |parts| == |fs| && forall i :: 0 <= i < |fs| ==> parts[i] == Enclose(fs[i])
  {
    seq(|fs|, i requires 0 <= i < |fs| => Enclose(fs[i]))
  }

  lemma {:induction false} ParseQuoted(fs: seq<string>, lineEnd: string, esc: Option<char>)
    requires fs != [] && forall i :: 0 <= i < |fs| ==> QuoteFree(fs[i], esc)
    ensures ParseFields(Join(QuotedAll(fs), ','), lineEnd, ',', esc) == fs
    ensures var line := Join(QuotedAll(fs), ','); |line| > 0 && line[|line| - 1] == '"'
  {
    QuotedJoinEnds(fs);
    if |fs| == 1 {
      ParseOneQuoted(fs[0], lineEnd, esc);
      assert fs == [fs[0]];
    } else {
      ParseQuoted(fs[1..], lineEnd, esc);
      ParseQuotedStep(fs, lineEnd, esc);
    }
  }

  lemma ParseOneQuoted(s: string, lineEnd: string, esc: Option<char>)
    requires QuoteFree(s, esc)
    ensures ParseFields(Join(QuotedAll([s]), ','), lineEnd, ',', esc) == [s]
  {
    assert QuotedAll([s]) == [Enclose(s)];
    assert Join([Enclose(s)], ',') == Enclose(s);
    ParseEnclosedLast(s, lineEnd, ',', esc);
  }

  lemma ParseQuotedStep(fs: seq<string>, lineEnd: string, esc: Option<char>)
    requires |fs| > 1 && QuoteFree(fs[0], esc)
    requires ParseFields(Join(QuotedAll(fs[1..]), ','), lineEnd, ',', esc) == fs[1..]
    ensures ParseFields(Join(QuotedAll(fs), ','), lineEnd, ',', esc) == fs
  {
    var parts := QuotedAll(fs);
    assert parts[1..] == QuotedAll(fs[1..]);
    var rest := Join(parts[1..], ',');
    assert Join(parts, ',') == Enclose(fs[0]) + [','] + rest;
    ParseEnclosedMore(fs[0], lineEnd, ',', rest, esc);
    assert fs == [fs[0]] + fs[1..];
  }

  /**
   * Quote-free fields, each enclosed in quotes and joined by commas, are read
   * back by `str_getcsv` as those fields, in order, commas inside them kept.
   */
  lemma FieldsOfQuoted(fs: seq<string>, esc: Option<char>)
    requires fs != [] && forall i :: 0 <= i < |fs| ==> QuoteFree(fs[i], esc)
    ensures Fields(Join(QuotedAll(fs), ','), esc) == fs
  {
    ParseQuoted(fs, LineEnd(Join(QuotedAll(fs), ',')), esc);
  }

  /** A written line after its first field: the other three fields, each quoted after a comma. */
  function Tail(b: string, c: string, d: string): string
  {
    [','] + Join(QuotedAll([b, c, d]), ',')
  }

  lemma JoinThree(x: string, y: string, z: string, sep: char)
    ensures Join([x, y, z], sep) == x + [sep] + y + [sep] + z
  {
    assert [x, y, z][1..] == [y, z] && [y, z][1..] == [z];
    assert Join([z], sep) == z;
    assert Join([y, z], sep) == y + [sep] + z;
    assert Join([x, y, z], sep) == x + [sep] + (y + [sep] + z);
  }

  lemma JoinQuotedThree(b: string, c: string, d: string)
    ensures Join(QuotedAll([b, c, d]), ',') == Enclose(b) + [','] + (Enclose(c) + [','] + Enclose(d))
  {
    assert QuotedAll([b, c, d]) == [Enclose(b), Enclose(c), Enclose(d)];
    JoinThree(Enclose(b), Enclose(c), Enclose(d), ',');
  }

  lemma {:induction false} QuotedJoinEnds(fs: seq<string>)
    requires fs != []
    ensures var line := Join(QuotedAll(fs), ','); |line| > 0 && line[|line| - 1] == '"'
  {
    if |fs| > 1 {
      assert QuotedAll(fs)[1..] == QuotedAll(fs[1..]);
      QuotedJoinEnds(fs[1..]);
    }
  }

  /** `toCSV`'s line for a record: its four fields quoted, in key order. */
  lemma LineOfRecord(g: GeoRange)
    ensures Line(g.ToArray()) == Enclose(g.GetStartIp()) + Tail(g.GetEndIp(), g.countryCode, g.countryName)
  {
    var v := g.ToArray();
    assert Text(At(v, StartIpKey)) == g.GetStartIp();
    assert Text(At(v, EndIpKey)) == g.GetEndIp();
    assert Text(At(v, CountryCodeKey)) == g.countryCode;
    assert Text(At(v, CountryNameKey)) == g.countryName;
    LineOfTexts(v);
  }

  lemma LineOfTexts(v: Value)
    ensures Line(v) == Enclose(Text(At(v, StartIpKey)))
                       + Tail(Text(At(v, EndIpKey)), Text(At(v, CountryCodeKey)), Text(At(v, CountryNameKey)))
  {
    var b, c, d := Text(At(v, EndIpKey)), Text(At(v, CountryCodeKey)), Text(At(v, CountryNameKey));
    JoinQuotedThree(b, c, d);
    CommaShape(Enclose(Text(At(v, StartIpKey))), Enclose(b), Enclose(c), Enclose(d));
  }

  lemma CommaShape(w: string, x: string, y: string, z: string)
    ensures w + "," + x + "," + y + "," + z == w + ([','] + (x + [','] + (y + [','] + z)))
  {
  }

  /** A bare field of digits followed by a comma. */
  lemma DigitsThenComma(a: string, rest: string, lineEnd: string, esc: Option<char>)
    requires IsDigits(a)
    ensures ScanField(a + [','] + rest, lineEnd, ',', esc) == Scan(a, rest, true)
  {
    var t := a + [','] + rest;
    DigitsExclude(a, ',');
    assert t[0] == ',' || IsDigit(t[0]);
    assert SpacesBefore(t, ',') == 0;
    IndexOfAfter(a, ',', rest);
    assert t[..|a|] == a && t[|a| + 1..] == rest;
    assert a == [] || IsDigit(a[|a| - 1]);
    assert DropLineEnd(a) == a;
  }

  /** A written row after the outer call: `a,"b","c","d"`, its first field bare digits. */
  function InnerLine(a: string, b: string, c: string, d: string): string
  {
    a + Tail(b, c, d)
  }

  lemma InnerLineShape(a: string, b: string, c: string, d: string)
    ensures InnerLine(a, b, c, d) == a + [','] + Join(QuotedAll([b, c, d]), ',')
    ensures var t := InnerLine(a, b, c, d); t[|t| - 1] == '"' && DropLineEnd(t) == t
  {
    QuotedJoinEnds([b, c, d]);
  }

  /** One field read and a delimiter after it: the rest of the fields follow. */
  lemma ParseMore(t: string, lineEnd: string, delim: char, esc: Option<char>, field: string, rest: string)
    requires ScanField(t, lineEnd, delim, esc) == Scan(field, rest, true)
    ensures ParseFields(t, lineEnd, delim, esc) == [field] + ParseFields(rest, lineEnd, delim, esc)
  {
  }

  /** The last field read. */
  lemma ParseLast(t: string, lineEnd: string, delim: char, esc: Option<char>, field: string)
    requires ScanField(t, lineEnd, delim, esc) == Scan(field, [], false)
    ensures ParseFields(t, lineEnd, delim, esc) == [field]
  {
  }

  /**
   * The outer call reads the quotes off a written line's first field and hands
   * on the rest as it is; the row `a,"b","c","d"` gives back its four fields,
   * the first bare digits.
   */
  lemma InnerRow(a: string, b: string, c: string, d: string, esc: Option<char>)
    requires IsDigits(a) && QuoteFree(b, esc) && QuoteFree(c, esc) && QuoteFree(d, esc)
    ensures Fields(InnerLine(a, b, c, d), esc) == [a, b, c, d]
    ensures Row(InnerLine(a, b, c, d), esc) == Some(UniversalItem(a, b, c, d))
  {
    InnerLineShape(a, b, c, d);
    InnerFields(a, b, c, d, LineEnd(InnerLine(a, b, c, d)), esc);
  }

  lemma InnerFields(a: string, b: string, c: string, d: string, lineEnd: string, esc: Option<char>)
    requires IsDigits(a) && QuoteFree(b, esc) && QuoteFree(c, esc) && QuoteFree(d, esc)
    ensures ParseFields(a + [','] + Join(QuotedAll([b, c, d]), ','), lineEnd, ',', esc) == [a, b, c, d]
  {
    var r2 := Enclose(c) + [','] + Enclose(d);
    var r1 := Enclose(b) + [','] + r2;
    JoinQuotedThree(b, c, d);
    ParseEnclosedLast(d, lineEnd, ',', esc);
    ParseEnclosedMore(c, lineEnd, ',', Enclose(d), esc);
    ParseEnclosedMore(b, lineEnd, ',', r2, esc);
    ParseDigitsMore(a, r1, lineEnd, esc);
  }

  /** Bare digits, a comma, then more fields. */
  lemma ParseDigitsMore(a: string, rest: string, lineEnd: string, esc: Option<char>)
    requires IsDigits(a)
    ensures ParseFields(a + [','] + rest, lineEnd, ',', esc) == [a] + ParseFields(rest, lineEnd, ',', esc)
  {
    DigitsThenComma(a, rest, lineEnd, esc);
    ParseMore(a + [','] + rest, lineEnd, ',', esc, a, rest);
  }

  /** A quoted field, text without the delimiter after its closing quote, then the delimiter. */
  lemma EnclosedTextThenDelimiter(s: string, tail: string, lineEnd: string, delim: char, more: string, esc: Option<char>)
    requires QuoteFree(s, esc) && tail != [] && tail[0] != '"' && delim !in tail
    ensures ScanField(Enclose(s) + tail + [delim] + more, lineEnd, delim, esc) == Scan(s + tail, more, true)
  {
    var x := tail + [delim] + more;
    IndexOfAfter(tail, delim, more);
    EnclosedField(s, x, lineEnd, delim, esc);
    assert Enclose(s) + tail + [delim] + more == Enclose(s) + x;
    assert x[..|tail|] == tail && x[|tail| + 1..] == more;
  }

  /** A quoted field and text without the delimiter after its closing quote, ending the text. */
  lemma EnclosedTextLast(s: string, tail: string, lineEnd: string, delim: char, esc: Option<char>)
    requires QuoteFree(s, esc) && tail != [] && tail[0] != '"' && delim !in tail
    ensures ScanField(Enclose(s) + tail, lineEnd, delim, esc) == Scan(s + tail, [], false)
  {
    IndexOfAfter(tail, delim, []);
    EnclosedField(s, tail, lineEnd, delim, esc);
  }

  function OpenedLines(heads: seq<string>, tails: seq<string>): (lines: seq<string>)
    requires |heads| == |tails|
    ensures |lines| == |heads| && forall i :: 0 <= i < |heads| ==> lines[i] == Enclose(heads[i]) + tails[i]
  {
    seq(|heads|, i requires 0 <= i < |heads| => Enclose(heads[i]) + tails[i])
  }

  function Glued(heads: seq<string>, tails: seq<string>): (rows: seq<string>)
    requires |heads| == |tails|
    ensures |rows| == |heads| && forall i :: 0 <= i < |heads| ==> rows[i] == heads[i] + tails[i]
  {
    seq(|heads|, i requires 0 <= i < |heads| => heads[i] + tails[i])
  }

  /**
   * The outer `str_getcsv($contents, "\n")` over lines that each open with a
   * quoted quote-free field: each row is the line with that field's quotes
   * read off.
   */
  lemma {:induction false} OuterRows(heads: seq<string>, tails: seq<string>, lineEnd: string, esc: Option<char>)
    requires |heads| == |tails| > 0
    requires forall i :: 0 <= i < |heads| ==>
               QuoteFree(heads[i], esc) && tails[i] != [] && tails[i][0] != '"' && '\n' !in tails[i]
    ensures ParseFields(Join(OpenedLines(heads, tails), '\n'), lineEnd, '\n', esc) == Glued(heads, tails)
  {
    if |heads| == 1 {
      OuterOne(heads, tails, lineEnd, esc);
    } else {
      OuterRows(heads[1..], tails[1..], lineEnd, esc);
      OuterStep(heads, tails, lineEnd, esc);
    }
  }

  lemma OuterOne(heads: seq<string>, tails: seq<string>, lineEnd: string, esc: Option<char>)
    requires |heads| == |tails| == 1
    requires QuoteFree(heads[0], esc) && tails[0] != [] && tails[0][0] != '"' && '\n' !in tails[0]
    ensures ParseFields(Join(OpenedLines(heads, tails), '\n'), lineEnd, '\n', esc) == Glued(heads, tails)
  {
    var lines := OpenedLines(heads, tails);
    assert Join(lines, '\n') == lines[0];
    EnclosedTextLast(heads[0], tails[0], lineEnd, '\n', esc);
    ParseLast(lines[0], lineEnd, '\n', esc, heads[0] + tails[0]);
    assert Glued(heads, tails) == [heads[0] + tails[0]];
  }

  lemma OuterStep(heads: seq<string>, tails: seq<string>, lineEnd: string, esc: Option<char>)
    requires |heads| == |tails| > 1
    requires QuoteFree(heads[0], esc) && tails[0] != [] && tails[0][0] != '"' && '\n' !in tails[0]
    requires ParseFields(Join(OpenedLines(heads[1..], tails[1..]), '\n'), lineEnd, '\n', esc) == Glued(heads[1..], tails[1..])
    ensures ParseFields(Join(OpenedLines(heads, tails), '\n'), lineEnd, '\n', esc) == Glued(heads, tails)
  {
    var rest := Join(OpenedLines(heads[1..], tails[1..]), '\n');
    OpenedJoin(heads, tails);
    GluedCons(heads, tails);
    OuterCons(heads[0], tails[0], rest, lineEnd, esc, Glued(heads[1..], tails[1..]));
  }

  /** One more line in front of the outer call's text: one more row in front of its rows. */
  lemma OuterCons(head: string, tail: string, rest: string, lineEnd: string, esc: Option<char>, rows: seq<string>)
    requires QuoteFree(head, esc) && tail != [] && tail[0] != '"' && '\n' !in tail
    requires ParseFields(rest, lineEnd, '\n', esc) == rows
    ensures ParseFields(Enclose(head) + tail + ['\n'] + rest, lineEnd, '\n', esc) == [head + tail] + rows
  {
    ParseEnclosedTextMore(head, tail, lineEnd, '\n', rest, esc);
  }

  lemma GluedCons(heads: seq<string>, tails: seq<string>)
    requires |heads| == |tails| > 0
    ensures Glued(heads, tails) == [heads[0] + tails[0]] + Glued(heads[1..], tails[1..])
  {
  }

  lemma OpenedJoin(heads: seq<string>, tails: seq<string>)
    requires |heads| == |tails| > 1
    ensures Join(OpenedLines(heads, tails), '\n') ==
            Enclose(heads[0]) + tails[0] + ['\n'] + Join(OpenedLines(heads[1..], tails[1..]), '\n')
  {
    var lines := OpenedLines(heads, tails);
    assert lines[1..] == OpenedLines(heads[1..], tails[1..]);
  }

  /** A quoted field, text after its closing quote, the delimiter, then more fields. */
  lemma ParseEnclosedTextMore(s: string, tail: string, lineEnd: string, delim: char, more: string, esc: Option<char>)
    requires QuoteFree(s, esc) && tail != [] && tail[0] != '"' && delim !in tail
    ensures ParseFields(Enclose(s) + tail + [delim] + more, lineEnd, delim, esc) ==
            [s + tail] + ParseFields(more, lineEnd, delim, esc)
  {
    EnclosedTextThenDelimiter(s, tail, lineEnd, delim, more, esc);
    ParseMore(Enclose(s) + tail + [delim] + more, lineEnd, delim, esc, s + tail, more);
  }

  lemma CollectOfSomes(ps: seq<Option<Value>>, items: seq<Value>)
    requires |ps| == |items| && forall i :: 0 <= i < |ps| ==> ps[i] == Some(items[i])
    ensures Collect(ps) == items
  {
    CollectAll(ps);
    assert Collect(ps) == items;
  }

  function StartIps(rs: seq<GeoRange>): (heads: seq<string>)
    ensures |heads| == |rs| && forall i :: 0 <= i < |rs| ==> heads[i] == rs[i].GetStartIp()
  {
    seq(|rs|, i requires 0 <= i < |rs| => rs[i].GetStartIp())
  }

  function Tails(rs: seq<GeoRange>): (tails: seq<string>)
    ensures |tails| == |rs|
    ensures forall i :: 0 <= i < |rs| ==> tails[i] == Tail(rs[i].GetEndIp(), rs[i].countryCode, rs[i].countryName)
  {
    seq(|rs|, i requires 0 <= i < |rs| => Tail(rs[i].GetEndIp(), rs[i].countryCode, rs[i].countryName))
  }

  /** `toCSV`'s lines for records: each a quoted start address followed by the rest of the line. */
  lemma LinesOfRecords(rs: seq<GeoRange>, items: seq<Value>)
    requires |items| == |rs| && forall i :: 0 <= i < |rs| ==> items[i] == rs[i].ToArray()
    ensures Lines(items) == OpenedLines(StartIps(rs), Tails(rs))
  {
    forall i | 0 <= i < |rs|
      ensures Lines(items)[i] == OpenedLines(StartIps(rs), Tails(rs))[i]
    {
      LineOfRecord(rs[i]);
    }
  }

  lemma PiecesOfRecords(rs: seq<GeoRange>, esc: Option<char>)
    requires KnownEscape(esc)
    requires forall i :: 0 <= i < |rs| ==> '\n' !in rs[i].countryCode && '\n' !in rs[i].countryName
    ensures forall i :: 0 <= i < |rs| ==>
              QuoteFree(StartIps(rs)[i], esc) && Tails(rs)[i] != [] && Tails(rs)[i][0] != '"' && '\n' !in Tails(rs)[i]
  {
    forall i | 0 <= i < |rs|
      ensures QuoteFree(StartIps(rs)[i], esc) && '\n' !in Tails(rs)[i]
    {
      JoinQuotedThree(rs[i].GetEndIp(), rs[i].countryCode, rs[i].countryName);
      DigitsQuoteFree(rs[i].GetStartIp(), esc);
      DigitsQuoteFree(rs[i].GetEndIp(), esc);
    }
  }

  /** The text `toCSV` writes for records: their lines joined by newlines, ending in a quote. */
  lemma WrittenText(rs: seq<GeoRange>, items: seq<Value>)
    requires rs != []
    requires |items| == |rs| && forall i :: 0 <= i < |rs| ==> items[i] == rs[i].ToArray()
    ensures CsvText(items) == Join(OpenedLines(StartIps(rs), Tails(rs)), '\n')
    ensures DropLineEnd(CsvText(items)) == CsvText(items)
  {
    var lines := Lines(items);
    LinesOfRecords(rs, items);
    AccumulatedIsJoin(lines);
    AccumulatedEnd(lines);
  }

  lemma AccumulatedEnd(lines: seq<string>)
    requires lines != [] && lines[|lines| - 1] != [] && lines[|lines| - 1][|lines[|lines| - 1]| - 1] == '"'
    ensures var t := Accumulated(lines); t != [] && t[|t| - 1] == '"' && DropLineEnd(t) == t
  {
    var last := lines[|lines| - 1];
    var p := Accumulated(lines[..|lines| - 1]);
    var t := (if p != "" then p + "\n" else p) + last;
    assert Accumulated(lines) == t;
    assert t[|t| - 1] == last[|last| - 1];
  }

  /** The rows the outer call hands on for the text written for records. */
  lemma RowsOfWrittenText(rs: seq<GeoRange>, items: seq<Value>, esc: Option<char>)
    requires rs != [] && KnownEscape(esc)
    requires forall i :: 0 <= i < |rs| ==> '\n' !in rs[i].countryCode && '\n' !in rs[i].countryName
    requires |items| == |rs| && forall i :: 0 <= i < |rs| ==> items[i] == rs[i].ToArray()
    ensures var rows := CsvLines(CsvText(items), esc);
      |rows| == |rs| &&
      forall i :: 0 <= i < |rs| ==>
        rows[i] == InnerLine(rs[i].GetStartIp(), rs[i].GetEndIp(), rs[i].countryCode, rs[i].countryName)
  {
    WrittenText(rs, items);
    PiecesOfRecords(rs, esc);
    OuterRows(StartIps(rs), Tails(rs), LineEnd(CsvText(items)), esc);
  }

  /** The text written for records with safe codes and names reads back as the records' arrays. */
  lemma RowsOfText(rs: seq<GeoRange>, items: seq<Value>, esc: Option<char>)
    requires KnownEscape(esc)
    requires forall i :: 0 <= i < |rs| ==> Safe(rs[i].countryCode, esc) && Safe(rs[i].countryName, esc)
    requires |items| == |rs| && forall i :: 0 <= i < |rs| ==> items[i] == rs[i].ToArray()
    ensures Rows(CsvLines(CsvText(items), esc), esc) == items
  {
    if rs == [] {
      EmptyTextReadsNothing(esc);
      assert CsvText(items) == "";
    } else {
      RowsOfWrittenText(rs, items, esc);
      var rows := CsvLines(CsvText(items), esc);
      forall i | 0 <= i < |rows|
        ensures Parsed(rows, esc)[i] == Some(items[i])
      {
        var g := rs[i];
        DigitsQuoteFree(g.GetStartIp(), esc);
        DigitsQuoteFree(g.GetEndIp(), esc);
        InnerRow(g.GetStartIp(), g.GetEndIp(), g.countryCode, g.countryName, esc);
      }
      CollectOfSomes(Parsed(rows, esc), items);
    }
  }

  /**
   * A row of a file with "\r\n" line ends, as the outer call hands it on,
   * gives back the record it was written for.
   */
  lemma CrLfRowParses(g: GeoRange, esc: Option<char>)
    requires KnownEscape(esc) && Safe(g.countryCode, esc) && Safe(g.countryName, esc)
    ensures Row(InnerLine(g.GetStartIp(), g.GetEndIp(), g.countryCode, g.countryName) + "\r", esc) == Some(g.ToArray())
  {
    var a, b, c, d := g.GetStartIp(), g.GetEndIp(), g.countryCode, g.countryName;
    var row := InnerLine(a, b, c, d);
    var t := row + "\r";
    DigitsQuoteFree(b, esc);
    InnerLineShape(a, b, c, d);
    InnerRow(a, b, c, d, esc);
    assert row != [] && row[|row| - 1] == '"';
    CarriageReturnEnd(row);
    FieldsOfBody(t, row, "\r", esc);
    InnerFields(a, b, c, d, "\r", esc);
    SameFieldsSameRow(t, row, esc);
  }

  /**
   * Round trip through a CSV file as written: the text `toCSV` writes for
   * canonical records whose code and name hold no quote, backslash or
   * newline reads back, through `fromCSV`, as the same records in order.
   */
  lemma CsvRoundTripAsWritten(rs: seq<GeoRange>)
    requires forall i :: 0 <= i < |rs| ==> Canonical(rs[i])
    requires forall i :: 0 <= i < |rs| ==> Safe(rs[i].countryCode, Backslash) && Safe(rs[i].countryName, Backslash)
    ensures ToUniversal(Slots(rs)).Success?
    ensures FromCsvAsWritten(CsvText(Items(ToUniversal(Slots(rs)).value))) == Success(Slots(rs))
  {
    var items := Items(ToUniversal(Slots(rs)).value);
    RowsOfText(rs, items, Backslash);
    ItemsOfList(items);
    FromItemsOfRecords(rs, items);
  }

  /**
   * Round trip through a CSV file with escaping off: codes and names may
   * also hold backslashes and commas; only quotes and newlines are excluded.
   */
  lemma CsvRoundTrip(rs: seq<GeoRange>)
    requires forall i :: 0 <= i < |rs| ==> Canonical(rs[i])
    requires forall i :: 0 <= i < |rs| ==> Safe(rs[i].countryCode, None) && Safe(rs[i].countryName, None)
    ensures ToUniversal(Slots(rs)).Success?
    ensures FromCsv(CsvText(Items(ToUniversal(Slots(rs)).value))) == Success(Slots(rs))
  {
    var items := Items(ToUniversal(Slots(rs)).value);
    RowsOfText(rs, items, None);
    ItemsOfList(items);
    FromItemsOfRecords(rs, items);
  }

  lemma QuotedPlainChar(c: char, v: string, esc: Option<char>)
    requires c != '"' && esc != Some(c)
    ensures Quoted([c] + v, esc) == ([c] + Quoted(v, esc).0, Quoted(v, esc).1, Quoted(v, esc).2)
  {
    assert ([c] + v)[1..] == v;
  }

  lemma QuotedEscapedChar(c: char, v: string)
    ensures Quoted(['\\', c] + v, Backslash) ==
            (['\\', c] + Quoted(v, Backslash).0, Quoted(v, Backslash).1, Quoted(v, Backslash).2)
  {
    assert (['\\', c] + v)[2..] == v;
  }

  /**
   * With the backslash as escape, the field `"\"` followed by `,"d"` does not
   * close at its second quote: the backslash keeps that quote, the comma is
   * ordinary text, the quote opening `d` closes the field, and the rest of
   * the row is kept as it is.
   */
  lemma EscapedClosingQuote(d: string, lineEnd: string)
    requires d != [] && QuoteFree(d, Backslash) && ',' !in d
    ensures ScanField(Enclose("\\") + [','] + Enclose(d), lineEnd, ',', Backslash) == Scan("\\\"," + d + "\"", [], false)
  {
    var u := ['\\', '"'] + ([','] + Enclose(d));
    assert ScanField(['"'] + u, lineEnd, ',', Backslash) == Scan("\\\"," + (d + "\""), [], false) by {
      EscapedQuoteBody(d);
      IndexOfAfter(d + "\"", ',', []);
      ClosedLast(u, lineEnd, ',', Backslash, "\\\",", d + "\"");
    }
    assert ['"'] + u == Enclose("\\") + [','] + Enclose(d);
    assert "\\\"," + (d + "\"") == "\\\"," + d + "\"";
  }

  /** The body after the opening quote of `"\","d"`: the escaped quote and the comma, up to the quote opening `d`. */
  lemma EscapedQuoteBody(d: string)
    requires d != [] && QuoteFree(d, Backslash)
    ensures Quoted(['\\', '"'] + ([','] + Enclose(d)), Backslash) == ("\\\",", d + "\"", true)
  {
    var e := Enclose(d);
    var v := [','] + e;
    assert [] + "\"" + (d + "\"") == e;
    QuotedBody([], d + "\"", Backslash);
    QuotedPlainChar(',', e, Backslash);
    QuotedEscapedChar('"', v);
    assert ['\\', '"'] + ([','] + []) == "\\\",";
  }

  /** A quoted field closed, and no delimiter after its closing quote: it runs to the end. */
  lemma ClosedLast(u: string, lineEnd: string, delim: char, esc: Option<char>, body: string, tail: string)
    requires Quoted(u, esc) == (body, tail, true) && IndexOf(tail, delim) == |tail|
    ensures ScanField(['"'] + u, lineEnd, delim, esc) == Scan(body + tail, [], false)
  {
    OpenQuote(u, lineEnd, delim, esc);
  }

  /** A field that opens with a quote is read by Quoted from the next character. */
  lemma OpenQuote(u: string, lineEnd: string, delim: char, esc: Option<char>)
    ensures var q := Quoted(u, esc); var j := IndexOf(q.1, delim);
      ScanField(['"'] + u, lineEnd, delim, esc) ==
        if j < |q.1| then Scan(q.0 + q.1[..j], q.1[j + 1..], true)
        else if q.2 then Scan(q.0 + q.1, [], false)
        else Scan(q.0 + lineEnd, [], false)
  {
    assert (['"'] + u)[1..] == u;
    assert SpacesBefore(['"'] + u, delim) == 0;
  }

  /**
   * With the backslash as escape, a quoted field ending in a backslash
   * escapes its own closing quote: the row `a,"b","\","d"` reads as three
   * fields, the last running on to the end of the row.
   */
  lemma BackslashSwallowsQuote(a: string, b: string, d: string)
    requires IsDigits(a) && IsDigits(b) && d != [] && QuoteFree(d, Backslash) && ',' !in d
    ensures Fields(InnerLine(a, b, "\\", d), Backslash) == [a, b, "\\\"," + d + "\""]
    ensures Row(InnerLine(a, b, "\\", d), Backslash) == None
  {
    InnerLineShape(a, b, "\\", d);
    JoinQuotedThree(b, "\\", d);
    BackslashFields(a, b, d, LineEnd(InnerLine(a, b, "\\", d)));
  }

  lemma BackslashFields(a: string, b: string, d: string, lineEnd: string)
    requires IsDigits(a) && IsDigits(b) && d != [] && QuoteFree(d, Backslash) && ',' !in d
    ensures ParseFields(a + [','] + (Enclose(b) + [','] + (Enclose("\\") + [','] + Enclose(d))), lineEnd, ',', Backslash)
              == [a, b, "\\\"," + d + "\""]
  {
    DigitsQuoteFree(b, Backslash);
    var r2 := Enclose("\\") + [','] + Enclose(d);
    var r1 := Enclose(b) + [','] + r2;
    EscapedClosingQuote(d, lineEnd);
    ParseLast(r2, lineEnd, ',', Backslash, "\\\"," + d + "\"");
    ParseEnclosedMore(b, lineEnd, ',', r2, Backslash);
    ParseDigitsMore(a, r1, lineEnd, Backslash);
  }

  /**
   * As written, a record whose country code is a backslash does not survive
   * `toCSV` then `fromCSV`: its row is dropped. With escaping off it is read
   * back.
   */
  lemma BackslashCodeDropped(g: GeoRange)
    requires Canonical(g) && g.countryCode == "\\"
    requires g.countryName != [] && Safe(g.countryName, Backslash) && ',' !in g.countryName
    ensures ToUniversal([Some(g)]).Success?
    ensures FromCsvAsWritten(CsvText(Items(ToUniversal([Some(g)]).value))) == Success([])
    ensures FromCsv(CsvText(Items(ToUniversal([Some(g)]).value))) == Success([Some(g)])
  {
    OneRecordRoundTrip(g);
    var items := Items(ToUniversal([Some(g)]).value);
    OneRecordItems(g, items);
    BackslashRowDropped(g, items);
    NothingRead(CsvText(items));
  }

  lemma OneRecordRoundTrip(g: GeoRange)
    requires Canonical(g) && Safe(g.countryCode, None) && Safe(g.countryName, None)
    ensures ToUniversal([Some(g)]).Success?
    ensures FromCsv(CsvText(Items(ToUniversal([Some(g)]).value))) == Success([Some(g)])
  {
    assert Slots([g]) == [Some(g)];
    CsvRoundTrip([g]);
  }

  lemma OneRecordItems(g: GeoRange, items: seq<Value>)
    requires ToUniversal([Some(g)]).Success? && items == Items(ToUniversal([Some(g)]).value)
    ensures items == [g.ToArray()]
  {
  }

  /** A text whose rows yield no items reads, as written, as no records. */
  lemma NothingRead(text: string)
    requires Rows(CsvLines(text, Backslash), Backslash) == []
    ensures FromCsvAsWritten(text) == Success([])
  {
    ItemsOfList([]);
  }

  lemma BackslashRowDropped(g: GeoRange, items: seq<Value>)
    requires g.countryCode == "\\"
    requires g.countryName != [] && Safe(g.countryName, Backslash) && ',' !in g.countryName
    requires items == [g.ToArray()]
    ensures Rows(CsvLines(CsvText(items), Backslash), Backslash) == []
  {
    var row := InnerLine(g.GetStartIp(), g.GetEndIp(), g.countryCode, g.countryName);
    SingleLine(g, items);
    BackslashSwallowsQuote(g.GetStartIp(), g.GetEndIp(), g.countryName);
    LoneRowDropped(row, Backslash);
  }

  lemma SingleLine(g: GeoRange, items: seq<Value>)
    requires '\n' !in g.countryCode && '\n' !in g.countryName
    requires items == [g.ToArray()]
    ensures CsvLines(CsvText(items), Backslash) ==
            [InnerLine(g.GetStartIp(), g.GetEndIp(), g.countryCode, g.countryName)]
  {
    RowsOfWrittenText([g], items, Backslash);
  }

  /** A file of one row that does not hold four fields yields no items. */
  lemma LoneRowDropped(row: string, esc: Option<char>)
    requires Row(row, esc) == None
    ensures Rows([row], esc) == []
  {
    assert Parsed([row], esc) == [None];
  }
}
