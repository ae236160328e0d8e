/**
 * The older CSV reading in app/script.js: `parseCSVLine`, a quote-aware
 * comma splitter written as a state machine, and the `parsePremiereCSVMarkers`
 * variant built on it, which finds its columns either from the header or by
 * looking for the first field that holds a time.
 */
module LegacyCsv {
  import opened Wrappers
  import opened Text
  import opened ChapterOps
  import Parsers

  /* ---------------------------------------------------------------------- */
  /* parseCSVLine                                                           */
  /* ---------------------------------------------------------------------- */

  /**
   * The fields read from what is left of the line, `rest`, when the scan is
   * in quote state `inQuotes` and has gathered `current` for the field in
   * progress: a `""` pair gives one literal quote in either state, a lone
   * quote flips the state and is dropped, a comma outside quotes ends the
   * field, and anything else is copied.
   */
  function FieldsFrom(rest: string, inQuotes: bool, current: string): (fields: seq<string>)
    ensures |fields| >= 1
    decreases |rest|
  {
    if rest == [] then [current]
    else if rest[0] == '"' then
      if |rest| > 1 && rest[1] == '"' then FieldsFrom(rest[2..], inQuotes, current + ['"'])
      else FieldsFrom(rest[1..], !inQuotes, current)
    else if rest[0] == ',' && !inQuotes then [current] + FieldsFrom(rest[1..], false, "")
    else FieldsFrom(rest[1..], inQuotes, current + [rest[0]])
  }

  /** The fields of a whole line. */
  function Fields(line: string): seq<string>
  {
    FieldsFrom(line, false, "")
  }

  /** `parseCSVLine`: the character loop with its quote flag and field buffer. */
  method ParseCsvLine(line: string) returns (result: seq<string>)
    ensures result == Fields(line)
  {
    result := [];
    var inQuotes := false;
    var currentValue := "";
    var i := 0;
    while i < |line|
      invariant i <= |line|
      invariant result + FieldsFrom(line[i..], inQuotes, currentValue) == Fields(line)
      decreases |line| - i
    {
      var c := line[i];
      assert line[i..][0] == c && line[i..][1..] == line[i + 1..];
      if c == '"' {
        if i + 1 < |line| && line[i + 1] == '"' {
          assert line[i..][1] == line[i + 1] && line[i..][2..] == line[i + 2..];
          currentValue := currentValue + ['"'];
          i := i + 1;
        } else {
          inQuotes := !inQuotes;
        }
      } else if c == ',' && !inQuotes {
        AppendAssocFields(result, [currentValue], FieldsFrom(line[i + 1..], false, ""));
        result := result + [currentValue];
        currentValue := "";
      } else {
        currentValue := currentValue + [c];
      }
      i := i + 1;
    }
    assert line[i..] == [];
    result := result + [currentValue];
  }

  lemma AppendAssocFields(a: seq<string>, b: seq<string>, c: seq<string>)
    ensures a + (b + c) == (a + b) + c
  {
  }

  /** The commas that end a field: those the scan meets outside quotes. */
  function SeparatorsFrom(rest: string, inQuotes: bool): nat
    decreases |rest|
  {
    if rest == [] then 0
    else if rest[0] == '"' then
      if |rest| > 1 && rest[1] == '"' then SeparatorsFrom(rest[2..], inQuotes)
      else SeparatorsFrom(rest[1..], !inQuotes)
    else if rest[0] == ',' && !inQuotes then 1 + SeparatorsFrom(rest[1..], false)
    else SeparatorsFrom(rest[1..], inQuotes)
  }

  /** There is one field more than there are commas outside quotes; the empty line is one empty field. */
  lemma {:induction false} FieldCount(rest: string, inQuotes: bool, current: string)
    ensures |FieldsFrom(rest, inQuotes, current)| == SeparatorsFrom(rest, inQuotes) + 1
    ensures rest == "" ==> Fields(rest) == [""]
    decreases |rest|
  {
    if rest != [] {
      if rest[0] == '"' {
        if |rest| > 1 && rest[1] == '"' {
          FieldCount(rest[2..], inQuotes, current + ['"']);
        } else {
          FieldCount(rest[1..], !inQuotes, current);
        }
      } else if rest[0] == ',' && !inQuotes {
        FieldCount(rest[1..], false, "");
      } else {
        FieldCount(rest[1..], inQuotes, current + [rest[0]]);
      }
    }
  }

  /** Without quotes, the scan is a split at every comma. */
  lemma {:induction false} PlainFieldsFrom(rest: string, current: string)
    requires '"' !in rest
    ensures FieldsFrom(rest, false, current) ==
            [current + Split(rest, {','})[0]] + Split(rest, {','})[1..]
    decreases |rest|
  {
    if rest == [] {
      assert current + "" == current;
    } else {
      var after := Split(rest[1..], {','});
      assert '"' !in rest[1..] by {
        assert forall c :: c in rest[1..] ==> c in rest;
      }
      if rest[0] == ',' {
        PlainFieldsFrom(rest[1..], "");
        assert "" + after[0] == after[0];
        assert current + "" == current;
        assert [after[0]] + after[1..] == after;
      } else {
        PlainFieldsFrom(rest[1..], current + [rest[0]]);
        assert current + [rest[0]] + after[0] == current + ([rest[0]] + after[0]);
      }
    }
  }

  /** A line without quotes reads as its split at commas, one field per comma plus one. */
  lemma QuoteFreeLine(line: string)
    requires '"' !in line
    ensures Fields(line) == Split(line, {','})
    ensures |Fields(line)| == multiset(line)[','] + 1
  {
    PlainFieldsFrom(line, "");
    var parts := Split(line, {','});
    assert "" + parts[0] == parts[0];
    assert [parts[0]] + parts[1..] == parts;
    SplitCount(line, ',');
  }

  /** Joining fields without quotes or commas and reading the line back gives the fields. */
  lemma PlainRoundTrip(fields: seq<string>)
    requires |fields| >= 1
    requires forall f :: f in fields ==> '"' !in f && ',' !in f
    ensures Fields(Join(fields, ',')) == fields
  {
    forall k | 0 <= k < |fields| ensures NoSep(fields[k], {','}) {
      assert fields[k] in fields;
    }
    SplitJoin(fields, ',', {','});
    JoinAvoids(fields, ',', '"');
    QuoteFreeLine(Join(fields, ','));
  }

  /* Quoted fields */

  /** A field's text inside quotes: every quote doubled. */
  function Escape(f: string): (e: string)
    ensures |e| >= |f|
    ensures f != "" && f[0] != '"' ==> e != "" && e[0] == f[0]
  {
    if f == "" then "" else EscapeOne(f[0]) + Escape(f[1..])
  }

  /** One character of a field inside quotes: a quote is doubled. */
  function EscapeOne(c: char): string
  {
    if c == '"' then "\"\"" else [c]
  }

  /** Inside quotes, an escaped character is read as itself. */
  lemma EscapeOneStep(c: char, tail: string, current: string)
    ensures FieldsFrom(EscapeOne(c) + tail, true, current) == FieldsFrom(tail, true, current + [c])
  {
    var s := EscapeOne(c) + tail;
    if c == '"' {
      assert s[2..] == tail;
    } else {
      assert s[1..] == tail;
    }
  }

  /** A field written between quotes. */
  function Quote(f: string): string
  {
    "\"" + Escape(f) + "\""
  }

  function QuoteAll(fields: seq<string>): (r: seq<string>)
    ensures |r| == |fields|
    ensures forall k :: 0 <= k < |fields| ==> r[k] == Quote(fields[k])
  {
    if fields == [] then [] else [Quote(fields[0])] + QuoteAll(fields[1..])
  }

  /**
   * Inside quotes, an escaped field followed by the closing quote and then a
   * comma or the end reads as the field, and the scan leaves the quotes.
   */
  lemma {:induction false} InsideQuotes(g: string, t: string, current: string)
    requires t == "" || t[0] == ','
    ensures FieldsFrom(Escape(g) + "\"" + t, true, current) == FieldsFrom(t, false, current + g)
    decreases |g|
  {
    if g == "" {
      ClosingQuote(t, current);
    } else {
      var close := "\"" + t;
      assert Escape(g) + "\"" + t == Escape(g) + close;
      assert Escape(g[1..]) + "\"" + t == Escape(g[1..]) + close;
      EscapedStep(g, close, current);
      InsideQuotes(g[1..], t, current + [g[0]]);
      MoveFirst(current, g);
    }
  }

  /** Moving the first character of `g` onto `current` keeps their concatenation. */
  lemma MoveFirst(current: string, g: string)
    requires g != ""
    ensures current + [g[0]] + g[1..] == current + g
  {
    assert g == [g[0]] + g[1..];
  }

  /** The closing quote, then a comma or the end, leaves the quotes. */
  lemma ClosingQuote(t: string, current: string)
    requires t == "" || t[0] == ','
    ensures FieldsFrom(Escape("") + "\"" + t, true, current) == FieldsFrom(t, false, current + "")
  {
    assert Escape("") + "\"" + t == "\"" + t;
    assert ("\"" + t)[1..] == t;
    assert current + "" == current;
  }

  /** Inside quotes, the escaped first character of a field is read as itself. */
  lemma EscapedStep(g: string, after: string, current: string)
    requires g != ""
    ensures FieldsFrom(Escape(g) + after, true, current) == FieldsFrom(Escape(g[1..]) + after, true, current + [g[0]])
  {
    var tail := Escape(g[1..]) + after;
    assert Escape(g) + after == EscapeOne(g[0]) + tail;
    EscapeOneStep(g[0], tail, current);
  }

  /** A quoted field that neither is empty nor starts with a quote reads as itself up to the next comma or the end. */
  lemma QuotedField(f: string, t: string)
    requires f != "" && f[0] != '"'
    requires t == "" || t[0] == ','
    ensures FieldsFrom(Quote(f) + t, false, "") == FieldsFrom(t, false, f)
  {
    var s := Quote(f) + t;
    QuoteLayout(f, t);
    calc {
      FieldsFrom(s, false, "");
      FieldsFrom(s[1..], true, "");
      { InsideQuotes(f, t, ""); }
      FieldsFrom(t, false, "" + f);
      { assert "" + f == f; }
      FieldsFrom(t, false, f);
    }
  }

  /** A quoted field opens with a lone quote, then its escaped text and the closing quote. */
  lemma QuoteLayout(f: string, t: string)
    requires f != "" && f[0] != '"'
    ensures |Quote(f) + t| > 1 && (Quote(f) + t)[0] == '"' && (Quote(f) + t)[1] != '"'
    ensures (Quote(f) + t)[1..] == Escape(f) + "\"" + t
  {
    var s := Quote(f) + t;
    assert s == "\"" + (Escape(f) + "\"" + t);
    assert s[1] == Escape(f)[0];
  }

  /**
   * Quoting each field, joining with commas and reading the line back gives
   * the fields, commas and quotes inside them included, provided no field is
   * empty or starts with a quote (those open with a `""` pair, which reads
   * as a literal quote).
   */
  lemma {:induction false} QuotedRoundTrip(fields: seq<string>)
    requires |fields| >= 1
    requires forall f :: f in fields ==> f != "" && f[0] != '"'
    ensures Fields(Join(QuoteAll(fields), ',')) == fields
    decreases |fields|
  {
    var f := fields[0];
    assert f in fields;
    if |fields| == 1 {
      assert Join(QuoteAll(fields), ',') == Quote(f) + "";
      QuotedField(f, "");
    } else {
      QuotedHead(fields);
      assert forall g :: g in fields[1..] ==> g in fields;
      QuotedRoundTrip(fields[1..]);
      assert fields == [f] + fields[1..];
    }
  }

  /** The first quoted field reads as itself, and the reading goes on after the comma. */
  lemma QuotedHead(fields: seq<string>)
    requires |fields| >= 2 && fields[0] != "" && fields[0][0] != '"'
    ensures Fields(Join(QuoteAll(fields), ',')) == [fields[0]] + Fields(Join(QuoteAll(fields[1..]), ','))
  {
    var rest := Join(QuoteAll(fields[1..]), ',');
    JoinQuotedLayout(fields);
    QuotedField(fields[0], [','] + rest);
    CommaStep(rest, fields[0]);
  }

  lemma JoinQuotedLayout(fields: seq<string>)
    requires |fields| >= 2
    ensures Join(QuoteAll(fields), ',') == Quote(fields[0]) + ([','] + Join(QuoteAll(fields[1..]), ','))
  {
    assert QuoteAll(fields) == [Quote(fields[0])] + QuoteAll(fields[1..]);
    JoinCons(Quote(fields[0]), QuoteAll(fields[1..]), ',');
  }

  lemma CommaStep(rest: string, current: string)
    ensures FieldsFrom([','] + rest, false, current) == [current] + FieldsFrom(rest, false, "")
  {
    assert ([','] + rest)[1..] == rest;
  }

  /**
   * A `""` pair is always read as one literal quote, inside quotes or not:
   * the pair never opens and closes a quoted run.
   */
  lemma DoubledQuoteIsLiteral(tail: string, inQuotes: bool, current: string)
    ensures FieldsFrom("\"\"" + tail, inQuotes, current) == FieldsFrom(tail, inQuotes, current + "\"")
  {
    assert ("\"\"" + tail)[2..] == tail;
  }

  /** So a quoted empty field between two commas, anywhere in a line, reads as a single quote character. */
  lemma QuotedEmptyFieldAnywhere(tail: string, current: string)
    ensures FieldsFrom(",\"\"," + tail, false, current) == [current, "\""] + FieldsFrom(tail, false, "")
  {
    assert ",\"\"," + tail == [','] + ("\"\"" + ([','] + tail));
    CommaStep("\"\"" + ([','] + tail), current);
    DoubledQuoteIsLiteral([','] + tail, false, "");
    CommaStep(tail, "" + "\"");
    assert "" + "\"" == "\"";
  }

  /** A quoted empty field is a `""` pair, which reads as one literal quote. */
  lemma QuotedEmptyField()
    ensures Fields("a,\"\",b") == ["a", "\"", "b"]
  {
    var line := "a,\"\",b";
    assert line[1..] == ",\"\",b" && line[2..] == "\"\",b" && line[4..] == ",b" && line[5..] == "b";
    assert "b"[1..] == "";
    assert "" + ['a'] == "a" && "" + ['"'] == "\"" && "" + ['b'] == "b";
  }

  /* ---------------------------------------------------------------------- */
  /* The older parsePremiereCSVMarkers                                      */
  /* ---------------------------------------------------------------------- */

  /** The three characters this variant treats as misread bytes. */
  predicate IsStray(c: char)
  {
    c == '\U{00DE}' || c == '\U{00FC}' || c == '\U{00AB}'
  }

  function DropStray(s: string): (r: string)
    ensures |r| <= |s|
    ensures forall c :: c in r ==> c in s && !IsStray(c)
  {
    if s == [] then []
    else (if IsStray(s[0]) then [] else [s[0]]) + DropStray(s[1..])
  }

  /** A leading U+FEFF removed, then every stray character. */
  function CleanText(content: string): (r: string)
    ensures forall c :: c in r ==> !IsStray(c)
    ensures content != "" && content[0] == '\U{FEFF}' ==> r == DropStray(content[1..])
  {
    DropStray(if content != "" && content[0] == '\U{FEFF}' then content[1..] else content)
  }

  /** `/(マーカー|Marker|Name|名前|タイムコード|Timecode)/i`, with case folded on ASCII letters. */
  predicate HasHeaderWord(line: string)
  {
    var l := Lower(line);
    Contains(l, "マーカー") || Contains(l, "marker") || Contains(l, "name") ||
    Contains(l, "名前") || Contains(l, "タイムコード") || Contains(l, "timecode")
  }

  /** The first line is a header when it is not empty and holds no time or a header word. */
  predicate IsHeader(first: string)
  {
    first != "" && (Parsers.TimeOnly(first).None? || HasHeaderWord(first))
  }

  datatype HeaderRole = TimeRole | NameRole | NoRole

  /** A header cell's role, tested in the importer's order, lowercased but not trimmed. */
  function RoleOf(cell: string): HeaderRole
  {
    var h := Lower(cell);
    if Contains(h, "time") || Contains(h, "タイム") || Contains(h, "時間") || Contains(h, "インポイント") then TimeRole
    else if Contains(h, "name") || Contains(h, "名前") || Contains(h, "タイトル") || Contains(h, "説明") || Contains(h, "コメント") then NameRole
    else NoRole
  }

  /** The last of the first `n` header cells with a role, or -1. */
  function LastWithRole(headers: seq<string>, role: HeaderRole, n: nat): (r: int)
    requires n <= |headers|
    ensures -1 <= r < n
    ensures r >= 0 ==> RoleOf(headers[r]) == role
    ensures forall j :: r < j < n ==> RoleOf(headers[j]) != role
  {
    if n == 0 then -1
    else if RoleOf(headers[n - 1]) == role then n - 1
    else LastWithRole(headers, role, n - 1)
  }

  /** The time and name columns, -1 when not found. */
  datatype Columns = Columns(time: int, name: int)

  /** Both columns found (the scan gives -1 or an index). */
  predicate BothFound(cols: Columns)
  {
    cols.time >= 0 && cols.name >= 0
  }

  /** The header scan: only a header line is scanned, and the last cell of each role wins. */
  function ColumnsOf(first: string, header: bool): (cols: Columns)
    ensures !header ==> cols == Columns(-1, -1)
  {
    if !header then Columns(-1, -1)
    else
      var headers := Fields(first);
      Columns(LastWithRole(headers, TimeRole, |headers|), LastWithRole(headers, NameRole, |headers|))
  }

  /** The header loop, as the importer writes it. */
  method ScanHeaders(first: string, header: bool) returns (cols: Columns)
    ensures cols == ColumnsOf(first, header)
  {
    var timeIndex, nameIndex := -1, -1;
    if header {
      var headers := ParseCsvLine(first);
      for i := 0 to |headers|
        invariant timeIndex == LastWithRole(headers, TimeRole, i)
        invariant nameIndex == LastWithRole(headers, NameRole, i)
      {
        var role := RoleOf(headers[i]);
        if role == TimeRole {
          timeIndex := i;
        } else if role == NameRole {
          nameIndex := i;
        }
      }
    }
    cols := Columns(timeIndex, nameIndex);
  }

  /** The first element, from `j` on, that satisfies `p`. */
  function FirstWhere<T>(xs: seq<T>, j: nat, p: T -> bool): (r: Option<nat>)
    ensures r.Some? ==> j <= r.value < |xs| && p(xs[r.value])
    ensures r.Some? ==> forall k :: j <= k < r.value ==> !p(xs[k])
    ensures r.None? ==> forall k :: j <= k < |xs| ==> !p(xs[k])
    decreases |xs| - j
  {
    if j >= |xs| then None
    else if p(xs[j]) then Some(j)
    else FirstWhere(xs, j + 1, p)
  }

  /** A field that holds a time once trimmed. */
  predicate Timed(field: string)
  {
    Parsers.TimeOnly(Trim(field)).Some?
  }

  /** The title next to a timed field: the next field, else the previous one, else nothing. */
  function Neighbour(fields: seq<string>, j: nat): string
    requires j < |fields|
  {
    if j + 1 < |fields| then Trim(fields[j + 1])
    else if j > 0 then Trim(fields[j - 1])
    else ""
  }

  /**
   * One data row with `n` chapters read before it: the header columns when
   * both were found and the row reaches them, otherwise the first timed field
   * with its neighbour as title; an empty title, or in the second way one
   * holding a time, gives way to the numbered default.
   */
  function LegacyRow(line: string, cols: Columns, n: nat): (r: Option<Chapter>)
    ensures r.Some? ==> Parsers.NumberedChapter(r.value, n)
  {
    var row := Trim(line);
    if row == "" then None
    else
      var fields := Fields(row);
      if BothFound(cols) && |fields| > cols.time && |fields| > cols.name then
        match Parsers.TimeOnly(Trim(fields[cols.time]))
        case None => None
        case Some(t) =>
          var title := Trim(fields[cols.name]);
          TrimIdempotent(fields[cols.name]);
          Some(Chapter(t, if title == "" then Parsers.DefaultTitle(n) else title))
      else
        match FirstWhere(fields, 0, Timed)
        case None => None
        case Some(j) =>
          var title := Neighbour(fields, j);
          assert title != "" ==> Trim(title) == title by {
            if j + 1 < |fields| { TrimIdempotent(fields[j + 1]); }
            else if j > 0 { TrimIdempotent(fields[j - 1]); }
          }
          var name := if title == "" || Parsers.TimeOnly(title).Some? then Parsers.DefaultTitle(n) else title;
          Some(Chapter(Parsers.TimeOnly(Trim(fields[j])).value, name))
  }

  function LegacyRows(cols: Columns): (read: (string, nat) -> Option<Chapter>)
    ensures forall line, n :: read(line, n) == LegacyRow(line, cols, n)
  {
    (line: string, n: nat) => LegacyRow(line, cols, n)
  }

  /** The older `parsePremiereCSVMarkers`. */
  function LegacyChapters(content: string): seq<Chapter>
  {
    if content == "" then [] else LegacyLines(SplitLines(CleanText(content)))
  }

  /** The rows after the header line, if the first line is one, read with its columns. */
  function LegacyLines(lines: seq<string>): seq<Chapter>
    requires |lines| >= 1
  {
    var header := IsHeader(lines[0]);
    Parsers.Numbered(lines, if header then 1 else 0, 0, LegacyRows(ColumnsOf(lines[0], header)))
  }

  /** The older `parsePremiereCSVMarkers`: the header test and scan, then the row loop. */
  method ParseLegacyCsv(content: string) returns (chapters: seq<Chapter>)
    ensures chapters == LegacyChapters(content)
  {
    if content == "" {
      return [];
    }
    var lines := SplitLines(CleanText(content));
    var header := IsHeader(lines[0]);
    var cols := ScanHeaders(lines[0], header);
    chapters := Parsers.ReadCounted(lines, if header then 1 else 0, LegacyRows(cols));
  }

  /**
   * Every chapter carries a `DD:DD:DD` time and a non-empty name; a name
   * that is not the default for its position is a trimmed field.
   */
  lemma LegacyChaptersWellFormed(content: string)
    ensures forall k :: 0 <= k < |LegacyChapters(content)| ==> Parsers.NumberedChapter(LegacyChapters(content)[k], k)
  {
    if content != "" {
      LegacyLinesWellFormed(SplitLines(CleanText(content)));
    }
  }

  lemma LegacyLinesWellFormed(lines: seq<string>)
    requires |lines| >= 1
    ensures forall k :: 0 <= k < |LegacyLines(lines)| ==> Parsers.NumberedChapter(LegacyLines(lines)[k], k)
  {
    var header := IsHeader(lines[0]);
    LegacyRowsNumbered(ColumnsOf(lines[0], header));
    Parsers.NumberedAll(lines, if header then 1 else 0, 0, LegacyRows(ColumnsOf(lines[0], header)), Parsers.NumberedChapter);
  }

  /** Every row read is a chapter fit for its position. */
  lemma LegacyRowsNumbered(cols: Columns)
    ensures forall line, n :: LegacyRows(cols)(line, n).Some? ==>
              Parsers.NumberedChapter(LegacyRows(cols)(line, n).value, n)
  {
  }

  /** Header columns are used only when both were found and the row reaches both. */
  lemma HeaderColumnsRow(line: string, cols: Columns, n: nat)
    requires Trim(line) != "" && BothFound(cols)
    requires |Fields(Trim(line))| > cols.time && |Fields(Trim(line))| > cols.name
    ensures LegacyRow(line, cols, n).Some? <==> Parsers.TimeOnly(Trim(Fields(Trim(line))[cols.time])).Some?
    ensures LegacyRow(line, cols, n).Some? ==>
              LegacyRow(line, cols, n).value.time == Parsers.TimeOnly(Trim(Fields(Trim(line))[cols.time])).value
  {
  }

  /**
   * Otherwise the first timed field gives the time; the title is its
   * neighbour unless that is empty or holds a time.
   */
  lemma ScannedRow(line: string, cols: Columns, n: nat)
    requires Trim(line) != ""
    requires !(BothFound(cols) && |Fields(Trim(line))| > cols.time && |Fields(Trim(line))| > cols.name)
    ensures LegacyRow(line, cols, n).Some? <==> FirstWhere(Fields(Trim(line)), 0, Timed).Some?
    ensures LegacyRow(line, cols, n).Some? ==>
              var fields := Fields(Trim(line));
              var j := FirstWhere(fields, 0, Timed).value;
              LegacyRow(line, cols, n).value.time == Parsers.TimeOnly(Trim(fields[j])).value &&
              (LegacyRow(line, cols, n).value.name == Parsers.DefaultTitle(n) <==>
                 Neighbour(fields, j) == "" || Parsers.TimeOnly(Neighbour(fields, j)).Some? ||
                 Neighbour(fields, j) == Parsers.DefaultTitle(n))
  {
  }
}
