/**
 * The readers of app/utils/parsers.js: format detection from the file name
 * and the content, the display names, the parser table, and the four
 * readers that turn DaVinci Resolve EDL, Premiere Pro EDL, Premiere Pro
 * marker text and Premiere Pro marker CSV exports into chapter lists.
 *
 * Each regular expression is written out as a predicate or a search over
 * characters; each reader is a loop proved equal to a function that states
 * what one pass of the loop does.
 */
module Parsers {
  import opened Wrappers
  import opened Text
  import opened ChapterOps

  /* ---------------------------------------------------------------------- */
  /* Formats                                                                */
  /* ---------------------------------------------------------------------- */

  datatype Format = DaVinci | PremiereEdl | PremiereTxt | PremiereCsv

  /** The identifier strings the parsers pass around. */
  function FormatId(f: Format): string
  {
    match f
    case DaVinci => "davinci"
    case PremiereEdl => "premiereedl"
    case PremiereTxt => "premieretxt"
    case PremiereCsv => "premierecsv"
  }

  /** `PARSERS[id]`: the reader registered under an identifier. */
  function ParserFor(id: string): (r: Option<Format>)
    ensures r.Some? ==> FormatId(r.value) == id
    ensures r.None? ==> id !in {"davinci", "premiereedl", "premieretxt", "premierecsv"}
  {
    if id == "davinci" then Some(DaVinci)
    else if id == "premiereedl" then Some(PremiereEdl)
    else if id == "premieretxt" then Some(PremiereTxt)
    else if id == "premierecsv" then Some(PremiereCsv)
    else None
  }

  /** Every format has a reader registered under its identifier. */
  lemma EveryFormatHasParser(f: Format)
    ensures ParserFor(FormatId(f)) == Some(f)
  {
  }

  /** `getFormatDisplayName`. */
  function FormatDisplayName(id: string): (name: string)
    ensures ParserFor(id).None? ==> name == "不明"
  {
    match ParserFor(id)
    case Some(DaVinci) => "DaVinci Resolve EDL"
    case Some(PremiereEdl) => "Premiere Pro EDL"
    case Some(PremiereTxt) => "Premiere Pro マーカーテキスト"
    case Some(PremiereCsv) => "Premiere Pro マーカーCSV"
    case None => "不明"
  }

  /** The four formats have four different display names, none of them the unknown one. */
  lemma DisplayNamesDistinct(f: Format, g: Format)
    ensures f != g ==> FormatDisplayName(FormatId(f)) != FormatDisplayName(FormatId(g))
    ensures FormatDisplayName(FormatId(f)) != "不明"
  {
  }

  /* ---------------------------------------------------------------------- */
  /* Shared patterns                                                        */
  /* ---------------------------------------------------------------------- */

  /** `line.match(/(\d{2}:\d{2}:\d{2}):\d{2}/)`: the time part of the first timecode. */
  function TimecodeTime(line: string): (t: Option<string>)
    ensures t.Some? ==> IsValidTimeFormat(t.value)
    ensures t.None? <==> forall j: nat :: !TimecodeAt(line, j)
  {
    match FindTimecode(line, 0)
    case Some(k) => Some(TimeText(line, k))
    case None => None
  }

  /** `line.match(/(\d{2}:\d{2}:\d{2})(:\d{2})?/)`: the first time, frames optional. */
  function TimeOnly(line: string): (t: Option<string>)
    ensures t.Some? ==> IsValidTimeFormat(t.value)
    ensures t.None? <==> forall j: nat :: !TimeAt(line, j)
  {
    match FindTime(line, 0)
    case Some(k) => Some(TimeText(line, k))
    case None => None
  }

  /* ---------------------------------------------------------------------- */
  /* EDL name lines                                                         */
  /* ---------------------------------------------------------------------- */

  /** `name` sits between a `|M:` at `p` and the `|D:` right after it. */
  predicate MarkerBetween(line: string, p: nat, name: string)
  {
    OccursAt(line, "|M:", p) && p + 3 + |name| <= |line| &&
    line[p + 3..p + 3 + |name|] == name && OccursAt(line, "|D:", p + 3 + |name|)
  }

  /**
   * `/\|M:(.+?)\|D:/` from index `from`: at the first `|M:`, the shortest
   * non-empty text up to a `|D:`; a line terminator in that text makes the
   * attempt fail and the search resumes after that `|M:`.
   */
  function MarkerNameFrom(line: string, from: nat): (r: Option<string>)
    requires from <= |line|
    ensures r.Some? ==> r.value != "" && NoLineBreak(r.value)
    ensures r.Some? ==> exists p: nat :: MarkerBetween(line, p, r.value)
    decreases |line| - from
  {
    match IndexOf(line, "|M:", from)
    case None => None
    case Some(p) =>
      if p + 4 > |line| then None
      else
        match IndexOf(line, "|D:", p + 4)
        case None => None
        case Some(q) =>
          var name := line[p + 3..q];
          if NoLineBreak(name) then
            assert MarkerBetween(line, p, name);
            Some(name)
          else MarkerNameFrom(line, p + 1)
  }

  /** The index of the first line terminator at or after `a`, or the end. */
  function RunEnd(line: string, a: nat): (e: nat)
    requires a <= |line|
    ensures a <= e <= |line| && NoLineBreak(line[a..e])
    ensures e < |line| ==> IsLineTerminator(line[e])
    decreases |line| - a
  {
    if a == |line| || IsLineTerminator(line[a]) then a
    else
      var e := RunEnd(line, a + 1);
      assert line[a..e] == [line[a]] + line[a + 1..e];
      e
  }

  /** Position `i` is past the end or holds a line terminator. */
  predicate CannotStart(line: string, i: int)
  {
    i >= |line| || (0 <= i && IsLineTerminator(line[i]))
  }

  /** The largest `j <= w` such that `line[k + j]` exists and is not a line terminator. */
  function NameStart(line: string, k: nat, w: nat): (r: Option<nat>)
    ensures r.Some? ==> r.value <= w && k + r.value < |line| && !IsLineTerminator(line[k + r.value])
    ensures r.Some? ==> forall i :: k + r.value < i <= k + w ==> CannotStart(line, i)
    ensures r.None? ==> forall i :: k <= i <= k + w ==> CannotStart(line, i)
  {
    if k + w < |line| && !IsLineTerminator(line[k + w]) then Some(w)
    else if w == 0 then None
    else NameStart(line, k, w - 1)
  }

  const ClipTag: string := "* FROM CLIP NAME:"

  /**
   * `/\* FROM CLIP NAME:\s*(.+)/`: after the first tag, white space taken
   * greedily, then the longest run without a line terminator; when the
   * white space reaches the end it gives back characters until one can start
   * the run.
   */
  function ClipNameCapture(line: string): (r: Option<string>)
    ensures r.Some? ==> r.value != "" && NoLineBreak(r.value)
  {
    match IndexOf(line, ClipTag, 0)
    case None => None
    case Some(p) =>
      var k := p + |ClipTag|;
      match NameStart(line, k, LeadingSpaces(line[k..]))
      case None => None
      case Some(j) => Some(line[k + j..RunEnd(line, k + j)])
  }

  /** Which of the two EDL dialects a name line is read in. */
  datatype NameRule = MarkerField | ClipNameField

  /** The captured name on a line, before trimming. */
  function NameOn(line: string, rule: NameRule): Option<string>
  {
    match rule
    case MarkerField => MarkerNameFrom(line, 0)
    case ClipNameField => ClipNameCapture(line)
  }

  /* ---------------------------------------------------------------------- */
  /* EDL readers                                                            */
  /* ---------------------------------------------------------------------- */

  /** The outcome of one pass of the EDL loop: what it pushes, where it continues, the pending time. */
  datatype EdlPass = EdlPass(pushed: seq<Chapter>, next: nat, pending: Option<string>)

  /**
   * One pass at line `i`: a timecode on the line becomes the pending time;
   * with a pending time and a next line whose name pattern matches, the
   * chapter is pushed, the name line is skipped and the pending time cleared.
   */
  function EdlStep(lines: seq<string>, i: nat, pending: Option<string>, rule: NameRule): (s: EdlPass)
    requires i < |lines|
    ensures i < s.next <= |lines| && s.next <= i + 2
  {
    var t := match TimecodeTime(lines[i]) case Some(x) => Some(x) case None => pending;
    if t.Some? && i + 1 < |lines| then
      match NameOn(lines[i + 1], rule)
      case Some(name) => EdlPass([Chapter(t.value, Trim(name))], i + 2, None)
      case None => EdlPass([], i + 1, t)
    else EdlPass([], i + 1, t)
  }

  /** The chapters the loop pushes from line `i` on. */
  function EdlFrom(lines: seq<string>, i: nat, pending: Option<string>, rule: NameRule): seq<Chapter>
    decreases |lines| - i
  {
    if i >= |lines| then []
    else
      var s := EdlStep(lines, i, pending, rule);
      s.pushed + EdlFrom(lines, s.next, s.pending, rule)
  }

  /** `parseDaVinciEDL` (marker fields) and `parsePremiereEDL` (clip names). */
  function EdlChapters(content: string, rule: NameRule): seq<Chapter>
  {
    if content == "" then [] else EdlFrom(SplitLines(content), 0, None, rule)
  }

  lemma EdlFromStep(lines: seq<string>, i: nat, pending: Option<string>, rule: NameRule)
    requires i < |lines|
    ensures EdlFrom(lines, i, pending, rule) ==
            EdlStep(lines, i, pending, rule).pushed +
            EdlFrom(lines, EdlStep(lines, i, pending, rule).next, EdlStep(lines, i, pending, rule).pending, rule)
  {
  }

  /** One pass of the loop body, as the parser writes it. */
  method EdlPassAt(lines: seq<string>, i: nat, lastTime: Option<string>, rule: NameRule)
    returns (pushed: seq<Chapter>, next: nat, pending: Option<string>)
    requires i < |lines|
    ensures EdlPass(pushed, next, pending) == EdlStep(lines, i, lastTime, rule)
  {
    pending := lastTime;
    match TimecodeTime(lines[i]) {
      case Some(t) => pending := Some(t);
      case None =>
    }
    pushed, next := [], i + 1;
    if pending.Some? && i + 1 < |lines| {
      match NameOn(lines[i + 1], rule) {
        case Some(name) =>
          pushed := [Chapter(pending.value, Trim(name))];
          pending := None;
          next := i + 2;
        case None =>
      }
    }
  }

  /** `parseDaVinciEDL` / `parsePremiereEDL`: the loop over the lines. */
  method ParseEdl(content: string, rule: NameRule) returns (chapters: seq<Chapter>)
    ensures chapters == EdlChapters(content, rule)
  {
    if content == "" {
      return [];
    }
    var lines := SplitLines(content);
    ghost var goal := EdlFrom(lines, 0, None, rule);
    chapters := [];
    var lastTime: Option<string> := None;
    var i := 0;
    while i < |lines|
      invariant i <= |lines|
      invariant chapters + EdlFrom(lines, i, lastTime, rule) == goal
      decreases |lines| - i
    {
      var pushed, next, pending := EdlPassAt(lines, i, lastTime, rule);
      EdlFromStep(lines, i, lastTime, rule);
      AppendAssocItems(chapters, pushed, EdlFrom(lines, next, pending, rule));
      chapters, i, lastTime := chapters + pushed, next, pending;
    }
    assert chapters + [] == chapters;
  }

  /** Every EDL chapter carries a `DD:DD:DD` time and a trimmed name. */
  lemma {:induction false} EdlChaptersWellFormed(lines: seq<string>, i: nat, pending: Option<string>, rule: NameRule)
    requires pending.Some? ==> IsValidTimeFormat(pending.value)
    ensures forall c :: c in EdlFrom(lines, i, pending, rule) ==> IsValidTimeFormat(c.time) && Trim(c.name) == c.name
    decreases |lines| - i
  {
    if i < |lines| {
      var s := EdlStep(lines, i, pending, rule);
      EdlChaptersWellFormed(lines, s.next, s.pending, rule);
      forall c | c in s.pushed ensures Trim(c.name) == c.name {
        TrimIdempotent(c.name);
      }
    }
  }

  /** Each chapter takes two lines, its time line and its name line. */
  lemma {:induction false} EdlChapterCount(lines: seq<string>, i: nat, pending: Option<string>, rule: NameRule)
    ensures 2 * |EdlFrom(lines, i, pending, rule)| <= |lines| - i || i >= |lines|
    decreases |lines| - i
  {
    if i < |lines| {
      var s := EdlStep(lines, i, pending, rule);
      EdlChapterCount(lines, s.next, s.pending, rule);
    }
  }

  /** Without a timecode there is no chapter. */
  lemma {:induction false} EdlNeedsTimecode(lines: seq<string>, i: nat, rule: NameRule)
    requires forall j :: i <= j < |lines| ==> TimecodeTime(lines[j]).None?
    ensures EdlFrom(lines, i, None, rule) == []
    decreases |lines| - i
  {
    if i < |lines| {
      EdlNeedsTimecode(lines, i + 1, rule);
    }
  }

  /** Without a line the name pattern matches there is no chapter either. */
  lemma {:induction false} EdlNeedsNameLine(lines: seq<string>, i: nat, pending: Option<string>, rule: NameRule)
    requires forall j :: i < j < |lines| ==> NameOn(lines[j], rule).None?
    ensures EdlFrom(lines, i, pending, rule) == []
    decreases |lines| - i
  {
    if i < |lines| {
      var s := EdlStep(lines, i, pending, rule);
      EdlNeedsNameLine(lines, s.next, s.pending, rule);
    }
  }

  /* ---------------------------------------------------------------------- */
  /* Premiere Pro marker text                                               */
  /* ---------------------------------------------------------------------- */

  /** The non-empty parts of a string cut at tabs. */
  function NonEmptyParts(parts: seq<string>): (r: seq<string>)
    ensures forall p :: p in r ==> p != "" && p in parts
  {
    if parts == [] then []
    else (if parts[0] == "" then [] else [parts[0]]) + NonEmptyParts(parts[1..])
  }

  /**
   * `line.split(/\t+/)` on a trimmed line: the line starts and ends with
   * something other than a tab, so only the empty parts between two
   * adjacent tabs differ from a split at every tab, and they are dropped.
   */
  function TabFields(line: string): seq<string>
  {
    NonEmptyParts(Split(line, {'\t'}))
  }

  /** The header test: a first line that is not empty and names a column or holds no time. */
  predicate TxtHeader(first: string)
  {
    first != "" &&
    (Contains(first, "アセット名") || Contains(first, "インポイント") || Contains(first, "説明") ||
     TimeOnly(first).None?)
  }

  /** The index of the first line read as a marker. */
  function TxtStart(lines: seq<string>): (start: nat)
    requires |lines| >= 1
    ensures start <= |lines|
    ensures start == 1 <==> TxtHeader(lines[0])
  {
    if TxtHeader(lines[0]) then 1 else 0
  }

  /**
   * One row: three or more fields are asset, timecode, title and need a
   * full timecode; two fields are time and title, frames optional; any
   * other row is skipped.
   */
  function TxtRow(line: string): (r: seq<Chapter>)
    ensures |r| <= 1
    ensures forall c :: c in r ==> IsValidTimeFormat(c.time) && Trim(c.name) == c.name
  {
    var row := Trim(line);
    if row == "" then []
    else
      var parts := TabFields(row);
      if |parts| >= 3 then
        match TimecodeTime(Trim(parts[1]))
        case Some(t) => TrimIdempotent(parts[2]); [Chapter(t, Trim(parts[2]))]
        case None => []
      else if |parts| == 2 then
        match TimeOnly(Trim(parts[0]))
        case Some(t) => TrimIdempotent(parts[1]); [Chapter(t, Trim(parts[1]))]
        case None => []
      else []
  }

  /** `parsePremiereTxtMarkers`. */
  function TxtChapters(content: string): seq<Chapter>
  {
    if content == "" then []
    else
      var lines := SplitLines(content);
      FlatMap(lines[TxtStart(lines)..], TxtRow)
  }

  /** `parsePremiereTxtMarkers`: the loop over the rows after the header. */
  method ParseTxt(content: string) returns (chapters: seq<Chapter>)
    ensures chapters == TxtChapters(content)
  {
    if content == "" {
      return [];
    }
    var lines := SplitLines(content);
    var start := TxtStart(lines);
    chapters := [];
    var i := start;
    while i < |lines|
      invariant start <= i <= |lines|
      invariant chapters == FlatMap(lines[start..i], TxtRow)
    {
      FlatMapSliceStep(lines, start, i, TxtRow);
      chapters := chapters + TxtRow(lines[i]);
      i := i + 1;
    }
    assert lines[start..i] == lines[start..];
  }

  /** Every marker-text chapter carries a `DD:DD:DD` time and a trimmed name, and each comes from one row. */
  lemma TxtChaptersWellFormed(content: string)
    ensures forall c :: c in TxtChapters(content) ==> IsValidTimeFormat(c.time) && Trim(c.name) == c.name
    ensures content != "" ==> |TxtChapters(content)| <= |SplitLines(content)|
  {
    if content != "" {
      var lines := SplitLines(content);
      TxtRowsWellFormed(lines[TxtStart(lines)..]);
    }
  }

  lemma TxtRowsWellFormed(rows: seq<string>)
    ensures forall c :: c in FlatMap(rows, TxtRow) ==> IsValidTimeFormat(c.time) && Trim(c.name) == c.name
    ensures |FlatMap(rows, TxtRow)| <= |rows|
  {
    forall c | c in FlatMap(rows, TxtRow)
      ensures IsValidTimeFormat(c.time) && Trim(c.name) == c.name
    {
      FlatMapOrigin(rows, TxtRow, c);
    }
    AtMostOneEach(rows, TxtRow);
  }

  /** Flattening pieces of at most one element keeps at most one element per input. */
  lemma {:induction false} AtMostOneEach<A, B>(xs: seq<A>, f: A -> seq<B>)
    requires forall x :: x in xs ==> |f(x)| <= 1
    ensures |FlatMap(xs, f)| <= |xs|
  {
    if xs != [] {
      AtMostOneEach(xs[1..], f);
    }
  }

  /** A two-field row reads its time from the first field and its title from the second. */
  lemma TxtTwoFieldRow(line: string)
    requires Trim(line) != "" && |TabFields(Trim(line))| == 2
    requires TimeOnly(Trim(TabFields(Trim(line))[0])).Some?
    ensures TxtRow(line) == [Chapter(TimeOnly(Trim(TabFields(Trim(line))[0])).value, Trim(TabFields(Trim(line))[1]))]
  {
  }

  /** A row of three or more fields needs a full timecode in its second field. */
  lemma TxtLongRowNeedsTimecode(line: string)
    requires Trim(line) != "" && |TabFields(Trim(line))| >= 3
    ensures TxtRow(line) != [] <==> TimecodeTime(Trim(TabFields(Trim(line))[1])).Some?
  {
  }

  /* ---------------------------------------------------------------------- */
  /* Premiere Pro marker CSV                                                */
  /* ---------------------------------------------------------------------- */

  /** `replace(/^\uFEFF|\uFFFE/, '')`: a leading U+FEFF, else the first U+FFFE anywhere. */
  function StripBom(s: string): (r: string)
    ensures |r| == |s| || |r| == |s| - 1
    ensures s != [] && s[0] == '\U{FEFF}' ==> r == s[1..]
  {
    if s != [] && s[0] == '\U{FEFF}' then s[1..] else RemoveFirst(s, '\U{FFFE}')
  }

  /** The string without the first occurrence of `c`, if there is one. */
  function RemoveFirst(s: string, c: char): (r: string)
    ensures c in s ==> |r| == |s| - 1
    ensures c !in s ==> r == s
  {
    if s == [] then []
    else if s[0] == c then s[1..]
    else [s[0]] + RemoveFirst(s[1..], c)
  }

  /** The five characters a CP1252 misreading leaves behind. */
  predicate IsMojibake(c: char)
  {
    c == '\U{00DE}' || c == '\U{00FC}' || c == '\U{00AB}' || c == '\U{00FE}' || c == '\U{00FF}'
  }

  /** `replace(/[\u00DE\u00FC\u00AB\u00FE\u00FF]/g, '')`. */
  function DropMojibake(s: string): (r: string)
    ensures |r| <= |s|
    ensures forall c :: c in r ==> c in s && !IsMojibake(c)
  {
    if s == [] then []
    else (if IsMojibake(s[0]) then [] else [s[0]]) + DropMojibake(s[1..])
  }

  /** What a header cell names, tested in the parser's order. */
  datatype ColumnKind = NameColumn | DescriptionColumn | InPointColumn | OtherColumn

  function HeaderKind(cell: string): ColumnKind
  {
    var h := Lower(Trim(cell));
    if Contains(h, "マーカー名") || Contains(h, "name") || Contains(h, "名前") then NameColumn
    else if Contains(h, "説明") || Contains(h, "コメント") || Contains(h, "description") || Contains(h, "comment") then DescriptionColumn
    else if Contains(h, "イン") || Contains(h, "インポイント") || Contains(h, "in") || Contains(h, "start") then InPointColumn
    else OtherColumn
  }

  /** The last of the first `n` headers of a kind, or -1. */
  function LastOfKind(headers: seq<string>, kind: ColumnKind, n: nat): (r: int)
    requires n <= |headers|
    ensures -1 <= r < n
    ensures r >= 0 ==> HeaderKind(headers[r]) == kind
    ensures forall j :: r < j < n ==> HeaderKind(headers[j]) != kind
  {
    if n == 0 then -1
    else if HeaderKind(headers[n - 1]) == kind then n - 1
    else LastOfKind(headers, kind, n - 1)
  }

  /** The columns a CSV is read by. */
  datatype Columns = Columns(name: int, description: int, inPoint: nat)

  /** The header scan's outcome: the last column of each kind, the in-point defaulting to the third. */
  function ColumnsOf(headers: seq<string>): (cols: Columns)
    ensures cols.inPoint == 2 || (cols.inPoint < |headers| && HeaderKind(headers[cols.inPoint]) == InPointColumn)
  {
    var inPoint := LastOfKind(headers, InPointColumn, |headers|);
    Columns(LastOfKind(headers, NameColumn, |headers|),
            LastOfKind(headers, DescriptionColumn, |headers|),
            if inPoint == -1 then 2 else inPoint)
  }

  /** The header loop, as the parser writes it. */
  method ScanHeaders(headers: seq<string>) returns (cols: Columns)
    ensures cols == ColumnsOf(headers)
  {
    var markerName, description, inPoint := -1, -1, -1;
    for i := 0 to |headers|
      invariant markerName == LastOfKind(headers, NameColumn, i)
      invariant description == LastOfKind(headers, DescriptionColumn, i)
      invariant inPoint == LastOfKind(headers, InPointColumn, i)
    {
      var kind := HeaderKind(headers[i]);
      if kind == NameColumn {
        markerName := i;
      } else if kind == DescriptionColumn {
        description := i;
      } else if kind == InPointColumn {
        inPoint := i;
      }
    }
    if inPoint == -1 {
      inPoint := 2;
    }
    cols := Columns(markerName, description, inPoint);
  }

  /** The title given to the `n`-th chapter (counting from 0) when its row names none. */
  function DefaultTitle(n: nat): string
  {
    "マーカー " + Decimal(n + 1)
  }

  /** The trimmed cell at `index`, or "" when the row has no such cell. */
  function CellAt(fields: seq<string>, index: int): (r: string)
    ensures r != "" ==> 0 <= index < |fields| && r == Trim(fields[index])
  {
    if 0 <= index < |fields| then Trim(fields[index]) else ""
  }

  /** The title: the name cell, else the description cell, else the default. */
  function CsvTitle(fields: seq<string>, cols: Columns, n: nat): (title: string)
    ensures title != ""
    ensures title == DefaultTitle(n) || Trim(title) == title
  {
    var name := CellAt(fields, cols.name);
    var description := CellAt(fields, cols.description);
    if name != "" then TrimIdempotent(fields[cols.name]); name
    else if description != "" then TrimIdempotent(fields[cols.description]); description
    else DefaultTitle(n)
  }

  /** One data row, with `n` chapters read before it. */
  function CsvRow(line: string, cols: Columns, n: nat): (r: Option<Chapter>)
    ensures r.Some? ==> NumberedChapter(r.value, n)
  {
    var row := Trim(line);
    if row == "" then None
    else
      var fields := Split(row, {'\t', ','});
      if |fields| <= cols.inPoint then None
      else
        match TimeOnly(Trim(fields[cols.inPoint]))
        case None => None
        case Some(t) => Some(Chapter(t, CsvTitle(fields, cols, n)))
  }

  /**
   * The items `f` reads from `xs[i..]`, where `f` is told how many items
   * were read before the element it is given.
   */
  function Numbered<A, B>(xs: seq<A>, i: nat, n: nat, f: (A, nat) -> Option<B>): seq<B>
    decreases |xs| - i
  {
    if i >= |xs| then []
    else
      match f(xs[i], n)
      case Some(b) => [b] + Numbered(xs, i + 1, n + 1, f)
      case None => Numbered(xs, i + 1, n, f)
  }

  /** What holds of every item `f` reads, told how many came before, holds of every item of the walk. */
  lemma {:induction false} NumberedAll<A, B>(xs: seq<A>, i: nat, n: nat, f: (A, nat) -> Option<B>, ok: (B, nat) -> bool)
    requires forall x, k :: f(x, k).Some? ==> ok(f(x, k).value, k)
    ensures forall k :: 0 <= k < |Numbered(xs, i, n, f)| ==> ok(Numbered(xs, i, n, f)[k], n + k)
    ensures |Numbered(xs, i, n, f)| <= |xs| - i || i >= |xs|
    decreases |xs| - i
  {
    if i < |xs| {
      match f(xs[i], n)
      case Some(b) =>
        NumberedAll(xs, i + 1, n + 1, f, ok);
        var r := Numbered(xs, i + 1, n + 1, f);
        assert forall k :: 1 <= k < |r| + 1 ==> ([b] + r)[k] == r[k - 1];
      case None =>
        NumberedAll(xs, i + 1, n, f, ok);
    }
  }

  /**
   * The `k`-th chapter (from 0) of a reader that numbers untitled markers:
   * a `DD:DD:DD` time and a non-empty name, which is either the default for
   * its position or a trimmed field.
   */
  predicate NumberedChapter(c: Chapter, k: nat)
  {
    IsValidTimeFormat(c.time) && c.name != "" && (c.name == DefaultTitle(k) || Trim(c.name) == c.name)
  }

  /** The row reader with the columns fixed. */
  function CsvRows(cols: Columns): (read: (string, nat) -> Option<Chapter>)
    ensures forall line, n :: read(line, n) == CsvRow(line, cols, n)
  {
    (line: string, n: nat) => CsvRow(line, cols, n)
  }

  /** The text the CSV reader splits into lines. */
  function CsvText(content: string): string
  {
    DropMojibake(StripBom(content))
  }

  /** `parsePremiereCSVMarkers`. */
  function CsvChapters(content: string): seq<Chapter>
  {
    if content == "" then []
    else
      var lines := SplitLines(CsvText(content));
      if |lines| <= 1 then []
      else Numbered(lines, 1, 0, CsvRows(ColumnsOf(Split(lines[0], {'\t', ','}))))
  }

  /** `parsePremiereCSVMarkers`: the header scan, then the loop over the data rows. */
  method ParseCsv(content: string) returns (chapters: seq<Chapter>)
    ensures chapters == CsvChapters(content)
  {
    if content == "" {
      return [];
    }
    var lines := SplitLines(CsvText(content));
    if |lines| <= 1 {
      return [];
    }
    var cols := ScanHeaders(Split(lines[0], {'\t', ','}));
    chapters := ReadCounted(lines, 1, CsvRows(cols));
  }

  /**
   * The data-row loop: each row is read knowing how many chapters were
   * pushed before it, and what it yields is pushed.
   */
  method ReadCounted<A, B>(xs: seq<A>, start: nat, read: (A, nat) -> Option<B>) returns (items: seq<B>)
    ensures items == Numbered(xs, start, 0, read)
  {
    ghost var goal := Numbered(xs, start, 0, read);
    items := [];
    var i := start;
    while i < |xs|
      invariant items + Numbered(xs, i, |items|, read) == goal
      decreases |xs| - i
    {
      match read(xs[i], |items|) {
        case Some(b) =>
          AppendAssocItems(items, [b], Numbered(xs, i + 1, |items| + 1, read));
          items := items + [b];
        case None =>
      }
      i := i + 1;
    }
    assert items + [] == items;
  }

  lemma AppendAssocItems<B>(a: seq<B>, b: seq<B>, c: seq<B>)
    ensures a + (b + c) == (a + b) + c
  {
  }

  /**
   * Every CSV chapter carries a `DD:DD:DD` time and a non-empty title, a
   * chapter whose row names no title is numbered by its own position, and
   * each data row gives at most one chapter.
   */
  lemma CsvChaptersWellFormed(content: string)
    ensures forall k :: 0 <= k < |CsvChapters(content)| ==> NumberedChapter(CsvChapters(content)[k], k)
    ensures |CsvChapters(content)| < |SplitLines(CsvText(content))|
  {
    var lines := SplitLines(CsvText(content));
    if content != "" && |lines| > 1 {
      var readRow := CsvRows(ColumnsOf(Split(lines[0], {'\t', ','})));
      NumberedAll(lines, 1, 0, readRow, NumberedChapter);
    }
  }

  /** None of the five stray characters reaches a chapter name. */
  lemma CsvTextClean(content: string)
    ensures forall c :: c in CsvText(content) ==> !IsMojibake(c)
  {
  }

  /* ---------------------------------------------------------------------- */
  /* Dispatch                                                               */
  /* ---------------------------------------------------------------------- */

  /** `PARSERS[format](content)`. */
  function ParseWith(f: Format, content: string): seq<Chapter>
  {
    match f
    case DaVinci => EdlChapters(content, MarkerField)
    case PremiereEdl => EdlChapters(content, ClipNameField)
    case PremiereTxt => TxtChapters(content)
    case PremiereCsv => CsvChapters(content)
  }

  /** Whatever the format, every chapter read carries a `DD:DD:DD` time and a non-empty name. */
  lemma ParsedChaptersWellFormed(f: Format, content: string)
    ensures forall c :: c in ParseWith(f, content) ==> IsValidTimeFormat(c.time)
    ensures forall c :: c in ParseWith(f, content) ==> c.name != "" || f == PremiereTxt || f == DaVinci || f == PremiereEdl
    ensures content == "" ==> ParseWith(f, content) == []
  {
    match f
    case DaVinci =>
      if content != "" { EdlChaptersWellFormed(SplitLines(content), 0, None, MarkerField); }
    case PremiereEdl =>
      if content != "" { EdlChaptersWellFormed(SplitLines(content), 0, None, ClipNameField); }
    case PremiereTxt =>
      TxtChaptersWellFormed(content);
    case PremiereCsv =>
      CsvChaptersWellFormed(content);
  }

  /* ---------------------------------------------------------------------- */
  /* Format detection                                                       */
  /* ---------------------------------------------------------------------- */

  /** `filename.split('.').pop().toLowerCase()`. */
  function Extension(filename: string): string
  {
    var parts := Split(filename, {'.'});
    Lower(parts[|parts| - 1])
  }

  /** `/^\s*\uFEFF?word/`: the word right after the leading white space (which takes in U+FEFF). */
  predicate StartsAfterSpace(content: string, word: string)
  {
    OccursAt(content, word, LeadingSpaces(content))
  }

  /** The Premiere marker text signs: its column names, or a sequence title with timecodes and tabs. */
  predicate LooksLikeMarkerText(content: string)
  {
    (Contains(content, "アセット名") && Contains(content, "インポイント") && Contains(content, "説明")) ||
    (Contains(content, "シーケンス") && FindTimecode(content, 0).Some? && '\t' in content)
  }

  /** The Premiere marker CSV signs: a header starting with one of its column names. */
  predicate LooksLikeMarkerCsv(content: string)
  {
    StartsAfterSpace(content, "マーカー") || StartsAfterSpace(content, "Marker") ||
    StartsAfterSpace(content, "Name") || StartsAfterSpace(content, "名前")
  }

  /** A `.csv` or `.txt` file name, which decides the format before the content is looked at. */
  predicate NameDecides(filename: string)
  {
    filename != "" && Extension(filename) in {"csv", "txt"}
  }

  /** Content that none of the named formats' signs match. */
  predicate NoFormatSign(content: string)
  {
    !Contains(content, "|M:") && !Contains(content, ClipTag) &&
    !LooksLikeMarkerText(content) && !LooksLikeMarkerCsv(content)
  }

  /**
   * `detectFileFormat`: nothing for empty content; a `.csv` or `.txt` name
   * decides; then the content's signs in a fixed order; then any time with
   * a comma (CSV) or a tab (text); otherwise nothing.
   */
  function DetectFileFormat(content: string, filename: string): (r: Option<Format>)
    ensures content == "" ==> r == None
    ensures content != "" && filename != "" && Extension(filename) == "csv" ==> r == Some(PremiereCsv)
    ensures content != "" && filename != "" && Extension(filename) == "txt" ==> r == Some(PremiereTxt)
    ensures r == Some(DaVinci) <==>
              content != "" && (filename == "" || Extension(filename) !in {"csv", "txt"}) && Contains(content, "|M:")
    ensures content != "" && !NameDecides(filename) && !Contains(content, "|M:") && Contains(content, ClipTag) ==>
              r == Some(PremiereEdl)
    ensures (content != "" && !NameDecides(filename) && !Contains(content, "|M:") && !Contains(content, ClipTag) &&
             LooksLikeMarkerText(content)) ==> r == Some(PremiereTxt)
    ensures (content != "" && !NameDecides(filename) && !Contains(content, "|M:") && !Contains(content, ClipTag) &&
             !LooksLikeMarkerText(content) && LooksLikeMarkerCsv(content)) ==> r == Some(PremiereCsv)
    ensures content != "" && !NameDecides(filename) && NoFormatSign(content) && TimeOnly(content).Some? ==>
              (',' in content ==> r == Some(PremiereCsv)) &&
              (',' !in content && '\t' in content ==> r == Some(PremiereTxt))
    ensures r.None? <==>
              content == "" ||
              (!NameDecides(filename) && NoFormatSign(content) &&
               (TimeOnly(content).None? || (',' !in content && '\t' !in content)))
  {
    if content == "" then None
    else if filename != "" && Extension(filename) == "csv" then Some(PremiereCsv)
    else if filename != "" && Extension(filename) == "txt" then Some(PremiereTxt)
    else if Contains(content, "|M:") then Some(DaVinci)
    else if Contains(content, ClipTag) then Some(PremiereEdl)
    else if LooksLikeMarkerText(content) then Some(PremiereTxt)
    else if LooksLikeMarkerCsv(content) then Some(PremiereCsv)
    else if TimeOnly(content).Some? && (',' in content || '\t' in content) then
      if ',' in content then Some(PremiereCsv) else Some(PremiereTxt)
    else None
  }

  /** The extension is what follows the last dot, in lower case. */
  lemma ExtensionAfterLastDot(stem: string, ext: string)
    requires NoSep(ext, {'.'})
    ensures Extension(stem + "." + ext) == Lower(ext)
  {
    assert stem + "." + ext == stem + ['.'] + ext;
    SplitLast(stem, '.', ext, {'.'});
  }

  /** The extension decides before the content, whatever its case. */
  lemma ExtensionIgnoresCase(content: string, stem: string)
    requires content != ""
    ensures DetectFileFormat(content, stem + ".CSV") == Some(PremiereCsv)
    ensures DetectFileFormat(content, stem + ".Txt") == Some(PremiereTxt)
  {
    ExtensionAfterLastDot(stem, "CSV");
    ExtensionAfterLastDot(stem, "Txt");
    assert Lower("CSV") == "csv";
    assert Lower("Txt") == "txt";
    assert stem + "." + "CSV" == stem + ".CSV";
    assert stem + "." + "Txt" == stem + ".Txt";
  }
}
