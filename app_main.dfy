/**
 * The application layer of app/main.js: `parseContent`, which detects the
 * format, records it in the application state, runs the matching reader and
 * sorts what it read, and the three list edits behind the add, update and
 * delete dialogs, as functions from the editor text and the dialog inputs to
 * the new chapter list (the editor then shows `chaptersToString` of it).
 */
module App {
  import opened Wrappers
  import opened Text
  import opened ChapterOps
  import opened Parsers

  const EmptyContentMessage: string := "コンテンツが空です"
  const UnknownFormatMessage: string := "ファイル形式を認識できませんでした"
  const UnsupportedFormatMessage: string := "未対応のファイル形式です"
  const NoChaptersMessage: string := "チャプター情報が見つかりませんでした"
  const MissingFieldsMessage: string := "時間とタイトルを入力してください"
  const BadTimeMessage: string := "時間は00:00:00の形式で入力してください"
  const NoSuchChapterMessage: string := "エラー：編集対象のチャプターが見つかりません"

  /** Chapters with `DD:DD:DD` times can be sorted by their seconds. */
  lemma ValidTimesAreClocks(cs: seq<Chapter>)
    requires forall c :: c in cs ==> IsValidTimeFormat(c.time)
    ensures AllClock(cs)
  {
    forall c | c in cs ensures IsClock(c.time) {
      ValidTimeIsClock(c.time);
    }
  }

  /** The chapters a reader gives, or `None` when its identifier has no reader. */
  function RunRegistered(id: string, content: string): (r: Option<seq<Chapter>>)
    ensures r.Some? ==> AllClock(r.value)
  {
    match ParserFor(id)
    case None => None
    case Some(f) =>
      ParsedChaptersWellFormed(f, content);
      ValidTimesAreClocks(ParseWith(f, content));
      Some(ParseWith(f, content))
  }

  /**
   * What `parseContent` returns or throws: empty or blank content, an
   * unrecognised format, an identifier without a reader and an empty
   * reading each fail with their own message; otherwise the reading sorted
   * by time.
   */
  function ParseContentOutcome(content: string, filename: string): (r: Result<seq<Chapter>, string>)
    ensures AllSpace(content) <==> r == Failure(EmptyContentMessage)
    ensures !AllSpace(content) && DetectFileFormat(content, filename).None? ==> r == Failure(UnknownFormatMessage)
    ensures r.Success? ==>
              DetectFileFormat(content, filename).Some? &&
              var read := ParseWith(DetectFileFormat(content, filename).value, content);
              read != [] && AllClock(read) && r.value == SortByTime(read)
    ensures (!AllSpace(content) && DetectFileFormat(content, filename).Some? &&
             ParseWith(DetectFileFormat(content, filename).value, content) == []) ==> r == Failure(NoChaptersMessage)
  {
    if Trim(content) == "" then Failure(EmptyContentMessage)
    else
      match DetectFileFormat(content, filename)
      case None => Failure(UnknownFormatMessage)
      case Some(f) =>
        EveryFormatHasParser(f);
        match RunRegistered(FormatId(f), content)
        case None => Failure(UnsupportedFormatMessage)
        case Some(chapters) =>
          if chapters == [] then Failure(NoChaptersMessage) else Success(SortByTime(chapters))
  }

  /**
   * A successful `parseContent` gives the reading, every chapter kept, in
   * order of seconds, with chapters at the same time in reading order.
   */
  lemma ParseContentSorted(content: string, filename: string, n: nat)
    requires ParseContentOutcome(content, filename).Success?
    ensures var r := ParseContentOutcome(content, filename).value;
            var read := ParseWith(DetectFileFormat(content, filename).value, content);
            multiset(r) == multiset(read) && |r| > 0 &&
            (forall i, j :: 0 <= i < j < |r| ==> Seconds(r[i].time) <= Seconds(r[j].time)) &&
            WithKey(r, TimeKey, n) == WithKey(read, TimeKey, n)
  {
    var read := ParseWith(DetectFileFormat(content, filename).value, content);
    SortByTimeProperties(read, n);
  }

  /** `PARSERS[format](content)` through the reader methods. */
  method RunParser(f: Format, content: string) returns (chapters: seq<Chapter>)
    ensures chapters == ParseWith(f, content)
  {
    match f {
      case DaVinci => chapters := ParseEdl(content, MarkerField);
      case PremiereEdl => chapters := ParseEdl(content, ClipNameField);
      case PremiereTxt => chapters := ParseTxt(content);
      case PremiereCsv => chapters := ParseCsv(content);
    }
  }

  /** The module-level `state` object. */
  class AppState {
    var isShifted: bool
    var lastMode: Option<string>
    var chapters: seq<Chapter>

    constructor()
      ensures !isShifted && lastMode == None && chapters == []
    {
      isShifted := false;
      lastMode := None;
      chapters := [];
    }

    /**
     * `parseContent`: the detected format's identifier is recorded before
     * its reader is looked up, so it is recorded even when reading fails.
     */
    method ParseContent(content: string, filename: string) returns (r: Result<seq<Chapter>, string>)
      modifies this
      ensures r == ParseContentOutcome(content, filename)
      ensures lastMode ==
                if !AllSpace(content) && DetectFileFormat(content, filename).Some?
                then Some(FormatId(DetectFileFormat(content, filename).value))
                else old(lastMode)
      ensures isShifted == old(isShifted) && chapters == old(chapters)
    {
      if Trim(content) == "" {
        return Failure(EmptyContentMessage);
      }
      var format := DetectFileFormat(content, filename);
      if format.None? {
        return Failure(UnknownFormatMessage);
      }
      lastMode := Some(FormatId(format.value));
      var parser := ParserFor(lastMode.value);
      if parser.None? {
        return Failure(UnsupportedFormatMessage);
      }
      var read := RunParser(parser.value, content);
      if |read| == 0 {
        return Failure(NoChaptersMessage);
      }
      ParsedChaptersWellFormed(parser.value, content);
      ValidTimesAreClocks(read);
      r := Success(SortByTime(read));
    }
  }

  /* ---------------------------------------------------------------------- */
  /* List edits                                                             */
  /* ---------------------------------------------------------------------- */

  /** The dialog's two inputs, trimmed: both required, and the time `DD:DD:DD`. */
  function EntryOf(timeInput: string, titleInput: string): (r: Result<Chapter, string>)
    ensures r.Success? <==> Trim(titleInput) != "" && IsValidTimeFormat(Trim(timeInput))
    ensures r.Success? ==> r.value == Chapter(Trim(timeInput), Trim(titleInput))
    ensures r.Failure? ==> r.error == MissingFieldsMessage || r.error == BadTimeMessage
  {
    var time := Trim(timeInput);
    var title := Trim(titleInput);
    if time == "" || title == "" then Failure(MissingFieldsMessage)
    else if !IsValidTimeFormat(time) then Failure(BadTimeMessage)
    else Success(Chapter(time, title))
  }

  /** The chapters the editor holds, which all carry `DD:DD:DD` times. */
  function EditorChapters(editor: string): (cs: seq<Chapter>)
    ensures AllClock(cs)
    ensures forall c :: c in cs ==> IsParsedChapter(c)
  {
    var cs := StringToChapters(editor);
    ValidTimesAreClocks(cs);
    cs
  }

  /** `handleSaveNewChapter`: the editor's chapters and the new one, sorted by time. */
  function AddChapter(editor: string, timeInput: string, titleInput: string): (r: Result<seq<Chapter>, string>)
    ensures r.Success? <==> EntryOf(timeInput, titleInput).Success?
    ensures r.Success? ==>
              multiset(r.value) == multiset(EditorChapters(editor)) + multiset{EntryOf(timeInput, titleInput).value}
    ensures r.Failure? ==> r.error == EntryOf(timeInput, titleInput).error
  {
    match EntryOf(timeInput, titleInput)
    case Failure(message) => Failure(message)
    case Success(c) =>
      var cs := EditorChapters(editor) + [c];
      ValidTimeIsClock(c.time);
      assert AllClock(cs);
      Success(SortByTime(cs))
  }

  /**
   * `handleUpdateChapter`: the index is checked first (a value that is not a
   * number, or out of range, fails), then the inputs; the chapter at the
   * index is replaced and the list sorted again.
   */
  function UpdateChapter(editor: string, index: Option<int>, timeInput: string, titleInput: string): (r: Result<seq<Chapter>, string>)
    ensures var cs := EditorChapters(editor);
            (index.None? || index.value < 0 || index.value >= |cs|) ==> r == Failure(NoSuchChapterMessage)
    ensures r.Success? ==>
              var cs := EditorChapters(editor);
              index.Some? && 0 <= index.value < |cs| && EntryOf(timeInput, titleInput).Success? &&
              multiset(r.value) == multiset(cs) - multiset{cs[index.value]} + multiset{EntryOf(timeInput, titleInput).value}
  {
    var cs := EditorChapters(editor);
    if index.None? || index.value < 0 || index.value >= |cs| then Failure(NoSuchChapterMessage)
    else
      match EntryOf(timeInput, titleInput)
      case Failure(message) => Failure(message)
      case Success(c) =>
        var i := index.value;
        var updated := cs[i := c];
        ValidTimeIsClock(c.time);
        assert AllClock(updated) by {
          forall d | d in updated ensures IsClock(d.time) {
            var k :| 0 <= k < |updated| && updated[k] == d;
            if k != i { assert d == cs[k]; }
          }
        }
        ReplaceMultiset(cs, i, c);
        Success(SortByTime(updated))
  }

  lemma ReplaceMultiset<T>(xs: seq<T>, i: nat, x: T)
    requires i < |xs|
    ensures multiset(xs[i := x]) == multiset(xs) - multiset{xs[i]} + multiset{x}
  {
    assert xs == xs[..i] + [xs[i]] + xs[i + 1..];
    assert xs[i := x] == xs[..i] + [x] + xs[i + 1..];
  }

  /**
   * `handleDeleteChapter`: an index out of range, or a declined
   * confirmation, changes nothing (`None`); otherwise exactly that chapter
   * is removed and the others keep their order (the list is not sorted
   * again).
   */
  function DeleteChapter(editor: string, index: int, confirmed: bool): (r: Option<seq<Chapter>>)
    ensures r.Some? <==> 0 <= index < |EditorChapters(editor)| && confirmed
    ensures r.Some? ==>
              var cs := EditorChapters(editor);
              |r.value| == |cs| - 1 &&
              (forall k :: 0 <= k < index ==> r.value[k] == cs[k]) &&
              (forall k :: index <= k < |r.value| ==> r.value[k] == cs[k + 1])
  {
    var cs := EditorChapters(editor);
    if index < 0 || index >= |cs| || !confirmed then None
    else Some(cs[..index] + cs[index + 1..])
  }

  /** A deletion takes away one copy of the chosen chapter and nothing else. */
  lemma DeleteRemovesOne(editor: string, index: int)
    requires 0 <= index < |EditorChapters(editor)|
    ensures var cs := EditorChapters(editor);
            multiset(DeleteChapter(editor, index, true).value) == multiset(cs) - multiset{cs[index]}
  {
    RemoveMultiset(EditorChapters(editor), index);
  }

  lemma RemoveMultiset<T>(xs: seq<T>, i: nat)
    requires i < |xs|
    ensures multiset(xs[..i] + xs[i + 1..]) == multiset(xs) - multiset{xs[i]}
  {
    assert xs == xs[..i] + [xs[i]] + xs[i + 1..];
  }

  /** Every chapter carries a clock time, and the seconds never decrease along the list. */
  predicate InTimeOrder(cs: seq<Chapter>)
  {
    AllClock(cs) && forall i, j :: 0 <= i < j < |cs| ==> Seconds(cs[i].time) <= Seconds(cs[j].time)
  }

  /** An accepted entry is added, and the list is then in order of seconds. */
  lemma AddKeepsOrder(editor: string, timeInput: string, titleInput: string)
    requires EntryOf(timeInput, titleInput).Success?
    ensures AddChapter(editor, timeInput, titleInput).Success?
    ensures InTimeOrder(AddChapter(editor, timeInput, titleInput).value)
  {
    var entry := EntryOf(timeInput, titleInput).value;
    ValidTimeIsClock(entry.time);
    var cs := EditorChapters(editor) + [entry];
    assert AllClock(cs);
    SortByTimeProperties(cs, 0);
  }

  /** An accepted entry at an index in range is stored, and the list is then in order of seconds. */
  lemma UpdateKeepsOrder(editor: string, index: Option<int>, timeInput: string, titleInput: string)
    requires index.Some? && 0 <= index.value < |EditorChapters(editor)|
    requires EntryOf(timeInput, titleInput).Success?
    ensures UpdateChapter(editor, index, timeInput, titleInput).Success?
    ensures InTimeOrder(UpdateChapter(editor, index, timeInput, titleInput).value)
  {
    var entry := EntryOf(timeInput, titleInput).value;
    ValidTimeIsClock(entry.time);
    var cs := EditorChapters(editor);
    var updated := cs[index.value := entry];
    assert AllClock(updated) by {
      forall d | d in updated ensures IsClock(d.time) {
        var k :| 0 <= k < |updated| && updated[k] == d;
        if k != index.value { assert d == cs[k]; }
      }
    }
    SortByTimeProperties(updated, 0);
  }
}
