/**
 * The standalone editor page of script.js: `parseEDLText`, which turns a
 * DaVinci Resolve EDL into `HH:MM:SS name` lines, and the shift button,
 * which moves the leading time of every editor line an hour back or an hour
 * forward and toggles the module-level `shifted` flag.
 */
module LegacyEditor {
  import opened Wrappers
  import opened Text
  import opened ChapterOps
  import opened Parsers

  /* ---------------------------------------------------------------------- */
  /* parseEDLText                                                           */
  /* ---------------------------------------------------------------------- */

  /** The outcome of one pass of the loop: the lines it pushes, where it continues, the pending time. */
  datatype TextPass = TextPass(pushed: seq<string>, next: nat, pending: Option<string>)

  /**
   * One pass at line `i`: a timecode on the line becomes the pending time;
   * with a pending time and a next line that exists, is not empty and holds
   * `|M:…|D:`, the line `time name` is pushed, the name line is skipped and
   * the pending time cleared.
   */
  function TextStep(lines: seq<string>, i: nat, pending: Option<string>): (s: TextPass)
    requires i < |lines|
    ensures i < s.next <= |lines| && s.next <= i + 2
    ensures |s.pushed| <= 1 && (s.pushed != [] <==> s.next == i + 2)
  {
    var t := match TimecodeTime(lines[i]) case Some(x) => Some(x) case None => pending;
    if t.Some? && i + 1 < |lines| && lines[i + 1] != "" then
      match MarkerNameFrom(lines[i + 1], 0)
      case Some(name) => TextPass([t.value + " " + Trim(name)], i + 2, None)
      case None => TextPass([], i + 1, t)
    else TextPass([], i + 1, t)
  }

  /** The lines the loop pushes from line `i` on. */
  function TextFrom(lines: seq<string>, i: nat, pending: Option<string>): seq<string>
    decreases |lines| - i
  {
    if i >= |lines| then []
    else
      var s := TextStep(lines, i, pending);
      s.pushed + TextFrom(lines, s.next, s.pending)
  }

  /** `parseEDLText`: the lines come from `content.split(/\r?\n/)`. */
  function EdlText(content: string): seq<string>
  {
    TextFrom(SplitLines(content), 0, None)
  }

  lemma TextFromStep(lines: seq<string>, i: nat, pending: Option<string>,
                     pushed: seq<string>, next: nat, after: Option<string>)
    requires i < |lines| && TextPass(pushed, next, after) == TextStep(lines, i, pending)
    ensures TextFrom(lines, i, pending) == pushed + TextFrom(lines, next, after)
  {
  }

  /** One pass of the loop body, as the editor script writes it. */
  method TextPassAt(lines: seq<string>, i: nat, lastTime: Option<string>)
    returns (pushed: seq<string>, next: nat, pending: Option<string>)
    requires i < |lines|
    ensures TextPass(pushed, next, pending) == TextStep(lines, i, lastTime)
  {
    pending := lastTime;
    match TimecodeTime(lines[i]) {
      case Some(t) => pending := Some(t);
      case None =>
    }
    pushed, next := [], i + 1;
    if pending.Some? && i + 1 < |lines| && lines[i + 1] != "" {
      match MarkerNameFrom(lines[i + 1], 0) {
        case Some(name) =>
          pushed := [pending.value + " " + Trim(name)];
          pending := None;
          next := i + 2;
        case None =>
      }
    }
  }

  /** `parseEDLText`: split the content into lines, then run the loop. */
  method ParseEdlText(content: string) returns (chapters: seq<string>)
    ensures chapters == EdlText(content)
  {
    chapters := TextLoop(SplitLines(content));
  }

  /** The loop over the lines, with its pending time and its skip past a name line. */
  method TextLoop(lines: seq<string>) returns (chapters: seq<string>)
    ensures chapters == TextFrom(lines, 0, None)
  {
    chapters := [];
    var lastTime: Option<string> := None;
    var i := 0;
    while i < |lines|
      invariant i <= |lines|
      invariant chapters + TextFrom(lines, i, lastTime) == TextFrom(lines, 0, None)
      decreases |lines| - i
    {
      var pushed, next, pending := TextPassAt(lines, i, lastTime);
      TextFromStep(lines, i, lastTime, pushed, next, pending);
      AppendAssocItems(chapters, pushed, TextFrom(lines, next, pending));
      chapters, i, lastTime := chapters + pushed, next, pending;
    }
    assert chapters + [] == chapters;
  }

  /** The lines of two lists one after the other are the lines of the joined list. */
  lemma LinesAppend(a: seq<Chapter>, b: seq<Chapter>)
    ensures Lines(a + b) == Lines(a) + Lines(b)
  {
    assert forall i :: 0 <= i < |a + b| ==> Lines(a + b)[i] == (Lines(a) + Lines(b))[i];
  }

  /** On every line the older loop takes the same step as `parseDaVinciEDL`. */
  lemma TextStepAgrees(lines: seq<string>, i: nat, pending: Option<string>)
    requires i < |lines|
    ensures TextStep(lines, i, pending).next == EdlStep(lines, i, pending, MarkerField).next
    ensures TextStep(lines, i, pending).pending == EdlStep(lines, i, pending, MarkerField).pending
    ensures TextStep(lines, i, pending).pushed == Lines(EdlStep(lines, i, pending, MarkerField).pushed)
  {
    if i + 1 < |lines| && lines[i + 1] == "" {
      assert MarkerNameFrom(lines[i + 1], 0).None?;
    }
    var e := EdlStep(lines, i, pending, MarkerField);
    if e.pushed != [] {
      assert Lines(e.pushed) == [ChapterLine(e.pushed[0])];
    }
  }

  /**
   * The older reader gives exactly the lines `time name` of the chapters
   * `parseDaVinciEDL` reads: the extra test that the name line is not
   * empty never changes the outcome, since an empty line holds no `|M:`.
   */
  lemma {:induction false} TextFromAgrees(lines: seq<string>, i: nat, pending: Option<string>)
    ensures TextFrom(lines, i, pending) == Lines(EdlFrom(lines, i, pending, MarkerField))
    decreases |lines| - i
  {
    if i < |lines| {
      var e := EdlStep(lines, i, pending, MarkerField);
      TextStepAgrees(lines, i, pending);
      TextFromAgrees(lines, e.next, e.pending);
      LinesAppend(e.pushed, EdlFrom(lines, e.next, e.pending, MarkerField));
    }
  }

  /**
   * `parseEDLText` as the editor text it leaves behind: the joined lines are
   * `chaptersToString` of what `parseDaVinciEDL` reads from the same content.
   */
  lemma EdlTextAgrees(content: string)
    ensures EdlText(content) == Lines(EdlChapters(content, MarkerField))
    ensures Join(EdlText(content), '\n') == ChaptersToString(EdlChapters(content, MarkerField))
  {
    TextFromAgrees(SplitLines(content), 0, None);
    if content == "" {
      assert SplitLines(content) == [""];
      assert TimecodeTime("").None?;
    }
  }

  /** Each line starts with a `DD:DD:DD` time and a space, and the name after it is trimmed. */
  lemma EdlTextWellFormed(content: string)
    ensures forall s :: s in EdlText(content) ==>
              |s| >= 9 && IsValidTimeFormat(s[..8]) && s[8] == ' ' && Trim(s[9..]) == s[9..]
  {
    EdlTextAgrees(content);
    var cs := EdlChapters(content, MarkerField);
    if content != "" {
      EdlChaptersWellFormed(SplitLines(content), 0, None, MarkerField);
    }
    forall s | s in EdlText(content)
      ensures |s| >= 9 && IsValidTimeFormat(s[..8]) && s[8] == ' ' && Trim(s[9..]) == s[9..]
    {
      var k :| 0 <= k < |Lines(cs)| && Lines(cs)[k] == s;
      assert cs[k] in cs;
      ChapterLineLayout(cs[k]);
    }
  }

  /** The line of a chapter: its eight-character time, a space, its name. */
  lemma ChapterLineLayout(c: Chapter)
    requires IsValidTimeFormat(c.time)
    ensures |ChapterLine(c)| >= 9 && ChapterLine(c)[8] == ' '
    ensures ChapterLine(c)[..8] == c.time && ChapterLine(c)[9..] == c.name
  {
    var s := ChapterLine(c);
    assert s == c.time + " " + c.name;
    assert s[..8] == c.time;
    assert s[9..] == c.name;
  }

  /** Content without a timecode, or without a `|M:…|D:` line, gives no chapter. */
  lemma EdlTextNeedsBoth(content: string)
    ensures (forall j :: 0 <= j < |SplitLines(content)| ==> TimecodeTime(SplitLines(content)[j]).None?) ==>
              EdlText(content) == []
    ensures (forall j :: 0 <= j < |SplitLines(content)| ==> MarkerNameFrom(SplitLines(content)[j], 0).None?) ==>
              EdlText(content) == []
  {
    var lines := SplitLines(content);
    TextFromAgrees(lines, 0, None);
    if forall j :: 0 <= j < |lines| ==> TimecodeTime(lines[j]).None? {
      EdlNeedsTimecode(lines, 0, MarkerField);
    }
    if forall j :: 0 <= j < |lines| ==> MarkerNameFrom(lines[j], 0).None? {
      EdlNeedsNameLine(lines, 0, None, MarkerField);
    }
  }

  /* ---------------------------------------------------------------------- */
  /* The shift button                                                       */
  /* ---------------------------------------------------------------------- */

  /** `!line.trim()`, or `line.split(' ')` gives a single part: the line is kept as it is. */
  predicate KeptAsIs(line: string)
  {
    Trim(line) == "" || |Split(line, {' '})| < 2
  }

  /**
   * A line the handler reads as a number of seconds: one it keeps, or one
   * whose text before the first space is three `:`-separated digit runs
   * (where `Number` reads each part exactly).
   */
  predicate Shiftable(line: string)
  {
    KeptAsIs(line) || IsClock(Split(line, {' '})[0])
  }

  /** The first space of `line` is at `k`. */
  predicate FirstSpaceAt(line: string, k: nat)
  {
    k < |line| && line[k] == ' ' && NoSep(line[..k], {' '})
  }

  /**
   * The mapped line: the first part an hour back (never below zero) before
   * the first click and an hour forward after it, written as padded
   * `H:M:S`, then a space and the other parts joined with spaces.
   */
  function ShiftLine(line: string, shifted: bool): (r: string)
    requires Shiftable(line)
    ensures KeptAsIs(line) <==> Trim(line) == "" || ' ' !in line
    ensures KeptAsIs(line) ==> r == line
  {
    SplitCount(line, ' ');
    if KeptAsIs(line) then line
    else
      var parts := Split(line, {' '});
      ShiftTime(parts[0], !shifted) + " " + Join(parts[1..], ' ')
  }

  /** A string without a space splits at spaces into itself. */
  lemma NoSpaceSplit(line: string)
    requires ' ' !in line
    ensures Split(line, {' '}) == [line]
  {
    SplitPlain(line, {' '});
  }

  /** With its first space at `k`, a line's first part is what precedes it and the others join to what follows. */
  lemma SpaceCut(line: string, k: nat)
    requires FirstSpaceAt(line, k)
    ensures |Split(line, {' '})| >= 2
    ensures Split(line, {' '})[0] == line[..k]
    ensures Join(Split(line, {' '})[1..], ' ') == line[k + 1..]
  {
    var rest := line[k + 1..];
    var after := [' '] + rest;
    assert line == line[..k] + after;
    SplitPrefix(line[..k], after, {' '});
    assert after[1..] == rest;
    assert Split(after, {' '}) == [""] + Split(rest, {' '});
    assert line[..k] + "" == line[..k];
    assert ([""] + Split(rest, {' '}))[1..] == Split(rest, {' '});
    JoinSplit(rest, ' ');
  }

  /** A line with a space has a first one. */
  lemma FirstSpaceExists(line: string) returns (k: nat)
    requires ' ' in line
    ensures FirstSpaceAt(line, k)
  {
    var j :| 0 <= j < |line| && line[j] == ' ';
    k := 0;
    while line[k] != ' '
      invariant k <= j && NoSep(line[..k], {' '})
      decreases j - k
    {
      assert line[..k + 1] == line[..k] + [line[k]];
      k := k + 1;
    }
  }

  /**
   * A non-blank line with its first space at `k`: its time `line[..k]`
   * becomes the shifted time, and the text after that space is kept exactly.
   */
  lemma ShiftLineCut(line: string, k: nat, shifted: bool)
    requires Trim(line) != "" && FirstSpaceAt(line, k)
    requires Shiftable(line)
    ensures IsClock(line[..k])
    ensures ShiftLine(line, shifted) == ShiftTime(line[..k], !shifted) + " " + line[k + 1..]
    ensures Seconds(ShiftTime(line[..k], !shifted)) == ShiftedSeconds(Seconds(line[..k]), !shifted)
  {
    SpaceCut(line, k);
  }

  /** The shifted lines of the editor, one per line. */
  function ShiftLines(lines: seq<string>, shifted: bool): (r: seq<string>)
    requires forall i :: 0 <= i < |lines| ==> Shiftable(lines[i])
    ensures |r| == |lines|
    ensures forall i :: 0 <= i < |lines| ==> r[i] == ShiftLine(lines[i], shifted)
  {
    seq(|lines|, i requires 0 <= i < |lines| && Shiftable(lines[i]) => ShiftLine(lines[i], shifted))
  }

  /** Every line of the editor text can be read by the handler. */
  predicate EditorShiftable(text: string)
  {
    forall i :: 0 <= i < |Split(text, {'\n'})| ==> Shiftable(Split(text, {'\n'})[i])
  }

  /** The editor text after a click: `split('\n')`, the line map, `join('\n')`. */
  function ShiftEditor(text: string, shifted: bool): string
    requires EditorShiftable(text)
  {
    Join(ShiftLines(Split(text, {'\n'}), shifted), '\n')
  }

  /** The text of a clock time has no line break. */
  lemma ClockHasNoBreak(t: string)
    requires IsClock(t)
    ensures '\n' !in t && ' ' !in t
  {
    var parts := Split(t, {':'});
    JoinSplit(t, ':');
    forall p | p in parts ensures '\n' !in p && ' ' !in p {
      var i :| 0 <= i < 3 && parts[i] == p;
      assert AllDigits(p);
    }
    JoinAvoids(parts, ':', '\n');
    JoinAvoids(parts, ':', ' ');
  }

  /** A shifted line stays on its own line. */
  lemma ShiftLineNoBreak(line: string, shifted: bool)
    requires Shiftable(line) && '\n' !in line
    ensures '\n' !in ShiftLine(line, shifted)
  {
    if !KeptAsIs(line) {
      SplitCount(line, ' ');
      var k := FirstSpaceExists(line);
      ShiftLineCut(line, k, shifted);
      ClockHasNoBreak(ShiftTime(line[..k], !shifted));
      assert '\n' !in line[k + 1..];
    }
  }

  /**
   * A click keeps the number of lines, and line `i` of the new text is line
   * `i` of the old text mapped.
   */
  lemma ShiftEditorLines(text: string, shifted: bool)
    requires EditorShiftable(text)
    ensures |Split(ShiftEditor(text, shifted), {'\n'})| == |Split(text, {'\n'})|
    ensures forall i :: 0 <= i < |Split(text, {'\n'})| ==>
              Split(ShiftEditor(text, shifted), {'\n'})[i] == ShiftLine(Split(text, {'\n'})[i], shifted)
  {
    var lines := Split(text, {'\n'});
    var shiftedLines := ShiftLines(lines, shifted);
    forall i | 0 <= i < |shiftedLines| ensures NoSep(shiftedLines[i], {'\n'}) {
      assert NoSep(lines[i], {'\n'});
      assert '\n' !in lines[i];
      ShiftLineNoBreak(lines[i], shifted);
    }
    SplitJoin(shiftedLines, '\n', {'\n'});
  }

  /** A time the second click gives back: `DD:DD:DD`, at least an hour, minutes and seconds below 60. */
  predicate RestorableTime(t: string)
  {
    IsValidTimeFormat(t) && TwoDigitValue(t, 0) >= 1 && TwoDigitValue(t, 3) < 60 && TwoDigitValue(t, 6) < 60
  }

  /** A line the two clicks give back: kept as is, or led by a restorable time. */
  predicate RestorableLine(line: string)
  {
    KeptAsIs(line) || RestorableTime(Split(line, {' '})[0])
  }

  /** A `DD:DD:DD` time has no space. */
  lemma ValidTimeHasNoSpace(t: string)
    requires IsValidTimeFormat(t)
    ensures NoSep(t, {' '}) && !IsSpace(t[0])
  {
  }

  /** After the first click, a line led by a `DD:DD:DD` time is led by the shifted time and its first space. */
  lemma ShiftedLayout(t: string, rest: string)
    requires IsValidTimeFormat(t)
    ensures Trim(t + " " + rest) != ""
    ensures FirstSpaceAt(t + " " + rest, 8)
    ensures (t + " " + rest)[..8] == t && (t + " " + rest)[9..] == rest
  {
    var once := t + " " + rest;
    ValidTimeHasNoSpace(t);
    assert once[..8] == t && once[8] == ' ' && once[9..] == rest;
    assert once[0] == t[0];
  }

  /** The first click then the second click give a restorable line back. */
  lemma ShiftLineTwice(line: string)
    requires RestorableLine(line)
    ensures Shiftable(line) && Shiftable(ShiftLine(line, false))
    ensures ShiftLine(ShiftLine(line, false), true) == line
  {
    if !KeptAsIs(line) {
      SplitCount(line, ' ');
      var k := FirstSpaceExists(line);
      SpaceCut(line, k);
      var h := line[..k];
      var rest := line[k + 1..];
      ValidTimeIsClock(h);
      ShiftLineCut(line, k, false);
      var t := ShiftTime(h, true);
      ShiftedLayout(t, rest);
      var once := t + " " + rest;
      SpaceCut(once, 8);
      ValidTimeIsClock(t);
      ShiftLineCut(once, 8, true);
      ShiftBackForward(h);
      SpaceRejoin(line, k);
    }
  }

  /** A line is the text before a space, the space and the text after it. */
  lemma SpaceRejoin(line: string, k: nat)
    requires k < |line| && line[k] == ' '
    ensures line == line[..k] + " " + line[k + 1..]
  {
    assert line[..k + 1] == line[..k] + " ";
    assert line == line[..k + 1] + line[k + 1..];
  }

  /**
   * When every line is restorable, the second click undoes the first: the
   * editor holds the text it held before the first click.
   */
  lemma ShiftEditorTwice(text: string)
    requires forall i :: 0 <= i < |Split(text, {'\n'})| ==> RestorableLine(Split(text, {'\n'})[i])
    ensures EditorShiftable(text) && EditorShiftable(ShiftEditor(text, false))
    ensures ShiftEditor(ShiftEditor(text, false), true) == text
  {
    var lines := Split(text, {'\n'});
    forall i | 0 <= i < |lines| ensures Shiftable(lines[i]) {
      ShiftLineTwice(lines[i]);
    }
    ShiftEditorLines(text, false);
    var once := ShiftEditor(text, false);
    var onceLines := Split(once, {'\n'});
    forall i | 0 <= i < |onceLines|
      ensures Shiftable(onceLines[i]) && ShiftLine(onceLines[i], true) == lines[i]
    {
      ShiftLineTwice(lines[i]);
    }
    assert ShiftLines(onceLines, true) == lines;
    JoinSplit(text, '\n');
  }

  /** The page's editor text area and the module-level `shifted` flag. */
  class Editor {
    var value: string
    var shifted: bool

    constructor(text: string)
      ensures value == text && !shifted
    {
      value := text;
      shifted := false;
    }

    /** The shift button's click handler. */
    method Shift()
      requires EditorShiftable(value)
      modifies this
      ensures value == ShiftEditor(old(value), old(shifted))
      ensures shifted == !old(shifted)
    {
      value := ShiftEditor(value, shifted);
      shifted := !shifted;
    }
  }
}
