/**
 * The chapter list operations of app/utils/chapter-operations.js: a chapter
 * is a time string and a name; lists are written to and read from editor
 * text one `time name` line per chapter, shifted by an hour, sorted by time
 * and de-duplicated by time.
 *
 * Times are read the way the JavaScript reads them, `split(':')` and `Number`
 * on each part; the model requires three all-digit parts (`IsClock`), where
 * `Number` is an exact integer reading.
 */
module ChapterOps {
  import opened Wrappers
  import opened Text

  datatype Chapter = Chapter(time: string, name: string)

  /* ---------------------------------------------------------------------- */
  /* Times                                                                  */
  /* ---------------------------------------------------------------------- */

  /** A time whose `split(':')` gives three parts of digits (possibly more than two each). */
  predicate IsClock(t: string)
  {
    var p := Split(t, {':'});
    |p| == 3 && AllDigits(p[0]) && AllDigits(p[1]) && AllDigits(p[2])
  }

  /**
   * `timeToSeconds`, which is also the key the sort compares
   * (the `reduce` over the three parts with weights 3600, 60, 1).
   */
  function Seconds(t: string): nat
    requires IsClock(t)
  {
    var p := Split(t, {':'});
    DecimalValue(p[0]) * 3600 + DecimalValue(p[1]) * 60 + DecimalValue(p[2])
  }

  /** `isValidTimeFormat`: `^\d{2}:\d{2}:\d{2}$`. */
  predicate IsValidTimeFormat(t: string)
  {
    IsTime(t)
  }

  /** The three two-digit fields of a `DD:DD:DD` time are its clock parts. */
  lemma ValidTimeIsClock(t: string)
    requires IsValidTimeFormat(t)
    ensures IsClock(t)
    ensures Split(t, {':'}) == [t[..2], t[3..5], t[6..]]
    ensures t == Join([t[..2], t[3..5], t[6..]], ':')
    ensures Seconds(t) == TwoDigitValue(t, 0) * 3600 + TwoDigitValue(t, 3) * 60 + TwoDigitValue(t, 6)
  {
    var parts := [t[..2], t[3..5], t[6..]];
    TwoDigitDecimal(t, 0);
    TwoDigitDecimal(t, 3);
    TwoDigitDecimal(t, 6);
    assert t[0..2] == parts[0] && t[3..5] == parts[1] && t[6..8] == parts[2];
    forall i | 0 <= i < 3 ensures NoSep(parts[i], {':'}) {
    }
    assert Join(parts, ':') == t by {
      assert parts[1..] == [t[3..5], t[6..]];
      assert parts[1..][1..] == [t[6..]];
      assert Join(parts[1..], ':') == t[3..5] + [':'] + t[6..];
      assert t == t[..2] + [':'] + (t[3..5] + [':'] + t[6..]);
    }
    SplitJoin(parts, ':', {':'});
    assert Split(t, {':'}) == parts;
  }

  /** `secondsToTime`: hours, minutes and seconds, each padded to at least two digits. */
  function SecondsToTime(n: nat): (t: string)
    ensures IsClock(t) && Seconds(t) == n
    ensures |Split(t, {':'})[1]| == 2 && |Split(t, {':'})[2]| == 2
    ensures n < 360000 <==> IsValidTimeFormat(t)
  {
    var h, m, s := Pad2(n / 3600), Pad2(n % 3600 / 60), Pad2(n % 60);
    ClockOfFields(h, m, s);
    FieldsOfSeconds(n);
    Join([h, m, s], ':')
  }

  /** The three padded fields read back as hours, minutes and seconds; below 100 hours each has two digits. */
  lemma FieldsOfSeconds(n: nat)
    ensures DecimalValue(Pad2(n / 3600)) * 3600 + DecimalValue(Pad2(n % 3600 / 60)) * 60 +
            DecimalValue(Pad2(n % 60)) == n
    ensures |Pad2(n % 3600 / 60)| == 2 && |Pad2(n % 60)| == 2
    ensures |Pad2(n / 3600)| == 2 <==> n < 360000
  {
    SecondsSplit(n);
    Pad2RoundTrip(n / 3600);
    Pad2RoundTrip(n % 3600 / 60);
    Pad2RoundTrip(n % 60);
  }

  /** Hours, minutes below 60 and seconds below 60 add back up to `n`. */
  lemma SecondsSplit(n: nat)
    ensures n == n / 3600 * 3600 + n % 3600 / 60 * 60 + n % 60
    ensures n % 3600 / 60 < 60 && n % 60 < 60
    ensures n / 3600 < 100 <==> n < 360000
  {
    var h, r := n / 3600, n % 3600;
    var m, sec := r / 60, r % 60;
    assert n == h * 3600 + r && 0 <= r < 3600;
    assert r == m * 60 + sec && 0 <= sec < 60;
    assert m < 60;
    assert n == (h * 60 + m) * 60 + sec;
    DivMod60(h * 60 + m, sec);
  }

  /** Three digit fields joined by `:` are a clock with those fields. */
  lemma ClockOfFields(h: string, m: string, s: string)
    requires |h| >= 2 && |m| >= 2 && |s| >= 2
    requires AllDigits(h) && AllDigits(m) && AllDigits(s)
    ensures Split(Join([h, m, s], ':'), {':'}) == [h, m, s]
    ensures |h| == 2 && |m| == 2 && |s| == 2 ==> IsValidTimeFormat(Join([h, m, s], ':'))
    ensures |h| != 2 ==> !IsValidTimeFormat(Join([h, m, s], ':'))
  {
    var parts := [h, m, s];
    forall i | 0 <= i < 3 ensures NoSep(parts[i], {':'}) {
      assert AllDigits(parts[i]);
    }
    SplitJoin(parts, ':', {':'});
    var t := Join(parts, ':');
    assert parts[1..] == [m, s] && parts[1..][1..] == [s];
    assert Join(parts[1..], ':') == m + [':'] + s;
    assert t == h + [':'] + (m + [':'] + s);
    if |h| != 2 {
      assert |h| > 2 && t[2] == h[2];
    }
  }

  /** A `DD:DD:DD` time with minutes and seconds below 60 is what `secondsToTime` writes for its value. */
  lemma TimeRoundTrip(t: string)
    requires IsValidTimeFormat(t)
    requires TwoDigitValue(t, 3) < 60 && TwoDigitValue(t, 6) < 60
    ensures IsClock(t) && SecondsToTime(Seconds(t)) == t
  {
    ValidTimeIsClock(t);
    var h, m, s := TwoDigitValue(t, 0), TwoDigitValue(t, 3), TwoDigitValue(t, 6);
    var n := Seconds(t);
    ClockArithmetic(h, m, s);
    Pad2OfTwoDigits(t, 0);
    Pad2OfTwoDigits(t, 3);
    Pad2OfTwoDigits(t, 6);
    assert t[0..2] == t[..2] && t[6..8] == t[6..];
    assert SecondsToTime(n) == Join([Pad2(h), Pad2(m), Pad2(s)], ':');
  }

  /** Every value below 100 hours is written as a valid time that reads back as itself. */
  lemma SecondsRoundTrip(n: nat)
    requires n < 360000
    ensures IsValidTimeFormat(SecondsToTime(n))
    ensures Seconds(SecondsToTime(n)) == n
  {
  }

  lemma ClockArithmetic(h: nat, m: nat, s: nat)
    requires m < 60 && s < 60
    ensures (h * 3600 + m * 60 + s) / 3600 == h
    ensures (h * 3600 + m * 60 + s) % 3600 / 60 == m
    ensures (h * 3600 + m * 60 + s) % 60 == s
  {
    var r := m * 60 + s;
    DivMod3600(h, r);
    DivMod60(m, s);
    assert h * 3600 + r == (h * 60 + m) * 60 + s;
    DivMod60(h * 60 + m, s);
  }

  lemma DivMod3600(q: nat, r: nat)
    requires r < 3600
    ensures (q * 3600 + r) / 3600 == q && (q * 3600 + r) % 3600 == r
  {
  }

  lemma DivMod60(q: nat, r: nat)
    requires r < 60
    ensures (q * 60 + r) / 60 == q && (q * 60 + r) % 60 == r
  {
  }

  /* ---------------------------------------------------------------------- */
  /* Text form                                                              */
  /* ---------------------------------------------------------------------- */

  /** No character of `s` is a line terminator. */
  predicate NoLineBreak(s: string)
  {
    forall k :: 0 <= k < |s| ==> !IsLineTerminator(s[k])
  }

  /** A chapter as one line of editor text. */
  function ChapterLine(c: Chapter): string
  {
    c.time + " " + c.name
  }

  /** The lines of a list, one per chapter. */
  function Lines(cs: seq<Chapter>): (lines: seq<string>)
    ensures |lines| == |cs|
    ensures forall i :: 0 <= i < |cs| ==> lines[i] == ChapterLine(cs[i])
  {
    if cs == [] then [] else [ChapterLine(cs[0])] + Lines(cs[1..])
  }

  /** `chaptersToString`. */
  function ChaptersToString(cs: seq<Chapter>): string
  {
    Join(Lines(cs), '\n')
  }

  /**
   * `\s+(.+)$` against the text after the time: a run of white space, then a
   * name reaching the end with no line terminator. The run is taken
   * greedily; when it reaches the end it gives back its last character,
   * which then is the name.
   */
  function SpacedName(rest: string): (r: Option<string>)
    ensures r.Some? ==> 0 < |r.value| < |rest| && rest[|rest| - |r.value|..] == r.value
    ensures r.Some? ==> AllSpace(rest[..|rest| - |r.value|]) && NoLineBreak(r.value)
  {
    var w := LeadingSpaces(rest);
    if w == 0 then None
    else if w < |rest| then
      if NoLineBreak(rest[w..]) then Some(rest[w..]) else None
    else if w >= 2 && !IsLineTerminator(rest[w - 1]) then Some(rest[w - 1..])
    else None
  }

  /** `line.match(/^(\d{2}:\d{2}:\d{2})\s+(.+)$/)`: the time and the captured name. */
  function ParseChapterLine(line: string): (r: Option<Chapter>)
    ensures r.Some? ==> |line| > 8 && r.value.time == line[..8] && IsValidTimeFormat(r.value.time)
    ensures r.Some? ==> SpacedName(line[8..]) == Some(r.value.name)
  {
    if !TimeAt(line, 0) then None
    else match SpacedName(line[8..])
      case Some(name) => Some(Chapter(line[..8], name))
      case None => None
  }

  /** A time, some white space and a name starting with a non-space character parse back into that chapter. */
  lemma ParseChapterLineOf(t: string, pad: string, name: string)
    requires IsValidTimeFormat(t)
    requires pad != "" && AllSpace(pad)
    requires name != "" && !IsSpace(name[0]) && NoLineBreak(name)
    ensures ParseChapterLine(t + pad + name) == Some(Chapter(t, name))
  {
    var line := t + pad + name;
    assert TimeAt(line, 0) by {
      assert forall k :: 0 <= k < 8 ==> line[k] == t[k];
    }
    var rest := line[8..];
    assert rest == pad + name;
    LeadingSpacesOf(pad, name);
    assert rest[|pad|..] == name;
    assert SpacedName(rest) == Some(name);
    assert line[..8] == t;
  }

  /** What `stringToChapters` keeps of one line: nothing for a blank or non-matching line. */
  function LineChapters(line: string): seq<Chapter>
  {
    if Trim(line) == "" then []
    else match ParseChapterLine(line)
      case Some(c) => [c]
      case None => []
  }

  /** A chapter as `stringToChapters` produces it. */
  predicate IsParsedChapter(c: Chapter)
  {
    IsValidTimeFormat(c.time) && c.name != "" && NoLineBreak(c.name)
  }

  /** `stringToChapters`: the matching lines, in order. */
  function StringToChapters(s: string): (cs: seq<Chapter>)
    ensures s == "" ==> cs == []
    ensures forall c :: c in cs ==> IsParsedChapter(c)
  {
    if s == "" then []
    else
      var cs := FlatMap(Split(s, {'\n'}), LineChapters);
      ParsedChapters(Split(s, {'\n'}));
      cs
  }

  /** Every chapter read from the lines is a parsed chapter. */
  lemma ParsedChapters(lines: seq<string>)
    ensures forall c :: c in FlatMap(lines, LineChapters) ==> IsParsedChapter(c)
  {
    forall c | c in FlatMap(lines, LineChapters) ensures IsParsedChapter(c) {
      FlatMapOrigin(lines, LineChapters, c);
    }
  }

  /** A chapter `chaptersToString` writes so that it is read back unchanged. */
  predicate Serialisable(c: Chapter)
  {
    IsValidTimeFormat(c.time) && c.name != "" && !IsSpace(c.name[0]) && NoLineBreak(c.name)
  }

  /** Writing a list out and reading it back gives the list. */
  lemma StringToChaptersRoundTrip(cs: seq<Chapter>)
    requires forall c :: c in cs ==> Serialisable(c)
    ensures StringToChapters(ChaptersToString(cs)) == cs
  {
    var lines := Lines(cs);
    if cs != [] {
      LinesHaveNoBreak(cs);
      SplitJoin(lines, '\n', {'\n'});
      assert ChaptersToString(cs) != "" by {
        assert lines[0] == ChapterLine(cs[0]);
        if |lines| == 1 {
          assert ChaptersToString(cs) == lines[0];
        } else {
          assert ChaptersToString(cs) == lines[0] + ['\n'] + Join(lines[1..], '\n');
        }
      }
      forall i | 0 <= i < |cs| ensures LineChapters(lines[i]) == [cs[i]] {
        assert cs[i] in cs;
        LineRoundTrip(cs[i]);
      }
      FlatMapOfEach(lines, cs, LineChapters);
    }
  }

  /** The written lines of serialisable chapters hold no `\n`. */
  lemma {:induction false} LinesHaveNoBreak(cs: seq<Chapter>)
    requires forall c :: c in cs ==> Serialisable(c)
    ensures forall i :: 0 <= i < |Lines(cs)| ==> NoSep(Lines(cs)[i], {'\n'})
  {
    if cs != [] {
      var c := cs[0];
      assert Serialisable(c);
      var line := ChapterLine(c);
      forall k | 0 <= k < |line| ensures line[k] != '\n' {
        if k >= 9 { assert line[k] == c.name[k - 9]; }
      }
      assert forall c :: c in cs[1..] ==> c in cs;
      LinesHaveNoBreak(cs[1..]);
      assert Lines(cs) == [line] + Lines(cs[1..]);
    }
  }

  /** One written line reads back as its chapter. */
  lemma LineRoundTrip(c: Chapter)
    requires Serialisable(c)
    ensures LineChapters(ChapterLine(c)) == [c]
  {
    ParseChapterLineOf(c.time, " ", c.name);
    var line := ChapterLine(c);
    assert line == c.time + " " + c.name;
    assert Trim(line) != "" by {
      assert !IsSpace(line[0]);
    }
  }

  /* ---------------------------------------------------------------------- */
  /* Shifting by an hour                                                    */
  /* ---------------------------------------------------------------------- */

  predicate AllClock(cs: seq<Chapter>)
  {
    forall c :: c in cs ==> IsClock(c.time)
  }

  /** One time an hour back (never below zero) or an hour forward. */
  function ShiftTime(t: string, back: bool): (r: string)
    requires IsClock(t)
    ensures IsClock(r)
    ensures back ==> Seconds(r) == if Seconds(t) >= 3600 then Seconds(t) - 3600 else 0
    ensures !back ==> Seconds(r) == Seconds(t) + 3600
    ensures back && IsValidTimeFormat(t) ==> IsValidTimeFormat(r)
  {
    ValidTimeSeconds(t);
    if back then SecondsToTime(if Seconds(t) >= 3600 then Seconds(t) - 3600 else 0)
    else SecondsToTime(Seconds(t) + 3600)
  }

  /** `shiftChapterTimes`: every time shifted, every name and the length kept. */
  function ShiftChapterTimes(cs: seq<Chapter>, back: bool): (r: seq<Chapter>)
    requires AllClock(cs)
    ensures |r| == |cs| && AllClock(r)
    ensures forall i :: 0 <= i < |r| ==> r[i].name == cs[i].name
    ensures forall i :: 0 <= i < |r| ==> Seconds(r[i].time) == ShiftedSeconds(Seconds(cs[i].time), back)
  {
    seq(|cs|, i requires 0 <= i < |cs| => Chapter(ShiftTime(cs[i].time, back), cs[i].name))
  }

  /** The number of seconds a shift moves to. */
  function ShiftedSeconds(n: nat, back: bool): nat
  {
    if !back then n + 3600 else if n >= 3600 then n - 3600 else 0
  }

  lemma ValidTimeSeconds(t: string)
    requires IsClock(t)
    ensures IsValidTimeFormat(t) ==> Seconds(t) < 360000 + 3600
  {
    if IsValidTimeFormat(t) {
      ValidTimeIsClock(t);
    }
  }

  /**
   * Back an hour then forward an hour restores a time of at least an hour
   * (with minutes and seconds below 60 that is an hour field of at least 1).
   */
  lemma ShiftBackForward(t: string)
    requires IsValidTimeFormat(t)
    requires TwoDigitValue(t, 3) < 60 && TwoDigitValue(t, 6) < 60
    requires TwoDigitValue(t, 0) >= 1
    ensures IsClock(t) && Seconds(t) >= 3600
    ensures ShiftTime(ShiftTime(t, true), false) == t
  {
    ValidTimeIsClock(t);
    TimeRoundTrip(t);
  }

  /** Forward an hour then back an hour always restores the time. */
  lemma ShiftForwardBack(t: string)
    requires IsValidTimeFormat(t)
    requires TwoDigitValue(t, 3) < 60 && TwoDigitValue(t, 6) < 60
    ensures IsClock(t) && ShiftTime(ShiftTime(t, false), true) == t
  {
    ValidTimeIsClock(t);
    TimeRoundTrip(t);
  }

  /* ---------------------------------------------------------------------- */
  /* Sorting by time                                                        */
  /* ---------------------------------------------------------------------- */

  /** Non-decreasing under `key`. */
  predicate SortedBy<T>(xs: seq<T>, key: T -> nat)
  {
    forall i, j :: 0 <= i < j < |xs| ==> key(xs[i]) <= key(xs[j])
  }

  /** The elements whose key is `n`, in order. */
  function WithKey<T>(xs: seq<T>, key: T -> nat, n: nat): seq<T>
  {
    if xs == [] then [] else KeyItem(xs[0], key, n) + WithKey(xs[1..], key, n)
  }

  /** `[x]` when its key is `n`, otherwise nothing. */
  function KeyItem<T>(x: T, key: T -> nat, n: nat): seq<T>
  {
    if key(x) == n then [x] else []
  }

  /** Places `x` before the first element whose key is not smaller. */
  function InsertBy<T>(x: T, sorted: seq<T>, key: T -> nat): (r: seq<T>)
    ensures multiset(r) == multiset(sorted) + multiset{x}
  {
    if sorted == [] || key(x) <= key(sorted[0]) then [x] + sorted
    else
      assert sorted == [sorted[0]] + sorted[1..];
      [sorted[0]] + InsertBy(x, sorted[1..], key)
  }

  /** Insertion sort: each element goes ahead of the later ones with its key. */
  function SortBy<T>(xs: seq<T>, key: T -> nat): (r: seq<T>)
    ensures multiset(r) == multiset(xs)
  {
    if xs == [] then []
    else
      assert xs == [xs[0]] + xs[1..];
      InsertBy(xs[0], SortBy(xs[1..], key), key)
  }

  lemma {:induction false} InsertBySorted<T>(x: T, sorted: seq<T>, key: T -> nat)
    requires SortedBy(sorted, key)
    ensures SortedBy(InsertBy(x, sorted, key), key)
  {
    if sorted != [] && key(x) > key(sorted[0]) {
      var rest := InsertBy(x, sorted[1..], key);
      InsertBySorted(x, sorted[1..], key);
      InsertByLowerBound(x, sorted[1..], key, key(sorted[0]));
    }
  }

  /** Inserting keeps a lower bound that the element and the list both respect. */
  lemma {:induction false} InsertByLowerBound<T>(x: T, xs: seq<T>, key: T -> nat, b: nat)
    requires key(x) >= b && forall i :: 0 <= i < |xs| ==> key(xs[i]) >= b
    ensures forall i :: 0 <= i < |InsertBy(x, xs, key)| ==> key(InsertBy(x, xs, key)[i]) >= b
  {
    if xs != [] && key(x) > key(xs[0]) {
      InsertByLowerBound(x, xs[1..], key, b);
    }
  }

  lemma {:induction false} InsertByStable<T>(x: T, sorted: seq<T>, key: T -> nat, n: nat)
    ensures WithKey(InsertBy(x, sorted, key), key, n) == KeyItem(x, key, n) + WithKey(sorted, key, n)
  {
    if sorted == [] || key(x) <= key(sorted[0]) {
      assert ([x] + sorted)[1..] == sorted;
    } else {
      var rest := InsertBy(x, sorted[1..], key);
      InsertByStable(x, sorted[1..], key, n);
      assert ([sorted[0]] + rest)[1..] == rest;
      var a, b, c := KeyItem(sorted[0], key, n), KeyItem(x, key, n), WithKey(sorted[1..], key, n);
      assert a + (b + c) == b + (a + c) by {
        if key(x) == n { assert a == []; } else { assert b == []; }
      }
    }
  }

  /** The sort orders by key. */
  lemma {:induction false} SortBySorted<T>(xs: seq<T>, key: T -> nat)
    ensures SortedBy(SortBy(xs, key), key)
  {
    if xs != [] {
      SortBySorted(xs[1..], key);
      InsertBySorted(xs[0], SortBy(xs[1..], key), key);
    }
  }

  /** The sort is stable: the elements with one key keep their relative order. */
  lemma {:induction false} SortByStable<T>(xs: seq<T>, key: T -> nat, n: nat)
    ensures WithKey(SortBy(xs, key), key, n) == WithKey(xs, key, n)
  {
    if xs != [] {
      SortByStable(xs[1..], key, n);
      InsertByStable(xs[0], SortBy(xs[1..], key), key, n);
    }
  }

  /** The sort key: seconds for a clock time (the sort is only applied to clock times). */
  function TimeKey(c: Chapter): nat
  {
    if IsClock(c.time) then Seconds(c.time) else 0
  }

  /**
   * `sortChaptersByTime`: a sorted copy (the argument is a value, so it is
   * not changed). The engine's sort is stable, so chapters at the same time
   * keep their order.
   */
  function SortByTime(cs: seq<Chapter>): (r: seq<Chapter>)
    requires AllClock(cs)
    ensures multiset(r) == multiset(cs)
    ensures AllClock(r)
  {
    var r := SortBy(cs, TimeKey);
    assert forall c :: c in r ==> c in multiset(r);
    r
  }

  /** The sorted copy is ordered by seconds, and chapters with equal seconds keep their order. */
  lemma SortByTimeProperties(cs: seq<Chapter>, n: nat)
    requires AllClock(cs)
    ensures forall i, j :: 0 <= i < j < |SortByTime(cs)| ==>
              Seconds(SortByTime(cs)[i].time) <= Seconds(SortByTime(cs)[j].time)
    ensures WithKey(SortByTime(cs), TimeKey, n) == WithKey(cs, TimeKey, n)
  {
    SortBySorted(cs, TimeKey);
    SortByStable(cs, TimeKey, n);
  }

  /* ---------------------------------------------------------------------- */
  /* De-duplication                                                         */
  /* ---------------------------------------------------------------------- */

  /** The times a list holds. */
  function TimesOf(cs: seq<Chapter>): (ts: set<string>)
    ensures forall k :: 0 <= k < |cs| ==> cs[k].time in ts
  {
    if cs == [] then {} else {cs[0].time} + TimesOf(cs[1..])
  }

  /** Every time in the set is the time of some chapter in the list. */
  lemma {:induction false} TimesOfHasWitness(cs: seq<Chapter>)
    ensures forall t :: t in TimesOf(cs) ==> exists k :: 0 <= k < |cs| && cs[k].time == t
  {
    if cs != [] {
      TimesOfHasWitness(cs[1..]);
      forall t | t in TimesOf(cs) ensures exists k :: 0 <= k < |cs| && cs[k].time == t {
        if t != cs[0].time {
          assert t in TimesOf(cs[1..]);
          var k :| 0 <= k < |cs[1..]| && cs[1..][k].time == t;
          assert cs[k + 1].time == t;
        }
      }
    }
  }

  lemma {:induction false} TimesOfAppend(cs: seq<Chapter>, c: Chapter)
    ensures TimesOf(cs + [c]) == TimesOf(cs) + {c.time}
  {
    if cs != [] {
      assert (cs + [c])[1..] == cs[1..] + [c];
      TimesOfAppend(cs[1..], c);
    } else {
      assert cs + [c] == [c];
    }
  }

  /** No two chapters share a time. */
  predicate DistinctTimes(cs: seq<Chapter>)
  {
    forall i, j :: 0 <= i < j < |cs| ==> cs[i].time != cs[j].time
  }

  /** The chapters whose time has not been seen earlier in the list, in list order. */
  function FirstPerTime(cs: seq<Chapter>): (r: seq<Chapter>)
    ensures forall c :: c in r ==> c in cs
  {
    if cs == [] then []
    else
      var d := FirstPerTime(cs[..|cs| - 1]);
      var c := cs[|cs| - 1];
      if c.time in TimesOf(d) then d else d + [c]
  }

  /** The first chapter in the list with time `t`. */
  function FirstWithTime(cs: seq<Chapter>, t: string): (c: Chapter)
    requires t in TimesOf(cs)
    ensures c in cs && c.time == t
  {
    if cs[0].time == t then cs[0]
    else
      var c := FirstWithTime(cs[1..], t);
      assert c in cs[1..];
      c
  }

  /**
   * De-duplication keeps exactly one chapter per time of the input, and it
   * is the first one.
   */
  lemma {:induction false} FirstPerTimeProperties(cs: seq<Chapter>)
    ensures DistinctTimes(FirstPerTime(cs))
    ensures TimesOf(FirstPerTime(cs)) == TimesOf(cs)
    ensures forall c :: c in FirstPerTime(cs) ==> c.time in TimesOf(cs) && c == FirstWithTime(cs, c.time)
  {
    if cs != [] {
      var front := cs[..|cs| - 1];
      var last := cs[|cs| - 1];
      var d := FirstPerTime(front);
      FirstPerTimeProperties(front);
      assert cs == front + [last];
      TimesOfAppend(front, last);
      TimesOfAppend(d, last);
      FirstKept(front, last);
      if last.time !in TimesOf(d) {
        DistinctAppend(d, last);
      }
    }
  }

  /** The chapters kept so far are still the first of their time once one more chapter follows. */
  lemma FirstKept(front: seq<Chapter>, last: Chapter)
    requires TimesOf(FirstPerTime(front)) == TimesOf(front)
    requires forall c :: c in FirstPerTime(front) ==> c.time in TimesOf(front) && c == FirstWithTime(front, c.time)
    ensures forall c :: c in FirstPerTime(front + [last]) ==>
              c.time in TimesOf(front + [last]) && c == FirstWithTime(front + [last], c.time)
  {
    var cs := front + [last];
    assert cs[..|cs| - 1] == front && cs[|cs| - 1] == last;
    var d := FirstPerTime(front);
    forall c | c in FirstPerTime(cs) ensures c.time in TimesOf(cs) && c == FirstWithTime(cs, c.time) {
      if c in d {
        FirstWithTimeExtend(front, last, c.time);
      } else {
        FirstWithTimeNew(front, last);
      }
    }
  }

  /** Appending a chapter with a new time keeps the times distinct. */
  lemma DistinctAppend(d: seq<Chapter>, last: Chapter)
    requires DistinctTimes(d) && last.time !in TimesOf(d)
    ensures DistinctTimes(d + [last])
  {
    var r := d + [last];
    forall i, j | 0 <= i < j < |r| ensures r[i].time != r[j].time {
      if j == |d| {
        assert r[i] == d[i];
      } else {
        assert r[i] == d[i] && r[j] == d[j];
      }
    }
  }

  lemma {:induction false} FirstWithTimeExtend(cs: seq<Chapter>, c: Chapter, t: string)
    requires t in TimesOf(cs)
    ensures t in TimesOf(cs + [c]) && FirstWithTime(cs + [c], t) == FirstWithTime(cs, t)
  {
    TimesOfAppend(cs, c);
    assert (cs + [c])[0] == cs[0];
    if cs[0].time != t {
      FirstWithTimeExtend(cs[1..], c, t);
      assert (cs + [c])[1..] == cs[1..] + [c];
    }
  }

  lemma {:induction false} FirstWithTimeNew(cs: seq<Chapter>, c: Chapter)
    requires c.time !in TimesOf(cs)
    ensures c.time in TimesOf(cs + [c]) && FirstWithTime(cs + [c], c.time) == c
  {
    TimesOfAppend(cs, c);
    if cs == [] {
      assert cs + [c] == [c];
    } else {
      assert (cs + [c])[1..] == cs[1..] + [c];
      FirstWithTimeNew(cs[1..], c);
    }
  }

  /** `formatChapters`: the first chapter of each time, sorted by time. */
  method FormatChapters(chapters: seq<Chapter>) returns (r: seq<Chapter>)
    requires AllClock(chapters)
    ensures AllClock(FirstPerTime(chapters)) && r == SortByTime(FirstPerTime(chapters))
  {
    var unique: seq<Chapter> := [];
    var timesSeen: set<string> := {};
    for i := 0 to |chapters|
      invariant unique == FirstPerTime(chapters[..i])
      invariant timesSeen == TimesOf(unique)
    {
      var c := chapters[i];
      assert chapters[..i + 1][..i] == chapters[..i];
      if c.time !in timesSeen {
        TimesOfAppend(unique, c);
        timesSeen := timesSeen + {c.time};
        unique := unique + [c];
      }
    }
    assert chapters[..|chapters|] == chapters;
    DedupClock(chapters);
    r := SortByTime(unique);
  }

  lemma DedupClock(chapters: seq<Chapter>)
    requires AllClock(chapters)
    ensures AllClock(FirstPerTime(chapters))
  {
    var d := FirstPerTime(chapters);
    forall k | 0 <= k < |d| ensures IsClock(d[k].time) {
      assert d[k] in chapters;
    }
  }

  /** The formatted list has one chapter per time of the input, the first one, ordered by time. */
  lemma FormatChaptersResult(chapters: seq<Chapter>)
    requires AllClock(chapters)
    ensures AllClock(FirstPerTime(chapters))
    ensures forall i, j :: 0 <= i < j < |SortByTime(FirstPerTime(chapters))| ==>
              Seconds(SortByTime(FirstPerTime(chapters))[i].time) <=
              Seconds(SortByTime(FirstPerTime(chapters))[j].time)
    ensures DistinctTimes(SortByTime(FirstPerTime(chapters)))
    ensures TimesOf(SortByTime(FirstPerTime(chapters))) == TimesOf(chapters)
    ensures forall c :: c in SortByTime(FirstPerTime(chapters)) ==>
              c.time in TimesOf(chapters) && c == FirstWithTime(chapters, c.time)
  {
    DedupClock(chapters);
    var d := FirstPerTime(chapters);
    FirstPerTimeProperties(chapters);
    SortByTimeProperties(d, 0);
    SortKeepsTimes(d, TimeKey);
    forall c | c in SortByTime(d) ensures c.time in TimesOf(chapters) && c == FirstWithTime(chapters, c.time) {
      assert c in multiset(SortByTime(d));
      assert c in d;
    }
  }

  /** Sorting keeps the set of times and their distinctness. */
  lemma {:induction false} SortKeepsTimes(cs: seq<Chapter>, key: Chapter -> nat)
    ensures TimesOf(SortBy(cs, key)) == TimesOf(cs)
    ensures DistinctTimes(cs) ==> DistinctTimes(SortBy(cs, key))
  {
    if cs != [] {
      SortKeepsTimes(cs[1..], key);
      var s := SortBy(cs[1..], key);
      if DistinctTimes(cs) {
        DistinctTail(cs);
      }
      InsertKeepsTimes(cs[0], s, key);
    }
  }

  /** A list with distinct times: its head's time is not in its tail, and its tail has distinct times. */
  lemma DistinctTail(cs: seq<Chapter>)
    requires cs != [] && DistinctTimes(cs)
    ensures cs[0].time !in TimesOf(cs[1..]) && DistinctTimes(cs[1..])
  {
    forall k | 0 <= k < |cs[1..]| ensures cs[1..][k].time != cs[0].time {
      assert cs[1..][k] == cs[k + 1];
    }
    TimesOfHasWitness(cs[1..]);
    forall i, j | 0 <= i < j < |cs[1..]| ensures cs[1..][i].time != cs[1..][j].time {
      assert cs[1..][i] == cs[i + 1] && cs[1..][j] == cs[j + 1];
    }
  }

  lemma {:induction false} InsertKeepsTimes(c: Chapter, sorted: seq<Chapter>, key: Chapter -> nat)
    ensures TimesOf(InsertBy(c, sorted, key)) == TimesOf(sorted) + {c.time}
    ensures DistinctTimes(sorted) && c.time !in TimesOf(sorted) ==> DistinctTimes(InsertBy(c, sorted, key))
  {
    var r := InsertBy(c, sorted, key);
    if sorted == [] || key(c) <= key(sorted[0]) {
      assert r == [c] + sorted && r[1..] == sorted;
      if DistinctTimes(sorted) && c.time !in TimesOf(sorted) {
        forall i, j | 0 <= i < j < |r| ensures r[i].time != r[j].time {
          assert r[j] == sorted[j - 1];
          if i > 0 { assert r[i] == sorted[i - 1]; }
        }
      }
    } else {
      var rest := InsertBy(c, sorted[1..], key);
      assert r == [sorted[0]] + rest && r[1..] == rest;
      if DistinctTimes(sorted) && c.time !in TimesOf(sorted) {
        DistinctTail(sorted);
        InsertKeepsTimes(c, sorted[1..], key);
        forall i, j | 0 <= i < j < |r| ensures r[i].time != r[j].time {
          assert r[j] == rest[j - 1];
          if i > 0 { assert r[i] == rest[i - 1]; }
        }
      } else {
        InsertKeepsTimes(c, sorted[1..], key);
      }
    }
  }
}
