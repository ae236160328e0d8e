/**
 * The JavaScript string operations the chapter toolkit relies on, written out
 * over `seq<char>`: the whitespace class `\s` and `trim`, `split` on single
 * characters and `join`, `split(/\r?\n/)`, `includes`, the fixed-width time
 * patterns its regular expressions look for, ASCII case folding and decimal
 * rendering with `padStart(2, '0')`.
 */
module Text {
  import opened Wrappers

  /** A line terminator: what the regular-expression `.` never matches. */
  predicate IsLineTerminator(c: char)
  {
    c == '\n' || c == '\r' || c == '\U{2028}' || c == '\U{2029}'
  }

  /** The characters `\s` matches and `trim` removes (white space and line terminators). */
  predicate IsSpace(c: char)
  {
    c == '\t' || c == '\U{000B}' || c == '\U{000C}' || c == ' ' || c == '\U{00A0}' ||
    c == '\U{1680}' || ('\U{2000}' <= c <= '\U{200A}') || c == '\U{202F}' ||
    c == '\U{205F}' || c == '\U{3000}' || c == '\U{FEFF}' || IsLineTerminator(c)
  }

  predicate AllSpace(s: string)
  {
    forall k :: 0 <= k < |s| ==> IsSpace(s[k])
  }

  /** How many leading characters of `s` are white space. */
  function LeadingSpaces(s: string): (n: nat)
    ensures n <= |s|
    ensures forall k :: 0 <= k < n ==> IsSpace(s[k])
    ensures n < |s| ==> !IsSpace(s[n])
  {
    if s != [] && IsSpace(s[0]) then 1 + LeadingSpaces(s[1..]) else 0
  }

  /** How many trailing characters of `s` are white space. */
  function TrailingSpaces(s: string): (n: nat)
    ensures n <= |s|
    ensures forall k :: |s| - n <= k < |s| ==> IsSpace(s[k])
    ensures n < |s| ==> !IsSpace(s[|s| - n - 1])
  {
    if s != [] && IsSpace(s[|s| - 1]) then 1 + TrailingSpaces(s[..|s| - 1]) else 0
  }

  /** `s.trim()`. */
  function Trim(s: string): (r: string)
    ensures |r| <= |s|
    ensures r == "" <==> AllSpace(s)
    ensures r != "" ==> !IsSpace(r[0]) && !IsSpace(r[|r| - 1])
  {
    var rest := s[LeadingSpaces(s)..];
    assert forall k :: 0 <= k < |rest| ==> rest[k] == s[LeadingSpaces(s) + k];
    rest[..|rest| - TrailingSpaces(rest)]
  }

  /** Padding white space around a string that neither starts nor ends with it is exactly what `trim` removes. */
  lemma TrimPadding(before: string, middle: string, after: string)
    requires AllSpace(before) && AllSpace(after)
    requires middle == "" || (!IsSpace(middle[0]) && !IsSpace(middle[|middle| - 1]))
    ensures middle != "" ==> Trim(before + middle + after) == middle
    ensures middle == "" ==> Trim(before + middle + after) == ""
  {
    var s := before + middle + after;
    if middle == "" {
      assert AllSpace(s) by {
        forall k | 0 <= k < |s| ensures IsSpace(s[k]) {
          if k < |before| { assert s[k] == before[k]; } else { assert s[k] == after[k - |before|]; }
        }
      }
    } else {
      LeadingSpacesOf(before, middle + after);
      assert s == before + (middle + after);
      var rest := s[|before|..];
      assert rest == middle + after;
      TrailingSpacesOf(middle, after);
    }
  }

  lemma {:induction false} LeadingSpacesOf(pad: string, t: string)
    requires AllSpace(pad)
    requires t != [] && !IsSpace(t[0])
    ensures LeadingSpaces(pad + t) == |pad|
  {
    if pad != [] {
      assert (pad + t)[1..] == pad[1..] + t;
      LeadingSpacesOf(pad[1..], t);
    } else {
      assert pad + t == t;
    }
  }

  lemma {:induction false} TrailingSpacesOf(t: string, pad: string)
    requires AllSpace(pad)
    requires t != [] && !IsSpace(t[|t| - 1])
    ensures TrailingSpaces(t + pad) == |pad|
  {
    if pad != [] {
      assert (t + pad)[..|t + pad| - 1] == t + pad[..|pad| - 1];
      TrailingSpacesOf(t, pad[..|pad| - 1]);
    } else {
      assert t + pad == t;
    }
  }

  /** `trim` is idempotent. */
  lemma TrimIdempotent(s: string)
    ensures Trim(Trim(s)) == Trim(s)
  {
    var r := Trim(s);
    TrimPadding("", r, "");
    assert "" + r + "" == r;
  }

  /* ---------------------------------------------------------------------- */
  /* split and join                                                         */
  /* ---------------------------------------------------------------------- */

  /** No character of `p` is one of `seps`. */
  predicate NoSep(p: string, seps: set<char>)
  {
    forall k :: 0 <= k < |p| ==> p[k] !in seps
  }

  /** `s.split(re)` for a pattern matching exactly one character of `seps`. */
  function Split(s: string, seps: set<char>): (parts: seq<string>)
    ensures |parts| >= 1
    ensures forall i :: 0 <= i < |parts| ==> NoSep(parts[i], seps)
    decreases |s|
  {
    if s == [] then [""]
    else
      var rest := Split(s[1..], seps);
      if s[0] in seps then [""] + rest
      else
        assert NoSep([s[0]] + rest[0], seps) by {
          assert NoSep(rest[0], seps);
        }
        [[s[0]] + rest[0]] + rest[1..]
  }

  /** `parts.join(sep)`. */
  function Join(parts: seq<string>, sep: char): string
  {
    if |parts| == 0 then ""
    else if |parts| == 1 then parts[0]
    else parts[0] + [sep] + Join(parts[1..], sep)
  }

  /** Joining a first part onto further parts puts one separator between them. */
  lemma JoinCons(head: string, tail: seq<string>, sep: char)
    requires tail != []
    ensures Join([head] + tail, sep) == head + ([sep] + Join(tail, sep))
  {
    assert ([head] + tail)[1..] == tail;
  }

  /** A join of pieces that avoid `c`, with a separator other than `c`, avoids `c`. */
  lemma {:induction false} JoinAvoids(parts: seq<string>, sep: char, c: char)
    requires sep != c
    requires forall p :: p in parts ==> c !in p
    ensures c !in Join(parts, sep)
  {
    if |parts| > 1 {
      assert forall p :: p in parts[1..] ==> p in parts;
      JoinAvoids(parts[1..], sep, c);
      assert parts[0] in parts;
    } else if |parts| == 1 {
      assert parts[0] in parts;
    }
  }

  /** Joining the pieces back with a separator they were split on gives the string back. */
  lemma {:induction false} JoinSplit(s: string, sep: char)
    ensures Join(Split(s, {sep}), sep) == s
    decreases |s|
  {
    if s != [] {
      var rest := Split(s[1..], {sep});
      JoinSplit(s[1..], sep);
      if s[0] == sep {
        assert Split(s, {sep}) == [""] + rest;
        assert ([""] + rest)[1..] == rest;
        assert s == "" + [sep] + s[1..];
      } else {
        var parts := Split(s, {sep});
        assert parts == [[s[0]] + rest[0]] + rest[1..];
        if |rest| == 1 {
          assert s == [s[0]] + s[1..];
        } else {
          assert parts[1..] == rest[1..];
          assert Join(rest, sep) == rest[0] + [sep] + Join(rest[1..], sep);
          assert s == [s[0]] + s[1..];
        }
      }
    }
  }

  /** Splitting a join whose pieces avoid the separators gives the pieces back. */
  lemma {:induction false} SplitJoin(parts: seq<string>, sep: char, seps: set<char>)
    requires |parts| >= 1 && sep in seps
    requires forall i :: 0 <= i < |parts| ==> NoSep(parts[i], seps)
    ensures Split(Join(parts, sep), seps) == parts
  {
    if |parts| == 1 {
      SplitPlain(parts[0], seps);
    } else {
      var tail := Join(parts[1..], sep);
      assert NoSep(parts[0], seps);
      assert forall i :: 0 <= i < |parts[1..]| ==> parts[1..][i] == parts[i + 1];
      SplitJoin(parts[1..], sep, seps);
      SplitPrefix(parts[0], [sep] + tail, seps);
      assert parts[0] + [sep] + tail == parts[0] + ([sep] + tail);
      assert ([sep] + tail)[1..] == tail;
      var after := Split([sep] + tail, seps);
      assert after == [""] + parts[1..];
      assert after[0] == "" && after[1..] == parts[1..];
      assert parts[0] + after[0] == parts[0];
      assert Join(parts, sep) == parts[0] + ([sep] + tail);
      assert parts == [parts[0]] + parts[1..];
    }
  }

  /** A string without separators splits into itself. */
  lemma {:induction false} SplitPlain(p: string, seps: set<char>)
    requires NoSep(p, seps)
    ensures Split(p, seps) == [p]
    decreases |p|
  {
    if p != [] {
      SplitPlain(p[1..], seps);
      assert [p[0]] + p[1..] == p;
    }
  }

  /** A separator-free prefix joins the first piece of what follows it. */
  lemma {:induction false} SplitPrefix(p: string, t: string, seps: set<char>)
    requires NoSep(p, seps)
    ensures Split(p + t, seps) == [p + Split(t, seps)[0]] + Split(t, seps)[1..]
    decreases |p|
  {
    if p == [] {
      assert p + t == t;
      assert p + Split(t, seps)[0] == Split(t, seps)[0];
      assert Split(t, seps) == [Split(t, seps)[0]] + Split(t, seps)[1..];
    } else {
      assert (p + t)[1..] == p[1..] + t;
      SplitPrefix(p[1..], t, seps);
      assert [p[0]] + (p[1..] + Split(t, seps)[0]) == p + Split(t, seps)[0];
    }
  }

  /** Splitting at one character gives one piece more than it has occurrences. */
  lemma {:induction false} SplitCount(s: string, c: char)
    ensures |Split(s, {c})| == multiset(s)[c] + 1
    decreases |s|
  {
    if s != [] {
      SplitCount(s[1..], c);
      assert s == [s[0]] + s[1..];
    }
  }

  /** The last piece is what follows the last separator. */
  lemma {:induction false} SplitLast(p: string, sep: char, t: string, seps: set<char>)
    requires sep in seps && NoSep(t, seps)
    ensures |Split(p + [sep] + t, seps)| >= 2
    ensures Split(p + [sep] + t, seps)[|Split(p + [sep] + t, seps)| - 1] == t
    decreases |p|
  {
    var s := p + [sep] + t;
    if p == [] {
      assert s == [sep] + t && s[1..] == t;
      SplitPlain(t, seps);
    } else {
      assert s[1..] == p[1..] + [sep] + t;
      SplitLast(p[1..], sep, t, seps);
    }
  }

  /** Drops one `\r` from the end of a line. */
  function DropCr(line: string): string
  {
    if line != [] && line[|line| - 1] == '\r' then line[..|line| - 1] else line
  }

  /** The `\r` of an `\r\n` belongs to the separator; the last piece has no `\n` after it. */
  function DropCrs(parts: seq<string>): seq<string>
  {
    if |parts| <= 1 then parts else [DropCr(parts[0])] + DropCrs(parts[1..])
  }

  /** `s.split(/\r?\n/)`. */
  function SplitLines(s: string): (lines: seq<string>)
    ensures |lines| == |Split(s, {'\n'})|
    ensures forall line :: line in lines ==> '\n' !in line
  {
    DropCrsKeeps(Split(s, {'\n'}));
    DropCrs(Split(s, {'\n'}))
  }

  lemma {:induction false} DropCrsKeeps(parts: seq<string>)
    ensures |DropCrs(parts)| == |parts|
    ensures forall line :: line in DropCrs(parts) ==> exists p :: p in parts && line <= p
  {
    if |parts| > 1 {
      DropCrsKeeps(parts[1..]);
      var r := DropCrs(parts);
      forall line | line in r
        ensures exists p :: p in parts && line <= p
      {
        if line == DropCr(parts[0]) {
          assert parts[0] in parts && line <= parts[0];
        } else {
          assert line in DropCrs(parts[1..]);
          var p :| p in parts[1..] && line <= p;
          assert p in parts;
        }
      }
    } else {
      forall line | line in DropCrs(parts)
        ensures exists p :: p in parts && line <= p
      {
        assert line in parts && line <= line;
      }
    }
  }

  /** Text without `\r` splits into lines exactly as it splits on `\n`. */
  lemma {:induction false} SplitLinesWithoutCr(s: string)
    requires '\r' !in s
    ensures SplitLines(s) == Split(s, {'\n'})
  {
    NoCrParts(s);
    DropCrsNoCr(Split(s, {'\n'}));
  }

  lemma {:induction false} NoCrParts(s: string)
    requires '\r' !in s
    ensures forall p :: p in Split(s, {'\n'}) ==> '\r' !in p
    decreases |s|
  {
    if s != [] {
      assert s == [s[0]] + s[1..];
      NoCrParts(s[1..]);
    }
  }

  lemma {:induction false} DropCrsNoCr(parts: seq<string>)
    requires forall p :: p in parts ==> '\r' !in p
    ensures DropCrs(parts) == parts
  {
    if |parts| > 1 {
      assert parts[0] in parts;
      if parts[0] != [] { assert parts[0][|parts[0]| - 1] in parts[0]; }
      forall p | p in parts[1..] ensures '\r' !in p { assert p in parts; }
      DropCrsNoCr(parts[1..]);
      assert parts == [parts[0]] + parts[1..];
    }
  }

  /* ---------------------------------------------------------------------- */
  /* Substrings                                                             */
  /* ---------------------------------------------------------------------- */

  /** `t` occurs in `s` at index `i`. */
  predicate OccursAt(s: string, t: string, i: nat)
  {
    i + |t| <= |s| && s[i..i + |t|] == t
  }

  /** `s.includes(t)`. */
  predicate Contains(s: string, t: string)
  {
    exists i: nat :: i + |t| <= |s| && OccursAt(s, t, i)
  }

  /** `s.indexOf(t, from)` when it finds something, as an option. */
  function IndexOf(s: string, t: string, from: nat): (r: Option<nat>)
    requires from <= |s|
    ensures r.Some? ==> from <= r.value && OccursAt(s, t, r.value)
    ensures r.Some? ==> forall j: nat :: from <= j < r.value ==> !OccursAt(s, t, j)
    ensures r.None? ==> forall j: nat :: from <= j ==> !OccursAt(s, t, j)
    decreases |s| - from
  {
    if OccursAt(s, t, from) then Some(from)
    else if from == |s| then None
    else IndexOf(s, t, from + 1)
  }

  /** `includes` finds an occurrence exactly when `indexOf` does. */
  lemma ContainsIndexOf(s: string, t: string)
    ensures Contains(s, t) <==> IndexOf(s, t, 0).Some?
  {
    var r := IndexOf(s, t, 0);
    if r.Some? {
      assert OccursAt(s, t, r.value);
    }
  }

  /* ---------------------------------------------------------------------- */
  /* Digits and the time patterns                                           */
  /* ---------------------------------------------------------------------- */

  /** `\d`: ASCII digits only. */
  predicate IsDigit(c: char)
  {
    '0' <= c <= '9'
  }

  predicate AllDigits(s: string)
  {
    forall k :: 0 <= k < |s| ==> IsDigit(s[k])
  }

  function DigitValue(c: char): (d: nat)
    requires IsDigit(c)
    ensures d < 10
  {
    (c as int) - ('0' as int)
  }

  function DigitChar(d: nat): (c: char)
    requires d < 10
    ensures IsDigit(c) && DigitValue(c) == d
  {
    (('0' as int) + d) as char
  }

  /** `\d\d` at `i`. */
  predicate TwoDigitsAt(s: string, i: nat)
  {
    i + 2 <= |s| && IsDigit(s[i]) && IsDigit(s[i + 1])
  }

  /** The number two digits at `i` spell. */
  function TwoDigitValue(s: string, i: nat): (n: nat)
    requires TwoDigitsAt(s, i)
    ensures n < 100
  {
    10 * DigitValue(s[i]) + DigitValue(s[i + 1])
  }

  /** `\d{2}:\d{2}:\d{2}` at `i`. */
  predicate TimeAt(s: string, i: nat)
  {
    i + 8 <= |s| && TwoDigitsAt(s, i) && s[i + 2] == ':' && TwoDigitsAt(s, i + 3) &&
    s[i + 5] == ':' && TwoDigitsAt(s, i + 6)
  }

  /** `\d{2}:\d{2}:\d{2}:\d{2}` at `i`: a time followed by a frame count. */
  predicate TimecodeAt(s: string, i: nat)
  {
    TimeAt(s, i) && i + 11 <= |s| && s[i + 8] == ':' && TwoDigitsAt(s, i + 9)
  }

  /** Where an unanchored search for `\d{2}:\d{2}:\d{2}` from `from` first matches. */
  function FindTime(s: string, from: nat): (r: Option<nat>)
    ensures r.Some? ==> from <= r.value && TimeAt(s, r.value)
    ensures r.Some? ==> forall j: nat :: from <= j < r.value ==> !TimeAt(s, j)
    ensures r.None? ==> forall j: nat :: from <= j ==> !TimeAt(s, j)
    decreases |s| - from
  {
    if from + 8 > |s| then None
    else if TimeAt(s, from) then Some(from)
    else FindTime(s, from + 1)
  }

  /** Where an unanchored search for `\d{2}:\d{2}:\d{2}:\d{2}` from `from` first matches. */
  function FindTimecode(s: string, from: nat): (r: Option<nat>)
    ensures r.Some? ==> from <= r.value && TimecodeAt(s, r.value)
    ensures r.Some? ==> forall j: nat :: from <= j < r.value ==> !TimecodeAt(s, j)
    ensures r.None? ==> forall j: nat :: from <= j ==> !TimecodeAt(s, j)
    decreases |s| - from
  {
    if from + 11 > |s| then None
    else if TimecodeAt(s, from) then Some(from)
    else FindTimecode(s, from + 1)
  }

  /** A string that is exactly `DD:DD:DD`. */
  predicate IsTime(t: string)
  {
    |t| == 8 && TimeAt(t, 0)
  }

  /** The eight characters of a time found at `i`. */
  function TimeText(s: string, i: nat): (t: string)
    requires TimeAt(s, i)
    ensures IsTime(t)
  {
    s[i..i + 8]
  }

  /* ---------------------------------------------------------------------- */
  /* Decimal rendering                                                      */
  /* ---------------------------------------------------------------------- */

  /** `String(n)` for a natural number. */
  function Decimal(n: nat): (r: string)
    ensures |r| >= 1 && AllDigits(r)
    ensures n < 10 <==> |r| == 1
  {
    if n < 10 then [DigitChar(n)] else Decimal(n / 10) + [DigitChar(n % 10)]
  }

  /** `Number(s)` for a string of digits. */
  function DecimalValue(s: string): nat
    requires AllDigits(s)
  {
    if s == [] then 0 else 10 * DecimalValue(s[..|s| - 1]) + DigitValue(s[|s| - 1])
  }

  /** Reading back a rendered number gives the number. */
  lemma {:induction false} DecimalRoundTrip(n: nat)
    ensures DecimalValue(Decimal(n)) == n
  {
    if n >= 10 {
      DecimalRoundTrip(n / 10);
      var r := Decimal(n);
      assert r[..|r| - 1] == Decimal(n / 10);
    }
  }

  /** `String(n).padStart(2, '0')`. */
  function Pad2(n: nat): (r: string)
    ensures |r| >= 2 && AllDigits(r)
    ensures n < 100 <==> |r| == 2
  {
    var d := Decimal(n);
    if |d| < 2 then ['0'] + d else d
  }

  /** Below 100, the padded rendering is two digits that read back as `n`. */
  lemma Pad2Value(n: nat)
    requires n < 100
    ensures |Pad2(n)| == 2 && TwoDigitsAt(Pad2(n), 0)
    ensures TwoDigitValue(Pad2(n), 0) == n
  {
    var r := Pad2(n);
    if n < 10 {
      assert r == ['0', DigitChar(n)];
    } else {
      assert Decimal(n / 10) == [DigitChar(n / 10)];
      assert r == [DigitChar(n / 10), DigitChar(n % 10)];
    }
  }

  /** Every rendering, padded or not, reads back as the number it renders. */
  lemma Pad2RoundTrip(n: nat)
    ensures DecimalValue(Pad2(n)) == n
  {
    DecimalRoundTrip(n);
    var d := Decimal(n);
    if |d| < 2 {
      var r := ['0'] + d;
      assert r[..|r| - 1] == ['0'] && r[|r| - 1] == d[0];
      assert ['0'][..0] == [];
      assert d[..0] == [];
    }
  }

  /** Two digits read as a number and padded back give the same two characters. */
  lemma Pad2OfTwoDigits(s: string, i: nat)
    requires TwoDigitsAt(s, i)
    ensures Pad2(TwoDigitValue(s, i)) == s[i..i + 2]
  {
    var a := DigitValue(s[i]);
    var b := DigitValue(s[i + 1]);
    var v := TwoDigitValue(s, i);
    DigitCharOfValue(s[i]);
    DigitCharOfValue(s[i + 1]);
    if a == 0 {
      assert v == b;
      assert Pad2(v) == ['0', DigitChar(b)];
    } else {
      assert v / 10 == a && v % 10 == b;
      assert Decimal(v) == [DigitChar(a)] + [DigitChar(b)];
    }
  }

  lemma DigitCharOfValue(c: char)
    requires IsDigit(c)
    ensures DigitChar(DigitValue(c)) == c
  {
  }

  /** Two digits spell the number their decimal reading gives. */
  lemma TwoDigitDecimal(s: string, i: nat)
    requires TwoDigitsAt(s, i)
    ensures AllDigits(s[i..i + 2]) && DecimalValue(s[i..i + 2]) == TwoDigitValue(s, i)
  {
    var t := s[i..i + 2];
    assert t[..1] == [s[i]] && t[1] == s[i + 1];
    assert DecimalValue(t[..1]) == DecimalValue([s[i]][..0]) * 10 + DigitValue(s[i]);
    assert [s[i]][..0] == [];
    assert DecimalValue(t) == 10 * DecimalValue(t[..1]) + DigitValue(t[1]);
  }

  /* ---------------------------------------------------------------------- */
  /* Array pipelines                                                        */
  /* ---------------------------------------------------------------------- */

  /** `xs.map(f)` followed by flattening: what a `map` then `filter` keeps, item by item. */
  function FlatMap<A, B>(xs: seq<A>, f: A -> seq<B>): seq<B>
  {
    if xs == [] then [] else f(xs[0]) + FlatMap(xs[1..], f)
  }

  /** Every output item comes from some input item. */
  lemma {:induction false} FlatMapOrigin<A, B>(xs: seq<A>, f: A -> seq<B>, y: B)
    requires y in FlatMap(xs, f)
    ensures exists i :: 0 <= i < |xs| && y in f(xs[i])
  {
    if y !in f(xs[0]) {
      FlatMapOrigin(xs[1..], f, y);
      var i :| 0 <= i < |xs[1..]| && y in f(xs[1..][i]);
      assert xs[1..][i] == xs[i + 1];
    }
  }

  /** Mapping one more item appends its output. */
  lemma {:induction false} FlatMapAppend<A, B>(xs: seq<A>, x: A, f: A -> seq<B>)
    ensures FlatMap(xs + [x], f) == FlatMap(xs, f) + f(x)
  {
    if xs == [] {
      assert [] + [x] == [x];
      assert [x][1..] == [];
    } else {
      assert (xs + [x])[0] == xs[0] && (xs + [x])[1..] == xs[1..] + [x];
      FlatMapAppend(xs[1..], x, f);
    }
  }

  /** Extending a slice by one element extends its flattening by that element's piece. */
  lemma FlatMapSliceStep<A, B>(xs: seq<A>, lo: nat, i: nat, f: A -> seq<B>)
    requires lo <= i < |xs|
    ensures FlatMap(xs[lo..i + 1], f) == FlatMap(xs[lo..i], f) + f(xs[i])
  {
    assert xs[lo..i + 1] == xs[lo..i] + [xs[i]];
    FlatMapAppend(xs[lo..i], xs[i], f);
  }

  /** When each input item gives exactly one output item, those items are the output. */
  lemma {:induction false} FlatMapOfEach<A, B>(xs: seq<A>, ys: seq<B>, f: A -> seq<B>)
    requires |xs| == |ys|
    requires forall i :: 0 <= i < |xs| ==> f(xs[i]) == [ys[i]]
    ensures FlatMap(xs, f) == ys
  {
    if xs != [] {
      assert forall i :: 0 <= i < |xs[1..]| ==> xs[1..][i] == xs[i + 1] && ys[1..][i] == ys[i + 1];
      FlatMapOfEach(xs[1..], ys[1..], f);
      assert ys == [ys[0]] + ys[1..];
    }
  }

  /* ---------------------------------------------------------------------- */
  /* Case                                                                   */
  /* ---------------------------------------------------------------------- */

  /** `toLowerCase` restricted to ASCII letters. */
  function LowerChar(c: char): char
  {
    if 'A' <= c <= 'Z' then ((c as int) + 32) as char else c
  }

  function Lower(s: string): string
  {
    seq(|s|, i requires 0 <= i < |s| => LowerChar(s[i]))
  }
}
