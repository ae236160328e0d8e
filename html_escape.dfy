/**
 * `escapeHtml` of app/ui/chapter-list.js: five global replacements, `&`
 * first, so that no entity written by a later replacement is escaped again.
 * The text is shown as HTML, so the escaped text must hold no markup
 * character and must decode to exactly the input.
 */
module HtmlEscape {
  import opened Wrappers
  import opened Text

  /** The five characters the chain replaces. */
  predicate IsSpecial(c: char)
  {
    c == '&' || c == '<' || c == '>' || c == '"' || c == '\''
  }

  /** The replacement of one character: its entity, or the character itself. */
  function EscapeChar(c: char): (e: string)
    ensures |e| >= 1
    ensures IsSpecial(c) <==> |e| > 1
    ensures IsSpecial(c) <==> e[0] == '&'
  {
    if c == '&' then "&amp;"
    else if c == '<' then "&lt;"
    else if c == '>' then "&gt;"
    else if c == '"' then "&quot;"
    else if c == '\'' then "&#039;"
    else [c]
  }

  /** `s.replace(/c/g, rep)`: every occurrence of `c` replaced by `rep`. */
  function ReplaceAll(s: string, c: char, rep: string): string
  {
    if s == [] then [] else (if s[0] == c then rep else [s[0]]) + ReplaceAll(s[1..], c, rep)
  }

  /** The chain of the five replacements. */
  function ReplaceChain(s: string): string
  {
    ReplaceAll(ReplaceAll(ReplaceAll(ReplaceAll(ReplaceAll(s, '&', "&amp;"), '<', "&lt;"), '>', "&gt;"), '"', "&quot;"), '\'', "&#039;")
  }

  /**
   * `escapeHtml`: a missing value (or the empty string) gives the empty
   * string; otherwise the chain, which replaces each character by its own
   * escape.
   */
  function EscapeHtml(unsafe: Option<string>): (r: string)
    ensures unsafe.None? ==> r == ""
    ensures unsafe.Some? ==> r == FlatMap(unsafe.value, EscapeChar)
  {
    if unsafe.None? || unsafe.value == "" then ""
    else
      ChainIsPerChar(unsafe.value);
      ReplaceChain(unsafe.value)
  }

  /* Replacement laws */

  /** A replacement works on the two halves of a string separately. */
  lemma {:induction false} ReplaceAppend(a: string, b: string, c: char, rep: string)
    ensures ReplaceAll(a + b, c, rep) == ReplaceAll(a, c, rep) + ReplaceAll(b, c, rep)
    decreases |a|
  {
    if a != [] {
      assert (a + b)[1..] == a[1..] + b;
      ReplaceAppend(a[1..], b, c, rep);
    } else {
      assert a + b == b;
    }
  }

  /** A replacement leaves a string without its character as it is. */
  lemma {:induction false} ReplaceAbsent(s: string, c: char, rep: string)
    requires c !in s
    ensures ReplaceAll(s, c, rep) == s
    decreases |s|
  {
    if s != [] {
      assert c !in s[1..];
      ReplaceAbsent(s[1..], c, rep);
    }
  }

  /** A replacement on one character. */
  lemma ReplaceOne(x: char, c: char, rep: string)
    ensures ReplaceAll([x], c, rep) == if x == c then rep else [x]
  {
    assert [x][1..] == [];
  }

  /** The chain works on the two halves of a string separately. */
  lemma ChainAppend(a: string, b: string)
    ensures ReplaceChain(a + b) == ReplaceChain(a) + ReplaceChain(b)
  {
    var a1, b1 := ReplaceAll(a, '&', "&amp;"), ReplaceAll(b, '&', "&amp;");
    ReplaceAppend(a, b, '&', "&amp;");
    var a2, b2 := ReplaceAll(a1, '<', "&lt;"), ReplaceAll(b1, '<', "&lt;");
    ReplaceAppend(a1, b1, '<', "&lt;");
    var a3, b3 := ReplaceAll(a2, '>', "&gt;"), ReplaceAll(b2, '>', "&gt;");
    ReplaceAppend(a2, b2, '>', "&gt;");
    var a4, b4 := ReplaceAll(a3, '"', "&quot;"), ReplaceAll(b3, '"', "&quot;");
    ReplaceAppend(a3, b3, '"', "&quot;");
    ReplaceAppend(a4, b4, '\'', "&#039;");
  }

  /**
   * The chain on one character gives its escape: the entity written for `&`
   * holds none of the four later characters, and each later entity holds
   * none of the characters replaced after it.
   */
  lemma ChainOne(x: char)
    ensures ReplaceChain([x]) == EscapeChar(x)
  {
    ReplaceOne(x, '&', "&amp;");
    var s1 := ReplaceAll([x], '&', "&amp;");
    ReplaceOne(x, '<', "&lt;");
    var s2 := ReplaceAll(s1, '<', "&lt;");
    if x == '&' {
      assert s1 == "&amp;";
      LaterUntouched(s1, 1);
    } else if x == '<' {
      assert s1 == [x] && s2 == "&lt;";
      LaterUntouched(s2, 2);
    } else {
      ReplaceOne(x, '>', "&gt;");
      var s3 := ReplaceAll(s2, '>', "&gt;");
      if x == '>' {
        assert s3 == "&gt;";
        LaterUntouched(s3, 3);
      } else {
        ReplaceOne(x, '"', "&quot;");
        var s4 := ReplaceAll(s3, '"', "&quot;");
        if x == '"' {
          assert s4 == "&quot;";
          LaterUntouched(s4, 4);
        } else {
          ReplaceOne(x, '\'', "&#039;");
        }
      }
    }
  }

  /**
   * The replacements after stage `done` leave alone a string holding none of
   * their characters, as every entity does.
   */
  lemma LaterUntouched(s: string, done: nat)
    requires 1 <= done <= 4
    requires s in {"&amp;", "&lt;", "&gt;", "&quot;"}
    ensures done <= 1 ==> ReplaceAll(s, '<', "&lt;") == s
    ensures done <= 2 ==> ReplaceAll(s, '>', "&gt;") == s
    ensures done <= 3 ==> ReplaceAll(s, '"', "&quot;") == s
    ensures ReplaceAll(s, '\'', "&#039;") == s
  {
    forall c | c in "<>\"'" ensures c !in s {
    }
    ReplaceAbsent(s, '<', "&lt;");
    ReplaceAbsent(s, '>', "&gt;");
    ReplaceAbsent(s, '"', "&quot;");
    ReplaceAbsent(s, '\'', "&#039;");
  }

  /** Because `&` goes first, the chain is the per-character escape. */
  lemma {:induction false} ChainIsPerChar(s: string)
    ensures ReplaceChain(s) == FlatMap(s, EscapeChar)
    decreases |s|
  {
    if s != [] {
      assert s == [s[0]] + s[1..];
      ChainAppend([s[0]], s[1..]);
      ChainOne(s[0]);
      ChainIsPerChar(s[1..]);
    }
  }

  /* What the escaped text promises */

  /** One of the five entities starts at `k`. */
  predicate EntityAt(o: string, k: nat)
  {
    OccursAt(o, "&amp;", k) || OccursAt(o, "&lt;", k) || OccursAt(o, "&gt;", k) ||
    OccursAt(o, "&quot;", k) || OccursAt(o, "&#039;", k)
  }

  /** An occurrence in the second half of a string is one in the whole. */
  lemma OccursAfter(a: string, b: string, t: string, j: nat)
    requires OccursAt(b, t, j)
    ensures OccursAt(a + b, t, |a| + j)
  {
    assert (a + b)[|a| + j..|a| + j + |t|] == b[j..j + |t|];
  }

  /** An occurrence at the start of the first half of a string is one in the whole. */
  lemma OccursBefore(a: string, b: string, t: string)
    requires OccursAt(a, t, 0)
    ensures OccursAt(a + b, t, 0)
  {
    assert (a + b)[..|t|] == a[..|t|];
  }

  /** An escape holds `&` only at its start, where an entity begins. */
  lemma EscapeCharLayout(c: char, rest: string)
    ensures forall j :: 0 < j < |EscapeChar(c)| ==> EscapeChar(c)[j] != '&' && !IsSpecial(EscapeChar(c)[j])
    ensures EscapeChar(c)[0] == '&' ==> EntityAt(EscapeChar(c) + rest, 0)
    ensures forall j :: 0 <= j < |EscapeChar(c)| ==> EscapeChar(c)[j] != '<' && EscapeChar(c)[j] != '>'
    ensures forall j :: 0 <= j < |EscapeChar(c)| ==> EscapeChar(c)[j] != '"' && EscapeChar(c)[j] != '\''
  {
    var e := EscapeChar(c);
    if e[0] == '&' {
      assert OccursAt(e, e, 0);
      OccursBefore(e, rest, e);
    }
  }

  /**
   * The escaped text holds no `<`, `>`, `"` or `'`, and every `&` in it
   * begins one of the five entities.
   */
  lemma {:induction false} EscapedIsSafe(s: string)
    ensures forall k :: 0 <= k < |FlatMap(s, EscapeChar)| ==>
              FlatMap(s, EscapeChar)[k] !in {'<', '>', '"', '\''}
    ensures forall k :: 0 <= k < |FlatMap(s, EscapeChar)| && FlatMap(s, EscapeChar)[k] == '&' ==>
              EntityAt(FlatMap(s, EscapeChar), k)
    decreases |s|
  {
    if s != [] {
      var e := EscapeChar(s[0]);
      var rest := FlatMap(s[1..], EscapeChar);
      var o := FlatMap(s, EscapeChar);
      assert o == e + rest;
      EscapedIsSafe(s[1..]);
      EscapeCharLayout(s[0], rest);
      forall k | 0 <= k < |o|
        ensures o[k] !in {'<', '>', '"', '\''}
        ensures o[k] == '&' ==> EntityAt(o, k)
      {
        if k < |e| {
          assert o[k] == e[k];
        } else {
          assert o[k] == rest[k - |e|];
          if o[k] == '&' {
            var j := k - |e|;
            if OccursAt(rest, "&amp;", j) { OccursAfter(e, rest, "&amp;", j); }
            else if OccursAt(rest, "&lt;", j) { OccursAfter(e, rest, "&lt;", j); }
            else if OccursAt(rest, "&gt;", j) { OccursAfter(e, rest, "&gt;", j); }
            else if OccursAt(rest, "&quot;", j) { OccursAfter(e, rest, "&quot;", j); }
            else { OccursAfter(e, rest, "&#039;", j); }
          }
        }
      }
    }
  }

  /** Decoding the five entities, the inverse of the escape. */
  function Unescape(o: string): string
    decreases |o|
  {
    if o == [] then []
    else if OccursAt(o, "&amp;", 0) then "&" + Unescape(o[5..])
    else if OccursAt(o, "&lt;", 0) then "<" + Unescape(o[4..])
    else if OccursAt(o, "&gt;", 0) then ">" + Unescape(o[4..])
    else if OccursAt(o, "&quot;", 0) then "\"" + Unescape(o[6..])
    else if OccursAt(o, "&#039;", 0) then "'" + Unescape(o[6..])
    else [o[0]] + Unescape(o[1..])
  }

  /** Decoding an escaped character gives the character back. */
  lemma UnescapeOne(c: char, rest: string)
    ensures Unescape(EscapeChar(c) + rest) == [c] + Unescape(rest)
  {
    var e := EscapeChar(c);
    var o := e + rest;
    assert o[..|e|] == e && o[|e|..] == rest;
    if !IsSpecial(c) {
      assert o[0] == c && o[1..] == rest;
      NoEntityStart(o);
    } else if c == '&' {
      assert OccursAt(o, "&amp;", 0);
    } else {
      assert !OccursAt(o, "&amp;", 0) by { assert o[1] != 'a'; }
      if c == '<' {
        assert OccursAt(o, "&lt;", 0);
      } else {
        assert !OccursAt(o, "&lt;", 0) by { assert o[1] != 'l'; }
        if c == '>' {
          assert OccursAt(o, "&gt;", 0);
        } else {
          assert !OccursAt(o, "&gt;", 0) by { assert o[1] != 'g'; }
          if c == '"' {
            assert OccursAt(o, "&quot;", 0);
          } else {
            assert !OccursAt(o, "&quot;", 0) by { assert o[1] != 'q'; }
            assert OccursAt(o, "&#039;", 0);
          }
        }
      }
    }
  }

  /** Text that does not start with `&` starts with no entity. */
  lemma NoEntityStart(o: string)
    requires o != [] && o[0] != '&'
    ensures !EntityAt(o, 0)
  {
  }

  /** Decoding the escaped text gives the input back. */
  lemma {:induction false} EscapedRoundTrip(s: string)
    ensures Unescape(FlatMap(s, EscapeChar)) == s
    decreases |s|
  {
    if s != [] {
      UnescapeOne(s[0], FlatMap(s[1..], EscapeChar));
      EscapedRoundTrip(s[1..]);
      assert s == [s[0]] + s[1..];
    }
  }

  /** `escapeHtml` is injective on strings: different texts escape differently. */
  lemma EscapeHtmlInjective(s: string, t: string)
    requires EscapeHtml(Some(s)) == EscapeHtml(Some(t))
    ensures s == t
  {
    EscapedRoundTrip(s);
    EscapedRoundTrip(t);
  }

  /**
   * The escaped text is at least as long as the input, and it equals the
   * input exactly when the input holds none of the five characters.
   */
  lemma {:induction false} EscapedLength(s: string)
    ensures |FlatMap(s, EscapeChar)| >= |s|
    ensures (forall k :: 0 <= k < |s| ==> !IsSpecial(s[k])) <==> FlatMap(s, EscapeChar) == s
    decreases |s|
  {
    if s != [] {
      EscapedLength(s[1..]);
      var e := EscapeChar(s[0]);
      var rest := FlatMap(s[1..], EscapeChar);
      assert FlatMap(s, EscapeChar) == e + rest;
      if forall k :: 0 <= k < |s| ==> !IsSpecial(s[k]) {
        assert !IsSpecial(s[0]);
        assert forall k :: 0 <= k < |s[1..]| ==> !IsSpecial(s[1..][k]) by {
          forall k | 0 <= k < |s[1..]| ensures !IsSpecial(s[1..][k]) {
            assert s[1..][k] == s[k + 1];
          }
        }
        assert s == [s[0]] + s[1..];
      } else {
        var k :| 0 <= k < |s| && IsSpecial(s[k]);
        if k > 0 {
          assert s[1..][k - 1] == s[k];
          assert rest != s[1..];
          if |e| == 1 {
            assert e == [s[0]];
            assert (e + rest)[1..] == rest;
          }
        }
      }
    }
  }
}
