/**
 * The JPEG metadata filter `removeJPEGMetadata` (the server copy in
 * functions/api/remove-metadata.js and the byte-identical client copy in
 * metadata-remover/client-processor.js).
 *
 * After SOI (FF D8) the filter walks the marker stream of ITU-T T.81 Annex B
 * with a cursor. Each pass of its loop looks at the byte under the cursor:
 * a byte other than FF is skipped; FF D9 (EOI) is copied and ends the walk;
 * the parameterless markers FF 00, FF 01 and FF D0..FF D7 are copied as two
 * bytes; any other marker starts a segment whose 2-byte big-endian length SL
 * counts itself but not the marker, so the segment spans 2 + SL bytes. APPn
 * (E0..EF) and COM (FE) segments are dropped, every other segment is copied
 * verbatim, and a missing length field or a segment that overruns the buffer
 * ends the walk. Entropy-coded data after SOS consists of non-FF bytes and is
 * therefore skipped, as the code does.
 */
module Jpeg {
  import opened Wrappers
  import opened Bytes

  const NotJpegMessage: string := "有効なJPEGファイルではありません"

  /** The buffer starts with SOI; a buffer shorter than 2 bytes never does. */
  predicate HasSoi(data: seq<byte>)
  {
    |data| >= 2 && data[0] == 0xFF && data[1] == 0xD8
  }

  /** Markers that the code copies as two bytes without a length field. */
  predicate IsStandalone(marker: int)
  {
    marker == 0x00 || (0xD0 <= marker <= 0xD7) || marker == 0x01
  }

  /** APP0..APP15 and COM: the segments the filter drops. */
  predicate IsMetadata(marker: int)
  {
    (0xE0 <= marker <= 0xEF) || marker == 0xFE
  }

  /**
   * The byte after the FF at `pos`. Past the end the JavaScript remover reads
   * `undefined`, which equals none of the marker codes; the model uses -1.
   */
  function MarkerAt(data: seq<byte>, pos: nat): (m: int)
    requires pos < |data|
    ensures -1 <= m < 0x100
  {
    if pos + 1 < |data| then data[pos + 1] else -1
  }

  /** The segment length field SL after the marker at `pos`. */
  function SegmentLengthAt(data: seq<byte>, pos: nat): (n: int)
    requires pos + 3 < |data|
    ensures 0 <= n < 0x1_0000
  {
    Be16(data[pos + 2], data[pos + 3])
  }

  /** What one pass of the loop body finds at the cursor. */
  datatype Pass =
    | Skip                                  // a byte other than FF
    | Standalone(marker: byte)              // FF 00, FF 01, FF D0..FF D7
    | Eoi                                   // FF D9
    | Truncated                             // no length field, or the segment overruns
    | Segment(marker: byte, length: int)    // FF marker SL: 2 + SL bytes

  /** The pass at cursor `pos`, with the branches in the order the loop body tests them. */
  function PassAt(data: seq<byte>, pos: nat): (p: Pass)
    requires pos < |data|
    ensures p.Segment? ==> 0 <= p.length && pos + 3 < |data| && pos + 2 + p.length <= |data|
  {
    if data[pos] != 0xFF then Skip
    else
      var marker := MarkerAt(data, pos);
      if marker == 0xD9 then Eoi
      else if IsStandalone(marker) then Standalone(marker)
      else if pos + 3 >= |data| then Truncated
      else
        var length := SegmentLengthAt(data, pos);
        if pos + 2 + length > |data| then Truncated
        else Segment(marker, length)
  }

  /** The pass ends in `break`. */
  predicate Stops(p: Pass)
  {
    p.Eoi? || p.Truncated?
  }

  /** The bytes one pass pushes at `pos`. */
  function PushedAt(data: seq<byte>, pos: nat): seq<byte>
    requires pos < |data|
  {
    var p := PassAt(data, pos);
    if p.Eoi? then [0xFF, 0xD9]
    else if p.Standalone? then [0xFF, p.marker]
    else if p.Segment? && !IsMetadata(p.marker) then data[pos..pos + 2 + p.length]
    else []
  }

  /** Where the cursor goes after a pass that does not break: by 1, 2 or 2 + SL. */
  function NextAt(data: seq<byte>, pos: nat): (next: int)
    requires pos < |data| && !Stops(PassAt(data, pos))
    ensures pos < next <= |data|
  {
    var p := PassAt(data, pos);
    if p.Skip? then pos + 1
    else if p.Standalone? then pos + 2
    else pos + 2 + p.length
  }

  /** The bytes the walk pushes from cursor `pos` until the loop ends. */
  function JpegFrom(data: seq<byte>, pos: nat): seq<byte>
    requires pos <= |data|
    decreases |data| - pos, 1
  {
    if pos == |data| then [] else PushedAt(data, pos) + JpegAfter(data, pos)
  }

  /** What the walk pushes after the pass at `pos`: nothing once it breaks. */
  function JpegAfter(data: seq<byte>, pos: nat): seq<byte>
    requires pos < |data|
    decreases |data| - pos, 0
  {
    if Stops(PassAt(data, pos)) then [] else JpegFrom(data, NextAt(data, pos))
  }

  /** What `removeJPEGMetadata` returns for `data`, or the message it throws. */
  function StripJpeg(data: seq<byte>): (r: Result<seq<byte>, string>)
    ensures r.Success? <==> HasSoi(data)
    ensures r.Failure? ==> r.error == NotJpegMessage
    ensures r.Success? ==> |r.value| >= 2 && r.value[..2] == [0xFF, 0xD8]
  {
    if !HasSoi(data) then Failure(NotJpegMessage)
    else Success([0xFF, 0xD8] + JpegFrom(data, 2))
  }

  /** The imperative filter: the SOI check, then the marker walk. */
  method RemoveJpegMetadata(data: seq<byte>) returns (r: Result<seq<byte>, string>)
    ensures r == StripJpeg(data)
  {
    if |data| < 2 || data[0] != 0xFF || data[1] != 0xD8 {
      return Failure(NotJpegMessage);
    }
    var result := WalkMarkers(data);
    return Success(result);
  }

  /** The marker walk: `result` starts as SOI and grows pass by pass. */
  method WalkMarkers(data: seq<byte>) returns (result: seq<byte>)
    requires HasSoi(data)
    ensures result == [0xFF, 0xD8] + JpegFrom(data, 2)
  {
    ghost var goal := [0xFF, 0xD8] + JpegFrom(data, 2);
    result := [0xFF, 0xD8];
    var pos: nat := 2;
    while pos < |data|
      invariant 2 <= pos <= |data|
      invariant result + JpegFrom(data, pos) == goal
      decreases |data| - pos
    {
      ghost var before := result;
      var next, done;
      result, next, done := MarkerPass(data, pos, result);
      if done {
        PassBreaks(before, result, data, pos, goal);
        return;
      }
      PassContinues(before, result, data, pos, next, goal);
      pos := next;
    }
    JpegFromEnd(data, pos);
    AppendEmpty(result);
  }

  /**
   * One pass of the loop body at `pos`: `done` when it breaks, otherwise the
   * cursor to continue from.
   */
  method MarkerPass(data: seq<byte>, pos: nat, result: seq<byte>) returns (r: seq<byte>, next: nat, done: bool)
    requires pos < |data|
    ensures r == result + PushedAt(data, pos)
    ensures done == Stops(PassAt(data, pos))
    ensures !done ==> next == NextAt(data, pos)
  {
    r, next, done := result, pos, false;
    if data[pos] != 0xFF {
      next := pos + 1;
      AppendEmpty(result);
      return;
    }
    var marker := if pos + 1 < |data| then data[pos + 1] else -1;
    if marker == 0xD9 {
      r := result + [0xFF, 0xD9];
      done := true;
      return;
    }
    if marker == 0x00 || (marker >= 0xD0 && marker <= 0xD7) || marker == 0x01 {
      r := result + [0xFF, marker];
      next := pos + 2;
      return;
    }
    if pos + 3 >= |data| {
      done := true;
      AppendEmpty(result);
      return;
    }
    var segmentLength := Be16(data[pos + 2], data[pos + 3]);
    if pos + 2 + segmentLength > |data| {
      done := true;
      AppendEmpty(result);
      return;
    }
    var isMetadata := (marker >= 0xE0 && marker <= 0xEF) || marker == 0xFE;
    if !isMetadata {
      r := AppendRange(result, data, pos, pos + segmentLength + 2);
    } else {
      AppendEmpty(result);
    }
    next := pos + 2 + segmentLength;
  }

  /* ---------------------------------------------------------------------- */
  /* Unfolding the walk                                                     */
  /* ---------------------------------------------------------------------- */

  lemma JpegFromStep(data: seq<byte>, pos: nat)
    requires pos < |data|
    ensures JpegFrom(data, pos) == PushedAt(data, pos) + JpegAfter(data, pos)
  {
  }

  lemma JpegFromEnd(data: seq<byte>, pos: nat)
    requires pos == |data|
    ensures JpegFrom(data, pos) == []
  {
  }

  lemma JpegAfterStops(data: seq<byte>, pos: nat)
    requires pos < |data| && Stops(PassAt(data, pos))
    ensures JpegAfter(data, pos) == []
  {
  }

  lemma JpegAfterNext(data: seq<byte>, pos: nat)
    requires pos < |data| && !Stops(PassAt(data, pos))
    ensures JpegAfter(data, pos) == JpegFrom(data, NextAt(data, pos))
  {
  }

  /** After a pass that breaks, the result is complete. */
  lemma PassBreaks(before: seq<byte>, r: seq<byte>, data: seq<byte>, pos: nat, goal: seq<byte>)
    requires pos < |data| && before + JpegFrom(data, pos) == goal
    requires r == before + PushedAt(data, pos)
    requires Stops(PassAt(data, pos))
    ensures r == goal
  {
    JpegFromStep(data, pos);
    JpegAfterStops(data, pos);
    AppendEmpty(PushedAt(data, pos));
  }

  /** A pass that moves the cursor on keeps the loop invariant. */
  lemma PassContinues(before: seq<byte>, r: seq<byte>, data: seq<byte>, pos: nat, next: nat, goal: seq<byte>)
    requires pos < |data| && before + JpegFrom(data, pos) == goal
    requires r == before + PushedAt(data, pos)
    requires !Stops(PassAt(data, pos)) && next == NextAt(data, pos)
    ensures r + JpegFrom(data, next) == goal
  {
    JpegFromStep(data, pos);
    JpegAfterNext(data, pos);
    AppendAssoc(before, PushedAt(data, pos), JpegFrom(data, next));
  }

  /* ---------------------------------------------------------------------- */
  /* What each branch of the loop body does to the walk                     */
  /* ---------------------------------------------------------------------- */

  /** A byte other than FF at the cursor is skipped and not copied. */
  lemma SkipsNonMarkerByte(data: seq<byte>, pos: nat)
    requires pos < |data| && data[pos] != 0xFF
    ensures JpegFrom(data, pos) == JpegFrom(data, pos + 1)
  {
    JpegFromStep(data, pos);
    JpegAfterNext(data, pos);
  }

  /** FF D9 is copied and nothing after it is read. */
  lemma StopsAtEoi(data: seq<byte>, pos: nat)
    requires pos + 1 < |data| && data[pos] == 0xFF && data[pos + 1] == 0xD9
    ensures JpegFrom(data, pos) == [0xFF, 0xD9]
  {
    JpegFromStep(data, pos);
    JpegAfterStops(data, pos);
  }

  /** FF 00, FF 01 and FF D0..FF D7 are copied as two bytes and the cursor moves on by 2. */
  lemma CopiesStandaloneMarker(data: seq<byte>, pos: nat)
    requires pos + 1 < |data| && data[pos] == 0xFF && IsStandalone(data[pos + 1])
    ensures JpegFrom(data, pos) == [0xFF, data[pos + 1]] + JpegFrom(data, pos + 2)
  {
    JpegFromStep(data, pos);
    JpegAfterNext(data, pos);
  }

  /** A marker that needs a length field stops the walk when fewer than 4 bytes remain. */
  lemma StopsWithoutLength(data: seq<byte>, pos: nat)
    requires pos < |data| <= pos + 3 && data[pos] == 0xFF
    requires MarkerAt(data, pos) != 0xD9 && !IsStandalone(MarkerAt(data, pos))
    ensures JpegFrom(data, pos) == []
  {
    JpegFromStep(data, pos);
    JpegAfterStops(data, pos);
  }

  /** A segment of 2 + SL bytes that overruns the buffer stops the walk, copying nothing. */
  lemma StopsOnOverrun(data: seq<byte>, pos: nat)
    requires pos + 3 < |data| && data[pos] == 0xFF
    requires data[pos + 1] != 0xD9 && !IsStandalone(data[pos + 1])
    requires pos + 2 + SegmentLengthAt(data, pos) > |data|
    ensures JpegFrom(data, pos) == []
  {
    JpegFromStep(data, pos);
    JpegAfterStops(data, pos);
  }

  lemma SegmentPass(data: seq<byte>, pos: nat)
    requires pos + 3 < |data| && data[pos] == 0xFF
    requires data[pos + 1] != 0xD9 && !IsStandalone(data[pos + 1])
    requires pos + 2 + SegmentLengthAt(data, pos) <= |data|
    ensures PassAt(data, pos) == Segment(data[pos + 1], SegmentLengthAt(data, pos))
  {
  }

  /** An APPn or COM segment is dropped whole: the walk resumes 2 + SL bytes later. */
  lemma DropsMetadataSegment(data: seq<byte>, pos: nat)
    requires pos + 3 < |data| && data[pos] == 0xFF && IsMetadata(data[pos + 1])
    requires pos + 2 + SegmentLengthAt(data, pos) <= |data|
    ensures JpegFrom(data, pos) == JpegFrom(data, pos + 2 + SegmentLengthAt(data, pos))
  {
    var next := pos + 2 + SegmentLengthAt(data, pos);
    SegmentPass(data, pos);
    assert PushedAt(data, pos) == [];
    assert NextAt(data, pos) == next;
    JpegFromStep(data, pos);
    JpegAfterNext(data, pos);
    AppendEmptyLeft(JpegFrom(data, pos + 2 + SegmentLengthAt(data, pos)));
  }

  /** Any other segment is copied verbatim, all 2 + SL bytes, and the walk resumes after it. */
  lemma CopiesSegment(data: seq<byte>, pos: nat)
    requires pos + 3 < |data| && data[pos] == 0xFF
    requires data[pos + 1] != 0xD9 && !IsStandalone(data[pos + 1]) && !IsMetadata(data[pos + 1])
    requires pos + 2 + SegmentLengthAt(data, pos) <= |data|
    ensures JpegFrom(data, pos)
            == data[pos..pos + 2 + SegmentLengthAt(data, pos)] + JpegFrom(data, pos + 2 + SegmentLengthAt(data, pos))
  {
    var next := pos + 2 + SegmentLengthAt(data, pos);
    SegmentPass(data, pos);
    assert PushedAt(data, pos) == data[pos..next];
    assert NextAt(data, pos) == next;
    JpegFromStep(data, pos);
    JpegAfterNext(data, pos);
  }

  /* ---------------------------------------------------------------------- */
  /* Properties of the whole walk                                           */
  /* ---------------------------------------------------------------------- */

  /**
   * Every pass pushes either nothing or the bytes under the cursor: the two
   * bytes FF D9 or FF marker it just read, or the whole segment.
   */
  lemma PushedVerbatim(data: seq<byte>, pos: nat)
    requires pos < |data|
    ensures pos + |PushedAt(data, pos)| <= |data|
    ensures PushedAt(data, pos) == data[pos..pos + |PushedAt(data, pos)|]
    ensures !Stops(PassAt(data, pos)) ==> pos + |PushedAt(data, pos)| <= NextAt(data, pos)
  {
    var p := PassAt(data, pos);
    if p.Eoi? || p.Standalone? {
      assert data[pos..pos + 2] == [data[pos], data[pos + 1]];
    }
  }

  /** What the walk pushes from `pos` is a subsequence of the bytes from `pos` on. */
  lemma {:induction false} JpegFromSubsequence(data: seq<byte>, pos: nat)
    requires pos <= |data|
    ensures IsSubsequence(JpegFrom(data, pos), data[pos..])
    decreases |data| - pos
  {
    if pos == |data| {
      EmptySubsequence(data[pos..]);
    } else {
      var pushed := PushedAt(data, pos);
      JpegFromStep(data, pos);
      PushedVerbatim(data, pos);
      if Stops(PassAt(data, pos)) {
        JpegAfterStops(data, pos);
        AppendEmpty(pushed);
        PrefixSubsequence(data[pos..], |pushed|);
        assert data[pos..][..|pushed|] == pushed;
      } else {
        var next := NextAt(data, pos);
        JpegAfterNext(data, pos);
        JpegFromSubsequence(data, next);
        PrefixSubsequence(data[pos..next], |pushed|);
        assert data[pos..next][..|pushed|] == pushed;
        SubsequenceConcat(pushed, data[pos..next], JpegFrom(data, next), data[next..]);
        assert data[pos..next] + data[next..] == data[pos..];
      }
    }
  }

  /** The output is the input with bytes deleted, so it is never longer. */
  lemma JpegOutputSubsequence(data: seq<byte>)
    requires HasSoi(data)
    ensures IsSubsequence(StripJpeg(data).value, data)
    ensures |StripJpeg(data).value| <= |data|
  {
    var rest := JpegFrom(data, 2);
    JpegFromSubsequence(data, 2);
    assert data[..2] == [0xFF, 0xD8];
    SubsequenceReflexive(data[..2]);
    SubsequenceConcat(data[..2], data[..2], rest, data[2..]);
    assert data[..2] + data[2..] == data;
    SubsequenceLength(StripJpeg(data).value, data);
  }

  /** The number of passes the loop makes from cursor `pos`. */
  function PassCount(data: seq<byte>, pos: nat): (n: int)
    requires pos <= |data|
    ensures 0 <= n <= |data| - pos
    decreases |data| - pos
  {
    if pos == |data| then 0
    else if Stops(PassAt(data, pos)) then 1
    else 1 + PassCount(data, NextAt(data, pos))
  }

  /* ---------------------------------------------------------------------- */
  /* Truncation                                                             */
  /* ---------------------------------------------------------------------- */

  /** A truncated buffer either cuts the pass at `pos` short or sees the very same pass. */
  lemma PrefixPass(data: seq<byte>, n: nat, pos: nat)
    requires pos < n <= |data|
    ensures PassAt(data[..n], pos).Truncated? || PassAt(data[..n], pos) == PassAt(data, pos)
    ensures PassAt(data[..n], pos) == PassAt(data, pos) ==> PushedAt(data[..n], pos) == PushedAt(data, pos)
    ensures PassAt(data[..n], pos) == PassAt(data, pos) && !Stops(PassAt(data, pos)) ==>
              NextAt(data[..n], pos) == NextAt(data, pos)
  {
    var t := data[..n];
    assert t[pos] == data[pos];
    if pos + 1 < n {
      assert t[pos + 1] == data[pos + 1];
    }
    if pos + 3 < n {
      assert t[pos + 2] == data[pos + 2] && t[pos + 3] == data[pos + 3];
    }
    var p := PassAt(data, pos);
    if PassAt(t, pos) == p && p.Segment? {
      assert t[pos..pos + 2 + p.length] == data[pos..pos + 2 + p.length];
    }
  }

  /** The walk on a truncated buffer pushes a prefix of what it pushes on the whole buffer. */
  lemma {:induction false} JpegFromPrefix(data: seq<byte>, n: nat, pos: nat)
    requires pos <= n <= |data|
    ensures JpegFrom(data[..n], pos) <= JpegFrom(data, pos)
    decreases n - pos
  {
    var t := data[..n];
    if pos == n {
      JpegFromEnd(t, pos);
    } else {
      JpegFromStep(t, pos);
      JpegFromStep(data, pos);
      PrefixPass(data, n, pos);
      if PassAt(t, pos).Truncated? {
        JpegAfterStops(t, pos);
      } else if Stops(PassAt(data, pos)) {
        JpegAfterStops(t, pos);
        JpegAfterStops(data, pos);
      } else {
        var next := NextAt(data, pos);
        JpegAfterNext(t, pos);
        JpegAfterNext(data, pos);
        JpegFromPrefix(data, n, next);
        PrefixConcat(PushedAt(data, pos), JpegFrom(t, next), JpegFrom(data, next));
      }
    }
  }

  /**
   * Truncating a file (keeping SOI) truncates the output: what the filter
   * returns for the shorter buffer is a prefix of what it returns for the
   * whole one.
   */
  lemma JpegTruncation(data: seq<byte>, n: nat)
    requires HasSoi(data) && 2 <= n <= |data|
    ensures StripJpeg(data[..n]).Success?
    ensures StripJpeg(data[..n]).value <= StripJpeg(data).value
  {
    JpegFromPrefix(data, n, 2);
    PrefixConcat([0xFF, 0xD8], JpegFrom(data[..n], 2), JpegFrom(data, 2));
  }

  /* ---------------------------------------------------------------------- */
  /* Running the filter twice                                               */
  /* ---------------------------------------------------------------------- */

  /**
   * Every segment the walk copies from `pos` on has a length field of at
   * least 2, as ITU-T T.81 section B.1.1.4 requires (the length counts its
   * own two bytes). Dropped segments and the bytes the walk skips are not
   * constrained.
   */
  predicate CopiedLengthsFit(data: seq<byte>, pos: nat)
    requires pos <= |data|
    decreases |data| - pos
  {
    pos == |data| ||
    (var p := PassAt(data, pos);
     (p.Segment? && !IsMetadata(p.marker) ==> p.length >= 2) &&
     (Stops(p) || CopiedLengthsFit(data, NextAt(data, pos))))
  }

  /**
   * What a pass that moves on may push: nothing, a parameterless marker, or
   * a whole segment whose length field is at least 2.
   */
  predicate CopiedPiece(piece: seq<byte>)
  {
    piece == [] ||
    (|piece| == 2 && piece[0] == 0xFF && IsStandalone(piece[1])) ||
    (|piece| >= 4 && piece[0] == 0xFF && |piece| == 2 + Be16(piece[2], piece[3]) &&
     piece[1] != 0xD9 && !IsStandalone(piece[1]) && !IsMetadata(piece[1]))
  }

  /** Under `CopiedLengthsFit`, a pass that moves on pushes a piece of one of those shapes. */
  lemma PushedPiece(data: seq<byte>, pos: nat)
    requires pos < |data| && !Stops(PassAt(data, pos))
    requires PassAt(data, pos).Segment? && !IsMetadata(PassAt(data, pos).marker) ==> PassAt(data, pos).length >= 2
    ensures CopiedPiece(PushedAt(data, pos))
  {
    var pass := PassAt(data, pos);
    if pass.Standalone? {
      assert PushedAt(data, pos) == [0xFF, pass.marker];
    } else if pass.Segment? && !IsMetadata(pass.marker) {
      SegmentPushed(data, pos);
    } else {
      assert PushedAt(data, pos) == [];
    }
  }

  /** The bytes a copied segment pass pushes form a segment header and body of the declared length. */
  lemma SegmentPushed(data: seq<byte>, pos: nat)
    requires pos < |data| && PassAt(data, pos).Segment? && !IsMetadata(PassAt(data, pos).marker)
    requires PassAt(data, pos).length >= 2
    ensures var piece := PushedAt(data, pos);
      |piece| >= 4 && piece[0] == 0xFF && |piece| == 2 + Be16(piece[2], piece[3]) &&
      piece[1] != 0xD9 && !IsStandalone(piece[1]) && !IsMetadata(piece[1])
  {
    var piece := data[pos..pos + 2 + PassAt(data, pos).length];
    assert piece == PushedAt(data, pos);
    assert piece[0] == data[pos] && piece[1] == data[pos + 1];
    assert piece[2] == data[pos + 2] && piece[3] == data[pos + 3];
  }

  /** A pass that moves on under `CopiedLengthsFit`: what it pushes, and the condition for the rest of the walk. */
  lemma PassMovesOn(data: seq<byte>, pos: nat)
    requires pos < |data| && !Stops(PassAt(data, pos)) && CopiedLengthsFit(data, pos)
    ensures CopiedPiece(PushedAt(data, pos)) && CopiedLengthsFit(data, NextAt(data, pos))
    ensures JpegFrom(data, pos) == PushedAt(data, pos) + JpegFrom(data, NextAt(data, pos))
  {
    JpegFromStep(data, pos);
    JpegAfterNext(data, pos);
    PushedPiece(data, pos);
  }

  /** The bytes each pass of a walk pushes, in order. */
  datatype Pieces = Done | Then(piece: seq<byte>, rest: Pieces)

  /** The pieces joined in order. */
  function Concat(ps: Pieces): seq<byte>
  {
    match ps
    case Done => []
    case Then(piece, rest) => piece + Concat(rest)
  }

  /** Pieces a second walk reads back one by one: copied pieces, possibly ending with FF D9. */
  predicate Rewalkable(ps: Pieces)
  {
    match ps
    case Done => true
    case Then(piece, rest) => (piece == [0xFF, 0xD9] && rest == Done) || (CopiedPiece(piece) && Rewalkable(rest))
  }

  /** What each pass of the walk from `pos` pushes. */
  function PiecesFrom(data: seq<byte>, pos: nat): Pieces
    requires pos <= |data|
    decreases |data| - pos
  {
    if pos == |data| then Done
    else if Stops(PassAt(data, pos)) then (if PassAt(data, pos).Eoi? then Then([0xFF, 0xD9], Done) else Done)
    else Then(PushedAt(data, pos), PiecesFrom(data, NextAt(data, pos)))
  }

  /** The walk's output is its pieces joined, and when copied lengths fit they can be read back. */
  lemma {:induction false} WalkPieces(data: seq<byte>, pos: nat)
    requires pos <= |data| && CopiedLengthsFit(data, pos)
    ensures Rewalkable(PiecesFrom(data, pos))
    ensures JpegFrom(data, pos) == Concat(PiecesFrom(data, pos))
    decreases |data| - pos
  {
    if pos == |data| {
      JpegFromEnd(data, pos);
    } else if Stops(PassAt(data, pos)) {
      JpegFromStep(data, pos);
      JpegAfterStops(data, pos);
      AppendEmpty(PushedAt(data, pos));
      AppendEmpty([0xFF, 0xD9]);
    } else {
      PassMovesOn(data, pos);
      WalkPieces(data, NextAt(data, pos));
    }
  }

  /** The pieces lie in `s` one after another from `p`, and the last one ends the buffer. */
  predicate LaidOut(s: seq<byte>, p: nat, ps: Pieces)
    decreases ps
  {
    match ps
    case Done => p == |s|
    case Then(piece, rest) => p + |piece| <= |s| && s[p..p + |piece|] == piece && LaidOut(s, p + |piece|, rest)
  }

  /** A buffer whose suffix is the joined pieces has them laid out there. */
  lemma {:induction false} LaidOutOfConcat(s: seq<byte>, p: nat, ps: Pieces)
    requires p <= |s| && s[p..] == Concat(ps)
    ensures LaidOut(s, p, ps)
    decreases ps
  {
    match ps
    case Done =>
      assert |s[p..]| == 0;
    case Then(piece, rest) =>
      SplitSuffix(s, p, piece, Concat(rest));
      LaidOutOfConcat(s, p + |piece|, rest);
  }

  /** The walk copies a segment it finds at `p` whose bytes are `piece`. */
  lemma SegmentAgain(s: seq<byte>, p: nat, piece: seq<byte>)
    requires |piece| >= 4 && p + |piece| <= |s| && s[p..p + |piece|] == piece
    requires piece[0] == 0xFF && |piece| == 2 + Be16(piece[2], piece[3])
    requires piece[1] != 0xD9 && !IsStandalone(piece[1]) && !IsMetadata(piece[1])
    ensures JpegFrom(s, p) == piece + JpegFrom(s, p + |piece|)
  {
    SliceElements(s, p, piece);
    assert 2 + Be16(s[p + 2], s[p + 3]) == |piece|;
    CopiesSegmentSpan(s, p, |piece|);
    ReplaceHead(JpegFrom(s, p), s[p..p + |piece|], piece, JpegFrom(s, p + |piece|));
  }

  /** The walk copies the `span` bytes of a segment at `p` whose length field is `span - 2`. */
  lemma CopiesSegmentSpan(s: seq<byte>, p: nat, span: nat)
    requires p + 3 < |s| && s[p] == 0xFF && 2 + Be16(s[p + 2], s[p + 3]) == span && p + span <= |s|
    requires s[p + 1] != 0xD9 && !IsStandalone(s[p + 1]) && !IsMetadata(s[p + 1])
    ensures JpegFrom(s, p) == s[p..p + span] + JpegFrom(s, p + span)
  {
    CopiesSegment(s, p);
  }

  /** The first four bytes of a slice are the bytes at its start. */
  lemma SliceElements(s: seq<byte>, p: nat, piece: seq<byte>)
    requires |piece| >= 4 && p + |piece| <= |s| && s[p..p + |piece|] == piece
    ensures s[p] == piece[0] && s[p + 1] == piece[1] && s[p + 2] == piece[2] && s[p + 3] == piece[3]
  {
    assert s[p..p + |piece|][0] == s[p] && s[p..p + |piece|][1] == s[p + 1];
    assert s[p..p + |piece|][2] == s[p + 2] && s[p..p + |piece|][3] == s[p + 3];
  }

  /** A second walk over a copied piece laid at `p` pushes the piece again and moves past it. */
  lemma RewalkPiece(s: seq<byte>, p: nat, piece: seq<byte>)
    requires p + |piece| <= |s| && s[p..p + |piece|] == piece && CopiedPiece(piece)
    ensures JpegFrom(s, p) == piece + JpegFrom(s, p + |piece|)
  {
    if piece == [] {
      AppendEmptyLeft(JpegFrom(s, p));
    } else if |piece| == 2 {
      assert s[p] == s[p..p + 2][0] && s[p + 1] == s[p..p + 2][1];
      assert piece == [0xFF, s[p + 1]];
      CopiesStandaloneMarker(s, p);
    } else {
      SegmentAgain(s, p, piece);
    }
  }

  /** A piece followed by the later pieces joined is all the pieces joined. */
  lemma JoinPieces(x: seq<byte>, ps: Pieces, y: seq<byte>)
    requires ps.Then? && x == ps.piece + y && y == Concat(ps.rest)
    ensures x == Concat(ps)
  {
  }

  /** A second walk over rewalkable pieces laid out in a buffer pushes exactly those pieces. */
  lemma {:induction false} RewalkPieces(s: seq<byte>, p: nat, ps: Pieces)
    requires p <= |s| && Rewalkable(ps) && LaidOut(s, p, ps)
    ensures JpegFrom(s, p) == Concat(ps)
    decreases ps
  {
    if ps.Done? {
      RewalkNoPieces(s, p, ps);
    } else if ps.piece == [0xFF, 0xD9] && ps.rest == Done {
      RewalkLastPiece(s, p, ps);
    } else {
      FirstPiece(s, p, ps);
      RewalkPieces(s, p + |ps.piece|, ps.rest);
      RewalkPiece(s, p, ps.piece);
      JoinPieces(JpegFrom(s, p), ps, JpegFrom(s, p + |ps.piece|));
    }
  }

  /** No pieces: the buffer ends at `p`, and so does the second walk. */
  lemma RewalkNoPieces(s: seq<byte>, p: nat, ps: Pieces)
    requires p <= |s| && ps == Done && LaidOut(s, p, ps)
    ensures JpegFrom(s, p) == Concat(ps)
  {
    JpegFromEnd(s, p);
  }

  /** A final FF D9 laid at `p` ends the second walk after copying it. */
  lemma RewalkLastPiece(s: seq<byte>, p: nat, ps: Pieces)
    requires p <= |s| && ps == Then([0xFF, 0xD9], Done) && LaidOut(s, p, ps)
    ensures JpegFrom(s, p) == Concat(ps)
  {
    assert s[p] == s[p..p + 2][0] && s[p + 1] == s[p..p + 2][1];
    StopsAtEoi(s, p);
    AppendEmpty([0xFF, 0xD9]);
  }

  /** Splitting off the first of several rewalkable pieces. */
  lemma FirstPiece(s: seq<byte>, p: nat, ps: Pieces)
    requires p <= |s| && Rewalkable(ps) && LaidOut(s, p, ps)
    requires ps.Then? && !(ps.piece == [0xFF, 0xD9] && ps.rest == Done)
    ensures CopiedPiece(ps.piece) && Rewalkable(ps.rest) && Concat(ps) == ps.piece + Concat(ps.rest)
    ensures p + |ps.piece| <= |s| && s[p..p + |ps.piece|] == ps.piece && LaidOut(s, p + |ps.piece|, ps.rest)
  {
  }

  /**
   * When every segment the filter copies has a length field of at least 2,
   * running the filter on its own output gives the same output.
   */
  lemma JpegIdempotent(data: seq<byte>)
    requires HasSoi(data) && CopiedLengthsFit(data, 2)
    ensures StripJpeg(StripJpeg(data).value).Success?
    ensures StripJpeg(StripJpeg(data).value) == StripJpeg(data)
  {
    var out := StripJpeg(data).value;
    assert out[2..] == JpegFrom(data, 2);
    WalkPieces(data, 2);
    LaidOutOfConcat(out, 2, PiecesFrom(data, 2));
    RewalkPieces(out, 2, PiecesFrom(data, 2));
  }

  /**
   * Without that condition the second run can differ: a copied segment
   * with length field 0 leaves only its two marker bytes, and the next run
   * reads the following FF D9 as that segment's length.
   */
  lemma ShortSegmentNotIdempotent(data: seq<byte>)
    requires data == [0xFF, 0xD8, 0xFF, 0xC0, 0x00, 0x00, 0xFF, 0xD9]
    ensures StripJpeg(data) == Success([0xFF, 0xD8, 0xFF, 0xC0, 0xFF, 0xD9])
    ensures StripJpeg(StripJpeg(data).value) == Success([0xFF, 0xD8])
  {
    ShortSegmentFirstRun(data);
    var once: seq<byte> := [0xFF, 0xD8, 0xFF, 0xC0, 0xFF, 0xD9];
    assert [0xFF, 0xD8] + [0xFF, 0xC0, 0xFF, 0xD9] == once;
    ShortSegmentSecondRun(once);
    AppendEmpty([0xFF, 0xD8]);
  }

  /** The first run copies the empty SOF0 segment's two marker bytes, skips its length bytes and stops at FF D9. */
  lemma ShortSegmentFirstRun(data: seq<byte>)
    requires data == [0xFF, 0xD8, 0xFF, 0xC0, 0x00, 0x00, 0xFF, 0xD9]
    ensures JpegFrom(data, 2) == [0xFF, 0xC0, 0xFF, 0xD9]
  {
    assert SegmentLengthAt(data, 2) == 0;
    CopiesSegment(data, 2);
    ShortSegmentTail(data);
    assert data[2..4] == [0xFF, 0xC0];
  }

  /** After the empty segment's header, the two zero length bytes are skipped and FF D9 ends the walk. */
  lemma ShortSegmentTail(data: seq<byte>)
    requires data == [0xFF, 0xD8, 0xFF, 0xC0, 0x00, 0x00, 0xFF, 0xD9]
    ensures JpegFrom(data, 4) == [0xFF, 0xD9]
  {
    SkipsNonMarkerByte(data, 4);
    SkipsNonMarkerByte(data, 5);
    StopsAtEoi(data, 6);
  }

  /** The second run reads FF D9 as the SOF0 segment's length, which overruns the buffer. */
  lemma ShortSegmentSecondRun(once: seq<byte>)
    requires once == [0xFF, 0xD8, 0xFF, 0xC0, 0xFF, 0xD9]
    ensures JpegFrom(once, 2) == []
  {
    assert SegmentLengthAt(once, 2) == 0xFFD9;
    StopsOnOverrun(once, 2);
  }
}
