/**
 * The PNG metadata filter `removePNGMetadata` (the server copy in
 * functions/api/remove-metadata.js and the byte-identical client copy in
 * metadata-remover/client-processor.js).
 *
 * After the 8-byte signature a PNG file is a stream of chunks: a 4-byte
 * big-endian data length L, a 4-byte type tag, L data bytes and a 4-byte CRC
 * (PNG Specification, 2nd edition, sections 5.2 and 5.3). The filter copies the
 * signature and then, in stream order, exactly the complete chunks whose tag is
 * one of the critical chunks IHDR, PLTE, IDAT, IEND (section 11.2), and stops
 * after IEND or at the first incomplete chunk.
 *
 * Positions are cursors into the whole buffer, as in the JavaScript remover.
 */
module Png {
  import opened Wrappers
  import opened Bytes

  const Signature: seq<byte> := [137, 80, 78, 71, 13, 10, 26, 10]

  /**
   * Chunk type tags. The JavaScript remover compares the four tag bytes as a string; the
   * model compares their big-endian code, which determines the four bytes.
   */
  const IHDR: int := 0x4948_4452
  const PLTE: int := 0x504C_5445
  const IDAT: int := 0x4944_4154
  const IEND: int := 0x4945_4E44

  const NotPngMessage: string := "有効なPNGファイルではありません"

  /** The allow-list of chunk tags that are copied. */
  predicate IsCritical(tag: int)
  {
    tag == IHDR || tag == PLTE || tag == IDAT || tag == IEND
  }

  /** Bytes 0..7 equal the signature; a shorter buffer never does. */
  predicate HasSignature(data: seq<byte>)
  {
    |data| >= 8 && forall k :: 0 <= k < 8 ==> data[k] == Signature[k]
  }

  /** The data-length field of the chunk header at `pos`. */
  function LengthAt(data: seq<byte>, pos: nat): int
    requires pos + 4 <= |data|
  {
    Be32(data[pos], data[pos + 1], data[pos + 2], data[pos + 3])
  }

  /** The type tag of the chunk header at `pos`. */
  function TagAt(data: seq<byte>, pos: nat): int
    requires pos + 8 <= |data|
  {
    Be32(data[pos + 4], data[pos + 5], data[pos + 6], data[pos + 7])
  }

  /** A whole chunk as it lies in the stream: header, data and CRC, 12 + L bytes. */
  predicate IsChunk(c: seq<byte>)
  {
    |c| >= 12 && |c| == 12 + LengthAt(c, 0)
  }

  /**
   * The complete chunks the walk visits from cursor `pos`, in stream order,
   * up to and including the first IEND. The walk stops when fewer than 8
   * bytes remain for a header or fewer than 12 + L bytes for the chunk.
   */
  function Chunks(data: seq<byte>, pos: nat): (cs: seq<seq<byte>>)
    requires pos <= |data|
    ensures forall c <- cs :: IsChunk(c)
    decreases |data| - pos, 0
  {
    if pos + 8 > |data| then []
    else
      var next := pos + 12 + LengthAt(data, pos);
      if next > |data| then []
      else [data[pos..next]] + ChunksAfter(data, pos, next)
  }

  /** The chunks after the complete chunk at `pos`, which ends at `next`: none after IEND. */
  function ChunksAfter(data: seq<byte>, pos: nat, next: nat): (cs: seq<seq<byte>>)
    requires pos + 8 <= next <= |data|
    ensures forall c <- cs :: IsChunk(c)
    decreases |data| - next, 1
  {
    if TagAt(data, pos) == IEND then [] else Chunks(data, next)
  }

  /**
   * Every length field the walk reads from `pos` on is below 2^31. The JavaScript remover
   * assembles the length with signed 32-bit shifts, so a larger field becomes
   * negative there; the model reads it unsigned and is faithful exactly where
   * this holds (section 5.3 of the PNG Specification forbids such lengths).
   */
  predicate LengthsFit(data: seq<byte>, pos: nat)
    requires pos <= |data|
    decreases |data| - pos, 0
  {
    if pos + 8 > |data| then true
    else
      var next := pos + 12 + LengthAt(data, pos);
      LengthAt(data, pos) < 0x8000_0000 &&
      (next > |data| || LengthsFitAfter(data, pos, next))
  }

  /** The lengths condition after the complete chunk at `pos`: nothing is read after IEND. */
  predicate LengthsFitAfter(data: seq<byte>, pos: nat, next: nat)
    requires pos + 8 <= next <= |data|
    decreases |data| - next, 1
  {
    TagAt(data, pos) == IEND || LengthsFit(data, next)
  }

  /** The lengths condition, which only matters once the signature check passed. */
  predicate PngLengthsFit(data: seq<byte>)
  {
    HasSignature(data) ==> LengthsFit(data, 8)
  }

  /** A chunk as a one-element list if its tag is on the allow-list, else nothing. */
  function KeptOne(c: seq<byte>): seq<seq<byte>>
    requires |c| >= 8
  {
    if IsCritical(TagAt(c, 0)) then [c] else []
  }

  /** The chunks of `cs` whose tag is on the allow-list, in order. */
  function KeptChunks(cs: seq<seq<byte>>): (ks: seq<seq<byte>>)
    requires forall c <- cs :: |c| >= 8
    ensures forall c <- ks :: c in cs
  {
    if cs == [] then [] else KeptOne(cs[0]) + KeptChunks(cs[1..])
  }

  /** The IDAT chunks of `cs`, in order. */
  function IdatChunks(cs: seq<seq<byte>>): seq<seq<byte>>
    requires forall c <- cs :: |c| >= 8
  {
    if cs == [] then []
    else (if TagAt(cs[0], 0) == IDAT then [cs[0]] else []) + IdatChunks(cs[1..])
  }

  /** The bytes the walk copies for the complete chunk at `pos` ending at `next`. */
  function CopiedChunk(data: seq<byte>, pos: nat, next: nat): seq<byte>
    requires pos + 8 <= next <= |data|
  {
    if IsCritical(TagAt(data, pos)) then data[pos..next] else []
  }

  /**
   * The bytes the walk copies when its cursor stands at `pos`, step by step as
   * the loop does it: the chunk at the cursor if it is complete and allowed,
   * then the rest of the walk unless that chunk was IEND.
   */
  function KeptFrom(data: seq<byte>, pos: nat): seq<byte>
    requires pos <= |data|
    decreases |data| - pos, 0
  {
    if pos + 8 > |data| then []
    else
      var next := pos + 12 + LengthAt(data, pos);
      if next > |data| then []
      else CopiedChunk(data, pos, next) + KeptAfter(data, pos, next)
  }

  /** What the walk copies after the complete chunk at `pos`: nothing after IEND. */
  function KeptAfter(data: seq<byte>, pos: nat, next: nat): seq<byte>
    requires pos + 8 <= next <= |data|
    decreases |data| - next, 1
  {
    if TagAt(data, pos) == IEND then [] else KeptFrom(data, next)
  }

  /** What `removePNGMetadata` returns for `data`, or the message it throws. */
  function StripPng(data: seq<byte>): (r: Result<seq<byte>, string>)
    ensures r.Success? <==> HasSignature(data)
    ensures r.Failure? ==> r.error == NotPngMessage
    ensures r.Success? ==> |r.value| >= 8 && r.value[..8] == Signature
  {
    if !HasSignature(data) then Failure(NotPngMessage)
    else Success(Signature + Flatten(KeptChunks(Chunks(data, 8))))
  }

  /** The imperative filter: the signature check, then the chunk walk. */
  method RemovePngMetadata(data: seq<byte>) returns (r: Result<seq<byte>, string>)
    requires PngLengthsFit(data)
    ensures r == StripPng(data)
  {
    var ok := CheckSignature(data);
    if !ok {
      return Failure(NotPngMessage);
    }
    SignaturePrefix(data);
    var result := CopyKeptChunks(data);
    KeptFromOfChunks(data, 8);
    return Success(result);
  }

  lemma SignaturePrefix(data: seq<byte>)
    requires HasSignature(data)
    ensures data[..8] == Signature
  {
  }

  /** Compares bytes 0..7 with the signature one at a time, stopping at the first mismatch. */
  method CheckSignature(data: seq<byte>) returns (ok: bool)
    ensures ok <==> HasSignature(data)
  {
    var i := 0;
    while i < 8
      invariant 0 <= i <= 8 && i <= |data|
      invariant forall k :: 0 <= k < i ==> data[k] == Signature[k]
    {
      if i >= |data| || data[i] != Signature[i] {
        return false;
      }
      i := i + 1;
    }
    return true;
  }

  /**
   * The chunk walk: a cursor `pos` moves from chunk to chunk by 12 + L and
   * `result` grows by pushes of the allowed chunks.
   */
  method CopyKeptChunks(data: seq<byte>) returns (result: seq<byte>)
    requires 8 <= |data| && data[..8] == Signature
    ensures result == Signature + KeptFrom(data, 8)
  {
    ghost var goal := Signature + KeptFrom(data, 8);
    result := AppendRange([], data, 0, 8);
    AppendEmptyLeft(data[0..8]);
    var pos: nat := 8;
    while pos < |data|
      invariant 8 <= pos <= |data|
      invariant result + KeptFrom(data, pos) == goal
      decreases |data| - pos
    {
      ghost var before := result;
      var next, done;
      result, next, done := WalkChunk(data, pos, result);
      if done {
        WalkBreaks(before, result, data, pos, goal);
        return;
      }
      WalkContinues(before, result, data, pos, next, goal);
      pos := next;
    }
    KeptFromShortHeader(data, pos);
    AppendEmpty(result);
  }

  /** The bytes one pass of the loop body pushes at `pos`: the chunk there if it is complete and allowed. */
  function PushedAt(data: seq<byte>, pos: nat): seq<byte>
    requires pos <= |data|
  {
    if pos + 8 > |data| || pos + 12 + LengthAt(data, pos) > |data| then []
    else CopiedChunk(data, pos, pos + 12 + LengthAt(data, pos))
  }

  /** One pass of the loop body at `pos` ends in `break`: incomplete header or chunk, or IEND. */
  predicate BreaksAt(data: seq<byte>, pos: nat)
    requires pos <= |data|
  {
    pos + 8 > |data| || pos + 12 + LengthAt(data, pos) > |data| || TagAt(data, pos) == IEND
  }

  /**
   * One pass of the walk's loop body at cursor `pos`: reads the header,
   * breaks on an incomplete header or chunk, pushes the chunk if allowed,
   * breaks after IEND, and otherwise moves the cursor on by 12 + L.
   */
  method WalkChunk(data: seq<byte>, pos: nat, result: seq<byte>) returns (r: seq<byte>, next: nat, done: bool)
    requires pos < |data|
    ensures r == result + PushedAt(data, pos)
    ensures done == BreaksAt(data, pos)
    ensures !done ==> next == pos + 12 + LengthAt(data, pos) <= |data|
  {
    r, next, done := result, pos, true;
    if pos + 8 > |data| {
      AppendEmpty(result);
      return;
    }
    var length := Be32(data[pos], data[pos + 1], data[pos + 2], data[pos + 3]);
    var tag := Be32(data[pos + 4], data[pos + 5], data[pos + 6], data[pos + 7]);
    var chunkSize := 12 + length;
    if pos + chunkSize > |data| {
      AppendEmpty(result);
      return;
    }
    r := CopyChunk(result, data, pos, pos + chunkSize, tag);
    if tag == IEND {
      return;
    }
    next, done := pos + chunkSize, false;
  }

  /** After a pass of the loop body that breaks, the result is complete. */
  lemma WalkBreaks(before: seq<byte>, r: seq<byte>, data: seq<byte>, pos: nat, goal: seq<byte>)
    requires pos <= |data| && before + KeptFrom(data, pos) == goal
    requires r == before + PushedAt(data, pos)
    requires BreaksAt(data, pos)
    ensures r == goal
  {
    if pos + 8 > |data| {
      KeptFromShortHeader(data, pos);
      AppendEmpty(before);
    } else if pos + 12 + LengthAt(data, pos) > |data| {
      KeptFromShortChunk(data, pos);
      AppendEmpty(before);
    } else {
      var next := pos + 12 + LengthAt(data, pos);
      WalkStep(before, data, pos, next, goal);
      KeptAfterIend(data, pos, next);
      AppendEmpty(r);
    }
  }

  /** A pass of the loop body that moves the cursor on keeps the loop invariant. */
  lemma WalkContinues(before: seq<byte>, r: seq<byte>, data: seq<byte>, pos: nat, next: nat, goal: seq<byte>)
    requires pos <= |data| && before + KeptFrom(data, pos) == goal
    requires r == before + PushedAt(data, pos)
    requires !BreaksAt(data, pos) && next == pos + 12 + LengthAt(data, pos)
    ensures r + KeptFrom(data, next) == goal
  {
    WalkStep(before, data, pos, next, goal);
    KeptAfterNext(data, pos, next);
  }

  /** Pushes the complete chunk at `pos` onto `result` when its tag is on the allow-list. */
  method CopyChunk(result: seq<byte>, data: seq<byte>, pos: nat, next: nat, tag: int) returns (r: seq<byte>)
    requires pos + 8 <= next <= |data| && tag == TagAt(data, pos)
    ensures r == result + CopiedChunk(data, pos, next)
  {
    r := result;
    if IsCritical(tag) {
      r := AppendRange(result, data, pos, next);
    } else {
      AppendEmpty(result);
    }
  }

  /**
   * The loop invariant is kept by one step over a complete, non-IEND chunk:
   * the bytes pushed for it are exactly its share of the kept bytes.
   */
  lemma WalkStep(before: seq<byte>, data: seq<byte>, pos: nat, next: nat, goal: seq<byte>)
    requires pos + 8 <= |data|
    requires next == pos + 12 + LengthAt(data, pos) <= |data|
    requires before + KeptFrom(data, pos) == goal
    ensures (before + CopiedChunk(data, pos, next)) + KeptAfter(data, pos, next) == goal
  {
    KeptFromStep(data, pos, next);
    AppendAssoc(before, CopiedChunk(data, pos, next), KeptAfter(data, pos, next));
  }

  /** A chunk found as a slice of a buffer has the same header there as in itself. */
  lemma HeaderOfSlice(data: seq<byte>, pos: nat, c: seq<byte>)
    requires |c| >= 8 && pos + |c| <= |data| && data[pos..pos + |c|] == c
    ensures LengthAt(data, pos) == LengthAt(c, 0)
    ensures TagAt(data, pos) == TagAt(c, 0)
  {
    assert forall k :: 0 <= k < 8 ==> data[pos + k] == c[k] by {
      forall k | 0 <= k < 8
        ensures data[pos + k] == c[k]
      {
        assert data[pos..pos + |c|][k] == data[pos + k];
      }
    }
  }

  /** The chunk at a cursor, read back through its own header. */
  lemma ChunkAt(data: seq<byte>, pos: nat, next: nat)
    requires pos + 8 <= |data|
    requires next == pos + 12 + LengthAt(data, pos) <= |data|
    ensures IsChunk(data[pos..next])
    ensures TagAt(data[pos..next], 0) == TagAt(data, pos)
    ensures LengthAt(data[pos..next], 0) == LengthAt(data, pos)
    ensures KeptOne(data[pos..next]) == if IsCritical(TagAt(data, pos)) then [data[pos..next]] else []
  {
    HeaderOfSlice(data, pos, data[pos..next]);
  }

  lemma KeptCons(c: seq<byte>, tail: seq<seq<byte>>)
    requires |c| >= 8 && forall x <- tail :: |x| >= 8
    ensures KeptChunks([c] + tail) == KeptOne(c) + KeptChunks(tail)
  {
    var cs := [c] + tail;
    assert cs[0] == c && cs[1..] == tail;
  }

  lemma FlattenOne(c: seq<byte>)
    ensures Flatten([c]) == c
  {
    assert [c][1..] == [];
  }

  /** What the kept chunk at a cursor contributes to the flattened output. */
  lemma FlattenKeptOne(data: seq<byte>, pos: nat, next: nat)
    requires pos + 8 <= |data|
    requires next == pos + 12 + LengthAt(data, pos) <= |data|
    ensures Flatten(KeptOne(data[pos..next])) == CopiedChunk(data, pos, next)
  {
    ChunkAt(data, pos, next);
    var c := data[pos..next];
    if IsCritical(TagAt(data, pos)) {
      FlattenOne(c);
    }
  }

  /** The chunk list at a cursor whose chunk is complete: that chunk, then the rest unless IEND. */
  /** The chunk list at a cursor whose chunk is complete: that chunk, then the ones after it. */
  lemma ChunksStep(data: seq<byte>, pos: nat, next: nat)
    requires pos + 8 <= |data|
    requires next == pos + 12 + LengthAt(data, pos) <= |data|
    ensures Chunks(data, pos) == [data[pos..next]] + ChunksAfter(data, pos, next)
  {
  }

  lemma ChunksAfterIend(data: seq<byte>, pos: nat, next: nat)
    requires pos + 8 <= next <= |data| && TagAt(data, pos) == IEND
    ensures ChunksAfter(data, pos, next) == []
  {
  }

  lemma ChunksAfterNext(data: seq<byte>, pos: nat, next: nat)
    requires pos + 8 <= next <= |data| && TagAt(data, pos) != IEND
    ensures ChunksAfter(data, pos, next) == Chunks(data, next)
  {
  }

  /** The kept bytes of the chunk list from a cursor whose chunk is complete, split after that chunk. */
  lemma KeptChunksStep(data: seq<byte>, pos: nat, next: nat)
    requires pos + 8 <= |data|
    requires next == pos + 12 + LengthAt(data, pos) <= |data|
    ensures Flatten(KeptChunks(Chunks(data, pos)))
            == CopiedChunk(data, pos, next) + Flatten(KeptChunks(ChunksAfter(data, pos, next)))
  {
    var c := data[pos..next];
    var tail := ChunksAfter(data, pos, next);
    ChunksStep(data, pos, next);
    ChunkAt(data, pos, next);
    KeptCons(c, tail);
    FlattenAppend(KeptOne(c), KeptChunks(tail));
    FlattenKeptOne(data, pos, next);
  }

  /** The walk as the loop performs it agrees with the chunk-list description. */
  lemma {:induction false} KeptFromOfChunks(data: seq<byte>, pos: nat)
    requires pos <= |data|
    ensures KeptFrom(data, pos) == Flatten(KeptChunks(Chunks(data, pos)))
    decreases |data| - pos
  {
    if pos + 8 <= |data| {
      var next := pos + 12 + LengthAt(data, pos);
      if next <= |data| {
        KeptChunksStep(data, pos, next);
        KeptFromStep(data, pos, next);
        if TagAt(data, pos) == IEND {
          KeptAfterIend(data, pos, next);
          ChunksAfterIend(data, pos, next);
          assert Flatten(KeptChunks([])) == [];
        } else {
          KeptAfterNext(data, pos, next);
          ChunksAfterNext(data, pos, next);
          KeptFromOfChunks(data, next);
        }
      }
    }
  }

  /* ---------------------------------------------------------------------- */
  /* Properties of the filter                                               */
  /* ---------------------------------------------------------------------- */

  predicate IsIend(c: seq<byte>)
  {
    |c| >= 8 && TagAt(c, 0) == IEND
  }

  /** A chunk list as the walk produces it: complete chunks, and only the last may be IEND. */
  predicate WellFormed(cs: seq<seq<byte>>)
  {
    (forall c <- cs :: IsChunk(c)) &&
    (forall i :: 0 <= i < |cs| - 1 ==> !IsIend(cs[i]))
  }

  /** The last chunk of `cs` is IEND, so the walk ended there. */
  predicate EndsWithIend(cs: seq<seq<byte>>)
  {
    |cs| > 0 && IsIend(cs[|cs| - 1])
  }

  lemma WellFormedCons(c: seq<byte>, rest: seq<seq<byte>>)
    requires IsChunk(c) && WellFormed(rest)
    requires !IsIend(c) || rest == []
    ensures WellFormed([c] + rest)
  {
    var cs := [c] + rest;
    forall i | 0 <= i < |cs| - 1
      ensures !IsIend(cs[i])
    {
      if i > 0 {
        assert cs[i] == rest[i - 1];
      }
    }
  }

  lemma WellFormedTail(cs: seq<seq<byte>>)
    requires WellFormed(cs) && cs != []
    ensures IsChunk(cs[0])
    ensures WellFormed(cs[1..])
    ensures IsIend(cs[0]) ==> |cs| == 1
  {
    assert cs[0] in cs;
    forall i | 0 <= i < |cs[1..]| - 1
      ensures !IsIend(cs[1..][i])
    {
      assert cs[1..][i] == cs[i + 1];
    }
  }

  /** The walk's chunk list is well formed: it stops at the first IEND. */
  lemma {:induction false} ChunksWellFormed(data: seq<byte>, pos: nat)
    requires pos <= |data|
    ensures WellFormed(Chunks(data, pos))
    decreases |data| - pos
  {
    if pos + 8 <= |data| {
      var next := pos + 12 + LengthAt(data, pos);
      if next <= |data| {
        ChunksStep(data, pos, next);
        ChunkAt(data, pos, next);
        if TagAt(data, pos) == IEND {
          ChunksAfterIend(data, pos, next);
        } else {
          ChunksAfterNext(data, pos, next);
          ChunksWellFormed(data, next);
        }
        WellFormedCons(data[pos..next], ChunksAfter(data, pos, next));
      }
    }
  }

  /**
   * The chunks lie back to back from the cursor: their concatenation is the
   * slice of the buffer that starts there, so each boundary is the previous
   * one plus 12 + L.
   */
  lemma {:induction false} ChunksContiguous(data: seq<byte>, pos: nat)
    requires pos <= |data|
    ensures pos + |Flatten(Chunks(data, pos))| <= |data|
    ensures data[pos..pos + |Flatten(Chunks(data, pos))|] == Flatten(Chunks(data, pos))
    decreases |data| - pos
  {
    if pos + 8 <= |data| {
      var next := pos + 12 + LengthAt(data, pos);
      if next <= |data| {
        ChunksStep(data, pos, next);
        var c := data[pos..next];
        var rest := ChunksAfter(data, pos, next);
        FlattenOne(c);
        FlattenAppend([c], rest);
        if TagAt(data, pos) == IEND {
          ChunksAfterIend(data, pos, next);
          AppendEmpty(c);
        } else {
          ChunksAfterNext(data, pos, next);
          ChunksContiguous(data, next);
          SliceConcat(data, pos, next, next + |Flatten(rest)|);
        }
      }
    }
  }

  /** Filtering keeps a well-formed list well formed and leaves only allowed chunks. */
  lemma {:induction false} KeptWellFormed(cs: seq<seq<byte>>)
    requires WellFormed(cs)
    ensures WellFormed(KeptChunks(cs))
    ensures forall c <- KeptChunks(cs) :: IsCritical(TagAt(c, 0))
  {
    if cs != [] {
      var c := cs[0];
      WellFormedTail(cs);
      KeptWellFormed(cs[1..]);
      if IsCritical(TagAt(c, 0)) {
        WellFormedCons(c, KeptChunks(cs[1..]));
      }
    }
  }

  /** A list of allowed chunks passes the filter unchanged. */
  lemma {:induction false} KeptIdentity(cs: seq<seq<byte>>)
    requires forall c <- cs :: |c| >= 8 && IsCritical(TagAt(c, 0))
    ensures KeptChunks(cs) == cs
  {
    if cs != [] {
      KeptIdentity(cs[1..]);
      assert [cs[0]] + cs[1..] == cs;
    }
  }

  lemma IdatCons(c: seq<byte>, tail: seq<seq<byte>>)
    requires |c| >= 8 && forall x <- tail :: |x| >= 8
    ensures IdatChunks([c] + tail) == (if TagAt(c, 0) == IDAT then [c] else []) + IdatChunks(tail)
  {
    var cs := [c] + tail;
    assert cs[0] == c && cs[1..] == tail;
  }

  /** Filtering drops no IDAT chunk and keeps their order. */
  lemma {:induction false} KeptIdat(cs: seq<seq<byte>>)
    requires forall c <- cs :: |c| >= 8
    ensures IdatChunks(KeptChunks(cs)) == IdatChunks(cs)
  {
    if cs != [] {
      var c := cs[0];
      KeptIdat(cs[1..]);
      if IsCritical(TagAt(c, 0)) {
        IdatCons(c, KeptChunks(cs[1..]));
      } else {
        assert KeptChunks(cs) == KeptChunks(cs[1..]);
      }
    }
  }

  /** The flattened kept chunks are a subsequence of the flattened chunks. */
  lemma {:induction false} KeptSubsequence(cs: seq<seq<byte>>)
    requires forall c <- cs :: |c| >= 8
    ensures IsSubsequence(Flatten(KeptChunks(cs)), Flatten(cs))
  {
    if cs != [] {
      var c := cs[0];
      KeptSubsequence(cs[1..]);
      FlattenAppend(KeptOne(c), KeptChunks(cs[1..]));
      if IsCritical(TagAt(c, 0)) {
        FlattenOne(c);
        SubsequenceReflexive(c);
      } else {
        EmptySubsequence(c);
      }
      SubsequenceConcat(Flatten(KeptOne(c)), c, Flatten(KeptChunks(cs[1..])), Flatten(cs[1..]));
    }
  }

  /**
   * Walking the concatenation of a well-formed chunk list finds exactly those
   * chunks again.
   */
  lemma {:induction false} ChunksOfFlatten(s: seq<byte>, p: nat, cs: seq<seq<byte>>)
    requires p <= |s| && s[p..] == Flatten(cs) && WellFormed(cs)
    ensures Chunks(s, p) == cs
    decreases cs
  {
    if cs == [] {
      assert p == |s|;
      assert Chunks(s, p) == [];
    } else {
      var c := cs[0];
      WellFormedTail(cs);
      SplitSuffix(s, p, c, Flatten(cs[1..]));
      HeaderOfSlice(s, p, c);
      var next := p + |c|;
      ChunksStep(s, p, next);
      assert s[p..next] == c;
      if TagAt(c, 0) == IEND {
        ChunksAfterIend(s, p, next);
        assert cs == [c] + [];
      } else {
        ChunksAfterNext(s, p, next);
        ChunksOfFlatten(s, next, cs[1..]);
        assert cs == [c] + cs[1..];
      }
    }
  }

  /** The lengths condition at a cursor whose chunk is complete. */
  lemma LengthsFitStep(data: seq<byte>, pos: nat, next: nat)
    requires pos + 8 <= |data|
    requires next == pos + 12 + LengthAt(data, pos) <= |data|
    ensures LengthsFit(data, pos) <==> LengthAt(data, pos) < 0x8000_0000 && LengthsFitAfter(data, pos, next)
  {
  }

  lemma LengthsFitAfterNext(data: seq<byte>, pos: nat, next: nat)
    requires pos + 8 <= next <= |data| && TagAt(data, pos) != IEND
    ensures LengthsFitAfter(data, pos, next) <==> LengthsFit(data, next)
  {
  }

  /** Every length field of a walk that satisfies `LengthsFit` is below 2^31. */
  lemma {:induction false} ChunkLengthsFit(data: seq<byte>, pos: nat)
    requires pos <= |data| && LengthsFit(data, pos)
    ensures forall c <- Chunks(data, pos) :: LengthAt(c, 0) < 0x8000_0000
    decreases |data| - pos
  {
    if pos + 8 <= |data| {
      var next := pos + 12 + LengthAt(data, pos);
      if next <= |data| {
        ChunksStep(data, pos, next);
        ChunkAt(data, pos, next);
        LengthsFitStep(data, pos, next);
        if TagAt(data, pos) == IEND {
          ChunksAfterIend(data, pos, next);
        } else {
          ChunksAfterNext(data, pos, next);
          LengthsFitAfterNext(data, pos, next);
          ChunkLengthsFit(data, next);
        }
      }
    }
  }

  /** The concatenation of a well-formed list of chunks with short lengths satisfies `LengthsFit`. */
  lemma {:induction false} LengthsFitOfFlatten(s: seq<byte>, p: nat, cs: seq<seq<byte>>)
    requires p <= |s| && s[p..] == Flatten(cs) && WellFormed(cs)
    requires forall c <- cs :: LengthAt(c, 0) < 0x8000_0000
    ensures LengthsFit(s, p)
    decreases cs
  {
    if cs != [] {
      var c := cs[0];
      WellFormedTail(cs);
      SplitSuffix(s, p, c, Flatten(cs[1..]));
      HeaderOfSlice(s, p, c);
      LengthsFitStep(s, p, p + |c|);
      if TagAt(c, 0) != IEND {
        LengthsFitAfterNext(s, p, p + |c|);
        LengthsFitOfFlatten(s, p + |c|, cs[1..]);
      }
    }
  }

  /**
   * The output holds exactly the allowed chunks of the input, in input order,
   * verbatim, and every IDAT chunk of the input (its CRC included).
   */
  lemma PngOutputChunks(data: seq<byte>)
    requires HasSignature(data)
    ensures Chunks(StripPng(data).value, 8) == KeptChunks(Chunks(data, 8))
    ensures forall c <- Chunks(StripPng(data).value, 8) :: IsCritical(TagAt(c, 0))
    ensures IdatChunks(Chunks(StripPng(data).value, 8)) == IdatChunks(Chunks(data, 8))
  {
    var cs := Chunks(data, 8);
    var out := StripPng(data).value;
    ChunksWellFormed(data, 8);
    KeptWellFormed(cs);
    assert out[8..] == Flatten(KeptChunks(cs));
    ChunksOfFlatten(out, 8, KeptChunks(cs));
    KeptIdat(cs);
  }

  /**
   * Filtering is idempotent: the output passes the signature check, its
   * lengths fit, and filtering it again returns it unchanged.
   */
  lemma PngIdempotent(data: seq<byte>)
    requires HasSignature(data) && PngLengthsFit(data)
    ensures PngLengthsFit(StripPng(data).value)
    ensures StripPng(StripPng(data).value) == StripPng(data)
  {
    var cs := Chunks(data, 8);
    var ks := KeptChunks(cs);
    var out := StripPng(data).value;
    assert HasSignature(out);
    PngOutputChunks(data);
    ChunksWellFormed(data, 8);
    KeptWellFormed(cs);
    ChunkLengthsFit(data, 8);
    assert out[8..] == Flatten(ks);
    LengthsFitOfFlatten(out, 8, ks);
    KeptIdentity(ks);
  }

  /** The bytes of the walked chunks are a subsequence of the bytes after the signature. */
  lemma ChunkBytesSubsequence(data: seq<byte>)
    requires 8 <= |data|
    ensures IsSubsequence(Flatten(Chunks(data, 8)), data[8..])
  {
    var m := |Flatten(Chunks(data, 8))|;
    ChunksContiguous(data, 8);
    PrefixSubsequence(data[8..], m);
    assert data[8..][..m] == Flatten(Chunks(data, 8));
  }

  /** The output is the input with bytes deleted, so it is never longer. */
  lemma PngOutputSubsequence(data: seq<byte>)
    requires HasSignature(data)
    ensures IsSubsequence(StripPng(data).value, data)
    ensures |StripPng(data).value| <= |data|
  {
    var cs := Chunks(data, 8);
    var kept := Flatten(KeptChunks(cs));
    ChunkBytesSubsequence(data);
    KeptSubsequence(cs);
    SubsequenceTransitive(kept, Flatten(cs), data[8..]);
    assert data[..8] == Signature;
    SubsequenceReflexive(Signature);
    SubsequenceConcat(Signature, data[..8], kept, data[8..]);
    assert data[..8] + data[8..] == data;
    SubsequenceLength(StripPng(data).value, data);
  }

  /** Once the walk has met IEND, bytes appended after the buffer are never read. */
  lemma {:induction false} ChunksIgnoreTrailing(data: seq<byte>, extra: seq<byte>, pos: nat)
    requires pos <= |data| && EndsWithIend(Chunks(data, pos))
    ensures Chunks(data + extra, pos) == Chunks(data, pos)
    decreases |data| - pos
  {
    var s := data + extra;
    assert pos + 8 <= |data|;
    assert forall k :: 0 <= k < |data| ==> s[k] == data[k];
    var next := pos + 12 + LengthAt(data, pos);
    assert LengthAt(s, pos) == LengthAt(data, pos) && TagAt(s, pos) == TagAt(data, pos);
    assert next <= |data|;
    ChunksStep(data, pos, next);
    ChunksStep(s, pos, next);
    assert s[pos..next] == data[pos..next];
    if TagAt(data, pos) == IEND {
      ChunksAfterIend(data, pos, next);
      ChunksAfterIend(s, pos, next);
    } else {
      ChunksAfterNext(data, pos, next);
      ChunksAfterNext(s, pos, next);
      var rest := Chunks(data, next);
      ChunkAt(data, pos, next);
      assert rest != [];
      assert Chunks(data, pos)[|Chunks(data, pos)| - 1] == rest[|rest| - 1];
      ChunksIgnoreTrailing(data, extra, next);
    }
  }

  /** Nothing after IEND is read: appending bytes to a file whose walk ends at IEND changes nothing. */
  lemma PngIgnoresTrailing(data: seq<byte>, extra: seq<byte>)
    requires HasSignature(data) && EndsWithIend(Chunks(data, 8))
    ensures StripPng(data + extra) == StripPng(data)
  {
    var s := data + extra;
    assert forall k :: 0 <= k < 8 ==> s[k] == data[k];
    ChunksIgnoreTrailing(data, extra, 8);
  }

  /** The walk from a cursor whose chunk is complete, split after that chunk. */
  lemma KeptFromStep(data: seq<byte>, pos: nat, next: nat)
    requires pos + 8 <= |data|
    requires next == pos + 12 + LengthAt(data, pos) <= |data|
    ensures KeptFrom(data, pos) == CopiedChunk(data, pos, next) + KeptAfter(data, pos, next)
  {
  }

  /** The walk copies nothing once fewer than 8 bytes remain for a header. */
  lemma KeptFromShortHeader(data: seq<byte>, pos: nat)
    requires pos <= |data| < pos + 8
    ensures KeptFrom(data, pos) == []
  {
  }

  /** The walk copies nothing from a chunk that overruns the buffer. */
  lemma KeptFromShortChunk(data: seq<byte>, pos: nat)
    requires pos + 8 <= |data| < pos + 12 + LengthAt(data, pos)
    ensures KeptFrom(data, pos) == []
  {
  }

  lemma KeptAfterIend(data: seq<byte>, pos: nat, next: nat)
    requires pos + 8 <= next <= |data| && TagAt(data, pos) == IEND
    ensures KeptAfter(data, pos, next) == []
  {
  }

  lemma KeptAfterNext(data: seq<byte>, pos: nat, next: nat)
    requires pos + 8 <= next <= |data| && TagAt(data, pos) != IEND
    ensures KeptAfter(data, pos, next) == KeptFrom(data, next)
  {
  }

  /** A truncated buffer holds the same header at a cursor that it still covers. */
  lemma PrefixHeader(data: seq<byte>, n: nat, pos: nat)
    requires pos + 8 <= n <= |data|
    ensures LengthAt(data[..n], pos) == LengthAt(data, pos)
    ensures TagAt(data[..n], pos) == TagAt(data, pos)
  {
  }

  /** A truncated buffer holds the same chunk between cursors that it still covers. */
  lemma PrefixChunk(data: seq<byte>, n: nat, pos: nat, next: nat)
    requires pos + 8 <= next <= n <= |data|
    ensures CopiedChunk(data[..n], pos, next) == CopiedChunk(data, pos, next)
  {
    PrefixHeader(data, n, pos);
    assert data[..n][pos..next] == data[pos..next];
  }

  /** The walk on a truncated buffer copies a prefix of what the walk on the whole buffer copies. */
  lemma {:induction false} KeptFromPrefix(data: seq<byte>, n: nat, pos: nat)
    requires pos <= n <= |data|
    ensures KeptFrom(data[..n], pos) <= KeptFrom(data, pos)
    decreases n - pos
  {
    var t := data[..n];
    if pos + 8 <= n {
      PrefixHeader(data, n, pos);
      var next := pos + 12 + LengthAt(data, pos);
      if next <= n {
        PrefixChunk(data, n, pos, next);
        KeptFromStep(t, pos, next);
        KeptFromStep(data, pos, next);
        if TagAt(data, pos) == IEND {
          KeptAfterIend(t, pos, next);
          KeptAfterIend(data, pos, next);
        } else {
          KeptAfterNext(t, pos, next);
          KeptAfterNext(data, pos, next);
          KeptFromPrefix(data, n, next);
        }
        PrefixConcat(CopiedChunk(data, pos, next), KeptAfter(t, pos, next), KeptAfter(data, pos, next));
      } else {
        assert KeptFrom(t, pos) == [];
      }
    } else {
      assert KeptFrom(t, pos) == [];
    }
  }

  /**
   * Truncating a file (keeping its signature) truncates the output: what the
   * filter returns for the shorter buffer is a prefix of what it returns for
   * the whole one.
   */
  lemma PngTruncation(data: seq<byte>, n: nat)
    requires HasSignature(data) && 8 <= n <= |data|
    ensures StripPng(data[..n]).Success?
    ensures StripPng(data[..n]).value <= StripPng(data).value
  {
    var t := data[..n];
    assert forall k :: 0 <= k < 8 ==> t[k] == data[k];
    KeptFromPrefix(data, n, 8);
    KeptFromOfChunks(data, 8);
    KeptFromOfChunks(t, 8);
    PrefixConcat(Signature, KeptFrom(t, 8), KeptFrom(data, 8));
  }
}
