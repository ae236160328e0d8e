/** Bytes, big-endian fields and the subsequence relation used by both image filters. */
module Bytes {

  /** One element of a `Uint8Array`. */
  type byte = x: int | 0 <= x < 256

  /** A 16-bit big-endian field, unsigned. */
  function Be16(hi: byte, lo: byte): (n: int)
    ensures 0 <= n < 0x1_0000
  {
    hi * 0x100 + lo
  }

  /** A 32-bit big-endian field, read as an unsigned value. */
  function Be32(b0: byte, b1: byte, b2: byte, b3: byte): (n: int)
    ensures 0 <= n < 0x1_0000_0000
  {
    ((b0 * 0x100 + b1) * 0x100 + b2) * 0x100 + b3
  }

  /** `a` is obtained from `b` by deleting elements: an order-preserving subsequence. */
  ghost predicate IsSubsequence<T>(a: seq<T>, b: seq<T>)
    decreases |b|
  {
    if b == [] then a == []
    else (a != [] && a[0] == b[0] && IsSubsequence(a[1..], b[1..])) || IsSubsequence(a, b[1..])
  }

  lemma {:induction false} SubsequenceLength<T>(a: seq<T>, b: seq<T>)
    requires IsSubsequence(a, b)
    ensures |a| <= |b|
    decreases |b|
  {
    if b != [] {
      if a != [] && a[0] == b[0] && IsSubsequence(a[1..], b[1..]) {
        SubsequenceLength(a[1..], b[1..]);
      } else {
        SubsequenceLength(a, b[1..]);
      }
    }
  }

  lemma {:induction false} SubsequenceReflexive<T>(a: seq<T>)
    ensures IsSubsequence(a, a)
    decreases |a|
  {
    if a != [] {
      SubsequenceReflexive(a[1..]);
    }
  }

  lemma {:induction false} EmptySubsequence<T>(b: seq<T>)
    ensures IsSubsequence([], b)
    decreases |b|
  {
    if b != [] {
      EmptySubsequence(b[1..]);
    }
  }

  /** Subsequences of the two halves concatenate to a subsequence of the whole. */
  lemma {:induction false} SubsequenceConcat<T>(a: seq<T>, b: seq<T>, c: seq<T>, d: seq<T>)
    requires IsSubsequence(a, b) && IsSubsequence(c, d)
    ensures IsSubsequence(a + c, b + d)
    decreases |b|
  {
    if b == [] {
      assert a + c == c && b + d == d;
    } else {
      assert (b + d)[0] == b[0] && (b + d)[1..] == b[1..] + d;
      if a != [] && a[0] == b[0] && IsSubsequence(a[1..], b[1..]) {
        SubsequenceConcat(a[1..], b[1..], c, d);
        assert (a + c)[0] == a[0] && (a + c)[1..] == a[1..] + c;
      } else {
        SubsequenceConcat(a, b[1..], c, d);
      }
    }
  }

  /** A prefix is a subsequence. */
  lemma PrefixSubsequence<T>(b: seq<T>, n: nat)
    requires n <= |b|
    ensures IsSubsequence(b[..n], b)
  {
    SubsequenceReflexive(b[..n]);
    EmptySubsequence(b[n..]);
    SubsequenceConcat(b[..n], b[..n], [], b[n..]);
    assert b[..n] + [] == b[..n] && b[..n] + b[n..] == b;
  }

  lemma {:induction false} SubsequenceTransitive<T>(a: seq<T>, b: seq<T>, c: seq<T>)
    requires IsSubsequence(a, b) && IsSubsequence(b, c)
    ensures IsSubsequence(a, c)
    decreases |c|
  {
    if c == [] {
    } else if b != [] && b[0] == c[0] && IsSubsequence(b[1..], c[1..]) {
      if a != [] && a[0] == b[0] && IsSubsequence(a[1..], b[1..]) {
        SubsequenceTransitive(a[1..], b[1..], c[1..]);
      } else {
        SubsequenceTransitive(a, b[1..], c[1..]);
      }
    } else {
      SubsequenceTransitive(a, b, c[1..]);
    }
  }

  /** Slicing a suffix again, restated on the original sequence. */
  lemma SuffixSlices<T>(s: seq<T>, i: nat, n: nat)
    requires i + n <= |s|
    ensures s[i..][..n] == s[i..i + n]
    ensures s[i..][n..] == s[i + n..]
  {
  }

  /** Two adjacent slices make up the slice that spans both. */
  lemma SliceConcat<T>(s: seq<T>, i: nat, j: nat, k: nat)
    requires i <= j <= k <= |s|
    ensures s[i..j] + s[j..k] == s[i..k]
  {
  }

  /** A suffix that is a concatenation splits at the length of its first part. */
  lemma SplitSuffix<T>(s: seq<T>, p: nat, a: seq<T>, b: seq<T>)
    requires p <= |s| && s[p..] == a + b
    ensures p + |a| <= |s|
    ensures s[p..p + |a|] == a && s[p + |a|..] == b
  {
    assert s[p..p + |a|] == (a + b)[..|a|];
    assert s[p + |a|..] == (a + b)[|a|..];
  }

  /** A common first part keeps the prefix order. */
  lemma PrefixConcat<T>(c: seq<T>, a: seq<T>, b: seq<T>)
    requires a <= b
    ensures c + a <= c + b
  {
    assert (c + b)[..|c + a|] == c + b[..|a|];
  }

  lemma AppendAssoc<T>(a: seq<T>, b: seq<T>, c: seq<T>)
    ensures (a + b) + c == a + (b + c)
  {
  }

  /** Replacing the first part of a concatenation by an equal sequence. */
  lemma ReplaceHead<T>(x: seq<T>, a: seq<T>, b: seq<T>, t: seq<T>)
    requires x == a + t && a == b
    ensures x == b + t
  {
  }

  lemma AppendEmpty<T>(a: seq<T>)
    ensures a + [] == a
  {
  }

  lemma AppendEmptyLeft<T>(a: seq<T>)
    ensures [] + a == a
  {
  }

  /** Pushes `data[from..to]` onto `result` one byte at a time. */
  method AppendRange<T>(result: seq<T>, data: seq<T>, from: nat, to: nat) returns (r: seq<T>)
    requires from <= to <= |data|
    ensures r == result + data[from..to]
  {
    r := result;
    var j := from;
    while j < to
      invariant from <= j <= to
      invariant r == result + data[from..j]
    {
      r := r + [data[j]];
      j := j + 1;
    }
  }

  /** The concatenation of a sequence of byte strings. */
  function Flatten(cs: seq<seq<byte>>): (r: seq<byte>)
  {
    if cs == [] then [] else cs[0] + Flatten(cs[1..])
  }

  lemma {:induction false} FlattenAppend(a: seq<seq<byte>>, b: seq<seq<byte>>)
    ensures Flatten(a + b) == Flatten(a) + Flatten(b)
    decreases |a|
  {
    if a == [] {
      assert a + b == b;
    } else {
      assert (a + b)[0] == a[0] && (a + b)[1..] == a[1..] + b;
      FlattenAppend(a[1..], b);
    }
  }
}
