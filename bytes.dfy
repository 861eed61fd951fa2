/** Reading raw bytes: fixed-size element slots and NUL-terminated strings. */
module Bytes {
  import opened Arith

  /**
   * The elements of a byte buffer, read as consecutive `size`-byte slots;
   * a trailing partial slot is not an element.
   */
  function Chunks(s: seq<bv8>, size: nat): seq<seq<bv8>>
    requires size > 0
    decreases |s|
  {
    if |s| < size then [] else [s[..size]] + Chunks(s[size..], size)
  }

  /** There are `|s| / size` elements, and element `i` is the slot at byte offset `i * size`. */
  lemma {:induction false} ChunkAt(s: seq<bv8>, size: nat, i: nat)
    requires size > 0 && i < |s| / size
    ensures |Chunks(s, size)| == |s| / size
    ensures i * size + size <= |s|
    ensures Chunks(s, size)[i] == s[i * size..i * size + size]
  {
    BelowQuotient(i, |s|, size);
    ChunksLength(s, size);
    if i > 0 {
      DivStep(|s|, size);
      var t := s[size..];
      var j := (i - 1) * size;
      assert j + size == i * size;
      ChunkAt(t, size, i - 1);
      assert Chunks(s, size) == [s[..size]] + Chunks(t, size);
      assert t[j..j + size] == s[i * size..i * size + size];
    }
  }

  /** The number of elements is the byte length divided by the element size. */
  lemma {:induction false} ChunksLength(s: seq<bv8>, size: nat)
    requires size > 0
    ensures |Chunks(s, size)| == |s| / size
  {
    if |s| >= size {
      DivStep(|s|, size);
      ChunksLength(s[size..], size);
    }
  }

  /** Appending one whole element to a buffer of whole elements appends it to the element view. */
  lemma {:induction false} ChunksAppend(s: seq<bv8>, e: seq<bv8>, size: nat)
    requires size > 0 && |s| % size == 0 && |e| == size
    ensures Chunks(s + e, size) == Chunks(s, size) + [e]
    decreases |s|
  {
    if |s| == 0 {
      assert s + e == e && e[..size] == e && e[size..] == [];
      assert Chunks(e[size..], size) == [];
      assert Chunks(s, size) == [];
    } else {
      var q := |s| / size;
      assert |s| == q * size + |s| % size;
      assert q >= 1;
      assert |s| - size == (q - 1) * size;
      DivUnique(|s| - size, size, q - 1, 0);
      ChunksAppend(s[size..], e, size);
      assert (s + e)[..size] == s[..size];
      assert (s + e)[size..] == s[size..] + e;
    }
  }

  lemma AppendAssoc(a: seq<bv8>, b: seq<bv8>, c: seq<bv8>)
    ensures a + b + c == a + (b + c)
  {
  }

  /** Two concatenations with equally long first parts agree part by part. */
  lemma AppendCancel(a: seq<bv8>, b: seq<bv8>, c: seq<bv8>, d: seq<bv8>)
    requires a + b == c + d && |a| == |c|
    ensures a == c && b == d
  {
    assert a == (a + b)[..|a|] && c == (c + d)[..|c|];
    assert b == (a + b)[|a|..] && d == (c + d)[|c|..];
  }

  /** A range of a range is a range of the whole. */
  lemma SliceOfSlice(m: seq<bv8>, a: nat, b: nat, i: nat, j: nat)
    requires a <= b <= |m| && i <= j <= b - a
    ensures m[a..b][i..j] == m[a + i..a + j]
  {
    assert forall k :: 0 <= k < j - i ==> m[a..b][i..j][k] == m[a + i + k];
  }

  /** `strlen`: the index of the first NUL byte. */
  function CStrLen(s: seq<bv8>): (n: nat)
    requires 0 in s
    ensures n < |s| && s[n] == 0
    ensures forall i :: 0 <= i < n ==> s[i] != 0
  {
    if s[0] == 0 then 0 else 1 + CStrLen(s[1..])
  }

  /** A C string's text: its bytes before the terminator. */
  function CStrText(s: seq<bv8>): (t: seq<bv8>)
    requires 0 in s
    ensures |t| < |s| && 0 !in t && s[|t|] == 0 && s[..|t|] == t
  {
    s[..CStrLen(s)]
  }

  /** Terminating NUL-free bytes with a NUL gives back exactly those bytes as text. */
  lemma {:induction false} CStrTextOfTerminated(t: seq<bv8>)
    requires 0 !in t
    ensures 0 in t + [0] && CStrLen(t + [0]) == |t| && CStrText(t + [0]) == t
  {
    assert (t + [0])[|t|] == 0;
    assert (t + [0])[..|t|] == t;
  }
}
