/**
 * `fmt_dynarray` (include/fmt.c): appends `{ e0, e1, ..., en }` to a string,
 * each element rendered by a caller-supplied formatter.
 */
module Fmt {
  import opened Types
  import opened Arith
  import opened Bytes
  import opened DynArrays
  import opened CStrings

  /** `"{ "` */
  const OPEN: seq<bv8> := [0x7B, 0x20]
  /** `", "` */
  const SEP: seq<bv8> := [0x2C, 0x20]
  /** `" }"`, `endch` */
  const CLOSE: seq<bv8> := [0x20, 0x7D]

  /**
   * A `formatter` appends the rendering of the element at the pointer it is
   * given; here it is the rendering, a function of the element's bytes, that
   * the string is then extended by.
   */
  type Formatter = seq<bv8> -> seq<bv8>

  /** What the formatter appends for element `e`. */
  function Render(cb: Formatter, e: seq<bv8>): seq<bv8> {
    cb(e)
  }

  /** The renderings of the elements, separated by `", "`. */
  function Joined(es: seq<seq<bv8>>, cb: Formatter): seq<bv8>
    requires |es| >= 1
    decreases |es|
  {
    if |es| == 1 then Render(cb, es[0]) else Render(cb, es[0]) + SEP + Joined(es[1..], cb)
  }

  /** The text `fmt_dynarray` appends for a non-empty array of elements `es`. */
  function Format(es: seq<seq<bv8>>, cb: Formatter): seq<bv8>
    requires |es| >= 1
  {
    OPEN + Joined(es, cb) + CLOSE
  }

  /** The text the loop of `fmt_dynarray` has produced after `k` elements: each rendering and a separator. */
  function Leading(es: seq<seq<bv8>>, cb: Formatter, k: nat): seq<bv8>
    requires k <= |es|
  {
    if k == 0 then [] else Leading(es, cb, k - 1) + (Render(cb, es[k - 1]) + SEP)
  }

  /** The rest of the joined text from element `k` on, when `k` is not the last. */
  lemma JoinedFrom(es: seq<seq<bv8>>, cb: Formatter, k: nat)
    requires k + 1 < |es|
    ensures Joined(es[k..], cb) == Render(cb, es[k]) + SEP + Joined(es[k + 1..], cb)
  {
    assert es[k..][1..] == es[k + 1..];
  }

  /** The joined text is what the loop produced for the first `k` elements, then the rest joined. */
  lemma {:induction false} JoinedSplit(es: seq<seq<bv8>>, cb: Formatter, k: nat)
    requires k < |es|
    ensures Joined(es, cb) == Leading(es, cb, k) + Joined(es[k..], cb)
  {
    if k == 0 {
      assert es[0..] == es;
    } else {
      JoinedSplit(es, cb, k - 1);
      JoinedFrom(es, cb, k - 1);
    }
  }

  /** In particular the loop's output for all but the last element, then the last rendering, is the joined text. */
  lemma JoinedIsLeadingThenLast(es: seq<seq<bv8>>, cb: Formatter)
    requires |es| >= 1
    ensures Joined(es, cb) == Leading(es, cb, |es| - 1) + Render(cb, es[|es| - 1])
  {
    var k := |es| - 1;
    JoinedSplit(es, cb, k);
    assert es[k..] == [es[k]];
    assert Joined(es[k..], cb) == Render(cb, es[k]);
  }

  /** A single element is rendered between the brackets with no separator. */
  lemma FormatSingle(e: seq<bv8>, cb: Formatter)
    ensures Format([e], cb) == OPEN + Render(cb, e) + CLOSE
  {
  }

  /** Formatting one more element appends a separator and its rendering before the closing bracket. */
  lemma {:induction false} JoinedAppend(es: seq<seq<bv8>>, e: seq<bv8>, cb: Formatter)
    requires |es| >= 1
    ensures Joined(es + [e], cb) == Joined(es, cb) + SEP + Render(cb, e)
    decreases |es|
  {
    if |es| > 1 {
      assert (es + [e])[1..] == es[1..] + [e];
      JoinedAppend(es[1..], e, cb);
    } else {
      assert (es + [e])[1..] == [e];
    }
  }

  /** The sum of the rendering lengths. */
  function RenderedLength(es: seq<seq<bv8>>, cb: Formatter): nat
    decreases |es|
  {
    if |es| == 0 then 0 else |Render(cb, es[0])| + RenderedLength(es[1..], cb)
  }

  /** The output has the two brackets, the renderings, and exactly `|es| - 1` separators. */
  lemma {:induction false} FormatLength(es: seq<seq<bv8>>, cb: Formatter)
    requires |es| >= 1
    ensures |Format(es, cb)| == |OPEN| + RenderedLength(es, cb) + (|es| - 1) * |SEP| + |CLOSE|
  {
    JoinedLength(es, cb);
  }

  lemma {:induction false} JoinedLength(es: seq<seq<bv8>>, cb: Formatter)
    requires |es| >= 1
    ensures |Joined(es, cb)| == RenderedLength(es, cb) + (|es| - 1) * |SEP|
    decreases |es|
  {
    if |es| > 1 {
      JoinedLength(es[1..], cb);
    }
  }

  /**
   * One step of `fmt_dynarray`: `Render(cb, f, it)` followed by `cstring_extend_cstr(f, tail)`.
   */
  method RenderThen(f: CString, elem: seq<bv8>, cb: Formatter, tail: seq<bv8>)
    requires f.Valid() && 0 !in tail
    requires |f.text| + |Render(cb, elem)| + |tail| < MAX_LEN
    modifies f, f.buf, f.buf.data
    ensures f.Valid()
    ensures f.text == old(f.text) + (Render(cb, elem) + tail)
    ensures f.buf.data == old(f.buf.data) || fresh(f.buf.data)
  {
    CStrTextOfTerminated(tail);
    f.Extend(Render(cb, elem));
    f.ExtendCStr(tail + [0]);
    AppendAssoc(old(f.text), Render(cb, elem), tail);
  }

  /** The byte offset of element `k`, counted the way the loop steps `it`. */
  function Offset(k: nat, size: nat): nat {
    if k == 0 then 0 else Offset(k - 1, size) + size
  }

  lemma {:induction false} OffsetIsProduct(k: nat, size: nat)
    ensures Offset(k, size) == k * size
  {
    if k > 0 {
      OffsetIsProduct(k - 1, size);
      assert k * size == (k - 1) * size + size;
    }
  }

  /** The element arithmetic of a non-empty array of whole elements. */
  lemma WholeElements(len: nat, size: nat)
    requires size > 0 && len >= size && len % size == 0
    ensures len / size >= 1 && len - size == (len / size - 1) * size
  {
    DivUnique(len, size, len / size, 0);
    assert len == (len / size) * size;
  }

  /** Two boundaries that coincide belong to the same index. */
  lemma SameSlot(size: nat, k: nat, j: nat)
    requires size > 0 && k * size == j * size
    ensures k == j
  {
    DivUnique(k * size, size, k, 0);
    DivUnique(j * size, size, j, 0);
  }

  /** Where the loop of `fmt_dynarray` starts: its last element is at `|bytes| - size`. */
  lemma FirstStep(bytes: seq<bv8>, size: nat, cb: Formatter)
    requires size > 0 && |bytes| >= size && |bytes| % size == 0
    ensures |Chunks(bytes, size)| >= 1
    ensures Offset(|Chunks(bytes, size)| - 1, size) == |bytes| - size
    ensures Joined(Chunks(bytes, size), cb) == Leading(Chunks(bytes, size), cb, 0) + Joined(Chunks(bytes, size), cb)
  {
    ChunksLength(bytes, size);
    WholeElements(|bytes|, size);
    OffsetIsProduct(|Chunks(bytes, size)| - 1, size);
  }

  /**
   * What one pass of the loop of `fmt_dynarray` relies on: `it` is not the
   * last element, the bytes at `it` are element `k`, rendering it and a
   * separator stays within the joined text, and the step lands on the next
   * boundary.
   */
  lemma ElementStep(bytes: seq<bv8>, es: seq<seq<bv8>>, size: nat, cb: Formatter, k: nat)
    requires size > 0 && |bytes| >= size && |bytes| % size == 0 && es == Chunks(bytes, size)
    requires k < |es| && Offset(k, size) != |bytes| - size
    ensures k + 1 < |es|
    ensures Offset(k, size) + size <= |bytes|
    ensures bytes[Offset(k, size)..Offset(k, size) + size] == es[k]
    ensures |Joined(es, cb)| >= |Leading(es, cb, k)| + |Render(cb, es[k])| + |SEP|
  {
    ChunksLength(bytes, size);
    WholeElements(|bytes|, size);
    OffsetIsProduct(k, size);
    ChunkAt(bytes, size, k);
    JoinedSplit(es, cb, k);
    JoinedFrom(es, cb, k);
  }

  /**
   * When the loop of `fmt_dynarray` stops, `it` is the last element: the
   * bytes there are the last element, and its rendering completes the
   * joined text.
   */
  lemma LastStep(bytes: seq<bv8>, size: nat, cb: Formatter, k: nat)
    requires size > 0 && |bytes| >= size && |bytes| % size == 0
    requires k < |Chunks(bytes, size)| && Offset(k, size) == |bytes| - size
    ensures k == |Chunks(bytes, size)| - 1
    ensures bytes[|bytes| - size..] == Chunks(bytes, size)[k]
    ensures Joined(Chunks(bytes, size), cb) == Leading(Chunks(bytes, size), cb, k) + Render(cb, Chunks(bytes, size)[k])
  {
    ChunksLength(bytes, size);
    WholeElements(|bytes|, size);
    OffsetIsProduct(k, size);
    SameSlot(size, k, |bytes| / size - 1);
    ChunkAt(bytes, size, k);
    JoinedIsLeadingThenLast(Chunks(bytes, size), cb);
  }

  /**
   * `fmt_dynarray` on an array of at least one element: opens with `"{ "`,
   * walks every element but the last rendering it and `", "`, renders the
   * last one, and closes with `" }"`.
   */
  method FmtDynarray(f: CString, arr: DynArray, ty: Type, cb: Formatter)
    requires f.Valid() && arr.Valid() && ty.size > 0
    requires arr.len >= ty.size && arr.len % ty.size == 0
    requires f.buf != arr && f.buf.data != arr.data
    requires |f.text| + |Format(Chunks(arr.Contents(), ty.size), cb)| < MAX_LEN
    modifies f, f.buf, f.buf.data
    ensures f.Valid()
    ensures f.text == old(f.text) + Format(Chunks(arr.Contents(), ty.size), cb)
    ensures arr.Valid() && arr.Contents() == old(arr.Contents())
  {
    var bytes := arr.Contents();
    ghost var es := Chunks(bytes, ty.size);
    ghost var v0 := f.text;
    FirstStep(bytes, ty.size, cb);
    CStrTextOfTerminated(OPEN);
    f.ExtendCStr(OPEN + [0]);
    ghost var k := RenderLeading(f, bytes, ty.size, cb, v0 + OPEN);
    CloseFormat(f, bytes, ty.size, cb, k, v0 + OPEN);
    AppendAssoc(v0, OPEN, Joined(es, cb) + CLOSE);
    AppendAssoc(OPEN, Joined(es, cb), CLOSE);
    assert arr.Contents() == bytes;
  }

  /**
   * The loop of `fmt_dynarray`: from the first element up to, not including,
   * the last, `cb(f, it)` then `", "`. Returns the index it stopped at.
   */
  method RenderLeading(f: CString, bytes: seq<bv8>, size: nat, cb: Formatter, ghost prefix: seq<bv8>)
    returns (ghost k: nat)
    requires size > 0 && |bytes| >= size && |bytes| % size == 0
    requires f.Valid() && f.text == prefix
    requires |prefix| + |Joined(Chunks(bytes, size), cb)| + |CLOSE| < MAX_LEN
    modifies f, f.buf, f.buf.data
    ensures k < |Chunks(bytes, size)| && Offset(k, size) == |bytes| - size
    ensures f.Valid() && f.text == prefix + Leading(Chunks(bytes, size), cb, k)
    ensures f.buf.data == old(f.buf.data) || fresh(f.buf.data)
  {
    ghost var es := Chunks(bytes, size);
    ghost var data0 := f.buf.data;
    FirstStep(bytes, size, cb);
    var it := 0;
    var last := |bytes| - size;
    k := 0;
    while it != last
      invariant k < |es| && it == Offset(k, size)
      invariant f.Valid()
      invariant f.buf.data == data0 || fresh(f.buf.data)
      invariant f.text == prefix + Leading(es, cb, k)
      decreases |es| - k
    {
      ElementStep(bytes, es, size, cb, k);
      var elem := bytes[it..it + size];
      assert elem == es[k];
      RenderThen(f, elem, cb, SEP);
      AppendAssoc(prefix, Leading(es, cb, k), Render(cb, es[k]) + SEP);
      it := it + size;
      k := k + 1;
    }
  }

  /**
   * The end of `fmt_dynarray`, once `it` has reached `last`: `cb(f, last)`,
   * then the closing bracket.
   */
  method CloseFormat(f: CString, bytes: seq<bv8>, size: nat, cb: Formatter, ghost k: nat, ghost prefix: seq<bv8>)
    requires size > 0 && |bytes| >= size && |bytes| % size == 0
    requires k < |Chunks(bytes, size)| && Offset(k, size) == |bytes| - size
    requires f.Valid() && f.text == prefix + Leading(Chunks(bytes, size), cb, k)
    requires |prefix| + |Joined(Chunks(bytes, size), cb)| + |CLOSE| < MAX_LEN
    modifies f, f.buf, f.buf.data
    ensures f.Valid()
    ensures f.text == prefix + (Joined(Chunks(bytes, size), cb) + CLOSE)
    ensures f.buf.data == old(f.buf.data) || fresh(f.buf.data)
  {
    ghost var es := Chunks(bytes, size);
    LastStep(bytes, size, cb, k);
    var elem := bytes[|bytes| - size..];
    assert elem == es[k];
    assert |Joined(es, cb)| == |Leading(es, cb, k)| + |Render(cb, es[k])|;
    ghost var lead := Leading(es, cb, k);
    RenderThen(f, elem, cb, CLOSE);
    assert f.text == prefix + lead + (Render(cb, es[k]) + CLOSE);
    AppendAssoc(prefix, lead, Render(cb, es[k]) + CLOSE);
    AppendAssoc(lead, Render(cb, es[k]), CLOSE);
  }
}
