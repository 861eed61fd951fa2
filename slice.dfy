/**
 * `slice` (include/slice.c, include/slice.h): a non-owning `[begin, end)`
 * byte range over someone else's storage, passed by value. The two pointers
 * are byte offsets into that storage here.
 */
module Slices {
  import opened Types
  import opened Arith
  import opened Bytes

  datatype Slice = Slice(begin: nat, end: nat)

  /** `slice_new`: keeps both bounds as given. */
  function New(begin: nat, end: nat): (s: Slice)
    ensures s.begin == begin && s.end == end
  {
    Slice(begin, end)
  }

  /** `slice_begin` */
  function Begin(s: Slice): (p: nat)
    ensures p == s.begin
  {
    s.begin
  }

  /** `slice_end` */
  function End(s: Slice): (p: nat)
    ensures p == s.end
  {
    s.end
  }

  /** `slice_length`: the number of whole elements between the bounds, rounded down. */
  function Length(s: Slice, ty: Type): (n: nat)
    requires ty.size > 0 && s.begin <= s.end
    ensures n * ty.size <= s.end - s.begin < n * ty.size + ty.size
  {
    DivBounds(s.end - s.begin, ty.size);
    (s.end - s.begin) / ty.size
  }

  /**
   * `slice_get`: the offset of element `index` when it is below the length,
   * the out-of-bounds panic otherwise.
   */
  function Get(s: Slice, ty: Type, index: nat): (r: Access)
    requires ty.size > 0 && s.begin <= s.end
    ensures r.At? <==> index < Length(s, ty)
    ensures r.At? ==> r.offset == s.begin + index * ty.size && index * ty.size + ty.size <= s.end - s.begin
    ensures r.OutOfBounds? ==> r == OutOfBounds(Length(s, ty), index)
  {
    if index < Length(s, ty) then
      BelowQuotient(index, s.end - s.begin, ty.size);
      At(s.begin + index * ty.size)
    else
      OutOfBounds(Length(s, ty), index)
  }

  /**
   * Read against the storage `mem` it views, a slice's length is the number
   * of elements of `mem[begin..end]`, and `Get` addresses exactly element
   * `index` of that range.
   */
  lemma GetIsElement(s: Slice, ty: Type, index: nat, mem: seq<bv8>)
    requires ty.size > 0 && s.begin <= s.end <= |mem|
    requires Get(s, ty, index).At?
    ensures |Chunks(mem[s.begin..s.end], ty.size)| == Length(s, ty)
    ensures var p := Get(s, ty, index).offset;
      p + ty.size <= s.end && mem[p..p + ty.size] == Chunks(mem[s.begin..s.end], ty.size)[index]
  {
    var view := mem[s.begin..s.end];
    ChunkAt(view, ty.size, index);
    SliceOfSlice(mem, s.begin, s.end, index * ty.size, index * ty.size + ty.size);
  }
}
