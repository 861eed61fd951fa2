/**
 * `struct dynarray` (include/dynarray.c): an untyped, growable byte buffer
 * read as elements of a size the caller passes to every operation. Pointers
 * the C code returns are byte offsets into `data` here.
 */
module DynArrays {
  import opened Types
  import opened Arith
  import opened Bytes
  import opened Growth

  class DynArray {
    /** The allocation: `NULL` until the first growth, afterwards exactly `cap` bytes. */
    var data: array?<bv8>
    /** Capacity in bytes. */
    var cap: nat
    /** Length in bytes. */
    var len: nat

    /** The layout every operation keeps: an allocation of `cap` bytes and the occupied bytes inside it. */
    ghost predicate Valid()
      reads this
    {
      && (data == null <==> cap == 0)
      && (data != null ==> data.Length == cap)
      && len <= cap
    }

    /** Every allocated byte, occupied or not. */
    ghost function Store(): seq<bv8>
      reads this, data
    {
      if data == null then [] else data[..]
    }

    /** The occupied bytes `[0, len)`. */
    function Contents(): (s: seq<bv8>)
      reads this, data
      requires Valid()
      ensures |s| == len && s == Store()[..len]
    {
      if data == null then [] else data[..len]
    }

    /** `dynarray_new`: empty, and nothing is allocated. */
    constructor ()
      ensures Valid() && data == null && cap == 0 && len == 0
      ensures Contents() == []
    {
      data := null;
      cap := 0;
      len := 0;
    }

    /** `dynarray_begin`: `data` itself, the start of the allocation, where the occupied bytes start. */
    function Begin(): (p: nat)
      reads this, data
      requires Valid()
      ensures p == 0
      ensures p + len <= |Store()| && Store()[p..p + len] == Contents()
    {
      0
    }

    /** `dynarray_end`: one past the occupied bytes, so `end - begin` is the byte length. */
    function End(): (p: nat)
      reads this, data
      requires Valid()
      ensures p - Begin() == len && Store()[Begin()..p] == Contents()
    {
      len
    }

    /**
     * `dynarray_resize`: four elements when nothing is allocated, otherwise
     * double; `realloc` keeps every allocated byte.
     */
    method Resize(ty: Type)
      requires Valid() && ty.size > 0
      requires ResizedCap(cap, ty.size) <= SIZE_MAX
      modifies this
      ensures Valid() && fresh(data)
      ensures cap == ResizedCap(old(cap), ty.size) && cap > old(cap)
      ensures len == old(len)
      ensures Store()[..old(cap)] == old(Store())
      ensures Contents() == old(Contents())
    {
      var newcap: nat;
      if cap > 0 {
        newcap := cap * 2;
      } else {
        newcap := DYN_ARRAY_MIN_CAP * ty.size;
      }
      var kept := if data == null then [] else data[..];
      data := new bv8[newcap](i => if 0 <= i < |kept| then kept[i] else 0);
      cap := newcap;
      assert data[..|kept|] == kept;
    }

    /**
     * `dynarray_resize_to_fit`: the capacity becomes the least power of two
     * that holds the old capacity plus `additional` bytes.
     */
    method ResizeToFit(additional: nat)
      requires Valid()
      requires 1 <= cap + additional <= Pow2(SIZE_BITS - 1)
      modifies this
      ensures Valid() && fresh(data)
      ensures cap == MinPow2(old(cap) + additional)
      ensures cap >= old(len) + additional
      ensures len == old(len)
      ensures Store()[..old(cap)] == old(Store())
      ensures Contents() == old(Contents())
    {
      var newcap := MinPow2(cap + additional);
      if cap == 0 {
        data := new bv8[newcap];
      } else {
        var kept := data[..];
        data := new bv8[newcap](i => if 0 <= i < |kept| then kept[i] else 0);
        assert data[..|kept|] == kept;
      }
      cap := newcap;
    }

    /**
     * `dynarray_next_unchecked`: claims the next `size` bytes without looking
     * at the capacity; the layout survives only if they were allocated.
     */
    method NextUnchecked(ty: Type) returns (next: nat)
      requires Valid()
      modifies this`len
      ensures next == old(len) && len == old(len) + ty.size
      ensures Valid() <==> len <= cap
      ensures Valid() ==> Contents() == old(Contents()) + Store()[next..len]
    {
      next := End();
      len := len + ty.size;
    }

    /**
     * `dynarray_extend_unchecked`: copies `src` behind the occupied bytes;
     * the caller guarantees the room.
     */
    method ExtendUnchecked(src: seq<bv8>)
      requires Valid() && len + |src| <= cap
      modifies this`len, data
      ensures Valid()
      ensures Contents() == old(Contents()) + src
    {
      var end := End();
      forall i | 0 <= i < |src| {
        data[end + i] := src[i];
      }
      len := len + |src|;
      assert Contents() == old(Contents()) + src by {
        assert forall k :: 0 <= k < old(len) ==> data[k] == old(data[k]);
      }
    }

    /**
     * `dynarray_extend`: appends the bytes of `[begin, end)`, first growing to
     * fit when the remaining capacity is too small.
     */
    method Extend(src: seq<bv8>)
      requires Valid()
      requires |src| <= cap - len || cap + |src| <= Pow2(SIZE_BITS - 1)
      modifies this, data
      ensures Valid()
      ensures Contents() == old(Contents()) + src
      ensures cap == if |src| <= old(cap - len) then old(cap) else MinPow2(old(cap) + |src|)
      ensures data == old(data) || fresh(data)
    {
      var bufSize := |src|;
      var remainingCapacity := cap - len;
      if remainingCapacity < bufSize {
        ResizeToFit(bufSize);
      }
      ExtendUnchecked(src);
    }

    /**
     * `dynarray_next` as written: resizes only when the array is full, then
     * claims `size` bytes. The claimed slot is inside the allocation only in
     * the cases `Growth.NextFitsExactly` lists.
     */
    method Next(ty: Type) returns (next: nat)
      requires Valid() && ty.size > 0
      requires NextGrows(cap, len) ==> ResizedCap(cap, ty.size) <= SIZE_MAX
      modifies this
      ensures next == old(len) && len == old(len) + ty.size
      ensures cap == NextCap(old(cap), old(len), ty.size)
      ensures data == old(data) || fresh(data)
      ensures Valid() <==> len <= cap
      ensures Valid() ==> Contents() == old(Contents()) + Store()[next..len]
    {
      if cap <= len {
        Resize(ty);
      }
      next := NextUnchecked(ty);
    }

    /**
     * `dynarray_next` with its guard corrected: resizes when less than one
     * element of room is left. The claimed slot then always lies inside the
     * allocation.
     */
    method NextChecked(ty: Type) returns (next: nat)
      requires Valid() && ty.size > 0
      requires cap == 0 || ty.size <= cap
      requires NextGrowsChecked(cap, len, ty.size) ==> ResizedCap(cap, ty.size) <= SIZE_MAX
      modifies this
      ensures Valid()
      ensures next == old(len) && len == old(len) + ty.size
      ensures cap == NextCapChecked(old(cap), old(len), ty.size)
      ensures data == old(data) || fresh(data)
      ensures Contents() == old(Contents()) + Store()[next..len]
    {
      NextCheckedFits(cap, len, ty.size);
      if cap - len < ty.size {
        Resize(ty);
      }
      next := NextUnchecked(ty);
    }

    /**
     * `dynarray_pop`: on a non-empty array, drops the last element and
     * returns its offset, where its bytes still are; on an empty array,
     * returns `NULL` and changes nothing. The capacity never changes.
     */
    method Pop(ty: Type) returns (popped: Option<nat>)
      requires Valid()
      requires len == 0 || ty.size <= len
      modifies this`len
      ensures Valid()
      ensures old(len) == 0 ==> popped == None && len == 0
      ensures old(len) > 0 ==> popped == Some(len) && len == old(len) - ty.size
      ensures Contents() == old(Contents())[..len]
      ensures popped.Some? ==> Store()[popped.value..old(len)] == old(Contents())[len..]
    {
      if len > 0 {
        len := len - ty.size;
        return Some(len);
      }
      return None;
    }

    /** `dynarray_length`: the number of whole elements in the occupied bytes. */
    function Length(ty: Type): (n: nat)
      reads this
      requires ty.size > 0
      ensures n * ty.size <= len < n * ty.size + ty.size
    {
      DivBounds(len, ty.size);
      len / ty.size
    }

    /** `dynarray_capacity`: the number of whole elements the allocation holds. */
    function Capacity(ty: Type): (n: nat)
      reads this
      requires ty.size > 0
      ensures n * ty.size <= cap < n * ty.size + ty.size
    {
      DivBounds(cap, ty.size);
      cap / ty.size
    }

    /**
     * `dynarray_get`: the offset of element `index` when it is below the
     * length, the out-of-bounds panic otherwise.
     */
    function Get(ty: Type, index: nat): (r: Access)
      reads this
      requires ty.size > 0
      ensures r.At? <==> index < Length(ty)
      ensures r.At? ==> r.offset == index * ty.size && r.offset + ty.size <= len
      ensures r.OutOfBounds? ==> r == OutOfBounds(Length(ty), index) && len < index * ty.size + ty.size
    {
      if index < Length(ty) then
        BelowQuotient(index, len, ty.size);
        At(index * ty.size)
      else
        AtOrAboveQuotient(index, len, ty.size);
        OutOfBounds(Length(ty), index)
    }

    /** The bytes at the offset `Get` returns are element `index` of the contents. */
    lemma GetIsElement(ty: Type, index: nat)
      requires Valid() && ty.size > 0
      requires Get(ty, index).At?
      ensures index < |Chunks(Contents(), ty.size)| == Length(ty)
      ensures Contents()[Get(ty, index).offset..Get(ty, index).offset + ty.size]
              == Chunks(Contents(), ty.size)[index]
    {
      ChunkAt(Contents(), ty.size, index);
    }
  }
}
