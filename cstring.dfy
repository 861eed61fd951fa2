/**
 * `struct cstring` (include/cstring.c): an owned UTF-8 string kept in a byte
 * `dynarray` whose last occupied byte is always the NUL terminator.
 */
module CStrings {
  import opened Types
  import opened Bytes
  import opened Growth
  import opened DynArrays
  import opened Utf8

  /** `TYPEINFO(uint8_t)`: the element type of the buffer. */
  const U8: Type := Type(1)

  /**
   * The longest text the model lets a string reach. It keeps every size the
   * buffer computes far below `SIZE_MAX`.
   */
  const MAX_LEN: nat := 0x1000_0000_0000_0000

  class CString {
    /** The bytes of the text followed by the terminator. */
    const buf: DynArray
    /** The text: the occupied bytes before the terminator. */
    ghost var text: seq<bv8>

    /**
     * A string in use: the buffer holds the text and then the terminator, and
     * its capacity stays within a constant factor of its length (the growth
     * policy never more than quadruples it).
     */
    ghost predicate Valid()
      reads this, buf, buf.data
    {
      && buf.Valid()
      && buf.cap <= 4 * buf.len
      && buf.Contents() == text + [0]
    }

    /** The state `cstring_is` starts from: a fresh `dynarray_new`, no terminator yet. */
    ghost predicate Empty()
      reads this, buf
    {
      buf.Valid() && buf.len == 0 && buf.cap == 0 && text == []
    }

    /** `cstring_is`: an empty buffer extended by the text of `cstr`. */
    constructor Is(cstr: seq<bv8>)
      requires 0 in cstr && CStrLen(cstr) < MAX_LEN
      ensures Valid() && fresh(buf) && fresh(buf.data)
      ensures text == CStrText(cstr)
    {
      buf := new DynArray();
      text := [];
      new;
      ExtendCStr(cstr);
    }

    /** `cstring_new`: `cstring_is("")`, the empty text. */
    constructor New()
      ensures Valid() && fresh(buf) && fresh(buf.data)
      ensures text == []
    {
      buf := new DynArray();
      text := [];
      new;
      ExtendCStr([0]);
    }

    /**
     * `*(uint8_t *)dynarray_next(&self->buf, TYPEINFO(uint8_t)) = b`: claims
     * one more byte, growing the buffer when it is full, and stores `b` there.
     */
    method AppendByte(b: bv8)
      requires buf.Valid() && buf.cap < MAX_LEN * 8
      modifies buf, buf.data
      ensures buf.Valid()
      ensures buf.Contents() == old(buf.Contents()) + [b]
      ensures old(buf.len) < old(buf.cap) ==> buf.cap == old(buf.cap)
      ensures buf.cap == old(buf.cap) || buf.cap <= 2 * buf.len + 2
      ensures buf.data == old(buf.data) || fresh(buf.data)
    {
      ghost var before := buf.Contents();
      GuardsAgreeForBytes(buf.cap, buf.len);
      var p := buf.NextChecked(U8);
      buf.data[p] := b;
      assert buf.Contents()[..p] == before;
      assert buf.Contents() == before + [b];
    }

    /**
     * `cstring_extend`: pops the terminator, appends the bytes of
     * `[begin, end)` and writes a new terminator behind them. On the fresh
     * buffer `cstring_is` passes, the pop finds nothing and does nothing.
     */
    method Extend(src: seq<bv8>)
      requires Valid() || Empty()
      requires |text| + |src| < MAX_LEN
      modifies this, buf, buf.data
      ensures Valid()
      ensures text == old(text) + src
      ensures buf.data == old(buf.data) || fresh(buf.data)
    {
      var popped := buf.Pop(U8);
      assert buf.Contents() == text;
      Pow2Top();
      buf.Extend(src);
      AppendByte(0);
      text := text + src;
    }

    /** `cstring_extend_cstr`: extends by the bytes of `cstr` before its NUL. */
    method ExtendCStr(cstr: seq<bv8>)
      requires Valid() || Empty()
      requires 0 in cstr && |text| + CStrLen(cstr) < MAX_LEN
      modifies this, buf, buf.data
      ensures Valid()
      ensures text == old(text) + CStrText(cstr)
      ensures buf.data == old(buf.data) || fresh(buf.data)
    {
      Extend(CStrText(cstr));
    }

    /**
     * `cstring_push`: pops the terminator, appends the UTF-8 encoding of `ch`
     * one byte at a time, then a new terminator.
     */
    method Push(ch: bv32)
      requires Valid() && |text| + 4 < MAX_LEN
      modifies this, buf, buf.data
      ensures Valid()
      ensures text == old(text) + EncodeUtf8(ch)
      ensures buf.data == old(buf.data) || fresh(buf.data)
    {
      var out := EncodeUtf8(ch);
      var popped := buf.Pop(U8);
      assert buf.Contents() == text;
      AppendEach(out);
      AppendByte(0);
      text := text + out;
    }

    /** The loop of `cstring_push`: appends the encoded bytes one `dynarray_next` at a time. */
    method AppendEach(out: seq<bv8>)
      requires buf.Valid() && |out| <= 4
      requires buf.len + 4 < MAX_LEN && buf.cap <= 4 * buf.len + 4
      modifies buf, buf.data
      ensures buf.Valid() && buf.len == old(buf.len) + |out|
      ensures buf.cap <= 4 * old(buf.len) + 4 || buf.cap <= 2 * buf.len + 2
      ensures buf.Contents() == old(buf.Contents()) + out
      ensures buf.data == old(buf.data) || fresh(buf.data)
    {
      ghost var before := buf.Contents();
      ghost var start := buf.len;
      for i := 0 to |out|
        invariant Appended(before, start, out, i)
        invariant buf.data == old(buf.data) || fresh(buf.data)
      {
        AppendNext(before, start, out, i);
      }
      assert out[..|out|] == out;
    }

    /** What the loop of `cstring_push` has done after its `i`th step. */
    ghost predicate Appended(before: seq<bv8>, start: nat, out: seq<bv8>, i: nat)
      reads this, buf, buf.data
    {
      && |out| <= 4 && i <= |out| && start + 4 < MAX_LEN
      && buf.Valid() && buf.len == start + i
      && (buf.cap <= 4 * start + 4 || buf.cap <= 2 * buf.len + 2)
      && buf.Contents() == before + out[..i]
    }

    /** One step of the loop of `cstring_push`: appends `out[i]`. */
    method AppendNext(ghost before: seq<bv8>, ghost start: nat, out: seq<bv8>, i: nat)
      requires Appended(before, start, out, i) && i < |out|
      modifies buf, buf.data
      ensures Appended(before, start, out, i + 1)
      ensures buf.data == old(buf.data) || fresh(buf.data)
    {
      AppendByte(out[i]);
      assert out[..i + 1] == out[..i] + [out[i]];
      AppendAssoc(before, out[..i], [out[i]]);
    }

    /**
     * `cstring_as_cstr`: the bytes from the start of the buffer. They are the
     * text and the terminator, and when the text holds no NUL of its own,
     * reading them as a C string gives exactly the text.
     */
    function AsCStr(): (s: seq<bv8>)
      reads this, buf, buf.data
      requires Valid()
      ensures s == text + [0]
      ensures 0 in s
      ensures 0 !in text ==> CStrText(s) == text
    {
      var s := buf.Contents();
      assert 0 !in text ==> CStrText(s) == text by {
        if 0 !in text {
          CStrTextOfTerminated(text);
        }
      }
      s
    }
  }
}
