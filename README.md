# Tcp: dynamic array, slices, UTF-8 strings and array formatting

This project models the self-contained C library code of the D0liphin/Tcp repository and proves properties about it. The model covers four pieces:

- **`struct dynarray`** (`include/dynarray.c`) is a type-erased growable byte buffer. It has `data`, `cap` and `len` fields, with both counts in bytes. Callers read it as elements of a `struct type` whose only field is the element size.
  - It is modelled as the class `DynArrays.DynArray`. Its backing store is an `array?<bv8>` of length `cap`, `null` while nothing has been allocated.
  - Every pointer the C code returns becomes a byte offset into that store.
  - A `PANIC` becomes the failure value `OutOfBounds` of `Types.Access`.
  - The capacity arithmetic (`dynarray_resize`, `minpow2`, `clzz`, the guard of `dynarray_next`) lives in the pure module `Growth`.
- **`struct slice`** (`include/slice.c`, `include/slice.h`) is a `[begin, end)` byte range passed by value. It is the datatype `Slices.Slice` with pure accessors.
- **`struct cstring`** (`include/cstring.c`) is a NUL-terminated UTF-8 string kept in a byte `dynarray`.
  - It is the class `CStrings.CString`. Its ghost `text` is the visible content.
  - Its invariant `Valid()` has three parts:
    - the buffer holds exactly `text` followed by one `0` byte;
    - the buffer is a valid `dynarray`;
    - the capacity is at most four times the length.
  - `encode_utf8` is the pure function `Utf8.EncodeUtf8`. A reference decoder `Utf8.Decode` is its partner (section 3 of RFC 3629).
- **`fmt_dynarray`** (`include/fmt.c`) appends `"{ "`, the callback's rendering of each element separated by `", "`, and then `" }"` to a `cstring`.
  - It is the method `Fmt.FmtDynarray`.
  - The specification functions `Fmt.Joined` and `Fmt.Format` are written over the list of elements, `Bytes.Chunks(contents, size)`.
  - The callback is a pure function from an element's bytes to the bytes it appends (`Fmt.Formatter`).

The module `Scenarios` restates the repository's tests and usage examples (`tests/*.c`, `include/dynarray.h`) as methods and lemmas about the model.

`size_t` is an unbounded `nat`. Where the C code could overflow, the model states a `requires` bound instead of modelling wrap-around. `SIZE_MAX` is 2^64 - 1.

## Model

| member | source | states |
|---|---|---|
| `Types.TypeNew` | include/dynarray.c:4-9 | the descriptor built for a size carries exactly that size |
| `Growth.Pow2Top` | include/dynarray.c:78 | 2^64 is `SIZE_MAX + 1`, and the top bit of a `size_t` is 2^63 |
| `Growth.Clz` | include/dynarray.c:55-70 | for `1 <= n <= SIZE_MAX` the count `z` of leading zero bits is below 64, and `n` lies in [2^(63-z), 2^(64-z)) |
| `Growth.MinPow2` | include/dynarray.c:72-83 | for `1 <= n <= 2^63` the result is a power of two `r` with `n <= r < 2n` |
| `Growth.MinPow2IsLeast` | include/dynarray.c:72-83 | no power of two that is at least `n` lies below `minpow2(n)`: it is the least such power |
| `Growth.MinPow2OfPow2` | include/dynarray.c:79-80 | a power of two is its own `minpow2` |
| `Growth.ResizesDouble` | include/dynarray.c:34-50 | starting empty, `k + 1` calls of `dynarray_resize` give capacity `4 * size * 2^k`: the first sets `4 * size`, each later one doubles it |
| `Growth.NextFitsExactly` | include/dynarray.c:128-134 | after `dynarray_next` as written, the new slot lies inside the allocation if and only if at least `size` bytes were free, or the array was full and its capacity was 0 or at least `size` (so that one resize makes room) |
| `Growth.NextFitsMultiples` | include/dynarray.c:128-134 | when `cap` and `len` are multiples of `size`, `dynarray_next` as written always fits the new slot |
| `Growth.ResizedCapMultiple` | include/dynarray.c:34-50 | `dynarray_resize` turns a capacity that is a whole number of elements into another whole number of elements |
| `Growth.NextKeepsWhole` | include/dynarray.c:128-134 | on an array grown only by `dynarray_next`, the new slot fits, length and capacity stay whole numbers of elements, and the capacity stays at most four elements plus twice the length |
| `Growth.NextOverrunsAfterExtend` | include/dynarray.c:85-99 | `minpow2(12) == 16`, and with `cap 16, len 12` the guard `cap <= len` does not fire although 12 more bytes do not fit |
| `Growth.NextCheckedFits` | include/dynarray.c:128-134 | with the corrected guard `cap - len < size`, the new slot always fits and the capacity never shrinks |
| `Growth.GuardsAgreeForBytes` | include/dynarray.c:130 | for one-byte elements the written guard and the corrected one decide alike and give the same capacity |
| `Bytes.ChunkAt` | include/dynarray.c:168-176 | element `i` of a byte sequence read as elements of `size` bytes is the range `[i*size, i*size + size)` |
| `Bytes.ChunksAppend` | include/dynarray.c:128-134 | storing one whole element behind a buffer of whole elements appends exactly that element to the element view |
| `Bytes.ChunksLength` | include/dynarray.c:145-150 | the element view of a buffer has `len / size` elements |
| `Bytes.CStrLen` | include/cstring.c:71 | `strlen`: the index of the first NUL, with no NUL before it |
| `Bytes.CStrText` | include/cstring.c:71-72 | the range `[cstr, cstr + strlen(cstr))` holds no NUL and is followed by the terminator |
| `Bytes.CStrTextOfTerminated` | include/cstring.c:97-100 | a text without NUL followed by one NUL reads back as exactly that text |
| `DynArrays.DynArray.constructor` | include/dynarray.c:15-22 | `dynarray_new`: `data` is null, `cap == 0`, `len == 0`, the contents are empty, and nothing is allocated |
| `DynArrays.DynArray.Begin` | include/dynarray.c:24-27 | `dynarray_begin` is `data` itself, offset 0, and the occupied bytes start there |
| `DynArrays.DynArray.End` | include/dynarray.c:29-32 | `dynarray_end` lies `len` bytes after `dynarray_begin`, and the bytes between them are the contents |
| `DynArrays.DynArray.Resize` | include/dynarray.c:34-50 | `dynarray_resize` sets the capacity to `4 * size` when empty and doubles it otherwise; `len` and the contents are unchanged, and so are all old bytes of the store |
| `DynArrays.DynArray.ResizeToFit` | include/dynarray.c:85-99 | `dynarray_resize_to_fit` sets the capacity to `minpow2(cap + additional)`, which leaves room for `additional` more bytes; `len` and the old bytes are unchanged |
| `DynArrays.DynArray.NextUnchecked` | include/dynarray.c:101-107 | returns offset `old len` and adds `size` to `len`; the array stays valid exactly when the slot fitted, and then the contents are extended by that slot |
| `DynArrays.DynArray.ExtendUnchecked` | include/dynarray.c:109-115 | with enough room, appends the source bytes and leaves the capacity unchanged |
| `DynArrays.DynArray.Extend` | include/dynarray.c:117-126 | `dynarray_extend` appends the source bytes after the old ones; the capacity is kept when the free room suffices and is otherwise `minpow2(cap + n)` |
| `DynArrays.DynArray.Next` | include/dynarray.c:128-134 | `dynarray_next` as written: returns offset `old len`, adds `size` to `len`, grows by `dynarray_resize` exactly when `cap <= len`; `len <= cap` still holds if and only if the slot fitted |
| `DynArrays.DynArray.NextChecked` | include/dynarray.c:128-134 | corrected `dynarray_next` (guard `cap - len < size`): same result and `len` update, and the array is always still valid |
| `DynArrays.DynArray.Pop` | include/dynarray.c:136-143 | `dynarray_pop`: `None` and nothing changes when empty; otherwise `len` drops by `size`, the returned offset is the new `len`, and the bytes there are the former last element; the capacity never changes |
| `DynArrays.DynArray.Length` | include/dynarray.c:145-150 | `dynarray_length` is `len / size`, the number of whole elements |
| `DynArrays.DynArray.Capacity` | include/dynarray.c:152-156 | `dynarray_capacity` is `cap / size` |
| `DynArrays.DynArray.Get` | include/dynarray.c:168-176 | `dynarray_get(i)` is offset `i * size` if and only if `i < len / size` (that element is inside `len`); otherwise it is the out-of-bounds panic |
| `DynArrays.DynArray.GetIsElement` | include/dynarray.c:168-172 | the offset `dynarray_get` returns addresses exactly element `i` of the contents |
| `Slices.New` | include/slice.c:27-33 | `slice_new` keeps both bounds as given |
| `Slices.Begin` | include/slice.c:7-10 | `slice_begin` returns the stored begin |
| `Slices.End` | include/slice.c:12-15 | `slice_end` returns the stored end |
| `Slices.Length` | include/slice.h:43-46 | `slice_length` is `floor((end - begin) / size)` |
| `Slices.Get` | include/slice.c:17-25 | `slice_get(i)` is `begin + i * size`, with the element inside the range, if and only if `i` is below the length; otherwise it is the out-of-bounds panic with that length and index |
| `Slices.GetIsElement` | include/slice.c:17-21 | against the storage it views, `slice_get(i)` addresses exactly element `i` of `[begin, end)` |
| `Utf8.EncodeUtf8` | include/cstring.c:34-56 | `encode_utf8` writes between one and four bytes |
| `Utf8.EncodedLength` | include/cstring.c:34-56 | the length is 1, 2, 3 or 4 for codepoints below 0x80, below 0x800, below 0x10000, or otherwise |
| `Utf8.AsciiIsItself` | include/cstring.c:37-39 | a codepoint below 0x80 encodes to the single byte of its value |
| `Utf8.EncodeWellFormed` | include/cstring.c:34-56 | up to 0x1FFFFF, the lead byte is `0xxxxxxx`, `110xxxxx`, `1110xxxx` or `11110xxx` as the length requires, and every later byte is `10xxxxxx` |
| `Utf8.Payload2OfEncoded` | include/cstring.c:40-43 | the payload bits of the two-byte form give back the codepoint |
| `Utf8.Payload3OfEncoded` | include/cstring.c:44-48 | the payload bits of the three-byte form give back the codepoint |
| `Utf8.Payload4OfEncoded` | include/cstring.c:49-55 | the payload bits of the four-byte form give back any codepoint up to 0x10FFFF |
| `Utf8.DecodeEncode` | include/cstring.c:25-56 | for codepoints up to `UTF8MAX` the output is well formed, and decoding it gives back the codepoint |
| `Utf8.EncodeDecode` | include/cstring.c:34-56 | every well-formed shortest-form sequence of a codepoint up to 0x10FFFF is what `encode_utf8` writes for that codepoint |
| `Utf8.EncodeDecodeTwo` | include/cstring.c:40-43 | each well-formed shortest two-byte sequence is the encoding of its codepoint |
| `Utf8.EncodeDecodeThree` | include/cstring.c:44-48 | each well-formed shortest three-byte sequence is the encoding of its codepoint |
| `Utf8.EncodeDecodeFour` | include/cstring.c:49-55 | each well-formed shortest four-byte sequence is the encoding of its codepoint |
| `CStrings.CString.Is` | include/cstring.c:16-22 | `cstring_is(s)` builds a valid string whose text is the bytes of `s` before its NUL |
| `CStrings.CString.New` | include/cstring.c:6-9 | `cstring_new` builds a valid string with empty text, so its buffer is exactly `[0]` |
| `CStrings.CString.AppendByte` | include/cstring.c:89 | storing through `dynarray_next` appends exactly that byte, and the capacity is kept when there was room; the step calls the corrected guard, which for one-byte elements decides exactly as the written one (`Growth.GuardsAgreeForBytes`) |
| `CStrings.CString.Extend` | include/cstring.c:85-90 | `cstring_extend`: the text becomes the old text followed by the source bytes, and the buffer again ends in its single NUL |
| `CStrings.CString.ExtendCStr` | include/cstring.c:69-73 | `cstring_extend_cstr`: the text is extended by the bytes of the C string before its NUL |
| `CStrings.CString.Push` | include/cstring.c:58-67 | `cstring_push`: the text becomes the old text followed by `encode_utf8(ch)`, and the buffer again ends in its single NUL |
| `CStrings.CString.AppendEach` | include/cstring.c:63-65 | the loop of `cstring_push` appends all encoded bytes, in order, to the buffer |
| `CStrings.CString.AppendNext` | include/cstring.c:64 | one iteration of that loop appends `out[i]` and keeps the loop's invariant |
| `CStrings.CString.AsCStr` | include/cstring.c:97-100 | `cstring_as_cstr` is the text followed by NUL; read as a C string it is the text whenever the text holds no NUL |
| `Fmt.JoinedSplit` | include/fmt.c:65-68 | the rendering of the elements splits after any element `k` into what the loop has appended so far and the rest |
| `Fmt.JoinedIsLeadingThenLast` | include/fmt.c:63-69 | the elements are the loop's output for all but the last, followed by the last element's rendering |
| `Fmt.JoinedAppend` | include/fmt.c:65-69 | one more element adds one separator and its rendering at the end |
| `Fmt.FormatSingle` | include/fmt.c:56-71 | a single element formats as `"{ " r(e0) " }"` |
| `Fmt.FormatLength` | include/fmt.c:56-71 | the output length is the sum of the renderings plus `n - 1` separators and the two braces |
| `Fmt.JoinedLength` | include/fmt.c:65-69 | exactly `n - 1` separators come between the `n` renderings |
| `Fmt.OffsetIsProduct` | include/fmt.c:65 | stepping `it` by `size`, `k` times, reaches offset `k * size` |
| `Fmt.FirstStep` | include/fmt.c:63-64 | `last` is the offset of the last element, and nothing has been rendered before the loop |
| `Fmt.ElementStep` | include/fmt.c:65-67 | while `it != last`, `it` addresses element `k`, which is not the last, and its rendering fits the output |
| `Fmt.LastStep` | include/fmt.c:69 | when `it == last`, `it` is the last element, and rendering it completes the joined output |
| `Fmt.RenderThen` | include/fmt.c:66-67 | a callback call followed by appending a separator adds exactly the rendering and the separator to the text |
| `Fmt.RenderLeading` | include/fmt.c:63-68 | the loop calls the callback once per element except the last, in index order, on the bytes at offset `k * size`, each followed by `", "` |
| `Fmt.CloseFormat` | include/fmt.c:69-71 | rendering the last element and appending `" }"` completes the formatted text |
| `Fmt.FmtDynarray` | include/fmt.c:53-72 | for a non-empty array, the text of `f` becomes its old text followed by `"{ "`, the renderings joined by `", "`, and `" }"`; the array is unchanged |
| `Scenarios.CStringExtends` | tests/test_cstring.c:4-12 | `cstring_is("Hello, ")` extended by `"世界!"` holds the same bytes as `cstring_is("Hello, 世界!")` |
| `Scenarios.HelloExtended` | tests/test_cstring.c:6-7 | `cstring_is("Hello, ")` then `cstring_extend_cstr("世界!")` has the text `"Hello, 世界!"` |
| `Scenarios.HelloWorld` | tests/test_cstring.c:8 | `cstring_is("Hello, 世界!")` has that text |
| `Scenarios.CStringPushes` | tests/test_cstring.c:14-22 | pushing 世, 界 and ! onto `"Hello, "` reads back as the C string `"Hello, 世界!"` |
| `Scenarios.EncodesWorld` | tests/test_cstring.c:17-19 | the UTF-8 encodings of U+4E16, U+754C and U+0021 are the bytes of `"世界!"` |
| `Scenarios.OneTwoThreeFormats` | tests/test_fmt.c:10-14 | the elements 1, 2, 3 formatted with the integer renderer give exactly `"{ 1, 2, 3 }"` |
| `Scenarios.OneTwoThree` | tests/test_fmt.c:10 | the array built for the test holds the three 4-byte little-endian ints 1, 2, 3 |
| `Scenarios.IntArrayFormats` | tests/test_fmt.c:8-18 | building the array 1, 2, 3 and calling `fmt_dynarray` on `cstring_new()` reads back as `"{ 1, 2, 3 }"` |
| `Scenarios.PopAll` | tests/test_dynarray.c:12-15 | popping until empty returns the elements in reverse order and keeps the capacity |
| `Scenarios.PopOne` | tests/test_dynarray.c:13 | one pop returns the current last element and leaves the elements before it |
| `Scenarios.ChunksFlatten` | tests/test_dynarray.c:6-7 | the bytes of an `int[10]` read back as its ten elements |
| `Scenarios.ExtendThenPopTen` | tests/test_dynarray.c:5-16 | extending with 1, 2, 4, 4, 5, 6, 7, 8, 9, 10 and popping ten times yields 10, 9, 8, 7, 6, 5, 4, 4, 2, 1 |
| `Scenarios.NextThenPop` | include/dynarray.h:152-178 | `dynarray_pop` undoes a store through `dynarray_next`: on an array of whole elements, popping returns the stored element and restores the contents |
| `Scenarios.NextEach` | include/dynarray.h:164-168 | from `dynarray_new`, storing `n` elements each through its own `dynarray_next` leaves exactly those elements, length `n` and capacity at least `n` |
| `Scenarios.PushNext` | include/dynarray.h:166-167 | one step of that loop stores the next element behind the ones already stored and keeps the loop's invariant |
| `Scenarios.PushElement` | include/dynarray.h:167 | `*(T *)dynarray_next(&arr, ty) = value` on an array grown only by `dynarray_next` appends the value as the new last element and keeps length and capacity whole elements |
| `Scenarios.StoreLast` | include/dynarray.h:167 | the caller's write through the slot `dynarray_next` returned replaces the last bytes of the contents by the value and changes nothing else |
| `Scenarios.PopElement` | include/dynarray.h:173-178 | a pop of a non-empty array returns its last element, and the remaining contents followed by it are the old contents |
| `Scenarios.NextOverruns` | include/dynarray.c:128-134 | a new array extended by 12 bytes, then `dynarray_next` with a 12-byte type, ends with `len == 24 > cap == 16` |

## Left out

- Memory management: `malloc`/`realloc` failure and the panic after it, and `dynarray_free`, are not modelled.
  - Allocation always succeeds.
  - `realloc` always yields a fresh array holding the old bytes.
- Pointer aliasing, `restrict` and the non-overlap condition of `memcpy` are not modelled. Byte offsets stand in for pointers, and the source of an extend is a value.
- `size_t` overflow is excluded by `requires` bounds rather than modelled.
  - `dynarray_resize`, `dynarray_next` and `dynarray_extend` require that the new capacity fits in `size_t`.
  - `minpow2` requires `cap + additional <= 2^63`.
  - Strings stay below `MAX_LEN` bytes (2^60).
- `clzz` is modelled by its meaning (the leading zero count of a nonzero `size_t`), not by its platform `#if` branches. The fallback loop starts its mask at bit `sizeof(size_t) - 1`, that is bit 7 rather than bit 63. It therefore inspects only the low byte: for 0, and for any `n` whose low byte is 0, it returns 8.
- The debug `printf` in `dynarray_length` is I/O and is not modelled.
- The integer formatters `fmt_int` … `fmt_uintmax_uhex` wrap `snprintf` and are not modelled. `fmt_dynarray` takes any `Formatter`. `Scenarios.FmtInt` is a stand-in decimal renderer for a little-endian 32-bit two's-complement `int`, used only by the test scenario.
- `Fmt.FmtDynarray`: requires a non-empty array with a whole number of elements. The model gives no recovery for either excluded case.
  - On an empty array the source appends `" }"` and then computes `last = end - size`, an offset before `begin`, so its behaviour is undefined.
  - When `len` is not a multiple of `size`, the loop `it != last` (include/fmt.c:65) steps over `last` and never stops. The whole-element requirement is what makes the model's loop terminate.
- `DynArrays.DynArray.Pop`: requires `len == 0 || size <= len`. With `0 < len < size` the source's `len -= size` wraps around, and that case is not modelled.
- `DynArrays.DynArray.NextChecked`: additionally requires `cap == 0 || size <= cap`, which a capacity built by `dynarray_resize` for that size or by byte strings always meets.
- `CStrings.CString.Extend`: requires the text to stay below `MAX_LEN`. `Push` and `ExtendCStr` have the same requirement.
- `CStrings.CString.AppendByte`: states the new capacity as a bound (kept, or at most about twice the new length) instead of the exact doubling.
- `Utf8.EncodeUtf8`: all 32-bit inputs are modelled with the source's truncating byte casts. The round-trip lemmas hold only up to 0x10FFFF, and the well-formedness lemma up to 0x1FFFFF. UTF-8 forbids surrogates, but the encoder accepts them, and so does the model.
- `Slices.Length`: requires `begin <= end`. The source (include/slice.h:45) casts both pointers to `size_t` and subtracts them. For a reversed slice the difference wraps around, which gives a huge length, and that case is not modelled.
- `cstring_eq`, `cstr_eq`, `cstring_get`, `cstring_as_str` and the unimplemented `TODO()` functions of `include/cstring.c` are not modelled. They depend on helpers outside the code shown or have no behaviour yet. The scenarios compare byte sequences directly.
- `src/main.c`, `include/assert.c` and `include/assert.h` are a demo and a test harness that print. They are not part of this model.

## Findings

| source | as written | input that shows it | evidently intended | confidence | as-written member | corrected member |
|---|---|---|---|---|---|---|
| include/dynarray.c:128-134 | `dynarray_next` grows only when `cap <= len`. After `dynarray_extend` the capacity is a power of two, not a multiple of the element size, so a partly free tail can be smaller than one element. | a new array with element size 12, extended by 12 bytes: `cap = minpow2(12) = 16` and `len = 12`. Then `dynarray_next` does not grow the array and sets `len = 24 > cap = 16`, so the caller's store overruns the allocation. | grow whenever the free room `cap - len` is smaller than `size` | not executed | `DynArrays.DynArray.Next`, `Scenarios.NextOverruns` | `DynArrays.DynArray.NextChecked`, `Growth.NextCheckedFits` |
