/**
 * The repository's tests (tests/test_cstring.c, tests/test_fmt.c,
 * tests/test_dynarray.c) and the usage examples of include/dynarray.h,
 * replayed on the model with their expected results as postconditions.
 */
module Scenarios {
  import opened Types
  import opened Arith
  import opened Bytes
  import opened Growth
  import opened DynArrays
  import opened Utf8
  import opened CStrings
  import opened Fmt

  /** `"Hello, "` */
  const HELLO: seq<bv8> := [0x48, 0x65, 0x6C, 0x6C, 0x6F, 0x2C, 0x20]
  /** `"世界!"` in UTF-8: U+4E16, U+754C, `!`. */
  const WORLD: seq<bv8> := [0xE4, 0xB8, 0x96, 0xE7, 0x95, 0x8C, 0x21]

  /** The codepoints the test pushes: 世, 界 and `!`. */
  const SHI: bv32 := 0x4E16
  const JIE: bv32 := 0x754C
  const BANG: bv32 := 0x21

  /** Neither text holds a NUL of its own. */
  lemma NoNul()
    ensures 0 !in HELLO && 0 !in WORLD && 0 !in HELLO + WORLD
  {
  }

  /**
   * `cstring_extends`: `"Hello, "` extended by `"世界!"` holds the same
   * C string as `cstring_is("Hello, 世界!")`.
   */
  method CStringExtends() returns (s: CString, t: CString)
    ensures s.Valid() && t.Valid()
    ensures s.AsCStr() == t.AsCStr() == HELLO + WORLD + [0]
  {
    s := HelloExtended();
    t := HelloWorld();
  }

  /** `cstring_is("Hello, ")`, then `cstring_extend_cstr(&string, "世界!")`. */
  method HelloExtended() returns (s: CString)
    ensures s.Valid() && s.text == HELLO + WORLD
  {
    NoNul();
    CStrTextOfTerminated(HELLO);
    CStrTextOfTerminated(WORLD);
    s := new CString.Is(HELLO + [0]);
    s.ExtendCStr(WORLD + [0]);
  }

  /** `cstring_is("Hello, 世界!")` */
  method HelloWorld() returns (t: CString)
    ensures t.Valid() && t.text == HELLO + WORLD
  {
    NoNul();
    CStrTextOfTerminated(HELLO + WORLD);
    t := new CString.Is(HELLO + WORLD + [0]);
  }

  /**
   * `cstring_pushes`: pushing 世, 界 and `!` onto `"Hello, "` gives the C
   * string `"Hello, 世界!"`.
   */
  method CStringPushes() returns (s: CString)
    ensures s.Valid()
    ensures CStrText(s.AsCStr()) == HELLO + WORLD
  {
    NoNul();
    CStrTextOfTerminated(HELLO);
    s := new CString.Is(HELLO + [0]);
    s.Push(SHI);
    s.Push(JIE);
    s.Push(BANG);
    EncodesWorld();
    AppendAssoc(HELLO + EncodeUtf8(SHI), EncodeUtf8(JIE), EncodeUtf8(BANG));
    AppendAssoc(HELLO, EncodeUtf8(SHI), EncodeUtf8(JIE) + EncodeUtf8(BANG));
  }

  /** The three codepoints of the test encode to the bytes of `"世界!"`. */
  lemma EncodesWorld()
    ensures EncodeUtf8(SHI) + (EncodeUtf8(JIE) + EncodeUtf8(BANG)) == WORLD
  {
    assert EncodeUtf8(SHI) == [0xE4, 0xB8, 0x96];
    assert EncodeUtf8(JIE) == [0xE7, 0x95, 0x8C];
    assert EncodeUtf8(BANG) == [0x21];
  }

  /** The bytes of element `e` read as a little-endian unsigned number. */
  function Unsigned(e: seq<bv8>): nat {
    if e == [] then 0 else e[0] as nat + 256 * Unsigned(e[1..])
  }

  /** The ASCII digits `0` to `9`. */
  const DIGITS: seq<bv8> := [0x30, 0x31, 0x32, 0x33, 0x34, 0x35, 0x36, 0x37, 0x38, 0x39]

  /** The decimal digits of `n`, most significant first. */
  function Decimal(n: nat): (d: seq<bv8>)
    ensures |d| >= 1
  {
    if n < 10 then [DIGITS[n]] else Decimal(n / 10) + [DIGITS[n % 10]]
  }

  /**
   * `fmt_int` on a 32-bit little-endian `int`: `"%d"`, the two's complement
   * value in decimal with a leading `-` when negative.
   */
  function FmtInt(e: seq<bv8>): seq<bv8> {
    var u := Unsigned(e) % 0x1_0000_0000;
    if u < 0x8000_0000 then Decimal(u) else [0x2D] + Decimal(0x1_0000_0000 - u)
  }

  /** `DYNARRAY_IS(int, 1, 2, 3)`: three 4-byte little-endian `int`s. */
  const ONE_TWO_THREE: seq<bv8> := [1, 0, 0, 0, 2, 0, 0, 0, 3, 0, 0, 0]
  /** `"{ 1, 2, 3 }"` */
  const FORMATTED: seq<bv8> := [0x7B, 0x20, 0x31, 0x2C, 0x20, 0x32, 0x2C, 0x20, 0x33, 0x20, 0x7D]

  /** The elements of the test array, and their `fmt_int` renderings. */
  lemma OneTwoThreeElements()
    ensures Chunks(ONE_TWO_THREE, 4) == [[1, 0, 0, 0], [2, 0, 0, 0], [3, 0, 0, 0]]
  {
    var x := ONE_TWO_THREE;
    assert Chunks(x[12..], 4) == [];
    assert x[8..][..4] == [3, 0, 0, 0] && x[8..][4..] == x[12..];
    assert Chunks(x[8..], 4) == [[3, 0, 0, 0]];
    assert x[4..][..4] == [2, 0, 0, 0] && x[4..][4..] == x[8..];
    assert Chunks(x[4..], 4) == [[2, 0, 0, 0], [3, 0, 0, 0]];
    assert x[..4] == [1, 0, 0, 0];
  }

  /** A one-byte value with three zero bytes above it. */
  lemma UnsignedLow(b: bv8)
    ensures Unsigned([b, 0, 0, 0]) == b as nat
  {
    assert Unsigned([0]) == 0 + 256 * Unsigned([]);
    assert Unsigned([0, 0]) == 0 + 256 * Unsigned([0]);
    assert Unsigned([0, 0, 0]) == 0 + 256 * Unsigned([0, 0]);
    assert [b, 0, 0, 0][1..] == [0, 0, 0];
  }

  /** `fmt_int` on a one-digit value. */
  lemma DigitRenders(b: bv8)
    requires b < 10
    ensures FmtInt([b, 0, 0, 0]) == [DIGITS[b as nat]]
  {
    UnsignedLow(b);
    var u: nat := b as nat;
    assert u < 10;
    assert Unsigned([b, 0, 0, 0]) % 0x1_0000_0000 == u;
    assert Decimal(u) == [DIGITS[u]];
  }

  /** `fmt_int` on the three elements of the test. */
  lemma SmallIntsRender()
    ensures FmtInt([1, 0, 0, 0]) == [0x31]
    ensures FmtInt([2, 0, 0, 0]) == [0x32]
    ensures FmtInt([3, 0, 0, 0]) == [0x33]
  {
    DigitRenders(1);
    DigitRenders(2);
    DigitRenders(3);
  }

  /** `int_dynarray_formats`: `[1, 2, 3]` with `fmt_int` gives `"{ 1, 2, 3 }"`. */
  lemma OneTwoThreeFormats()
    ensures Format(Chunks(ONE_TWO_THREE, 4), FmtInt) == FORMATTED
  {
    OneTwoThreeElements();
    SmallIntsRender();
    var es: seq<seq<bv8>> := [[1, 0, 0, 0], [2, 0, 0, 0], [3, 0, 0, 0]];
    assert Joined(es[2..], FmtInt) == [0x33];
    assert Joined(es[1..], FmtInt) == [0x32] + SEP + [0x33];
    assert Joined(es, FmtInt) == [0x31] + SEP + ([0x32] + SEP + [0x33]);
  }

  /** `DYNARRAY_IS(int, 1, 2, 3)`: a new array extended by the three elements. */
  method OneTwoThree() returns (arr: DynArray)
    ensures fresh(arr) && (arr.data == null || fresh(arr.data))
    ensures arr.Valid() && arr.Contents() == ONE_TWO_THREE
  {
    arr := new DynArray();
    Pow2Top();
    arr.Extend(ONE_TWO_THREE);
  }

  /** The test replayed on the model: a fresh string, the array, `fmt_dynarray`. */
  method IntArrayFormats() returns (f: CString)
    ensures f.Valid()
    ensures CStrText(f.AsCStr()) == FORMATTED
  {
    var arr := OneTwoThree();
    f := new CString.New();
    OneTwoThreeFormats();
    assert |f.text| + |Format(Chunks(arr.Contents(), 4), FmtInt)| == 11;
    FmtDynarray(f, arr, Type(4), FmtInt);
    FormattedNoNul();
  }

  /** The expected text holds no NUL of its own. */
  lemma FormattedNoNul()
    ensures 0 !in FORMATTED
  {
  }

  /** The elements of `s`, last first. */
  function Reversed(s: seq<seq<bv8>>): (r: seq<seq<bv8>>)
    ensures |r| == |s|
  {
    if s == [] then [] else Reversed(s[1..]) + [s[0]]
  }

  /** Element `j` of the reversal is element `|s| - 1 - j` of the original. */
  lemma {:induction false} ReversedAt(s: seq<seq<bv8>>, j: nat)
    requires j < |s|
    ensures Reversed(s)[j] == s[|s| - 1 - j]
  {
    if j < |s| - 1 {
      ReversedAt(s[1..], j);
    }
  }

  /** Reversing one more element of a suffix puts it last. */
  lemma ReversedSuffix(s: seq<seq<bv8>>, m: nat)
    requires 1 <= m <= |s|
    ensures Reversed(s[m - 1..]) == Reversed(s[m..]) + [s[m - 1]]
  {
    assert s[m - 1..][1..] == s[m..];
  }

  /**
   * The pop loop of tests/test_dynarray.c: pops as many elements as the
   * array holds. The elements come back last to first, and the array ends
   * empty with its allocation untouched.
   */
  method PopAll(arr: DynArray, ty: Type) returns (popped: seq<seq<bv8>>)
    requires arr.Valid() && ty.size > 0 && arr.len % ty.size == 0
    modifies arr
    ensures arr.Valid() && arr.len == 0 && arr.cap == old(arr.cap)
    ensures popped == Reversed(Chunks(old(arr.Contents()), ty.size))
  {
    ghost var es := Chunks(arr.Contents(), ty.size);
    ghost var data0 := arr.data;
    ghost var cap0 := arr.cap;
    var k := arr.Length(ty);
    ChunksLength(arr.Contents(), ty.size);
    assert es[..k] == es;
    popped := [];
    while k > 0
      invariant arr.Valid() && arr.data == data0 && arr.cap == cap0
      invariant arr.len % ty.size == 0
      invariant k <= |es| && Chunks(arr.Contents(), ty.size) == es[..k]
      invariant popped == Reversed(es[k..])
      decreases k
    {
      var elem := PopOne(arr, ty, es, k);
      ReversedSuffix(es, k);
      popped := popped + [elem];
      k := k - 1;
    }
    assert es[0..] == es;
    ChunksLength(arr.Contents(), ty.size);
  }

  /**
   * One `dynarray_pop` of the test loop, on an array whose elements are the
   * first `k` of `es`: it returns element `k - 1` and leaves the first `k - 1`.
   */
  method PopOne(arr: DynArray, ty: Type, ghost es: seq<seq<bv8>>, ghost k: nat) returns (elem: seq<bv8>)
    requires arr.Valid() && ty.size > 0 && arr.len % ty.size == 0
    requires 1 <= k <= |es| && Chunks(arr.Contents(), ty.size) == es[..k]
    modifies arr
    ensures arr.Valid() && arr.data == old(arr.data) && arr.cap == old(arr.cap)
    ensures arr.len % ty.size == 0 && Chunks(arr.Contents(), ty.size) == es[..k - 1]
    ensures elem == es[k - 1]
  {
    ChunksLength(arr.Contents(), ty.size);
    DivStep(arr.len, ty.size);
    elem := PopElement(arr, ty);
    PopStep(arr.Contents(), elem, es, k, ty.size);
  }

  /**
   * Popping one element off a buffer whose elements are the first `k` of
   * `es`: the rest are the first `k - 1`, and the popped bytes are element
   * `k - 1`.
   */
  lemma PopStep(rest: seq<bv8>, last: seq<bv8>, es: seq<seq<bv8>>, k: nat, size: nat)
    requires size > 0 && |rest| % size == 0 && |last| == size
    requires 1 <= k <= |es| && Chunks(rest + last, size) == es[..k]
    ensures Chunks(rest, size) == es[..k - 1] && last == es[k - 1]
  {
    ChunksAppend(rest, last, size);
    assert es[..k] == es[..k - 1] + [es[k - 1]];
  }

  /** The values 1, 2, 4, 4, 5, 6, 7, 8, 9, 10 of tests/test_dynarray.c, as 4-byte `int`s. */
  const TEN: seq<seq<bv8>> := [[1, 0, 0, 0], [2, 0, 0, 0], [4, 0, 0, 0], [4, 0, 0, 0], [5, 0, 0, 0],
                               [6, 0, 0, 0], [7, 0, 0, 0], [8, 0, 0, 0], [9, 0, 0, 0], [10, 0, 0, 0]]

  /** The elements' bytes one after another, as `values` lies in memory. */
  function Flatten(es: seq<seq<bv8>>): (s: seq<bv8>) {
    if es == [] then [] else es[0] + Flatten(es[1..])
  }

  /** Read back in slots of the common element size, laid-out elements are the elements. */
  lemma {:induction false} ChunksFlatten(es: seq<seq<bv8>>, size: nat)
    requires size > 0 && forall i :: 0 <= i < |es| ==> |es[i]| == size
    ensures |Flatten(es)| == |es| * size
    ensures Chunks(Flatten(es), size) == es
  {
    if es != [] {
      ChunksFlatten(es[1..], size);
      var s := Flatten(es);
      assert s[..size] == es[0] && s[size..] == Flatten(es[1..]);
      assert es == [es[0]] + es[1..];
    }
  }

  /**
   * tests/test_dynarray.c: the ten values appended by `dynarray_extend` and
   * popped ten times come back as 10, 9, 8, 7, 6, 5, 4, 4, 2, 1, and the
   * array is left empty.
   */
  method ExtendThenPopTen() returns (popped: seq<seq<bv8>>)
    ensures popped == Reversed(TEN)
  {
    var arr := new DynArray();
    ChunksFlatten(TEN, 4);
    Pow2Top();
    var values := Flatten(TEN);
    arr.Extend(values);
    assert arr.Contents() == values;
    popped := PopAll(arr, Type(4));
  }

  /**
   * `dynarray_pop` undoes a store through `dynarray_next`: the slot `next`
   * hands out is filled with `e`, and popping it gives `e` back and restores
   * the array's contents.
   */
  method NextThenPop(arr: DynArray, ty: Type, e: seq<bv8>) returns (back: seq<bv8>)
    requires arr.Valid() && ty.size > 0 && |e| == ty.size
    requires arr.len % ty.size == 0 && arr.cap % ty.size == 0
    requires ResizedCap(arr.cap, ty.size) <= SIZE_MAX
    modifies arr, arr.data
    ensures arr.Valid() && arr.Contents() == old(arr.Contents())
    ensures back == e
  {
    ghost var before := arr.Contents();
    NextFitsMultiples(arr.cap, arr.len, ty.size);
    var p := arr.Next(ty);
    StoreLast(arr, e);
    assert arr.Contents() == before + e;
    back := PopElement(arr, ty);
    AppendCancel(before, e, arr.Contents(), back);
  }

  /**
   * The usage example of `dynarray_next`: starting from `dynarray_new`, each
   * element of `es` is stored through its own `dynarray_next` call. The
   * array then holds exactly those elements, and has room for them.
   */
  method NextEach(ty: Type, es: seq<seq<bv8>>) returns (arr: DynArray)
    requires ty.size > 0 && forall i :: 0 <= i < |es| ==> |es[i]| == ty.size
    requires 2 * (|es| + 1) * ty.size <= SIZE_MAX
    ensures arr.Valid() && arr.len == |es| * ty.size
    ensures Chunks(arr.Contents(), ty.size) == es
    ensures arr.Length(ty) == |es| && arr.Capacity(ty) >= |es|
  {
    arr := new DynArray();
    assert arr.Contents() == [] && es[..0] == [];
    for k := 0 to |es|
      invariant Pushed(arr, ty.size, es, k)
      invariant arr.data == null || fresh(arr.data)
    {
      PushNext(arr, ty, es, k);
    }
    assert es[..|es|] == es;
    DivUnique(arr.len, ty.size, |es|, 0);
    QuotientAtLeast(|es|, arr.cap, ty.size);
  }

  /**
   * What the loop of the `dynarray_next` example has done after `k` steps:
   * the first `k` elements are stored, and length and capacity are whole
   * elements with the capacity within the growth policy's bound.
   */
  ghost predicate Pushed(arr: DynArray, size: nat, es: seq<seq<bv8>>, k: nat)
    reads arr, arr.data
  {
    && size > 0 && k <= |es| && arr.Valid()
    && arr.len == k * size && arr.len % size == 0 && arr.cap % size == 0
    && arr.cap <= 4 * size + 2 * arr.len
    && Chunks(arr.Contents(), size) == es[..k]
  }

  /** One step of that loop: stores `es[k]` through `dynarray_next`. */
  method PushNext(arr: DynArray, ty: Type, es: seq<seq<bv8>>, k: nat)
    requires Pushed(arr, ty.size, es, k) && k < |es| && |es[k]| == ty.size
    requires 2 * (|es| + 1) * ty.size <= SIZE_MAX
    modifies arr, arr.data
    ensures Pushed(arr, ty.size, es, k + 1)
    ensures arr.data == old(arr.data) || fresh(arr.data)
  {
    WholeBound(arr.len, ty.size, k, |es|);
    ghost var before := arr.Contents();
    PushElement(arr, ty, es[k]);
    ChunksAppend(before, es[k], ty.size);
    assert es[..k + 1] == es[..k] + [es[k]];
  }

  /** `k` of `n` elements stored: one more fits the bound, and `len` grows by one element. */
  lemma WholeBound(len: nat, size: nat, k: nat, n: nat)
    requires len == k * size && k < n && 2 * (n + 1) * size <= SIZE_MAX
    ensures 2 * len + 4 * size <= SIZE_MAX && len + size == (k + 1) * size
  {
    MulMonotone(k + 2, n + 1, size);
    assert 2 * len + 4 * size == 2 * ((k + 2) * size);
  }

  /**
   * One step of that example, `*(T *)dynarray_next(&arr, ty) = value`, on an
   * array of whole elements that only `dynarray_next` has grown: the value
   * becomes the new last element and the capacity stays whole elements.
   */
  method PushElement(arr: DynArray, ty: Type, e: seq<bv8>)
    requires arr.Valid() && ty.size > 0 && |e| == ty.size
    requires arr.len % ty.size == 0 && arr.cap % ty.size == 0
    requires arr.cap <= 4 * ty.size + 2 * arr.len
    requires 2 * arr.len + 4 * ty.size <= SIZE_MAX
    modifies arr, arr.data
    ensures arr.Valid() && arr.len == old(arr.len) + ty.size
    ensures arr.Contents() == old(arr.Contents()) + e
    ensures arr.len % ty.size == 0 && arr.cap % ty.size == 0
    ensures arr.cap <= 4 * ty.size + 2 * arr.len
    ensures arr.data == old(arr.data) || fresh(arr.data)
  {
    ghost var before := arr.Contents();
    NextKeepsWhole(arr.cap, arr.len, ty.size);
    var p := arr.Next(ty);
    StoreLast(arr, e);
    assert arr.Contents() == before + e;
  }

  /**
   * `*(T *)dynarray_pop(&arr, ty)`: pops the last element of a non-empty
   * array and reads its bytes, which are the bytes the contents lost.
   */
  method PopElement(arr: DynArray, ty: Type) returns (elem: seq<bv8>)
    requires arr.Valid() && 0 < ty.size <= arr.len
    modifies arr
    ensures arr.Valid() && arr.data == old(arr.data) && arr.cap == old(arr.cap)
    ensures arr.len == old(arr.len) - ty.size
    ensures arr.Contents() + elem == old(arr.Contents()) && |elem| == ty.size
  {
    var p := arr.Pop(ty);
    elem := arr.data[p.value..p.value + ty.size];
    assert old(arr.Contents()) == arr.Contents() + old(arr.Contents())[arr.len..];
  }

  /** `*(T *)slot = value` on the last `|e|` occupied bytes. */
  method StoreLast(arr: DynArray, e: seq<bv8>)
    requires arr.Valid() && |e| <= arr.len
    modifies arr.data
    ensures arr.Valid()
    ensures arr.Contents() == old(arr.Contents())[..arr.len - |e|] + e
  {
    if e != [] {
      var p := arr.len - |e|;
      forall j | 0 <= j < |e| {
        arr.data[p + j] := e[j];
      }
      assert arr.Contents()[..p] == old(arr.Contents())[..p];
      assert arr.Contents()[p..] == e;
    }
  }

  /**
   * The defect of `dynarray_next` as written, replayed: twelve bytes
   * appended by `dynarray_extend` to an empty array leave a 16-byte
   * allocation, and `dynarray_next` for a 12-byte element then claims bytes
   * up to 24 without growing.
   */
  method NextOverruns() returns (arr: DynArray)
    ensures arr.len == 24 && arr.cap == 16 && !arr.Valid()
  {
    arr := new DynArray();
    Pow2Top();
    NextOverrunsAfterExtend();
    arr.Extend([0, 0, 0, 0, 0, 0, 0, 0, 0, 0, 0, 0]);
    var p := arr.Next(Type(12));
  }
}
