/**
 lib/Analysis/ConstantFolding.cpp: reading integers out of the memory image of nested constants, in both byte
 orders.
 */
module ConstantFolding {
  import opened Arithmetic
  import opened DigitStrings

  type byte = x: int | 0 <= x < 256

  /** An initializer; sizes and offsets are those of the data layout. */
  datatype Const =
    | Zero(size: nat)
    | Undef(size: nat)
    | Int(bits: nat, value: nat, size: nat)
    | Float(bits: nat, value: nat, size: nat)   // half, float or double, or of another width
    | Struct(fields: seq<Field>, size: nat)
    | Array(elems: seq<Const>, eltSize: nat)
    | IntToPtr(c: Const)
    | Other(size: nat)

  datatype Field = Field(c: Const, offset: nat)

  function Size(c: Const): nat {
    match c
    case Array(elems, eltSize) =>
      MulAtMost(0, eltSize, |elems|);
      |elems| * eltSize
    case IntToPtr(d) => Size(d)
    case _ => c.size
  }

  /** Integers of 8 to 64 bits fill their bytes; fields follow one another; elements have their size. */
  ghost predicate WellFormed(c: Const) {
    match c
    case Int(bits, value, size) => size > 0 && value < Pow2(bits) && (Readable(bits) ==> bits == 8 * size)
    case Float(bits, value, size) => size > 0 && value < Pow2(bits) && bits == 8 * size
    case Struct(fields, size) =>
      && (forall i :: 0 <= i < |fields| ==> WellFormed(fields[i].c))
      && (forall i :: 0 <= i < |fields| - 1 ==> SlotOk(fields, i))
      && if fields == [] then size == 0
         else fields[0].offset == 0 && fields[|fields| - 1].offset + Size(fields[|fields| - 1].c) <= size
    case Array(elems, eltSize) =>
      forall i :: 0 <= i < |elems| ==> WellFormed(elems[i]) && Size(elems[i]) == eltSize
    case IntToPtr(d) => WellFormed(d)
    case _ => true
  }

  ghost predicate SlotOk(fields: seq<Field>, i: nat)
    requires i + 1 < |fields|
  {
    fields[i].offset + Size(fields[i].c) <= fields[i + 1].offset
  }

  predicate Readable(bits: nat) {
    bits <= 64 && bits % 8 == 0
  }

  /** Only zeros, undefined values, integers of whole bytes and floating-point values, structs and arrays of them. */
  ghost predicate Supported(c: Const) {
    match c
    case Zero(_) => true
    case Undef(_) => true
    case Int(bits, _, _) => bits <= 64 && bits % 8 == 0
    case Float(bits, _, _) => bits in {16, 32, 64}
    case Struct(fields, _) => forall i :: 0 <= i < |fields| ==> Supported(fields[i].c)
    case Array(elems, _) => forall i :: 0 <= i < |elems| ==> Supported(elems[i])
    case IntToPtr(d) => Supported(d)
    case Other(_) => false
  }

  // ---------------------------------------------------------------- the memory image

  /** Byte `k` of the memory image of a constant; padding and what lies behind it is zero. */
  ghost function ByteAt(c: Const, k: nat, little: bool): nat
    decreases c
  {
    match c
    case Int(bits, value, size) => if k < size then Split(value, 8, size, little)[k] else 0
    case Float(bits, value, size) => if k < size then Split(value, 8, size, little)[k] else 0
    case Struct(fields, _) => FieldsByte(fields, k, little)
    case Array(elems, eltSize) => ElemsByte(elems, eltSize, k, little)
    case IntToPtr(d) => ByteAt(d, k, little)
    case _ => 0
  }

  /** On a little-endian target the low byte of an integer is the first one of its image, else the last one. */
  lemma LowByte(bits: nat, value: nat, size: nat)
    requires size > 0
    ensures ByteAt(Int(bits, value, size), 0, true) == value % 256 && ByteAt(Int(bits, value, size), size - 1, false) == value % 256
  {
    EightBits();
    LowDigit(value, 8, size);
  }

  ghost function FieldsByte(fields: seq<Field>, k: nat, little: bool): nat
    decreases fields
  {
    if fields == [] then 0
    else if Within(fields[0], k) then OneField(fields[0], k, little)
    else FieldsByte(fields[1..], k, little)
  }

  predicate Within(f: Field, k: nat) {
    f.offset <= k < f.offset + Size(f.c)
  }

  ghost function OneField(f: Field, k: nat, little: bool): nat
    requires k >= f.offset
    decreases f
  {
    ByteAt(f.c, k - f.offset, little)
  }

  ghost function ElemsByte(elems: seq<Const>, eltSize: nat, k: nat, little: bool): nat
    decreases elems
  {
    if elems == [] then 0
    else if k < eltSize then ByteAt(elems[0], k, little)
    else ElemsByte(elems[1..], eltSize, k - eltSize, little)
  }

  ghost predicate FieldsOk(fields: seq<Field>) {
    && (forall i :: 0 <= i < |fields| ==> WellFormed(fields[i].c))
    && (forall i :: 0 <= i < |fields| - 1 ==> SlotOk(fields, i))
  }

  lemma FieldsRest(fields: seq<Field>)
    requires FieldsOk(fields) && fields != []
    ensures FieldsOk(fields[1..])
  {
    forall i | 0 <= i < |fields| - 2 ensures SlotOk(fields[1..], i) {
      assert SlotOk(fields, i + 1);
    }
  }

  lemma {:induction false} OffsetsRise(fields: seq<Field>, i: nat, j: nat)
    requires FieldsOk(fields) && i < j < |fields|
    ensures fields[i].offset + Size(fields[i].c) <= fields[j].offset
  {
    assert SlotOk(fields, j - 1);
    if i < j - 1 {
      OffsetsRise(fields, i, j - 1);
    }
  }

  lemma {:induction false} BeyondSize(c: Const, k: nat, little: bool)
    requires WellFormed(c) && k >= Size(c)
    ensures ByteAt(c, k, little) == 0
    decreases c, 0
  {
    match c
    case Struct(fields, size) =>
      BeyondFields(fields, k, little);
    case Array(elems, eltSize) =>
      BeyondElems(elems, eltSize, k, little);
    case IntToPtr(d) => BeyondSize(d, k, little);
    case _ =>
  }

  lemma {:induction false} BeyondFields(fields: seq<Field>, k: nat, little: bool)
    requires FieldsOk(fields) && (fields != [] ==> k >= fields[|fields| - 1].offset + Size(fields[|fields| - 1].c))
    ensures FieldsByte(fields, k, little) == 0
    decreases |fields|
  {
    if fields != [] {
      if |fields| > 1 {
        OffsetsRise(fields, 0, |fields| - 1);
      }
      FieldsRest(fields);
      BeyondFields(fields[1..], k, little);
    }
  }

  lemma {:induction false} BeyondElems(elems: seq<Const>, eltSize: nat, k: nat, little: bool)
    requires k >= |elems| * eltSize
    ensures ElemsByte(elems, eltSize, k, little) == 0
    decreases |elems|
  {
    if elems != [] {
      MulSum(|elems| - 1, 1, eltSize);
      MulAtMost(0, |elems| - 1, eltSize);
      BeyondElems(elems[1..], eltSize, k - eltSize, little);
    }
  }

  /** A byte from the start of field `i` to the start of the next one. */
  lemma {:induction false} FieldByte(fields: seq<Field>, i: nat, k: nat, little: bool)
    requires FieldsOk(fields) && i < |fields| && fields[i].offset <= k && (i + 1 < |fields| ==> k < fields[i + 1].offset)
    ensures FieldsByte(fields, k, little) == ByteAt(fields[i].c, k - fields[i].offset, little)
    decreases |fields|
  {
    FieldsRest(fields);
    if i > 0 {
      OffsetsRise(fields, 0, i);
      FieldByte(fields[1..], i - 1, k, little);
    } else if k >= fields[0].offset + Size(fields[0].c) {
      BeyondSize(fields[0].c, k - fields[0].offset, little);
      BeforeFields(fields[1..], k, little);
    }
  }

  lemma {:induction false} BeforeFields(fields: seq<Field>, k: nat, little: bool)
    requires FieldsOk(fields) && (fields != [] ==> k < fields[0].offset)
    ensures FieldsByte(fields, k, little) == 0
    decreases |fields|
  {
    if fields != [] {
      FieldsRest(fields);
      if |fields| > 1 {
        OffsetsRise(fields, 0, 1);
      }
      BeforeFields(fields[1..], k, little);
    }
  }

  /** Byte `o` of element `i` of an array. */
  lemma {:induction false} ElemByte(elems: seq<Const>, eltSize: nat, i: nat, o: nat, little: bool)
    requires i < |elems| && o < eltSize
    ensures i * eltSize + o >= 0 && ElemsByte(elems, eltSize, i * eltSize + o, little) == ByteAt(elems[i], o, little)
    decreases i
  {
    MulAtMost(0, i, eltSize);
    if i > 0 {
      MulSum(i, 1, eltSize);
      MulAtMost(0, i - 1, eltSize);
      ElemByte(elems[1..], eltSize, i - 1, o, little);
    }
  }

  // ---------------------------------------------------------------- reading

  /** From `cur` on, `n` bytes of the buffer are those of the image of `c` from `off` on. */
  ghost predicate Image(s: seq<byte>, cur: nat, n: nat, c: Const, off: nat, little: bool) {
    cur + n <= |s| && forall i :: cur <= i < cur + n ==> s[i] == ByteAt(c, off + (i - cur), little)
  }

  ghost predicate Zeros(s: seq<byte>, cur: nat, n: nat) {
    cur + n <= |s| && forall i :: cur <= i < cur + n ==> s[i] == 0
  }

  /** Only the `n` bytes from `cur` on have been written to. */
  ghost predicate Same(s0: seq<byte>, s: seq<byte>, cur: nat, n: nat) {
    |s| == |s0| && forall i :: 0 <= i < |s| && !(cur <= i < cur + n) ==> s[i] == s0[i]
  }

  /** The bytes of an integer (ConstantFolding.cpp:286-296). */
  method ReadInt(value: nat, intBytes: nat, byteOffset0: nat, buf: array<byte>, cur: nat, bytesLeft: nat, little: bool,
                 ghost c: Const)
    requires (c == Int(8 * intBytes, value, intBytes) || c == Float(8 * intBytes, value, intBytes)) && byteOffset0 <= intBytes
    requires Zeros(buf[..], cur, bytesLeft)
    modifies buf
    ensures Same(old(buf[..]), buf[..], cur, bytesLeft) && Image(buf[..], cur, bytesLeft, c, byteOffset0, little)
  {
    var byteOffset, i := byteOffset0, 0;
    while i != bytesLeft && byteOffset != intBytes
      invariant 0 <= i <= bytesLeft && byteOffset == byteOffset0 + i <= intBytes
      invariant Same(old(buf[..]), buf[..], cur, i) && Image(buf[..], cur, i, c, byteOffset0, little)
      decreases bytesLeft - i
    {
      var n := if little then byteOffset else intBytes - byteOffset - 1;
      DigitAt(value, 8, intBytes, little, byteOffset, n);
      EightBits();
      buf[cur + i] := (value / Pow2(8 * n)) % 256;
      byteOffset := byteOffset + 1;
      i := i + 1;
    }
  }

  lemma EightBits()
    ensures Pow2(8) == 256
  {
    assert Pow2(4) == 16;
    Pow2Sum(4, 4);
  }

  lemma NothingThere(s: seq<byte>, cur: nat, n: nat, c: Const, off: nat, little: bool)
    requires Zeros(s, cur, n) && (c.Zero? || c.Undef?)
    ensures Image(s, cur, n, c, off, little)
  {
  }

  /** Bytes behind an element are zero in the buffer and in the image. */
  lemma ImageBeyond(s: seq<byte>, cur: nat, n: nat, c: Const, off: nat, little: bool)
    requires Zeros(s, cur, n) && WellFormed(c) && off >= Size(c)
    ensures Image(s, cur, n, c, off, little)
  {
    forall i | cur <= i < cur + n ensures s[i] == ByteAt(c, off + (i - cur), little) {
      BeyondSize(c, off + (i - cur), little);
    }
  }

  /** The part of the image of `c` that starts at `at` in it is that of its part `d` from `off` on. */
  ghost predicate PartOf(c: Const, at: nat, d: Const, off: nat, n: nat, little: bool) {
    forall k: nat :: k < n ==> SameByte(c, at, d, off, k, little)
  }

  ghost predicate SameByte(c: Const, at: nat, d: Const, off: nat, k: nat, little: bool) {
    ByteAt(c, at + k, little) == ByteAt(d, off + k, little)
  }

  /** Going on behind `gap` bytes of a part: those are done, and the rest is still zero. */
  lemma GoOn(s: seq<byte>, cur0: nat, cur: nat, left: nat, c: Const, at0: nat, d: Const, off: nat, gap: nat, little: bool)
    requires cur0 <= cur && gap <= left && WellFormed(d) && off + gap >= Size(d)
    requires Image(s, cur0, cur - cur0, c, at0, little) && Image(s, cur, left, d, off, little)
    requires PartOf(c, at0 + (cur - cur0), d, off, gap, little)
    ensures Image(s, cur0, cur + gap - cur0, c, at0, little) && Zeros(s, cur + gap, left - gap)
  {
    forall i | cur <= i < cur + gap ensures s[i] == ByteAt(c, at0 + (i - cur0), little) {
      assert SameByte(c, at0 + (cur - cur0), d, off, i - cur, little);
    }
    forall i | cur + gap <= i < cur + left ensures s[i] == 0 {
      BeyondSize(d, off + (i - cur), little);
    }
  }

  /** All that is left lies in the last part that was read. */
  lemma ReadsEnd(s: seq<byte>, cur0: nat, cur: nat, left: nat, c: Const, at0: nat, d: Const, off: nat, little: bool)
    requires cur0 <= cur
    requires Image(s, cur0, cur - cur0, c, at0, little) && Image(s, cur, left, d, off, little)
    requires PartOf(c, at0 + (cur - cur0), d, off, left, little)
    ensures Image(s, cur0, cur + left - cur0, c, at0, little)
  {
    forall i | cur <= i < cur + left ensures s[i] == ByteAt(c, at0 + (i - cur0), little) {
      assert SameByte(c, at0 + (cur - cur0), d, off, i - cur, little);
    }
  }

  lemma SlotIsPart(c: Const, i: nat, off: nat, n: nat, little: bool)
    requires c.Struct? && FieldsOk(c.fields) && i < |c.fields|
    requires i + 1 < |c.fields| ==> c.fields[i].offset + off + n <= c.fields[i + 1].offset
    ensures PartOf(c, c.fields[i].offset + off, c.fields[i].c, off, n, little)
  {
    var at, d := c.fields[i].offset + off, c.fields[i].c;
    forall k: nat | k < n ensures SameByte(c, at, d, off, k, little) {
      FieldByte(c.fields, i, c.fields[i].offset + off + k, little);
    }
  }

  lemma ElemIsPart(c: Const, i: nat, off: nat, n: nat, little: bool)
    requires c.Array? && i < |c.elems| && off + n <= c.eltSize
    ensures i * c.eltSize + off >= 0 && PartOf(c, i * c.eltSize + off, c.elems[i], off, n, little)
  {
    MulAtMost(0, i, c.eltSize);
    var at, d := i * c.eltSize + off, c.elems[i];
    forall k: nat | k < n ensures SameByte(c, at, d, off, k, little) {
      ElemByte(c.elems, c.eltSize, i, off + k, little);
    }
  }

  /** The field that contains an offset, or the padding before which it stands. */
  method GetElementContainingOffset(fields: seq<Field>, offset: nat) returns (index: nat)
    requires FieldsOk(fields) && fields != [] && fields[0].offset == 0
    ensures index < |fields| && fields[index].offset <= offset && (index + 1 < |fields| ==> offset < fields[index + 1].offset)
  {
    index := 0;
    while index + 1 < |fields| && fields[index + 1].offset <= offset
      invariant index < |fields| && fields[index].offset <= offset
    {
      index := index + 1;
    }
  }

  /** The fields of a struct, from the one that contains the offset on (ConstantFolding.cpp:315-350). */
  method ReadStruct(c: Const, byteOffset0: nat, buf: array<byte>, cur0: nat, bytesLeft0: nat, little: bool) returns (ok: bool)
    requires c.Struct? && WellFormed(c) && Size(c) > 0 && byteOffset0 <= Size(c) && Zeros(buf[..], cur0, bytesLeft0)
    modifies buf
    ensures Same(old(buf[..]), buf[..], cur0, bytesLeft0)
    ensures ok ==> Image(buf[..], cur0, bytesLeft0, c, byteOffset0, little)
    ensures Supported(c) ==> ok
    decreases c, 0
  {
    hide ByteAt, Image, Zeros, PartOf;
    var fields := c.fields;
    var index := GetElementContainingOffset(fields, byteOffset0);
    var byteOffset: nat, cur: nat, bytesLeft: nat := byteOffset0 - fields[index].offset, cur0, bytesLeft0;
    EmptyImage(buf[..], cur0, bytesLeft0, c, byteOffset0, little);
    while true
      invariant index < |fields| && cur0 <= cur && cur + bytesLeft == cur0 + bytesLeft0
      invariant byteOffset0 + (cur - cur0) == fields[index].offset + byteOffset
      invariant index + 1 < |fields| ==> fields[index].offset + byteOffset <= fields[index + 1].offset
      invariant Same(old(buf[..]), buf[..], cur0, bytesLeft0) && Zeros(buf[..], cur, bytesLeft)
      invariant Image(buf[..], cur0, cur - cur0, c, byteOffset0, little)
      decreases |fields| - index
    {
      ghost var s := buf[..];
      ok := ReadField(fields[index], byteOffset, buf, cur, bytesLeft, little);
      WrittenInside(old(buf[..]), s, buf[..], cur0, bytesLeft0, cur, bytesLeft);
      if !ok {
        return;
      }
      ImageKept(s, buf[..], cur, bytesLeft, cur0, cur - cur0, c, byteOffset0, little);
      ghost var at, off := index, byteOffset;
      index := index + 1;
      if index == |fields| {
        SlotIsPart(c, at, off, bytesLeft, little);
        ReadsEnd(buf[..], cur0, cur, bytesLeft, c, byteOffset0, fields[at].c, off, little);
        return;
      }
      var gap := fields[index].offset - fields[index - 1].offset - byteOffset;
      if bytesLeft <= gap {
        SlotIsPart(c, at, off, bytesLeft, little);
        ReadsEnd(buf[..], cur0, cur, bytesLeft, c, byteOffset0, fields[at].c, off, little);
        return;
      }
      assert SlotOk(fields, at);
      SlotIsPart(c, at, off, gap, little);
      GoOn(buf[..], cur0, cur, bytesLeft, c, byteOffset0, fields[at].c, off, gap, little);
      if index + 1 < |fields| {
        assert SlotOk(fields, index);
      }
      cur, bytesLeft, byteOffset := cur + gap, bytesLeft - gap, 0;
    }
  }

  /** One field; nothing is read from the padding behind it. */
  method ReadField(f: Field, byteOffset: nat, buf: array<byte>, cur: nat, bytesLeft: nat, little: bool) returns (ok: bool)
    requires WellFormed(f.c) && Zeros(buf[..], cur, bytesLeft)
    modifies buf
    ensures Same(old(buf[..]), buf[..], cur, bytesLeft)
    ensures ok ==> Image(buf[..], cur, bytesLeft, f.c, byteOffset, little)
    ensures Supported(f.c) ==> ok
    decreases f
  {
    if byteOffset < Size(f.c) {
      ok := ReadDataFromGlobal(f.c, byteOffset, buf, cur, bytesLeft, little);
    } else {
      ok := true;
      ImageBeyond(buf[..], cur, bytesLeft, f.c, byteOffset, little);
    }
  }

  /** The elements of an array or vector (ConstantFolding.cpp:352-379). */
  method ReadArray(c: Const, byteOffset0: nat, buf: array<byte>, cur0: nat, bytesLeft0: nat, little: bool) returns (ok: bool)
    requires c.Array? && WellFormed(c) && Size(c) > 0 && byteOffset0 <= Size(c) && Zeros(buf[..], cur0, bytesLeft0)
    modifies buf
    ensures Same(old(buf[..]), buf[..], cur0, bytesLeft0)
    ensures ok ==> Image(buf[..], cur0, bytesLeft0, c, byteOffset0, little)
    ensures Supported(c) ==> ok
    decreases c, 0
  {
    hide ByteAt, Image, Zeros, PartOf;
    var eltSize := c.eltSize;
    DivMod(byteOffset0, eltSize);
    var index: nat, offset: nat := byteOffset0 / eltSize, byteOffset0 % eltSize;
    FirstElement(byteOffset0, eltSize, |c.elems|);
    var cur: nat, bytesLeft: nat := cur0, bytesLeft0;
    EmptyImage(buf[..], cur0, bytesLeft0, c, byteOffset0, little);
    while index != |c.elems|
      invariant index <= |c.elems| && cur0 <= cur && cur + bytesLeft == cur0 + bytesLeft0 && offset < eltSize
      invariant byteOffset0 + (cur - cur0) == index * eltSize + offset
      invariant index == |c.elems| ==> offset == 0
      invariant Same(old(buf[..]), buf[..], cur0, bytesLeft0) && Zeros(buf[..], cur, bytesLeft)
      invariant Image(buf[..], cur0, cur - cur0, c, byteOffset0, little)
      decreases |c.elems| - index
    {
      ghost var s := buf[..];
      ok := ReadDataFromGlobal(c.elems[index], offset, buf, cur, bytesLeft, little);
      WrittenInside(old(buf[..]), s, buf[..], cur0, bytesLeft0, cur, bytesLeft);
      if !ok {
        return;
      }
      ImageKept(s, buf[..], cur, bytesLeft, cur0, cur - cur0, c, byteOffset0, little);
      var bytesWritten := eltSize - offset;
      if bytesWritten >= bytesLeft {
        ElemIsPart(c, index, offset, bytesLeft, little);
        ReadsEnd(buf[..], cur0, cur, bytesLeft, c, byteOffset0, c.elems[index], offset, little);
        return;
      }
      ElemIsPart(c, index, offset, bytesWritten, little);
      GoOn(buf[..], cur0, cur, bytesLeft, c, byteOffset0, c.elems[index], offset, bytesWritten, little);
      MulSum(index, 1, eltSize);
      cur, bytesLeft, offset := cur + bytesWritten, bytesLeft - bytesWritten, 0;
      index := index + 1;
    }
    ok := true;
    ImageBeyond(buf[..], cur, bytesLeft, c, byteOffset0 + (cur - cur0), little);
    SelfPart(c, byteOffset0 + (cur - cur0), bytesLeft, little);
    ReadsEnd(buf[..], cur0, cur, bytesLeft, c, byteOffset0, c, byteOffset0 + (cur - cur0), little);
  }

  lemma FirstElement(byteOffset: nat, eltSize: nat, n: nat)
    requires eltSize > 0 && byteOffset <= n * eltSize
    ensures byteOffset / eltSize <= n && (byteOffset / eltSize == n ==> byteOffset % eltSize == 0)
  {
    DivMod(byteOffset, eltSize);
    MulSum(n, 1, eltSize);
    FactorLess(byteOffset / eltSize, n + 1, eltSize);
  }

  lemma SelfPart(c: Const, at: nat, n: nat, little: bool)
    ensures PartOf(c, at, c, at, n, little)
  {
  }

  lemma EmptyImage(s: seq<byte>, cur: nat, n: nat, c: Const, off: nat, little: bool)
    requires Zeros(s, cur, n)
    ensures Image(s, cur, 0, c, off, little)
  {
  }

  lemma WrittenInside(s0: seq<byte>, s1: seq<byte>, s2: seq<byte>, cur0: nat, n0: nat, cur: nat, n: nat)
    requires Same(s0, s1, cur0, n0) && Same(s1, s2, cur, n) && cur0 <= cur && cur + n <= cur0 + n0
    ensures Same(s0, s2, cur0, n0)
  {
  }

  /** What has been written before is not touched again. */
  lemma ImageKept(s: seq<byte>, s': seq<byte>, cur: nat, n: nat, cur0: nat, m: nat, c: Const, off: nat, little: bool)
    requires Same(s, s', cur, n) && cur0 + m <= cur && Image(s, cur0, m, c, off, little)
    ensures Image(s', cur0, m, c, off, little)
  {
  }

  /**
   Reads up to `bytesLeft` bytes of a constant into a zeroed buffer (ConstantFolding.cpp:270-391): exactly the
   slice of the memory image, if the constant is supported.  A constant without bytes is never read, though it may
   stand among others.
   */
  method ReadDataFromGlobal(c: Const, byteOffset: nat, buf: array<byte>, cur: nat, bytesLeft: nat, little: bool) returns (ok: bool)
    requires WellFormed(c) && Size(c) > 0 && byteOffset <= Size(c) && Zeros(buf[..], cur, bytesLeft)
    modifies buf
    ensures Same(old(buf[..]), buf[..], cur, bytesLeft)
    ensures ok ==> Image(buf[..], cur, bytesLeft, c, byteOffset, little)
    ensures Supported(c) ==> ok
    decreases c, 1
  {
    match c {
      case Zero(_) =>
        NothingThere(buf[..], cur, bytesLeft, c, byteOffset, little);
        ok := true;
      case Undef(_) =>
        NothingThere(buf[..], cur, bytesLeft, c, byteOffset, little);
        ok := true;
      case Int(bits, value, size) =>
        if bits > 64 || bits % 8 != 0 {
          return false;
        }
        ReadInt(value, size, byteOffset, buf, cur, bytesLeft, little, c);
        ok := true;
      case Float(bits, value, size) =>
        if bits != 16 && bits != 32 && bits != 64 {
          return false;
        }
        ReadInt(value, size, byteOffset, buf, cur, bytesLeft, little, c);
        ok := true;
      case Struct(_, _) =>
        ok := ReadStruct(c, byteOffset, buf, cur, bytesLeft, little);
      case Array(_, _) =>
        ok := ReadArray(c, byteOffset, buf, cur, bytesLeft, little);
      case IntToPtr(d) =>
        ok := ReadDataFromGlobal(d, byteOffset, buf, cur, bytesLeft, little);
      case Other(_) =>
        ok := false;
    }
  }

  // ---------------------------------------------------------------- loading an integer

  datatype Load = Value(v: nat) | Undefined | NotFolded

  /** `n` bytes of the image of `c` from `off` on. */
  ghost function Bytes(c: Const, off: nat, n: nat, little: bool): (bytes: seq<nat>)
    ensures |bytes| == n && forall i :: 0 <= i < n ==> bytes[i] == ByteAt(c, off + i, little)
    decreases n
  {
    if n == 0 then [] else Bytes(c, off, n - 1, little) + [ByteAt(c, off + n - 1, little)]
  }

  lemma ModStep(a: int, b: int, m: int)
    requires m > 0
    ensures (a % m * 256 % m + b) % m == (a * 256 + b) % m
  {
    var q := a / m;
    DivMod(a % m * 256, m);
    var q2 := a % m * 256 / m;
    MulAssoc(q, m, 256);
    MulAssoc(q, 256, m);
    MulSum(q * 256, q2, m);
    var x := a % m * 256 % m + b;
    assert a * 256 + b == (q * 256 + q2) * m + x;
    MultipleRemoved(x, q * 256 + q2, m);
  }

  lemma MultipleRemoved(x: int, q: int, m: int)
    requires m > 0
    ensures (q * m + x) % m == x % m
  {
    MulSum(q, x / m, m);
    DivisionUnique(q * m + x, m, q + x / m, x % m);
  }

  /** The shifted result has no low bits, so that `or` adds the next byte, within the width. */
  lemma OrByte(r: nat, x: nat, width: nat)
    requires width >= 8 && x < 256
    ensures r * 256 % Pow2(width) >= 0
    ensures BitOr(r * 256 % Pow2(width), x) == (r * 256 % Pow2(width) + x) % Pow2(width)
  {
    EightBits();
    Pow2Sum(8, width - 8);
    hide Pow2, BitOr;
    var q, m := Pow2(width - 8), Pow2(width);
    var low := r % q;
    DivMod(r, q);
    MulSum(r / q * q, low, 256);
    MulAssoc(r / q, q, 256);
    MulAtMost(0, low, 256);
    MulAtMost(low + 1, q, 256);
    DivisionUnique(r * 256, m, r / q, low * 256);
    OrShifted(x, low, 8);
    OrSwaps(x, low * 256);
    DivisionUnique(low * 256 + x, m, 0, low * 256 + x);
  }

  /** One more byte below those that have been joined. */
  lemma ByteJoined(r: nat, joined: nat, x: nat, width: nat)
    requires width >= 8 && x < 256 && r == joined % Pow2(width)
    ensures r * 256 % Pow2(width) >= 0
    ensures BitOr(r * 256 % Pow2(width), x) == (joined * 256 + x) % Pow2(width)
  {
    OrByte(r, x, width);
    hide *;
    ModStep(joined, x, Pow2(width));
  }

  /** The integer that the bytes of the buffer stand for, cut to its width (ConstantFolding.cpp:456-469). */
  method Reassemble(raw: array<byte>, n: nat, width: nat, little: bool) returns (r: nat)
    requires 0 < n <= raw.Length && n == (width + 7) / 8
    ensures r == Join(raw[..n], 8, little) % Pow2(width)
  {
    hide Pow2, BitOr, JoinLow, JoinHigh;
    var m := Pow2(width);
    NothingJoined(8);
    if little {
      r := raw[n - 1] % m;
      var i := 1;
      JoinLowOne(raw[..n], n - 1);
      while i != n
        invariant 1 <= i <= n && r == JoinLow(raw[..n][n - i..], 8) % m
      {
        JoinLowNext(raw[..n], n - i);
        ByteJoined(r, JoinLow(raw[..n][n - i..], 8), raw[n - 1 - i], width);
        r := BitOr(r * 256 % m, raw[n - 1 - i]);
        i := i + 1;
      }
      assert raw[..n][0..] == raw[..n];
    } else {
      r := raw[0] % m;
      var i := 1;
      assert raw[..1] == [] + [raw[0]];
      JoinHighNext([], raw[0]);
      while i != n
        invariant 1 <= i <= n && r == JoinHigh(raw[..i], 8) % m
      {
        assert raw[..i + 1] == raw[..i] + [raw[i]];
        JoinHighNext(raw[..i], raw[i]);
        ByteJoined(r, JoinHigh(raw[..i], 8), raw[i], width);
        r := BitOr(r * 256 % m, raw[i]);
        i := i + 1;
      }
    }
  }

  lemma JoinLowOne(xs: seq<nat>, k: nat)
    requires k + 1 == |xs|
    ensures JoinLow(xs[k..], 8) == xs[k]
  {
    assert xs[k..] == [xs[k]] && [xs[k]][1..] == [];
  }

  lemma JoinLowNext(xs: seq<nat>, k: nat)
    requires 0 < k <= |xs|
    ensures JoinLow(xs[k - 1..], 8) == JoinLow(xs[k..], 8) * 256 + xs[k - 1]
  {
    EightBits();
    assert xs[k - 1..][1..] == xs[k..];
  }

  lemma JoinHighNext(xs: seq<nat>, x: nat)
    ensures JoinHigh(xs + [x], 8) == JoinHigh(xs, 8) * 256 + x
  {
    EightBits();
    assert (xs + [x])[..|xs|] == xs;
  }

  /**
   Loads an integer of `width` bits from byte `offset` of an initializer (ConstantFolding.cpp:427-471): the
   number that the bytes of its memory image stand for.
   */
  method LoadInteger(c: Const, offset: int, width: nat, little: bool) returns (r: Load)
    requires WellFormed(c)
    ensures r.Value? ==> 0 <= offset < Size(c) && r.v == Join(Bytes(c, offset, (width + 7) / 8, little), 8, little) % Pow2(width)
    ensures r.Undefined? ==> offset >= Size(c)
    ensures offset >= Size(c) && 0 < width <= 256 ==> r.Undefined?
    ensures Supported(c) && 0 <= offset < Size(c) && 0 < width <= 256 ==> r.Value?
    ensures Supported(c) && offset >= 0 ==> forall leaf :: IsLeaf(c, offset, leaf, width) ==> r == Value(leaf.value)
  {
    hide ByteAt, Pow2, IsLeaf;
    var bytesLoaded := (width + 7) / 8;
    if offset >= 0 {
      LeavesLoaded(c, offset, width, little);
    }
    if bytesLoaded > 32 || bytesLoaded == 0 {
      return NotFolded;
    }
    if offset < 0 {
      return NotFolded;
    }
    if offset >= Size(c) {
      return Undefined;
    }
    var rawBytes := new byte[32](i => 0);
    var ok := ReadDataFromGlobal(c, offset, rawBytes, 0, bytesLoaded, little);
    if !ok {
      return NotFolded;
    }
    var v := Reassemble(rawBytes, bytesLoaded, width, little);
    assert rawBytes[..bytesLoaded] == Bytes(c, offset, bytesLoaded, little);
    r := Value(v);
  }

  /** An integer of `width` bits stands in `c` at offset `o`. */
  ghost predicate IsLeaf(c: Const, o: nat, leaf: Const, width: nat) {
    WellFormed(leaf) && LeafAt(c, o, leaf) && leaf.Int? && leaf.bits == width && width <= 64 && width % 8 == 0
  }

  /** `leaf` stands in `c` at offset `o`. */
  ghost predicate LeafAt(c: Const, o: nat, leaf: Const)
    decreases c
  {
    match c
    case Struct(fields, _) => exists i :: 0 <= i < |fields| && LeafInField(fields[i], o, leaf)
    case Array(elems, eltSize) => LeafInElems(elems, eltSize, o, leaf)
    case IntToPtr(d) => LeafAt(d, o, leaf)
    case _ => c == leaf && o == 0
  }

  ghost predicate LeafInElems(elems: seq<Const>, eltSize: nat, o: nat, leaf: Const)
    decreases elems
  {
    elems != [] && if o < eltSize then LeafAt(elems[0], o, leaf) else LeafInElems(elems[1..], eltSize, o - eltSize, leaf)
  }

  ghost predicate LeafInField(f: Field, o: nat, leaf: Const)
    decreases f
  {
    o >= f.offset && LeafAt(f.c, o - f.offset, leaf)
  }

  lemma {:induction false} LeafBytes(c: Const, o: nat, leaf: Const, k: nat, little: bool)
    requires WellFormed(c) && LeafAt(c, o, leaf) && leaf.Int? && k < leaf.size
    ensures ByteAt(c, o + k, little) == ByteAt(leaf, k, little) && o + leaf.size <= Size(c)
    decreases c
  {
    match c
    case Struct(fields, _) =>
      var i :| 0 <= i < |fields| && LeafInField(fields[i], o, leaf);
      LeafFieldBytes(fields[i], o, leaf, k, little);
      if i + 1 < |fields| {
        assert SlotOk(fields, i);
        OffsetsRise(fields, i, |fields| - 1);
      }
      FieldByte(fields, i, o + k, little);
    case Array(elems, eltSize) =>
      if eltSize == 0 {
        NoLeafThere(elems, o, leaf);
      } else {
        LeafElemsBytes(elems, eltSize, o, leaf, k, little);
      }
    case IntToPtr(d) => LeafBytes(d, o, leaf, k, little);
    case _ =>
  }

  lemma {:induction false} NoLeafThere(elems: seq<Const>, o: nat, leaf: Const)
    ensures !LeafInElems(elems, 0, o, leaf)
    decreases |elems|
  {
    if elems != [] {
      NoLeafThere(elems[1..], o, leaf);
    }
  }

  lemma {:induction false} LeafElemsBytes(elems: seq<Const>, eltSize: nat, o: nat, leaf: Const, k: nat, little: bool)
    requires (forall i :: 0 <= i < |elems| ==> WellFormed(elems[i]) && Size(elems[i]) == eltSize) && eltSize > 0
    requires LeafInElems(elems, eltSize, o, leaf) && leaf.Int? && k < leaf.size
    ensures ElemsByte(elems, eltSize, o + k, little) == ByteAt(leaf, k, little) && o + leaf.size <= |elems| * eltSize
    decreases elems
  {
    MulSum(|elems| - 1, 1, eltSize);
    MulAtMost(0, |elems| - 1, eltSize);
    if o < eltSize {
      LeafBytes(elems[0], o, leaf, k, little);
    } else {
      LeafElemsBytes(elems[1..], eltSize, o - eltSize, leaf, k, little);
    }
  }

  lemma {:induction false} LeafFieldBytes(f: Field, o: nat, leaf: Const, k: nat, little: bool)
    requires WellFormed(f.c) && LeafInField(f, o, leaf) && leaf.Int? && k < leaf.size
    ensures ByteAt(f.c, o + k - f.offset, little) == ByteAt(leaf, k, little) && o + leaf.size <= f.offset + Size(f.c)
    decreases f
  {
    LeafBytes(f.c, o - f.offset, leaf, k, little);
  }

  /** Loading a leaf at its own offset gives its value, in both byte orders. */
  lemma LeafLoaded(c: Const, o: nat, leaf: Const, little: bool)
    requires WellFormed(c) && WellFormed(leaf) && LeafAt(c, o, leaf) && leaf.Int? && Readable(leaf.bits)
    ensures o < Size(c) && leaf.bits > 0
    ensures Join(Bytes(c, o, (leaf.bits + 7) / 8, little), 8, little) % Pow2(leaf.bits) == leaf.value
  {
    hide LeafAt, ByteAt, Pow2, Bytes, Join;
    var n := leaf.size;
    assert (leaf.bits + 7) / 8 == n;
    LeafBytes(c, o, leaf, 0, little);
    LeafImage(c, o, leaf, little);
    JoinOfSplit(leaf.value, 8, n, little);
    DivisionUnique(leaf.value, Pow2(leaf.bits), 0, leaf.value);
  }

  lemma LeafImage(c: Const, o: nat, leaf: Const, little: bool)
    requires WellFormed(c) && WellFormed(leaf) && LeafAt(c, o, leaf) && leaf.Int? && Readable(leaf.bits)
    ensures Bytes(c, o, leaf.size, little) == Split(leaf.value, 8, leaf.size, little)
  {
    hide LeafAt, Pow2, Split;
    var n := leaf.size;
    forall k | 0 <= k < n ensures ByteAt(c, o + k, little) == Split(leaf.value, 8, n, little)[k] {
      LeafBytes(c, o, leaf, k, little);
    }
    hide ByteAt;
    assert Bytes(c, o, n, little) == Split(leaf.value, 8, n, little);
  }

  /** The leaf at `o`, if there is one of the width, is what a load there should give. */
  lemma LeavesLoaded(c: Const, o: nat, width: nat, little: bool)
    requires WellFormed(c)
    ensures forall leaf :: IsLeaf(c, o, leaf, width) ==>
      0 < width <= 64 && o < Size(c) && Join(Bytes(c, o, (width + 7) / 8, little), 8, little) % Pow2(width) == leaf.value
  {
    hide LeafAt, Pow2, Bytes, Join, WellFormed;
    forall leaf | IsLeaf(c, o, leaf, width)
      ensures 0 < width <= 64 && o < Size(c) && Join(Bytes(c, o, (width + 7) / 8, little), 8, little) % Pow2(width) == leaf.value
    {
      LeafLoaded(c, o, leaf, little);
    }
  }
}
