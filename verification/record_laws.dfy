/**
 * What the accessor promises across calls: a write followed by a read, a
 * write's effect on the other fields, and which buffers __gc gives back.
 */
module RecordLaws {
  import opened Wrappers
  import opened CStrings
  import opened Bytes
  import opened Signature
  import opened Layout
  import opened Record

  /** Tags stored by an integer conversion and read back as integers. */
  predicate IntegerTag(t: Tag) {
    t in {UChar, UShort, Short, UInt, Int, Int64, UInt64}
  }

  /** What reading back an integer stored in a field of tag t gives: i reduced to the tag's width and signedness. */
  function IntegerReading(t: Tag, i: int): Reading
    requires IntegerTag(t)
  {
    var w := ScalarWidth(t);
    var u := i % Pow256(w);
    if t == UInt64 then NumberValue(u)
    else if t in {Short, Int, Int64} then IntegerValue(Signed(u, w))
    else IntegerValue(u)
  }

  /** The field a name selects. */
  function FieldNamed(s: Struct, name: string): Field
    requires Lookup(s.fields, name).Some?
  {
    s.fields[Lookup(s.fields, name).value]
  }

  /** The instance after a write that succeeds. */
  function Written(s: Struct, name: string, v: Value, alloc: nat): Struct
    requires Valid(s) && WriteModelled(s.fields, s.size, name, v)
    requires SetField(s, name, v, alloc).Ok?
  {
    SetField(s, name, v, alloc).value.s
  }

  lemma LoadSplice(bytes: seq<byte>, off: nat, src: seq<byte>, base: nat)
    requires off + |src| <= |bytes|
    ensures Load(Buffer(base, Splice(bytes, off, src)), off, |src|) == src
  {
  }

  /** The field a name selects is a non-array scalar of an instance. */
  predicate ScalarField(s: Struct, name: string) {
    && Valid(s) && s.data.Some? && Lookup(s.fields, name).Some?
    && FieldNamed(s, name).nelements == 0 && !FieldNamed(s, name).tag.IsNested()
  }

  /** A scalar write replaces the buffer's bytes by what the tag's store computes. */
  lemma ScalarWrite(s: Struct, name: string, v: Value, alloc: nat)
    requires ScalarField(s, name) && WriteModelled(s.fields, s.size, name, v)
    ensures FieldFits(FieldNamed(s, name), s.size)
    ensures
      var st := StoreScalar(FieldNamed(s, name), v, s.data.value, alloc);
      && (SetField(s, name, v, alloc).Ok? <==> st.Ok?)
      && (st.Ok? ==>
            SetField(s, name, v, alloc).value ==
            Update(s.(data := Some(Buffer(s.data.value.base, st.value.bytes))), st.value.freed))
  {
    assert FieldFits(FieldNamed(s, name), s.size);
  }

  /** A scalar read decodes the field's bytes. */
  lemma ScalarRead(s: Struct, name: string)
    requires ScalarField(s, name)
    ensures FieldFits(FieldNamed(s, name), s.size)
    ensures GetField(s, name) == Ok(ReadScalar(FieldNamed(s, name).tag, s.data.value, FieldNamed(s, name).offset))
  {
    assert FieldFits(FieldNamed(s, name), s.size);
  }

  /** Integer stores followed by loads, at the level of one field's bytes. */
  lemma IntegerStoreLoad(f: Field, buf: Buffer, i: int, alloc: nat)
    requires f.nelements == 0 && IntegerTag(f.tag) && f.child.None?
    requires f.offset + f.size <= |buf.bytes| && Base(f) <= f.size
    ensures StoreScalar(f, Integer(i), buf, alloc).Ok?
    ensures
      var after := Buffer(buf.base, StoreScalar(f, Integer(i), buf, alloc).value.bytes);
      ReadScalar(f.tag, after, f.offset) == IntegerReading(f.tag, i)
  {
    var w := ScalarWidth(f.tag);
    var bytes := Splice(buf.bytes, f.offset, Encode(i, w));
    assert StoreScalar(f, Integer(i), buf, alloc) == Ok(Stored(bytes, []));
    LoadSplice(buf.bytes, f.offset, Encode(i, w), buf.base);
    DecodeEncode(i, w);
    var after := Buffer(buf.base, bytes);
    assert Decode(Load(after, f.offset, w)) == i % Pow256(w);
    if f.tag == UInt64 {
      assert ReadScalar(f.tag, after, f.offset) == NumberValue(i % Pow256(w));
    } else if f.tag in {Short, Int, Int64} {
      assert ReadScalar(f.tag, after, f.offset) == IntegerValue(Signed(i % Pow256(w), w));
    } else {
      assert ReadScalar(f.tag, after, f.offset) == IntegerValue(i % Pow256(w));
    }
  }

  /**
   * Writing an integer to an integer field and reading it back gives the
   * integer reduced to the field's width and signedness.
   */
  lemma IntegerRoundTrip(s: Struct, name: string, i: int, alloc: nat)
    requires ScalarField(s, name) && IntegerTag(FieldNamed(s, name).tag)
    ensures SetField(s, name, Integer(i), alloc).Ok?
    ensures GetField(Written(s, name, Integer(i), alloc), name) == Ok(IntegerReading(FieldNamed(s, name).tag, i))
  {
    var f := FieldNamed(s, name);
    ScalarWrite(s, name, Integer(i), alloc);
    IntegerStoreLoad(f, s.data.value, i, alloc);
    ScalarRead(Written(s, name, Integer(i), alloc), name);
  }

  /**
   * The read-back equals the written integer exactly when the integer lies in
   * the C type's range.
   */
  lemma IntegerReadingExact(t: Tag, i: int)
    requires IntegerTag(t)
    ensures t != UInt64 ==> (IntegerReading(t, i) == IntegerValue(i) <==> ScalarFits(t, IntegerValue(i)))
    ensures t == UInt64 ==> (IntegerReading(t, i).n == i <==> 0 <= i < 0x1_0000_0000_0000_0000)
  {
    Pow256Values();
    var w := ScalarWidth(t);
    if t in {Short, Int, Int64} {
      SignedExact(i, w);
    } else {
      UnsignedExact(i, w);
    }
  }

  /** A char store followed by a load, at the level of one field's bytes. */
  lemma CharStoreLoad(f: Field, buf: Buffer, v: Value, alloc: nat)
    requires f.nelements == 0 && f.tag == Char && f.child.None? && (v.Integer? || v.Str?)
    requires f.offset + f.size <= |buf.bytes| && Base(f) <= f.size
    ensures StoreScalar(f, v, buf, alloc).Ok?
    ensures
      var after := Buffer(buf.base, StoreScalar(f, v, buf, alloc).value.bytes);
      ReadScalar(Char, after, f.offset) ==
        CharValue(if v.Integer? then v.i % 256 else if |v.text| == 0 then 0 else TextBytes(v.text)[0])
  {
    var c := if v.Integer? then v.i else if |v.text| == 0 then 0 else TextBytes(v.text)[0];
    var enc := Encode(c, 1);
    var bytes := Splice(buf.bytes, f.offset, enc);
    assert StoreScalar(f, v, buf, alloc) == Ok(Stored(bytes, []));
    LoadSplice(buf.bytes, f.offset, enc, buf.base);
    DecodeEncode(c, 1);
    assert Decode(enc) == enc[0];
  }

  /** A 'c' field stores the low byte of an integer, or a string's first byte (0 for ""). */
  lemma CharRoundTrip(s: Struct, name: string, v: Value, alloc: nat)
    requires ScalarField(s, name) && FieldNamed(s, name).tag == Char
    requires v.Integer? || v.Str?
    ensures SetField(s, name, v, alloc).Ok?
    ensures GetField(Written(s, name, v, alloc), name) ==
      Ok(CharValue(if v.Integer? then v.i % 256 else if |v.text| == 0 then 0 else TextBytes(v.text)[0]))
  {
    ScalarWrite(s, name, v, alloc);
    CharStoreLoad(FieldNamed(s, name), s.data.value, v, alloc);
    ScalarRead(Written(s, name, v, alloc), name);
  }

  /**
   * A 'B' write stores 0 into the low two of the field's four bytes whatever
   * the boolean, so a read gives false unless the high two bytes are set:
   * writing true to a zeroed field reads back false.
   */
  lemma BooleanWriteIsLost(s: Struct, name: string, b: bool, alloc: nat)
    requires ScalarField(s, name) && FieldNamed(s, name).tag == Bool
    ensures SetField(s, name, Boolean(b), alloc).Ok?
    ensures
      var off := FieldNamed(s, name).offset;
      GetField(Written(s, name, Boolean(b), alloc), name) ==
        Ok(BooleanValue(Decode(s.data.value.bytes[off + 2..off + 4]) != 0))
  {
    ScalarWrite(s, name, Boolean(b), alloc);
    BooleanStoreLoad(FieldNamed(s, name), s.data.value, b, alloc);
    ScalarRead(Written(s, name, Boolean(b), alloc), name);
  }

  /** A boolean store followed by a load, at the level of one field's bytes. */
  lemma BooleanStoreLoad(f: Field, buf: Buffer, b: bool, alloc: nat)
    requires f.nelements == 0 && f.tag == Bool && f.child.None?
    requires f.offset + f.size <= |buf.bytes| && Base(f) <= f.size
    ensures StoreScalar(f, Boolean(b), buf, alloc).Ok?
    ensures
      var after := Buffer(buf.base, StoreScalar(f, Boolean(b), buf, alloc).value.bytes);
      ReadScalar(Bool, after, f.offset) == BooleanValue(Decode(buf.bytes[f.offset + 2..f.offset + 4]) != 0)
  {
    var stored := Splice(buf.bytes, f.offset, Encode(0, 2));
    assert StoreScalar(f, Boolean(b), buf, alloc) == Ok(Stored(stored, []));
    HalfStoreLoad(buf.bytes, f.offset, buf.base);
  }

  /** After a 2-byte store of 0, a 4-byte load is zero exactly when the upper two bytes are. */
  lemma HalfStoreLoad(bytes: seq<byte>, off: nat, base: nat)
    requires off + 4 <= |bytes|
    ensures
      var after := Load(Buffer(base, Splice(bytes, off, Encode(0, 2))), off, 4);
      (Decode(after) != 0) == (Decode(bytes[off + 2..off + 4]) != 0)
  {
    var after := Load(Buffer(base, Splice(bytes, off, Encode(0, 2))), off, 4);
    assert Encode(0, 2) == [0, 0];
    assert after == [0, 0] + bytes[off + 2..off + 4];
    assert Decode(after) == 0 + 256 * Decode(after[1..]);
    assert Decode(after[1..]) == 0 + 256 * Decode(after[2..]);
    assert after[2..] == bytes[off + 2..off + 4];
  }

  /** An 8-byte pointer store followed by a load returns the pointer. */
  lemma PointerStoreLoad(bytes: seq<byte>, off: nat, x: nat, base: nat)
    requires off + PointerSize <= |bytes| && x < 0x1_0000_0000_0000_0000
    ensures Decode(Load(Buffer(base, Splice(bytes, off, Encode(x, PointerSize))), off, PointerSize)) == x
  {
    LoadSplice(bytes, off, Encode(x, PointerSize), base);
    Pow256Values();
    UnsignedRoundTrip(x, PointerSize);
  }

  /** A 'p' or 'Z' store followed by a load, at the level of one field's bytes. */
  lemma AddressStoreLoad(f: Field, buf: Buffer, v: Value, alloc: nat, x: nat)
    requires f.nelements == 0 && f.child.None? && f.tag in {Pointer, CString}
    requires f.offset + f.size <= |buf.bytes| && Base(f) <= f.size
    requires f.tag == Pointer ==> v.Object? && x == v.ptr
    requires f.tag == CString ==> v.Str? && x == v.addr
    requires x < 0x1_0000_0000_0000_0000
    ensures StoreScalar(f, v, buf, alloc).Ok?
    ensures
      var after := Buffer(buf.base, StoreScalar(f, v, buf, alloc).value.bytes);
      ReadScalar(f.tag, after, f.offset) == (if f.tag == Pointer then PointerValue(x) else StringPointer(x))
  {
    var bytes := Splice(buf.bytes, f.offset, Encode(x, PointerSize));
    assert StoreScalar(f, v, buf, alloc) == Ok(Stored(bytes, []));
    PointerStoreLoad(buf.bytes, f.offset, x, buf.base);
  }

  /** A 'p' field reads back the pointer of the object written to it. */
  lemma PointerRoundTrip(s: Struct, name: string, v: Value, alloc: nat)
    requires ScalarField(s, name) && FieldNamed(s, name).tag == Pointer
    requires v.Object? && v.ptr < 0x1_0000_0000_0000_0000
    ensures SetField(s, name, v, alloc).Ok?
    ensures GetField(Written(s, name, v, alloc), name) == Ok(PointerValue(v.ptr))
  {
    ScalarWrite(s, name, v, alloc);
    AddressStoreLoad(FieldNamed(s, name), s.data.value, v, alloc, v.ptr);
    ScalarRead(Written(s, name, v, alloc), name);
  }

  /** A 'Z' field stores the address of the Lua string's characters, not a copy. */
  lemma CStringRoundTrip(s: Struct, name: string, v: Value, alloc: nat)
    requires ScalarField(s, name) && FieldNamed(s, name).tag == CString
    requires v.Str? && v.addr < 0x1_0000_0000_0000_0000
    ensures SetField(s, name, v, alloc).Ok?
    ensures GetField(Written(s, name, v, alloc), name) == Ok(StringPointer(v.addr))
  {
    ScalarWrite(s, name, v, alloc);
    AddressStoreLoad(FieldNamed(s, name), s.data.value, v, alloc, v.addr);
    ScalarRead(Written(s, name, v, alloc), name);
  }

  /** A 'W' store followed by a load, at the level of one field's bytes. */
  lemma WideStoreLoad(f: Field, buf: Buffer, v: Value, alloc: nat)
    requires f.nelements == 0 && f.child.None? && f.tag == WString && v.Str?
    requires f.offset + f.size <= |buf.bytes| && Base(f) <= f.size
    requires alloc < 0x1_0000_0000_0000_0000
    ensures StoreScalar(f, v, buf, alloc).Ok?
    ensures StoreScalar(f, v, buf, alloc).value.freed ==
      if buf.bytes[f.offset] != 0 then [buf.base + f.offset] else []
    ensures
      var after := Buffer(buf.base, StoreScalar(f, v, buf, alloc).value.bytes);
      ReadScalar(WString, after, f.offset) == WideStringPointer(alloc)
  {
    var bytes := Splice(buf.bytes, f.offset, Encode(alloc, PointerSize));
    var freed := if buf.bytes[f.offset] != 0 then [buf.base + f.offset] else [];
    assert StoreScalar(f, v, buf, alloc) == Ok(Stored(bytes, freed));
    PointerStoreLoad(buf.bytes, f.offset, alloc, buf.base);
  }

  /**
   * A 'W' write stores the new wide copy, and when the field's first byte is
   * non-zero hands free() the address of the field itself, an address inside
   * the record's buffer, rather than the string previously stored there.
   */
  lemma WideStringWrite(s: Struct, name: string, v: Value, alloc: nat)
    requires ScalarField(s, name) && FieldNamed(s, name).tag == WString
    requires v.Str? && alloc < 0x1_0000_0000_0000_0000
    ensures SetField(s, name, v, alloc).Ok?
    ensures GetField(Written(s, name, v, alloc), name) == Ok(WideStringPointer(alloc))
    ensures
      var off := FieldNamed(s, name).offset;
      var base := s.data.value.base;
      var freed := SetField(s, name, v, alloc).value.freed;
      && (s.data.value.bytes[off] != 0 ==> freed == [base + off] && base <= base + off < base + s.size)
      && (s.data.value.bytes[off] == 0 ==> freed == [])
  {
    var f := FieldNamed(s, name);
    ScalarWrite(s, name, v, alloc);
    WideStoreLoad(f, s.data.value, v, alloc);
    ScalarRead(Written(s, name, v, alloc), name);
  }

  /**
   * An array write copies min(len, size) bytes to the start of the field and
   * leaves the rest of the field as it was: a short source is not terminated,
   * a long one is cut. The source is the string's bytes, its UTF-16 units for
   * a 'w' array, or the memory a pointer-capable object exposes.
   */
  lemma ArrayWriteTruncates(s: Struct, name: string, v: Value, alloc: nat)
    requires Valid(s) && s.data.Some? && Lookup(s.fields, name).Some?
    requires FieldNamed(s, name).nelements > 0 && (v.Str? || (v.Object? && v.ptr != 0))
    ensures SetField(s, name, v, alloc).Ok?
    ensures
      var f := FieldNamed(s, name);
      var src := if v.Object? then v.raw else if f.tag == WChar then WideBytes(v.wide) else TextBytes(v.text);
      var m := Min(|src|, f.size);
      var after := Written(s, name, v, alloc).data.value.bytes;
      && after[f.offset..f.offset + m] == src[..m]
      && after[f.offset + m..f.offset + f.size] == s.data.value.bytes[f.offset + m..f.offset + f.size]
  {
    var f := FieldNamed(s, name);
    assert FieldFits(f, s.size);
    var r := StoreArray(f, v, s.data.value.bytes);
    assert Written(s, name, v, alloc).data.value.bytes == r.value;
  }

  /** A 'w' array write stores each UTF-16 unit of the string low byte first, as far as the field reaches. */
  lemma WideArrayUnits(s: Struct, name: string, v: Value, alloc: nat, k: nat)
    requires Valid(s) && s.data.Some? && Lookup(s.fields, name).Some?
    requires FieldNamed(s, name).nelements > 0 && FieldNamed(s, name).tag == WChar && v.Str?
    requires k < |v.wide| && 2 * k + 2 <= FieldNamed(s, name).size
    ensures SetField(s, name, v, alloc).Ok?
    ensures
      var off := FieldNamed(s, name).offset;
      var after := Written(s, name, v, alloc).data.value.bytes;
      after[off + 2 * k] == v.wide[k] % 256 && after[off + 2 * k + 1] == v.wide[k] / 256
  {
    var f := FieldNamed(s, name);
    ArrayWriteTruncates(s, name, v, alloc);
    WideBytesUnits(v.wide);
    var m := Min(2 * |v.wide|, f.size);
    var after := Written(s, name, v, alloc).data.value.bytes;
    assert after[f.offset..f.offset + m][2 * k] == WideBytes(v.wide)[..m][2 * k];
    assert after[f.offset..f.offset + m][2 * k + 1] == WideBytes(v.wide)[..m][2 * k + 1];
  }

  /**
   * A write to one field leaves every read of a scalar field placed before or
   * after it unchanged, provided a nested copy stays within its field.
   */
  lemma WriteIsolation(s: Struct, name: string, v: Value, alloc: nat, k: nat)
    requires Valid(s) && s.data.Some? && WriteModelled(s.fields, s.size, name, v)
    requires Lookup(s.fields, name).Some? && k < |s.fields| && k != Lookup(s.fields, name).value
    requires Span(FieldNamed(s, name), v) <= FieldNamed(s, name).size
    requires s.fields[k].nelements == 0 && !s.fields[k].tag.IsNested()
    requires SetField(s, name, v, alloc).Ok?
    ensures ReadAt(Written(s, name, v, alloc), k) == ReadAt(s, k)
  {
    var a := Lookup(s.fields, name).value;
    var f := s.fields[a];
    var g := s.fields[k];
    assert FieldFits(g, s.size);
    var s' := Written(s, name, v, alloc);
    var w := ScalarWidth(g.tag);
    assert f.offset + f.size <= g.offset || g.offset + g.size <= f.offset;
    assert Load(s'.data.value, g.offset, w) == Load(s.data.value, g.offset, w);
    assert s'.fields == s.fields && s'.size == s.size;
    ReadScalarFrame(g.tag, s'.data.value, s.data.value, g.offset);
    assert ReadAt(s', k) == ReadScalar(g.tag, s'.data.value, g.offset);
  }

  /** A scalar read depends only on the bytes of its own width. */
  lemma ReadScalarFrame(t: Tag, b1: Buffer, b2: Buffer, off: nat)
    requires !t.IsNested() && off + ScalarWidth(t) <= |b1.bytes| && off + ScalarWidth(t) <= |b2.bytes|
    requires Load(b1, off, ScalarWidth(t)) == Load(b2, off, ScalarWidth(t))
    ensures ReadScalar(t, b1, off) == ReadScalar(t, b2, off)
  {
    var n := ScalarWidth(t);
    forall w | 0 <= w <= n
      ensures Load(b1, off, w) == Load(b2, off, w)
    {
      forall q | 0 <= q < w
        ensures Load(b1, off, w)[q] == Load(b2, off, w)[q]
      {
        assert Load(b1, off, n)[q] == Load(b2, off, n)[q];
      }
    }
  }

  /** With distinct names, every field is found by its own name. */
  lemma LookupOwnName(fs: seq<Field>, k: nat)
    requires k < |fs|
    requires forall a, b :: 0 <= a < b < |fs| ==> CStr(fs[a].name) != CStr(fs[b].name)
    ensures Lookup(fs, fs[k].name) == Some(k)
  {
    CStrIdempotent(fs[k].name);
  }

  lemma CStrIdempotent(s: string)
    ensures CStr(CStr(s)) == CStr(s)
  {
    CStrOfNoNul(CStr(s));
  }

  // ---------------------------------------------------------------- ownership

  /** An instance made over a light pointer borrows it: __gc never frees that memory. */
  lemma BorrowedNeverFreed(def: Struct, p: nat, alloc: nat, foreign: seq<byte>, towstring: seq<nat>)
    requires Valid(def) && def.data.None? && CallModelled(def, [LightPointer(p)], foreign, towstring)
    ensures Call(def, [LightPointer(p)], alloc, foreign, towstring).Ok?
    ensures
      var s := Call(def, [LightPointer(p)], alloc, foreign, towstring).value.s;
      s.data.value.base == p && Gc(s).buffer == None
  {
  }

  /** An instance made with no argument owns a zeroed buffer, which __gc frees. */
  lemma FreshBufferFreed(def: Struct, alloc: nat, foreign: seq<byte>, towstring: seq<nat>)
    requires Valid(def) && def.data.None? && CallModelled(def, [], foreign, towstring)
    ensures Call(def, [], alloc, foreign, towstring).Ok?
    ensures
      var s := Call(def, [], alloc, foreign, towstring).value.s;
      && (forall j :: 0 <= j < s.size ==> s.data.value.bytes[j] == 0)
      && Gc(s) == Release([], Some(alloc))
  {
    var s := Call(def, [], alloc, foreign, towstring).value.s;
    NoWideStringsWhenZeroed(s, 0);
  }

  /** A zeroed buffer stores no wide string. */
  lemma {:induction false} NoWideStringsWhenZeroed(s: Struct, k: nat)
    requires Valid(s) && s.data.Some? && k <= |s.fields|
    requires forall j :: 0 <= j < |s.data.value.bytes| ==> s.data.value.bytes[j] == 0
    ensures WideStrings(s, k) == []
    decreases |s.fields| - k
  {
    if k < |s.fields| {
      NoWideStringsWhenZeroed(s, k + 1);
      var f := s.fields[k];
      if f.tag == WString {
        assert FieldFits(f, s.size);
        DecodeZeros(Load(s.data.value, f.offset, PointerSize));
      }
    }
  }

  /**
   * A child view bound by __call lies inside the block __call allocated (or
   * the light pointer's memory), which is the instance's buffer unless a
   * non-Struct object was passed; the
   * child instance made over its address borrows it, so __gc of the child
   * never frees memory the parent owns.
   */
  lemma ChildViewsBorrow(def: Struct, args: seq<Value>, alloc: nat, foreign: seq<byte>, towstring: seq<nat>,
                         j: nat, child: Struct, cforeign: seq<byte>)
    requires Valid(def) && def.data.None? && CallModelled(def, args, foreign, towstring)
    requires Call(def, args, alloc, foreign, towstring).Ok?
    requires j < |Call(def, args, alloc, foreign, towstring).value.s.children|
    requires Valid(child) && child.data.None?
    requires child.size == Call(def, args, alloc, foreign, towstring).value.s.children[j].child.size
    requires CallModelled(child, [LightPointer(Call(def, args, alloc, foreign, towstring).value.s.children[j].address)], cforeign, [0])
    ensures
      var s := Call(def, args, alloc, foreign, towstring).value.s;
      var b := s.children[j];
      var home := if |args| > 0 && args[0].LightPointer? then args[0].addr else alloc;
      && home <= b.address && b.address + child.size <= home + s.size
      && (!(|args| > 0 && args[0].Object? && args[0].kind != StructObject) ==> home == s.data.value.base)
      && Call(child, [LightPointer(b.address)], 0, cforeign, [0]).Ok?
      && Gc(Call(child, [LightPointer(b.address)], 0, cforeign, [0]).value.s).buffer == None
  {
    var s := Call(def, args, alloc, foreign, towstring).value.s;
    var b := s.children[j];
    var f := def.fields[b.field];
    assert FieldFits(f, def.size);
  }

  /**
   * A LuaRT object other than a Struct becomes the buffer only after the
   * child views were bound to the block __call allocated: the views keep
   * pointing there, the instance counts as borrowed, and __gc frees neither
   * the object nor that block.
   */
  lemma ObjectArgumentStaleViews(def: Struct, kind: ObjKind, addr: nat, ptr: nat, raw: seq<byte>,
                                 alloc: nat, foreign: seq<byte>, towstring: seq<nat>)
    requires Valid(def) && def.data.None? && kind != StructObject
    requires CallModelled(def, [Object(kind, addr, ptr, raw)], foreign, towstring)
    ensures Call(def, [Object(kind, addr, ptr, raw)], alloc, foreign, towstring).Ok?
    ensures
      var s := Call(def, [Object(kind, addr, ptr, raw)], alloc, foreign, towstring).value.s;
      && s.data.value == Buffer(addr, foreign)
      && s.children == Bindings(def.fields, alloc, 0)
      && s.owned
      && Gc(s).buffer == None
  {
  }

  /**
   * A nested copy writes the whole source record at the field's offset, so a
   * source larger than the field also overwrites the bytes after the field.
   */
  lemma NestedCopyOverruns(s: Struct, name: string, addr: nat, ptr: nat, raw: seq<byte>, alloc: nat)
    requires Valid(s) && s.data.Some? && Lookup(s.fields, name).Some?
    requires FieldNamed(s, name).nelements == 0 && FieldNamed(s, name).tag == Record
    requires ptr != 0 && FieldNamed(s, name).offset + |raw| <= s.size
    ensures WriteModelled(s.fields, s.size, name, Object(StructObject, addr, ptr, raw))
    ensures SetField(s, name, Object(StructObject, addr, ptr, raw), alloc).Ok?
    ensures
      var f := FieldNamed(s, name);
      var after := Written(s, name, Object(StructObject, addr, ptr, raw), alloc).data.value.bytes;
      forall j :: f.offset <= j < f.offset + |raw| ==> after[j] == raw[j - f.offset]
  {
    var f := FieldNamed(s, name);
    var v := Object(StructObject, addr, ptr, raw);
    assert FieldFits(f, s.size);
    var after := Written(s, name, v, alloc).data.value.bytes;
    assert after == Splice(s.data.value.bytes, f.offset, raw);
  }

  /**
   * The integer form of __call stores the integer's 8 bytes at the start of
   * the buffer, so a 'j' field at offset 0 reads it back.
   */
  lemma IntegerCallStoresInt64(def: Struct, i: int, alloc: nat, foreign: seq<byte>, towstring: seq<nat>, name: string)
    requires Valid(def) && def.data.None? && CallModelled(def, [Integer(i)], foreign, towstring)
    requires Lookup(def.fields, name).Some? && FieldNamed(def, name).nelements == 0
    requires FieldNamed(def, name).tag == Int64 && FieldNamed(def, name).offset == 0
    requires -0x8000_0000_0000_0000 <= i < 0x8000_0000_0000_0000
    ensures Call(def, [Integer(i)], alloc, foreign, towstring).Ok?
    ensures GetField(Call(def, [Integer(i)], alloc, foreign, towstring).value.s, name) == Ok(IntegerValue(i))
  {
    var s := Call(def, [Integer(i)], alloc, foreign, towstring).value.s;
    LoadSplice(Zeros(def.size), 0, Encode(i, 8), alloc);
    Pow256Values();
    SignedRoundTrip(i, 8);
  }

  /**
   * An "i[4][4]" field (64 bytes, extent counter 8) is viewed with elements of
   * 64 / 8 = 8 bytes although an 'i' element is 4 bytes wide.
   */
  lemma MatrixElementSize(base: nat)
    ensures ArrayOf(Field(Int, "m", 0, 64, [4, 4], 8, None), base).elemSize == 8
    ensures ScalarWidth(Int) == 4
  {
  }
}
