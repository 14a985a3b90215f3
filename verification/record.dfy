/**
 * Struct instances and the field accessor (Struct.c): get_field, setfield,
 * __metaindex, __call and __gc over a buffer of bytes. Multi-byte values are
 * stored little-endian, as on Win64.
 */
module Record {
  import opened Wrappers
  import opened CStrings
  import opened Bytes
  import opened Signature
  import opened Layout

  /** One UTF-16 code unit. */
  type unit16 = x: int | 0 <= x < 0x1_0000

  /** What kind of LuaRT object a table value is. */
  datatype ObjKind = StructObject | UnionObject | OtherObject

  /**
   * Host values crossing the accessor. A string carries its wide conversion
   * and the address of its characters; an object carries its own address, the
   * pointer it exposes (0 for NULL) and the bytes there.
   */
  datatype Value =
    | Nil
    | Boolean(b: bool)
    | Integer(i: int)
    | Str(text: string, wide: seq<unit16>, addr: nat)
    | Object(kind: ObjKind, addr: nat, ptr: nat, raw: seq<byte>)
    | Table(entries: seq<(Value, Value)>)
    | LightPointer(addr: nat)

  /** What a field read pushes. */
  datatype Reading =
    | IntegerValue(i: int)
    | BooleanValue(b: bool)
    | CharValue(c: byte)                 // 'c': a one-byte string
    | WideCharValue(unit: nat)           // 'w': a one-unit wide string
    | NumberValue(n: nat)                // an unsigned 64-bit value pushed as a Lua number
    | FloatBits(raw: seq<byte>)          // a float or double pushed as a Lua number
    | StringPointer(addr: nat)           // 'Z': the string at the stored pointer
    | WideStringPointer(addr: nat)       // 'W'
    | PointerValue(addr: nat)            // 'p': a Pointer object
    | ChildView(def: ChildDef, at: Option<nat>)   // the nested record bound to the field
    | ArrayView(tag: Tag, dims: seq<nat>, elemSize: nat, address: nat, child: Option<ChildDef>)

  /** An instance after a write, and the addresses the write handed to free(). */
  datatype Update = Update(s: Struct, freed: seq<nat>)

  /** A buffer after a write, and the addresses the write handed to free(). */
  datatype Stored = Stored(bytes: seq<byte>, freed: seq<nat>)

  /** The bytes of a Lua string. */
  function TextBytes(text: string): (bs: seq<byte>)
    ensures |bs| == |text|
  {
    seq(|text|, k requires 0 <= k < |text| => (text[k] as int) % 256)
  }

  /** The bytes of a wide string, two per code unit. */
  function WideBytes(units: seq<unit16>): (bs: seq<byte>)
    ensures |bs| == 2 * |units|
  {
    if |units| == 0 then [] else Encode(units[0], 2) + WideBytes(units[1..])
  }

  /** Each code unit lands low byte first at twice its index. */
  lemma {:induction false} WideBytesUnits(units: seq<unit16>)
    ensures forall k :: 0 <= k < |units| ==>
      WideBytes(units)[2 * k] == units[k] % 256 && WideBytes(units)[2 * k + 1] == units[k] / 256
  {
    if |units| > 0 {
      WideBytesUnits(units[1..]);
      var bs := WideBytes(units);
      assert bs == Encode(units[0], 2) + WideBytes(units[1..]);
      forall k | 0 <= k < |units|
        ensures bs[2 * k] == units[k] % 256 && bs[2 * k + 1] == units[k] / 256
      {
        if k > 0 {
          assert units[k] == units[1..][k - 1];
          assert bs[2 * k] == WideBytes(units[1..])[2 * (k - 1)];
          assert bs[2 * k + 1] == WideBytes(units[1..])[2 * (k - 1) + 1];
        }
      }
    }
  }

  // ---------------------------------------------------------------- get_field

  function LookupFrom(fs: seq<Field>, key: string, i: nat): (r: Option<nat>)
    requires i <= |fs|
    ensures r.Some? ==> i <= r.value < |fs| && CStr(fs[r.value].name) == key
    ensures r.Some? ==> forall j :: i <= j < r.value ==> CStr(fs[j].name) != key
    ensures r.None? <==> forall j :: i <= j < |fs| ==> CStr(fs[j].name) != key
    decreases |fs| - i
  {
    if i == |fs| then None
    else if CStr(fs[i].name) == key then Some(i)
    else LookupFrom(fs, key, i + 1)
  }

  /** get_field: the first field whose name equals the requested one, by strcmp. */
  function Lookup(fs: seq<Field>, name: string): (r: Option<nat>)
    ensures r.Some? ==> r.value < |fs| && CStr(fs[r.value].name) == CStr(name)
    ensures r.Some? ==> forall j :: 0 <= j < r.value ==> CStr(fs[j].name) != CStr(name)
    ensures r.None? <==> forall j :: 0 <= j < |fs| ==> CStr(fs[j].name) != CStr(name)
  {
    LookupFrom(fs, CStr(name), 0)
  }

  // ---------------------------------------------------------------- validity

  /** A descriptor fits its record and a non-array field holds its base width. */
  predicate FieldFits(f: Field, total: nat) {
    && f.offset + f.size <= total
    && Base(f) <= f.size
    && (f.nelements > 0 <==> |f.dims| > 0)
    && (f.child.Some? <==> f.tag.IsNested())
  }

  /** Fields fit and do not overlap; an instance's buffer has the record's size. */
  predicate Valid(s: Struct) {
    && (forall k :: 0 <= k < |s.fields| ==> FieldFits(s.fields[k], s.size))
    && (forall a, b :: 0 <= a < b < |s.fields| ==> s.fields[a].offset + s.fields[a].size <= s.fields[b].offset)
    && (s.data.Some? ==> |s.data.value.bytes| == s.size)
  }

  /** Every definition the constructor builds is valid. */
  lemma DefinitionValid(signature: string, args: seq<FieldArg>)
    ensures Parse(signature, args).Ok? ==> Valid(Parse(signature, args).value)
  {
    ParseLayout(signature, args);
    if Parse(signature, args).Ok? {
      var s := Parse(signature, args).value;
      Containment(s);
      forall k | 0 <= k < |s.fields|
        ensures FieldFits(s.fields[k], s.size)
      {
        var f := s.fields[k];
        assert Shape(f);
        if |f.dims| > 0 {
          SumPositive(f.dims);
          ProductPositive(f.dims);
          if Base(f) > 0 {
            MulAtLeast(Base(f), Product(f.dims));
          }
        }
      }
      forall a, b | 0 <= a < b < |s.fields|
        ensures s.fields[a].offset + s.fields[a].size <= s.fields[b].offset
      {
        Disjoint(s, a, b);
      }
    }
  }

  lemma {:induction false} ProductPositive(ds: seq<nat>)
    requires AllPositive(ds)
    ensures Product(ds) >= 1
  {
    if |ds| > 0 {
      ProductPositive(ds[..|ds| - 1]);
      MulAtLeast(ds[|ds| - 1], Product(ds[..|ds| - 1]));
    }
  }

  // ---------------------------------------------------------------- setfield

  /** Tags whose accessor converts through a C double (luaL_checknumber / lua_pushnumber). */
  predicate ViaFloat(t: Tag) {
    t in {Float, Double, Long, ULong, Word}
  }

  /** The number of bytes setfield stores for a non-nested scalar tag. */
  function StoreWidth(t: Tag): nat
    requires !t.IsNested()
  {
    match t
    case UChar => 1
    case Char => 1
    case WChar => WCharSize
    case Bool => 2
    case UShort => 2
    case Short => 2
    case Int => 4
    case UInt => 4
    case Float => 4
    case Int64 | UInt64 | Long | ULong | Word | Double => 8
    case CString | Pointer | WString => PointerSize
  }

  /**
   * Every scalar store fills the field's base width, except that a 'B' store
   * falls through to the 16-bit case and fills only half of its 4 bytes.
   */
  lemma StoreWidths(t: Tag)
    requires !t.IsNested()
    ensures t != Bool ==> StoreWidth(t) == ScalarWidth(t)
    ensures t == Bool ==> StoreWidth(t) == 2 && ScalarWidth(t) == 4
  {
  }

  /**
   * The writes this model covers: float conversions, the coercion of numerals
   * and numbers between strings and integers, lua_towstring of a non-string,
   * and a nested copy from a NULL or oversized source are left out.
   */
  predicate WriteModelledFor(f: Field, total: nat, v: Value) {
    f.nelements > 0 ||
    match f.tag
    case Record => v.Object? && v.kind == StructObject ==> v.ptr != 0 && f.offset + |v.raw| <= total
    case Union => v.Object? && v.kind == UnionObject ==> v.ptr != 0 && f.offset + |v.raw| <= total
    case WChar => v.Integer? || v.Str?
    case WString => v.Str?
    case CString => !v.Integer?
    case UShort => !v.Str?
    case Short => !v.Str?
    case Int => !v.Str?
    case UInt => !v.Str?
    case Int64 => !v.Str?
    case UInt64 => !v.Str?
    case _ => !ViaFloat(f.tag)
  }

  predicate WriteModelled(fs: seq<Field>, total: nat, name: string, v: Value) {
    match Lookup(fs, name)
    case None => true
    case Some(k) => WriteModelledFor(fs[k], total, v)
  }

  /** The bytes a write may touch: the field, or the whole source of a nested copy. */
  function Span(f: Field, v: Value): nat {
    if f.nelements == 0 && f.tag.IsNested() && v.Object? then |v.raw| else f.size
  }

  /** lua_tointeger for the values modelled: integers convert, everything else is 0. */
  function ToInteger(v: Value): int {
    if v.Integer? then v.i else 0
  }

  function Min(a: nat, b: nat): nat { if a <= b then a else b }

  /**
   * An array write copies min(len, size) bytes to the start of the field from
   * the wide string (for 'w'), the byte string (any other tag) or the memory
   * an object points to, and keeps the rest of the field; anything else is a
   * type error.
   */
  function StoreArray(f: Field, v: Value, bytes: seq<byte>): (r: Result<seq<byte>, Error>)
    requires f.offset + f.size <= |bytes|
    ensures r.Ok? ==> |r.value| == |bytes|
    ensures r.Ok? ==> forall j :: 0 <= j < |bytes| && !(f.offset <= j < f.offset + f.size) ==> r.value[j] == bytes[j]
    ensures r.Err? <==> !(v.Str? || (v.Object? && v.ptr != 0))
    ensures r.Ok? && v.Str? && f.tag == WChar ==>
      var m := Min(2 * |v.wide|, f.size);
      && r.value[f.offset..f.offset + m] == WideBytes(v.wide)[..m]
      && r.value[f.offset + m..f.offset + f.size] == bytes[f.offset + m..f.offset + f.size]
    ensures r.Ok? && v.Str? && f.tag != WChar ==>
      var m := Min(|v.text|, f.size);
      && r.value[f.offset..f.offset + m] == TextBytes(v.text)[..m]
      && r.value[f.offset + m..f.offset + f.size] == bytes[f.offset + m..f.offset + f.size]
    ensures r.Ok? && v.Object? ==>
      var m := Min(|v.raw|, f.size);
      && r.value[f.offset..f.offset + m] == v.raw[..m]
      && r.value[f.offset + m..f.offset + f.size] == bytes[f.offset + m..f.offset + f.size]
  {
    match v
    case Str(text, wide, _) =>
      var src := if f.tag == WChar then WideBytes(wide) else TextBytes(text);
      Ok(Splice(bytes, f.offset, src[..Min(|src|, f.size)]))
    case Object(_, _, ptr, raw) =>
      if ptr != 0 then Ok(Splice(bytes, f.offset, raw[..Min(|raw|, f.size)]))
      else Err(TypeMismatch(f.tag))
    case _ => Err(TypeMismatch(f.tag))
  }

  /**
   * The bytes a non-array, non-nested write stores: the tag decides the
   * conversion and the width. A 'W' write stores `alloc`, the address of the
   * wide copy.
   */
  function ScalarBytes(t: Tag, v: Value, alloc: nat): (r: Result<seq<byte>, Error>)
    requires !t.IsNested() && !ViaFloat(t)
    ensures r.Ok? ==> |r.value| == StoreWidth(t)
  {
    match t
    case UChar | Char =>
      (match v
       case Integer(i) => Ok(Encode(i, 1))
       case Str(text, _, _) =>
         var c := if |text| == 0 then 0 else TextBytes(text)[0];
         Ok(Encode(c, 1))
       case _ => Err(TypeMismatch(t)))
    case WChar =>
      (match v
       case Integer(i) => Ok(Encode(i, 2))
       case Str(_, wide, _) =>
         var u := if |wide| == 0 then 0 else wide[0];
         Ok(Encode(u, 2))
       case _ => Err(TypeMismatch(t)))
    case Bool =>
      if v.Boolean? then Ok(Encode(ToInteger(v), 2)) else Err(TypeMismatch(t))
    case CString =>
      if v.Str? then Ok(Encode(v.addr, PointerSize)) else Err(TypeMismatch(t))
    case Pointer =>
      if v.Object? then Ok(Encode(v.ptr, PointerSize)) else Err(TypeMismatch(t))
    case WString => Ok(Encode(alloc, PointerSize))
    case UShort | Short | Int | UInt | Int64 | UInt64 => Ok(Encode(ToInteger(v), StoreWidth(t)))
  }

  /**
   * A non-array write. A nested field takes a copy of the source record's
   * bytes; a scalar stores ScalarBytes at its offset, and a 'W' write also
   * hands free() the field's own address when its first byte is non-zero.
   */
  function StoreScalar(f: Field, v: Value, buf: Buffer, alloc: nat): (r: Result<Stored, Error>)
    requires f.offset + f.size <= |buf.bytes| && f.nelements == 0
    requires Base(f) <= f.size && (f.child.Some? <==> f.tag.IsNested())
    requires WriteModelledFor(f, |buf.bytes|, v)
    ensures r.Ok? ==> |r.value.bytes| == |buf.bytes|
    ensures r.Ok? ==> forall j :: 0 <= j < |buf.bytes| && !(f.offset <= j < f.offset + Span(f, v)) ==>
      r.value.bytes[j] == buf.bytes[j]
    ensures r.Ok? && f.tag != WString ==> r.value.freed == []
  {
    var bytes := buf.bytes;
    var off := f.offset;
    if f.tag.IsNested() then
      var kind := if f.tag == Record then StructObject else UnionObject;
      if v.Object? && v.kind == kind then Ok(Stored(Splice(bytes, off, v.raw), []))
      else Err(TypeMismatch(f.tag))
    else
      var src :- ScalarBytes(f.tag, v, alloc);
      assert off + |src| <= |bytes|;
      var freed := if f.tag == WString && bytes[off] != 0 then [buf.base + off] else [];
      Ok(Stored(Splice(bytes, off, src), freed))
  }

  /**
   * setfield: an undefined name and a definition are errors; otherwise the
   * write changes only the bytes of its span and keeps the record valid.
   * `alloc` is the address lua_towstring's copy receives for a 'W' write.
   */
  function SetField(s: Struct, name: string, v: Value, alloc: nat): (r: Result<Update, Error>)
    requires Valid(s) && WriteModelled(s.fields, s.size, name, v)
    ensures Lookup(s.fields, name).None? ==> r == Err(UnknownField(name))
    ensures Lookup(s.fields, name).Some? && s.data.None? ==> r == Err(ImmutableDefinition)
    ensures r.Err? ==> r.error in {UnknownField(name), ImmutableDefinition} || r.error.TypeMismatch?
    ensures r.Ok? ==> s.data.Some? && Lookup(s.fields, name).Some?
    ensures r.Ok? ==> Valid(r.value.s) && r.value.s.data.Some?
    ensures r.Ok? ==> r.value.s == s.(data := Some(Buffer(s.data.value.base, r.value.s.data.value.bytes)))
    ensures r.Ok? ==>
      var f := s.fields[Lookup(s.fields, name).value];
      forall j :: 0 <= j < s.size && !(f.offset <= j < f.offset + Span(f, v)) ==>
        r.value.s.data.value.bytes[j] == s.data.value.bytes[j]
  {
    match Lookup(s.fields, name)
    case None => Err(UnknownField(name))
    case Some(k) =>
      if s.data.None? then Err(ImmutableDefinition)
      else
        var f := s.fields[k];
        var buf := s.data.value;
        assert FieldFits(f, s.size);
        if f.nelements > 0 then
          var bytes :- StoreArray(f, v, buf.bytes);
          Ok(Update(s.(data := Some(Buffer(buf.base, bytes))), []))
        else
          var st :- StoreScalar(f, v, buf, alloc);
          Ok(Update(s.(data := Some(Buffer(buf.base, st.bytes))), st.freed))
  }

  // ---------------------------------------------------------------- __metaindex

  function FindBinding(children: seq<Binding>, k: nat): (r: Option<nat>)
    ensures r.Some? ==> r.value < |children| && children[r.value].field == k
    ensures r.None? <==> forall j :: 0 <= j < |children| ==> children[j].field != k
  {
    if |children| == 0 then None
    else if children[0].field == k then Some(0)
    else match FindBinding(children[1..], k)
      case None => None
      case Some(j) => Some(j + 1)
  }

  /**
   * The reads this model covers: an instance, or on a definition an array or
   * nested field of a record with a second field (the source consults the
   * second descriptor first); a nested field of an instance needs its child
   * bound. Scalar reads on a definition dereference NULL and are left out.
   */
  predicate ReadModelled(s: Struct, name: string) {
    match Lookup(s.fields, name)
    case None => true
    case Some(k) =>
      var f := s.fields[k];
      if s.data.None? then (f.nelements > 0 || f.tag.IsNested()) && |s.fields| >= 2
      else f.nelements == 0 && f.tag.IsNested() ==> FindBinding(s.children, k).Some?
  }

  function Load(buf: Buffer, off: nat, w: nat): (bs: seq<byte>)
    requires off + w <= |buf.bytes|
    ensures |bs| == w
  {
    buf.bytes[off..off + w]
  }

  /** The range each scalar tag's read can produce. */
  predicate ScalarFits(t: Tag, r: Reading) {
    match t
    case Record => false
    case Union => false
    case UChar => r.IntegerValue? && 0 <= r.i < 0x100
    case Char => r.CharValue?
    case WChar => r.WideCharValue? && r.unit < 0x1_0000
    case Bool => r.BooleanValue?
    case UShort => r.IntegerValue? && 0 <= r.i < 0x1_0000
    case Short => r.IntegerValue? && -0x8000 <= r.i < 0x8000
    case UInt => r.IntegerValue? && 0 <= r.i < 0x1_0000_0000
    case Int => r.IntegerValue? && -0x8000_0000 <= r.i < 0x8000_0000
    case Int64 => r.IntegerValue? && -0x8000_0000_0000_0000 <= r.i < 0x8000_0000_0000_0000
    case Long => r.IntegerValue? && -0x8000_0000_0000_0000 <= r.i < 0x8000_0000_0000_0000
    case UInt64 => r.NumberValue? && r.n < 0x1_0000_0000_0000_0000
    case ULong => r.NumberValue? && r.n < 0x1_0000_0000_0000_0000
    case Word => r.NumberValue? && r.n < 0x1_0000_0000_0000_0000
    case Float => r.FloatBits? && |r.raw| == 4
    case Double => r.FloatBits? && |r.raw| == 8
    case CString => r.StringPointer? && r.addr < 0x1_0000_0000_0000_0000
    case Pointer => r.PointerValue? && r.addr < 0x1_0000_0000_0000_0000
    case WString => r.WideStringPointer? && r.addr < 0x1_0000_0000_0000_0000
  }

  /** The shape of a field read: an array view, the nested child, or a scalar in range. */
  predicate ReadingFits(f: Field, r: Reading) {
    if f.nelements > 0 then
      r.ArrayView? && r.tag == f.tag && r.dims == f.dims && r.child == f.child
    else if f.tag.IsNested() then
      r.ChildView? && Some(r.def) == f.child
    else
      ScalarFits(f.tag, r)
  }

  /** A scalar read: the field's bytes decoded at the tag's width and signedness. */
  function ReadScalar(t: Tag, buf: Buffer, off: nat): (r: Reading)
    requires !t.IsNested() && off + ScalarWidth(t) <= |buf.bytes|
    ensures ScalarFits(t, r)
  {
    ReadScalarFits(t, buf, off);
    Pow256Values();
    match t
    case UChar => IntegerValue(Decode(Load(buf, off, 1)))
    case Char => CharValue(Load(buf, off, 1)[0])
    case WChar => WideCharValue(Decode(Load(buf, off, WCharSize)))
    case Bool => BooleanValue(Decode(Load(buf, off, 4)) != 0)
    case UShort => IntegerValue(Decode(Load(buf, off, 2)))
    case Short => IntegerValue(Signed(Decode(Load(buf, off, 2)), 2))
    case UInt => IntegerValue(Decode(Load(buf, off, 4)))
    case Int => IntegerValue(Signed(Decode(Load(buf, off, 4)), 4))
    case Int64 | Long => IntegerValue(Signed(Decode(Load(buf, off, 8)), 8))
    case UInt64 | ULong | Word => NumberValue(Decode(Load(buf, off, 8)))
    case Float => FloatBits(Load(buf, off, 4))
    case Double => FloatBits(Load(buf, off, 8))
    case CString => StringPointer(Decode(Load(buf, off, PointerSize)))
    case Pointer => PointerValue(Decode(Load(buf, off, PointerSize)))
    case WString => WideStringPointer(Decode(Load(buf, off, PointerSize)))
  }

  /**
   * __metaindex: an undefined name is an error; an array field gives a view
   * whose element size is the field size divided by the extent counter; a
   * nested field gives its bound child; a scalar gives the decoded bytes.
   */
  function GetField(s: Struct, name: string): (r: Result<Reading, Error>)
    requires Valid(s) && ReadModelled(s, name)
    ensures r.Err? <==> Lookup(s.fields, name).None?
    ensures r.Err? ==> r.error == UnknownField(name)
    ensures r.Ok? ==> ReadingFits(s.fields[Lookup(s.fields, name).value], r.value)
    ensures r.Ok? && r.value.ArrayView? ==>
      var f := s.fields[Lookup(s.fields, name).value];
      && r.value.elemSize * f.nelements <= f.size
      && r.value.address == (if s.data.Some? then s.data.value.base else 0) + f.offset
  {
    match Lookup(s.fields, name)
    case None => Err(UnknownField(name))
    case Some(k) =>
      assert FieldFits(s.fields[k], s.size);
      Ok(ReadAt(s, k))
  }

  /** The read of field k once it is found. */
  function ReadAt(s: Struct, k: nat): (r: Reading)
    requires Valid(s) && k < |s.fields|
    requires s.data.None? ==> s.fields[k].nelements > 0 || s.fields[k].tag.IsNested()
    requires s.data.Some? && s.fields[k].nelements == 0 && s.fields[k].tag.IsNested() ==>
      FindBinding(s.children, k).Some?
    ensures ReadingFits(s.fields[k], r)
    ensures r.ArrayView? ==>
      && r.elemSize * s.fields[k].nelements <= s.fields[k].size
      && r.address == (if s.data.Some? then s.data.value.base else 0) + s.fields[k].offset
  {
    var f := s.fields[k];
    assert FieldFits(f, s.size);
    var base := if s.data.Some? then s.data.value.base else 0;
    if f.nelements > 0 then
      ArrayOf(f, base)
    else if f.tag.IsNested() then
      if s.data.None? then ChildView(f.child.value, None)
      else ChildView(f.child.value, Some(s.children[FindBinding(s.children, k).value].address))
    else
      ReadScalar(f.tag, s.data.value, f.offset)
  }

  /** An array field's view: element size is the field size over the extent counter. */
  function ArrayOf(f: Field, base: nat): (r: Reading)
    requires f.nelements > 0
    ensures r.ArrayView? && r.tag == f.tag && r.dims == f.dims && r.child == f.child
    ensures r.elemSize * f.nelements <= f.size && r.address == base + f.offset
  {
    var e := f.size / f.nelements;
    assert e * f.nelements + f.size % f.nelements == f.size;
    ArrayView(f.tag, f.dims, e, base + f.offset, f.child)
  }

  /** Signed reads land in the two's-complement range, unsigned ones below 256^w. */
  lemma ReadScalarFits(t: Tag, buf: Buffer, off: nat)
    requires !t.IsNested() && off + ScalarWidth(t) <= |buf.bytes|
    ensures
      var u := Decode(Load(buf, off, ScalarWidth(t)));
      && u < Pow256(ScalarWidth(t))
      && (t in {Short, Int, Int64, Long} ==>
            -(Pow256(ScalarWidth(t)) / 2) <= Signed(u, ScalarWidth(t)) < Pow256(ScalarWidth(t)) / 2)
  {
    var w := ScalarWidth(t);
    var u := Decode(Load(buf, off, w));
    if t in {Short, Int, Int64, Long} {
      SignedRange(u, w);
    }
  }

  // ---------------------------------------------------------------- __call

  /**
   * init_field_struct: each non-array nested field from k on gets a child view
   * over the parent's bytes at the field's address, made by calling the
   * nested definition with that address (so the child borrows its buffer).
   */
  function Bindings(fs: seq<Field>, base: nat, k: nat): (r: seq<Binding>)
    requires k <= |fs|
    ensures forall j :: 0 <= j < |r| ==> k <= r[j].field < |fs|
    ensures forall j :: 0 <= j < |r| ==>
      && fs[r[j].field].nelements == 0 && Some(r[j].child) == fs[r[j].field].child
      && r[j].address == base + fs[r[j].field].offset
    ensures forall j :: k <= j < |fs| && fs[j].nelements == 0 && fs[j].child.Some? ==>
      FindBinding(r, j).Some?
    decreases |fs| - k
  {
    if k == |fs| then []
    else
      var rest := Bindings(fs, base, k + 1);
      if fs[k].nelements == 0 && fs[k].child.Some? then
        [Binding(k, base + fs[k].offset, fs[k].child.value)] + rest
      else rest
  }

  /** A new instance of a definition over the given buffer. */
  function Instantiate(def: Struct, buf: Buffer, borrowed: bool): (s: Struct)
    requires Valid(def) && |buf.bytes| == def.size
    ensures Valid(s) && s.data == Some(buf) && s.owned == borrowed
    ensures s.fields == def.fields && s.size == def.size
    ensures forall k :: 0 <= k < |s.fields| && s.fields[k].nelements == 0 && s.fields[k].tag.IsNested() ==>
      FindBinding(s.children, k).Some?
  {
    Struct(def.fields, def.size, Some(buf), borrowed, Bindings(def.fields, buf.base, 0))
  }

  /** The same record over another buffer of its size, borrowed or owned. */
  function WithBuffer(s: Struct, buf: Buffer, borrowed: bool): (r: Struct)
    requires Valid(s) && |buf.bytes| == s.size
    ensures Valid(r) && r.data == Some(buf) && r.owned == borrowed
    ensures r.fields == s.fields && r.size == s.size && r.children == s.children
  {
    s.(data := Some(buf), owned := borrowed)
  }

  function Zeros(n: nat): (bs: seq<byte>)
    ensures |bs| == n && forall j :: 0 <= j < n ==> bs[j] == 0
  {
    seq(n, j => 0)
  }

  /** Writes whose outcome the model covers, for every key-value pair of a table. */
  predicate EntriesModelled(fs: seq<Field>, total: nat, entries: seq<(Value, Value)>) {
    forall j :: 0 <= j < |entries| ==>
      && !entries[j].0.Integer?
      && (entries[j].0.Str? ==> WriteModelled(fs, total, entries[j].0.text, entries[j].1))
  }

  /** Positional arguments name the fields in order. */
  predicate ArgsModelled(fs: seq<Field>, total: nat, args: seq<Value>) {
    && |args| <= |fs|
    && forall j :: 0 <= j < |args| ==> WriteModelled(fs, total, fs[j].name, args[j])
  }

  /**
   * The table form: each entry sets the field its string key names, in
   * traversal order; a key that is not a string is an error. The k-th write
   * of a 'W' field receives the wide copy at towstring[k].
   */
  function ApplyEntries(s: Struct, entries: seq<(Value, Value)>, towstring: seq<nat>, k: nat, freed: seq<nat>)
    : (r: Result<Update, Error>)
    requires Valid(s) && s.data.Some? && EntriesModelled(s.fields, s.size, entries)
    requires k <= |entries| <= |towstring|
    ensures r.Err? ==> r.error != NotADefinition
    ensures r.Ok? ==> Valid(r.value.s) && r.value.s.data.Some?
    ensures r.Ok? ==> r.value.s == s.(data := r.value.s.data)
    ensures r.Ok? ==> r.value.s.data.value.base == s.data.value.base
    decreases |entries| - k
  {
    if k == |entries| then Ok(Update(s, freed))
    else
      var (key, value) := entries[k];
      if !key.Str? then Err(ExpectingString)
      else
        var u :- SetField(s, key.text, value, towstring[k]);
        ApplyEntries(u.s, entries, towstring, k + 1, freed + u.freed)
  }

  /** The positional form: the k-th argument sets the k-th field, found again by its name. */
  function ApplyArgs(s: Struct, args: seq<Value>, towstring: seq<nat>, k: nat, freed: seq<nat>)
    : (r: Result<Update, Error>)
    requires Valid(s) && s.data.Some? && ArgsModelled(s.fields, s.size, args)
    requires k <= |args| <= |towstring|
    ensures r.Err? ==> r.error != NotADefinition
    ensures r.Ok? ==> Valid(r.value.s) && r.value.s.data.Some?
    ensures r.Ok? ==> r.value.s == s.(data := r.value.s.data)
    ensures r.Ok? ==> r.value.s.data.value.base == s.data.value.base
    decreases |args| - k
  {
    if k == |args| then Ok(Update(s, freed))
    else
      var u :- SetField(s, s.fields[k].name, args[k], towstring[k]);
      ApplyArgs(u.s, args, towstring, k + 1, freed + u.freed)
  }

  /** Whether the first argument makes the instance borrow its buffer. */
  predicate Borrows(args: seq<Value>) {
    |args| > 0 && (args[0].LightPointer? || (args[0].Object? && args[0].kind != StructObject))
  }

  /**
   * What __call needs beyond a valid definition: the bytes of a borrowed
   * buffer, a Struct source that is an instance and fits, room for the 8-byte
   * integer form, and the writes of the table or positional form.
   */
  predicate CallModelled(def: Struct, args: seq<Value>, foreign: seq<byte>, towstring: seq<nat>) {
    && |foreign| == def.size
    && |args| <= |towstring|
    && (|args| > 0 ==>
      match args[0]
      case LightPointer(_) => true
      case Object(kind, _, ptr, raw) => kind == StructObject ==> ptr != 0 && |raw| <= def.size
      case Table(entries) => |entries| <= |towstring| && EntriesModelled(def.fields, def.size, entries)
      case Integer(_) => def.size >= 8
      case _ => ArgsModelled(def.fields, def.size, args))
  }

  /**
   * __call: a definition makes an instance. A light pointer makes it borrow
   * that memory; otherwise it owns a zeroed buffer at `alloc`, which a Struct
   * argument fills with its bytes, an integer with its 8 bytes, a table by
   * name and other arguments in field order. Any other LuaRT object is
   * borrowed in place of the buffer, after the children were bound to it.
   */
  function Call(def: Struct, args: seq<Value>, alloc: nat, foreign: seq<byte>, towstring: seq<nat>)
    : (r: Result<Update, Error>)
    requires Valid(def) && CallModelled(def, args, foreign, towstring)
    ensures def.data.Some? <==> r.Err? && r.error == NotADefinition
    ensures r.Ok? ==> Valid(r.value.s) && r.value.s.data.Some?
    ensures r.Ok? ==> r.value.s.fields == def.fields && r.value.s.size == def.size
    ensures r.Ok? ==> (r.value.s.owned <==> Borrows(args))
    ensures r.Ok? && |args| == 0 ==> r.value.s.data.value == Buffer(alloc, Zeros(def.size))
    ensures r.Ok? && |args| > 0 && args[0].LightPointer? ==> r.value.s.data.value == Buffer(args[0].addr, foreign)
    ensures r.Ok? && |args| > 0 && args[0].Object? && args[0].kind != StructObject ==>
      r.value.s.data.value == Buffer(args[0].addr, foreign)
    ensures r.Ok? && !Borrows(args) ==> r.value.s.data.value.base == alloc
    ensures r.Ok? ==>
      var home := if |args| > 0 && args[0].LightPointer? then args[0].addr else alloc;
      r.value.s.children == Bindings(def.fields, home, 0)
  {
    if def.data.Some? then Err(NotADefinition)
    else Make(def, args, alloc, foreign, towstring)
  }

  /** __call on a definition: what the first argument does with the new instance. */
  function Make(def: Struct, args: seq<Value>, alloc: nat, foreign: seq<byte>, towstring: seq<nat>)
    : (r: Result<Update, Error>)
    requires Valid(def) && CallModelled(def, args, foreign, towstring)
    ensures r.Err? ==> r.error != NotADefinition
    ensures r.Ok? ==> Valid(r.value.s) && r.value.s.data.Some?
    ensures r.Ok? ==> r.value.s.fields == def.fields && r.value.s.size == def.size
    ensures r.Ok? ==> (r.value.s.owned <==> Borrows(args))
    ensures r.Ok? && |args| == 0 ==> r.value.s.data.value == Buffer(alloc, Zeros(def.size))
    ensures r.Ok? && |args| > 0 && args[0].LightPointer? ==> r.value.s.data.value == Buffer(args[0].addr, foreign)
    ensures r.Ok? && |args| > 0 && args[0].Object? && args[0].kind != StructObject ==>
      r.value.s.data.value == Buffer(args[0].addr, foreign)
    ensures r.Ok? && !Borrows(args) ==> r.value.s.data.value.base == alloc
    ensures r.Ok? ==>
      var home := if |args| > 0 && args[0].LightPointer? then args[0].addr else alloc;
      r.value.s.children == Bindings(def.fields, home, 0)
  {
    var inst := Instantiate(def, Buffer(alloc, Zeros(def.size)), false);
    assert inst.fields == def.fields && inst.size == def.size;
    if |args| == 0 then Ok(Update(inst, []))
    else match args[0]
      case LightPointer(p) => Ok(Update(Instantiate(def, Buffer(p, foreign), true), []))
      case Object(kind, addr, _, raw) =>
        if kind == StructObject then
          Ok(Update(WithBuffer(inst, Buffer(alloc, Splice(Zeros(def.size), 0, raw)), false), []))
        else
          Ok(Update(WithBuffer(inst, Buffer(addr, foreign), true), []))
      case Integer(i) => Ok(Update(WithBuffer(inst, Buffer(alloc, Splice(Zeros(def.size), 0, Encode(i, 8))), false), []))
      case _ => Fill(inst, args, towstring)
  }

  /** The table and positional forms of __call fill the zeroed buffer through setfield. */
  function Fill(inst: Struct, args: seq<Value>, towstring: seq<nat>): (r: Result<Update, Error>)
    requires Valid(inst) && inst.data.Some? && 0 < |args| <= |towstring|
    requires args[0].Table? ==>
      |args[0].entries| <= |towstring| && EntriesModelled(inst.fields, inst.size, args[0].entries)
    requires !args[0].Table? ==> ArgsModelled(inst.fields, inst.size, args)
    ensures r.Err? ==> r.error != NotADefinition
    ensures r.Ok? ==> Valid(r.value.s) && r.value.s.data.Some?
    ensures r.Ok? ==> r.value.s == inst.(data := r.value.s.data)
    ensures r.Ok? ==> r.value.s.data.value.base == inst.data.value.base
  {
    if args[0].Table? then ApplyEntries(inst, args[0].entries, towstring, 0, [])
    else ApplyArgs(inst, args, towstring, 0, [])
  }

  // ---------------------------------------------------------------- __gc

  /** What __gc hands to free(): the wide strings of 'W' fields, then the buffer. */
  datatype Release = Release(strings: seq<nat>, buffer: Option<nat>)

  /** The pointer stored at the start of field k, if it is a 'W' field. */
  predicate StoresWideString(s: Struct, k: nat, p: nat)
    requires Valid(s) && s.data.Some?
  {
    k < |s.fields| && s.fields[k].tag == WString &&
    (assert FieldFits(s.fields[k], s.size);
     Decode(Load(s.data.value, s.fields[k].offset, PointerSize)) == p)
  }

  function WideStrings(s: Struct, k: nat): (r: seq<nat>)
    requires Valid(s) && s.data.Some? && k <= |s.fields|
    ensures forall p :: p in r <==> p != 0 && exists j :: k <= j && StoresWideString(s, j, p)
    decreases |s.fields| - k
  {
    if k == |s.fields| then []
    else
      var rest := WideStrings(s, k + 1);
      var f := s.fields[k];
      if f.tag == WString then
        assert FieldFits(f, s.size);
        var p := Decode(Load(s.data.value, f.offset, PointerSize));
        if p != 0 then
          assert StoresWideString(s, k, p);
          [p] + rest
        else rest
      else rest
  }

  /**
   * __gc: an instance frees the wide string of every 'W' field (free(NULL)
   * does nothing), and the buffer is freed exactly when it is present and
   * not borrowed.
   */
  function Gc(s: Struct): (r: Release)
    requires Valid(s)
    ensures r.buffer.Some? <==> s.data.Some? && !s.owned
    ensures r.buffer.Some? ==> r.buffer.value == s.data.value.base
    ensures s.data.None? ==> r.strings == []
    ensures s.data.Some? ==> forall p :: p in r.strings <==> p != 0 && exists k :: StoresWideString(s, k, p)
  {
    if s.data.None? then Release([], None)
    else Release(WideStrings(s, 0), if s.owned then None else Some(s.data.value.base))
  }
}
