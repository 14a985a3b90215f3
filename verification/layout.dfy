/**
 * The signature branch of the Struct constructor (Struct.c): a left-to-right
 * fold over the signature that turns each tag and its "[n]" suffixes into a
 * field descriptor with an offset, a byte size and array dimensions, and the
 * record's total size. A signature is parsed into a definition: a Struct
 * with no buffer.
 */
module Layout {
  import opened Wrappers
  import opened CStrings
  import opened Bytes
  import opened Signature

  /** Every failure the engine raises, at parse time or on field access. */
  datatype Error =
    | UnknownTag(c: char)            // "Unknown '%c' signature character"
    | BadArraySize                   // "bad array size": an extent of 0
    | MalformedArray(c: char)        // digits not followed by ']'
    | ExpectingArrayLength(c: char)  // neither digits nor ']' after '['
    | NotARecord(tag: Tag)           // a '.'/'u' field without a Struct/Union companion
    | MissingName(index: nat)        // "expecting string, found nil"
    | UnknownField(name: string)     // get or set of an undefined field
    | ImmutableDefinition            // set on a definition, which has no buffer
    | TypeMismatch(tag: Tag)         // a value the field cannot take
    | NotADefinition                 // __call on an instance
    | ExpectingString                // a table key that is not a string

  /** A nested definition bound to a '.' or 'u' field: its identity, kind and size. */
  datatype ChildDef = ChildDef(id: nat, isUnion: bool, size: nat)

  /**
   * The constructor argument paired with one field: a plain field name, or for
   * a '.'/'u' field a one-entry table { name = definition }.
   */
  datatype FieldArg = Name(name: string) | Nested(name: string, child: ChildDef)

  /** A field descriptor. `nelements` is the source's extent counter, not a product. */
  datatype Field = Field(
    tag: Tag,
    name: string,
    offset: nat,
    size: nat,
    dims: seq<nat>,
    nelements: nat,
    child: Option<ChildDef>)
  {
    function Ndim(): nat { |dims| }
  }

  /** Backing memory: its address and its bytes. */
  datatype Buffer = Buffer(base: nat, bytes: seq<byte>)

  /** A nested field's live child view: which field, at which address, of which definition. */
  datatype Binding = Binding(field: nat, address: nat, child: ChildDef)

  /**
   * One type for both roles, as in the source: a definition has no data; an
   * instance has a buffer. `owned` keeps the source's meaning: TRUE marks a
   * BORROWED buffer, which __gc never frees.
   */
  datatype Struct = Struct(
    fields: seq<Field>,
    size: nat,
    data: Option<Buffer>,
    owned: bool,
    children: seq<Binding>)

  /** The running counters of get_offset: padding, largest and last. */
  datatype Tracker = Tracker(padding: nat, largest: nat, last: nat)

  /** The outcome of the "[n]" loop: byte count, extents, extent counter, index of its last character. */
  datatype Extents = Extents(bytes: nat, dims: seq<nat>, nelements: nat, end: nat)
  datatype Groups = Groups(dims: seq<nat>, end: nat)

  /** The outcome of one get_offset call: the descriptor, where the next field starts, the counters. */
  datatype Step = Step(field: Field, next: nat, tracker: Tracker)

  function Max(a: nat, b: nat): nat { if a >= b then a else b }

  function Product(ds: seq<nat>): nat {
    if |ds| == 0 then 1 else Product(ds[..|ds| - 1]) * ds[|ds| - 1]
  }

  function Sum(ds: seq<nat>): nat {
    if |ds| == 0 then 0 else Sum(ds[..|ds| - 1]) + ds[|ds| - 1]
  }

  predicate AllPositive(ds: seq<nat>) {
    forall k :: 0 <= k < |ds| ==> ds[k] > 0
  }

  // ---------------------------------------------------------------- the fold

  /**
   * The "[n]" loop of get_offset after the character at j: the extents read,
   * in order, and the index of the last character consumed.
   */
  function ExtentGroups(sig: string, j: nat, dims: seq<nat>): (r: Result<Groups, Error>)
    requires j < |sig| && AllPositive(dims)
    ensures r.Ok? ==> j <= r.value.end < |sig|
    ensures r.Ok? ==> r.value.end + 1 == |sig| || sig[r.value.end + 1] != '['
    ensures r.Ok? ==> AllPositive(r.value.dims)
    ensures r.Ok? ==> GroupsBetween(sig, j + 1, r.value.end + 1)
    decreases |sig| - j
  {
    if j + 1 < |sig| && sig[j + 1] == '[' then
      var n := StrtolDigits(sig, j + 2);
      var end := j + 2 + DigitRun(sig, j + 2);
      if end < |sig| && sig[end] == ']' then
        if n == 0 then Err(BadArraySize)
        else ExtentGroups(sig, end, dims + [n])
      else if n != 0 then Err(MalformedArray(sig[j]))
      else Err(ExpectingArrayLength(sig[j]))
    else
      Ok(Groups(dims, j))
  }

  /**
   * get_offset's extents: each one multiplies the byte count and is ADDED to
   * the extent counter, so the byte count is the base width times the product
   * of the extents and the counter is their sum.
   */
  function ParseExtents(sig: string, j: nat, base: nat): (r: Result<Extents, Error>)
    requires j < |sig|
    ensures r.Ok? ==> j <= r.value.end < |sig|
    ensures r.Ok? ==> r.value.end + 1 == |sig| || sig[r.value.end + 1] != '['
    ensures r.Ok? ==> r.value.bytes == base * Product(r.value.dims)
    ensures r.Ok? ==> r.value.nelements == Sum(r.value.dims) && AllPositive(r.value.dims)
    ensures r.Ok? ==> GroupsBetween(sig, j + 1, r.value.end + 1)
  {
    var g :- ExtentGroups(sig, j, []);
    Ok(Extents(base * Product(g.dims), g.dims, Sum(g.dims), g.end))
  }

  /** sig[a..b] is a run of "[digits]" groups. */
  predicate GroupsBetween(sig: string, a: nat, b: nat)
    decreases b - a
  {
    a <= b <= |sig| &&
    (a == b ||
     (a + 1 <= |sig| && sig[a] == '[' &&
      var e := a + 1 + DigitRun(sig, a + 1);
      e < b && sig[e] == ']' && GroupsBetween(sig, e + 1, b)))
  }

  /**
   * The numbers written in the "[n]" groups that follow index j and close at
   * index end, in order, as strtol reads them.
   */
  function GroupValues(sig: string, j: nat, end: nat): (ds: seq<nat>)
    decreases end - j
  {
    if end <= j || |sig| <= j + 1 then []
    else
      var close := j + 2 + DigitRun(sig, j + 2);
      if end < close then [] else [StrtolDigits(sig, j + 2)] + GroupValues(sig, close, end)
  }

  /** A run of "[digits]" groups leaves no trace in the bracket-free text. */
  lemma {:induction false} GroupsVanish(sig: string, a: nat, b: nat)
    requires GroupsBetween(sig, a, b)
    ensures RemoveBrackets(sig[a..]) == RemoveBrackets(sig[b..])
    decreases b - a
  {
    if a < b {
      var e := a + 1 + DigitRun(sig, a + 1);
      assert forall q :: a + 1 <= q < e ==> IsDigit(sig[q]);
      SkipGroupTo(sig, a + 1, e);
      var t := sig[a..];
      assert t[0] == '[' && t[1..] == sig[a + 1..];
      assert RemoveBrackets(t) == RemoveBrackets(SkipGroup(t[1..]));
      assert SkipGroup(t[1..]) == sig[e + 1..];
      GroupsVanish(sig, e + 1, b);
      assert RemoveBrackets(sig[a..]) == RemoveBrackets(sig[e + 1..]);
    }
  }

  /** One turn of the "[n]" loop that does not fail: it reads a positive n and continues after the ']'. */
  lemma ExtentGroupsStep(sig: string, j: nat, dims: seq<nat>, g: Groups)
    requires j < |sig| && AllPositive(dims) && ExtentGroups(sig, j, dims) == Ok(g)
    requires j + 1 < |sig| && sig[j + 1] == '['
    ensures
      var end := j + 2 + DigitRun(sig, j + 2);
      && end < |sig| && StrtolDigits(sig, j + 2) > 0
      && AllPositive(dims + [StrtolDigits(sig, j + 2)])
      && ExtentGroups(sig, end, dims + [StrtolDigits(sig, j + 2)]) == Ok(g)
  {
  }

  /** A group that closes by `end` contributes its number first. */
  lemma GroupValuesHead(sig: string, j: nat, end: nat, n: nat, close: nat)
    requires j + 1 < |sig| && close == j + 2 + DigitRun(sig, j + 2) && j < close <= end
    requires n == StrtolDigits(sig, j + 2)
    ensures GroupValues(sig, j, end) == [n] + GroupValues(sig, close, end)
  {
  }

  /** The numbers read before a group, that group's number, then the rest: the numbers from the group on. */
  lemma GroupValuesShift(sig: string, j: nat, end: nat, n: nat, close: nat, dims: seq<nat>, all: seq<nat>)
    requires j + 1 < |sig| && close == j + 2 + DigitRun(sig, j + 2) && j < close <= end
    requires n == StrtolDigits(sig, j + 2)
    requires all == (dims + [n]) + GroupValues(sig, close, end)
    ensures all == dims + GroupValues(sig, j, end)
  {
    GroupValuesHead(sig, j, end, n, close);
    var rest := GroupValues(sig, close, end);
    assert (dims + [n]) + rest == dims + ([n] + rest);
  }

  /** The extents the loop collects are the numbers inside the brackets, in order, after those already read. */
  lemma {:induction false} ExtentGroupsValues(sig: string, j: nat, dims: seq<nat>, g: Groups)
    requires j < |sig| && AllPositive(dims) && ExtentGroups(sig, j, dims) == Ok(g)
    ensures g.dims == dims + GroupValues(sig, j, g.end)
    decreases |sig| - j
  {
    if j + 1 < |sig| && sig[j + 1] == '[' {
      var n := StrtolDigits(sig, j + 2);
      var close := j + 2 + DigitRun(sig, j + 2);
      ExtentGroupsStep(sig, j, dims, g);
      ExtentGroupsValues(sig, close, dims + [n], g);
      GroupValuesShift(sig, j, g.end, n, close, dims, g.dims);
    } else {
      assert g == Groups(dims, j);
      assert GroupValues(sig, j, j) == [];
      assert dims + [] == dims;
    }
  }

  /**
   * An array field records exactly the numbers written in its brackets, in
   * order; its size multiplies the base width by each, and its counter adds them.
   */
  lemma ParseExtentsValues(sig: string, j: nat, base: nat, e: Extents)
    requires j < |sig| && ParseExtents(sig, j, base) == Ok(e)
    ensures
      var ds := GroupValues(sig, j, e.end);
      && e.dims == ds
      && e.bytes == base * Product(ds)
      && e.nelements == Sum(ds)
  {
    var g := ExtentGroups(sig, j, []).value;
    ExtentGroupsValues(sig, j, [], g);
    assert [] + GroupValues(sig, j, g.end) == GroupValues(sig, j, g.end);
  }

  /** A parsed field's extents are the numbers in the brackets after its tag. */
  lemma ParseFieldDims(sig: string, i: nat, arg: Option<FieldArg>, index: nat, st: Tracker)
    requires i < |sig|
    ensures
      var r := ParseField(sig, i, arg, index, st);
      r.Ok? ==> r.value.field.dims == GroupValues(sig, i, r.value.next - 1)
  {
    var r := ParseField(sig, i, arg, index, st);
    if r.Ok? {
      var t := TagOf(sig[i]).value;
      var base := BaseBytes(t, arg).value.0;
      ParseExtentsValues(sig, i, base, ParseExtents(sig, i, base).value);
    }
  }

  function ArgAt(args: seq<FieldArg>, k: nat): Option<FieldArg> {
    if k < |args| then Some(args[k]) else None
  }

  /** get_bytes: the base width of a tag; a nested tag takes its companion definition's size. */
  function BaseBytes(t: Tag, arg: Option<FieldArg>): (r: Result<(nat, Option<ChildDef>), Error>)
    ensures r.Ok? && t.IsNested() ==>
      arg.Some? && arg.value.Nested? && arg.value.child.isUnion == t.Union?
      && r.value == (arg.value.child.size, Some(arg.value.child))
    ensures r.Ok? && !t.IsNested() ==> r.value == (ScalarWidth(t), None)
    ensures !t.IsNested() ==> r.Ok?
  {
    if t.IsNested() then
      match arg
      case Some(Nested(_, c)) =>
        if c.isUnion == t.Union? then Ok((c.size, Some(c))) else Err(NotARecord(t))
      case _ => Err(NotARecord(t))
    else Ok((ScalarWidth(t), None))
  }

  /** The field name: lua_tostring of the plain argument, or the key of the nested table. */
  function NameOf(t: Tag, arg: Option<FieldArg>, index: nat): Result<string, Error> {
    match arg
    case Some(Name(n)) => if t.IsNested() then Err(MissingName(index)) else Ok(CStr(n))
    case Some(Nested(n, _)) => if t.IsNested() then Ok(CStr(n)) else Err(MissingName(index))
    case None => Err(MissingName(index))
  }

  /** The base size of a descriptor: its nested definition's size, or its tag's width. */
  function Base(f: Field): nat {
    if f.child.Some? then f.child.value.size
    else if f.tag.IsNested() then 0
    else ScalarWidth(f.tag)
  }

  /** The size rule: arrays multiply, non-arrays are raised to the previous non-array size. */
  function FieldBytes(f: Field, last: nat): nat {
    if |f.dims| == 0 then Max(Base(f), last) else Base(f) * Product(f.dims)
  }

  /** The end-of-record adjustment: adds padding % largest, which is not a round-up. */
  function Adjust(padding: nat, largest: nat): nat {
    if largest > 0 then padding + padding % largest else padding
  }

  /** Descriptor shape: positive extents counted by their sum, a child exactly for nested tags. */
  predicate Shape(f: Field) {
    && AllPositive(f.dims)
    && f.nelements == Sum(f.dims)
    && (f.child.Some? <==> f.tag.IsNested())
    && (f.child.Some? ==> f.child.value.isUnion == f.tag.Union?)
  }

  /** How one step moves the counters. */
  predicate StepRule(s: Step, st: Tracker, final: bool) {
    var f := s.field;
    && Shape(f)
    && f.size == FieldBytes(f, st.last)
    && s.tracker.largest == (if |f.dims| == 0 then Max(st.largest, f.size) else st.largest)
    && s.tracker.last == (if |f.dims| == 0 then f.size else st.last)
    && f.offset == (if final then Adjust(st.padding, s.tracker.largest) else st.padding)
    && s.tracker.padding == f.offset + f.size
  }

  /** get_offset for the field whose tag is at i, followed by the name lookup of the constructor. */
  function ParseField(sig: string, i: nat, arg: Option<FieldArg>, index: nat, st: Tracker)
    : (r: Result<Step, Error>)
    requires i < |sig|
    ensures TagOf(sig[i]).None? ==> r == Err(UnknownTag(sig[i]))
    ensures r.Ok? ==> i < r.value.next <= |sig|
    ensures r.Ok? ==> TagOf(sig[i]) == Some(r.value.field.tag)
    ensures r.Ok? ==> GroupsBetween(sig, i + 1, r.value.next)
    ensures r.Ok? ==> StepRule(r.value, st, r.value.next == |sig|)
  {
    match TagOf(sig[i])
    case None => Err(UnknownTag(sig[i]))
    case Some(t) =>
      var (base, child) :- BaseBytes(t, arg);
      var ext :- ParseExtents(sig, i, base);
      var isArray := ext.nelements != 0;
      assert isArray <==> |ext.dims| > 0 by {
        if |ext.dims| > 0 {
          SumPositive(ext.dims);
        }
      }
      var bytes := if isArray then ext.bytes else Max(ext.bytes, st.last);
      var largest := if isArray then st.largest else Max(st.largest, bytes);
      var last := if isArray then st.last else bytes;
      var offset := if ext.end + 1 == |sig| then Adjust(st.padding, largest) else st.padding;
      var name :- NameOf(t, arg, index);
      var f := Field(t, name, offset, bytes, ext.dims, ext.nelements, child);
      assert Base(f) == base;
      Ok(Step(f, ext.end + 1, Tracker(offset + bytes, largest, last)))
  }

  /** A tag and its groups contribute exactly the tag character to the bracket-free text. */
  lemma FieldVanishes(sig: string, i: nat, next: nat)
    requires i < |sig| && TagOf(sig[i]).Some? && GroupsBetween(sig, i + 1, next)
    ensures RemoveBrackets(sig[i..]) == [sig[i]] + RemoveBrackets(sig[next..])
  {
    GroupsVanish(sig, i + 1, next);
    var t := sig[i..];
    assert t[0] == sig[i] && t[1..] == sig[i + 1..];
    assert t[0] != '[' by {
      TagCharRoundTrip(TagOf(sig[i]).value, sig[i]);
    }
    assert RemoveBrackets(t) == [t[0]] + RemoveBrackets(t[1..]);
  }

  lemma {:induction false} SumPositive(ds: seq<nat>)
    requires |ds| > 0 && AllPositive(ds)
    ensures Sum(ds) > 0
  {
    if |ds| > 1 {
      SumPositive(ds[..|ds| - 1]);
    }
  }

  /** The tag characters of a field list, in order. */
  function TagString(fs: seq<Field>): (r: string)
    ensures |r| == |fs|
  {
    if |fs| == 0 then [] else TagString(fs[..|fs| - 1]) + [TagChar(fs[|fs| - 1].tag)]
  }

  /** The constructor's loop over the signature, from index i, with the fields built so far. */
  function ParseFields(sig: string, args: seq<FieldArg>, i: nat, st: Tracker, acc: seq<Field>)
    : (r: Result<(seq<Field>, nat), Error>)
    requires i <= |sig|
    decreases |sig| - i
  {
    if i == |sig| then Ok((acc, st.padding))
    else
      var step :- ParseField(sig, i, ArgAt(args, |acc|), |acc|, st);
      ParseFields(sig, args, step.next, step.tracker, acc + [step.field])
  }

  /** The Struct constructor given a signature: a definition, or the first error. */
  function Parse(signature: string, args: seq<FieldArg>): (r: Result<Struct, Error>)
    ensures r.Ok? ==> r.value.data.None? && !r.value.owned && r.value.children == []
  {
    var sig := CStr(signature);
    var p :- ParseFields(sig, args, 0, Tracker(0, 0, 0), []);
    Ok(Struct(p.0, p.1, None, false, []))
  }

  /** The loop adds one field per tag character, in signature order. */
  lemma {:induction false} ParseFieldsTags(sig: string, args: seq<FieldArg>, i: nat, st: Tracker, acc: seq<Field>)
    requires i <= |sig|
    ensures ParseFields(sig, args, i, st, acc).Ok? ==>
      TagString(ParseFields(sig, args, i, st, acc).value.0) == TagString(acc) + RemoveBrackets(sig[i..])
    decreases |sig| - i
  {
    if i < |sig| {
      var r := ParseField(sig, i, ArgAt(args, |acc|), |acc|, st);
      if r.Ok? {
        var step := r.value;
        var fs := acc + [step.field];
        assert fs[..|acc|] == acc;
        assert TagChar(step.field.tag) == sig[i] by {
          TagCharRoundTrip(step.field.tag, sig[i]);
        }
        FieldVanishes(sig, i, step.next);
        ParseFieldsTags(sig, args, step.next, step.tracker, fs);
      }
    }
  }

  /**
   * The constructor allocates one field per character left after bracket
   * removal, and each field's tag is that character.
   */
  lemma ParseTags(signature: string, args: seq<FieldArg>)
    ensures Parse(signature, args).Ok? ==>
      TagString(Parse(signature, args).value.fields) == RemoveBrackets(CStr(signature))
  {
    var sig := CStr(signature);
    ParseFieldsTags(sig, args, 0, Tracker(0, 0, 0), []);
    assert sig[0..] == sig;
  }

  // ---------------------------------------------------------------- the layout, stated independently

  /** The size of the most recent non-array field, 0 if there is none. */
  function LastScalar(fs: seq<Field>): nat {
    if |fs| == 0 then 0
    else if |fs[|fs| - 1].dims| == 0 then fs[|fs| - 1].size
    else LastScalar(fs[..|fs| - 1])
  }

  /** The largest non-array field size, 0 if there is none. */
  function Largest(fs: seq<Field>): nat {
    if |fs| == 0 then 0
    else if |fs[|fs| - 1].dims| == 0 then Max(Largest(fs[..|fs| - 1]), fs[|fs| - 1].size)
    else Largest(fs[..|fs| - 1])
  }

  function SumSizes(fs: seq<Field>): nat {
    if |fs| == 0 then 0 else SumSizes(fs[..|fs| - 1]) + fs[|fs| - 1].size
  }

  /** Every field obeys the size rule relative to the fields before it. */
  predicate SizesFollowRule(fs: seq<Field>) {
    forall k :: 0 <= k < |fs| ==> fs[k].size == FieldBytes(fs[k], LastScalar(fs[..k]))
  }

  /**
   * Placement: every field but the last starts where the sizes before it end;
   * the last starts at that sum adjusted by the largest non-array size; the
   * total is the end of the last field.
   */
  predicate Packed(fs: seq<Field>, total: nat) {
    if |fs| == 0 then total == 0
    else
      && (forall k :: 0 <= k < |fs| - 1 ==> fs[k].offset == SumSizes(fs[..k]))
      && fs[|fs| - 1].offset == Adjust(SumSizes(fs[..|fs| - 1]), Largest(fs))
      && total == fs[|fs| - 1].offset + fs[|fs| - 1].size
  }

  /** The layout a definition must have. */
  predicate WellLaidOut(s: Struct) {
    && (forall k :: 0 <= k < |s.fields| ==> Shape(s.fields[k]))
    && SizesFollowRule(s.fields)
    && Packed(s.fields, s.size)
  }

  /** What the fold knows about the fields it has built before reaching the final one. */
  predicate Accumulated(acc: seq<Field>, st: Tracker) {
    && (forall k :: 0 <= k < |acc| ==> Shape(acc[k]))
    && SizesFollowRule(acc)
    && (forall k :: 0 <= k < |acc| ==> acc[k].offset == SumSizes(acc[..k]))
    && st == Tracker(SumSizes(acc), Largest(acc), LastScalar(acc))
  }

  lemma AppendPrefixes(acc: seq<Field>, f: Field)
    ensures (acc + [f])[..|acc|] == acc
    ensures forall k :: 0 <= k < |acc| ==> (acc + [f])[..k] == acc[..k]
  {
  }

  /** One non-final step keeps the fold's knowledge. */
  lemma StepAccumulates(acc: seq<Field>, st: Tracker, s: Step)
    requires Accumulated(acc, st) && StepRule(s, st, false)
    ensures Accumulated(acc + [s.field], s.tracker)
  {
    var fs := acc + [s.field];
    AppendPrefixes(acc, s.field);
    assert fs[..|acc|] == acc;
  }

  /** The final step completes a well laid out record. */
  lemma FinalStepPacks(acc: seq<Field>, st: Tracker, s: Step)
    requires Accumulated(acc, st) && StepRule(s, st, true)
    ensures WellLaidOut(Struct(acc + [s.field], s.tracker.padding, None, false, []))
  {
    var fs := acc + [s.field];
    AppendPrefixes(acc, s.field);
    assert fs[..|fs| - 1] == acc;
    assert Largest(fs) == s.tracker.largest;
  }

  /** The constructor's fold yields exactly the layout stated above. */
  lemma {:induction false} ParseFieldsLayout(sig: string, args: seq<FieldArg>, i: nat, st: Tracker, acc: seq<Field>)
    requires i <= |sig| && Accumulated(acc, st)
    requires i == |sig| ==> acc == []
    ensures ParseFields(sig, args, i, st, acc).Ok? ==>
      var p := ParseFields(sig, args, i, st, acc).value;
      WellLaidOut(Struct(p.0, p.1, None, false, []))
    decreases |sig| - i
  {
    if i < |sig| {
      var r := ParseField(sig, i, ArgAt(args, |acc|), |acc|, st);
      if r.Ok? {
        var s := r.value;
        if s.next == |sig| {
          FinalStepPacks(acc, st, s);
        } else {
          StepAccumulates(acc, st, s);
          ParseFieldsLayout(sig, args, s.next, s.tracker, acc + [s.field]);
        }
      }
    }
  }

  /** Every definition the constructor builds is well laid out. */
  lemma ParseLayout(signature: string, args: seq<FieldArg>)
    ensures Parse(signature, args).Ok? ==> WellLaidOut(Parse(signature, args).value)
  {
    var sig := CStr(signature);
    ParseFieldsLayout(sig, args, 0, Tracker(0, 0, 0), []);
  }

  lemma {:induction false} SumSizesMonotone(fs: seq<Field>, k: nat, m: nat)
    requires k <= m <= |fs|
    ensures SumSizes(fs[..k]) <= SumSizes(fs[..m])
    decreases m - k
  {
    if k < m {
      SumSizesMonotone(fs, k, m - 1);
      assert fs[..m][..m - 1] == fs[..m - 1];
    }
  }

  lemma SumSizesStep(fs: seq<Field>, k: nat)
    requires k < |fs|
    ensures SumSizes(fs[..k + 1]) == SumSizes(fs[..k]) + fs[k].size
  {
    assert fs[..k + 1][..k] == fs[..k];
  }

  /** In a packed sequence of fields, every field but the last ends no later than the last one starts. */
  lemma PackedEndsBeforeLast(fs: seq<Field>, total: nat, k: nat)
    requires Packed(fs, total) && k < |fs| - 1
    ensures fs[k].offset + fs[k].size <= fs[|fs| - 1].offset
    ensures k < |fs| - 2 ==> fs[k].offset + fs[k].size == fs[k + 1].offset
  {
    var n := |fs|;
    assert fs[k].offset == SumSizes(fs[..k]);
    SumSizesStep(fs, k);
    SumSizesMonotone(fs, k + 1, n - 1);
    assert fs[n - 1].offset >= SumSizes(fs[..n - 1]);
  }

  /** Every field but the last ends no later than the last one starts. */
  lemma EndsBeforeLast(s: Struct, k: nat)
    requires WellLaidOut(s) && k < |s.fields| - 1
    ensures s.fields[k].offset + s.fields[k].size <= s.fields[|s.fields| - 1].offset
    ensures k < |s.fields| - 2 ==> s.fields[k].offset + s.fields[k].size == s.fields[k + 1].offset
  {
    PackedEndsBeforeLast(s.fields, s.size, k);
  }

  /**
   * Containment and order: fields are back to back except that the last may
   * start later, every field ends within the record, and the first starts at 0.
   */
  lemma Containment(s: Struct)
    requires WellLaidOut(s)
    ensures forall k :: 0 <= k < |s.fields| ==> s.fields[k].offset + s.fields[k].size <= s.size
    ensures forall k :: 0 <= k < |s.fields| - 2 ==>
      s.fields[k].offset + s.fields[k].size == s.fields[k + 1].offset
    ensures |s.fields| >= 2 ==>
      s.fields[|s.fields| - 2].offset + s.fields[|s.fields| - 2].size <= s.fields[|s.fields| - 1].offset
    ensures |s.fields| > 0 ==> s.fields[0].offset == 0
  {
    forall k | 0 <= k < |s.fields| - 1 {
      EndsBeforeLast(s, k);
    }
    if |s.fields| > 0 {
      assert s.fields[..0] == [];
    }
  }

  /** Fields never overlap. */
  lemma Disjoint(s: Struct, a: nat, b: nat)
    requires WellLaidOut(s) && a < b < |s.fields|
    ensures s.fields[a].offset + s.fields[a].size <= s.fields[b].offset
  {
    PackedDisjoint(s.fields, s.size, a, b);
  }

  lemma PackedDisjoint(fs: seq<Field>, total: nat, a: nat, b: nat)
    requires Packed(fs, total) && a < b < |fs|
    ensures fs[a].offset + fs[a].size <= fs[b].offset
  {
    var n := |fs|;
    assert fs[a].offset == SumSizes(fs[..a]);
    SumSizesStep(fs, a);
    if b < n - 1 {
      assert fs[b].offset == SumSizes(fs[..b]);
      SumSizesMonotone(fs, a + 1, b);
    } else {
      SumSizesMonotone(fs, a + 1, n - 1);
      assert fs[n - 1].offset >= SumSizes(fs[..n - 1]);
    }
  }
}
