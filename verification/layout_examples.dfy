/** Worked layouts: what the constructor computes for small signatures. */
module LayoutExamples {
  import opened Wrappers
  import opened CStrings
  import opened Signature
  import opened Layout

  /** strtol over one decimal digit followed by a non-digit. */
  lemma SingleDigit(s: string, from: nat)
    requires from < |s| && IsDigit(s[from]) && (from + 1 == |s| || !IsDigit(s[from + 1]))
    ensures DigitRun(s, from) == 1
    ensures StrtolDigits(s, from) == s[from] as int - '0' as int
  {
    assert DigitRun(s, from + 1) == 0;
    var d := s[from..from + 1];
    assert d[..0] == [] && d[0] == s[from];
    assert DecimalValue(d) == 10 * DecimalValue(d[..0]) + (d[0] as int - '0' as int);
  }

  /** The array field of "idc[4]": four chars, not widened, placed by the end adjustment. */
  lemma TagStep(sig: string)
    requires sig == "idc[4]"
    ensures ParseField(sig, 2, Some(Name("tag")), 2, Tracker(12, 8, 8))
      == Ok(Step(Field(Char, "tag", 16, 4, [4], 4, None), 6, Tracker(20, 8, 8)))
  {
    assert sig[2] == 'c' && sig[3] == '[' && sig[4] == '4' && sig[5] == ']' && |sig| == 6;
    assert TagOf('c') == Some(Char);
    CStrOfNoNul("tag");
    SingleDigit(sig, 4);
    assert ExtentGroups(sig, 5, [4]) == Ok(Groups([4], 5));
    assert [] + [4] == [4];
    assert ExtentGroups(sig, 2, []) == Ok(Groups([4], 5));
    assert ParseExtents(sig, 2, 1) == Ok(Extents(4, [4], 4, 5));
  }

  /** The array field of "idc[4]" completes the record after the two scalars. */
  lemma IntDoubleCharArrayTail(sig: string, args: seq<FieldArg>)
    requires sig == "idc[4]" && args == [Name("id"), Name("value"), Name("tag")]
    ensures
      var id := Field(Int, "id", 0, 4, [], 0, None);
      var value := Field(Double, "value", 4, 8, [], 0, None);
      var tag := Field(Char, "tag", 16, 4, [4], 4, None);
      ParseFields(sig, args, 2, Tracker(12, 8, 8), [id, value]) == Ok(([id, value, tag], 20))
  {
    var id := Field(Int, "id", 0, 4, [], 0, None);
    var value := Field(Double, "value", 4, 8, [], 0, None);
    var tag := Field(Char, "tag", 16, 4, [4], 4, None);
    TagStep(sig);
    FieldsStep(sig, args, 2, Tracker(12, 8, 8), [id, value], Step(tag, 6, Tracker(20, 8, 8)));
    assert [id, value] + [tag] == [id, value, tag];
  }

  /** A signature starting "id" and no array suffix: the int at 0, the double at 4. */
  lemma IntThenDouble(sig: string, args: seq<FieldArg>)
    requires |sig| > 2 && sig[0] == 'i' && sig[1] == 'd' && sig[2] != '['
    requires |args| >= 2 && args[0] == Name("id") && args[1] == Name("value")
    ensures
      var id := Field(Int, "id", 0, 4, [], 0, None);
      var value := Field(Double, "value", 4, 8, [], 0, None);
      ParseFields(sig, args, 0, Tracker(0, 0, 0), []) == ParseFields(sig, args, 2, Tracker(12, 8, 8), [id, value])
  {
    assert TagOf('i') == Some(Int) && TagOf('d') == Some(Double);
    var id := Field(Int, "id", 0, 4, [], 0, None);
    var value := Field(Double, "value", 4, 8, [], 0, None);
    NextScalar(sig, args, 0, Tracker(0, 0, 0), [], id, Tracker(4, 4, 4));
    assert [] + [id] == [id];
    NextScalar(sig, args, 1, Tracker(4, 4, 4), [id], value, Tracker(12, 8, 8));
    assert [id] + [value] == [id, value];
  }

  /** "idc[4]": the double lands at 4 and the array, after the end adjustment, at 16; size 20. */
  lemma IntDoubleCharArray(sig: string, args: seq<FieldArg>)
    requires sig == "idc[4]" && args == [Name("id"), Name("value"), Name("tag")]
    ensures Parse(sig, args) == Ok(Struct([
      Field(Int, "id", 0, 4, [], 0, None),
      Field(Double, "value", 4, 8, [], 0, None),
      Field(Char, "tag", 16, 4, [4], 4, None)], 20, None, false, []))
  {
    CStrOfNoNul(sig);
    IntThenDouble(sig, args);
    IntDoubleCharArrayTail(sig, args);
  }

  lemma SecondExtent(sig: string)
    requires sig == "i[4][4]"
    ensures ExtentGroups(sig, 3, [4]) == Ok(Groups([4, 4], 6))
  {
    assert sig[4] == '[' && sig[5] == '4' && sig[6] == ']' && |sig| == 7;
    SingleDigit(sig, 5);
    assert [4] + [4] == [4, 4];
    assert ExtentGroups(sig, 6, [4, 4]) == Ok(Groups([4, 4], 6));
  }

  /**
   * "i[4][4]": both extents multiply the bytes (64) but are ADDED into the
   * extent counter (8), which the accessor later divides by.
   */
  lemma TwoDimensionalCounter(sig: string)
    requires sig == "i[4][4]"
    ensures ParseExtents(sig, 0, 4) == Ok(Extents(64, [4, 4], 8, 6))
  {
    assert sig[1] == '[' && sig[2] == '4' && sig[3] == ']' && |sig| == 7;
    SingleDigit(sig, 2);
    SecondExtent(sig);
    assert [] + [4] == [4];
    assert ExtentGroups(sig, 0, []) == Ok(Groups([4, 4], 6));
    var d: seq<nat> := [4, 4];
    assert d[..1] == [4] && [4][..0] == [];
    assert Product(d) == 16 && Sum(d) == 8;
  }

  /**
   * The step for a named scalar field that has no "[n]" suffix: it is raised to
   * the previous scalar's size and placed at the running padding, or at the
   * adjusted padding when it is the last field.
   */
  lemma ScalarFieldStep(sig: string, i: nat, n: string, index: nat, st: Tracker, s: Step)
    requires i < |sig| && TagOf(sig[i]) == Some(s.field.tag) && !s.field.tag.IsNested() && NoNul(n)
    requires i + 1 == |sig| || sig[i + 1] != '['
    requires s.field.name == n && s.field.dims == [] && s.field.nelements == 0 && s.field.child.None?
    requires s.field.size == Max(ScalarWidth(s.field.tag), st.last) && s.next == i + 1
    requires s.tracker.largest == Max(st.largest, s.field.size) && s.tracker.last == s.field.size
    requires s.field.offset == if i + 1 == |sig| then Adjust(st.padding, s.tracker.largest) else st.padding
    requires s.tracker.padding == s.field.offset + s.field.size
    ensures ParseField(sig, i, Some(Name(n)), index, st) == Ok(s)
  {
    CStrOfNoNul(n);
    var w := ScalarWidth(s.field.tag);
    assert ExtentGroups(sig, i, []) == Ok(Groups([], i));
    assert ParseExtents(sig, i, w) == Ok(Extents(w, [], 0, i));
  }

  /** The constructor's loop takes one successful step. */
  lemma FieldsStep(sig: string, args: seq<FieldArg>, i: nat, st: Tracker, acc: seq<Field>, s: Step)
    requires i < |sig| && ParseField(sig, i, ArgAt(args, |acc|), |acc|, st) == Ok(s)
    ensures ParseFields(sig, args, i, st, acc) == ParseFields(sig, args, s.next, s.tracker, acc + [s.field])
  {
  }

  /**
   * The loop's step over a named scalar field without "[n]" suffix: the field
   * is raised to the previous scalar's size and placed at the running padding,
   * or at the adjusted padding when it is the last one.
   */
  lemma NextScalar(sig: string, args: seq<FieldArg>, i: nat, st: Tracker, acc: seq<Field>, f: Field, next: Tracker)
    requires i < |sig| && TagOf(sig[i]) == Some(f.tag) && !f.tag.IsNested() && (i + 1 == |sig| || sig[i + 1] != '[')
    requires |acc| < |args| && args[|acc|] == Name(f.name) && NoNul(f.name)
    requires f.dims == [] && f.nelements == 0 && f.child.None?
    requires f.size == Max(ScalarWidth(f.tag), st.last)
    requires next.largest == Max(st.largest, f.size) && next.last == f.size
    requires f.offset == (if i + 1 == |sig| then Adjust(st.padding, next.largest) else st.padding)
    requires next.padding == f.offset + f.size
    ensures ParseFields(sig, args, i, st, acc) == ParseFields(sig, args, i + 1, next, acc + [f])
  {
    var s := Step(f, i + 1, next);
    ScalarFieldStep(sig, i, f.name, |acc|, st, s);
    FieldsStep(sig, args, i, st, acc, s);
  }

  /** "ic": the char after an int is widened to the int's 4 bytes; size 8. */
  lemma CharWidened(sig: string, args: seq<FieldArg>)
    requires sig == "ic" && args == [Name("a"), Name("b")]
    ensures Parse(sig, args) ==
      Ok(Struct([Field(Int, "a", 0, 4, [], 0, None), Field(Char, "b", 4, 4, [], 0, None)], 8, None, false, []))
  {
    assert sig[0] == 'i' && sig[1] == 'c' && TagOf('i') == Some(Int) && TagOf('c') == Some(Char);
    CStrOfNoNul(sig);
    var a := Field(Int, "a", 0, 4, [], 0, None);
    var b := Field(Char, "b", 4, 4, [], 0, None);
    NextScalar(sig, args, 0, Tracker(0, 0, 0), [], a, Tracker(4, 4, 4));
    assert [] + [a] == [a];
    NextScalar(sig, args, 1, Tracker(4, 4, 4), [a], b, Tracker(8, 4, 4));
    assert [a] + [b] == [a, b];
    assert ParseFields(sig, args, 2, Tracker(8, 4, 4), [a, b]) == Ok(([a, b], 8));
  }

  /**
   * A '.' field without extents is widened like any scalar: the test that
   * should exempt nested fields is always true, so a record smaller than the
   * previous non-array field takes that field's size.
   */
  lemma NestedFieldWidened(sig: string, i: nat, n: string, c: ChildDef, index: nat, st: Tracker)
    requires i < |sig| && sig[i] == '.' && (i + 1 == |sig| || sig[i + 1] != '[')
    requires NoNul(n) && !c.isUnion
    ensures ParseField(sig, i, Some(Nested(n, c)), index, st).Ok?
    ensures
      var f := ParseField(sig, i, Some(Nested(n, c)), index, st).value.field;
      && f.size == Max(c.size, st.last)
      && f.name == n && f.child == Some(c) && f.dims == []
  {
    assert TagOf('.') == Some(Record);
    CStrOfNoNul(n);
    assert ExtentGroups(sig, i, []) == Ok(Groups([], i));
    assert ParseExtents(sig, i, c.size) == Ok(Extents(c.size, [], 0, i));
  }

  /** "i.": a 2-byte record after an int is widened to 4 bytes; the record is 8 bytes. */
  lemma RecordWidened(sig: string, args: seq<FieldArg>, c: ChildDef)
    requires sig == "i." && c.size == 2 && !c.isUnion
    requires args == [Name("a"), Nested("b", c)]
    ensures Parse(sig, args) ==
      Ok(Struct([Field(Int, "a", 0, 4, [], 0, None), Field(Record, "b", 4, 4, [], 0, Some(c))], 8, None, false, []))
  {
    assert sig[0] == 'i' && sig[1] == '.' && TagOf('i') == Some(Int);
    CStrOfNoNul(sig);
    var a := Field(Int, "a", 0, 4, [], 0, None);
    var b := Field(Record, "b", 4, 4, [], 0, Some(c));
    NextScalar(sig, args, 0, Tracker(0, 0, 0), [], a, Tracker(4, 4, 4));
    assert [] + [a] == [a];
    NestedFieldWidened(sig, 1, "b", c, 1, Tracker(4, 4, 4));
    var s := ParseField(sig, 1, ArgAt(args, 1), 1, Tracker(4, 4, 4)).value;
    assert s == Step(b, 2, Tracker(8, 4, 4));
    FieldsStep(sig, args, 1, Tracker(4, 4, 4), [a], s);
    assert [a] + [b] == [a, b];
    assert ParseFields(sig, args, 2, Tracker(8, 4, 4), [a, b]) == Ok(([a, b], 8));
  }

  /** "ci": the int is placed at 1 + 1 % 4 = 2, so the record is 6 bytes, not 8. */
  lemma EndAdjustmentIsNotRounding(sig: string, args: seq<FieldArg>)
    requires sig == "ci" && args == [Name("a"), Name("b")]
    ensures Parse(sig, args) ==
      Ok(Struct([Field(Char, "a", 0, 1, [], 0, None), Field(Int, "b", 2, 4, [], 0, None)], 6, None, false, []))
  {
    assert sig[0] == 'c' && sig[1] == 'i' && TagOf('c') == Some(Char) && TagOf('i') == Some(Int);
    CStrOfNoNul(sig);
    var a := Field(Char, "a", 0, 1, [], 0, None);
    var b := Field(Int, "b", 2, 4, [], 0, None);
    NextScalar(sig, args, 0, Tracker(0, 0, 0), [], a, Tracker(1, 1, 1));
    assert [] + [a] == [a];
    NextScalar(sig, args, 1, Tracker(1, 1, 1), [a], b, Tracker(6, 4, 4));
    assert [a] + [b] == [a, b];
    assert ParseFields(sig, args, 2, Tracker(6, 4, 4), [a, b]) == Ok(([a, b], 6));
  }

  /** Separators are not part of the signature language: "i,d,c[4]" stops at the comma. */
  lemma CommaIsUnknown(sig: string, args: seq<FieldArg>)
    requires sig == "i,d,c[4]" && args == [Name("id"), Name("value"), Name("tag")]
    ensures Parse(sig, args) == Err(UnknownTag(','))
  {
    assert sig[1] == ',' && TagOf(',') == None;
    assert ParseField(sig, 1, ArgAt(args, 1), 1, Tracker(4, 4, 4)) == Err(UnknownTag(','));
    CStrOfNoNul(sig);
    var id := Field(Int, "id", 0, 4, [], 0, None);
    ScalarFieldStep(sig, 0, "id", 0, Tracker(0, 0, 0), Step(id, 1, Tracker(4, 4, 4)));
    FieldsStep(sig, args, 0, Tracker(0, 0, 0), [], Step(id, 1, Tracker(4, 4, 4)));
  }

  /** An extent of 0 is rejected. */
  lemma ZeroExtent(sig: string)
    requires sig == "i[0]"
    ensures Parse(sig, [Name("a")]) == Err(BadArraySize)
  {
    assert sig[0] == 'i' && sig[1] == '[' && sig[2] == '0' && sig[3] == ']' && TagOf('i') == Some(Int);
    CStrOfNoNul(sig);
    SingleDigit(sig, 2);
    assert ParseExtents(sig, 0, 4) == Err(BadArraySize);
    assert ParseField(sig, 0, Some(Name("a")), 0, Tracker(0, 0, 0)) == Err(BadArraySize);
  }

  /** Digits not closed by ']' are a malformed array. */
  lemma UnclosedExtent(sig: string)
    requires sig == "i[3"
    ensures Parse(sig, [Name("a")]) == Err(MalformedArray('i'))
  {
    assert sig[0] == 'i' && sig[1] == '[' && sig[2] == '3' && |sig| == 3 && TagOf('i') == Some(Int);
    CStrOfNoNul(sig);
    SingleDigit(sig, 2);
    assert ParseExtents(sig, 0, 4) == Err(MalformedArray('i'));
    assert ParseField(sig, 0, Some(Name("a")), 0, Tracker(0, 0, 0)) == Err(MalformedArray('i'));
  }

  /** An extent that is not a number asks for an array length. */
  lemma NonNumericExtent(sig: string)
    requires sig == "i[x]"
    ensures Parse(sig, [Name("a")]) == Err(ExpectingArrayLength('i'))
  {
    assert sig[0] == 'i' && sig[1] == '[' && sig[2] == 'x' && sig[3] == ']' && TagOf('i') == Some(Int);
    CStrOfNoNul(sig);
    assert DigitRun(sig, 2) == 0 && StrtolDigits(sig, 2) == 0;
    assert ParseExtents(sig, 0, 4) == Err(ExpectingArrayLength('i'));
    assert ParseField(sig, 0, Some(Name("a")), 0, Tracker(0, 0, 0)) == Err(ExpectingArrayLength('i'));
  }
}
