/**
 * The signature alphabet of the struct engine (Struct.c, get_bytes) pinned
 * to the Win64 platform, and the two character-level scans the constructor
 * performs over a signature: bracket removal and array-extent digits.
 */
module Signature {
  import opened Wrappers

  /** sizeof(void *) on Win64. */
  const PointerSize: nat := 8
  /** sizeof(wchar_t) on Windows. */
  const WCharSize: nat := 2
  /** '#' is the platform word: sized as int64_t under _WIN64. */
  const WordSize: nat := 8
  /** LONG_MAX for the 32-bit `long` of Windows: where strtol saturates. */
  const LongMax: nat := 0x7FFF_FFFF

  /** One case per signature character. */
  datatype Tag =
    | Record    // '.' nested Struct
    | Union     // 'u' nested Union
    | UChar     // 'C'
    | Char      // 'c'
    | WChar     // 'w'
    | UShort    // 'S'
    | Short     // 's'
    | Int       // 'i'
    | UInt      // 'I'
    | Bool      // 'B'
    | Int64     // 'j'
    | UInt64    // 'J'
    | Long      // 'l'
    | ULong     // 'L'
    | Word      // '#'
    | Float     // 'f'
    | Double    // 'd'
    | WString   // 'W' owned wide string
    | CString   // 'Z' borrowed string
    | Pointer   // 'p'
  {
    /** Nested fields take their size from a companion definition. */
    predicate IsNested() { Record? || Union? }
  }

  function TagOf(c: char): Option<Tag> {
    match c
    case '.' => Some(Record)
    case 'u' => Some(Union)
    case 'C' => Some(UChar)
    case 'c' => Some(Char)
    case 'w' => Some(WChar)
    case 'S' => Some(UShort)
    case 's' => Some(Short)
    case 'i' => Some(Int)
    case 'I' => Some(UInt)
    case 'B' => Some(Bool)
    case 'j' => Some(Int64)
    case 'J' => Some(UInt64)
    case 'l' => Some(Long)
    case 'L' => Some(ULong)
    case '#' => Some(Word)
    case 'f' => Some(Float)
    case 'd' => Some(Double)
    case 'W' => Some(WString)
    case 'Z' => Some(CString)
    case 'p' => Some(Pointer)
    case _ => None
  }

  function TagChar(t: Tag): char {
    match t
    case Record => '.'
    case Union => 'u'
    case UChar => 'C'
    case Char => 'c'
    case WChar => 'w'
    case UShort => 'S'
    case Short => 's'
    case Int => 'i'
    case UInt => 'I'
    case Bool => 'B'
    case Int64 => 'j'
    case UInt64 => 'J'
    case Long => 'l'
    case ULong => 'L'
    case Word => '#'
    case Float => 'f'
    case Double => 'd'
    case WString => 'W'
    case CString => 'Z'
    case Pointer => 'p'
  }

  /** The tag table is a bijection between the twenty tags and their characters. */
  lemma TagCharRoundTrip(t: Tag, c: char)
    ensures TagOf(TagChar(t)) == Some(t)
    ensures TagOf(c) == Some(t) <==> c == TagChar(t)
  {
  }

  /** get_bytes on Win64 for every non-nested tag. */
  function ScalarWidth(t: Tag): (w: nat)
    requires !t.IsNested()
    ensures w in {1, 2, 4, 8}
    ensures w == 1 <==> t in {UChar, Char}
    ensures w == 2 <==> t in {WChar, UShort, Short}
    ensures w == 4 <==> t in {Int, UInt, Bool, Float}
  {
    match t
    case UChar => 1
    case Char => 1
    case WChar => WCharSize
    case UShort => 2
    case Short => 2
    case Int => 4
    case UInt => 4
    case Bool => 4
    case Int64 => 8
    case UInt64 => 8
    case Long => 8
    case Word => WordSize
    case ULong => 8
    case Float => 4
    case Double => 8
    case WString => PointerSize
    case CString => PointerSize
    case Pointer => PointerSize
  }

  // ---------------------------------------------------------------- removeBrackets

  /** Drops everything up to and including the first ']' (all of t if there is none). */
  function SkipGroup(t: string): (r: string)
    ensures |r| <= |t|
  {
    if |t| == 0 then [] else if t[0] == ']' then t[1..] else SkipGroup(t[1..])
  }

  /**
   * removeBrackets: deletes every '[' together with the text up to its closing
   * ']' (or up to the end when unclosed); the length of what remains is the
   * number of fields the constructor allocates.
   */
  function RemoveBrackets(s: string): (r: string)
    ensures |r| <= |s|
    decreases |s|
  {
    if |s| == 0 then []
    else if s[0] == '[' then RemoveBrackets(SkipGroup(s[1..]))
    else [s[0]] + RemoveBrackets(s[1..])
  }

  /** No '[' survives bracket removal. */
  lemma {:induction false} RemoveBracketsNoOpen(s: string)
    ensures forall k :: 0 <= k < |RemoveBrackets(s)| ==> RemoveBrackets(s)[k] != '['
    decreases |s|
  {
    if |s| > 0 {
      if s[0] == '[' {
        RemoveBracketsNoOpen(SkipGroup(s[1..]));
      } else {
        RemoveBracketsNoOpen(s[1..]);
      }
    }
  }

  /** Text without '[' is left as it is, so removing brackets twice changes nothing more. */
  lemma {:induction false} RemoveBracketsIdentity(s: string)
    requires forall k :: 0 <= k < |s| ==> s[k] != '['
    ensures RemoveBrackets(s) == s
  {
    if |s| > 0 {
      RemoveBracketsIdentity(s[1..]);
    }
  }

  lemma RemoveBracketsIdempotent(s: string)
    ensures RemoveBrackets(RemoveBrackets(s)) == RemoveBrackets(s)
  {
    RemoveBracketsNoOpen(s);
    RemoveBracketsIdentity(RemoveBrackets(s));
  }

  /** A group "[" + text + "]" whose text has no ']' disappears entirely. */
  lemma {:induction false} SkipGroupTo(sig: string, k: nat, e: nat)
    requires k <= e < |sig| && sig[e] == ']'
    requires forall q :: k <= q < e ==> sig[q] != ']'
    ensures SkipGroup(sig[k..]) == sig[e + 1..]
    decreases e - k
  {
    if k < e {
      assert sig[k..][1..] == sig[k + 1..];
      SkipGroupTo(sig, k + 1, e);
    }
  }

  // ---------------------------------------------------------------- strtol digits

  predicate IsDigit(c: char) { '0' <= c <= '9' }

  /** The number of consecutive decimal digits of s starting at from. */
  function DigitRun(s: string, from: nat): (n: nat)
    requires from <= |s|
    ensures from + n <= |s|
    ensures forall q :: from <= q < from + n ==> IsDigit(s[q])
    ensures from + n < |s| ==> !IsDigit(s[from + n])
    decreases |s| - from
  {
    if from < |s| && IsDigit(s[from]) then 1 + DigitRun(s, from + 1) else 0
  }

  /** The decimal value of a run of digits. */
  function DecimalValue(ds: string): nat
    requires forall q :: 0 <= q < |ds| ==> IsDigit(ds[q])
  {
    if |ds| == 0 then 0
    else
      assert IsDigit(ds[|ds| - 1]);
      10 * DecimalValue(ds[..|ds| - 1]) + (ds[|ds| - 1] as int - '0' as int)
  }

  /** strtol's result for the digits at from: the decimal value, saturated at LONG_MAX. */
  function StrtolDigits(s: string, from: nat): (n: nat)
    requires from <= |s|
    ensures n <= LongMax
  {
    var v := DecimalValue(s[from..from + DigitRun(s, from)]);
    if v > LongMax then LongMax else v
  }
}
