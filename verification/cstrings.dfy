/**
 * C strings seen from the host: a Lua string may hold NUL characters, but
 * every `char *` view of it (strlen, strcmp, "%s") ends at the first NUL.
 */
module CStrings {

  const NUL: char := '\0'

  /** A string with no NUL character: what a `char *` can denote. */
  predicate NoNul(s: string) {
    forall k :: 0 <= k < |s| ==> s[k] != NUL
  }

  /** The C string a buffer denotes: everything before its first NUL. */
  function CStr(s: string): (r: string)
    ensures |r| <= |s| && r == s[..|r|]
    ensures NoNul(r)
    ensures |r| < |s| ==> s[|r|] == NUL
  {
    if |s| == 0 || s[0] == NUL then [] else [s[0]] + CStr(s[1..])
  }

  lemma {:induction false} CStrOfNoNul(s: string)
    requires NoNul(s)
    ensures CStr(s) == s
  {
    if |s| > 0 {
      CStrOfNoNul(s[1..]);
    }
  }

  lemma {:induction false} CStrOfTerminated(s: string, rest: string)
    requires NoNul(s)
    ensures CStr(s + [NUL] + rest) == s
  {
    if |s| > 0 {
      assert (s + [NUL] + rest)[1..] == s[1..] + [NUL] + rest;
      CStrOfTerminated(s[1..], rest);
    }
  }
}
