/** C strings: what `strcmp` sees of a character sequence. */
module CString {

  /** The characters before the first NUL, the part a C string routine reads. */
  function CStr(s: string): (r: string)
    ensures r <= s
    ensures '\0' !in r
    ensures |r| < |s| ==> s[|r|] == '\0'
    decreases |s|
  {
    if s == [] || s[0] == '\0' then []
    else [s[0]] + CStr(s[1..])
  }

  /** Reading a C string twice reads nothing more. */
  lemma CStrIdempotent(s: string)
    ensures CStr(CStr(s)) == CStr(s)
  {
  }

  /**
    `strcmp(s, lit) == 0` for a literal `lit`: `s` starts with `lit`, and
    ends there or continues with a NUL.
   */
  predicate StrEq(s: string, lit: string)
  {
    |lit| <= |s| && s[..|lit|] == lit && (|s| == |lit| || s[|lit|] == '\0')
  }

  /** For a literal with no NUL, `StrEq` is equality of the part `strcmp` reads. */
  lemma StrEqIsCStrEquality(s: string, lit: string)
    requires '\0' !in lit
    ensures StrEq(s, lit) <==> CStr(s) == lit
  {
  }
}
