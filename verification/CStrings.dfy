/** C strings: the characters before the terminating NUL. */
module CStrings {
  type CString = s: string | '\0' !in s witness ""

  /** Character i of the string, its NUL included. */
  function At(s: CString, i: nat): char {
    if i < |s| then s[i] else '\0'
  }
}
