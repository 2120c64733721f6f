/** C strings as values: a NUL follows the last character. */
module CStrings {
  function At(s: string, i: nat): char
    requires i <= |s|
  {
    if i < |s| then s[i] else '\0'
  }
}
