/**
 The few PHP value semantics the module's code relies on: nullable values,
 `empty()` on strings and nullable strings, and `strstr(...) !== FALSE`.
 */
module Php {

  /** A PHP value that may be NULL. */
  datatype Option<+T> = None | Some(value: T)

  /** `empty($s)` for a string: true exactly for "" and "0". */
  predicate IsEmptyString(s: string) {
    s == "" || s == "0"
  }

  /** `empty($v)` for a value that is either NULL or a string. */
  predicate IsEmpty(v: Option<string>) {
    v.None? || IsEmptyString(v.value)
  }

  /** `strstr($haystack, $needle) !== FALSE`: the needle occurs somewhere in the haystack. */
  predicate Contains(haystack: string, needle: string) {
    exists i | 0 <= i <= |haystack| - |needle| :: OccursAt(haystack, needle, i)
  }

  /** The needle starts at position `i` of the haystack. */
  predicate OccursAt(haystack: string, needle: string, i: int) {
    0 <= i <= |haystack| - |needle| && haystack[i..i + |needle|] == needle
  }

  /** True if no character of `s` is a carriage return or a line feed. */
  predicate IsSingleLine(s: string) {
    forall i | 0 <= i < |s| :: s[i] != '\r' && s[i] != '\n'
  }
}
