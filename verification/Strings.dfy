/** Characters in strings. */
module Strings {
  predicate Has(s: string, c: char) { exists k :: 0 <= k < |s| && s[k] == c }
}
