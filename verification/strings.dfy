/** Python truthiness of the text values the conversion tests: concept
    ids, Glottocodes and coordinates of the curated lists. */
module Strings {

  /** A text value is truthy exactly when it is not the empty string. */
  predicate Truthy(s: string) {
    s != ""
  }
}
