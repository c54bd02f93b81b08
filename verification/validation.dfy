/** The three data annotations the student shapes carry on their string
    members — `[Required]`, `[MaxLength(n)]` and `[EmailAddress]` — as
    predicates over a possibly-null string. The email-format check itself is
    library code and enters as the parameter `isEmail`. */
module Validation {
  import opened Wrappers

  /** `char.IsWhiteSpace`: the Unicode space, line and paragraph
      separators plus the control characters U+0009 to U+000D and U+0085. */
  predicate IsWhiteSpace(c: char) {
    || ('\t' <= c <= '\r')
    || c == ' '
    || c == '\U{0085}'
    || c == '\U{00A0}'
    || c == '\U{1680}'
    || ('\U{2000}' <= c <= '\U{200A}')
    || c == '\U{2028}'
    || c == '\U{2029}'
    || c == '\U{202F}'
    || c == '\U{205F}'
    || c == '\U{3000}'
  }

  /** `string.IsNullOrWhiteSpace` for a non-null string (true of ""). */
  predicate IsBlank(s: string) {
    forall i :: 0 <= i < |s| ==> IsWhiteSpace(s[i])
  }

  /** `[Required]` on a string: present, and not empty or white space only. */
  predicate Required(v: Option<string>) {
    v.Some? && !IsBlank(v.value)
  }

  /** `[MaxLength(max)]`: a null value passes; otherwise at most `max` characters. */
  predicate WithinMaxLength(v: Option<string>, max: nat) {
    v.None? || |v.value| <= max
  }

  /** `[EmailAddress]`: a null value passes; otherwise the library's format check. */
  predicate EmailFormatted(v: Option<string>, isEmail: string -> bool) {
    v.None? || isEmail(v.value)
  }

  /** The checks a required, length-bounded string member must pass. */
  predicate RequiredWithin(v: Option<string>, max: nat) {
    Required(v) && WithinMaxLength(v, max)
  }
}
