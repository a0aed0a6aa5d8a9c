/**
 * The fragment of JavaScript regular expressions that the field validators use, with its
 * full-match meaning: `^p$` without the multiline flag, so `$` matches only at the end.
 */
module Regex {
  import opened Wrappers

  /** JavaScript's `\s`: the WhiteSpace and LineTerminator code points of ECMAScript. */
  predicate IsWhitespace(c: char) {
    var n := c as int;
    n == 0x09 || n == 0x0A || n == 0x0B || n == 0x0C || n == 0x0D || n == 0x20 ||
    n == 0xA0 || n == 0x1680 || (0x2000 <= n <= 0x200A) || n == 0x2028 || n == 0x2029 ||
    n == 0x202F || n == 0x205F || n == 0x3000 || n == 0xFEFF
  }

  datatype CharClass =
    | DecimalDigit      // [0-9]
    | NotSpaceOrAt      // [^\s@]
    | Literal(c: char)  // one fixed character, such as `@` or `\.`

  predicate InClass(cls: CharClass, c: char) {
    match cls
    case DecimalDigit => '0' <= c <= '9'
    case NotSpaceOrAt => !IsWhitespace(c) && c != '@'
    case Literal(l) => c == l
  }

  /** A pattern is a concatenation of repeated character classes. */
  datatype Pattern =
    | Repeat(cls: CharClass, min: nat, max: Option<nat>)  // cls{min,max}; no max is cls{min,}
    | Concat(left: Pattern, right: Pattern)

  /** `cls+` */
  function Plus(cls: CharClass): Pattern {
    Repeat(cls, 1, None)
  }

  /** A single literal character. */
  function Lit(c: char): Pattern {
    Repeat(Literal(c), 1, Some(1))
  }

  /** The whole of `s` matches `p`. */
  predicate FullMatch(p: Pattern, s: string)
    decreases p
  {
    match p
    case Repeat(cls, lo, hi) =>
      lo <= |s| && (hi.None? || |s| <= hi.value) && forall k | 0 <= k < |s| :: InClass(cls, s[k])
    case Concat(l, r) =>
      exists k | 0 <= k <= |s| :: FullMatch(l, s[..k]) && FullMatch(r, s[k..])
  }
}
