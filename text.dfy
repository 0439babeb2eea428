/** The string predicates the pagination engine relies on: blank detection and ordinal case folding. */
module Text {
  import opened Wrappers

  /**
   * `char.IsWhiteSpace`: the Unicode space separators, the line and paragraph
   * separators, the control characters U+0009..U+000D and U+0085.
   */
  predicate IsWhiteSpace(c: char) {
    || c == ' '
    || ('\t' <= c && c <= '\r')
    || c == '\U{85}' || c == '\U{A0}' || c == '\U{1680}'
    || ('\U{2000}' <= c && c <= '\U{200A}')
    || c == '\U{2028}' || c == '\U{2029}' || c == '\U{202F}' || c == '\U{205F}' || c == '\U{3000}'
  }

  /** `string.IsNullOrWhiteSpace`: null, empty, or made only of white-space characters. */
  predicate IsNullOrWhiteSpace(s: Option<string>) {
    s.None? || forall i | 0 <= i < |s.value| :: IsWhiteSpace(s.value[i])
  }

  /** Upper-casing of one character as an ordinal case-insensitive comparison does it (ASCII letters). */
  function FoldChar(c: char): char {
    if 'a' <= c && c <= 'z' then (c as int - 'a' as int + 'A' as int) as char else c
  }

  /** The case-folded form of a string: two strings are equal ignoring case when their folds are equal. */
  function Fold(s: string): (r: string)
    ensures |r| == |s|
  {
    if s == [] then [] else [FoldChar(s[0])] + Fold(s[1..])
  }

  /** `StringComparer.OrdinalIgnoreCase.Equals`. */
  predicate EqualsIgnoreCase(a: string, b: string) {
    Fold(a) == Fold(b)
  }

  /** Folding is idempotent, so comparing ignoring case is an equivalence on folded names. */
  lemma {:induction false} FoldIdempotent(s: string)
    ensures Fold(Fold(s)) == Fold(s)
  {
    if s != [] {
      FoldIdempotent(s[1..]);
      assert Fold(s) == [FoldChar(s[0])] + Fold(s[1..]);
      assert Fold(s)[1..] == Fold(s[1..]);
    }
  }
}
