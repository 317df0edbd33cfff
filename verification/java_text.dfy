/**
 * Java text values as the blog code handles them: strings are sequences of
 * UTF-16 code units (so a string's length is `String.length()`), and any
 * reference field may be null.
 */
module JavaText {

  /** One UTF-16 code unit, Java's `char`. */
  newtype CodeUnit = x: int | 0 <= x < 0x1_0000

  /** A non-null `java.lang.String`. */
  type JString = seq<CodeUnit>

  /** A Java reference that may be null. */
  datatype Nullable<+T> = Null | NonNull(value: T)

  /**
   * The UTF-16 encoding of a string whose characters all lie in the Basic
   * Multilingual Plane: one code unit per character, with the same value.
   */
  function FromBmp(s: string): (r: JString)
    requires forall i :: 0 <= i < |s| ==> s[i] as int < 0x1_0000
    ensures |r| == |s|
    ensures forall i :: 0 <= i < |s| ==> r[i] as int == s[i] as int
  {
    seq(|s|, i requires 0 <= i < |s| => s[i] as int as CodeUnit)
  }
}
