/**
 * Python's `str.isprintable`: a character is printable unless its Unicode general
 * category is Other (Cc, Cf, Cs, Co, Cn) or Separator (Zl, Zp, Zs) other than the
 * space U+0020. Inside U+0000..U+00FF that leaves exactly U+0000..U+001F,
 * U+007F..U+009F (Cc), U+00A0 (Zs) and U+00AD (Cf) non-printable, which is stated
 * here concretely; above U+00FF the Unicode database is a parameter, `wide`.
 */
module Unicode {

  /** Printability of the code points U+0000..U+00FF. */
  predicate Latin1Printable(n: int)
  {
    0x20 <= n <= 0x7E || (0xA1 <= n <= 0xFF && n != 0xAD)
  }

  predicate IsPrintable(wide: char -> bool, c: char)
  {
    if c as int < 0x100 then Latin1Printable(c as int) else wide(c)
  }

  /**
   * `t.isprintable()`: every character is printable, so the empty string is. A
   * printable string holds no C0 control character and no DEL, so in particular
   * no tab, line feed or carriage return.
   */
  predicate IsPrintableString(wide: char -> bool, t: string): (r: bool)
    ensures r ==> forall i :: 0 <= i < |t| ==> 0x20 <= t[i] as int && t[i] as int != 0x7F
    ensures t == [] ==> r
  {
    forall i :: 0 <= i < |t| ==> IsPrintable(wide, t[i])
  }

}
