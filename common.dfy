/** Small value types and text helpers shared by the rest of the model. */
module Common {

  datatype Option<T> = None | Some(value: T)

  /** ASCII lower-casing of one character (SQLite's lower() and LIKE fold only A-Z). */
  function LowerChar(c: char): char
  {
    if 'A' <= c <= 'Z' then (c as int + 32) as char else c
  }

  /** ASCII lower-casing of a string, character by character. */
  function Lower(s: string): string
  {
    seq(|s|, i requires 0 <= i < |s| => LowerChar(s[i]))
  }

  /** True when `needle` occurs somewhere in `hay` as a contiguous run. */
  predicate IsSubstring(needle: string, hay: string)
  {
    exists i | 0 <= i <= |hay| :: needle <= hay[i..]
  }

  /** Lower-casing both sides keeps an occurrence in place. */
  lemma LowerKeepsSubstring(needle: string, hay: string)
    requires IsSubstring(needle, hay)
    ensures IsSubstring(Lower(needle), Lower(hay))
  {
    var i :| 0 <= i <= |hay| && needle <= hay[i..];
    assert Lower(needle) <= Lower(hay)[i..];
  }

  /** An occurrence inside an occurrence is an occurrence. */
  lemma SubstringTransitive(a: string, b: string, c: string)
    requires IsSubstring(a, b) && IsSubstring(b, c)
    ensures IsSubstring(a, c)
  {
    var i :| 0 <= i <= |b| && a <= b[i..];
    var j :| 0 <= j <= |c| && b <= c[j..];
    assert a <= c[j + i..];
  }
}
