/** The characters that the two source languages strip as white space. */
module WhiteSpace {

  /** What `str.strip` removes. */
  predicate PythonSpace(c: char) {
    var n := c as int;
    || 9 <= n <= 13 || 28 <= n <= 32 || n in {0x85, 0xa0, 0x1680, 0x2028, 0x2029, 0x202f, 0x205f, 0x3000}
    || 0x2000 <= n <= 0x200a
  }

  predicate PythonBlank(s: string) {
    forall i :: 0 <= i < |s| ==> PythonSpace(s[i])
  }

  /** What `trim` removes and `\s` matches. */
  predicate ScriptSpace(c: char) {
    var n := c as int;
    || 9 <= n <= 13 || n in {0x20, 0xa0, 0x1680, 0x2028, 0x2029, 0x202f, 0x205f, 0x3000, 0xfeff}
    || 0x2000 <= n <= 0x200a
  }

  /** The two disagree on the information separators, the next line and the byte order mark. */
  lemma SpacesDiffer(c: char)
    ensures PythonSpace(c) != ScriptSpace(c) <==> '\U{1c}' <= c <= '\U{1f}' || c == '\U{85}' || c == '\U{feff}'
  {
  }
}
