/** Characters as the C library classifies them. */
module CType {

  /** isspace. */
  predicate Space(c: char) {
    c == ' ' || '\t' <= c <= '\r'
  }

  /** Blank, tab, newline, vertical tab, form feed and carriage return. */
  lemma SpaceIs(c: char)
    ensures Space(c) <==> c in " \t\n\U{b}\U{c}\r"
  {
    assert " \t\n\U{b}\U{c}\r" == [' ', 9 as char, 10 as char, 11 as char, 12 as char, 13 as char];
  }
}
