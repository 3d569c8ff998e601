/** Character classes the lexer relies on, fixed to the C locale. */
module Chars {

  /** `isspace` in the C locale: space, tab, newline, vertical tab, form feed
      and carriage return. */
  predicate IsSpace(c: char) {
    c == ' ' || c == '\t' || c == '\n' || c == '\U{B}' || c == '\U{C}' || c == '\r'
  }

  /** The delimiter set `" \t"` handed to `strtok` when a line is split into words. */
  predicate IsDelim(c: char) {
    c == ' ' || c == '\t'
  }

  /** A base-10 digit. */
  predicate IsDigit(c: char) {
    '0' <= c <= '9'
  }

  /** Drops the leading characters for which `isspace` holds. The result is a
      suffix of `s`, everything dropped is whitespace, and the result does not
      start with whitespace. */
  function SkipSpace(s: seq<char>): (r: seq<char>)
    ensures |r| <= |s| && r == s[|s| - |r|..]
    ensures r == [] || !IsSpace(r[0])
    ensures forall i :: 0 <= i < |s| - |r| ==> IsSpace(s[i])
  {
    if s != [] && IsSpace(s[0]) then SkipSpace(s[1..]) else s
  }

  /** Whitespace in front of text that does not start with whitespace is
      skipped exactly. */
  lemma {:induction false} SkipSpaceOfSpaces(ws: seq<char>, rest: seq<char>)
    requires forall i :: 0 <= i < |ws| ==> IsSpace(ws[i])
    requires rest == [] || !IsSpace(rest[0])
    ensures SkipSpace(ws + rest) == rest
    decreases |ws|
  {
    if ws == [] {
      assert ws + rest == rest;
    } else {
      assert (ws + rest)[0] == ws[0];
      assert (ws + rest)[1..] == ws[1..] + rest;
      SkipSpaceOfSpaces(ws[1..], rest);
    }
  }
}
