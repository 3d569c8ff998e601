/** `nextline`: pulling the next logical line out of the input. Leading
    whitespace (newlines included) is skipped, one physical line is read,
    a `//` comment is cut off together with the rest of its physical line,
    and a line left empty is skipped by reading on. */
module LineReader {
  import opened Wrappers
  import opened Chars

  /** No two consecutive '/' characters. */
  predicate NoCommentMark(l: seq<char>) {
    forall i :: 0 <= i < |l| - 1 ==> !(l[i] == '/' && l[i + 1] == '/')
  }

  /** What `nextline` can hand back: non-empty, starting with a character
      that is not whitespace, without a newline and without a `//`. */
  predicate LogicalLine(l: seq<char>) {
    |l| > 0 && !IsSpace(l[0]) && '\n' !in l && NoCommentMark(l)
  }

  /** Skipping a comment: everything up to and including the next newline
      is dropped, and a comment that reaches the end of the input ends
      there. What is left is the input after the current physical line. */
  function SkipComment(s: seq<char>): (r: seq<char>)
    ensures |r| <= |s| && r == s[|s| - |r|..]
    ensures r == AfterLine(s)
  {
    if s == [] then []
    else if s[0] == '\n' then s[1..]
    else SkipComment(s[1..])
  }

  /** The main loop of `nextline`, from the first non-blank character on:
      characters are kept until a newline, a `//` or the end of input. The
      kept part is a prefix of `s` that contains neither a newline nor a
      `//`, and the first character after it (if any) starts one of them.
      The rest is the input after the newline that ended the physical line. */
  function ReadPhysical(s: seq<char>): (r: (seq<char>, seq<char>))
    ensures |r.1| <= |s| && (s != [] ==> |r.1| < |s|)
    ensures |r.0| <= |s| && r.0 == s[..|r.0|]
    ensures '\n' !in r.0 && NoCommentMark(r.0)
    ensures |r.0| == |s| || s[|r.0|] == '\n'
            || (s[|r.0|] == '/' && |r.0| + 1 < |s| && s[|r.0| + 1] == '/')
  {
    if s == [] then ([], [])
    else if s[0] == '\n' then ([], s[1..])
    else if s[0] == '/' && |s| > 1 && s[1] == '/' then ([], SkipComment(s[2..]))
    else
      var (l, rest) := ReadPhysical(s[1..]);
      ([s[0]] + l, rest)
  }

  /** `nextline`: the next logical line and the input after it, or `None`
      at the end of the input. The line is a `LogicalLine`, and the rest is
      strictly shorter than the input. */
  function NextLine(s: seq<char>): (r: Option<(seq<char>, seq<char>)>)
    ensures r.Some? ==> LogicalLine(r.value.0) && |r.value.1| < |s|
    decreases |s|
  {
    var t := SkipSpace(s);
    if t == [] then None
    else
      var (l, rest) := ReadPhysical(t);
      if l != [] then Some((l, rest)) else NextLine(rest)
  }

  /** The lines `nextline` hands out, one call after another, until it
      returns `None`. */
  function Lines(s: seq<char>): (ls: seq<seq<char>>)
    ensures forall i :: 0 <= i < |ls| ==> LogicalLine(ls[i])
    decreases |s|
  {
    match NextLine(s)
    case None => []
    case Some((l, rest)) => [l] + Lines(rest)
  }

  // A reference description of the same lines, stated per physical line:
  // split the input at newlines, strip each piece's leading whitespace and
  // its comment, and keep the pieces that are not empty.

  /** The index of the first newline, or the length when there is none. */
  function LineEnd(s: seq<char>): (e: nat)
    ensures e <= |s| && '\n' !in s[..e] && (e == |s| || s[e] == '\n')
  {
    if s == [] || s[0] == '\n' then 0 else 1 + LineEnd(s[1..])
  }

  /** The input after the first physical line and its newline. */
  function AfterLine(s: seq<char>): (r: seq<char>)
    ensures s != [] ==> |r| < |s|
  {
    var e := LineEnd(s);
    if e < |s| then s[e + 1..] else []
  }

  /** The physical lines of the input. */
  function PhysicalLines(s: seq<char>): seq<seq<char>>
    decreases |s|
  {
    if s == [] then [] else [s[..LineEnd(s)]] + PhysicalLines(AfterLine(s))
  }

  /** The index of the first `//`, or the length when there is none. */
  function CommentStart(p: seq<char>): (k: nat)
    ensures k <= |p|
  {
    if |p| < 2 then |p|
    else if p[0] == '/' && p[1] == '/' then 0
    else 1 + CommentStart(p[1..])
  }

  /** `CommentStart` finds the first `//`: none starts before it, and one
      starts there unless it is the length. */
  lemma {:induction false} CommentStartIsFirst(p: seq<char>)
    ensures var k := CommentStart(p);
            (forall i :: 0 <= i < k && i + 1 < |p| ==> !(p[i] == '/' && p[i + 1] == '/'))
            && (k < |p| ==> k + 1 < |p| && p[k] == '/' && p[k + 1] == '/')
    decreases |p|
  {
    if |p| >= 2 && !(p[0] == '/' && p[1] == '/') {
      CommentStartIsFirst(p[1..]);
      var k := CommentStart(p);
      forall i | 0 < i < k && i + 1 < |p| ensures !(p[i] == '/' && p[i + 1] == '/') {
        assert p[i] == p[1..][i - 1] && p[i + 1] == p[1..][i];
      }
    }
  }

  /** A physical line with its leading whitespace and its comment removed. */
  function Clean(p: seq<char>): seq<char> {
    var q := SkipSpace(p);
    q[..CommentStart(q)]
  }

  /** The cleaned physical lines that are not empty. */
  function CleanLines(ps: seq<seq<char>>): seq<seq<char>> {
    if ps == [] then []
    else (if Clean(ps[0]) == [] then [] else [Clean(ps[0])]) + CleanLines(ps[1..])
  }

  /** Past a first character that is not a newline, the physical line
      continues in the tail: it ends one position later and leaves the same
      rest. */
  lemma AfterLineTail(s: seq<char>)
    requires s != [] && s[0] != '\n'
    ensures LineEnd(s) == 1 + LineEnd(s[1..])
    ensures s[..LineEnd(s)] == [s[0]] + s[1..][..LineEnd(s[1..])]
    ensures AfterLine(s) == AfterLine(s[1..])
  {
  }

  /** A character that does not start a `//` shifts the comment by one. */
  lemma CommentStartCons(c: char, p: seq<char>)
    requires !(c == '/' && p != [] && p[0] == '/')
    ensures CommentStart([c] + p) == 1 + CommentStart(p)
  {
    assert ([c] + p)[1..] == p;
  }

  /** `ReadPhysical` returns the first physical line cut at its comment,
      and the input after that physical line. */
  lemma ReadPhysicalIsFirstLine(s: seq<char>)
    ensures var p := s[..LineEnd(s)];
            ReadPhysical(s) == (p[..CommentStart(p)], AfterLine(s))
  {
    ReadPhysicalKept(s);
    ReadPhysicalRest(s);
  }

  /** The part `ReadPhysical` keeps is the first physical line cut at its
      comment. */
  lemma {:induction false} ReadPhysicalKept(s: seq<char>)
    ensures var p := s[..LineEnd(s)];
            ReadPhysical(s).0 == p[..CommentStart(p)]
    decreases |s|
  {
    if s == [] || s[0] == '\n' {
    } else if s[0] == '/' && |s| > 1 && s[1] == '/' {
      AfterLineTail(s);
      AfterLineTail(s[1..]);
    } else {
      AfterLineTail(s);
      ReadPhysicalKept(s[1..]);
      var q := s[1..][..LineEnd(s[1..])];
      CommentStartCons(s[0], q);
      assert ([s[0]] + q)[..1 + CommentStart(q)] == [s[0]] + q[..CommentStart(q)];
    }
  }

  /** What `ReadPhysical` leaves is the input after the first physical
      line. */
  lemma {:induction false} ReadPhysicalRest(s: seq<char>)
    ensures ReadPhysical(s).1 == AfterLine(s)
    decreases |s|
  {
    if s == [] || s[0] == '\n' {
    } else if s[0] == '/' && |s| > 1 && s[1] == '/' {
      AfterLineTail(s);
      AfterLineTail(s[1..]);
      assert s[1..][1..] == s[2..];
    } else {
      AfterLineTail(s);
      ReadPhysicalRest(s[1..]);
    }
  }

  /** A leading whitespace character changes neither the lines `nextline`
      produces nor the cleaned physical lines. */
  lemma LeadingSpaceIgnored(s: seq<char>)
    requires s != [] && IsSpace(s[0])
    ensures Lines(s) == Lines(s[1..])
    ensures CleanLines(PhysicalLines(s)) == CleanLines(PhysicalLines(s[1..]))
  {
    assert SkipSpace(s) == SkipSpace(s[1..]);
    assert NextLine(s) == NextLine(s[1..]);
    LeadingSpaceClean(s);
  }

  /** The cleaned physical lines do not see a leading whitespace character:
      a newline ends an empty physical line, and any other whitespace is
      stripped from the first one. */
  lemma LeadingSpaceClean(s: seq<char>)
    requires s != [] && IsSpace(s[0])
    ensures CleanLines(PhysicalLines(s)) == CleanLines(PhysicalLines(s[1..]))
  {
    if s[0] == '\n' {
      LeadingNewlineClean(s);
    } else {
      LeadingBlankClean(s);
    }
  }

  /** A leading newline ends an empty physical line, which cleans to
      nothing. */
  lemma LeadingNewlineClean(s: seq<char>)
    requires s != [] && s[0] == '\n'
    ensures CleanLines(PhysicalLines(s)) == CleanLines(PhysicalLines(s[1..]))
  {
    assert LineEnd(s) == 0 && AfterLine(s) == s[1..];
    assert PhysicalLines(s) == [[]] + PhysicalLines(s[1..]);
    assert Clean([]) == [];
    assert ([[]] + PhysicalLines(s[1..]))[1..] == PhysicalLines(s[1..]);
  }

  /** Leading whitespace other than a newline is stripped from the first
      physical line, which leaves the same rest. */
  lemma LeadingBlankClean(s: seq<char>)
    requires s != [] && IsSpace(s[0]) && s[0] != '\n'
    ensures CleanLines(PhysicalLines(s)) == CleanLines(PhysicalLines(s[1..]))
  {
    AfterLineTail(s);
    var p := s[..LineEnd(s)];
    var rest := PhysicalLines(AfterLine(s));
    assert PhysicalLines(s) == [p] + rest;
    CleanLinesCons(p, rest);
    if s[1..] != [] {
      var q := s[1..][..LineEnd(s[1..])];
      assert PhysicalLines(s[1..]) == [q] + rest;
      CleanLinesCons(q, rest);
      LeadingBlankFirstLine(s);
    } else {
      assert p == [s[0]];
      assert SkipSpace(p) == [];
      assert rest == [];
    }
  }

  /** The first physical line, less a leading blank, cleans the same. */
  lemma LeadingBlankFirstLine(s: seq<char>)
    requires |s| > 1 && IsSpace(s[0]) && s[0] != '\n'
    ensures Clean(s[..LineEnd(s)]) == Clean(s[1..][..LineEnd(s[1..])])
  {
    AfterLineTail(s);
    var p := s[..LineEnd(s)];
    assert SkipSpace(p) == SkipSpace(p[1..]);
  }

  /** Cleaning the lines one at a time. */
  lemma CleanLinesCons(p: seq<char>, ps: seq<seq<char>>)
    ensures CleanLines([p] + ps) == (if Clean(p) == [] then [] else [Clean(p)]) + CleanLines(ps)
  {
    assert ([p] + ps)[1..] == ps;
  }

  /** The lines `nextline` produces are exactly the cleaned physical lines
      that are not empty, in input order. */
  lemma {:induction false} LinesAreCleanPhysicalLines(s: seq<char>)
    ensures Lines(s) == CleanLines(PhysicalLines(s))
    decreases |s|
  {
    if s == [] {
    } else if IsSpace(s[0]) {
      LeadingSpaceIgnored(s);
      LinesAreCleanPhysicalLines(s[1..]);
    } else {
      assert SkipSpace(s) == s;
      ReadPhysicalIsFirstLine(s);
      var p := s[..LineEnd(s)];
      assert p[0] == s[0];
      assert SkipSpace(p) == p;
      assert Clean(p) == ReadPhysical(s).0;
      LinesAreCleanPhysicalLines(AfterLine(s));
    }
  }

  /** No cleaned line survives exactly when every cleaned line is empty. */
  lemma {:induction false} CleanLinesEmpty(ps: seq<seq<char>>)
    ensures CleanLines(ps) == [] <==> forall i :: 0 <= i < |ps| ==> Clean(ps[i]) == []
  {
    if ps != [] {
      var t := ps[1..];
      CleanLinesEmpty(t);
      if CleanLines(ps) == [] {
        forall i | 0 <= i < |ps| ensures Clean(ps[i]) == [] {
          if i > 0 { assert ps[i] == t[i - 1]; }
        }
      }
      if forall i :: 0 <= i < |ps| ==> Clean(ps[i]) == [] {
        forall i | 0 <= i < |t| ensures Clean(t[i]) == [] {
          assert t[i] == ps[i + 1];
        }
      }
    }
  }

  /** Blank and comment-only input yields no line at all, and input with
      some physical line that has content yields at least one. */
  lemma BlankInputHasNoLines(s: seq<char>)
    ensures Lines(s) == [] <==> forall i :: 0 <= i < |PhysicalLines(s)| ==> Clean(PhysicalLines(s)[i]) == []
  {
    LinesAreCleanPhysicalLines(s);
    CleanLinesEmpty(PhysicalLines(s));
  }

  /** The comment loop as written (`while (fgetc(fp) != '\n')`): end of input
      never compares equal to a newline, so the loop only exits at a
      newline. `None` stands for the loop that never exits. */
  function SkipCommentAsWritten(s: seq<char>): (r: Option<seq<char>>)
    ensures r.None? <==> '\n' !in s
    ensures r.Some? ==> r.value == SkipComment(s)
  {
    if s == [] then None
    else if s[0] == '\n' then Some(s[1..])
    else SkipCommentAsWritten(s[1..])
  }

  /** An input whose last line ends in a comment without a newline: the loop
      as written never exits, while the corrected reader returns the code
      before the comment and reaches the end of input. */
  lemma TrailingCommentHangs(code: seq<char>, comment: seq<char>)
    requires LogicalLine(code) && code[|code| - 1] != '/'
    requires '\n' !in comment
    ensures SkipCommentAsWritten(comment) == None
    ensures NextLine(code + "//" + comment) == Some((code, []))
  {
    CommentedLine(code, comment);
    CommentedNextLine(code + "//" + comment, code);
  }

  /** Input whose first physical line runs to the end and keeps `code`
      before its comment: `nextline` returns `code` and nothing is left. */
  lemma CommentedNextLine(s: seq<char>, code: seq<char>)
    requires code != [] && SkipSpace(s) == s && LineEnd(s) == |s| && AfterLine(s) == []
    requires s[..CommentStart(s)] == code
    ensures NextLine(s) == Some((code, []))
  {
    ReadPhysicalIsFirstLine(s);
    assert s[..LineEnd(s)] == s;
  }

  /** The physical line `code // comment` runs to the end of the input, and
      its comment starts right after the code. */
  lemma CommentedLine(code: seq<char>, comment: seq<char>)
    requires LogicalLine(code) && code[|code| - 1] != '/'
    requires '\n' !in comment
    ensures var s := code + "//" + comment;
            SkipSpace(s) == s && LineEnd(s) == |s| && AfterLine(s) == []
            && s[..CommentStart(s)] == code
  {
    var s := code + "//" + comment;
    assert s[0] == code[0];
    assert '\n' !in s by {
      forall i | 0 <= i < |s| ensures s[i] != '\n' {
        if i < |code| { assert s[i] == code[i]; }
        else if i >= |code| + 2 { assert s[i] == comment[i - |code| - 2]; }
      }
    }
    assert s == code + ("//" + comment);
    CommentStartAt(code, "//" + comment);
    assert s[..|code|] == code;
  }

  /** Code free of `//` that does not end in '/', followed by `//`: the
      comment starts right after the code. */
  lemma {:induction false} CommentStartAt(code: seq<char>, rest: seq<char>)
    requires NoCommentMark(code) && (code == [] || code[|code| - 1] != '/')
    requires |rest| >= 2 && rest[0] == '/' && rest[1] == '/'
    ensures CommentStart(code + rest) == |code|
    decreases |code|
  {
    if code != [] {
      var tail := code[1..];
      assert code + rest == [code[0]] + (tail + rest);
      assert NoCommentMark(tail) by {
        forall i | 0 <= i < |tail| - 1 ensures !(tail[i] == '/' && tail[i + 1] == '/') {
          assert tail[i] == code[i + 1] && tail[i + 1] == code[i + 2];
        }
      }
      CommentStartAt(tail, rest);
      if tail == [] {
        assert code[0] != '/';
      } else {
        assert tail[0] == code[1];
      }
      CommentStartCons(code[0], tail + rest);
    }
  }
}
