/** Splitting a line into words the way repeated `strtok(…, " \t")` calls
    do: runs of spaces and tabs separate words, and no word is empty. */
module Tokenize {
  import opened Chars

  /** A word as `strtok` hands it out: non-empty, with no delimiter inside. */
  predicate IsWord(w: string) {
    |w| > 0 && forall i :: 0 <= i < |w| ==> !IsDelim(w[i])
  }

  /** Drops leading delimiters; the result is a suffix of `s` that does not
      start with a delimiter. */
  function SkipDelims(s: string): (r: string)
    ensures |r| <= |s| && r == s[|s| - |r|..]
    ensures r == [] || !IsDelim(r[0])
    ensures forall i :: 0 <= i < |s| - |r| ==> IsDelim(s[i])
  {
    if s != [] && IsDelim(s[0]) then SkipDelims(s[1..]) else s
  }

  /** Length of the leading run of non-delimiters: the run is free of
      delimiters and is followed by a delimiter or the end of `s`. */
  function WordLength(s: string): (n: nat)
    ensures n <= |s|
    ensures forall i :: 0 <= i < n ==> !IsDelim(s[i])
    ensures n == |s| || IsDelim(s[n])
  {
    if s == [] || IsDelim(s[0]) then 0 else 1 + WordLength(s[1..])
  }

  /** The words of a line, in order. Every one is a proper word, and a line
      that does not start with a delimiter yields at least one word: its
      leading run of non-delimiters. */
  function Words(s: string): (ws: seq<string>)
    ensures AllWords(ws)
    ensures s != [] && !IsDelim(s[0]) ==> ws != [] && ws[0] == s[..WordLength(s)]
    decreases |s|
  {
    var t := SkipDelims(s);
    if t == [] then []
    else
      var n := WordLength(t);
      LeadingWord(s, t);
      AllWordsCons(t[..n], Words(t[n..]));
      [t[..n]] + Words(t[n..])
  }

  /** Every element is a word. */
  predicate AllWords(ws: seq<string>) {
    forall i :: 0 <= i < |ws| ==> IsWord(ws[i])
  }

  /** A word in front of words. */
  lemma AllWordsCons(w: string, ws: seq<string>)
    requires IsWord(w) && AllWords(ws)
    ensures AllWords([w] + ws)
  {
    forall i | 0 <= i < |[w] + ws| ensures IsWord(([w] + ws)[i]) {
      if i > 0 { assert ([w] + ws)[i] == ws[i - 1]; }
    }
  }

  /** After the delimiters are skipped, the leading run is a word; a line
      that starts with a non-delimiter skips nothing. */
  lemma LeadingWord(s: string, t: string)
    requires t == SkipDelims(s) && t != []
    ensures IsWord(t[..WordLength(t)])
    ensures s != [] && !IsDelim(s[0]) ==> t == s
  {
  }

  /** The words joined with single spaces. */
  function Join(ws: seq<string>): string {
    if ws == [] then []
    else if |ws| == 1 then ws[0]
    else ws[0] + " " + Join(ws[1..])
  }

  /** The run of non-delimiters at the front of `w + rest` is exactly `w`
      when `w` is free of delimiters and `rest` starts with one or is empty. */
  lemma {:induction false} WordLengthOfWord(w: string, rest: string)
    requires forall i :: 0 <= i < |w| ==> !IsDelim(w[i])
    requires rest == [] || IsDelim(rest[0])
    ensures WordLength(w + rest) == |w|
    decreases |w|
  {
    if w != [] {
      assert (w + rest)[1..] == w[1..] + rest;
      WordLengthOfWord(w[1..], rest);
    }
  }

  /** A word followed by a delimiter (or nothing) is split off as the first
      word. */
  lemma {:induction false} WordsOfWordThen(w: string, rest: string)
    requires IsWord(w)
    requires rest == [] || IsDelim(rest[0])
    ensures Words(w + rest) == [w] + Words(rest)
  {
    var s := w + rest;
    assert s[0] == w[0];
    assert SkipDelims(s) == s;
    WordLengthOfWord(w, rest);
    assert s[..|w|] == w;
    assert s[|w|..] == rest;
  }

  /** A word followed by a space and more text is split off as the first
      word, and the space is skipped. */
  lemma {:induction false} WordsOfWordSpace(w: string, tail: string)
    requires IsWord(w)
    ensures Words(w + ([' '] + tail)) == [w] + Words(tail)
  {
    WordsOfWordThen(w, [' '] + tail);
    assert ([' '] + tail)[1..] == tail;
  }

  /** A single word splits into itself. */
  lemma {:induction false} WordsOfWord(w: string)
    requires IsWord(w)
    ensures Words(w) == [w]
  {
    WordsOfWordThen(w, []);
    assert w + [] == w;
  }

  /** Splitting words joined by single spaces gives the words back. */
  lemma {:induction false} WordsOfJoin(ws: seq<string>)
    requires AllWords(ws)
    ensures Words(Join(ws)) == ws
    decreases |ws|
  {
    if |ws| == 1 {
      WordsOfWord(ws[0]);
    } else if |ws| > 1 {
      var rest := ws[1..];
      assert forall i :: 0 <= i < |rest| ==> IsWord(rest[i]) by {
        forall i | 0 <= i < |rest| ensures IsWord(rest[i]) {
          assert rest[i] == ws[i + 1];
        }
      }
      WordsOfJoin(rest);
      WordsOfJoinStep(ws);
    }
  }

  /** The inductive step of `WordsOfJoin`: the first word is split off and
      the rest splits as its own join does. */
  lemma {:induction false} WordsOfJoinStep(ws: seq<string>)
    requires |ws| > 1 && IsWord(ws[0])
    requires Words(Join(ws[1..])) == ws[1..]
    ensures Words(Join(ws)) == ws
  {
    JoinCons(ws);
    WordsOfWordSpace(ws[0], Join(ws[1..]));
    assert ws == [ws[0]] + ws[1..];
  }

  /** A join of two or more words is the first word, a space, and the join
      of the rest. */
  lemma JoinCons(ws: seq<string>)
    requires |ws| > 1
    ensures Join(ws) == ws[0] + ([' '] + Join(ws[1..]))
  {
  }

  /** A run of blanks and tabs, possibly empty. */
  predicate IsGap(g: string) {
    forall i :: 0 <= i < |g| ==> IsDelim(g[i])
  }

  /** The gaps around and between `n` words: `n + 1` runs of blanks and
      tabs, where the runs between two words are not empty. */
  predicate Gaps(n: nat, gaps: seq<string>) {
    |gaps| == n + 1
    && (forall i :: 0 <= i < |gaps| ==> IsGap(gaps[i]))
    && (forall i :: 0 < i < n ==> gaps[i] != [])
  }

  /** The words laid out with the gaps: `gaps[0] + ws[0] + gaps[1] + … +
      ws[n - 1] + gaps[n]`. */
  function Spread(ws: seq<string>, gaps: seq<string>): string
    requires |gaps| == |ws| + 1
    decreases |ws|
  {
    if ws == [] then gaps[0] else gaps[0] + (ws[0] + Spread(ws[1..], gaps[1..]))
  }

  /** A line of blanks and tabs only has no words, and only such a line. */
  lemma NoWords(s: string)
    ensures Words(s) == [] <==> IsGap(s)
  {
    var t := SkipDelims(s);
    if t != [] {
      assert t[0] == s[|s| - |t|];
    }
  }

  /** Leading blanks and tabs do not change the words. */
  lemma {:induction false} WordsAfterGap(g: string, s: string)
    requires IsGap(g)
    ensures Words(g + s) == Words(s)
    decreases |g|
  {
    if g == [] {
      assert g + s == s;
    } else {
      assert (g + s)[0] == g[0];
      assert (g + s)[1..] == g[1..] + s;
      WordsAfterGap(g[1..], s);
    }
  }

  /** Splitting words laid out with any gaps of blanks and tabs, leading
      and trailing ones included, gives the words back. */
  lemma {:induction false} WordsOfSpread(ws: seq<string>, gaps: seq<string>)
    requires AllWords(ws) && Gaps(|ws|, gaps)
    ensures Words(Spread(ws, gaps)) == ws
    decreases |ws|
  {
    if ws == [] {
      WordsAfterGap(gaps[0], []);
      assert gaps[0] + [] == gaps[0];
    } else {
      SpreadTail(ws, gaps);
      WordsOfSpread(ws[1..], gaps[1..]);
      WordsOfSpreadStep(ws, gaps);
    }
  }

  /** The words and gaps after the first word are again words and gaps. */
  lemma SpreadTail(ws: seq<string>, gaps: seq<string>)
    requires ws != [] && AllWords(ws) && Gaps(|ws|, gaps)
    ensures AllWords(ws[1..]) && Gaps(|ws[1..]|, gaps[1..])
  {
    forall i | 0 <= i < |ws[1..]| ensures IsWord(ws[1..][i]) {
      assert ws[1..][i] == ws[i + 1];
    }
    forall i | 0 <= i < |gaps[1..]| ensures IsGap(gaps[1..][i]) {
      assert gaps[1..][i] == gaps[i + 1];
    }
    forall i | 0 < i < |ws[1..]| ensures gaps[1..][i] != [] {
      assert gaps[1..][i] == gaps[i + 1];
    }
  }

  /** The inductive step of `WordsOfSpread`: the leading gap is skipped,
      the first word is split off, and the rest splits as its own layout
      does. */
  lemma {:induction false} WordsOfSpreadStep(ws: seq<string>, gaps: seq<string>)
    requires ws != [] && IsWord(ws[0]) && Gaps(|ws|, gaps)
    requires Words(Spread(ws[1..], gaps[1..])) == ws[1..]
    ensures Words(Spread(ws, gaps)) == ws
  {
    var rest := Spread(ws[1..], gaps[1..]);
    assert Spread(ws, gaps) == gaps[0] + (ws[0] + rest);
    assert rest == [] || IsDelim(rest[0]) by {
      SpreadStart(ws[1..], gaps[1..]);
    }
    assert Words(gaps[0] + (ws[0] + rest)) == [ws[0]] + ws[1..] by {
      WordsOfGapWord(gaps[0], ws[0], rest);
    }
    assert ws == [ws[0]] + ws[1..];
  }

  /** A gap, a word, then a blank, a tab or nothing: the word comes first. */
  lemma WordsOfGapWord(g: string, w: string, rest: string)
    requires IsGap(g) && IsWord(w) && (rest == [] || IsDelim(rest[0]))
    ensures Words(g + (w + rest)) == [w] + Words(rest)
  {
    WordsAfterGap(g, w + rest);
    WordsOfWordThen(w, rest);
  }

  /** Laid-out words start with their first gap: with a blank or tab, or
      with nothing at all when there is no word and no gap. */
  lemma SpreadStart(ws: seq<string>, gaps: seq<string>)
    requires |gaps| == |ws| + 1 && IsGap(gaps[0]) && (ws != [] ==> gaps[0] != [])
    ensures var s := Spread(ws, gaps); s == [] || IsDelim(s[0])
  {
    if ws != [] {
      assert Spread(ws, gaps)[0] == gaps[0][0];
    }
  }
}
