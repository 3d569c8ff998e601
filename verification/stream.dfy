/** `scan_stream`: every logical line of the input is scanned in turn. A
    skipped unknown command changes nothing, a rejected line sets the
    failure flag for good, and an accepted line is appended to the token
    list only while no earlier line has failed. At the end a failure
    aborts the whole compilation; otherwise the list is returned. */
module Stream {
  import opened Wrappers
  import opened Chars
  import opened LineReader
  import opened Tokenize
  import opened Scanner

  /** The loop state: the token list built so far and the failure flag. */
  datatype ScanState = ScanState(list: seq<Instruction>, failure: bool)

  const Start := ScanState([], false)

  /** One turn of the loop. The list only grows, and once the flag is set
      it stays set and the list no longer changes. */
  function Step(st: ScanState, res: LineResult): (r: ScanState)
    ensures st.list <= r.list
    ensures st.failure ==> r == st
    ensures r.failure <==> st.failure || res.Rejected?
  {
    match res
    case NoCommand => st
    case UnknownCommand(_) => st
    case Rejected(_) => ScanState(st.list, true)
    case Accepted(i) => if st.failure then st else ScanState(st.list + [i], false)
  }

  /** The loop over a sequence of line results, one turn per line. */
  function Run(rs: seq<LineResult>): (r: ScanState)
    ensures |r.list| <= |rs|
    decreases |rs|
  {
    if rs == [] then Start else Step(Run(rs[..|rs| - 1]), rs[|rs| - 1])
  }

  /** What the scanner hands back: `None` for the exit after a failure. */
  function Outcome(st: ScanState): Option<seq<Instruction>> {
    if st.failure then None else Some(st.list)
  }

  /** The result `scan` gives every line, in order. */
  function Results(scan: string -> LineResult, lines: seq<string>): (rs: seq<LineResult>)
    ensures |rs| == |lines| && forall i :: 0 <= i < |lines| ==> rs[i] == scan(lines[i])
  {
    if lines == [] then [] else [scan(lines[0])] + Results(scan, lines[1..])
  }

  /** The whole of `scan_stream` on an input: the abort exactly when some
      line is rejected, and otherwise the nodes of the accepted lines. */
  function ScanInput(input: string): (r: Option<seq<Instruction>>)
    ensures r.None? <==> HasRejected(Results(ScanLine, Lines(input)))
    ensures r.Some? ==> r.value == Emitted(Results(ScanLine, Lines(input)))
  {
    OutcomeMatchesReference(Results(ScanLine, Lines(input)));
    Outcome(Run(Results(ScanLine, Lines(input))))
  }

  // A reference description of the outcome: the nodes of the accepted
  // lines in order, unless some line is rejected.

  /** Some line is rejected. */
  predicate HasRejected(rs: seq<LineResult>) {
    exists i :: 0 <= i < |rs| && rs[i].Rejected?
  }

  /** The nodes of the accepted lines, in input order. */
  function Emitted(rs: seq<LineResult>): seq<Instruction> {
    if rs == [] then []
    else (if rs[0].Accepted? then [rs[0].instr] else []) + Emitted(rs[1..])
  }

  /** The position of the first rejected line, or the length when none is. */
  function FirstRejected(rs: seq<LineResult>): (n: nat)
    ensures n <= |rs|
    ensures forall i :: 0 <= i < n ==> !rs[i].Rejected?
    ensures n < |rs| ==> rs[n].Rejected?
  {
    if rs == [] then 0
    else if rs[0].Rejected? then 0
    else 1 + FirstRejected(rs[1..])
  }

  /** Accepted nodes collect piecewise. */
  lemma {:induction false} EmittedAppend(a: seq<LineResult>, b: seq<LineResult>)
    ensures Emitted(a + b) == Emitted(a) + Emitted(b)
    decreases |a|
  {
    if a == [] {
      assert a + b == b;
    } else {
      assert (a + b)[0] == a[0] && (a + b)[1..] == a[1..] + b;
      EmittedAppend(a[1..], b);
    }
  }

  /** The nodes of one more line. */
  lemma EmittedSnoc(rs: seq<LineResult>, r: LineResult)
    ensures Emitted(rs + [r]) == Emitted(rs) + (if r.Accepted? then [r.instr] else [])
  {
    EmittedAppend(rs, [r]);
    assert Emitted([r]) == (if r.Accepted? then [r.instr] else []) + Emitted([]);
  }

  /** The last element split off. */
  lemma RunSnoc(rs: seq<LineResult>, r: LineResult)
    ensures Run(rs + [r]) == Step(Run(rs), r)
  {
    assert (rs + [r])[..|rs|] == rs;
  }

  /** The failure flag is set exactly when some line is rejected. */
  lemma {:induction false} RunFailure(rs: seq<LineResult>)
    ensures Run(rs).failure <==> HasRejected(rs)
    decreases |rs|
  {
    if rs != [] {
      var init := rs[..|rs| - 1];
      var last := rs[|rs| - 1];
      RunFailure(init);
      assert forall i :: 0 <= i < |init| ==> init[i] == rs[i];
      if HasRejected(rs) {
        var i :| 0 <= i < |rs| && rs[i].Rejected?;
        if i < |init| {
          assert init[i].Rejected?;
        }
      }
      if HasRejected(init) {
        var i :| 0 <= i < |init| && init[i].Rejected?;
        assert rs[i].Rejected?;
      }
      if last.Rejected? {
        assert rs[|rs| - 1].Rejected?;
      }
    }
  }

  /** The list holds the nodes of the accepted lines before the first
      rejected one. */
  lemma {:induction false} RunList(rs: seq<LineResult>)
    ensures Run(rs).list == Emitted(rs[..FirstRejected(rs)])
    decreases |rs|
  {
    if rs != [] {
      var init := rs[..|rs| - 1];
      var last := rs[|rs| - 1];
      assert rs == init + [last];
      RunList(init);
      RunFailure(init);
      FirstRejectedSnoc(init, last);
      if FirstRejected(init) == |init| {
        assert init[..|init|] == init;
        assert !HasRejected(init);
        if !last.Rejected? {
          assert rs[..FirstRejected(rs)] == init + [last];
          EmittedSnoc(init, last);
        }
      }
    }
  }

  /** The first rejected line of a sequence with one more line. */
  lemma {:induction false} FirstRejectedSnoc(rs: seq<LineResult>, r: LineResult)
    ensures FirstRejected(rs) < |rs| ==> FirstRejected(rs + [r]) == FirstRejected(rs)
    ensures FirstRejected(rs) == |rs| ==> FirstRejected(rs + [r]) == if r.Rejected? then |rs| else |rs| + 1
    ensures (rs + [r])[..FirstRejected(rs)] == rs[..FirstRejected(rs)]
    decreases |rs|
  {
    if rs != [] {
      assert (rs + [r])[0] == rs[0] && (rs + [r])[1..] == rs[1..] + [r];
      if !rs[0].Rejected? {
        FirstRejectedSnoc(rs[1..], r);
      }
    }
    var n := FirstRejected(rs);
    assert forall i :: 0 <= i < n ==> (rs + [r])[i] == rs[i];
  }

  /** After a failure no further line changes the state. */
  lemma {:induction false} NothingAfterFailure(rs: seq<LineResult>, more: seq<LineResult>)
    requires Run(rs).failure
    ensures Run(rs + more) == Run(rs)
    decreases |more|
  {
    if more == [] {
      assert rs + more == rs;
    } else {
      var init := more[..|more| - 1];
      NothingAfterFailure(rs, init);
      assert rs + more == (rs + init) + [more[|more| - 1]];
      RunSnoc(rs + init, more[|more| - 1]);
    }
  }

  /** A skipped unknown command changes nothing. */
  lemma UnknownLineNeutral(rs: seq<LineResult>, r: LineResult)
    requires r.UnknownCommand?
    ensures Run(rs + [r]) == Run(rs)
  {
    RunSnoc(rs, r);
  }

  /** A logical line always has a command word, so `strtok` never returns
      NULL for it. */
  lemma LogicalLineHasCommand(line: string)
    requires LogicalLine(line)
    ensures ScanLine(line) != NoCommand
  {
    assert !IsDelim(line[0]);
  }

  /** Every node the line scanner accepts obeys the segment rules. */
  lemma ScanLineValid()
    ensures forall line :: ScanLine(line).Accepted? ==> Valid(ScanLine(line).instr)
  {
    forall line | ScanLine(line).Accepted? ensures Valid(ScanLine(line).instr) {
      AcceptedIsValid(Words(line));
    }
  }

  /** When every accepted line yields a valid node, so does every node in
      the list. */
  lemma {:induction false} EmittedValid(scan: string -> LineResult, lines: seq<string>)
    requires forall line :: scan(line).Accepted? ==> Valid(scan(line).instr)
    ensures forall k :: 0 <= k < |Emitted(Results(scan, lines))| ==> Valid(Emitted(Results(scan, lines))[k])
    decreases |lines|
  {
    if lines != [] {
      var rs := Results(scan, lines);
      assert rs[1..] == Results(scan, lines[1..]);
      EmittedValid(scan, lines[1..]);
    }
  }

  /** The outcome of a sequence of line results: `None` exactly when some
      line is rejected, and otherwise the nodes of all accepted lines in
      order. */
  lemma OutcomeMatchesReference(rs: seq<LineResult>)
    ensures Outcome(Run(rs)).None? <==> HasRejected(rs)
    ensures Outcome(Run(rs)).Some? ==> Outcome(Run(rs)).value == Emitted(rs)
  {
    RunFailure(rs);
    RunList(rs);
    if !HasRejected(rs) {
      assert FirstRejected(rs) == |rs|;
      assert rs[..|rs|] == rs;
    }
  }

  /** The loop run on from state `st` over the results still to come. */
  function RunFrom(st: ScanState, rs: seq<LineResult>): ScanState
    decreases |rs|
  {
    if rs == [] then st else RunFrom(Step(st, rs[0]), rs[1..])
  }

  /** Running on from the state after `a` over `b` is running over both. */
  lemma {:induction false} RunFromRun(a: seq<LineResult>, b: seq<LineResult>)
    ensures RunFrom(Run(a), b) == Run(a + b)
    decreases |b|
  {
    if b == [] {
      assert a + b == a;
    } else {
      RunSnoc(a, b[0]);
      RunFromRun(a + [b[0]], b[1..]);
      assert (a + [b[0]]) + b[1..] == a + b;
    }
  }

  /** The loop of `scan_stream`, reading the input one logical line at a
      time through `nextline` and handing each to `scan`. */
  method ScanLines(scan: string -> LineResult, input: string) returns (r: Option<seq<Instruction>>)
    ensures r == Outcome(Run(Results(scan, Lines(input))))
    ensures r.None? <==> HasRejected(Results(scan, Lines(input)))
    ensures r.Some? ==> r.value == Emitted(Results(scan, Lines(input)))
  {
    var rest := input;
    var st := Start;
    var next := NextLine(rest);
    RunFromRun([], Results(scan, Lines(input)));
    assert [] + Results(scan, Lines(input)) == Results(scan, Lines(input));
    while next.Some?
      invariant next == NextLine(rest)
      invariant RunFrom(st, Results(scan, Lines(rest))) == Run(Results(scan, Lines(input)))
      decreases |rest|
    {
      var line := next.value.0;
      var res := scan(line);
      LinesStep(rest);
      st := Step(st, res);
      rest := next.value.1;
      next := NextLine(rest);
    }
    r := Outcome(st);
    OutcomeMatchesReference(Results(scan, Lines(input)));
  }

  /** `scan_stream` with the line scanner of this model: the outcome is
      `None` exactly when some line is rejected, and otherwise the nodes of
      the accepted lines in order, each obeying the segment rules. */
  method ScanStream(input: string) returns (r: Option<seq<Instruction>>)
    ensures r == ScanInput(input)
    ensures r.None? <==> HasRejected(Results(ScanLine, Lines(input)))
    ensures r.Some? ==> r.value == Emitted(Results(ScanLine, Lines(input)))
    ensures r.Some? ==> forall k :: 0 <= k < |r.value| ==> Valid(r.value[k])
  {
    r := ScanLines(ScanLine, input);
    ScanLineValid();
    EmittedValid(ScanLine, Lines(input));
  }

  /** One call of `nextline` that returns a line. */
  lemma LinesStep(s: string)
    requires NextLine(s).Some?
    ensures Lines(s) == [NextLine(s).value.0] + Lines(NextLine(s).value.1)
  {
  }
}
