/** The body of the `scan_stream` loop for one logical line: the line is cut
    into words, the first word is classified, and the words that follow are
    checked and converted slot by slot against the command's format. */
module Scanner {
  import opened Wrappers
  import opened Chars
  import opened Tables
  import opened Numbers
  import opened Tokenize

  /** One element of a node's `argv`. */
  datatype CmdArg = Op(op: RType) | Mem(mem: Memory) | Num(num: int) | Name(name: string)

  function KindOf(a: CmdArg): CmdArgType {
    match a
    case Op(_) => ArgCmd
    case Mem(_) => ArgMemory
    case Num(_) => ArgNum
    case Name(_) => ArgName
  }

  /** A node of the token list: the command kind and its `argv`. */
  datatype Instruction = Instruction(cmd: CommandType, args: seq<CmdArg>)

  /** The diagnostics a line can raise; each one sets the failure flag. */
  datatype LineError =
    | MissingToken
    | PopConstant
    | InvalidSegment(segment: string)
    | BadNumber(number: string)
    | OutOfRange(seg: Memory, value: int)

  /** An `argv` slot: written or left untouched. */
  datatype Slot = Unset | Filled(arg: CmdArg)

  /** What one line does: nothing (no word), a skipped unknown command, a
      rejected line with its diagnostics, or an accepted node. */
  datatype LineResult =
    | NoCommand
    | UnknownCommand(word: string)
    | Rejected(errors: seq<LineError>)
    | Accepted(instr: Instruction)

  /** The largest index a push or pop may use in a segment. */
  function Limit(seg: Memory): nat {
    if seg == Temp then 7 else 32767
  }

  /** The kinds of the arguments a node of kind `c` carries: the slot of the
      command word when its format gives it a kind, then the slots filled
      from the following words. */
  function ArgKinds(c: CommandType): (ks: seq<CmdArgType>)
    ensures c == Arithmetic ==> ks == [ArgCmd]
    ensures c == Push || c == Pop ==> ks == [ArgMemory, ArgNum]
    ensures c == Label || c == Goto || c == IfGoto ==> ks == [ArgName]
    ensures c == Function || c == Call ==> ks == [ArgName, ArgNum]
    ensures c == Return || c == Unknown ==> ks == []
  {
    var f := Format(c);
    (if f.arg[0] == ArgNone then [] else [f.arg[0]]) + SlotKinds(f)
  }

  /** The node has one argument per kind of its command, of that kind. */
  predicate Conforms(i: Instruction) {
    var ks := ArgKinds(i.cmd);
    |i.args| == |ks| && forall k :: 0 <= k < |ks| ==> KindOf(i.args[k]) == ks[k]
  }

  /** The segment rules the scanner enforces on push and pop: never pop into
      `constant`, and an index between 0 and the segment's limit. */
  predicate SegmentRules(i: Instruction)
    requires Conforms(i)
  {
    (i.cmd == Push || i.cmd == Pop) ==>
      (i.cmd == Pop ==> i.args[0].mem != Constant)
      && 0 <= i.args[1].num <= Limit(i.args[0].mem)
  }

  /** Everything the scanner promises about the nodes it emits. */
  predicate Valid(i: Instruction) {
    Conforms(i) && SegmentRules(i)
  }

  /** Slot 0 of a command whose format gives it a kind: the operation of an
      arithmetic command word. */
  function CommandSlot(kind: CmdArgType, word: string): (s: Slot)
    ensures s.Filled? <==> kind == ArgCmd && word in Keys(ArithmeticTable)
    ensures s.Filled? ==> s.arg == Op(OpOf(word).value)
  {
    if kind == ArgCmd && OpOf(word).Some? then Filled(Op(OpOf(word).value)) else Unset
  }

  /** A segment word (`ARG_MEMORY`): the slot is written only when the
      word names a segment; `pop constant` and an unknown word are errors. */
  function ScanSegment(cmdt: CommandType, word: string): (r: (Slot, seq<LineError>))
    ensures r.0.Filled? <==> SegmentOf(word).Some?
    ensures r.0.Filled? ==> r.0.arg == Mem(SegmentOf(word).value)
    ensures r.1 == [] <==> SegmentOf(word).Some? && !(cmdt == Pop && SegmentOf(word) == Some(Constant))
    ensures MissingToken !in r.1
  {
    var seg := SegmentOf(word);
    var popConstant := if cmdt == Pop && seg == Some(Constant) then [PopConstant] else [];
    var invalid := if seg.None? then [InvalidSegment(word)] else [];
    (if seg.Some? then Filled(Mem(seg.value)) else Unset, popConstant + invalid)
  }

  /** A number word (`ARG_NUM`): the slot always receives the converted
      value narrowed to 32 bits. A word that does not convert, or whose
      value overflows, is an error, and so is the index of a push or pop
      outside its segment's range. */
  function ScanNumber(cmdt: CommandType, word: string, prev: Slot): (r: (Slot, seq<LineError>))
    ensures r.0 == Filled(Num(Narrow32(StrToLL(word).value)))
    ensures r.1 == [] <==>
              (NumberOk(word) &&
               ((cmdt == Push || cmdt == Pop) && prev.Filled? && prev.arg.Mem? ==>
                  0 <= StrToLL(word).value <= Limit(prev.arg.mem)))
    ensures MissingToken !in r.1
  {
    var c := StrToLL(word);
    var bad := if c.overflow || c.consumed == 0 then [BadNumber(word)] else [];
    var range :=
      if (cmdt == Push || cmdt == Pop) && prev.Filled? && prev.arg.Mem?
         && !(0 <= c.value <= Limit(prev.arg.mem))
      then [OutOfRange(prev.arg.mem, c.value)] else [];
    (Filled(Num(Narrow32(c.value))), bad + range)
  }

  /** One present word checked and converted as the slot's kind demands.
      `prev` is the slot before, which holds the segment of a push or pop
      when its number is read. Kinds without a conversion leave the slot
      alone. */
  function ScanArg(cmdt: CommandType, kind: CmdArgType, word: string, prev: Slot): (r: (Slot, seq<LineError>))
    ensures MissingToken !in r.1
    ensures r.1 == [] && kind != ArgNone && kind != ArgCmd ==> r.0.Filled? && KindOf(r.0.arg) == kind
  {
    if kind == ArgMemory then ScanSegment(cmdt, word)
    else if kind == ArgNum then ScanNumber(cmdt, word, prev)
    else if kind == ArgName then (Filled(Name(word)), [])
    else assert kind.ArgNone? || kind.ArgCmd?; (Unset, [])
  }

  /** Kinds that the slot loop converts a word for. */
  predicate Convertible(ks: seq<CmdArgType>) {
    forall k :: 0 <= k < |ks| ==> ks[k] != ArgNone && ks[k] != ArgCmd
  }

  /** Every slot is filled with an argument of the kind at its position. */
  predicate FilledAs(ss: seq<Slot>, ks: seq<CmdArgType>) {
    |ss| == |ks| && forall k :: 0 <= k < |ss| ==> ss[k].Filled? && KindOf(ss[k].arg) == ks[k]
  }

  /** The number of slots that find no word. */
  function Shortfall(kinds: nat, words: nat): nat {
    if words >= kinds then 0 else kinds - words
  }

  /** The loop over the slots after the command word. Once the words run
      out every remaining slot reports a missing token, one each. */
  function ScanArgs(cmdt: CommandType, kinds: seq<CmdArgType>, words: seq<string>, prev: Slot): (r: (seq<Slot>, seq<LineError>))
    ensures |r.0| == |kinds|
    ensures r.1 == [] && Convertible(kinds) ==> FilledAs(r.0, kinds)
    decreases |kinds|
  {
    if kinds == [] then ([], [])
    else
      var h := if words == [] then (Unset, [MissingToken]) else ScanArg(cmdt, kinds[0], words[0], prev);
      var t := ScanArgs(cmdt, kinds[1..], if words == [] then [] else words[1..], h.0);
      FilledAsCons(h.0, t.0, kinds);
      ([h.0] + t.0, h.1 + t.1)
  }

  /** One step of the slot loop with a word present. */
  lemma ScanArgsStep(cmdt: CommandType, kinds: seq<CmdArgType>, words: seq<string>, prev: Slot)
    requires kinds != [] && words != []
    ensures var h := ScanArg(cmdt, kinds[0], words[0], prev);
            var t := ScanArgs(cmdt, kinds[1..], words[1..], h.0);
            ScanArgs(cmdt, kinds, words, prev) == ([h.0] + t.0, h.1 + t.1)
  {
  }

  /** A filled slot of the first kind in front of slots filled as the
      remaining kinds. */
  lemma FilledAsCons(s: Slot, ss: seq<Slot>, ks: seq<CmdArgType>)
    requires |ks| > 0
    ensures s.Filled? && KindOf(s.arg) == ks[0] && FilledAs(ss, ks[1..]) ==> FilledAs([s] + ss, ks)
    ensures Convertible(ks) ==> Convertible(ks[1..]) && ks[0] != ArgNone && ks[0] != ArgCmd
  {
    if s.Filled? && KindOf(s.arg) == ks[0] && FilledAs(ss, ks[1..]) {
      forall k | 0 <= k < |[s] + ss| ensures ([s] + ss)[k].Filled? && KindOf(([s] + ss)[k].arg) == ks[k] {
        if k > 0 { assert ([s] + ss)[k] == ss[k - 1] && ks[k] == ks[1..][k - 1]; }
      }
    }
    if Convertible(ks) {
      forall k | 0 <= k < |ks[1..]| ensures ks[1..][k] != ArgNone && ks[1..][k] != ArgCmd {
        assert ks[1..][k] == ks[k + 1];
      }
    }
  }

  /** The arguments held by slots that are all filled. */
  function Values(ss: seq<Slot>): (vs: seq<CmdArg>)
    requires forall k :: 0 <= k < |ss| ==> ss[k].Filled?
    ensures |vs| == |ss| && forall k :: 0 <= k < |ss| ==> vs[k] == ss[k].arg
  {
    if ss == [] then [] else [ss[0].arg] + Values(ss[1..])
  }

  /** The slots of a known command: slot 0 from the command word when its
      format gives it a kind, then one slot per following word. With no
      error every slot is filled with an argument of its kind. */
  function ScanCommand(cmdt: CommandType, word: string, rest: seq<string>): (r: (seq<Slot>, seq<LineError>))
    requires cmdt != Unknown && (cmdt == Arithmetic ==> OpOf(word).Some?)
    ensures |r.0| == |ArgKinds(cmdt)|
    ensures r.1 == [] ==> FilledAs(r.0, ArgKinds(cmdt))
  {
    var f := Format(cmdt);
    var kinds := SlotKinds(f);
    assert Convertible(kinds);
    var (slots, errs) := ScanArgs(cmdt, kinds, rest, Unset);
    if f.arg[0] == ArgNone then
      assert ArgKinds(cmdt) == kinds;
      (slots, errs)
    else
      OperationSlot(word);
      ([CommandSlot(f.arg[0], word)] + slots, errs)
  }

  /** The command word of an arithmetic command fills slot 0 with its
      operation, and no other slot follows. */
  lemma OperationSlot(word: string)
    requires OpOf(word).Some?
    ensures Format(Arithmetic).arg[0] == ArgCmd && SlotKinds(Format(Arithmetic)) == []
    ensures FilledAs([CommandSlot(ArgCmd, word)], ArgKinds(Arithmetic))
  {
    assert CommandSlot(ArgCmd, word).Filled?;
  }

  /** One line, already cut into words: no word is no command, otherwise the
      line is scanned as the kind its first word names. */
  function ScanWords(words: seq<string>): (r: LineResult)
    ensures r == NoCommand <==> words == []
    ensures r.UnknownCommand? <==> words != [] && words[0] !in Keys(CommandTable)
    ensures r.UnknownCommand? ==> r.word == words[0]
    ensures r.Rejected? ==> r.errors != []
    ensures r.Accepted? ==> r.instr.cmd == CmdType(words[0]) && Conforms(r.instr)
  {
    if words == [] then NoCommand else ScanClassified(CmdType(words[0]), words)
  }

  /** A line whose first word has been classified as `c`. An unknown word
      is reported and skipped; otherwise the line is rejected when any slot
      raised an error, and accepted with the slots' arguments when none did.
      A line too short for its format reports one missing token per absent
      word. */
  function ScanClassified(c: CommandType, words: seq<string>): (r: LineResult)
    requires words != [] && (c == Arithmetic ==> OpOf(words[0]).Some?)
    ensures r != NoCommand
    ensures r.UnknownCommand? <==> c == Unknown
    ensures r.UnknownCommand? ==> r.word == words[0]
    ensures r.Rejected? ==> r.errors != []
    ensures r.Accepted? ==> r.instr.cmd == c && Conforms(r.instr)
  {
    if c == Unknown then UnknownCommand(words[0])
    else
      var r := ScanCommand(c, words[0], words[1..]);
      if r.1 != [] then Rejected(r.1) else Accepted(Instruction(c, Values(r.0)))
  }

  /** One logical line: split at blanks and tabs, then scanned. A line of
      blanks and tabs only, and no other line, has no command. */
  function ScanLine(line: string): (r: LineResult)
    ensures r == NoCommand <==> IsGap(line)
  {
    NoWords(line);
    ScanWords(Words(line))
  }

  // A reference description of the lines the scanner accepts and of the
  // node it builds for them, stated per command kind.

  /** The word converts to a number without overflow. */
  predicate NumberOk(w: string) {
    StrToLL(w).consumed > 0 && !StrToLL(w).overflow
  }

  /** A known segment, not `pop constant`, and an in-range index. */
  predicate PushPopOk(c: CommandType, segment: string, index: string) {
    SegmentOf(segment).Some?
    && !(c == Pop && SegmentOf(segment) == Some(Constant))
    && NumberOk(index)
    && 0 <= StrToLL(index).value <= Limit(SegmentOf(segment).value)
  }

  /** The words, whose first is classified as `c`, form a line the scanner
      accepts. Words beyond the format's slots are ignored. */
  predicate WellFormed(c: CommandType, words: seq<string>)
    requires words != []
  {
    match c
    case Unknown => false
    case Arithmetic => OpOf(words[0]).Some?
    case Return => true
    case Label => |words| >= 2
    case Goto => |words| >= 2
    case IfGoto => |words| >= 2
    case Function => |words| >= 3 && NumberOk(words[2])
    case Call => |words| >= 3 && NumberOk(words[2])
    case Push => |words| >= 3 && PushPopOk(Push, words[1], words[2])
    case Pop => |words| >= 3 && PushPopOk(Pop, words[1], words[2])
  }

  /** The node an accepted line yields. */
  function Expected(c: CommandType, words: seq<string>): Instruction
    requires words != [] && WellFormed(c, words)
  {
    match c
    case Arithmetic => Instruction(c, [Op(OpOf(words[0]).value)])
    case Return => Instruction(c, [])
    case Label => Instruction(c, [Name(words[1])])
    case Goto => Instruction(c, [Name(words[1])])
    case IfGoto => Instruction(c, [Name(words[1])])
    case Function => Instruction(c, [Name(words[1]), Num(Narrow32(StrToLL(words[2]).value))])
    case Call => Instruction(c, [Name(words[1]), Num(Narrow32(StrToLL(words[2]).value))])
    case Push => Instruction(c, [Mem(SegmentOf(words[1]).value), Num(StrToLL(words[2]).value)])
    case Pop => Instruction(c, [Mem(SegmentOf(words[1]).value), Num(StrToLL(words[2]).value)])
  }

  /** The scanner accepts exactly the well-formed lines, and the node it
      builds is the expected one. */
  lemma ScanWordsMatchesReference(words: seq<string>)
    ensures ScanWords(words).Accepted? <==> words != [] && WellFormed(CmdType(words[0]), words)
    ensures words != [] && WellFormed(CmdType(words[0]), words) ==>
              ScanWords(words).instr == Expected(CmdType(words[0]), words)
  {
    if words != [] {
      ScanClassifiedMatchesReference(CmdType(words[0]), words);
    }
  }

  /** The same for a line whose first word is classified as `c`. */
  lemma ScanClassifiedMatchesReference(c: CommandType, words: seq<string>)
    requires words != [] && (c == Arithmetic ==> OpOf(words[0]).Some?)
    ensures ScanClassified(c, words).Accepted? <==> WellFormed(c, words)
    ensures WellFormed(c, words) ==> ScanClassified(c, words).instr == Expected(c, words)
  {
    match c
    case Unknown =>
    case Arithmetic => MatchesArithmetic(words);
    case Return => MatchesReturn(words);
    case Label => MatchesName(c, words);
    case Goto => MatchesName(c, words);
    case IfGoto => MatchesName(c, words);
    case Function => MatchesCount(c, words);
    case Call => MatchesCount(c, words);
    case Push => MatchesSegment(c, words);
    case Pop => MatchesSegment(c, words);
  }

  /** An arithmetic command is accepted with its operation, whatever
      follows it. */
  lemma MatchesArithmetic(words: seq<string>)
    requires words != [] && OpOf(words[0]).Some?
    ensures ScanClassified(Arithmetic, words) == Accepted(Instruction(Arithmetic, [Op(OpOf(words[0]).value)]))
  {
    ArithmeticCommand(words[0], words[1..]);
    ValuesOf([CommandSlot(ArgCmd, words[0])], [Op(OpOf(words[0]).value)]);
  }

  /** An arithmetic command has the one slot of its operation, whatever
      words follow. */
  lemma ArithmeticCommand(word: string, rest: seq<string>)
    requires OpOf(word).Some?
    ensures ScanCommand(Arithmetic, word, rest) == ([CommandSlot(ArgCmd, word)], [])
  {
    OperationSlot(word);
    assert ScanArgs(Arithmetic, [], rest, Unset) == ([], []);
    assert [CommandSlot(ArgCmd, word)] + [] == [CommandSlot(ArgCmd, word)];
  }

  /** `return` is accepted with no argument, whatever follows it. */
  lemma MatchesReturn(words: seq<string>)
    requires words != []
    ensures ScanClassified(Return, words) == Accepted(Instruction(Return, []))
  {
    var r := ScanCommand(Return, words[0], words[1..]);
    assert r == ([], []);
  }

  /** The reference agrees for `label`, `goto` and `if-goto`. */
  lemma MatchesName(c: CommandType, words: seq<string>)
    requires words != [] && (c == Label || c == Goto || c == IfGoto)
    ensures ScanClassified(c, words).Accepted? <==> WellFormed(c, words)
    ensures WellFormed(c, words) ==> ScanClassified(c, words).instr == Expected(c, words)
  {
    assert SlotKinds(Format(c)) == [ArgName];
    ScanNameCommand(c, words);
  }

  /** The reference agrees for `function` and `call`. */
  lemma MatchesCount(c: CommandType, words: seq<string>)
    requires words != [] && (c == Function || c == Call)
    ensures ScanClassified(c, words).Accepted? <==> WellFormed(c, words)
    ensures WellFormed(c, words) ==> ScanClassified(c, words).instr == Expected(c, words)
  {
    if |words| < 3 {
      MatchesShort(c, words);
    } else {
      assert SlotKinds(Format(c)) == [ArgName, ArgNum];
      assert words == [words[0], words[1], words[2]] + words[3..];
      ScanCountCommand(c, words[0], words[1], words[2], words[3..]);
    }
  }

  /** The reference agrees for `push` and `pop`. */
  lemma MatchesSegment(c: CommandType, words: seq<string>)
    requires words != [] && (c == Push || c == Pop)
    ensures ScanClassified(c, words).Accepted? <==> WellFormed(c, words)
    ensures WellFormed(c, words) ==> ScanClassified(c, words).instr == Expected(c, words)
  {
    if |words| < 3 {
      MatchesShort(c, words);
    } else {
      assert SlotKinds(Format(c)) == [ArgMemory, ArgNum];
      assert words == [words[0], words[1], words[2]] + words[3..];
      ScanSegmentCommand(c, words[0], words[1], words[2], words[3..]);
    }
  }

  /** A command with two slots after the command word and fewer than two
      words after it is rejected, and is not well formed. */
  lemma MatchesShort(c: CommandType, words: seq<string>)
    requires words != [] && |words| < 3 && (c == Function || c == Call || c == Push || c == Pop)
    ensures ScanClassified(c, words).Rejected? && !WellFormed(c, words)
  {
    assert Format(c).nargs == 3;
    ShortLineRejected(c, words);
  }

  /** Once the words run out every remaining slot reports a missing token,
      one each. */
  lemma {:induction false} MissingTokens(cmdt: CommandType, kinds: seq<CmdArgType>, words: seq<string>, prev: Slot)
    ensures multiset(ScanArgs(cmdt, kinds, words, prev).1)[MissingToken] == Shortfall(|kinds|, |words|)
    decreases |kinds|
  {
    if kinds != [] {
      var h := if words == [] then (Unset, [MissingToken]) else ScanArg(cmdt, kinds[0], words[0], prev);
      var rest := if words == [] then [] else words[1..];
      MissingTokens(cmdt, kinds[1..], rest, h.0);
      var t := ScanArgs(cmdt, kinds[1..], rest, h.0);
      assert ScanArgs(cmdt, kinds, words, prev).1 == h.1 + t.1;
      assert multiset(h.1 + t.1) == multiset(h.1) + multiset(t.1);
    }
  }

  /** A line with fewer words than its format has slots is rejected with
      one missing token per absent word. */
  lemma ShortLineRejected(c: CommandType, words: seq<string>)
    requires words != [] && c != Unknown && (c == Arithmetic ==> OpOf(words[0]).Some?)
    requires |words| < Format(c).nargs
    ensures ScanClassified(c, words).Rejected?
    ensures multiset(ScanClassified(c, words).errors)[MissingToken] == Format(c).nargs - |words|
  {
    ClassifiedPlain(c, words);
    MissingTokens(c, SlotKinds(Format(c)), words[1..], Unset);
  }

  /** Without a command slot, a line is rejected with the slot loop's
      errors, or accepted with the arguments of the loop's slots. */
  lemma ClassifiedPlain(c: CommandType, words: seq<string>)
    requires words != [] && c != Unknown && c != Arithmetic
    ensures var r := ScanArgs(c, SlotKinds(Format(c)), words[1..], Unset);
            r.1 != [] ==> ScanClassified(c, words) == Rejected(r.1)
    ensures var r := ScanArgs(c, SlotKinds(Format(c)), words[1..], Unset);
            r.1 == [] ==> forall k :: 0 <= k < |r.0| ==> r.0[k].Filled?
    ensures var r := ScanArgs(c, SlotKinds(Format(c)), words[1..], Unset);
            r.1 == [] ==> ScanClassified(c, words) == Accepted(Instruction(c, Values(r.0)))
  {
  }

  /** The rejecting half of `ClassifiedPlain`. */
  lemma ClassifiedPlainRejected(c: CommandType, words: seq<string>)
    requires words != [] && c != Unknown && c != Arithmetic
    ensures var r := ScanArgs(c, SlotKinds(Format(c)), words[1..], Unset);
            r.1 != [] ==> ScanClassified(c, words) == Rejected(r.1)
  {
    assert ScanCommand(c, words[0], words[1..]) == ScanArgs(c, SlotKinds(Format(c)), words[1..], Unset);
  }

  /** The slot loop over one name slot. */
  lemma ScanArgsName(cmdt: CommandType, rest: seq<string>)
    ensures ScanArgs(cmdt, [ArgName], rest, Unset) ==
              if rest == [] then ([Unset], [MissingToken]) else ([Filled(Name(rest[0]))], [])
  {
    assert [ArgName][1..] == [];
    if rest != [] {
      ScanArgsStep(cmdt, [ArgName], rest, Unset);
      var h := ScanArg(cmdt, ArgName, rest[0], Unset);
      assert h == (Filled(Name(rest[0])), []);
      assert ScanArgs(cmdt, [], rest[1..], h.0) == ([], []);
      assert [h.0] + [] == [h.0];
      assert h.1 + [] == [];
    } else {
      assert ScanArgs(cmdt, [], [], Unset) == ([], []);
      assert [Unset] + [] == [Unset];
      assert [MissingToken] + [] == [MissingToken];
    }
  }

  /** The values of filled slots, one at a time. */
  lemma ValuesOf(ss: seq<Slot>, vs: seq<CmdArg>)
    requires |ss| == |vs| && forall k :: 0 <= k < |ss| ==> ss[k] == Filled(vs[k])
    ensures Values(ss) == vs
  {
  }

  /** The slot loop over two slots with both words present. */
  lemma ScanArgsTwo(cmdt: CommandType, k1: CmdArgType, k2: CmdArgType, rest: seq<string>)
    requires |rest| >= 2
    ensures var a := ScanArg(cmdt, k1, rest[0], Unset);
            var b := ScanArg(cmdt, k2, rest[1], a.0);
            ScanArgs(cmdt, [k1, k2], rest, Unset) == ([a.0, b.0], a.1 + b.1)
  {
    var a := ScanArg(cmdt, k1, rest[0], Unset);
    var b := ScanArg(cmdt, k2, rest[1], a.0);
    ScanArgsStep(cmdt, [k1, k2], rest, Unset);
    assert [k1, k2][1..] == [k2];
    ScanArgsStep(cmdt, [k2], rest[1..], a.0);
    assert [k2][1..] == [];
    assert ScanArgs(cmdt, [], rest[2..], b.0) == ([], []);
    assert [b.0] + [] == [b.0] && b.1 + [] == b.1;
    assert [a.0] + [b.0] == [a.0, b.0];
  }

  /** Commands whose one slot after the command word is a name (`label`,
      `goto`, `if-goto`): any word is accepted as the name. */
  lemma ScanNameCommand(c: CommandType, words: seq<string>)
    requires words != [] && c != Unknown && c != Arithmetic && SlotKinds(Format(c)) == [ArgName]
    ensures ScanClassified(c, words) ==
              if |words| >= 2 then Accepted(Instruction(c, [Name(words[1])]))
              else Rejected([MissingToken])
  {
    ClassifiedPlain(c, words);
    ScanArgsName(c, words[1..]);
    if |words| >= 2 {
      ValuesOf([Filled(Name(words[1]))], [Name(words[1])]);
    }
  }

  /** A number slot read through the generic slot step. */
  lemma ScanArgNumber(cmdt: CommandType, word: string, prev: Slot)
    ensures ScanArg(cmdt, ArgNum, word, prev) == ScanNumber(cmdt, word, prev)
  {
  }

  /** A segment slot read through the generic slot step. */
  lemma ScanArgSegment(cmdt: CommandType, word: string, prev: Slot)
    ensures ScanArg(cmdt, ArgMemory, word, prev) == ScanSegment(cmdt, word)
  {
  }

  /** The slot loop over a name and a number with both words present. */
  lemma ScanArgsCount(cmdt: CommandType, name: string, count: string, extra: seq<string>)
    ensures ScanArgs(cmdt, [ArgName, ArgNum], [name, count] + extra, Unset) ==
              ([Filled(Name(name)), ScanNumber(cmdt, count, Filled(Name(name))).0], CountErrors(cmdt, name, count))
  {
    var rest := [name, count] + extra;
    ScanArgsTwo(cmdt, ArgName, ArgNum, rest);
    var a := ScanArg(cmdt, ArgName, name, Unset);
    assert a == (Filled(Name(name)), []);
    ScanArgNumber(cmdt, count, a.0);
    var num := ScanNumber(cmdt, count, a.0);
    assert a.1 + num.1 == num.1;
  }

  /** The slot loop over a segment and an index with both words present. */
  lemma ScanArgsSegment(cmdt: CommandType, segment: string, index: string, extra: seq<string>)
    ensures var seg := ScanSegment(cmdt, segment);
            ScanArgs(cmdt, [ArgMemory, ArgNum], [segment, index] + extra, Unset) ==
              ([seg.0, ScanNumber(cmdt, index, seg.0).0], SegmentErrors(cmdt, segment, index))
  {
    var rest := [segment, index] + extra;
    ScanArgsTwo(cmdt, ArgMemory, ArgNum, rest);
    ScanArgSegment(cmdt, segment, Unset);
    ScanArgNumber(cmdt, index, ScanSegment(cmdt, segment).0);
  }

  /** Commands whose slots are a name and a number (`function`, `call`):
      the count must convert without overflow, is not range-checked, and
      is narrowed to 32 bits. */
  lemma ScanCountCommand(c: CommandType, cmd: string, name: string, count: string, extra: seq<string>)
    requires c != Unknown && c != Arithmetic && c != Push && c != Pop
    requires SlotKinds(Format(c)) == [ArgName, ArgNum]
    ensures ScanClassified(c, [cmd, name, count] + extra) ==
              if NumberOk(count) then Accepted(Instruction(c, [Name(name), Num(Narrow32(StrToLL(count).value))]))
              else Rejected(CountErrors(c, name, count))
  {
    var words := [cmd, name, count] + extra;
    assert words[1..] == [name, count] + extra;
    ClassifiedPlain(c, words);
    ScanArgsCount(c, name, count, extra);
    CountErrorsEmpty(c, name, count);
    ValuesTwo(Name(name), Num(Narrow32(StrToLL(count).value)));
  }

  /** The diagnostics of a count word after a name. */
  function CountErrors(c: CommandType, name: string, count: string): seq<LineError> {
    ScanNumber(c, count, Filled(Name(name))).1
  }

  /** A count raises no diagnostic exactly when it converts: only a push or
      pop index is range-checked. */
  lemma CountErrorsEmpty(c: CommandType, name: string, count: string)
    requires c != Push && c != Pop
    ensures CountErrors(c, name, count) == [] <==> NumberOk(count)
  {
  }

  /** Commands whose slots are a segment and an index (`push`, `pop`): a
      known segment, not `pop constant`, and an index that converts and
      lies within the segment's range. The index is stored as read. */
  lemma ScanSegmentCommand(c: CommandType, cmd: string, segment: string, index: string, extra: seq<string>)
    requires (c == Push || c == Pop) && SlotKinds(Format(c)) == [ArgMemory, ArgNum]
    ensures ScanClassified(c, [cmd, segment, index] + extra) ==
              if PushPopOk(c, segment, index)
              then Accepted(Instruction(c, [Mem(SegmentOf(segment).value), Num(StrToLL(index).value)]))
              else Rejected(SegmentErrors(c, segment, index))
  {
    var words := [cmd, segment, index] + extra;
    assert words[1..] == [segment, index] + extra;
    ClassifiedPlain(c, words);
    ScanArgsSegment(c, segment, index, extra);
    SegmentErrorsEmpty(c, segment, index);
    if PushPopOk(c, segment, index) {
      SegmentSlots(c, segment, index);
      ValuesTwo(Mem(SegmentOf(segment).value), Num(StrToLL(index).value));
    }
  }

  /** The diagnostics of a segment word followed by an index word. */
  function SegmentErrors(c: CommandType, segment: string, index: string): seq<LineError> {
    ScanSegment(c, segment).1 + ScanNumber(c, index, ScanSegment(c, segment).0).1
  }

  /** A push or pop raises no diagnostic exactly when its segment and index
      obey the segment rules. */
  lemma SegmentErrorsEmpty(c: CommandType, segment: string, index: string)
    requires c == Push || c == Pop
    ensures SegmentErrors(c, segment, index) == [] <==> PushPopOk(c, segment, index)
  {
  }

  /** With no diagnostic the slots hold the segment and the index as read:
      an in-range index survives the narrowing to 32 bits. */
  lemma SegmentSlots(c: CommandType, segment: string, index: string)
    requires PushPopOk(c, segment, index)
    ensures ScanSegment(c, segment).0 == Filled(Mem(SegmentOf(segment).value))
    ensures ScanNumber(c, index, ScanSegment(c, segment).0).0 == Filled(Num(StrToLL(index).value))
  {
    NarrowFits(StrToLL(index).value);
  }

  /** The values of two filled slots. */
  lemma ValuesTwo(a: CmdArg, b: CmdArg)
    ensures Values([Filled(a), Filled(b)]) == [a, b]
  {
    ValuesOf([Filled(a), Filled(b)], [a, b]);
  }

  // Consequences for whole lines.

  /** A line with a first word is scanned as the kind that word names. */
  lemma ScanWordsFirst(words: seq<string>)
    requires words != []
    ensures CmdType(words[0]) == Arithmetic ==> OpOf(words[0]).Some?
    ensures ScanWords(words) == ScanClassified(CmdType(words[0]), words)
  {
  }

  /** Every node the scanner builds obeys the segment rules: push and pop
      name a known segment, pop never names `constant`, and the index lies
      within the segment's range. */
  lemma AcceptedIsValid(words: seq<string>)
    ensures ScanWords(words).Accepted? ==> Valid(ScanWords(words).instr)
  {
    if words != [] {
      ScanWordsFirst(words);
      ClassifiedValid(CmdType(words[0]), words);
    }
  }

  /** The same for a line whose first word is classified as `c`. */
  lemma ClassifiedValid(c: CommandType, words: seq<string>)
    requires words != [] && (c == Arithmetic ==> OpOf(words[0]).Some?)
    ensures ScanClassified(c, words).Accepted? ==> Valid(ScanClassified(c, words).instr)
  {
    if ScanClassified(c, words).Accepted? && (c == Push || c == Pop) {
      ScanClassifiedMatchesReference(c, words);
      assert |words| >= 3 && PushPopOk(c, words[1], words[2]);
    }
  }

  /** Only as many words as the format has slots are read: words after
      them change nothing. */
  lemma ExtraWordsIgnored(words: seq<string>, extra: seq<string>)
    requires words != [] && |words| >= Format(CmdType(words[0])).nargs
    ensures ScanWords(words + extra) == ScanWords(words)
  {
    assert (words + extra)[0] == words[0];
    ScanWordsFirst(words);
    ScanWordsFirst(words + extra);
    ClassifiedExtra(CmdType(words[0]), words, extra);
  }

  /** The same for a line whose first word is classified as `c`. */
  lemma ClassifiedExtra(c: CommandType, words: seq<string>, extra: seq<string>)
    requires words != [] && (c == Arithmetic ==> OpOf(words[0]).Some?)
    requires |words| >= Format(c).nargs
    ensures ScanClassified(c, words + extra) == ScanClassified(c, words)
  {
    assert (words + extra)[0] == words[0];
    if c != Unknown {
      assert (words + extra)[1..] == words[1..] + extra;
      ScanArgsExtra(c, SlotKinds(Format(c)), words[1..], extra, Unset);
      assert ScanCommand(c, (words + extra)[0], (words + extra)[1..]) == ScanCommand(c, words[0], words[1..]);
    }
  }

  /** The slot loop with a word for every slot does not look past them. */
  lemma {:induction false} ScanArgsExtra(cmdt: CommandType, kinds: seq<CmdArgType>, words: seq<string>, extra: seq<string>, prev: Slot)
    requires |words| >= |kinds|
    ensures ScanArgs(cmdt, kinds, words + extra, prev) == ScanArgs(cmdt, kinds, words, prev)
    decreases |kinds|
  {
    if kinds != [] {
      assert (words + extra)[0] == words[0];
      assert (words + extra)[1..] == words[1..] + extra;
      ScanArgsStep(cmdt, kinds, words + extra, prev);
      ScanArgsStep(cmdt, kinds, words, prev);
      ScanArgsExtra(cmdt, kinds[1..], words[1..], extra, ScanArg(cmdt, kinds[0], words[0], prev).0);
    }
  }

  /** `pop constant` is rejected, whatever follows it. */
  lemma PopConstantRejected(cmd: string, rest: seq<string>)
    requires CmdType(cmd) == Pop
    ensures ScanWords([cmd, SegmentName(Constant)] + rest).Rejected?
    ensures PopConstant in ScanWords([cmd, SegmentName(Constant)] + rest).errors
  {
    var words := [cmd, SegmentName(Constant)] + rest;
    assert words[0] == cmd && words[1] == SegmentName(Constant);
    ScanWordsFirst(words);
    SegmentRoundTrip(Constant, SegmentName(Constant));
    ClassifiedPopConstant(words);
  }

  /** The same once the command word is classified: a pop whose segment
      word names `constant`. */
  lemma ClassifiedPopConstant(words: seq<string>)
    requires |words| >= 2 && SegmentOf(words[1]) == Some(Constant)
    ensures ScanClassified(Pop, words).Rejected?
    ensures PopConstant in ScanClassified(Pop, words).errors
  {
    ClassifiedPlainRejected(Pop, words);
    assert SlotKinds(Format(Pop)) == [ArgMemory, ArgNum];
    ScanArgsPopConstant(words[1..]);
  }

  /** The slot loop of a pop reports the `constant` segment. */
  lemma ScanArgsPopConstant(rest: seq<string>)
    requires rest != [] && SegmentOf(rest[0]) == Some(Constant)
    ensures PopConstant in ScanArgs(Pop, [ArgMemory, ArgNum], rest, Unset).1
  {
    ScanArgsStep(Pop, [ArgMemory, ArgNum], rest, Unset);
    ScanArgSegment(Pop, rest[0], Unset);
    assert PopConstant in ScanSegment(Pop, rest[0]).1;
  }

  /** A decimal index, possibly followed by characters that are not
      digits, as a push or pop sees it: accepted exactly up to the
      segment's limit, and read as its value. */
  lemma IndexWord(c: CommandType, m: Memory, n: nat, tail: string)
    requires c == Push || c == Pop
    requires tail == [] || !IsDigit(tail[0])
    ensures PushPopOk(c, SegmentName(m), Decimal(n) + tail) <==> n <= Limit(m) && !(c == Pop && m == Constant)
    ensures SegmentOf(SegmentName(m)) == Some(m)
    ensures n <= LLONG_MAX ==> StrToLL(Decimal(n) + tail).value == n
  {
    SegmentRoundTrip(m, SegmentName(m));
    CountWord(n, tail);
    assert Limit(m) <= LLONG_MAX;
  }

  /** `push`/`pop` with a segment name and a decimal index: the line is
      accepted exactly when the index is within the segment's range (and
      the line is not `pop constant`), and the node holds the segment and
      the index. Trailing characters after the digits are not checked. */
  lemma SegmentIndexLine(cmd: string, m: Memory, n: nat, tail: string, extra: seq<string>)
    requires CmdType(cmd) == Push || CmdType(cmd) == Pop
    requires tail == [] || !IsDigit(tail[0])
    ensures var r := ScanWords([cmd, SegmentName(m), Decimal(n) + tail] + extra);
            r.Accepted? <==> n <= Limit(m) && !(CmdType(cmd) == Pop && m == Constant)
    ensures var r := ScanWords([cmd, SegmentName(m), Decimal(n) + tail] + extra);
            r.Accepted? ==> r.instr == Instruction(CmdType(cmd), [Mem(m), Num(n)])
  {
    var words := [cmd, SegmentName(m), Decimal(n) + tail] + extra;
    assert words[0] == cmd;
    ScanWordsFirst(words);
    ClassifiedIndexLine(CmdType(cmd), cmd, m, n, tail, extra);
  }

  /** The same once the command word is classified as `c`. */
  lemma ClassifiedIndexLine(c: CommandType, cmd: string, m: Memory, n: nat, tail: string, extra: seq<string>)
    requires c == Push || c == Pop
    requires tail == [] || !IsDigit(tail[0])
    ensures var r := ScanClassified(c, [cmd, SegmentName(m), Decimal(n) + tail] + extra);
            (r.Accepted? <==> n <= Limit(m) && !(c == Pop && m == Constant))
            && (r.Accepted? ==> r.instr == Instruction(c, [Mem(m), Num(n)]))
  {
    assert SlotKinds(Format(c)) == [ArgMemory, ArgNum];
    ScanSegmentCommand(c, cmd, SegmentName(m), Decimal(n) + tail, extra);
    IndexWord(c, m, n, tail);
  }

  /** A negative index is rejected. */
  lemma NegativeIndexRejected(cmd: string, m: Memory, n: nat, tail: string, extra: seq<string>)
    requires CmdType(cmd) == Push || CmdType(cmd) == Pop
    requires n > 0 && (tail == [] || !IsDigit(tail[0]))
    ensures ScanWords([cmd, SegmentName(m), "-" + Decimal(n) + tail] + extra).Rejected?
  {
    var words := [cmd, SegmentName(m), "-" + Decimal(n) + tail] + extra;
    assert words[0] == cmd;
    ScanWordsFirst(words);
    ClassifiedNegativeIndex(CmdType(cmd), cmd, m, n, tail, extra);
  }

  /** The same once the command word is classified as `c`. */
  lemma ClassifiedNegativeIndex(c: CommandType, cmd: string, m: Memory, n: nat, tail: string, extra: seq<string>)
    requires c == Push || c == Pop
    requires n > 0 && (tail == [] || !IsDigit(tail[0]))
    ensures ScanClassified(c, [cmd, SegmentName(m), "-" + Decimal(n) + tail] + extra).Rejected?
  {
    var index := "-" + Decimal(n) + tail;
    assert SlotKinds(Format(c)) == [ArgMemory, ArgNum];
    ScanSegmentCommand(c, cmd, SegmentName(m), index, extra);
    StrToLLOfNegative(n, tail);
    assert StrToLL(index).value < 0;
  }

  /** `function`/`call` with a decimal count: accepted exactly when the
      count does not overflow, and the count is stored narrowed to 32 bits,
      so 4294967296 is stored as 0. */
  lemma CountLine(cmd: string, name: string, n: nat, tail: string, extra: seq<string>)
    requires CmdType(cmd) == Function || CmdType(cmd) == Call
    requires tail == [] || !IsDigit(tail[0])
    ensures var r := ScanWords([cmd, name, Decimal(n) + tail] + extra);
            r.Accepted? <==> n <= LLONG_MAX
    ensures var r := ScanWords([cmd, name, Decimal(n) + tail] + extra);
            r.Accepted? ==> r.instr == Instruction(CmdType(cmd), [Name(name), Num(Narrow32(n))])
  {
    var words := [cmd, name, Decimal(n) + tail] + extra;
    assert words[0] == cmd;
    ScanWordsFirst(words);
    ClassifiedCountLine(CmdType(cmd), cmd, name, n, tail, extra);
  }

  /** The same once the command word is classified as `c`. */
  lemma ClassifiedCountLine(c: CommandType, cmd: string, name: string, n: nat, tail: string, extra: seq<string>)
    requires c == Function || c == Call
    requires tail == [] || !IsDigit(tail[0])
    ensures var r := ScanClassified(c, [cmd, name, Decimal(n) + tail] + extra);
            (r.Accepted? <==> n <= LLONG_MAX)
            && (r.Accepted? ==> r.instr == Instruction(c, [Name(name), Num(Narrow32(n))]))
  {
    assert SlotKinds(Format(c)) == [ArgName, ArgNum];
    ScanCountCommand(c, cmd, name, Decimal(n) + tail, extra);
    CountWord(n, tail);
  }

  /** A decimal count reads back as itself exactly when it fits. */
  lemma CountWord(n: nat, tail: string)
    requires tail == [] || !IsDigit(tail[0])
    ensures NumberOk(Decimal(n) + tail) <==> n <= LLONG_MAX
    ensures n <= LLONG_MAX ==> StrToLL(Decimal(n) + tail).value == n
  {
    StrToLLOfDecimal(n, tail);
  }
}
