/** The static conversion tables of the lexer: command words, memory-segment
    words, arithmetic mnemonics, and the per-command argument shape. */
module Tables {
  import opened Wrappers

  /** Command kinds. `Unknown` is the sentinel the source calls NONE: it is
      what an unrecognised command word classifies to. */
  datatype CommandType = Unknown | Arithmetic | Push | Pop | Label | Goto | IfGoto | Function | Return | Call

  /** The eight memory segments of the VM. */
  datatype Memory = Argument | Local | Static | Constant | This | That | Pointer | Temp

  /** The nine arithmetic/logic operations. */
  datatype RType = Add | Sub | Neg | Eq | Gt | Lt | And | Or | Not

  /** What an argument slot of a command holds. `ArgNone` marks the slot taken
      by the command word itself; `ArgCmd` is the operation named by the
      command word of an arithmetic command. */
  datatype CmdArgType = ArgNone | ArgCmd | ArgMemory | ArgNum | ArgName

  /** Command word to command kind, in the order of the source table. */
  const CommandTable: seq<(string, CommandType)> := [
    ("push", Push), ("pop", Pop), ("label", Label), ("goto", Goto),
    ("if-goto", IfGoto), ("function", Function), ("return", Return), ("call", Call),
    ("add", Arithmetic), ("sub", Arithmetic), ("neg", Arithmetic), ("eq", Arithmetic),
    ("gt", Arithmetic), ("lt", Arithmetic), ("and", Arithmetic), ("or", Arithmetic),
    ("not", Arithmetic)
  ]

  /** Segment word to segment. */
  const MemoryTable: seq<(string, Memory)> := [
    ("argument", Argument), ("local", Local), ("static", Static), ("constant", Constant),
    ("this", This), ("that", That), ("pointer", Pointer), ("temp", Temp)
  ]

  /** Arithmetic mnemonic to operation. */
  const ArithmeticTable: seq<(string, RType)> := [
    ("add", Add), ("sub", Sub), ("neg", Neg), ("eq", Eq), ("gt", Gt),
    ("lt", Lt), ("and", And), ("or", Or), ("not", Not)
  ]

  /** The keys of a lookup table. */
  function Keys<T>(table: seq<(string, T)>): set<string> {
    set i | 0 <= i < |table| :: table[i].0
  }

  /** The table has an entry `(key, v)`. */
  predicate Entry<T(==)>(table: seq<(string, T)>, key: string, v: T) {
    exists i :: 0 <= i < |table| && table[i] == (key, v)
  }

  /** No key occurs twice in the table. */
  predicate DistinctKeys<T>(table: seq<(string, T)>) {
    forall i, j :: 0 <= i < j < |table| ==> table[i].0 != table[j].0
  }

  /** Scan that stops at the first entry whose key is `key`, as the segment
      and mnemonic lookups do with their `break`. It fails exactly when no
      entry has that key, and otherwise yields the value of the first such
      entry. */
  function FirstMatch<T>(table: seq<(string, T)>, key: string): (r: Option<T>)
    ensures r.None? <==> forall i :: 0 <= i < |table| ==> table[i].0 != key
    ensures r.Some? ==> exists j :: 0 <= j < |table| && table[j] == (key, r.value)
                                    && forall i :: 0 <= i < j ==> table[i].0 != key
  {
    if table == [] then None
    else if table[0].0 == key then Some(table[0].1)
    else FirstMatch(table[1..], key)
  }

  /** Scan over the whole table that keeps the value of the last entry whose
      key is `key`, starting from `acc`, as `cmdtype` does (its loop has no
      `break`). With no entry for `key` the result is `acc`; otherwise it is
      the value of the last such entry. */
  function LastMatch<T>(table: seq<(string, T)>, key: string, acc: T): (r: T)
    ensures (forall i :: 0 <= i < |table| ==> table[i].0 != key) ==> r == acc
    ensures (exists i :: 0 <= i < |table| && table[i].0 == key) ==>
              exists j :: 0 <= j < |table| && table[j] == (key, r)
                          && forall i :: j < i < |table| ==> table[i].0 != key
  {
    if table == [] then acc
    else LastMatch(table[1..], key, if table[0].0 == key then table[0].1 else acc)
  }

  /** Facts about the command table, read off entry by entry: no value is
      `Unknown`, the value is `Arithmetic` exactly from entry 8 on, and those
      entries carry the keys of the mnemonic table in its order. */
  lemma CommandTableLayout()
    ensures forall i :: 0 <= i < |CommandTable| ==> CommandTable[i].1 != Unknown
    ensures forall i :: 0 <= i < |CommandTable| ==> (CommandTable[i].1 == Arithmetic <==> 8 <= i)
    ensures |CommandTable| == |ArithmeticTable| + 8
    ensures forall i :: 8 <= i < |CommandTable| ==> CommandTable[i].0 == ArithmeticTable[i - 8].0
  {
  }

  /** `cmdtype`: exact-match classification of a command word. It is
      `Unknown` exactly for words that are not keys of the command table,
      `Arithmetic` exactly for the keys of the mnemonic table, and otherwise
      the value the table gives the word. */
  function CmdType(word: string): (r: CommandType)
    ensures r == Unknown <==> word !in Keys(CommandTable)
    ensures r == Arithmetic <==> word in Keys(ArithmeticTable)
    ensures r != Unknown ==> Entry(CommandTable, word, r)
  {
    CommandTableLayout();
    LastMatchFound(CommandTable, word, Unknown);
    ArithmeticExactlyMnemonics(word);
    LastMatch(CommandTable, word, Unknown)
  }

  /** When no entry maps to `acc`, the whole-table scan returns `acc` exactly
      for a missing key, and otherwise returns a value the table gives the key. */
  lemma LastMatchFound<T>(table: seq<(string, T)>, key: string, acc: T)
    requires forall i :: 0 <= i < |table| ==> table[i].1 != acc
    ensures LastMatch(table, key, acc) == acc <==> key !in Keys(table)
    ensures LastMatch(table, key, acc) != acc ==> Entry(table, key, LastMatch(table, key, acc))
  {
    if key in Keys(table) {
      var j :| 0 <= j < |table| && table[j] == (key, LastMatch(table, key, acc));
    }
  }

  /** The last command-table entry for a mnemonic lies in the arithmetic
      tail of the table, so its value is `Arithmetic`. */
  lemma MnemonicIsArithmetic(word: string)
    requires word in Keys(ArithmeticTable)
    ensures LastMatch(CommandTable, word, Unknown) == Arithmetic
  {
    CommandTableLayout();
    LastMatchInTail(CommandTable, ArithmeticTable, 8, word, Unknown, Arithmetic);
  }

  /** If the entries of `table` from `lo` on carry the keys of `tail` in
      order and all have value `v`, then every key of `tail` scans to `v`. */
  lemma LastMatchInTail<T, U>(table: seq<(string, T)>, tail: seq<(string, U)>, lo: nat, key: string, acc: T, v: T)
    requires |table| == lo + |tail|
    requires forall i :: lo <= i < |table| ==> table[i].0 == tail[i - lo].0 && table[i].1 == v
    requires key in Keys(tail)
    ensures LastMatch(table, key, acc) == v
  {
    var k :| 0 <= k < |tail| && tail[k].0 == key;
    assert table[k + lo].0 == key;
    LastMatchAtOrAfter(table, key, acc, k + lo);
  }

  /** A word whose command-table entry is `Arithmetic` is a mnemonic. */
  lemma ArithmeticIsMnemonic(word: string)
    requires LastMatch(CommandTable, word, Unknown) == Arithmetic
    ensures word in Keys(ArithmeticTable)
  {
    CommandTableLayout();
    var r := LastMatch(CommandTable, word, Unknown);
    assert exists i :: 0 <= i < |CommandTable| && CommandTable[i].0 == word;
    var j :| 0 <= j < |CommandTable| && CommandTable[j] == (word, r);
    assert ArithmeticTable[j - 8].0 == word;
  }

  /** The command table maps a word to `Arithmetic` exactly when the word is a mnemonic. */
  lemma ArithmeticExactlyMnemonics(word: string)
    ensures LastMatch(CommandTable, word, Unknown) == Arithmetic <==> word in Keys(ArithmeticTable)
  {
    if word in Keys(ArithmeticTable) {
      MnemonicIsArithmetic(word);
    }
    if LastMatch(CommandTable, word, Unknown) == Arithmetic {
      ArithmeticIsMnemonic(word);
    }
  }

  /** If entry `k` has key `key`, the whole-table scan returns the value of
      an entry at or after `k`. */
  lemma LastMatchAtOrAfter<T>(table: seq<(string, T)>, key: string, acc: T, k: int)
    requires 0 <= k < |table| && table[k].0 == key
    ensures exists j :: k <= j < |table| && table[j] == (key, LastMatch(table, key, acc))
  {
    var j :| 0 <= j < |table| && table[j] == (key, LastMatch(table, key, acc))
             && forall i :: j < i < |table| ==> table[i].0 != key;
  }

  /** Segment lookup: it succeeds exactly for the keys of the segment table. */
  function SegmentOf(word: string): (r: Option<Memory>)
    ensures r.Some? <==> word in Keys(MemoryTable)
    ensures r.Some? ==> Entry(MemoryTable, word, r.value)
  {
    FirstMatch(MemoryTable, word)
  }

  /** Mnemonic lookup: it succeeds exactly for the keys of the mnemonic table. */
  function OpOf(word: string): (r: Option<RType>)
    ensures r.Some? <==> word in Keys(ArithmeticTable)
    ensures r.Some? ==> Entry(ArithmeticTable, word, r.value)
  {
    FirstMatch(ArithmeticTable, word)
  }

  /** The word that names a segment. */
  function SegmentName(m: Memory): string {
    match m
    case Argument => "argument"
    case Local => "local"
    case Static => "static"
    case Constant => "constant"
    case This => "this"
    case That => "that"
    case Pointer => "pointer"
    case Temp => "temp"
  }

  /** The mnemonic that names an operation. */
  function Mnemonic(op: RType): string {
    match op
    case Add => "add"
    case Sub => "sub"
    case Neg => "neg"
    case Eq => "eq"
    case Gt => "gt"
    case Lt => "lt"
    case And => "and"
    case Or => "or"
    case Not => "not"
  }

  /** The segment table has distinct keys, and each key is the name of the
      segment it maps to. */
  lemma MemoryTableLayout()
    ensures DistinctKeys(MemoryTable)
    ensures forall i :: 0 <= i < |MemoryTable| ==> MemoryTable[i].0 == SegmentName(MemoryTable[i].1)
  {
  }

  /** The mnemonic table has distinct keys, and each key is the mnemonic of
      the operation it maps to. */
  lemma ArithmeticTableLayout()
    ensures DistinctKeys(ArithmeticTable)
    ensures forall i :: 0 <= i < |ArithmeticTable| ==> ArithmeticTable[i].0 == Mnemonic(ArithmeticTable[i].1)
  {
  }

  /** Looking up the name of a segment gives the segment back, and a word
      that looks up to a segment is that segment's name. */
  lemma SegmentRoundTrip(m: Memory, word: string)
    ensures SegmentOf(SegmentName(m)) == Some(m)
    ensures SegmentOf(word) == Some(m) ==> word == SegmentName(m)
  {
    MemoryTableLayout();
    FirstMatchOfKey(MemoryTable, SegmentIndex(m));
    if SegmentOf(word) == Some(m) {
      EntryNamed(MemoryTable, SegmentName, word, m);
    }
  }

  /** The position of a segment in the segment table. */
  function SegmentIndex(m: Memory): (i: nat)
    ensures i < |MemoryTable| && MemoryTable[i] == (SegmentName(m), m)
  {
    match m
    case Argument => 0 case Local => 1 case Static => 2 case Constant => 3
    case This => 4 case That => 5 case Pointer => 6 case Temp => 7
  }

  /** Looking up the mnemonic of an operation gives the operation back, and
      a word that looks up to an operation is that operation's mnemonic. */
  lemma MnemonicRoundTrip(op: RType, word: string)
    ensures OpOf(Mnemonic(op)) == Some(op)
    ensures OpOf(word) == Some(op) ==> word == Mnemonic(op)
  {
    ArithmeticTableLayout();
    FirstMatchOfKey(ArithmeticTable, MnemonicIndex(op));
    if OpOf(word) == Some(op) {
      EntryNamed(ArithmeticTable, Mnemonic, word, op);
    }
  }

  /** The position of an operation in the mnemonic table. */
  function MnemonicIndex(op: RType): (i: nat)
    ensures i < |ArithmeticTable| && ArithmeticTable[i] == (Mnemonic(op), op)
  {
    match op
    case Add => 0 case Sub => 1 case Neg => 2 case Eq => 3 case Gt => 4
    case Lt => 5 case And => 6 case Or => 7 case Not => 8
  }

  /** In a table whose every key is the name of its value, an entry's key
      is the name of its value. */
  lemma EntryNamed<T>(table: seq<(string, T)>, name: T -> string, key: string, v: T)
    requires forall i :: 0 <= i < |table| ==> table[i].0 == name(table[i].1)
    requires Entry(table, key, v)
    ensures key == name(v)
  {
    var j :| 0 <= j < |table| && table[j] == (key, v);
    assert table[j].0 == name(table[j].1);
  }

  /** With distinct keys, looking up the key of an entry finds that entry. */
  lemma FirstMatchOfKey<T>(table: seq<(string, T)>, i: int)
    requires DistinctKeys(table) && 0 <= i < |table|
    ensures FirstMatch(table, table[i].0) == Some(table[i].1)
  {
    var r := FirstMatch(table, table[i].0);
    var j :| 0 <= j < |table| && table[j] == (table[i].0, r.value)
             && forall k :: 0 <= k < j ==> table[k].0 != table[i].0;
    assert j == i;
  }

  /** Every word that classifies as arithmetic resolves to an operation, and
      distinct mnemonics resolve to distinct operations. */
  lemma ArithmeticOpsDistinct(w1: string, w2: string)
    requires CmdType(w1) == Arithmetic && CmdType(w2) == Arithmetic
    ensures OpOf(w1).Some? && OpOf(w2).Some?
    ensures OpOf(w1) == OpOf(w2) ==> w1 == w2
  {
    MnemonicRoundTrip(OpOf(w1).value, w1);
    MnemonicRoundTrip(OpOf(w2).value, w2);
  }

  /** The argument shape of a command: the slot count and the kind of each
      slot. Slot 0 belongs to the command word. */
  datatype CommandFormat = CommandFormat(nargs: nat, arg: seq<CmdArgType>)

  /** `cmd_fmt`. The `{ 0 }` entries of NONE and RETURN are read as zero slots
      with every kind zero-filled to `ArgNone`. */
  function Format(c: CommandType): (f: CommandFormat)
    ensures |f.arg| == 3 && f.nargs <= |f.arg|
    ensures f.arg[0] == ArgNone <==> c != Arithmetic
    ensures c == Arithmetic ==> f.nargs == 1 && f.arg[0] == ArgCmd
    ensures forall k :: 1 <= k < f.nargs ==> f.arg[k] != ArgNone && f.arg[k] != ArgCmd
  {
    match c
    case Unknown => CommandFormat(0, [ArgNone, ArgNone, ArgNone])
    case Arithmetic => CommandFormat(1, [ArgCmd, ArgNone, ArgNone])
    case Push => CommandFormat(3, [ArgNone, ArgMemory, ArgNum])
    case Pop => CommandFormat(3, [ArgNone, ArgMemory, ArgNum])
    case Label => CommandFormat(2, [ArgNone, ArgName, ArgNone])
    case Goto => CommandFormat(2, [ArgNone, ArgName, ArgNone])
    case IfGoto => CommandFormat(2, [ArgNone, ArgName, ArgNone])
    case Function => CommandFormat(3, [ArgNone, ArgName, ArgNum])
    case Call => CommandFormat(3, [ArgNone, ArgName, ArgNum])
    case Return => CommandFormat(0, [ArgNone, ArgNone, ArgNone])
  }

  /** The kinds of the slots after slot 0, the ones filled from the words
      that follow the command word. */
  function SlotKinds(f: CommandFormat): (ks: seq<CmdArgType>)
    requires f.nargs <= |f.arg|
    ensures |ks| == if f.nargs <= 1 then 0 else f.nargs - 1
    ensures forall k :: 0 <= k < |ks| ==> ks[k] == f.arg[k + 1]
  {
    if f.nargs <= 1 then [] else f.arg[1..f.nargs]
  }
}
