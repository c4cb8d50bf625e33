/**
 * The front end of the Noise Machine Language (`NoiseAssembler.parse` in
 * noise_machine_language.py): one instruction per line, `#` comments, an
 * optional `label:` prefix, an opcode matched case-insensitively and
 * operands separated by commas or whitespace.
 */
module NmlAssembler {
  import opened Wrappers
  import opened AssocList
  import opened PyText
  import opened SeqFacts

  /** `NoiseOpcode`, in declaration order. */
  datatype Opcode =
    | X | Y | Z | H | S | T
    | CNOT | CZ | SWAP
    | TOFFOLI
    | MEASURE
    | JUMP | CJUMP | CALL | RET | HALT
    | HARVEST | INJECT | SYNC

  /** `list(NoiseOpcode)`. */
  const Opcodes: seq<Opcode> :=
    [X, Y, Z, H, S, T, CNOT, CZ, SWAP, TOFFOLI, MEASURE, JUMP, CJUMP, CALL, RET, HALT, HARVEST, INJECT, SYNC]

  /** The enum value: the opcode's upper-case mnemonic. */
  function Name(o: Opcode): string
  {
    match o
    case X => "X" case Y => "Y" case Z => "Z" case H => "H" case S => "S" case T => "T"
    case CNOT => "CNOT" case CZ => "CZ" case SWAP => "SWAP"
    case TOFFOLI => "TOFFOLI"
    case MEASURE => "MEASURE"
    case JUMP => "JUMP" case CJUMP => "CJUMP" case CALL => "CALL" case RET => "RET" case HALT => "HALT"
    case HARVEST => "HARVEST" case INJECT => "INJECT" case SYNC => "SYNC"
  }

  /** `list(NoiseOpcode).index(o)`: the opcode's position in declaration order. */
  function Index(o: Opcode): (i: nat)
    ensures i < |Opcodes| && Opcodes[i] == o
  {
    match o
    case X => 0 case Y => 1 case Z => 2 case H => 3 case S => 4 case T => 5
    case CNOT => 6 case CZ => 7 case SWAP => 8
    case TOFFOLI => 9
    case MEASURE => 10
    case JUMP => 11 case CJUMP => 12 case CALL => 13 case RET => 14 case HALT => 15
    case HARVEST => 16 case INJECT => 17 case SYNC => 18
  }

  /** Different opcodes sit at different positions, so the position identifies the opcode. */
  lemma IndexInjective(o: Opcode, p: Opcode)
    requires Index(o) == Index(p)
    ensures o == p
  {
  }

  /** `NoiseOpcode(u)`: the opcode whose value is exactly u. */
  function Named(u: string): (r: Option<Opcode>)
    ensures r.Some? ==> Name(r.value) == u
    ensures forall o :: Name(o) == u ==> r == Some(o)
  {
    if u == "X" then Some(X) else if u == "Y" then Some(Y) else if u == "Z" then Some(Z)
    else if u == "H" then Some(H) else if u == "S" then Some(S) else if u == "T" then Some(T)
    else if u == "CNOT" then Some(CNOT) else if u == "CZ" then Some(CZ) else if u == "SWAP" then Some(SWAP)
    else if u == "TOFFOLI" then Some(TOFFOLI) else if u == "MEASURE" then Some(MEASURE)
    else if u == "JUMP" then Some(JUMP) else if u == "CJUMP" then Some(CJUMP) else if u == "CALL" then Some(CALL)
    else if u == "RET" then Some(RET) else if u == "HALT" then Some(HALT)
    else if u == "HARVEST" then Some(HARVEST) else if u == "INJECT" then Some(INJECT) else if u == "SYNC" then Some(SYNC)
    else None
  }

  /**
   * `NoiseOpcode(word.upper())`, None where Python raises ValueError: the
   * word names opcode o exactly when its upper-case form is o's mnemonic.
   */
  function Lookup(word: string): (r: Option<Opcode>)
    ensures r.Some? ==> UpperAscii(word) == Some(Name(r.value))
    ensures forall o :: UpperAscii(word) == Some(Name(o)) ==> r == Some(o)
  {
    match UpperAscii(word)
    case None => None
    case Some(u) => Named(u)
  }

  /** Every mnemonic is recognised in upper and in lower case. */
  lemma LookupMnemonic(o: Opcode)
    ensures Lookup(Name(o)) == Some(o)
    ensures Lookup(LowerAscii(Name(o))) == Some(o)
  {
    UpperOfLower(Name(o));
  }

  /** `NoiseInstruction`; the parser never sets `label`. */
  datatype Instruction = Instruction(opcode: Opcode, operands: seq<string>, labelName: Option<string>, lineNumber: nat)

  /** What one source line contributes: a label definition, an instruction, both or neither. */
  datatype LineParse = LineParse(labelName: Option<string>, instr: Option<(Opcode, seq<string>)>)

  /** The line up to its first `#`. */
  function Uncomment(line: string): (r: string)
    ensures '#' !in r && r <= line
    ensures '#' !in line ==> r == line
  {
    match Find(line, '#')
    case None => line
    case Some(i) => line[..i]
  }

  /**
   * `[p.strip() for p in parts if p.strip()]`: the non-empty fields, in
   * order. The fields hold no whitespace, so stripping leaves them alone.
   */
  function Operands(parts: seq<string>): (r: seq<string>)
    requires forall i :: 0 <= i < |parts| ==> NoFieldSep(parts[i])
    ensures forall i :: 0 <= i < |r| ==> |r[i]| > 0 && NoFieldSep(r[i])
    ensures Concat(r) == Concat(parts)
    ensures |r| <= |parts|
    ensures |parts| == 1 ==> r == if |parts[0]| > 0 then parts else []
    decreases |parts|
  {
    if |parts| == 0 then []
    else
      var rest := Operands(parts[1..]);
      var r := if |parts[0]| == 0 then rest else [parts[0]] + rest;
      OperandsStep(parts, rest, r);
      r
  }

  /** Keeping or dropping the first field keeps the filter's properties. */
  lemma OperandsStep(parts: seq<string>, rest: seq<string>, r: seq<string>)
    requires |parts| > 0
    requires forall i :: 0 <= i < |parts| ==> NoFieldSep(parts[i])
    requires forall i :: 0 <= i < |rest| ==> |rest[i]| > 0 && NoFieldSep(rest[i])
    requires Concat(rest) == Concat(parts[1..]) && |rest| <= |parts| - 1
    requires r == if |parts[0]| == 0 then rest else [parts[0]] + rest
    ensures forall i :: 0 <= i < |r| ==> |r[i]| > 0 && NoFieldSep(r[i])
    ensures Concat(r) == Concat(parts)
    ensures |r| <= |parts|
    ensures |parts| == 1 ==> r == if |parts[0]| > 0 then parts else []
  {
    ConsParts1(parts);
    if |parts[0]| > 0 {
      assert r[1..] == rest;
    }
  }

  /** Every non-empty field is kept as often as it occurs; no empty field is kept. */
  lemma {:induction false} OperandsCount(parts: seq<string>)
    requires forall i :: 0 <= i < |parts| ==> NoFieldSep(parts[i])
    ensures forall x :: multiset(Operands(parts))[x] == if |x| > 0 then multiset(parts)[x] else 0
    decreases |parts|
  {
    if |parts| > 0 {
      OperandsCount(parts[1..]);
      OperandsUnfold(parts);
      ConsParts1(parts);
    }
  }

  /** Filtering distributes over concatenation: the kept fields keep their order. */
  lemma {:induction false} OperandsAppend(a: seq<string>, b: seq<string>)
    requires forall i :: 0 <= i < |a| ==> NoFieldSep(a[i])
    requires forall i :: 0 <= i < |b| ==> NoFieldSep(b[i])
    ensures Operands(a + b) == Operands(a) + Operands(b)
    decreases |a|
  {
    if |a| > 0 {
      var head: seq<string> := if |a[0]| == 0 then [] else [a[0]];
      var rest := Operands(a[1..]);
      var right := Operands(b);
      assert Operands(a + b) == head + Operands(a[1..] + b) by {
        AppendParts(a, b);
        OperandsUnfold(a + b);
      }
      assert Operands(a) == head + rest by {
        OperandsUnfold(a);
      }
      OperandsAppend(a[1..], b);
      AppendAssoc(head, rest, right);
    } else {
      assert a + b == b;
    }
  }

  /** One step of the filter: the first field is kept exactly when it is non-empty. */
  lemma OperandsUnfold(parts: seq<string>)
    requires |parts| > 0
    requires forall i :: 0 <= i < |parts| ==> NoFieldSep(parts[i])
    ensures Operands(parts) == (if |parts[0]| == 0 then [] else [parts[0]]) + Operands(parts[1..])
  {
  }

  /** Fields that are non-empty except perhaps the last: only an empty last one is dropped. */
  lemma {:induction false} OperandsTail(t: seq<string>)
    requires forall i :: 0 <= i < |t| ==> NoFieldSep(t[i])
    requires forall i :: 0 <= i < |t| - 1 ==> |t[i]| > 0
    ensures Operands(t) == if |t| > 0 && |t[|t| - 1]| == 0 then t[..|t| - 1] else t
    decreases |t|
  {
    if |t| > 1 {
      var u := t[1..];
      assert forall i :: 0 <= i < |u| ==> u[i] == t[i + 1];
      OperandsTail(u);
      OperandsUnfold(t);
      ConsParts(t);
    }
  }

  /**
   * The opcode word and its operands, None for an unknown opcode: the
   * operands are the fields after the first, less an empty last one (left
   * by a trailing separator).
   */
  function ParseInstruction(text: string): (r: Option<(Opcode, seq<string>)>)
    ensures r.Some? ==> forall i :: 0 <= i < |r.value.1| ==> |r.value.1[i]| > 0 && NoFieldSep(r.value.1[i])
    ensures r.Some? ==> Concat(r.value.1) == Concat(Fields(text)[1..])
    ensures r.Some? <==> Lookup(Fields(text)[0]).Some?
    ensures r.Some? ==> Lookup(Fields(text)[0]) == Some(r.value.0)
    ensures r.Some? ==> r.value.1 == AfterOpcode(Fields(text))
  {
    var parts := Fields(text);
    match Lookup(parts[0])
    case None => None
    case Some(o) =>
      var ops := Operands(parts[1..]);
      FieldsOperands(parts, ops);
      Some((o, ops))
  }

  /** The fields after the first, less an empty last one left by a trailing separator. */
  function AfterOpcode(fs: seq<string>): seq<string>
    requires |fs| >= 1
  {
    if |fs| >= 2 && |fs[|fs| - 1]| == 0 then fs[1..|fs| - 1] else fs[1..]
  }

  lemma FieldsOperands(fs: seq<string>, ops: seq<string>)
    requires |fs| >= 1
    requires forall i :: 0 <= i < |fs| ==> NoFieldSep(fs[i])
    requires forall i :: 0 < i < |fs| - 1 ==> |fs[i]| > 0
    requires ops == Operands(fs[1..])
    ensures ops == AfterOpcode(fs)
  {
    var t := fs[1..];
    assert forall i :: 0 <= i < |t| ==> t[i] == fs[i + 1];
    OperandsTail(t);
    AfterOpcodeTail(fs, t);
  }

  lemma AfterOpcodeTail(fs: seq<string>, t: seq<string>)
    requires |fs| >= 1 && t == fs[1..]
    ensures AfterOpcode(fs) == if |t| > 0 && |t[|t| - 1]| == 0 then t[..|t| - 1] else t
  {
    if |fs| >= 2 {
      TailSlice(fs);
      assert t[|t| - 1] == fs[|fs| - 1];
    }
  }

  /**
   * One line of `parse`: comment removed and stripped; a blank line gives
   * nothing; text before the first colon, stripped, is a label; what is
   * left, if anything, is an instruction.
   */
  function ParseLine(line: string): (r: LineParse)
    ensures r.labelName.Some? ==> ':' !in r.labelName.value && '#' !in r.labelName.value
    ensures AllSpace(Uncomment(line)) ==> r == LineParse(None, None)
    ensures var l := Strip(Uncomment(line));
      |l| > 0 && ':' !in l ==> r == LineParse(None, ParseInstruction(l))
    ensures var l := Strip(Uncomment(line));
      forall i :: 0 <= i < |l| && l[i] == ':' && ':' !in l[..i] ==>
        r.labelName == Some(Strip(l[..i])) &&
        r.instr == (if |Strip(l[i + 1..])| == 0 then None else ParseInstruction(Strip(l[i + 1..])))
  {
    ParseCode(Uncomment(line))
  }

  /**
   * The part of a line before any comment: after stripping, text before
   * the first colon, stripped, is the label and what follows it, stripped,
   * the instruction; a line with no colon is all instruction.
   */
  function ParseCode(code: string): (r: LineParse)
    requires '#' !in code
    ensures r.labelName.Some? ==> ':' !in r.labelName.value && '#' !in r.labelName.value
    ensures AllSpace(code) ==> r == LineParse(None, None)
    ensures var l := Strip(code);
      |l| > 0 && ':' !in l ==> r == LineParse(None, ParseInstruction(l))
    ensures var l := Strip(code);
      forall i :: 0 <= i < |l| && l[i] == ':' && ':' !in l[..i] ==>
        r.labelName == Some(Strip(l[..i])) &&
        r.instr == (if |Strip(l[i + 1..])| == 0 then None else ParseInstruction(Strip(l[i + 1..])))
  {
    var l := Strip(code);
    if |l| == 0 then LineParse(None, None)
    else
      match Find(l, ':')
      case None => LineParse(None, ParseInstruction(l))
      case Some(i) =>
        var name := Strip(l[..i]);
        StripNotIn(code, '#');
        StripNotIn(l[..i], ':');
        StripNotIn(l[..i], '#');
        FirstColon(l, i);
        var rest := Strip(l[i + 1..]);
        LineParse(Some(name), if |rest| == 0 then None else ParseInstruction(rest))
  }

  /** The first colon is the only colon with none before it. */
  lemma FirstColon(l: string, i: nat)
    requires i < |l| && l[i] == ':' && ':' !in l[..i]
    ensures forall j :: 0 <= j < |l| && l[j] == ':' && ':' !in l[..j] ==> j == i
  {
  }

  /** Anything after a `#` is ignored. */
  lemma CommentIgnored(line: string, comment: string)
    requires '#' !in line
    ensures ParseLine(line + ['#'] + comment) == ParseLine(line)
  {
    var full := line + ['#'] + comment;
    assert full[|line|] == '#';
    assert full[..|line|] == line;
    assert Find(full, '#') == Some(|line|);
  }

  /** The assembler's state after some lines: the instructions and the label table. */
  datatype Program = Program(instructions: seq<Instruction>, labels: Assoc<string, nat>)

  /**
   * Feeding the parse of line number `lineNo` to the assembler: a label is
   * bound to the index the next instruction will get (rebinding keeps its
   * place in the table), then a recognised instruction is appended.
   */
  function Feed(p: Program, pl: LineParse, lineNo: nat): Program
  {
    var labels := if pl.labelName.Some? then Put<string, nat>(p.labels, pl.labelName.value, |p.instructions|) else p.labels;
    var instrs :=
      if pl.instr.Some? then p.instructions + [Instruction(pl.instr.value.0, pl.instr.value.1, None, lineNo)]
      else p.instructions;
    Program(instrs, labels)
  }

  /** Every instruction comes, in order, from the line its number names (counting from 1). */
  ghost predicate InstructionsFrom(instrs: seq<Instruction>, pls: seq<LineParse>)
  {
    (forall i :: 0 <= i < |instrs| ==>
      1 <= instrs[i].lineNumber <= |pls| && instrs[i].labelName.None? &&
      pls[instrs[i].lineNumber - 1].instr == Some((instrs[i].opcode, instrs[i].operands))) &&
    (forall i, j :: 0 <= i < j < |instrs| ==> instrs[i].lineNumber < instrs[j].lineNumber)
  }

  /** No recognised instruction is dropped: the line with index j yields one numbered j + 1. */
  ghost predicate AllKept(instrs: seq<Instruction>, pls: seq<LineParse>)
  {
    forall j :: 0 <= j < |pls| && pls[j].instr.Some? ==>
      exists i :: 0 <= i < |instrs| && instrs[i].lineNumber == j + 1
  }

  /** Address a is that of the first instruction on line k or later (or the end of the program). */
  ghost predicate Resolves(instrs: seq<Instruction>, a: nat, k: nat)
  {
    a <= |instrs| &&
    (forall i :: 0 <= i < a ==> instrs[i].lineNumber < k) &&
    (forall i :: a <= i < |instrs| ==> instrs[i].lineNumber >= k)
  }

  /** The line with index j is the last one defining label l. */
  ghost predicate LastDefinition(pls: seq<LineParse>, l: string, j: nat)
  {
    j < |pls| && pls[j].labelName == Some(l) &&
    forall j' :: j < j' < |pls| ==> pls[j'].labelName != Some(l)
  }

  /**
   * The label table holds each defined label once, and binds it to the
   * address of the first instruction on or after its last definition.
   */
  ghost predicate LabelsFrom(labels: Assoc<string, nat>, instrs: seq<Instruction>, pls: seq<LineParse>)
  {
    DistinctKeys(labels) &&
    (forall j :: 0 <= j < |pls| && pls[j].labelName.Some? ==> Get(labels, pls[j].labelName.value).Some?) &&
    (forall l :: Get(labels, l).Some? ==>
      exists j: nat :: LastDefinition(pls, l, j) && Resolves(instrs, Get(labels, l).value, j + 1))
  }

  /** The assembler state after the given line parses, in order. */
  function FeedAll(pls: seq<LineParse>): (p: Program)
    ensures InstructionsFrom(p.instructions, pls)
    ensures AllKept(p.instructions, pls)
    ensures LabelsFrom(p.labels, p.instructions, pls)
    decreases |pls|
  {
    if |pls| == 0 then Program([], [])
    else
      var n := |pls| - 1;
      var prev := FeedAll(pls[..n]);
      assert pls[..n] + [pls[n]] == pls;
      FeedInstructions(prev, pls[..n], pls[n], pls);
      FeedKept(prev, pls[..n], pls[n], pls);
      FeedLabels(prev, pls[..n], pls[n], pls);
      Feed(prev, pls[n], n + 1)
  }

  lemma FeedInstructions(p: Program, pls: seq<LineParse>, pl: LineParse, all: seq<LineParse>)
    requires all == pls + [pl]
    requires InstructionsFrom(p.instructions, pls)
    ensures InstructionsFrom(Feed(p, pl, |pls| + 1).instructions, all)
  {
    assert forall j :: 0 <= j < |pls| ==> all[j] == pls[j];
  }

  lemma FeedKept(p: Program, pls: seq<LineParse>, pl: LineParse, all: seq<LineParse>)
    requires all == pls + [pl]
    requires InstructionsFrom(p.instructions, pls)
    requires AllKept(p.instructions, pls)
    ensures AllKept(Feed(p, pl, |pls| + 1).instructions, all)
  {
    var q := Feed(p, pl, |pls| + 1).instructions;
    assert forall i :: 0 <= i < |p.instructions| ==> q[i] == p.instructions[i];
    forall j | 0 <= j < |all| && all[j].instr.Some?
      ensures exists i :: 0 <= i < |q| && q[i].lineNumber == j + 1
    {
      if j == |pls| {
        assert q[|q| - 1].lineNumber == j + 1;
      } else {
        assert all[j] == pls[j];
        var i :| 0 <= i < |p.instructions| && p.instructions[i].lineNumber == j + 1;
        assert q[i].lineNumber == j + 1;
      }
    }
  }

  lemma FeedLabels(p: Program, pls: seq<LineParse>, pl: LineParse, all: seq<LineParse>)
    requires all == pls + [pl]
    requires InstructionsFrom(p.instructions, pls)
    requires LabelsFrom(p.labels, p.instructions, pls)
    ensures LabelsFrom(Feed(p, pl, |pls| + 1).labels, Feed(p, pl, |pls| + 1).instructions, all)
  {
    var n := |pls|;
    var q := Feed(p, pl, n + 1);
    var extra := q.instructions[|p.instructions|..];
    assert q.instructions == p.instructions + extra;
    assert forall i :: 0 <= i < |extra| ==> extra[i].lineNumber == n + 1;
    assert forall i :: 0 <= i < |p.instructions| ==> p.instructions[i].lineNumber <= n;
    forall l | Get(q.labels, l).Some?
      ensures exists j: nat :: LastDefinition(all, l, j) && Resolves(q.instructions, Get(q.labels, l).value, j + 1)
    {
      if pl.labelName == Some(l) {
        assert LastDefinition(all, l, n);
        ResolvesAtEnd(p.instructions, extra, n + 1);
      } else {
        assert Get(q.labels, l) == Get(p.labels, l);
        var j: nat :| LastDefinition(pls, l, j) && Resolves(p.instructions, Get(p.labels, l).value, j + 1);
        LastDefinitionKept(pls, pl, all, l, j);
        ResolvesExtend(p.instructions, extra, Get(p.labels, l).value, j + 1);
      }
    }
    forall j | 0 <= j < |all| && all[j].labelName.Some? ensures Get(q.labels, all[j].labelName.value).Some? {
      if j < n {
        assert all[j] == pls[j];
      }
    }
  }

  /** A definition no later line repeats stays the last one when a line defining another label follows. */
  lemma LastDefinitionKept(pls: seq<LineParse>, pl: LineParse, all: seq<LineParse>, l: string, j: nat)
    requires all == pls + [pl] && pl.labelName != Some(l)
    requires LastDefinition(pls, l, j)
    ensures LastDefinition(all, l, j)
  {
    assert forall j' :: j < j' < |pls| ==> all[j'] == pls[j'];
  }

  /** The address after every earlier line resolves a label defined at line k when later lines follow. */
  lemma ResolvesAtEnd(instrs: seq<Instruction>, extra: seq<Instruction>, k: nat)
    requires forall i :: 0 <= i < |instrs| ==> instrs[i].lineNumber < k
    requires forall i :: 0 <= i < |extra| ==> extra[i].lineNumber >= k
    ensures Resolves(instrs + extra, |instrs|, k)
  {
  }

  /** Appending instructions from line k on keeps every resolution at line k. */
  lemma ResolvesExtend(instrs: seq<Instruction>, extra: seq<Instruction>, a: nat, k: nat)
    requires Resolves(instrs, a, k)
    requires forall i :: 0 <= i < |extra| ==> extra[i].lineNumber >= k
    ensures Resolves(instrs + extra, a, k)
  {
  }

  /** `NoiseAssembler.parse`: the stripped source split into lines, each parsed and fed in order. */
  function Parse(source: string): (p: Program)
    ensures var pls := ParseLines(Split(Strip(source), '\n'));
      InstructionsFrom(p.instructions, pls) && AllKept(p.instructions, pls) && LabelsFrom(p.labels, p.instructions, pls)
  {
    FeedAll(ParseLines(Split(Strip(source), '\n')))
  }

  /** Each line parsed on its own. */
  function ParseLines(lines: seq<string>): (pls: seq<LineParse>)
    ensures |pls| == |lines|
    ensures forall j :: 0 <= j < |lines| ==> pls[j] == ParseLine(lines[j])
  {
    seq(|lines|, j requires 0 <= j < |lines| => ParseLine(lines[j]))
  }
}
