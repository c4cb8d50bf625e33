/**
 * `NoiseAssembler.assemble_to_bytecode`: the magic `NML1`, the instruction
 * count (4 bytes, little-endian), the label table (a 2-byte count, then per
 * label a length byte, its UTF-8 bytes and a 4-byte address) and the code
 * (per instruction the opcode's position, the operand count and each
 * operand as a length byte and UTF-8 bytes). Python raises when a count
 * does not fit its field or a length exceeds one byte; the first such
 * failure in output order is the error. A disassembler reads the format
 * back.
 */
module NmlBytecode {
  import opened Wrappers
  import opened Arith
  import opened Bytes
  import opened Utf8
  import opened AssocList
  import opened NmlAssembler

  /** The exception `assemble_to_bytecode` raises, with what caused it. */
  datatype AsmError =
    | InstructionCountTooLarge(count: nat)
    | LabelCountTooLarge(count: nat)
    | LabelTooLong(name: string)
    | AddressTooLarge(name: string, address: nat)
    | TooManyOperands(position: nat)
    | OperandTooLong(operand: string)

  /** `b'NML1'`. */
  const Magic: seq<byte> := [0x4E, 0x4D, 0x4C, 0x31]

  /** A string whose UTF-8 form fits a one-byte length prefix. */
  predicate ShortText(s: string)
  {
    |Encode(s)| <= 255
  }

  /** A length byte followed by the UTF-8 bytes. */
  function Field(s: string): (r: seq<byte>)
    requires ShortText(s)
    ensures |r| == 1 + |Encode(s)| && r[0] == |Encode(s)|
  {
    [|Encode(s)|] + Encode(s)
  }

  predicate LabelFits(entry: (string, nat))
  {
    ShortText(entry.0) && entry.1 < TwoTo32
  }

  predicate AllLabelsFit(ls: seq<(string, nat)>)
  {
    forall i :: 0 <= i < |ls| ==> LabelFits(ls[i])
  }

  predicate AllShort(ops: seq<string>)
  {
    forall i :: 0 <= i < |ops| ==> ShortText(ops[i])
  }

  function LabelEntry(entry: (string, nat)): (r: Result<seq<byte>, AsmError>)
    ensures r.Ok? <==> LabelFits(entry)
    ensures r.Err? ==> r.error == (if !ShortText(entry.0) then LabelTooLong(entry.0) else AddressTooLarge(entry.0, entry.1))
  {
    if !ShortText(entry.0) then Err(LabelTooLong(entry.0))
    else if entry.1 >= TwoTo32 then Err(AddressTooLarge(entry.0, entry.1))
    else Ok(Field(entry.0) + ToLE(entry.1, 4))
  }

  /** The label entries in table order; the first entry that does not fit is the error. */
  function LabelTable(ls: seq<(string, nat)>): (r: Result<seq<byte>, AsmError>)
    ensures r.Ok? <==> AllLabelsFit(ls)
    ensures r.Err? ==> exists i :: 0 <= i < |ls| && LabelEntry(ls[i]) == Err(r.error) && AllLabelsFit(ls[..i])
    decreases |ls|
  {
    if |ls| == 0 then Ok([])
    else
      match LabelEntry(ls[0])
      case Err(err) =>
        assert AllLabelsFit(ls[..0]);
        Err(err)
      case Ok(e) =>
        match LabelTable(ls[1..])
        case Err(err) =>
          LabelFailureShifts(ls, err);
          Err(err)
        case Ok(rest) => Ok(e + rest)
  }

  lemma LabelFailureShifts(ls: seq<(string, nat)>, err: AsmError)
    requires |ls| > 0 && LabelFits(ls[0])
    requires exists i :: 0 <= i < |ls| - 1 && LabelEntry(ls[1..][i]) == Err(err) && AllLabelsFit(ls[1..][..i])
    ensures exists i :: 0 <= i < |ls| && LabelEntry(ls[i]) == Err(err) && AllLabelsFit(ls[..i])
  {
    var i :| 0 <= i < |ls| - 1 && LabelEntry(ls[1..][i]) == Err(err) && AllLabelsFit(ls[1..][..i]);
    assert ls[..i + 1] == [ls[0]] + ls[1..][..i];
    assert LabelEntry(ls[i + 1]) == Err(err);
  }

  /** The operands, each as a field; the first over-long operand is the error. */
  function OperandBytes(ops: seq<string>): (r: Result<seq<byte>, AsmError>)
    ensures r.Ok? <==> AllShort(ops)
    ensures r.Err? ==> exists i :: 0 <= i < |ops| && !ShortText(ops[i]) && r.error == OperandTooLong(ops[i]) && AllShort(ops[..i])
    decreases |ops|
  {
    if |ops| == 0 then Ok([])
    else if !ShortText(ops[0]) then
      assert AllShort(ops[..0]);
      Err(OperandTooLong(ops[0]))
    else
      match OperandBytes(ops[1..])
      case Err(err) =>
        OperandFailureShifts(ops, err);
        Err(err)
      case Ok(rest) => Ok(Field(ops[0]) + rest)
  }

  lemma OperandFailureShifts(ops: seq<string>, err: AsmError)
    requires |ops| > 0 && ShortText(ops[0])
    requires exists i :: 0 <= i < |ops| - 1 && !ShortText(ops[1..][i]) && err == OperandTooLong(ops[1..][i]) && AllShort(ops[1..][..i])
    ensures exists i :: 0 <= i < |ops| && !ShortText(ops[i]) && err == OperandTooLong(ops[i]) && AllShort(ops[..i])
  {
    var i :| 0 <= i < |ops| - 1 && !ShortText(ops[1..][i]) && err == OperandTooLong(ops[1..][i]) && AllShort(ops[1..][..i]);
    assert ops[..i + 1] == [ops[0]] + ops[1..][..i];
    assert ops[i + 1] == ops[1..][i];
  }

  predicate InstructionFits(ins: Instruction)
  {
    |ins.operands| <= 255 && forall i :: 0 <= i < |ins.operands| ==> ShortText(ins.operands[i])
  }

  /** One instruction at the given position: opcode position, operand count, operands. */
  function InstructionEntry(ins: Instruction, position: nat): (r: Result<seq<byte>, AsmError>)
    ensures r.Ok? <==> InstructionFits(ins)
    ensures r.Ok? ==> |r.value| >= 2 && r.value[0] == Index(ins.opcode) && r.value[1] == |ins.operands|
    ensures |ins.operands| > 255 ==> r == Err(TooManyOperands(position))
  {
    if |ins.operands| > 255 then Err(TooManyOperands(position))
    else
      var ob :- OperandBytes(ins.operands);
      Ok([Index(ins.opcode), |ins.operands|] + ob)
  }

  /** The instructions in order, the first one numbered `position`. */
  function Code(instrs: seq<Instruction>, position: nat): (r: Result<seq<byte>, AsmError>)
    ensures r.Ok? <==> forall i :: 0 <= i < |instrs| ==> InstructionFits(instrs[i])
    decreases |instrs|
  {
    if |instrs| == 0 then Ok([])
    else
      var e :- InstructionEntry(instrs[0], position);
      var rest :- Code(instrs[1..], position + 1);
      Ok(e + rest)
  }

  /** Everything `assemble_to_bytecode` needs to succeed. */
  predicate Fits(p: Program)
  {
    |p.instructions| < TwoTo32 && |p.labels| < 0x1_0000 &&
    (forall i :: 0 <= i < |p.labels| ==> LabelFits(p.labels[i])) &&
    (forall i :: 0 <= i < |p.instructions| ==> InstructionFits(p.instructions[i]))
  }

  /** `assemble_to_bytecode` on the assembler's current program. */
  function Assemble(p: Program): (r: Result<seq<byte>, AsmError>)
    ensures r.Ok? <==> Fits(p)
    ensures r.Ok? ==> |r.value| >= 10 && r.value[..4] == Magic
    ensures |p.instructions| >= TwoTo32 ==> r == Err(InstructionCountTooLarge(|p.instructions|))
    ensures |p.instructions| < TwoTo32 && |p.labels| >= 0x1_0000 ==> r == Err(LabelCountTooLarge(|p.labels|))
  {
    if |p.instructions| >= TwoTo32 then Err(InstructionCountTooLarge(|p.instructions|))
    else if |p.labels| >= 0x1_0000 then Err(LabelCountTooLarge(|p.labels|))
    else
      var lt :- LabelTable(p.labels);
      var code :- Code(p.instructions, 0);
      Ok(Magic + ToLE(|p.instructions|, 4) + ToLE(|p.labels|, 2) + lt + code)
  }

  /** A length-prefixed UTF-8 field and what follows it. */
  function ReadField(b: seq<byte>): (r: Option<(string, seq<byte>)>)
    ensures r.Some? ==> |r.value.1| < |b|
  {
    if |b| == 0 || |b| < 1 + (b[0] as int) then None
    else
      var s :- Decode(b[1..1 + (b[0] as int)]);
      Some((s, b[1 + (b[0] as int)..]))
  }

  function ReadLabels(n: nat, b: seq<byte>): (r: Option<(seq<(string, nat)>, seq<byte>)>)
    ensures r.Some? ==> |r.value.0| == n
    decreases n
  {
    if n == 0 then Some(([], b))
    else
      var f :- ReadField(b);
      if |f.1| < 4 then None
      else
        var rest :- ReadLabels(n - 1, f.1[4..]);
        Some(([(f.0, FromLE(f.1[..4]))] + rest.0, rest.1))
  }

  function ReadOperands(n: nat, b: seq<byte>): (r: Option<(seq<string>, seq<byte>)>)
    ensures r.Some? ==> |r.value.0| == n
    decreases n
  {
    if n == 0 then Some(([], b))
    else
      var f :- ReadField(b);
      var rest :- ReadOperands(n - 1, f.1);
      Some(([f.0] + rest.0, rest.1))
  }

  function ReadCode(n: nat, b: seq<byte>): (r: Option<(seq<(Opcode, seq<string>)>, seq<byte>)>)
    ensures r.Some? ==> |r.value.0| == n
    decreases n
  {
    if n == 0 then Some(([], b))
    else if |b| < 2 || b[0] >= |Opcodes| then None
    else
      var ops :- ReadOperands(b[1], b[2..]);
      var rest :- ReadCode(n - 1, ops.1);
      Some(([(Opcodes[b[0]], ops.0)] + rest.0, rest.1))
  }

  /** The label table and the code of a bytecode image; None unless the image is exactly one well-formed program. */
  function Disassemble(b: seq<byte>): (r: Option<(seq<(string, nat)>, seq<(Opcode, seq<string>)>)>)
  {
    if |b| < 10 || b[..4] != Magic then None
    else
      var ls :- ReadLabels(FromLE(b[8..10]), b[10..]);
      var code :- ReadCode(FromLE(b[4..8]), ls.1);
      if |code.1| != 0 then None else Some((ls.0, code.0))
  }

  /** What the image keeps of each instruction: its opcode and operands. */
  function Listing(instrs: seq<Instruction>): (r: seq<(Opcode, seq<string>)>)
    ensures |r| == |instrs|
    ensures forall i :: 0 <= i < |instrs| ==> r[i] == (instrs[i].opcode, instrs[i].operands)
    decreases |instrs|
  {
    if |instrs| == 0 then [] else [(instrs[0].opcode, instrs[0].operands)] + Listing(instrs[1..])
  }

  lemma ReadFieldOf(s: string, tail: seq<byte>)
    requires ShortText(s)
    ensures ReadField(Field(s) + tail) == Some((s, tail))
  {
    var b := Field(s) + tail;
    var e := Encode(s);
    assert b[1..1 + (b[0] as int)] == e;
    assert b[1 + (b[0] as int)..] == tail;
    DecodeEncode(s);
  }

  lemma {:induction false} ReadLabelsOf(ls: seq<(string, nat)>, t: seq<byte>, tail: seq<byte>)
    requires LabelTable(ls) == Ok(t)
    ensures ReadLabels(|ls|, t + tail) == Some((ls, tail))
    decreases |ls|
  {
    if |ls| > 0 {
      var e := LabelEntry(ls[0]).value;
      var rest := LabelTable(ls[1..]).value;
      var name := ls[0].0;
      var addr := ls[0].1;
      var after := ToLE(addr, 4) + (rest + tail);
      assert e == Field(name) + ToLE(addr, 4);
      assert t == e + rest;
      assert t + tail == Field(name) + after;
      ReadFieldOf(name, after);
      assert ReadField(t + tail) == Some((name, after));
      assert after[..4] == ToLE(addr, 4) && after[4..] == rest + tail;
      Pow256Values();
      FromToLE(addr, 4);
      ReadLabelsOf(ls[1..], rest, tail);
      assert ReadLabels(|ls| - 1, after[4..]) == Some((ls[1..], tail));
      assert ReadLabels(|ls|, t + tail) == Some(([(name, FromLE(after[..4]))] + ls[1..], tail));
      assert [(name, addr)] + ls[1..] == ls;
    } else {
      assert t + tail == tail;
    }
  }

  lemma {:induction false} ReadOperandsOf(ops: seq<string>, t: seq<byte>, tail: seq<byte>)
    requires OperandBytes(ops) == Ok(t)
    ensures ReadOperands(|ops|, t + tail) == Some((ops, tail))
    decreases |ops|
  {
    if |ops| > 0 {
      var rest := OperandBytes(ops[1..]).value;
      assert t == Field(ops[0]) + rest;
      assert t + tail == Field(ops[0]) + (rest + tail);
      ReadFieldOf(ops[0], rest + tail);
      assert ReadField(t + tail) == Some((ops[0], rest + tail));
      ReadOperandsOf(ops[1..], rest, tail);
      assert ReadOperands(|ops| - 1, rest + tail) == Some((ops[1..], tail));
      assert ReadOperands(|ops|, t + tail) == Some(([ops[0]] + ops[1..], tail));
      assert [ops[0]] + ops[1..] == ops;
    } else {
      assert t + tail == tail;
    }
  }

  lemma {:induction false} ReadCodeOf(instrs: seq<Instruction>, position: nat, t: seq<byte>, tail: seq<byte>)
    requires Code(instrs, position) == Ok(t)
    ensures ReadCode(|instrs|, t + tail) == Some((Listing(instrs), tail))
    decreases |instrs|
  {
    if |instrs| > 0 {
      var ins := instrs[0];
      var ob, rest := CodeLayout(instrs, position, t);
      var b := t + tail;
      assert b[0] == Index(ins.opcode) && b[1] == |ins.operands| && b[2..] == ob + (rest + tail) by {
        assert b == [Index(ins.opcode), |ins.operands|] + (ob + (rest + tail));
      }
      ReadOperandsOf(ins.operands, ob, rest + tail);
      ReadCodeOf(instrs[1..], position + 1, rest, tail);
      ReadCodeStep(|instrs|, b, ins.operands, rest + tail, Listing(instrs[1..]), tail);
      assert Opcodes[b[0]] == ins.opcode;
      assert [(ins.opcode, ins.operands)] + Listing(instrs[1..]) == Listing(instrs);
    } else {
      assert t + tail == tail;
    }
  }

  /** The code of a non-empty instruction list: the first entry's two header bytes and operands, then the rest. */
  lemma CodeLayout(instrs: seq<Instruction>, position: nat, t: seq<byte>) returns (ob: seq<byte>, rest: seq<byte>)
    requires |instrs| > 0 && Code(instrs, position) == Ok(t)
    ensures OperandBytes(instrs[0].operands) == Ok(ob)
    ensures Code(instrs[1..], position + 1) == Ok(rest)
    ensures t == [Index(instrs[0].opcode), |instrs[0].operands|] + ob + rest
  {
    ob := OperandBytes(instrs[0].operands).value;
    rest := Code(instrs[1..], position + 1).value;
  }

  /** One step of the code reader: an opcode byte, operands, then the remaining instructions. */
  lemma ReadCodeStep(n: nat, b: seq<byte>, ops: seq<string>, mid: seq<byte>, listing: seq<(Opcode, seq<string>)>, tail: seq<byte>)
    requires n > 0 && |b| >= 2 && b[0] < |Opcodes|
    requires ReadOperands(b[1], b[2..]) == Some((ops, mid))
    requires ReadCode(n - 1, mid) == Some((listing, tail))
    ensures ReadCode(n, b) == Some(([(Opcodes[b[0]], ops)] + listing, tail))
  {
  }

  /** Disassembling an assembled program gives back its label table and its code. */
  lemma RoundTrip(p: Program)
    requires Assemble(p).Ok?
    ensures Disassemble(Assemble(p).value) == Some((p.labels, Listing(p.instructions)))
  {
    var lt := LabelTable(p.labels).value;
    var code := Code(p.instructions, 0).value;
    var n := ToLE(|p.instructions|, 4);
    var m := ToLE(|p.labels|, 2);
    var b := Assemble(p).value;
    assert b == Magic + n + m + (lt + code);
    assert b[4..8] == n && b[8..10] == m && b[10..] == lt + code;
    Pow256Values();
    assert Pow(256, 2) == 0x1_0000;
    FromToLE(|p.instructions|, 4);
    FromToLE(|p.labels|, 2);
    ReadLabelsOf(p.labels, lt, code);
    ReadCodeOf(p.instructions, 0, code, []);
    assert code + [] == code;
  }
}
