/**
 * Two pieces of the runtime operator machinery of oagi_v20_1_self_mod.py:
 * the usage and fitness book-keeping of `DynamicOperatorRegistry`, and the
 * source text `RuntimeCodeModifier.generate_operator_code` produces for a
 * chain of operators. Executing that text is not part of this model.
 */
module OperatorRuntime {
  import opened Wrappers
  import opened AssocList

  /** The `usage_stats` and `fitness_scores` dictionaries. */
  datatype Registry = Registry(usage: Assoc<string, nat>, fitness: Assoc<string, real>)

  /** `self.fitness_scores[name]` for a name without a score. */
  datatype RegistryError = KeyError(name: string)

  /** Both dictionaries know the same names: what `add_operator` and `remove_operator` keep. */
  ghost predicate Valid(reg: Registry)
  {
    forall name :: Get(reg.usage, name).Some? <==> Get(reg.fitness, name).Some?
  }

  ghost predicate FitnessInUnit(reg: Registry)
  {
    forall name :: Get(reg.fitness, name).Some? ==> 0.0 <= Get(reg.fitness, name).value <= 1.0
  }

  /** `min(1.0, f + 0.01)` on success, `max(0.0, f - 0.02)` on failure. */
  function Adjust(f: real, success: bool): real
  {
    if success then (if f + 0.01 < 1.0 then f + 0.01 else 1.0)
    else (if f - 0.02 > 0.0 then f - 0.02 else 0.0)
  }

  /**
   * `record_usage`: a name without usage statistics changes nothing; a known
   * name has its count raised by one and its fitness moved up by 0.01 on
   * success or down by 0.02 on failure, within [0, 1]. A name with usage but
   * no fitness raises KeyError after the count has been raised.
   */
  function RecordUsage(reg: Registry, name: string, success: bool): (r: Result<Registry, RegistryError>)
    ensures Get(reg.usage, name).None? ==> r == Ok(reg)
    ensures r.Err? <==> Get(reg.usage, name).Some? && Get(reg.fitness, name).None?
    ensures r.Err? ==> r.error == KeyError(name)
    ensures r.Ok? && Get(reg.usage, name).Some? ==>
      Get(r.value.usage, name).Some? && Get(r.value.usage, name).value == Get(reg.usage, name).value + 1 &&
      Get(r.value.fitness, name) == Some(Adjust(Get(reg.fitness, name).value, success))
    ensures r.Ok? ==> forall other :: other != name ==>
      Get(r.value.usage, other) == Get(reg.usage, other) && Get(r.value.fitness, other) == Get(reg.fitness, other)
  {
    match Get(reg.usage, name)
    case None => Ok(reg)
    case Some(count) =>
      match Get(reg.fitness, name)
      case None => Err(KeyError(name))
      case Some(f) =>
        var usage := Put<string, nat>(reg.usage, name, count + 1);
        var fitness := Put<string, real>(reg.fitness, name, Adjust(f, success));
        assert forall other :: other != name ==> Get(usage, other) == Get(reg.usage, other);
        assert forall other :: other != name ==> Get(fitness, other) == Get(reg.fitness, other);
        Ok(Registry(usage, fitness))
  }

  /** In a valid registry recording never raises, and the registry stays valid. */
  lemma RecordUsageValid(reg: Registry, name: string, success: bool)
    requires Valid(reg)
    ensures RecordUsage(reg, name, success).Ok?
    ensures Valid(RecordUsage(reg, name, success).value)
  {
  }

  /** Fitness scores that start in [0, 1] stay there, whatever is recorded. */
  lemma RecordUsageKeepsFitness(reg: Registry, name: string, success: bool)
    requires FitnessInUnit(reg)
    ensures RecordUsage(reg, name, success).Ok? ==> FitnessInUnit(RecordUsage(reg, name, success).value)
  {
  }

  /** `' -> '.join(ops)`. */
  function Join(ops: seq<string>): string
  {
    if |ops| == 0 then "" else if |ops| == 1 then ops[0] else ops[0] + " -> " + Join(ops[1..])
  }

  /** The text before the chained calls: the `def` line, the docstring and `result = p`. */
  function Header(name: string, description: string, ops: seq<string>): string
  {
    "\ndef " + name + "(p):\n    \"\"\"\n    " + description + "\n    Generated operator: " + Join(ops) + "\n    \"\"\"\n    result = p\n"
  }

  const CallPrefix: string := "    result = "
  const CallSuffix: string := "(result)\n"

  /** The line applying one operator. */
  function CallLine(op: string): string
  {
    CallPrefix + op + CallSuffix
  }

  /** One call line per operator, in order. */
  function Body(ops: seq<string>): (b: string)
    ensures |b| >= 22 * |ops|
  {
    if |ops| == 0 then "" else CallLine(ops[0]) + Body(ops[1..])
  }

  function Footer(name: string): string
  {
    "    return [\"" + name + "_applied\"] + result\n"
  }

  /**
   * `generate_operator_code`: the header, the call lines and the return
   * line; the code opens by defining `name`.
   */
  function GenerateOperatorCode(name: string, description: string, ops: seq<string>): (code: string)
    ensures var h := Header(name, description, ops); var b := Body(ops);
      |code| == |h| + |b| + |Footer(name)| &&
      code[..|h|] == h && code[|h|..|h| + |b|] == b && code[|h| + |b|..] == Footer(name)
    ensures |code| > 5 + |name| && code[..5 + |name|] == "\ndef " + name
  {
    var h := Header(name, description, ops);
    var b := Body(ops);
    var code := h + b + Footer(name);
    assert code[..|h|] == h;
    assert code[|h|..|h| + |b|] == b;
    assert code[..5 + |name|] == h[..5 + |name|];
    code
  }

  /** The position of the first newline at or after i. */
  function NextNewline(s: string, i: nat): (r: Option<nat>)
    requires i <= |s|
    ensures r.None? <==> forall k :: i <= k < |s| ==> s[k] != '\n'
    ensures r.Some? ==> i <= r.value < |s| && s[r.value] == '\n' && forall k :: i <= k < r.value ==> s[k] != '\n'
    decreases |s| - i
  {
    if i == |s| then None
    else if s[i] == '\n' then Some(i)
    else NextNewline(s, i + 1)
  }

  /**
   * Read the call lines back: each line must start with the call prefix and
   * end with the call suffix; what lies between names the operator.
   */
  function DecodeBody(b: string): (r: Option<seq<string>>)
    decreases |b|
  {
    if |b| == 0 then Some([])
    else if |b| < |CallPrefix| || b[..|CallPrefix|] != CallPrefix then None
    else
      match NextNewline(b, |CallPrefix|)
      case None => None
      case Some(k) =>
        if k + 1 < |CallPrefix| + |CallSuffix| || b[k + 1 - |CallSuffix|..k + 1] != CallSuffix then None
        else
          var rest :- DecodeBody(b[k + 1..]);
          Some([b[|CallPrefix|..k + 1 - |CallSuffix|]] + rest)
  }

  predicate NoNewline(op: string)
  {
    forall k :: 0 <= k < |op| ==> op[k] != '\n'
  }

  lemma NextNewlineOfLine(op: string, rest: string)
    requires NoNewline(op)
    ensures NextNewline(CallLine(op) + rest, |CallPrefix|) == Some(|CallPrefix| + |op| + |CallSuffix| - 1)
  {
    var s := CallLine(op) + rest;
    var k := |CallPrefix| + |op| + |CallSuffix| - 1;
    assert s[k] == '\n';
    forall j | |CallPrefix| <= j < k ensures s[j] != '\n' {
      if j < |CallPrefix| + |op| {
        assert s[j] == op[j - |CallPrefix|];
      } else {
        assert s[j] == CallSuffix[j - |CallPrefix| - |op|];
      }
    }
  }

  /** Decoding one call line in front of more text. */
  lemma DecodeLine(op: string, rest: string)
    requires NoNewline(op)
    ensures DecodeBody(CallLine(op) + rest) ==
      if DecodeBody(rest).Some? then Some([op] + DecodeBody(rest).value) else None
  {
    var b := CallLine(op) + rest;
    NextNewlineOfLine(op, rest);
    var k := |CallPrefix| + |op| + |CallSuffix| - 1;
    assert b[..|CallPrefix|] == CallPrefix;
    assert b[k + 1 - |CallSuffix|..k + 1] == CallSuffix;
    assert b[k + 1..] == rest;
    assert b[|CallPrefix|..k + 1 - |CallSuffix|] == op;
  }

  /** The call lines give back exactly the operators, in order, when no operator name holds a newline. */
  lemma {:induction false} DecodeBodyRoundTrip(ops: seq<string>)
    requires forall i :: 0 <= i < |ops| ==> NoNewline(ops[i])
    ensures DecodeBody(Body(ops)) == Some(ops)
  {
    if |ops| > 0 {
      assert Body(ops) == CallLine(ops[0]) + Body(ops[1..]);
      DecodeBodyRoundTrip(ops[1..]);
      DecodeLine(ops[0], Body(ops[1..]));
      assert ops == [ops[0]] + ops[1..];
    }
  }

  /** One call line per operator, in order: the call lines of generated code decode to the operators. */
  lemma GeneratedCallsInOrder(name: string, description: string, ops: seq<string>)
    requires forall i :: 0 <= i < |ops| ==> NoNewline(ops[i])
    ensures var code := GenerateOperatorCode(name, description, ops);
      var start := |Header(name, description, ops)|;
      start + |Body(ops)| <= |code| && DecodeBody(code[start..start + |Body(ops)|]) == Some(ops)
  {
    DecodeBodyRoundTrip(ops);
  }
}
