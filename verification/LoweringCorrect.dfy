/** Lowering preserves meaning: the interpreter on the emitted body does what evaluating the HIR
    block does, instruction for instruction and call for call. */
module LoweringCorrect {
  import opened Collections
  import opened ExecIr
  import opened IrVm
  import opened Hir
  import opened HirToIr
  import Int64

  /** All functions that get a body are single blocks ending in a return. */
  ghost predicate AllStraight(h: HirModule) {
    forall i :: 0 <= i < |h.fns| && IsEmitted(h.fns[i]) ==> IsStraight(h, h.fns[i])
  }

  /** Everything the 16-bit instruction fields number stays in range. The last register number is
      the memo's "unassigned" mark, and the last slot number would wrap the slot count. */
  ghost predicate FitsU16(h: HirModule, m: Module) {
    && (forall k :: 0 <= k < |m.functions| ==> m.functions[k].registerCount < U16)
    && |m.functions| <= U16 && |m.externs| <= U16
    && forall id :: 0 <= id < |h.exprs| ==> SlotFits(h.exprs[id])
  }

  predicate SlotFits(e: HirExpr) {
    match e
    case SlotAlloca(s) => s < U16 - 1
    case SlotStore(s, _) => s < U16 - 1
    case SlotLoad(s) => s < U16 - 1
    case _ => true
  }

  /** `m` is the successful lowering of `h`. */
  ghost predicate Compiled(h: HirModule, m: Module) {
    WellFormed(h) && LowerModule(h) == (m, true) && AllStraight(h) && FitsU16(h, m)
  }

  /** The per-activation instruction budget is no smaller than any body. */
  ghost predicate CapCovers(m: Module, cap: nat) {
    forall k :: 0 <= k < |m.functions| ==> |m.functions[k].body| <= cap
  }

  /** One activation on both sides: function `fi` of `h`, which is function `k` of `m`. */
  datatype Sim = Sim(h: HirModule, m: Module, fi: nat, k: nat, args: seq<int>, depth: nat, cap: nat)

  predicate InBounds(s: Sim) {
    s.fi < |s.h.fns| && s.k < |s.m.functions| && |s.args| == |s.h.fns[s.fi].params|
  }

  ghost predicate Matching(s: Sim) {
    && WellFormed(s.h) && InBounds(s)
    && ExternNames(s.h, s.fi) <= s.m.externs && |s.m.externs| <= U16
    && |Emitted(s.h, s.fi + 1)| <= |s.m.functions| <= U16
    && CapCovers(s.m, s.cap)
    && forall id :: 0 <= id < |s.h.exprs| ==> SlotFits(s.h.exprs[id])
  }

  function Fn(s: Sim): Function
    requires s.k < |s.m.functions|
  {
    s.m.functions[s.k]
  }

  function EnvOf(s: Sim): Env { Env(s.fi, s.args, s.m.strings, s.depth) }

  /** The lowering state is a prefix of the finished function and module. */
  ghost predicate Placed(s: Sim, st: LState)
    requires InBounds(s)
  {
    && st.ok
    && st.body <= Fn(s).body
    && st.registerCount <= Fn(s).registerCount
    && st.slotCount <= Fn(s).slotCount
    && st.constants <= s.m.constants
    && st.strings <= s.m.strings
  }

  /** The register file agrees with what has been evaluated: memoised expressions sit in their
      registers, parameters are untouched, unallocated registers are still zero. */
  ghost predicate Agrees(s: Sim, st: LState, es: EvalState, fr: Frame)
    requires InBounds(s)
  {
    && Consistent(s.h, s.fi, st)
    && st.registerCount <= |fr.regs| == Fn(s).registerCount
    && fr.pc == |st.body| && fr.slots == es.slots && |fr.slots| == Fn(s).slotCount && fr.output == es.output
    && MemoAgrees(st.memo, es.memo, fr.regs)
    && ParamsAgree(s.args, fr.regs)
    && ZeroFrom(st.registerCount, fr.regs)
  }

  ghost predicate MemoAgrees(regOf: map<nat, nat>, valueOf: map<nat, int>, regs: seq<int>) {
    && valueOf.Keys == regOf.Keys
    && forall id :: id in regOf ==> regOf[id] < |regs| && regs[regOf[id]] == valueOf[id]
  }

  ghost predicate ParamsAgree(args: seq<int>, regs: seq<int>) {
    && |args| <= |regs| && 1 <= |regs|
    && (forall p :: 0 <= p < |args| ==> regs[p] == args[p])
    && (args == [] ==> regs[0] == 0)
  }

  ghost predicate ZeroFrom(n: nat, regs: seq<int>) { forall r :: n <= r < |regs| ==> regs[r] == 0 }

  function RunFrom(s: Sim, fr: Frame, steps: nat): Outcome
    requires InBounds(s)
  {
    Run(s.m, Fn(s), fr, s.depth, steps, s.cap)
  }

  /** From `fr` the interpreter reaches `fr'`, where register `r` holds the evaluated result and the
      first `n` registers are unchanged, or it ends as the evaluation does. */
  ghost predicate Simulates(s: Sim, n: nat, fr: Frame, steps: nat, res: Result, st': LState, r: nat, fr': Frame)
    requires InBounds(s)
  {
    match res
    case Val(v, es') =>
      && Agrees(s, st', es', fr') && r < st'.registerCount && fr'.regs[r] == v
      && Keeps(n, fr.regs, fr'.regs)
      && Reaches(s, fr, steps, fr')
    case Stop(Ends(o)) => RunFrom(s, fr, steps) == o
    case Stop(Rejected) => false
  }

  ghost predicate Keeps(n: nat, regs: seq<int>, regs': seq<int>) {
    n <= |regs| == |regs'| && forall r :: 0 <= r < n ==> regs'[r] == regs[r]
  }

  /** The run from `fr` is the run from `fr'`, one instruction of budget spent per instruction. */
  ghost predicate Reaches(s: Sim, fr: Frame, steps: nat, fr': Frame)
    requires InBounds(s)
  {
    && fr.pc <= fr'.pc <= fr.pc + steps
    && RunFrom(s, fr, steps) == RunFrom(s, fr', steps - (fr'.pc - fr.pc))
  }

  /** Running on from a frame that is reached first. */
  lemma Compose(s: Sim, n: nat, fr: Frame, steps: nat, n1: nat, fr1: Frame, res: Result, st': LState, r: nat, fr': Frame)
    requires InBounds(s) && n <= n1
    requires Reaches(s, fr, steps, fr1) && Keeps(n, fr.regs, fr1.regs)
    requires Simulates(s, n1, fr1, steps - (fr1.pc - fr.pc), res, st', r, fr')
    ensures Simulates(s, n, fr, steps, res, st', r, fr')
  {
    hide Agrees;
  }

  /** A fresh register written by the instruction just emitted keeps the agreement. */
  lemma DefineAgrees(s: Sim, st: LState, es: EvalState, fr: Frame, id: nat, op: Op, b: nat, c: nat, imm: nat,
                     v: int, out: string) returns (fr': Frame)
    requires InBounds(s) && Agrees(s, st, es, fr) && st.registerCount < Fn(s).registerCount
    ensures fr' == Frame(fr.pc + 1, fr.regs[st.registerCount := v], fr.slots, out)
    ensures Agrees(s, Define(st, id, op, b, c, imm).0, EvalState(es.memo[id := v], es.slots, out), fr')
    ensures fr'.regs[st.registerCount] == v
  {
    assert |s.args| <= st.registerCount;
    hide ToU16, MemoAgrees, MemoBelow, ParamsAgree, ZeroFrom, Distinct;
    fr' := Frame(fr.pc + 1, fr.regs[st.registerCount := v], fr.slots, out);
  }

  /** An instruction that is in the finished body at the frame's position. */
  lemma Fetched(s: Sim, st: LState, id: nat, op: Op, b: nat, c: nat, imm: nat, fr: Frame)
    requires InBounds(s) && fr.pc == |st.body|
    requires Placed(s, Define(st, id, op, b, c, imm).0)
    ensures fr.pc < |Fn(s).body| && Fn(s).body[fr.pc] == Instr(op, st.registerCount, b, c, imm)
    ensures st.registerCount < Fn(s).registerCount
  {
    assert Fn(s).body[fr.pc] == Define(st, id, op, b, c, imm).0.body[fr.pc];
  }

  /** One emitted instruction whose step writes `v` (or fails) into its fresh register. */
  lemma DefineSimulates(s: Sim, st: LState, es: EvalState, fr: Frame, id: nat, op: Op, b: nat, c: nat, imm: nat,
                        a: Int64.Arith, out: string, steps: nat) returns (fr': Frame)
    requires InBounds(s) && Agrees(s, st, es, fr)
    requires Placed(s, Define(st, id, op, b, c, imm).0) && steps > 0
    requires Advance(s.m, Fn(s), fr, s.depth, s.cap) ==
      match a
      case Value(v) => Next(Frame(fr.pc + 1, fr.regs[st.registerCount := v], fr.slots, out))
      case Trap => Halt(Trapped(out))
      case Undefined => Halt(Undefined)
    ensures Simulates(s, st.registerCount, fr, steps, Keep(id, a, es.(output := out)), Define(st, id, op, b, c, imm).0, st.registerCount, fr')
  {
    Fetched(s, st, id, op, b, c, imm, fr);
    assert st.registerCount <= |fr.regs| && fr.pc == |st.body|;
    hide Advance, Agrees, ToU16, Placed;
    fr' := fr;
    if a.Value? {
      fr' := DefineAgrees(s, st, es, fr, id, op, b, c, imm, a.v, out);
    }
  }

  // The interpreter's step on each kind of instruction the lowering emits, inside its bounds.

  /** The opcode chosen for a HIR operator computes that operator, wherever it is defined. */
  lemma BinaryPreserved(op: BinaryOp, x: int, y: int)
    ensures match BinaryOpcode(op)
      case Binary(bin) => ExecBinary(bin, x, y) == EvalBinary(op, x, y)
      case Trap => EvalBinary(op, x, y).Trap?
      case _ => false
  {
    hide Int64.Checked, Int64.Mul, Int64.Div, Int64.Rem, Int64.Xor, Int64.ToU32, Int64.Wrap, Int64.Pow2;
  }

  lemma LiteralSim(s: Sim, st: LState, es: EvalState, fr: Frame, id: nat, v: int, steps: nat) returns (fr': Frame)
    requires InBounds(s) && Agrees(s, st, es, fr) && Placed(s, LowerLiteral(st, id, v).0)
    requires |Fn(s).body| <= fr.pc + steps
    ensures var (st', r) := LowerLiteral(st, id, v);
      Simulates(s, st.registerCount, fr, steps, Keep(id, Int64.Value(v), es), st', r, fr')
  {
    var n := |st.constants|;
    var st1 := st.(constants := st.constants + [v], ok := st.ok && n < U16);
    var st' := Define(st1, id, LoadConst, 0, 0, ToU16(n)).0;
    assert Fn(s).body[fr.pc] == st'.body[fr.pc];
    assert s.m.constants[n] == st'.constants[n];
    hide Advance;
    fr' := DefineSimulates(s, st1, es, fr, id, LoadConst, 0, 0, ToU16(n), Int64.Value(v), es.output, steps);
  }

  lemma StringSim(s: Sim, st: LState, es: EvalState, fr: Frame, id: nat, text: string, steps: nat) returns (fr': Frame)
    requires InBounds(s) && Agrees(s, st, es, fr) && Placed(s, LowerString(st, id, text).0)
    requires |Fn(s).body| <= fr.pc + steps
    ensures FirstIndex(s.m.strings, text).Some?
    ensures var (st', r) := LowerString(st, id, text);
      Simulates(s, st.registerCount, fr, steps, Keep(id, Int64.Value(FirstIndex(s.m.strings, text).value), es), st', r, fr')
  {
    var (st', _) := LowerString(st, id, text);
    var index := StringIndex(s, st, st'.strings, text);
    var st1 := st.(strings := st'.strings, ok := st.ok && index < U16);
    assert Fn(s).body[fr.pc] == st'.body[fr.pc];
    hide Advance, FirstIndex;
    fr' := DefineSimulates(s, st1, es, fr, id, LoadString, 0, 0, index, Int64.Value(index), es.output, steps);
  }

  /** The number a string gets is its first position in the finished table. */
  lemma StringIndex(s: Sim, st: LState, strings: seq<string>, text: string) returns (index: nat)
    requires strings <= s.m.strings && Distinct(st.strings)
    requires strings == if FirstIndex(st.strings, text).Some? then st.strings else st.strings + [text]
    ensures index < |strings| && FirstIndex(s.m.strings, text) == Some(index) && Distinct(strings)
    ensures index == if FirstIndex(st.strings, text).Some? then FirstIndex(st.strings, text).value else |st.strings|
  {
    assert text in strings by {
      if FirstIndex(st.strings, text).None? { assert strings[|st.strings|] == text; }
    }
    FirstIndexPrefix(strings, s.m.strings, text);
    index := FirstIndex(strings, text).value;
    if FirstIndex(st.strings, text).None? {
      assert strings[..|st.strings|] == st.strings;
      FirstIndexIs(strings, text, |st.strings|);
    }
  }

  lemma PlacedBefore(s: Sim, a: LState, b: LState)
    requires InBounds(s) && Continues(a, b) && Placed(s, b)
    ensures Placed(s, a)
  {
  }

  lemma SlotLoadSim(s: Sim, st: LState, es: EvalState, fr: Frame, id: nat, slot: nat, steps: nat) returns (fr': Frame)
    requires InBounds(s) && Agrees(s, st, es, fr) && slot < U16
    requires Placed(s, Define(st, id, Op.SlotLoad, 0, 0, slot).0) && |Fn(s).body| <= fr.pc + steps
    ensures Simulates(s, st.registerCount, fr, steps,
      if slot < |es.slots| then Keep(id, Int64.Value(es.slots[slot]), es) else Stop(Ends(Trapped(es.output))),
      Define(st, id, Op.SlotLoad, 0, 0, slot).0, st.registerCount, fr')
  {
    Fetched(s, st, id, Op.SlotLoad, 0, 0, slot, fr);
    var v := if slot < |es.slots| then Int64.Value(es.slots[slot]) else Int64.Trap;
    hide Advance;
    fr' := DefineSimulates(s, st, es, fr, id, Op.SlotLoad, 0, 0, slot, v, es.output, steps);
  }

  /** The instruction of a binary operator whose operands are in registers. */
  lemma BinaryStepSim(s: Sim, st: LState, es: EvalState, fr: Frame, id: nat, op: BinaryOp, lhs: nat, rhs: nat, steps: nat)
    returns (fr': Frame)
    requires InBounds(s) && Agrees(s, st, es, fr) && lhs < st.registerCount && rhs < st.registerCount
    requires Placed(s, Define(st, id, BinaryOpcode(op), lhs, rhs, 0).0) && |Fn(s).body| <= fr.pc + steps
    ensures Simulates(s, st.registerCount, fr, steps, Keep(id, EvalBinary(op, fr.regs[lhs], fr.regs[rhs]), es),
      Define(st, id, BinaryOpcode(op), lhs, rhs, 0).0, st.registerCount, fr')
  {
    Fetched(s, st, id, BinaryOpcode(op), lhs, rhs, 0, fr);
    BinaryPreserved(op, fr.regs[lhs], fr.regs[rhs]);
    hide Advance, ExecBinary, EvalBinary;
    fr' := DefineSimulates(s, st, es, fr, id, BinaryOpcode(op), lhs, rhs, 0,
                           EvalBinary(op, fr.regs[lhs], fr.regs[rhs]), es.output, steps);
  }

  lemma UnaryStepSim(s: Sim, st: LState, es: EvalState, fr: Frame, id: nat, op: UnaryOp, o: nat, steps: nat)
    returns (fr': Frame)
    requires InBounds(s) && Agrees(s, st, es, fr) && o < st.registerCount
    requires Placed(s, Define(st, id, UnaryOpcode(op), o, 0, 0).0) && |Fn(s).body| <= fr.pc + steps
    ensures Simulates(s, st.registerCount, fr, steps, Keep(id, EvalUnary(op, fr.regs[o]), es),
      Define(st, id, UnaryOpcode(op), o, 0, 0).0, st.registerCount, fr')
  {
    Fetched(s, st, id, UnaryOpcode(op), o, 0, 0, fr);
    hide Advance, ExecUnary, EvalUnary;
    fr' := DefineSimulates(s, st, es, fr, id, UnaryOpcode(op), o, 0, 0, EvalUnary(op, fr.regs[o]), es.output, steps);
  }

  lemma PlacedBeforeDefine(s: Sim, st: LState, id: nat, op: Op, b: nat, c: nat, imm: nat)
    requires InBounds(s) && Placed(s, Define(st, id, op, b, c, imm).0)
    ensures Placed(s, st)
  {
  }

  lemma VarSim(s: Sim, st: LState, es: EvalState, fr: Frame, id: nat, name: string, steps: nat)
    requires InBounds(s) && Agrees(s, st, es, fr) && Placed(s, LowerVar(s.h, s.fi, st, id, name).0)
    ensures var params := s.h.fns[s.fi].params;
      && FirstIndex(params, name).Some?
      && var p := FirstIndex(params, name).value;
         && p < |s.args|
         && LowerVar(s.h, s.fi, st, id, name) == (st.(memo := st.memo[id := p]), p)
         && Simulates(s, st.registerCount, fr, steps, Keep(id, Int64.Value(s.args[p]), es),
                      st.(memo := st.memo[id := p]), p, fr)
  {
  }

  /** The lowering of an operand, run by the interpreter, is the evaluation of the operand. */
  lemma {:induction false} OperandSim(s: Sim, st: LState, es: EvalState, fr: Frame, id: nat, steps: nat)
    returns (fr': Frame)
    requires Compiled(s.h, s.m) && WellFormed(s.h) && InBounds(s) && Matching(s) && Agrees(s, st, es, fr)
    requires Placed(s, LowerOperand(s.h, s.fi, st, id).0) && |Fn(s).body| <= fr.pc + steps
    ensures var (st', r) := LowerOperand(s.h, s.fi, st, id);
      Simulates(s, st.registerCount, fr, steps, Eval(s.h, EnvOf(s), es, id), st', r, fr')
    decreases s.depth, 0, Rank(s.h, id), 3
  {
    fr' := fr;
    if id >= |s.h.exprs| {
    } else if id in st.memo {
    } else {
      OperandsBefore(s, id);
      match s.h.exprs[id]
      case Literal(v) => fr' := LiteralSim(s, st, es, fr, id, v, steps);
      case StringLiteral(text) => fr' := StringSim(s, st, es, fr, id, text, steps);
      case Var(name) => VarSim(s, st, es, fr, id, name, steps);
      case Binary(_, _, _) => fr' := BinarySim(s, st, es, fr, id, steps);
      case Unary(_, _) => fr' := UnarySim(s, st, es, fr, id, steps);
      case HirCall(_, _, _) => fr' := CallSim(s, st, es, fr, id, steps);
      case SlotLoad(slot) => fr' := SlotLoadSim(s, st, es, fr, id, slot, steps);
      case _ =>
    }
  }

  lemma OperandsBefore(s: Sim, id: nat)
    requires Matching(s) && id < |s.h.exprs|
    ensures OperandsPrecede(s.h, id) && SlotFits(s.h.exprs[id]) && WellFormed(s.h)
  {
  }

  lemma AgreesConsistent(s: Sim, st: LState, es: EvalState, fr: Frame)
    requires InBounds(s) && Agrees(s, st, es, fr)
    ensures Consistent(s.h, s.fi, st) && st.registerCount <= |fr.regs|
  {
  }

  // One level of the two recursive definitions, case by case.

  lemma LowerBinaryIs(s: Sim, st: LState, id: nat)
    requires WellFormed(s.h) && InBounds(s) && id < |s.h.exprs| && s.h.exprs[id].Binary? && id !in st.memo
    ensures var e := s.h.exprs[id];
      var (st1, lhs) := LowerOperand(s.h, s.fi, st, e.lhs);
      var (st2, rhs) := LowerOperand(s.h, s.fi, st1, e.rhs);
      LowerOperand(s.h, s.fi, st, id) == (Define(st2, id, BinaryOpcode(e.op), lhs, rhs, 0).0, st2.registerCount)
  {
    hide WellFormed, BinaryOpcode;
  }

  lemma {:induction false} LowerCallIs(s: Sim, st: LState, id: nat)
    requires WellFormed(s.h) && InBounds(s) && id < |s.h.exprs| && s.h.exprs[id].HirCall? && id !in st.memo
    requires s.h.exprs[id].callee < |s.h.exprs| && Placed(s, LowerOperand(s.h, s.fi, st, id).0)
    ensures var t := CallTarget(s.h, s.fi, id);
      var (st1, arg0) := LowerArg(s.h, s.fi, st, id, 0);
      var (st2, arg1) := LowerArg(s.h, s.fi, st1, id, 1);
      && !t.NotFound?
      && LowerOperand(s.h, s.fi, st, id) ==
         (Define(st2, id, if t.Extern? then CallExtern else CallFn, arg0, arg1, ToU16(t.index)).0, st2.registerCount)
  {
    hide WellFormed, CallTarget, ToU16;
  }

  lemma CountGrows(a: LState, b: LState)
    requires Continues(a, b)
    ensures a.registerCount <= b.registerCount
  {
  }

  /** An early end is simulated whatever would have come next. */
  lemma StopSimulates(s: Sim, n: nat, fr: Frame, steps: nat, m: Meaning, st': LState, r: nat, fr': Frame)
    requires InBounds(s) && Simulates(s, n, fr, steps, Stop(m), st', r, fr')
    ensures forall n1: nat, st1, r1: nat, fr1 :: Simulates(s, n1, fr, steps, Stop(m), st1, r1, fr1)
  {
  }

  /** What a simulated value gives to whatever runs next. */
  lemma SimulatedValue(s: Sim, n: nat, fr: Frame, steps: nat, v: int, es': EvalState, st': LState, r: nat, fr': Frame)
    requires InBounds(s) && Simulates(s, n, fr, steps, Val(v, es'), st', r, fr') && Placed(s, st')
    requires |Fn(s).body| <= fr.pc + steps
    ensures Agrees(s, st', es', fr') && Consistent(s.h, s.fi, st')
    ensures r < |fr'.regs| && fr'.regs[r] == v
    ensures Keeps(n, fr.regs, fr'.regs) && Reaches(s, fr, steps, fr')
    ensures fr.pc <= fr'.pc <= fr.pc + steps
    ensures |Fn(s).body| <= fr'.pc + (steps - (fr'.pc - fr.pc))
  {
  }

  lemma {:induction false} BinarySim(s: Sim, st: LState, es: EvalState, fr: Frame, id: nat, steps: nat)
    returns (fr': Frame)
    requires Compiled(s.h, s.m) && WellFormed(s.h) && InBounds(s) && Matching(s) && Agrees(s, st, es, fr)
    requires id < |s.h.exprs| && s.h.exprs[id].Binary? && id !in st.memo && id !in es.memo
    requires Placed(s, LowerOperand(s.h, s.fi, st, id).0) && |Fn(s).body| <= fr.pc + steps
    ensures var (st', r) := LowerOperand(s.h, s.fi, st, id);
      Simulates(s, st.registerCount, fr, steps, Eval(s.h, EnvOf(s), es, id), st', r, fr')
    decreases s.depth, 0, Rank(s.h, id), 2
  {
    hide Compiled, Matching, Placed, ToU16, Agrees, Reaches, Consistent, CallTarget, BinaryOpcode, UnaryOpcode, EvalUnary, EvalCall, EvalArg, LowerOperand, LowerArg, Define, Continues, Keeps, Simulates;
    OperandsBefore(s, id);
    AgreesConsistent(s, st, es, fr);
    var e := s.h.exprs[id];
    LowerBinaryIs(s, st, id);
    var (st1, lhs) := LowerOperand(s.h, s.fi, st, e.lhs);
    var (st2, rhs) := LowerOperand(s.h, s.fi, st1, e.rhs);
    OperandContinues(s.h, s.fi, st, e.lhs);
    OperandContinues(s.h, s.fi, st1, e.rhs);
    PlacedBeforeDefine(s, st2, id, BinaryOpcode(e.op), lhs, rhs, 0);
    PlacedBefore(s, st1, st2);
    CountGrows(st, st1);
    CountGrows(st1, st2);
    var fr1 := OperandSim(s, st, es, fr, e.lhs, steps);
    fr' := fr1;
    match Eval(s.h, EnvOf(s), es, e.lhs)
    case Stop(m) => StopSimulates(s, st.registerCount, fr, steps, m, st1, lhs, fr1);
    case Val(x, es1) =>
      SimulatedValue(s, st.registerCount, fr, steps, x, es1, st1, lhs, fr1);
      var steps1 := steps - (fr1.pc - fr.pc);
      var fr2 := OperandSim(s, st1, es1, fr1, e.rhs, steps1);
      fr' := fr2;
      var (st', r) := LowerOperand(s.h, s.fi, st, id);
      match Eval(s.h, EnvOf(s), es1, e.rhs)
      case Stop(m) =>
        StopSimulates(s, st1.registerCount, fr1, steps1, m, st2, rhs, fr2);
        Compose(s, st.registerCount, fr, steps, st1.registerCount, fr1, Eval(s.h, EnvOf(s), es, id), st', r, fr');
      case Val(y, es2) =>
        SimulatedValue(s, st1.registerCount, fr1, steps1, y, es2, st2, rhs, fr2);
        fr' := BinaryStepSim(s, st2, es2, fr2, id, e.op, lhs, rhs, steps1 - (fr2.pc - fr1.pc));
        Compose(s, st1.registerCount, fr1, steps1, st2.registerCount, fr2, Eval(s.h, EnvOf(s), es, id), st', r, fr');
        Compose(s, st.registerCount, fr, steps, st1.registerCount, fr1, Eval(s.h, EnvOf(s), es, id), st', r, fr');
  }

  lemma {:induction false} UnarySim(s: Sim, st: LState, es: EvalState, fr: Frame, id: nat, steps: nat)
    returns (fr': Frame)
    requires Compiled(s.h, s.m) && WellFormed(s.h) && InBounds(s) && Matching(s) && Agrees(s, st, es, fr)
    requires id < |s.h.exprs| && s.h.exprs[id].Unary? && id !in st.memo && id !in es.memo
    requires Placed(s, LowerOperand(s.h, s.fi, st, id).0) && |Fn(s).body| <= fr.pc + steps
    ensures var (st', r) := LowerOperand(s.h, s.fi, st, id);
      Simulates(s, st.registerCount, fr, steps, Eval(s.h, EnvOf(s), es, id), st', r, fr')
    decreases s.depth, 0, Rank(s.h, id), 2
  {
    hide Compiled, Matching, Placed, ToU16, Agrees, Reaches, Consistent, CallTarget, BinaryOpcode, EvalBinary, EvalCall, EvalArg, LowerArg, Continues, Keeps, Simulates;
    OperandsBefore(s, id);
    AgreesConsistent(s, st, es, fr);
    var e := s.h.exprs[id];
    var (st1, o) := LowerOperand(s.h, s.fi, st, e.operand);
    OperandContinues(s.h, s.fi, st, e.operand);
    PlacedBeforeDefine(s, st1, id, UnaryOpcode(e.uop), o, 0, 0);
    CountGrows(st, st1);
    var fr1 := OperandSim(s, st, es, fr, e.operand, steps);
    fr' := fr1;
    match Eval(s.h, EnvOf(s), es, e.operand)
    case Stop(m) => StopSimulates(s, st.registerCount, fr, steps, m, st1, o, fr1);
    case Val(x, es1) =>
      SimulatedValue(s, st.registerCount, fr, steps, x, es1, st1, o, fr1);
      fr' := UnaryStepSim(s, st1, es1, fr1, id, e.uop, o, steps - (fr1.pc - fr.pc));
      var (st', r) := LowerOperand(s.h, s.fi, st, id);
      Compose(s, st.registerCount, fr, steps, st1.registerCount, fr1, Eval(s.h, EnvOf(s), es, id), st', r, fr');
  }

  lemma {:induction false} ArgSim(s: Sim, st: LState, es: EvalState, fr: Frame, id: nat, i: nat, steps: nat)
    returns (fr': Frame)
    requires Compiled(s.h, s.m) && WellFormed(s.h) && InBounds(s) && Matching(s) && Agrees(s, st, es, fr)
    requires id < |s.h.exprs| && s.h.exprs[id].HirCall?
    requires Placed(s, LowerArg(s.h, s.fi, st, id, i).0) && |Fn(s).body| <= fr.pc + steps
    ensures var (st', r) := LowerArg(s.h, s.fi, st, id, i);
      Simulates(s, st.registerCount, fr, steps, EvalArg(s.h, EnvOf(s), es, id, i), st', r, fr')
    decreases s.depth, 0, Rank(s.h, id), 1
  {
    OperandsBefore(s, id);
    fr' := fr;
    if i < |s.h.exprs[id].args| {
      fr' := OperandSim(s, st, es, fr, s.h.exprs[id].args[i], steps);
    }
  }

  lemma {:induction false} CallSim(s: Sim, st: LState, es: EvalState, fr: Frame, id: nat, steps: nat)
    returns (fr': Frame)
    requires Compiled(s.h, s.m) && WellFormed(s.h) && InBounds(s) && Matching(s) && Agrees(s, st, es, fr)
    requires id < |s.h.exprs| && s.h.exprs[id].HirCall? && id !in st.memo && id !in es.memo
    requires Placed(s, LowerOperand(s.h, s.fi, st, id).0) && |Fn(s).body| <= fr.pc + steps
    ensures var (st', r) := LowerOperand(s.h, s.fi, st, id);
      Simulates(s, st.registerCount, fr, steps, Eval(s.h, EnvOf(s), es, id), st', r, fr')
    decreases s.depth, 0, Rank(s.h, id), 2
  {
    hide Compiled, Matching, Placed, ToU16, Agrees, Reaches, Consistent, CallTarget, BinaryOpcode, UnaryOpcode, EvalBinary, EvalUnary, Keep, LowerOperand, LowerArg, Define, Continues, Keeps, Simulates;
    OperandsBefore(s, id);
    AgreesConsistent(s, st, es, fr);
    LowerCallIs(s, st, id);
    var target := CallTarget(s.h, s.fi, id);
    var (st1, arg0) := LowerArg(s.h, s.fi, st, id, 0);
    var (st2, arg1) := LowerArg(s.h, s.fi, st1, id, 1);
    ArgContinues(s.h, s.fi, st, id, 0);
    ArgContinues(s.h, s.fi, st1, id, 1);
    PlacedBeforeDefine(s, st2, id, if target.Extern? then CallExtern else CallFn, arg0, arg1, ToU16(target.index));
    PlacedBefore(s, st1, st2);
    CountGrows(st, st1);
    CountGrows(st1, st2);
    var fr1 := ArgSim(s, st, es, fr, id, 0, steps);
    fr' := fr1;
    match EvalArg(s.h, EnvOf(s), es, id, 0)
    case Stop(m) => StopSimulates(s, st.registerCount, fr, steps, m, st1, arg0, fr1);
    case Val(x, es1) =>
      SimulatedValue(s, st.registerCount, fr, steps, x, es1, st1, arg0, fr1);
      var steps1 := steps - (fr1.pc - fr.pc);
      var fr2 := ArgSim(s, st1, es1, fr1, id, 1, steps1);
      fr' := fr2;
      var (st', r) := LowerOperand(s.h, s.fi, st, id);
      match EvalArg(s.h, EnvOf(s), es1, id, 1)
      case Stop(m) =>
        StopSimulates(s, st1.registerCount, fr1, steps1, m, st2, arg1, fr2);
        Compose(s, st.registerCount, fr, steps, st1.registerCount, fr1, Eval(s.h, EnvOf(s), es, id), st', r, fr');
      case Val(y, es2) =>
        SimulatedValue(s, st1.registerCount, fr1, steps1, y, es2, st2, arg1, fr2);
        fr' := CallStepSim(s, st2, es2, fr2, id, arg0, arg1, steps1 - (fr2.pc - fr1.pc));
        Compose(s, st1.registerCount, fr1, steps1, st2.registerCount, fr2, Eval(s.h, EnvOf(s), es, id), st', r, fr');
        Compose(s, st.registerCount, fr, steps, st1.registerCount, fr1, Eval(s.h, EnvOf(s), es, id), st', r, fr');
  }

  /** The call instruction, its arguments being in registers. */
  lemma {:induction false} CallStepSim(s: Sim, st: LState, es: EvalState, fr: Frame, id: nat, arg0: nat, arg1: nat, steps: nat)
    returns (fr': Frame)
    requires Compiled(s.h, s.m) && WellFormed(s.h) && InBounds(s) && Matching(s) && Agrees(s, st, es, fr)
    requires id < |s.h.exprs| && s.h.exprs[id].HirCall? && s.h.exprs[id].callee < |s.h.exprs|
    requires arg0 < st.registerCount && arg1 < st.registerCount
    requires var t := CallTarget(s.h, s.fi, id);
      && !t.NotFound?
      && Placed(s, Define(st, id, if t.Extern? then CallExtern else CallFn, arg0, arg1, ToU16(t.index)).0)
    requires |Fn(s).body| <= fr.pc + steps
    ensures var t := CallTarget(s.h, s.fi, id);
      Simulates(s, st.registerCount, fr, steps, EvalCall(s.h, EnvOf(s), es, id, fr.regs[arg0], fr.regs[arg1]),
        Define(st, id, if t.Extern? then CallExtern else CallFn, arg0, arg1, ToU16(t.index)).0, st.registerCount, fr')
    decreases s.depth, 0, Rank(s.h, id), 0
  {
    hide Compiled, Placed, ToU16, Agrees, Reaches, Consistent, CallTarget, Keep, CallLibrary, EvalFunction, Define, Simulates, EvalCall;
    AgreesConsistent(s, st, es, fr);
    EvalTargetIs(s, es, id, fr.regs[arg0], fr.regs[arg1]);
    match CallTarget(s.h, s.fi, id)
    case Extern(e, name) =>
      fr' := ExternStepSim(s, st, es, fr, id, e, name, arg0, arg1, steps);
    case Function(c) =>
      TargetFacts(s, id);
      fr' := FunctionStepSim(s, st, es, fr, id, c, arg0, arg1, steps);
    case NotFound =>
  }

  /** What evaluating a call to function `c` comes to, once its arguments are known. */
  function EvalInto(h: HirModule, env: Env, es: EvalState, id: nat, callee: nat, x: int, y: int): Result
    requires WellFormed(h) && callee < |h.fns|
  {
    if |h.fns[callee].params| > 2 then Stop(Ends(Trapped(es.output)))
    else if env.depth == 0 then Stop(Ends(OutOfFuel))
    else match EvalFunction(h, callee, [x, y][..|h.fns[callee].params|], env.strings, es.output, env.depth - 1)
      case Ends(Returned(v, out)) => Keep(id, Int64.Value(v), es.(output := out))
      case m => Stop(m)
  }

  function EvalOut(strings: seq<string>, es: EvalState, id: nat, name: string, x: int): Result
  {
    match CallLibrary(strings, name, x, es.output)
    case Returned(_, out) => Keep(id, Int64.Value(0), es.(output := out))
    case o => Stop(Ends(o))
  }

  lemma EvalTargetIs(s: Sim, es: EvalState, id: nat, x: int, y: int)
    requires WellFormed(s.h) && InBounds(s) && id < |s.h.exprs| && s.h.exprs[id].HirCall?
    requires s.h.exprs[id].callee < |s.h.exprs|
    ensures match CallTarget(s.h, s.fi, id)
      case Extern(_, name) => EvalCall(s.h, EnvOf(s), es, id, x, y) == EvalOut(s.m.strings, es, id, name, x)
      case Function(c) =>
        EvalCall(s.h, EnvOf(s), es, id, x, y) == EvalInto(s.h, EnvOf(s), es, id, Emitted(s.h, s.fi + 1)[c], x, y)
      case NotFound => true
  {
    hide WellFormed, CallTarget, Emitted, Keep, EvalFunction, CallLibrary;
  }

  lemma TargetFacts(s: Sim, id: nat)
    requires Compiled(s.h, s.m) && WellFormed(s.h) && Matching(s)
    requires id < |s.h.exprs| && s.h.exprs[id].HirCall? && s.h.exprs[id].callee < |s.h.exprs|
    requires CallTarget(s.h, s.fi, id).Function?
    ensures var c := CallTarget(s.h, s.fi, id).index;
      && c < |Emitted(s.h, |s.h.fns|)| && Emitted(s.h, |s.h.fns|)[c] == Emitted(s.h, s.fi + 1)[c] && ToU16(c) == c
  {
    hide Compiled, CallTarget;
    EmittedPrefix(s.h, s.fi + 1, |s.h.fns|);
  }

  lemma {:induction false} FunctionStepSim(s: Sim, st: LState, es: EvalState, fr: Frame, id: nat, c: nat, arg0: nat, arg1: nat, steps: nat)
    returns (fr': Frame)
    requires Compiled(s.h, s.m) && WellFormed(s.h) && InBounds(s) && Matching(s) && Agrees(s, st, es, fr)
    requires arg0 < st.registerCount && arg1 < st.registerCount && ToU16(c) == c
    requires c < |Emitted(s.h, |s.h.fns|)|
    requires Placed(s, Define(st, id, CallFn, arg0, arg1, c).0) && |Fn(s).body| <= fr.pc + steps
    ensures Simulates(s, st.registerCount, fr, steps,
        EvalInto(s.h, EnvOf(s), es, id, Emitted(s.h, |s.h.fns|)[c], fr.regs[arg0], fr.regs[arg1]),
        Define(st, id, CallFn, arg0, arg1, c).0, st.registerCount, fr')
    decreases s.depth, 0, 0, 0
  {
    hide Compiled, WellFormed, Placed, Reaches, Consistent, EvalFunction, Define, Emitted, ToU16;
    fr' := fr;
    AgreesConsistent(s, st, es, fr);
    Fetched(s, st, id, CallFn, arg0, arg1, c, fr);
    var callee := CalleeShape(s.h, s.m, c);
    var params := s.h.fns[callee].params;
    if |params| > 2 {
      fr' := DefineSimulates(s, st, es, fr, id, CallFn, arg0, arg1, c, Int64.Trap, es.output, steps);
    } else {
      var regs := CalleeRegs(s.m.functions[c], fr.regs[arg0], fr.regs[arg1]).value;
      if s.depth == 0 {
        HaltSimulates(s, st, fr, steps, OutOfFuel);
      } else {
        var args := [fr.regs[arg0], fr.regs[arg1]][..|params|];
        FunctionSim(s.h, s.m, c, callee, args, regs, fr.output, s.depth - 1, s.cap);
        var outcome := Run(s.m, s.m.functions[c], Start(s.m.functions[c], regs, fr.output), s.depth - 1, s.cap, s.cap);
        match EvalFunction(s.h, callee, args, s.m.strings, es.output, s.depth - 1)
        case Ends(Returned(v, out)) =>
          fr' := DefineSimulates(s, st, es, fr, id, CallFn, arg0, arg1, c, Int64.Value(v), out, steps);
        case Ends(o) => HaltSimulates(s, st, fr, steps, o);
      }
    }
  }

  lemma HaltSimulates(s: Sim, st: LState, fr: Frame, steps: nat, o: Outcome)
    requires InBounds(s) && fr.pc < |Fn(s).body| <= fr.pc + steps
    requires Advance(s.m, Fn(s), fr, s.depth, s.cap) == Halt(o)
    ensures forall st', r: nat, fr' :: Simulates(s, st.registerCount, fr, steps, Stop(Ends(o)), st', r, fr')
  {
    hide Advance, Agrees;
  }

  /** A finished function's record, as far as callers depend on it. */
  lemma CalleeShape(h: HirModule, m: Module, c: nat) returns (callee: nat)
    requires Compiled(h, m) && c < |Emitted(h, |h.fns|)|
    ensures callee == Emitted(h, |h.fns|)[c] && callee < |h.fns| && c < |m.functions|
    ensures var params := h.fns[callee].params;
      m.functions[c].paramCount == |params| && Max(|params|, 1) <= m.functions[c].registerCount
  {
    hide WellFormed, Emitted, IsStraight, ExternNames, LowerFunction, SourceName, Distinct, FitsU16, AllStraight, LowerModule;
    var m0, ok;
    callee, m0, ok := FunctionAt(h, m, c);
    FunctionContinues(h, callee, m0, ok);
  }

  lemma ExternStepSim(s: Sim, st: LState, es: EvalState, fr: Frame, id: nat, e: nat, name: string, arg0: nat, arg1: nat, steps: nat)
    returns (fr': Frame)
    requires InBounds(s) && Agrees(s, st, es, fr) && arg0 < st.registerCount
    requires e < |s.m.externs| <= U16 && s.m.externs[e] == name
    requires Placed(s, Define(st, id, CallExtern, arg0, arg1, ToU16(e)).0) && |Fn(s).body| <= fr.pc + steps
    ensures Simulates(s, st.registerCount, fr, steps, EvalOut(s.m.strings, es, id, name, fr.regs[arg0]),
      Define(st, id, CallExtern, arg0, arg1, ToU16(e)).0, st.registerCount, fr')
  {
    Fetched(s, st, id, CallExtern, arg0, arg1, ToU16(e), fr);
    assert fr.regs[st.registerCount := 0] == fr.regs;
    var called := CallLibrary(s.m.strings, name, fr.regs[arg0], es.output);
    var a := if called.Returned? then Int64.Value(0) else Int64.Trap;
    fr' := DefineSimulates(s, st, es, fr, id, CallExtern, arg0, arg1, ToU16(e), a, called.output, steps);
  }

  /** How function `k` of the finished module came about. */
  lemma FunctionAt(h: HirModule, m: Module, k: nat) returns (fi: nat, m0: Module, ok: bool)
    requires Compiled(h, m) && k < |Emitted(h, |h.fns|)|
    ensures fi == Emitted(h, |h.fns|)[k] && fi < |h.fns| && IsStraight(h, h.fns[fi]) && k < |m.functions|
    ensures Distinct(m0.strings) && |Emitted(h, fi + 1)| <= |m.functions| && ExternNames(h, fi) <= m.externs
    ensures var st := LowerFunction(h, fi, m0, ok);
      m.functions[k] == Finish(h.fns[fi], st) && st.ok && st.constants <= m.constants && st.strings <= m.strings
  {
    hide Emitted, ExternNames, FitsU16, AllStraight, LowerUpTo, LowerModule, Compiled, Distinct, SourceName, IsStraight, BlockInRange;
    fi := Emitted(h, |h.fns|)[k];
    EmittedAt(h, |h.fns|, k);
    CompiledAt(h, m, fi);
    m0, ok := LowerUpTo(h, fi).0, LowerUpTo(h, fi).1;
  }

  /** The lowering up to a function, and what remains of it in the finished module. */
  lemma {:induction false} CompiledAt(h: HirModule, m: Module, fi: nat)
    requires Compiled(h, m) && fi < |h.fns| && IsEmitted(h.fns[fi])
    ensures WellFormed(h) && IsStraight(h, h.fns[fi])
    ensures var (m0, ok) := LowerUpTo(h, fi);
      var (m1, ok1) := AddFunction(h, fi, m0, ok);
      && Distinct(m0.strings) && m0.externs == ExternNames(h, fi) && |m0.functions| == |Emitted(h, fi)|
      && ok1 && m1.functions <= m.functions && m1.constants <= m.constants && m1.strings <= m.strings
      && ExternNames(h, fi) <= m.externs
  {
    hide FitsU16, Distinct, ExternNames, Emitted, IsStraight, IsEmitted;
    UpToInvariant(h, fi);
    UpToGrows(h, fi + 1, |h.fns|);
    UpToGrows(h, fi, |h.fns|);
  }

  /** The `k`-th emitted function is emitted when exactly `k` functions have been. */
  lemma {:induction false} EmittedAt(h: HirModule, n: nat, k: nat)
    requires n <= |h.fns| && k < |Emitted(h, n)|
    ensures var fi := Emitted(h, n)[k];
      fi < n && IsEmitted(h.fns[fi]) && |Emitted(h, fi)| == k && Emitted(h, fi + 1) == Emitted(h, fi) + [fi]
    decreases n
  {
    hide IsEmitted;
    if k < |Emitted(h, n - 1)| {
      EmittedAt(h, n - 1, k);
    }
  }

  /** The same for a whole instruction, whose value is not kept. */
  ghost predicate Executes(s: Sim, fr: Frame, steps: nat, res: Result, st': LState, fr': Frame)
    requires InBounds(s)
  {
    match res
    case Val(_, es') => Agrees(s, st', es', fr') && Reaches(s, fr, steps, fr')
    case Stop(Ends(o)) => RunFrom(s, fr, steps) == o
    case Stop(Rejected) => false
  }

  /** Growing the slot count changes nothing at run time. */
  lemma GrowSlotsAgrees(s: Sim, st: LState, es: EvalState, fr: Frame, slot: nat)
    requires InBounds(s) && Agrees(s, st, es, fr)
    ensures Agrees(s, GrowSlots(st, slot), es, fr)
  {
  }

  lemma StepsStore(m: Module, f: Function, fr: Frame, depth: nat, cap: nat)
    requires fr.pc < |f.body| && f.body[fr.pc].op.SlotStore?
    requires f.body[fr.pc].imm < |fr.slots| && f.body[fr.pc].b < |fr.regs|
    ensures var i := f.body[fr.pc];
      Advance(m, f, fr, depth, cap) == Next(fr.(pc := fr.pc + 1, slots := fr.slots[i.imm := fr.regs[i.b]]))
  {
  }

  /** The store instruction, its value being in a register. */
  lemma StoreSim(s: Sim, st: LState, es: EvalState, fr: Frame, slot: nat, r: nat, steps: nat) returns (fr': Frame)
    requires InBounds(s) && Agrees(s, st, es, fr) && r < st.registerCount && slot < U16 - 1
    requires Placed(s, Emit(GrowSlots(st, slot), Op.SlotStore, 0, r, 0, ToU16(slot)))
    requires |Fn(s).body| <= fr.pc + steps
    ensures slot < |es.slots|
    ensures Executes(s, fr, steps, Val(0, es.(slots := es.slots[slot := fr.regs[r]])),
      Emit(GrowSlots(st, slot), Op.SlotStore, 0, r, 0, ToU16(slot)), fr')
  {
    hide Advance, MemoAgrees, MemoBelow, ZeroFrom, ParamsAgree, Distinct;
    var st' := Emit(GrowSlots(st, slot), Op.SlotStore, 0, r, 0, ToU16(slot));
    assert Fn(s).body[fr.pc] == st'.body[fr.pc];
    StepsStore(s.m, Fn(s), fr, s.depth, s.cap);
    fr' := fr.(pc := fr.pc + 1, slots := fr.slots[slot := fr.regs[r]]);
  }

  lemma {:induction false} InstSim(s: Sim, st: LState, es: EvalState, fr: Frame, id: nat, steps: nat)
    returns (fr': Frame)
    requires Compiled(s.h, s.m) && WellFormed(s.h) && InBounds(s) && Matching(s) && Agrees(s, st, es, fr)
    requires id < |s.h.exprs| && Placed(s, LowerInst(s.h, s.fi, st, id)) && |Fn(s).body| <= fr.pc + steps
    ensures Executes(s, fr, steps, EvalInst(s.h, EnvOf(s), es, id), LowerInst(s.h, s.fi, st, id), fr')
    decreases s.depth, 1, 0
  {
    hide Compiled, Matching, WellFormed, Consistent, Eval, LowerOperand, RunFrom;
    fr' := fr;
    OperandsBefore(s, id);
    match s.h.exprs[id]
    case SlotAlloca(slot) =>
      GrowSlotsAgrees(s, st, es, fr, slot);
      NothingExecutes(s, GrowSlots(st, slot), es, fr, steps);
    case HirRet(_) =>
      NothingExecutes(s, st, es, fr, steps);
    case SlotStore(slot, v) =>
      var (st1, r) := LowerOperand(s.h, s.fi, st, v);
      fr' := OperandSim(s, st, es, fr, v, steps);
      match Eval(s.h, EnvOf(s), es, v) {
        case Stop(m) => StopExecutes(s, fr, steps, m, st1, fr');
        case Val(x, es1) =>
          SimulatedValue(s, st.registerCount, fr, steps, x, es1, st1, r, fr');
          SimulatedRegister(s, st.registerCount, fr, steps, x, es1, st1, r, fr');
          var fr1 := fr';
          fr' := StoreSim(s, st1, es1, fr1, slot, r, steps - (fr1.pc - fr.pc));
      }
    case _ =>
      fr' := OperandSim(s, st, es, fr, id, steps);
      var (st1, r) := LowerOperand(s.h, s.fi, st, id);
  }

  lemma SimulatedRegister(s: Sim, n: nat, fr: Frame, steps: nat, v: int, es': EvalState, st': LState, r: nat, fr': Frame)
    requires InBounds(s) && Simulates(s, n, fr, steps, Val(v, es'), st', r, fr')
    ensures r < st'.registerCount
  {
    hide Agrees, Reaches;
  }

  lemma NothingExecutes(s: Sim, st: LState, es: EvalState, fr: Frame, steps: nat)
    requires InBounds(s) && Agrees(s, st, es, fr)
    ensures Executes(s, fr, steps, Val(0, es), st, fr)
  {
    hide Agrees;
  }

  lemma StopExecutes(s: Sim, fr: Frame, steps: nat, m: Meaning, st': LState, fr': Frame)
    requires InBounds(s) && Executes(s, fr, steps, Stop(m), st', fr')
    ensures forall st1, fr1 :: Executes(s, fr, steps, Stop(m), st1, fr1)
  {
    hide Agrees, Reaches;
  }

  lemma ExecutedValue(s: Sim, fr: Frame, steps: nat, es': EvalState, st': LState, fr': Frame)
    requires InBounds(s) && (exists v :: Executes(s, fr, steps, Val(v, es'), st', fr')) && |Fn(s).body| <= fr.pc + steps
    ensures Agrees(s, st', es', fr') && Reaches(s, fr, steps, fr') && fr.pc <= fr'.pc <= fr.pc + steps
    ensures |Fn(s).body| <= fr'.pc + (steps - (fr'.pc - fr.pc))
  {
  }

  lemma {:induction false} InstsSim(s: Sim, st: LState, es: EvalState, fr: Frame, ids: seq<nat>, steps: nat)
    returns (fr': Frame)
    requires Compiled(s.h, s.m) && WellFormed(s.h) && InBounds(s) && Matching(s) && Agrees(s, st, es, fr)
    requires forall i :: 0 <= i < |ids| ==> ids[i] < |s.h.exprs|
    requires Placed(s, LowerInsts(s.h, s.fi, st, ids)) && |Fn(s).body| <= fr.pc + steps
    ensures Executes(s, fr, steps, EvalInsts(s.h, EnvOf(s), es, ids), LowerInsts(s.h, s.fi, st, ids), fr')
    decreases s.depth, 1, |ids| + 1
  {
    hide Compiled, Matching, WellFormed, Placed, Consistent, EvalInst, LowerInst, Continues;
    fr' := fr;
    if ids == [] {
      NothingExecutes(s, st, es, fr, steps);
    } else {
      var st1 := LowerInst(s.h, s.fi, st, ids[0]);
      AgreesConsistent(s, st, es, fr);
      InstContinues(s.h, s.fi, st, ids[0]);
      InstsContinue(s.h, s.fi, st1, ids[1..]);
      PlacedBefore(s, st1, LowerInsts(s.h, s.fi, st1, ids[1..]));
      fr' := InstSim(s, st, es, fr, ids[0], steps);
      match EvalInst(s.h, EnvOf(s), es, ids[0])
      case Stop(m) => StopExecutes(s, fr, steps, m, st1, fr');
      case Val(_, es1) =>
        var fr1 := fr';
        fr' := InstsSim(s, st1, es1, fr1, ids[1..], steps - (fr1.pc - fr.pc));
    }
  }

  lemma CapAt(m: Module, cap: nat, k: nat)
    requires CapCovers(m, cap) && k < |m.functions|
    ensures |m.functions[k].body| <= cap
  {
  }

  lemma ItMatches(s: Sim, m0: Module, ok: bool)
    requires Compiled(s.h, s.m) && InBounds(s) && CapCovers(s.m, s.cap)
    requires ExternNames(s.h, s.fi) <= s.m.externs && |Emitted(s.h, s.fi + 1)| <= |s.m.functions|
    ensures Matching(s)
  {
    hide WellFormed, LowerModule, Emitted, ExternNames, AllStraight, CapCovers, SlotFits;
  }

  lemma FinishedIsPlaced(s: Sim, st: LState)
    requires InBounds(s) && Fn(s) == Finish(s.h.fns[s.fi], st) && st.ok
    requires st.constants <= s.m.constants && st.strings <= s.m.strings
    ensures Placed(s, st)
  {
    hide SourceName;
  }

  /** What follows a straight function's instructions: its return value, if it has one. */
  lemma EvalFunctionIs(h: HirModule, fi: nat, args: seq<int>, strings: seq<string>, output: string, depth: nat)
    requires WellFormed(h) && fi < |h.fns| && IsStraight(h, h.fns[fi])
    ensures var b := h.fns[fi].blocks[0];
      var env := Env(fi, args, strings, depth);
      var body := EvalInsts(h, env, EvalState(map[], Zeros(SlotBound(h, b.insts)), output), b.insts);
      EvalFunction(h, fi, args, strings, output, depth) ==
        if body.Stop? then body.m else EvalReturn(h, env, body.st, b.terminator.value)
  {
    hide WellFormed, EvalInsts, Eval, SlotBound;
  }

  lemma {:induction false} FunctionSim(h: HirModule, m: Module, k: nat, fi: nat, args: seq<int>, regs: seq<int>,
                                       output: string, depth: nat, cap: nat)
    requires Compiled(h, m) && WellFormed(h) && CapCovers(m, cap)
    requires k < |Emitted(h, |h.fns|)| && k < |m.functions|
    requires fi == Emitted(h, |h.fns|)[k] && |args| == |h.fns[fi].params|
    requires |regs| == m.functions[k].registerCount && ParamsAgree(args, regs) && ZeroFrom(Max(|args|, 1), regs)
    ensures match EvalFunction(h, fi, args, m.strings, output, depth)
      case Ends(o) => Run(m, m.functions[k], Start(m.functions[k], regs, output), depth, cap, cap) == o
      case Rejected => false
    decreases depth, 2
  {
    hide Compiled, Matching, WellFormed, Placed, Agrees, Reaches, Consistent, LowerFunction, LowerInsts, LowerTerminator,
      SlotBound, EvalInsts, Eval, Executes, Emitted, ExternNames, Run, Start, ParamsAgree, ZeroFrom, CapCovers, SourceName,
      Distinct;
    var s := Sim(h, m, fi, k, args, depth, cap);
    var f := h.fns[fi];
    var _, m0, ok := FunctionAt(h, m, k);
    var b := f.blocks[0];
    StraightLowering(h, fi, m0, ok);
    var st0 := Begin(f, m0, ok);
    var st1 := LowerInsts(h, fi, st0, b.insts);
    var st2 := LowerTerminator(h, fi, st1, b.terminator.value);
    ItMatches(s, m0, ok);
    FinishedIsPlaced(s, st2);
    PlacedBefore(s, st1, st2);
    var es0 := EvalState(map[], Zeros(SlotBound(h, b.insts)), output);
    var fr0 := Start(m.functions[k], regs, output);
    StartAgrees(s, m0, ok, regs, output);
    CapAt(m, cap, k);
    var fr1 := InstsSim(s, st0, es0, fr0, b.insts, cap);
    EvalFunctionIs(h, fi, args, m.strings, output, depth);
    match EvalInsts(h, EnvOf(s), es0, b.insts)
    case Stop(o) => StopIs(s, fr0, cap, o, st1, fr1);
    case Val(_, es1) =>
      ExecutedValue(s, fr0, cap, es1, st1, fr1);
      ReturnSim(s, st1, es1, fr1, b.terminator.value, cap - fr1.pc);
      ReachesOutcome(s, fr0, cap, fr1);
  }

  lemma ReachesOutcome(s: Sim, fr: Frame, steps: nat, fr': Frame)
    requires InBounds(s) && Reaches(s, fr, steps, fr')
    ensures Run(s.m, s.m.functions[s.k], fr, s.depth, steps, s.cap) ==
            Run(s.m, s.m.functions[s.k], fr', s.depth, steps - (fr'.pc - fr.pc), s.cap)
  {
    hide Run;
  }

  /** A straight function is lowered as its instructions followed by its return. */
  lemma StraightLowering(h: HirModule, fi: nat, m: Module, ok: bool)
    requires WellFormed(h) && fi < |h.fns| && IsStraight(h, h.fns[fi]) && Distinct(m.strings)
    ensures var b := h.fns[fi].blocks[0];
      var st1 := LowerInsts(h, fi, Begin(h.fns[fi], m, ok), b.insts);
      && LowerFunction(h, fi, m, ok) == LowerTerminator(h, fi, st1, b.terminator.value)
      && Consistent(h, fi, Begin(h.fns[fi], m, ok)) && Consistent(h, fi, st1)
      && Continues(Begin(h.fns[fi], m, ok), st1)
      && Continues(st1, LowerTerminator(h, fi, st1, b.terminator.value))
  {
    hide WellFormed, LowerInsts, LowerTerminator, Continues;
    var b := h.fns[fi].blocks[0];
    var st0 := Begin(h.fns[fi], m, ok);
    assert h.fns[fi].blocks == [b] && h.fns[fi].blocks[1..] == [];
    assert LowerBlocks(h, fi, LowerBlock(h, fi, st0, b), []) == LowerBlock(h, fi, st0, b);
    FunctionContinues(h, fi, m, ok);
    InstsContinue(h, fi, st0, b.insts);
    TerminatorContinues(h, fi, LowerInsts(h, fi, st0, b.insts), b.terminator.value);
  }

  /** Lowering operands leaves the slot count alone. */
  lemma {:induction false} OperandSlots(h: HirModule, fi: nat, st: LState, id: nat)
    requires WellFormed(h) && fi < |h.fns|
    ensures LowerOperand(h, fi, st, id).0.slotCount == st.slotCount
    decreases Rank(h, id)
  {
    hide WellFormed, CallTarget, ToU16, BinaryOpcode, UnaryOpcode, FirstIndex;
    if id < |h.exprs| && id !in st.memo {
      InPool(h, id);
      match h.exprs[id]
      case Binary(_, l, r) =>
        OperandSlots(h, fi, st, l);
        OperandSlots(h, fi, LowerOperand(h, fi, st, l).0, r);
      case Unary(_, o) => OperandSlots(h, fi, st, o);
      case HirCall(_, _, args) =>
        if 0 < |args| { OperandSlots(h, fi, st, args[0]); }
        if 1 < |args| { OperandSlots(h, fi, LowerArg(h, fi, st, id, 0).0, args[1]); }
      case _ =>
    }
  }

  lemma {:induction false} InstsSlots(h: HirModule, fi: nat, st: LState, ids: seq<nat>)
    requires WellFormed(h) && fi < |h.fns| && forall i :: 0 <= i < |ids| ==> ids[i] < |h.exprs|
    requires forall id :: 0 <= id < |h.exprs| ==> SlotFits(h.exprs[id])
    ensures LowerInsts(h, fi, st, ids).slotCount == Max(st.slotCount, SlotBound(h, ids))
    decreases |ids|
  {
    hide WellFormed, LowerOperand;
    if ids != [] {
      var id := ids[0];
      assert SlotFits(h.exprs[id]);
      match h.exprs[id] {
        case SlotStore(_, v) => OperandSlots(h, fi, st, v);
        case SlotAlloca(_) =>
        case HirRet(_) =>
        case _ => OperandSlots(h, fi, st, id);
      }
      InstsSlots(h, fi, LowerInst(h, fi, st, id), ids[1..]);
    }
  }

  lemma {:induction false} TerminatorSlots(h: HirModule, fi: nat, st: LState, id: nat)
    requires WellFormed(h) && fi < |h.fns| && id < |h.exprs| && h.exprs[id].HirRet?
    ensures LowerTerminator(h, fi, st, id).slotCount == st.slotCount
  {
    hide WellFormed, LowerOperand;
    if h.exprs[id].result.Some? {
      OperandSlots(h, fi, st, h.exprs[id].result.value);
    }
  }

  /** The first frame of a call agrees with having evaluated nothing. */
  lemma StartAgrees(s: Sim, m0: Module, ok: bool, regs: seq<int>, output: string)
    requires Matching(s) && InBounds(s) && WellFormed(s.h) && IsStraight(s.h, s.h.fns[s.fi]) && Distinct(m0.strings)
    requires Fn(s) == Finish(s.h.fns[s.fi], LowerFunction(s.h, s.fi, m0, ok))
    requires |regs| == Fn(s).registerCount && ParamsAgree(s.args, regs) && ZeroFrom(Max(|s.args|, 1), regs)
    ensures Agrees(s, Begin(s.h.fns[s.fi], m0, ok),
      EvalState(map[], Zeros(SlotBound(s.h, s.h.fns[s.fi].blocks[0].insts)), output), Start(Fn(s), regs, output))
    ensures Start(Fn(s), regs, output).pc == 0
  {
    hide WellFormed, LowerInsts, LowerTerminator, LowerFunction, LowerBlocks, SlotBound, SourceName, SlotFits, ExternNames, Emitted, CapCovers;
    var b := s.h.fns[s.fi].blocks[0];
    var st0 := Begin(s.h.fns[s.fi], m0, ok);
    StraightLowering(s.h, s.fi, m0, ok);
    InstsSlots(s.h, s.fi, st0, b.insts);
    TerminatorSlots(s.h, s.fi, LowerInsts(s.h, s.fi, st0, b.insts), b.terminator.value);
  }

  function EvalReturn(h: HirModule, env: Env, es: EvalState, id: nat): Meaning
    requires WellFormed(h) && env.fi < |h.fns| && id < |h.exprs| && h.exprs[id].HirRet?
  {
    match h.exprs[id].result
    case None => Ends(Returned(0, es.output))
    case Some(v) =>
      match Eval(h, env, es, v)
      case Stop(m) => m
      case Val(x, es1) => Ends(Returned(x, es1.output))
  }

  lemma StopIs(s: Sim, fr: Frame, steps: nat, m: Meaning, st': LState, fr': Frame)
    requires InBounds(s) && Executes(s, fr, steps, Stop(m), st', fr')
    ensures m.Ends? && Run(s.m, s.m.functions[s.k], fr, s.depth, steps, s.cap) == m.outcome
  {
  }

  /** The return instruction ends the run with the evaluated value. */
  lemma {:induction false} ReturnSim(s: Sim, st: LState, es: EvalState, fr: Frame, id: nat, steps: nat)
    requires Compiled(s.h, s.m) && WellFormed(s.h) && InBounds(s) && Matching(s) && Agrees(s, st, es, fr)
    requires id < |s.h.exprs| && s.h.exprs[id].HirRet? && |Fn(s).body| <= fr.pc + steps
    requires var st2 := LowerTerminator(s.h, s.fi, st, id);
      Placed(s, st2) && Fn(s) == Finish(s.h.fns[s.fi], st2)
    ensures match EvalReturn(s.h, EnvOf(s), es, id)
      case Ends(o) => Run(s.m, s.m.functions[s.k], fr, s.depth, steps, s.cap) == o
      case Rejected => false
    decreases s.depth, 0, |s.h.exprs| + 2
  {
    var st2 := LowerTerminator(s.h, s.fi, st, id);
    match s.h.exprs[id].result
    case None =>
      assert Fn(s).body[fr.pc] == st2.body[fr.pc];
    case Some(v) =>
      var (st1, r) := LowerOperand(s.h, s.fi, st, v);
      assert Placed(s, st1);
      var fr1 := OperandSim(s, st, es, fr, v, steps);
      match Eval(s.h, EnvOf(s), es, v) {
        case Stop(m) =>
        case Val(x, es1) =>
          SimulatedValue(s, st.registerCount, fr, steps, x, es1, st1, r, fr1);
          assert Fn(s).body[fr1.pc] == st2.body[fr1.pc];
          ReachesOutcome(s, fr, steps, fr1);
      }
  }

  lemma FunctionCount(h: HirModule, m: Module)
    requires Compiled(h, m)
    ensures |m.functions| == |Emitted(h, |h.fns|)|
  {
    hide WellFormed, LowerUpTo, AllStraight, FitsU16, Emitted, ExternNames;
    UpToInvariant(h, |h.fns|);
  }
}
