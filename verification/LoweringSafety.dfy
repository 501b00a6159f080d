/** Safety of the emitted code over whole runs, and termination. */
module LoweringSafety {
  import opened Collections
  import opened ExecIr
  import opened IrVm
  import opened Hir
  import opened HirToIr
  import opened LoweringCorrect
  import opened Reachability

  // ---- What a function uses ------------------------------------------------------------------

  function OperandGraph(h: HirModule): Graph<nat> {
    map id | 0 <= id < |h.exprs| :: set o | o in Operands(h, id) && o < |h.exprs|
  }

  /** The block lists it, or ends in it; a return that is only listed emits nothing. */
  predicate IsRoot(h: HirModule, b: Block, id: nat) {
    && id < |h.exprs|
    && ((id in b.insts && !h.exprs[id].HirRet?) || b.terminator == Some(id))
  }

  /** Code for the expression is emitted as part of the function. */
  ghost predicate Uses(h: HirModule, fi: nat, id: nat)
    requires fi < |h.fns|
  {
    exists b, root :: 0 <= b < |h.fns[fi].blocks| && IsRoot(h, h.fns[fi].blocks[b], root) && ReachesOrIs(OperandGraph(h), root, id)
  }

  /** The number of an emitted function that some call the function uses resolves to. */
  ghost predicate CallsNumber(h: HirModule, fi: nat, k: nat)
    requires fi < |h.fns|
  {
    exists id: nat :: Uses(h, fi, id) && id < |h.exprs| && h.exprs[id].HirCall? && h.exprs[id].callee < |h.exprs| &&
                 CallTarget(h, fi, id) == Target.Function(k)
  }

  ghost predicate LoadsSlot(h: HirModule, fi: nat, slot: nat)
    requires fi < |h.fns|
  {
    exists id: nat :: Uses(h, fi, id) && id < |h.exprs| && h.exprs[id] == HirExpr.SlotLoad(slot)
  }

  /** Expressions closed under operands, the functions their calls go to, and the slots they load. */
  datatype Scope = Scope(ghost used: iset<nat>, ghost targets: iset<nat>, ghost loads: iset<nat>)

  ghost function ScopeOf(h: HirModule, fi: nat): Scope
    requires fi < |h.fns|
  {
    Scope(iset id | Uses(h, fi, id), iset k | CallsNumber(h, fi, k), iset slot | LoadsSlot(h, fi, slot))
  }

  // ---- The emitted code stays in bounds ------------------------------------------------------

  /** The sizes instruction fields are checked against. */
  datatype Limits = Limits(
    registers: nat, constants: nat, strings: nat, slots: nat, ghost targets: iset<nat>, ghost loads: iset<nat>, externs: nat)

  /** Every register and table index of an instruction is in range, calls and slot loads are those of
      the scope, and the instruction falls through. */
  ghost predicate InstrInBounds(i: Instr, l: Limits) {
    && i.a < l.registers && i.b < l.registers && i.c < l.registers
    && match i.op
       case LoadConst => i.imm < l.constants
       case LoadString => i.imm < l.strings
       case SlotLoad => i.imm in l.loads
       case SlotStore => i.imm < l.slots
       case CallFn => i.imm in l.targets
       case CallExtern => i.imm < l.externs
       case Jump => false
       case Branch => false
       case Ret => false
       case _ => true
  }

  ghost predicate BodyInBounds(body: seq<Instr>, l: Limits) {
    forall j :: 0 <= j < |body| ==> InstrInBounds(body[j], l)
  }

  ghost function LimitsOf(st: LState, sc: Scope, externs: nat): Limits
  {
    Limits(st.registerCount, |st.constants|, |st.strings|, st.slotCount, sc.targets, sc.loads, externs)
  }

  ghost predicate AtMost(a: Limits, b: Limits) {
    && a.registers <= b.registers && a.constants <= b.constants && a.strings <= b.strings && a.slots <= b.slots
    && a.targets <= b.targets && a.loads <= b.loads && a.externs <= b.externs
  }

  lemma BoundsWiden(body: seq<Instr>, a: Limits, b: Limits)
    requires BodyInBounds(body, a) && AtMost(a, b)
    ensures BodyInBounds(body, b)
  {
  }

  /** What the bounds of one function's code rest on. */
  ghost predicate Bounded(h: HirModule, fi: nat, sc: Scope) {
    && WellFormed(h) && fi < |h.fns| && |ExternNames(h, fi)| <= U16
    && forall id :: 0 <= id < |h.exprs| ==> SlotFits(h.exprs[id]) && (id in sc.used ==> InScope(h, fi, sc, id))
  }

  ghost predicate InScope(h: HirModule, fi: nat, sc: Scope, id: nat)
    requires fi < |h.fns| && id < |h.exprs|
  {
    && (forall o :: o in Operands(h, id) && o < |h.exprs| ==> o in sc.used)
    && (h.exprs[id].SlotLoad? ==> h.exprs[id].slot in sc.loads)
    && (h.exprs[id].HirCall? && h.exprs[id].callee < |h.exprs| ==>
          var t := CallTarget(h, fi, id);
          (t.Function? ==> t.index in sc.targets && t.index < U16))
  }

  lemma BoundedAt(h: HirModule, fi: nat, sc: Scope, id: nat)
    requires Bounded(h, fi, sc) && id < |h.exprs|
    ensures WellFormed(h) && OperandsPrecede(h, id) && SlotFits(h.exprs[id]) && |ExternNames(h, fi)| <= U16
    ensures id in sc.used ==> InScope(h, fi, sc, id)
    ensures id in sc.used && h.exprs[id].HirCall? ==>
      var t := CallTarget(h, fi, id);
      && (t.Function? ==> t.index in sc.targets && t.index < U16) && (t.Extern? ==> t.index < |ExternNames(h, fi)|)
      && forall i :: 0 <= i < |h.exprs[id].args| && i < 2 && h.exprs[id].args[i] < |h.exprs| ==> h.exprs[id].args[i] in sc.used
  {
    hide SlotFits, ExternNames, CallTarget;
    if h.exprs[id].HirCall? {
      var args := h.exprs[id].args;
      assert forall i :: 0 <= i < |args| && i < 2 ==> Operands(h, id)[i] == args[i];
    }
  }

  lemma DefineInBounds(st: LState, mid: LState, id: nat, op: Op, b: nat, c: nat, imm: nat, sc: Scope, e: nat)
    requires BodyInBounds(mid.body, LimitsOf(mid, sc, e)) && b < mid.registerCount && c < mid.registerCount
    requires InstrInBounds(Instr(op, mid.registerCount, b, c, imm), LimitsOf(mid, sc, e).(registers := mid.registerCount + 1))
    ensures var st' := Define(mid, id, op, b, c, imm).0;
      BodyInBounds(st'.body, LimitsOf(st', sc, e))
  {
    var st' := Define(mid, id, op, b, c, imm).0;
    BoundsWiden(mid.body, LimitsOf(mid, sc, e), LimitsOf(st', sc, e));
  }

  lemma LiteralInBounds(st: LState, id: nat, v: int, sc: Scope, e: nat)
    requires BodyInBounds(st.body, LimitsOf(st, sc, e)) && 0 < st.registerCount && LowerLiteral(st, id, v).0.ok
    ensures var st' := LowerLiteral(st, id, v).0; BodyInBounds(st'.body, LimitsOf(st', sc, e))
  {
    hide BodyInBounds;
    var st1 := st.(constants := st.constants + [v], ok := st.ok && |st.constants| < U16);
    BoundsWiden(st.body, LimitsOf(st, sc, e), LimitsOf(st1, sc, e));
    DefineInBounds(st, st1, id, LoadConst, 0, 0, ToU16(|st.constants|), sc, e);
  }

  lemma StringInBounds(st: LState, id: nat, text: string, sc: Scope, e: nat)
    requires BodyInBounds(st.body, LimitsOf(st, sc, e)) && 0 < st.registerCount && LowerString(st, id, text).0.ok
    ensures var st' := LowerString(st, id, text).0; BodyInBounds(st'.body, LimitsOf(st', sc, e))
  {
    hide BodyInBounds;
    var st' := LowerString(st, id, text).0;
    var st1 := st.(strings := st'.strings, ok := st'.ok);
    BoundsWiden(st.body, LimitsOf(st, sc, e), LimitsOf(st1, sc, e));
    DefineInBounds(st, st1, id, LoadString, 0, 0, st'.body[|st.body|].imm, sc, e);
  }

  lemma VarInBounds(h: HirModule, fi: nat, st: LState, id: nat, name: string, sc: Scope, e: nat)
    requires fi < |h.fns| && BodyInBounds(st.body, LimitsOf(st, sc, e))
    ensures var st' := LowerVar(h, fi, st, id, name).0; BodyInBounds(st'.body, LimitsOf(st', sc, e))
  {
    hide FirstIndex;
  }

  /** Code emitted for an operand in the scope. */
  lemma {:induction false} OperandInBounds(h: HirModule, fi: nat, st: LState, id: nat, sc: Scope)
    requires Bounded(h, fi, sc) && WellFormed(h) && fi < |h.fns| && Consistent(h, fi, st)
    requires id < |h.exprs| ==> id in sc.used
    requires BodyInBounds(st.body, LimitsOf(st, sc, |ExternNames(h, fi)|)) && LowerOperand(h, fi, st, id).0.ok
    ensures var st' := LowerOperand(h, fi, st, id).0;
      BodyInBounds(st'.body, LimitsOf(st', sc, |ExternNames(h, fi)|))
    decreases Rank(h, id), 1
  {
    if id < |h.exprs| && id !in st.memo {
      BoundedAt(h, fi, sc, id);
      ConsistentCount(h, fi, st);
      match h.exprs[id]
      case Binary(op, l, r) =>
        var (st1, lhs) := LowerOperand(h, fi, st, l);
        var (st2, rhs) := LowerOperand(h, fi, st1, r);
        OperandContinues(h, fi, st, l);
        OperandContinues(h, fi, st1, r);
        DefineOk(st2, id, BinaryOpcode(op), lhs, rhs, 0);
        OperandInBounds(h, fi, st, l, sc);
        OperandInBounds(h, fi, st1, r, sc);
        OperatorInBounds(st2, id, op, UnaryOp.Neg, lhs, rhs, sc, |ExternNames(h, fi)|);
      case Unary(op, o) =>
        var (st1, operand) := LowerOperand(h, fi, st, o);
        OperandContinues(h, fi, st, o);
        ConsistentCount(h, fi, st1);
        DefineOk(st1, id, UnaryOpcode(op), operand, 0, 0);
        OperandInBounds(h, fi, st, o, sc);
        OperatorInBounds(st1, id, BinaryOp.Add, op, operand, 0, sc, |ExternNames(h, fi)|);
      case HirCall(_, _, _) => CallInBounds(h, fi, st, id, sc);
      case Literal(v) => LiteralInBounds(st, id, v, sc, |ExternNames(h, fi)|);
      case StringLiteral(text) => StringInBounds(st, id, text, sc, |ExternNames(h, fi)|);
      case Var(name) => VarInBounds(h, fi, st, id, name, sc, |ExternNames(h, fi)|);
      case SlotLoad(slot) =>
      case _ =>
    }
  }

  lemma ConsistentCount(h: HirModule, fi: nat, st: LState)
    requires fi < |h.fns| && Consistent(h, fi, st)
    ensures 0 < st.registerCount
  {
  }

  lemma DefineOk(st: LState, id: nat, op: Op, b: nat, c: nat, imm: nat)
    ensures Define(st, id, op, b, c, imm).0.ok == st.ok
  {
  }

  lemma OperatorInBounds(st: LState, id: nat, op: BinaryOp, uop: UnaryOp, b: nat, c: nat, sc: Scope, e: nat)
    requires BodyInBounds(st.body, LimitsOf(st, sc, e)) && b < st.registerCount && c < st.registerCount
    ensures var st' := Define(st, id, BinaryOpcode(op), b, c, 0).0; BodyInBounds(st'.body, LimitsOf(st', sc, e))
    ensures var st' := Define(st, id, UnaryOpcode(uop), b, c, 0).0; BodyInBounds(st'.body, LimitsOf(st', sc, e))
  {
    hide BodyInBounds;
    DefineInBounds(st, st, id, BinaryOpcode(op), b, c, 0, sc, e);
    DefineInBounds(st, st, id, UnaryOpcode(uop), b, c, 0, sc, e);
  }

  lemma {:induction false} CallInBounds(h: HirModule, fi: nat, st: LState, id: nat, sc: Scope)
    requires Bounded(h, fi, sc) && WellFormed(h) && fi < |h.fns| && Consistent(h, fi, st)
    requires id < |h.exprs| && id in sc.used && h.exprs[id].HirCall? && id !in st.memo
    requires BodyInBounds(st.body, LimitsOf(st, sc, |ExternNames(h, fi)|)) && LowerOperand(h, fi, st, id).0.ok
    ensures var st' := LowerOperand(h, fi, st, id).0;
      BodyInBounds(st'.body, LimitsOf(st', sc, |ExternNames(h, fi)|))
    decreases Rank(h, id), 0, 1
  {
    hide Bounded, WellFormed, Consistent, BodyInBounds, Define, ExternNames, CallTarget, ToU16;
    BoundedAt(h, fi, sc, id);
    var t := CallTarget(h, fi, id);
    var (st1, arg0) := LowerArg(h, fi, st, id, 0);
    var (st2, arg1) := LowerArg(h, fi, st1, id, 1);
    var op := if t.Extern? then CallExtern else CallFn;
    if !t.NotFound? {
      ArgContinues(h, fi, st, id, 0);
      ArgContinues(h, fi, st1, id, 1);
      DefineOk(st2, id, op, arg0, arg1, ToU16(t.index));
      ArgInBounds(h, fi, st, id, 0, sc);
      ArgInBounds(h, fi, st1, id, 1, sc);
      DefineInBounds(st, st2, id, op, arg0, arg1, ToU16(t.index), sc, |ExternNames(h, fi)|);
    }
  }

  lemma {:induction false} ArgInBounds(h: HirModule, fi: nat, st: LState, id: nat, i: nat, sc: Scope)
    requires i < 2
    requires Bounded(h, fi, sc) && WellFormed(h) && fi < |h.fns| && Consistent(h, fi, st)
    requires id < |h.exprs| && id in sc.used && h.exprs[id].HirCall?
    requires BodyInBounds(st.body, LimitsOf(st, sc, |ExternNames(h, fi)|)) && LowerArg(h, fi, st, id, i).0.ok
    ensures var st' := LowerArg(h, fi, st, id, i).0;
      BodyInBounds(st'.body, LimitsOf(st', sc, |ExternNames(h, fi)|))
    decreases Rank(h, id), 0, 0
  {
    hide Bounded, WellFormed, Consistent, BodyInBounds, LimitsOf, ExternNames, LowerOperand;
    BoundedAt(h, fi, sc, id);
    if i < |h.exprs[id].args| {
      OperandInBounds(h, fi, st, h.exprs[id].args[i], sc);
    }
  }

  lemma {:induction false} InstInBounds(h: HirModule, fi: nat, st: LState, id: nat, sc: Scope)
    requires Bounded(h, fi, sc) && WellFormed(h) && fi < |h.fns| && Consistent(h, fi, st) && id < |h.exprs|
    requires id in sc.used || h.exprs[id].HirRet?
    requires BodyInBounds(st.body, LimitsOf(st, sc, |ExternNames(h, fi)|)) && LowerInst(h, fi, st, id).ok
    ensures var st' := LowerInst(h, fi, st, id);
      BodyInBounds(st'.body, LimitsOf(st', sc, |ExternNames(h, fi)|))
  {
    hide Bounded, WellFormed, Consistent, ExternNames, LowerOperand;
    var e := |ExternNames(h, fi)|;
    BoundedAt(h, fi, sc, id);
    match h.exprs[id]
    case SlotAlloca(slot) =>
      BoundsWiden(st.body, LimitsOf(st, sc, e), LimitsOf(GrowSlots(st, slot), sc, e));
    case HirRet(_) =>
    case SlotStore(slot, v) =>
      var (st1, r) := LowerOperand(h, fi, st, v);
      OperandContinues(h, fi, st, v);
      ConsistentCount(h, fi, st1);
      OperandInBounds(h, fi, st, v, sc);
      BoundsWiden(st1.body, LimitsOf(st1, sc, e), LimitsOf(GrowSlots(st1, slot), sc, e));
    case _ =>
      OperandInBounds(h, fi, st, id, sc);
  }

  lemma {:induction false} InstsInBounds(h: HirModule, fi: nat, st: LState, ids: seq<nat>, sc: Scope)
    requires Bounded(h, fi, sc) && WellFormed(h) && fi < |h.fns| && Consistent(h, fi, st)
    requires forall i :: 0 <= i < |ids| ==> ids[i] < |h.exprs| && (ids[i] in sc.used || h.exprs[ids[i]].HirRet?)
    requires BodyInBounds(st.body, LimitsOf(st, sc, |ExternNames(h, fi)|)) && LowerInsts(h, fi, st, ids).ok
    ensures var st' := LowerInsts(h, fi, st, ids);
      BodyInBounds(st'.body, LimitsOf(st', sc, |ExternNames(h, fi)|))
    decreases |ids|
  {
    hide Bounded, WellFormed, Consistent, BodyInBounds, LimitsOf, ExternNames, LowerInst;
    if ids != [] {
      var st1 := LowerInst(h, fi, st, ids[0]);
      InstContinues(h, fi, st, ids[0]);
      InstsContinue(h, fi, st1, ids[1..]);
      InstInBounds(h, fi, st, ids[0], sc);
      InstsInBounds(h, fi, st1, ids[1..], sc);
    }
  }

  lemma ReturnInBounds(h: HirModule, fi: nat, st: LState, id: nat, sc: Scope)
    requires Bounded(h, fi, sc) && WellFormed(h) && fi < |h.fns| && Consistent(h, fi, st)
    requires id < |h.exprs| && id in sc.used && h.exprs[id].HirRet?
    requires BodyInBounds(st.body, LimitsOf(st, sc, |ExternNames(h, fi)|)) && LowerTerminator(h, fi, st, id).ok
    ensures var st' := LowerTerminator(h, fi, st, id);
      && EndsInReturn(st'.body)
      && BodyInBounds(st'.body[..|st'.body| - 1], LimitsOf(st', sc, |ExternNames(h, fi)|))
  {
    hide Bounded, WellFormed, Consistent, ExternNames, LowerOperand;
    BoundedAt(h, fi, sc, id);
    ConsistentCount(h, fi, st);
    assert forall body: seq<Instr>, i: Instr :: (body + [i])[..|body + [i]| - 1] == body;
    if h.exprs[id].result.Some? {
      var v := h.exprs[id].result.value;
      OperandContinues(h, fi, st, v);
      ConsistentCount(h, fi, LowerOperand(h, fi, st, v).0);
      OperandInBounds(h, fi, st, v, sc);
    }
  }

  predicate EndsInReturn(body: seq<Instr>) {
    body != [] && body[|body| - 1].op == Ret
  }

  lemma OkBefore(a: LState, b: LState)
    requires Continues(a, b) && b.ok
    ensures a.ok
  {
  }

  /** What a function uses is closed under operands. */
  lemma UsesOperand(h: HirModule, fi: nat, id: nat, o: nat)
    requires fi < |h.fns| && id < |h.exprs| && Uses(h, fi, id) && o in Operands(h, id) && o < |h.exprs|
    ensures Uses(h, fi, o)
  {
    hide IsRoot, Operands;
    var g := OperandGraph(h);
    var b, root :| 0 <= b < |h.fns[fi].blocks| && IsRoot(h, h.fns[fi].blocks[b], root) && ReachesOrIs(g, root, id);
    assert o in Reachability.Next(g, id);
    StepReaches(g, root, id, o);
    assert ReachesOrIs(OperandGraph(h), root, o);
  }

  lemma UsesRoot(h: HirModule, fi: nat, b: nat, id: nat)
    requires fi < |h.fns| && b < |h.fns[fi].blocks| && IsRoot(h, h.fns[fi].blocks[b], id)
    ensures Uses(h, fi, id)
  {
    assert ReachesOrIs(OperandGraph(h), id, id);
  }

  lemma ScopeIsBounded(h: HirModule, m: Module, fi: nat)
    requires Compiled(h, m) && fi < |h.fns| && ExternNames(h, fi) <= m.externs && |Emitted(h, fi + 1)| <= |m.functions|
    ensures Bounded(h, fi, ScopeOf(h, fi)) && WellFormed(h)
  {
    hide WellFormed, LowerModule, SlotFits, ExternNames, AllStraight, Operands, CallTarget, Uses;
    var sc := ScopeOf(h, fi);
    forall id | 0 <= id < |h.exprs| && id in sc.used
      ensures InScope(h, fi, sc, id)
    {
      forall o | o in Operands(h, id) && o < |h.exprs|
        ensures o in sc.used
      {
        UsesOperand(h, fi, id, o);
      }
    }
  }

  /**
   * All emitted code stays inside the register file and the module's tables; its calls go to the
   * functions the used calls resolve to, and it loads the slots the used loads name.
   */
  lemma CodeInBounds(h: HirModule, m: Module, k: nat)
    requires Compiled(h, m) && k < |m.functions|
    ensures |m.functions| == |Emitted(h, |h.fns|)|
    ensures var f, fi := m.functions[k], Emitted(h, |h.fns|)[k];
      && EndsInReturn(f.body)
      && BodyInBounds(f.body[..|f.body| - 1], Limits(f.registerCount, |m.constants|, |m.strings|, f.slotCount,
                                                     ScopeOf(h, fi).targets, ScopeOf(h, fi).loads, |m.externs|))
  {
    hide Compiled, WellFormed, Emitted, ExternNames, Consistent, LowerFunction, LowerInsts, LowerTerminator, Uses,
      SourceName, InstrInBounds, CallTarget, Bounded, Distinct, Continues, IsRoot, ScopeOf;
    FunctionCount(h, m);
    var fi, m0, ok := FunctionAt(h, m, k);
    ScopeIsBounded(h, m, fi);
    StraightLowering(h, fi, m0, ok);
    var b := h.fns[fi].blocks[0];
    var sc := ScopeOf(h, fi);
    var st0 := Begin(h.fns[fi], m0, ok);
    var st1 := LowerInsts(h, fi, st0, b.insts);
    var st2 := LowerTerminator(h, fi, st1, b.terminator.value);
    OkBefore(st1, st2);
    RootsAreUsed(h, fi);
    InstsInBounds(h, fi, st0, b.insts, sc);
    ReturnInBounds(h, fi, st1, b.terminator.value, sc);
    var f := m.functions[k];
    BoundsWiden(st2.body[..|st2.body| - 1], LimitsOf(st2, sc, |ExternNames(h, fi)|),
      Limits(f.registerCount, |m.constants|, |m.strings|, f.slotCount, sc.targets, sc.loads, |m.externs|));
  }

  lemma RootsAreUsed(h: HirModule, fi: nat)
    requires WellFormed(h) && fi < |h.fns| && IsStraight(h, h.fns[fi])
    ensures var b, sc := h.fns[fi].blocks[0], ScopeOf(h, fi);
      && b.terminator.value in sc.used
      && forall i :: 0 <= i < |b.insts| ==> b.insts[i] < |h.exprs| && (b.insts[i] in sc.used || h.exprs[b.insts[i]].HirRet?)
  {
    hide WellFormed, Uses;
    var b := h.fns[fi].blocks[0];
    UsesRoot(h, fi, 0, b.terminator.value);
    forall i | 0 <= i < |b.insts|
      ensures Uses(h, fi, b.insts[i]) || h.exprs[b.insts[i]].HirRet?
    {
      if !h.exprs[b.insts[i]].HirRet? {
        UsesRoot(h, fi, 0, b.insts[i]);
      }
    }
  }

  /** Every slot the function loads is allocated or stored to by one of its instructions. */
  ghost predicate LoadsCovered(h: HirModule, fi: nat)
    requires WellFormed(h) && fi < |h.fns| && IsStraight(h, h.fns[fi])
  {
    forall slot :: LoadsSlot(h, fi, slot) ==>
      exists i :: 0 <= i < |h.fns[fi].blocks[0].insts| && Provides(h.exprs[h.fns[fi].blocks[0].insts[i]], slot)
  }

  predicate Provides(e: HirExpr, slot: nat) {
    e == HirExpr.SlotAlloca(slot) || (e.SlotStore? && e.slot == slot)
  }

  lemma {:induction false} ProvidedIsBelow(h: HirModule, ids: seq<nat>, i: nat, slot: nat)
    requires (forall j :: 0 <= j < |ids| ==> ids[j] < |h.exprs|) && i < |ids| && Provides(h.exprs[ids[i]], slot)
    ensures slot < SlotBound(h, ids)
  {
    if i > 0 {
      ProvidedIsBelow(h, ids[1..], i - 1, slot);
    }
  }

  /** Then the slot file is large enough for them. */
  lemma CoveredLoadsInRange(h: HirModule, m: Module, k: nat, slot: nat)
    requires Compiled(h, m) && k < |m.functions| && |m.functions| == |Emitted(h, |h.fns|)|
    requires var fi := Emitted(h, |h.fns|)[k];
      WellFormed(h) && IsStraight(h, h.fns[fi]) && LoadsCovered(h, fi) && LoadsSlot(h, fi, slot)
    ensures slot < m.functions[k].slotCount
  {
    hide WellFormed, Emitted, ExternNames, LowerInsts, LowerTerminator, LowerFunction, SourceName, Distinct, Continues,
      Consistent, LowerModule, AllStraight, LoadsSlot;
    var fi, m0, ok := FunctionAt(h, m, k);
    StraightLowering(h, fi, m0, ok);
    var b := h.fns[fi].blocks[0];
    var st0 := Begin(h.fns[fi], m0, ok);
    InstsSlots(h, fi, st0, b.insts);
    TerminatorSlots(h, fi, LowerInsts(h, fi, st0, b.insts), b.terminator.value);
    var i :| 0 <= i < |b.insts| && Provides(h.exprs[b.insts[i]], slot);
    ProvidedIsBelow(h, b.insts, i, slot);
  }

  // ---- Whole runs ----------------------------------------------------------------------------

  /** An activation of function k somewhere in a run, with the call depth left. */
  datatype Config = Config(k: nat, fr: Frame, depth: nat)

  /** The next frame of the same activation, or the first frame of the one it calls. */
  ghost predicate Moves(m: Module, cap: nat, a: Config, b: Config) {
    && a.k < |m.functions| && a.fr.pc < |m.functions[a.k].body|
    && ((b.k == a.k && b.depth == a.depth && Advance(m, m.functions[a.k], a.fr, a.depth, cap) == Next(b.fr))
        || Enters(m, a, b))
  }

  predicate Enters(m: Module, a: Config, b: Config)
    requires a.k < |m.functions| && a.fr.pc < |m.functions[a.k].body|
  {
    var s := Step(m, m.functions[a.k], a.fr);
    a.depth > 0 && s.Invoke? && b == Config(s.callee, Start(m.functions[s.callee], s.regs, a.fr.output), a.depth - 1)
  }

  ghost predicate IsRun(m: Module, cap: nat, run: seq<Config>) {
    forall i :: 0 < i < |run| ==> Moves(m, cap, run[i - 1], run[i])
  }

  /** The frame has the sizes its function declares, and an instruction to execute. */
  predicate Sized(m: Module, c: Config) {
    && c.k < |m.functions|
    && var f := m.functions[c.k];
       |c.fr.regs| == f.registerCount && |c.fr.slots| == f.slotCount && c.fr.pc < |f.body|
  }

  /** A body with all indices in range that ends in its return. */
  ghost predicate IsSafe(m: Module, f: Function, l: Limits) {
    && EndsInReturn(f.body) && BodyInBounds(f.body[..|f.body| - 1], l)
    && l.registers == f.registerCount && l.constants == |m.constants| && l.strings == |m.strings|
    && l.slots == f.slotCount && l.externs == |m.externs|
    && (forall k :: k in l.targets ==> k < |m.functions|)
    && f.paramCount <= f.registerCount
  }

  /** The traps that remain possible: an arithmetic trap, an operator without an opcode, a slot nobody
      provides, a library call or a call of more than two parameters. */
  predicate ExpectedTrap(m: Module, i: Instr, fr: Frame) {
    match i.op
    case Trap => true
    case Binary(op) => i.b < |fr.regs| && i.c < |fr.regs| && ExecBinary(op, fr.regs[i.b], fr.regs[i.c]).Trap?
    case SlotLoad => i.imm >= |fr.slots|
    case CallExtern => i.imm < |m.externs| && i.b < |fr.regs| &&
                       CallLibrary(m.strings, m.externs[i.imm], fr.regs[i.b], fr.output).Trapped?
    case CallFn => i.imm < |m.functions| && m.functions[i.imm].paramCount > 2
    case _ => false
  }

  /** The arithmetic C++ leaves undefined. */
  predicate UndefinedArithmetic(i: Instr, fr: Frame) {
    match i.op
    case Binary(op) => i.b < |fr.regs| && i.c < |fr.regs| && ExecBinary(op, fr.regs[i.b], fr.regs[i.c]).Undefined?
    case Unary(op) => i.b < |fr.regs| && ExecUnary(op, fr.regs[i.b]).Undefined?
    case _ => false
  }

  /** What one instruction of safe code does to a frame of the right sizes. */
  lemma SafeStep(m: Module, c: Config, l: Limits)
    requires Sized(m, c) && IsSafe(m, m.functions[c.k], l)
    requires forall k :: 0 <= k < |m.functions| ==> m.functions[k].paramCount <= m.functions[k].registerCount
    ensures var f := m.functions[c.k]; var i := f.body[c.fr.pc];
      match Step(m, f, c.fr)
      case Next(fr) => i.op != Ret && fr.pc == c.fr.pc + 1 && |fr.regs| == |c.fr.regs| && |fr.slots| == |c.fr.slots|
      case Invoke(k, regs) => i.op == CallFn && i.imm == k && k in l.targets && |regs| == m.functions[k].registerCount && i.a < |c.fr.regs|
      case Halt(Returned(_, _)) => i.op == Ret
      case Halt(Trapped(out)) => ExpectedTrap(m, i, c.fr) && out == c.fr.output
      case Halt(Undefined) => UndefinedArithmetic(i, c.fr)
      case Halt(OutOfFuel) => false
  {
    hide ExecBinary, IsSafe;
    SafeInstr(m, m.functions[c.k], l, c.fr.pc);
    var f, i := m.functions[c.k], m.functions[c.k].body[c.fr.pc];
    if i.op.CallFn? && m.functions[i.imm].paramCount <= 2 {
    }
  }

  lemma SafeInstr(m: Module, f: Function, l: Limits, pc: nat)
    requires IsSafe(m, f, l) && pc < |f.body|
    ensures if pc + 1 < |f.body| then InstrInBounds(f.body[pc], l) else f.body[pc].op == Ret
    ensures l.registers == f.registerCount && l.constants == |m.constants| && l.strings == |m.strings|
    ensures l.slots == f.slotCount && l.externs == |m.externs|
    ensures f.body[pc].op == CallFn ==> f.body[pc].imm < |m.functions|
    ensures f.body[pc].op == Ret <==> pc + 1 == |f.body|
  {
    if pc + 1 < |f.body| {
      assert f.body[..|f.body| - 1][pc] == f.body[pc];
    }
  }

  /** Every function is safe within its limits. */
  ghost predicate AllSafe(m: Module, ls: seq<Limits>) {
    |ls| == |m.functions| && forall k :: 0 <= k < |ls| ==> IsSafe(m, m.functions[k], ls[k])
  }

  lemma SafeAt(m: Module, ls: seq<Limits>, c: Config)
    requires AllSafe(m, ls) && c.k < |m.functions|
    ensures c.k < |ls| && IsSafe(m, m.functions[c.k], ls[c.k])
    ensures forall k :: 0 <= k < |m.functions| ==>
              m.functions[k].paramCount <= m.functions[k].registerCount && m.functions[k].body != []
  {
    hide BodyInBounds;
  }

  lemma StartIsSized(m: Module, k: nat, regs: seq<int>, output: string, depth: nat)
    requires k < |m.functions| && m.functions[k].body != [] && |regs| <= m.functions[k].registerCount
    ensures Sized(m, Config(k, Start(m.functions[k], regs, output), depth))
  {
  }

  lemma {:induction false} RunStaysSized(m: Module, ls: seq<Limits>, cap: nat, run: seq<Config>, i: nat)
    requires AllSafe(m, ls) && IsRun(m, cap, run) && i < |run| && Sized(m, run[0])
    ensures Sized(m, run[i])
  {
    if i > 0 {
      RunStaysSized(m, ls, cap, run, i - 1);
    }
  }

  /** A run that traps, or is undefined, has come to an instruction that does so. */
  lemma {:induction false} StopHasCause(m: Module, ls: seq<Limits>, c: Config, steps: nat, cap: nat) returns (run: seq<Config>)
    requires AllSafe(m, ls) && Sized(m, c)
    requires var o := Run(m, m.functions[c.k], c.fr, c.depth, steps, cap); o.Trapped? || o.Undefined?
    ensures run != [] && run[0] == c && IsRun(m, cap, run) && Sized(m, run[|run| - 1])
    ensures var last := run[|run| - 1];
      Step(m, m.functions[last.k], last.fr) == Halt(Run(m, m.functions[c.k], c.fr, c.depth, steps, cap))
    decreases c.depth, steps
  {
    hide Advance;
    var f := m.functions[c.k];
    SafeAt(m, ls, c);
    SafeStep(m, c, ls[c.k]);
    SafeInstr(m, f, ls[c.k], c.fr.pc);
    RunOnce(m, f, c.fr, c.depth, steps, cap);
    var s := Step(m, f, c.fr);
    if s.Halt? {
      run := [c];
    } else if s.Invoke? && !Run(m, m.functions[s.callee], Start(m.functions[s.callee], s.regs, c.fr.output), c.depth - 1, cap, cap).Returned? {
      var callee := Config(s.callee, Start(m.functions[s.callee], s.regs, c.fr.output), c.depth - 1);
      StartIsSized(m, s.callee, s.regs, c.fr.output, c.depth - 1);
      var rest := StopHasCause(m, ls, callee, cap, cap);
      run := RunFrom(m, cap, c, rest);
    } else {
      var next := Config(c.k, Advance(m, f, c.fr, c.depth, cap).frame, c.depth);
      var rest := StopHasCause(m, ls, next, steps - 1, cap);
      run := RunFrom(m, cap, c, rest);
    }
  }

  /** One instruction of a run, and the rest. */
  lemma RunOnce(m: Module, f: Function, fr: Frame, depth: nat, steps: nat, cap: nat)
    requires fr.pc < |f.body|
    ensures steps == 0 ==> Run(m, f, fr, depth, steps, cap) == OutOfFuel
    ensures steps > 0 ==>
      match Step(m, f, fr)
      case Halt(o) => Run(m, f, fr, depth, steps, cap) == o
      case Next(fr') => Advance(m, f, fr, depth, cap) == Next(fr') && Run(m, f, fr, depth, steps, cap) == Run(m, f, fr', depth, steps - 1, cap)
      case Invoke(k, regs) =>
        if depth == 0 then Run(m, f, fr, depth, steps, cap) == OutOfFuel
        else
          match Run(m, m.functions[k], Start(m.functions[k], regs, fr.output), depth - 1, cap, cap)
          case Returned(v, out) =>
            f.body[fr.pc].a < |fr.regs| ==>
              var fr' := Frame(fr.pc + 1, fr.regs[f.body[fr.pc].a := v], fr.slots, out);
              Advance(m, f, fr, depth, cap) == Next(fr') && Run(m, f, fr, depth, steps, cap) == Run(m, f, fr', depth, steps - 1, cap)
          case o => Run(m, f, fr, depth, steps, cap) == o
  {
    hide Step, Start;
    var s := Step(m, f, fr);
    if s.Invoke? && depth > 0 {
      assert Call(m, s.callee, s.regs, fr.output, depth, cap) ==
        Run(m, m.functions[s.callee], Start(m.functions[s.callee], s.regs, fr.output), depth - 1, cap, cap);
    }
  }

  lemma RunFrom(m: Module, cap: nat, c: Config, rest: seq<Config>) returns (run: seq<Config>)
    requires rest != [] && IsRun(m, cap, rest) && Moves(m, cap, c, rest[0])
    ensures run == [c] + rest && IsRun(m, cap, run)
  {
    hide Moves;
    run := [c] + rest;
    forall i | 0 < i < |run|
      ensures Moves(m, cap, run[i - 1], run[i])
    {
      if i > 1 {
        assert run[i] == rest[i - 1] && run[i - 1] == rest[i - 2];
      }
    }
  }

  lemma FunctionIsSafe(h: HirModule, m: Module, k: nat) returns (l: Limits)
    requires Compiled(h, m) && k < |m.functions|
    ensures |m.functions| == |Emitted(h, |h.fns|)|
    ensures IsSafe(m, m.functions[k], l) && l.targets == ScopeOf(h, Emitted(h, |h.fns|)[k]).targets
    ensures l.loads == ScopeOf(h, Emitted(h, |h.fns|)[k]).loads
  {
    hide Compiled, Emitted, ScopeOf, BodyInBounds, EmittedNames, CallTarget;
    CodeInBounds(h, m, k);
    var fi := CalleeShape(h, m, k);
    var f, sc := m.functions[k], ScopeOf(h, fi);
    l := Limits(f.registerCount, |m.constants|, |m.strings|, f.slotCount, sc.targets, sc.loads, |m.externs|);
    forall t | t in l.targets
      ensures t < |m.functions|
    {
      TargetsAreEmitted(h, k, t);
    }
  }

  /** A function's calls go to functions emitted before it, or to itself. */
  lemma TargetsAreEmitted(h: HirModule, k: nat, t: nat)
    requires k < |Emitted(h, |h.fns|)| && t in ScopeOf(h, Emitted(h, |h.fns|)[k]).targets
    ensures t <= k
  {
    hide Emitted, Uses, CallTarget;
    EmittedAt(h, |h.fns|, k);
  }

  lemma {:induction false} FunctionsAreSafe(h: HirModule, m: Module, n: nat) returns (ls: seq<Limits>)
    requires Compiled(h, m) && n <= |m.functions|
    ensures |ls| == n && forall k :: 0 <= k < n ==> IsSafe(m, m.functions[k], ls[k])
  {
    hide Compiled, IsSafe, Emitted, ScopeOf;
    if n == 0 {
      ls := [];
    } else {
      var front := FunctionsAreSafe(h, m, n - 1);
      var l := FunctionIsSafe(h, m, n - 1);
      ls := front + [l];
    }
  }

  /** The frame a function of the module is entered with. */
  ghost predicate Starts(m: Module, c: Config) {
    c.k < |m.functions| && exists regs, output :: |regs| <= m.functions[c.k].registerCount && c.fr == Start(m.functions[c.k], regs, output)
  }

  /**
   * Over every run of a lowered module, calls included: each frame keeps the sizes its function
   * declares and has an instruction to execute, and that instruction goes on to the next one, enters a
   * function, returns, traps for an expected reason, or is undefined arithmetic. No other check of the
   * interpreter ever fires, and no run falls off the end of a body.
   */
  lemma RunsAreSafe(h: HirModule, m: Module, cap: nat, run: seq<Config>, i: nat)
    requires Compiled(h, m) && IsRun(m, cap, run) && i < |run| && Starts(m, run[0])
    ensures Sized(m, run[i])
    ensures var c := run[i]; var f := m.functions[c.k]; var instr := f.body[c.fr.pc];
      match Step(m, f, c.fr)
      case Next(fr) => fr.pc == c.fr.pc + 1 < |f.body|
      case Invoke(k, _) => instr.op == CallFn && k == instr.imm <= c.k
      case Halt(Returned(_, _)) => instr.op == Ret
      case Halt(Trapped(out)) => ExpectedTrap(m, instr, c.fr) && out == c.fr.output
      case Halt(Undefined) => UndefinedArithmetic(instr, c.fr)
      case Halt(OutOfFuel) => false
  {
    hide Compiled, Step, BodyInBounds, IsRun, ExpectedTrap, UndefinedArithmetic, Emitted, ScopeOf;
    var ls := FunctionsAreSafe(h, m, |m.functions|);
    RunStaysSized(m, ls, cap, run, i);
    SafeAt(m, ls, run[i]);
    var l := FunctionIsSafe(h, m, run[i].k);
    SafeStep(m, run[i], l);
    SafeInstr(m, m.functions[run[i].k], l, run[i].fr.pc);
    var s := Step(m, m.functions[run[i].k], run[i].fr);
    if s.Invoke? {
      TargetsAreEmitted(h, run[i].k, s.callee);
    }
  }

  /** Where every slot a function loads is provided by one of its instructions, no load of it ever traps. */
  lemma CoveredLoadsNeverTrap(h: HirModule, m: Module, cap: nat, run: seq<Config>, i: nat)
    requires Compiled(h, m) && IsRun(m, cap, run) && i < |run| && Starts(m, run[0])
    requires WellFormed(h) && forall fi :: 0 <= fi < |h.fns| && IsEmitted(h.fns[fi]) ==> IsStraight(h, h.fns[fi]) && LoadsCovered(h, fi)
    ensures var c := run[i];
      Sized(m, c) && (m.functions[c.k].body[c.fr.pc].op == Op.SlotLoad ==> m.functions[c.k].body[c.fr.pc].imm < |c.fr.slots|)
  {
    hide Compiled, WellFormed, IsSafe, Step, IsRun, Emitted, LoadsCovered, IsStraight, ExpectedTrap, UndefinedArithmetic;
    RunsAreSafe(h, m, cap, run, i);
    var c := run[i];
    var l := FunctionIsSafe(h, m, c.k);
    SafeInstr(m, m.functions[c.k], l, c.fr.pc);
    var fi := CalleeShape(h, m, c.k);
    EmittedAt(h, |h.fns|, c.k);
    if m.functions[c.k].body[c.fr.pc].op == Op.SlotLoad {
      CoveredLoadsInRange(h, m, c.k, m.functions[c.k].body[c.fr.pc].imm);
    }
  }

  /** A lowered function that traps, or is undefined, does so at an instruction of a run of it, for one of those reasons. */
  lemma {:induction false} StopsAreExpected(h: HirModule, m: Module, c: Config, steps: nat, cap: nat) returns (run: seq<Config>)
    requires Compiled(h, m) && Starts(m, c)
    requires var o := Run(m, m.functions[c.k], c.fr, c.depth, steps, cap); o.Trapped? || o.Undefined?
    ensures run != [] && run[0] == c && IsRun(m, cap, run) && Sized(m, run[|run| - 1])
    ensures var last := run[|run| - 1]; var instr := m.functions[last.k].body[last.fr.pc];
      if Run(m, m.functions[c.k], c.fr, c.depth, steps, cap).Trapped? then ExpectedTrap(m, instr, last.fr)
      else UndefinedArithmetic(instr, last.fr)
  {
    hide Compiled, Step, Run, IsRun, ExpectedTrap, UndefinedArithmetic;
    var ls := FunctionsAreSafe(h, m, |m.functions|);
    run := StopHasCause(m, ls, c, steps, cap);
    RunsAreSafe(h, m, cap, run, |run| - 1);
  }

  // ---- Termination ---------------------------------------------------------------------------

  /** Code that falls through and calls only functions of smaller index. */
  ghost predicate CallsDown(m: Module) {
    forall k, j :: 0 <= k < |m.functions| && 0 <= j < |m.functions[k].body| ==>
      var i := m.functions[k].body[j];
      !i.op.Jump? && !i.op.Branch? && (i.op.CallFn? ==> i.imm < k)
  }

  /** Such code terminates: a call depth of its own index and one pass over each body suffice. */
  lemma {:induction false} RunTerminates(m: Module, k: nat, fr: Frame, depth: nat, steps: nat, cap: nat)
    requires CallsDown(m) && CapCovers(m, cap) && k < |m.functions|
    requires k <= depth && |m.functions[k].body| <= fr.pc + steps
    ensures Run(m, m.functions[k], fr, depth, steps, cap) != OutOfFuel
    decreases depth, steps
  {
    hide Start;
    var f := m.functions[k];
    if fr.pc < |f.body| {
      match Step(m, f, fr) {
        case Next(fr') => RunTerminates(m, k, fr', depth, steps - 1, cap);
        case Halt(_) =>
        case Invoke(c, regs) =>
          RunTerminates(m, c, Start(m.functions[c], regs, fr.output), depth - 1, cap, cap);
          CallGoesOn(m, f, fr, depth, cap);
          match Advance(m, f, fr, depth, cap) {
            case Next(fr') => RunTerminates(m, k, fr', depth, steps - 1, cap);
            case Halt(_) =>
          }
      }
    }
  }

  lemma CallGoesOn(m: Module, f: Function, fr: Frame, depth: nat, cap: nat)
    requires fr.pc < |f.body| && depth > 0 && Step(m, f, fr).Invoke?
    ensures var s := Step(m, f, fr);
      var o := Run(m, m.functions[s.callee], Start(m.functions[s.callee], s.regs, fr.output), depth - 1, cap, cap);
      && Advance(m, f, fr, depth, cap) == Resume(f, fr, o)
      && (Advance(m, f, fr, depth, cap).Next? ==> o.Returned? && Advance(m, f, fr, depth, cap).frame.pc == fr.pc + 1)
  {
    hide Step, Start, Run;
    var s := Step(m, f, fr);
    assert Call(m, s.callee, s.regs, fr.output, depth, cap) ==
      Run(m, m.functions[s.callee], Start(m.functions[s.callee], s.regs, fr.output), depth - 1, cap, cap);
  }

  /** No function uses a call that resolves to the function itself. */
  ghost predicate NoSelfCalls(h: HirModule) {
    forall k :: 0 <= k < |Emitted(h, |h.fns|)| ==> !CallsNumber(h, Emitted(h, |h.fns|)[k], k)
  }

  /** Every lowered module in which no function calls itself terminates, whatever the arguments. */
  lemma LoweredTerminates(h: HirModule, m: Module, k: nat, fr: Frame, depth: nat, cap: nat)
    requires Compiled(h, m) && NoSelfCalls(h) && CapCovers(m, cap)
    requires k < |m.functions| <= depth + 1
    ensures Run(m, m.functions[k], fr, depth, cap, cap) != OutOfFuel
  {
    hide Compiled, Emitted, Run, IsSafe, CallsNumber;
    forall c, j | 0 <= c < |m.functions| && 0 <= j < |m.functions[c].body|
      ensures var i := m.functions[c].body[j];
        !i.op.Jump? && !i.op.Branch? && (i.op.CallFn? ==> i.imm < c)
    {
      var l := FunctionIsSafe(h, m, c);
      SafeInstr(m, m.functions[c], l, j);
      if m.functions[c].body[j].op == CallFn {
        TargetsAreEmitted(h, c, m.functions[c].body[j].imm);
      }
    }
    RunTerminates(m, k, fr, depth, cap, cap);
  }

  /** The condition is needed: a body that comes to a call of its own function never returns. */
  lemma {:induction false} SelfCallNeverReturns(m: Module, k: nat, j: nat, fr: Frame, depth: nat, steps: nat, cap: nat)
    requires k < |m.functions| && j < |m.functions[k].body|
    requires m.functions[k].body[j].op == CallFn && m.functions[k].body[j].imm == k
    requires forall i :: 0 <= i < j ==> var op := m.functions[k].body[i].op; !op.Jump? && !op.Branch? && !op.Ret?
    requires fr.pc <= j
    ensures !Run(m, m.functions[k], fr, depth, steps, cap).Returned?
    decreases depth, steps
  {
    var f := m.functions[k];
    if steps > 0 {
      match Step(m, f, fr) {
        case Next(fr') => SelfCallNeverReturns(m, k, j, fr', depth, steps - 1, cap);
        case Halt(_) =>
        case Invoke(c, regs) =>
          if depth > 0 {
            CallGoesOn(m, f, fr, depth, cap);
            if fr.pc == j {
              var start := Start(f, regs, fr.output);
              SelfCallNeverReturns(m, k, j, start, depth - 1, cap, cap);
            } else if Advance(m, f, fr, depth, cap).Next? {
              SelfCallNeverReturns(m, k, j, Advance(m, f, fr, depth, cap).frame, depth, steps - 1, cap);
            }
          }
      }
    }
  }

}
