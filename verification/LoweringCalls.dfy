/** The calls in the emitted code are those the function uses, all of them and no others. */
module LoweringCalls {
  import opened Collections
  import opened ExecIr
  import opened IrVm
  import opened Hir
  import opened HirToIr
  import opened LoweringCorrect
  import opened LoweringSafety
  import opened Reachability

  ghost predicate HasCall(body: seq<Instr>, k: nat) {
    exists j :: 0 <= j < |body| && body[j].op == CallFn && body[j].imm == k
  }

  /** The code has the call, if the expression is one that resolves to a function. */
  ghost predicate CallEmitted(h: HirModule, fi: nat, body: seq<Instr>, id: nat)
    requires fi < |h.fns| && id < |h.exprs|
  {
    h.exprs[id].HirCall? && h.exprs[id].callee < |h.exprs| && CallTarget(h, fi, id).Function? ==>
      HasCall(body, ToU16(CallTarget(h, fi, id).index))
  }

  ghost predicate OperandsEmitted(h: HirModule, memo: map<nat, nat>, id: nat)
    requires id < |h.exprs|
  {
    forall o :: o in Operands(h, id) && o < |h.exprs| ==> o in memo
  }

  /** Whatever has a register has its operands and its call in the code. */
  ghost predicate AllEmitted(h: HirModule, fi: nat, st: LState)
    requires fi < |h.fns|
  {
    forall id :: id in st.memo ==> id < |h.exprs| && OperandsEmitted(h, st.memo, id) && CallEmitted(h, fi, st.body, id)
  }

  lemma EmittedGrows(h: HirModule, fi: nat, a: LState, b: LState, id: nat)
    requires fi < |h.fns| && id < |h.exprs| && a.body <= b.body && a.memo.Keys <= b.memo.Keys
    ensures OperandsEmitted(h, a.memo, id) ==> OperandsEmitted(h, b.memo, id)
    ensures CallEmitted(h, fi, a.body, id) ==> CallEmitted(h, fi, b.body, id)
  {
    hide Operands, CallTarget;
    forall k | HasCall(a.body, k)
      ensures HasCall(b.body, k)
    {
      var j :| 0 <= j < |a.body| && a.body[j].op == CallFn && a.body[j].imm == k;
      assert b.body[j] == a.body[j];
    }
  }

  lemma DefineEmits(h: HirModule, fi: nat, st: LState, id: nat, op: Op, b: nat, c: nat, imm: nat)
    requires fi < |h.fns| && id < |h.exprs| && AllEmitted(h, fi, st) && OperandsEmitted(h, st.memo, id)
    requires h.exprs[id].HirCall? && h.exprs[id].callee < |h.exprs| && CallTarget(h, fi, id).Function? ==>
               op == CallFn && imm == ToU16(CallTarget(h, fi, id).index)
    ensures AllEmitted(h, fi, Define(st, id, op, b, c, imm).0)
  {
    hide Operands, CallTarget, OperandsEmitted, CallEmitted;
    var st' := Define(st, id, op, b, c, imm).0;
    EmittedLast(h, fi, st.body, id, st'.body[|st.body|]);
    forall other | other in st'.memo
      ensures other < |h.exprs| && OperandsEmitted(h, st'.memo, other) && CallEmitted(h, fi, st'.body, other)
    {
      EmittedGrows(h, fi, st, st', other);
    }
  }

  lemma EmittedLast(h: HirModule, fi: nat, body: seq<Instr>, id: nat, last: Instr)
    requires fi < |h.fns| && id < |h.exprs|
    requires h.exprs[id].HirCall? && h.exprs[id].callee < |h.exprs| && CallTarget(h, fi, id).Function? ==>
               last.op == CallFn && last.imm == ToU16(CallTarget(h, fi, id).index)
    ensures CallEmitted(h, fi, body + [last], id)
  {
    hide CallTarget;
    assert (body + [last])[|body|] == last;
  }

  lemma LeafEmits(h: HirModule, fi: nat, st: LState, id: nat)
    requires WellFormed(h) && fi < |h.fns| && id < |h.exprs| && id !in st.memo && AllEmitted(h, fi, st)
    requires !h.exprs[id].Binary? && !h.exprs[id].Unary? && !h.exprs[id].HirCall? && LowerOperand(h, fi, st, id).0.ok
    ensures AllEmitted(h, fi, LowerOperand(h, fi, st, id).0)
  {
    hide WellFormed, FirstIndex, CallTarget;
    var e := h.exprs[id];
    assert e.Literal? || e.StringLiteral? || e.Var? || e.SlotLoad?;
    assert Operands(h, id) == [];
    var st' := LowerOperand(h, fi, st, id).0;
    forall other | other in st'.memo
      ensures other < |h.exprs| && OperandsEmitted(h, st'.memo, other) && CallEmitted(h, fi, st'.body, other)
    {
      if other != id {
        EmittedGrows(h, fi, st, st', other);
      }
    }
  }

  lemma {:induction false} OperandEmits(h: HirModule, fi: nat, st: LState, id: nat)
    requires WellFormed(h) && fi < |h.fns| && Consistent(h, fi, st) && AllEmitted(h, fi, st) && LowerOperand(h, fi, st, id).0.ok
    ensures AllEmitted(h, fi, LowerOperand(h, fi, st, id).0)
    decreases Rank(h, id), 1
  {
    hide WellFormed, Consistent, AllEmitted, Continues, CallTarget, Define, BinaryOpcode, UnaryOpcode, LowerLiteral, LowerString, LowerVar;
    if id < |h.exprs| && id !in st.memo {
      InPool(h, id);
      match h.exprs[id]
      case Binary(op, l, r) =>
        var (st1, lhs) := LowerOperand(h, fi, st, l);
        var (st2, rhs) := LowerOperand(h, fi, st1, r);
        DefineOk(st2, id, BinaryOpcode(op), lhs, rhs, 0);
        OperandContinues(h, fi, st, l);
        OperandContinues(h, fi, st1, r);
        OkBefore(st1, st2);
        OperandEmits(h, fi, st, l);
        OperandEmits(h, fi, st1, r);
        Grown(st1, st2);
        DefineEmits(h, fi, st2, id, BinaryOpcode(op), lhs, rhs, 0);
      case Unary(op, o) =>
        var (st1, operand) := LowerOperand(h, fi, st, o);
        DefineOk(st1, id, UnaryOpcode(op), operand, 0, 0);
        OperandContinues(h, fi, st, o);
        OperandEmits(h, fi, st, o);
        DefineEmits(h, fi, st1, id, UnaryOpcode(op), operand, 0, 0);
      case HirCall(_, _, _) => CallEmits(h, fi, st, id);
      case _ => LeafEmits(h, fi, st, id);
    }
  }

  lemma Grown(a: LState, b: LState)
    requires Continues(a, b)
    ensures a.body <= b.body && a.memo.Keys <= b.memo.Keys
  {
  }

  lemma {:induction false} CallEmits(h: HirModule, fi: nat, st: LState, id: nat)
    requires WellFormed(h) && fi < |h.fns| && Consistent(h, fi, st) && AllEmitted(h, fi, st) && LowerOperand(h, fi, st, id).0.ok
    requires id < |h.exprs| && h.exprs[id].HirCall? && id !in st.memo
    ensures AllEmitted(h, fi, LowerOperand(h, fi, st, id).0)
    decreases Rank(h, id), 0, 1
  {
    hide WellFormed, Consistent, AllEmitted, Continues, CallTarget, Define;
    InPool(h, id);
    var t := CallTarget(h, fi, id);
    if !t.NotFound? {
      var (st1, arg0) := LowerArg(h, fi, st, id, 0);
      var (st2, arg1) := LowerArg(h, fi, st1, id, 1);
      var op := if t.Extern? then CallExtern else CallFn;
      DefineOk(st2, id, op, arg0, arg1, ToU16(t.index));
      ArgContinues(h, fi, st, id, 0);
      ArgContinues(h, fi, st1, id, 1);
      OkBefore(st1, st2);
      ArgEmits(h, fi, st, id, 0);
      ArgEmits(h, fi, st1, id, 1);
      Grown(st1, st2);
      DefineEmits(h, fi, st2, id, op, arg0, arg1, ToU16(t.index));
    }
  }

  lemma {:induction false} ArgEmits(h: HirModule, fi: nat, st: LState, id: nat, i: nat)
    requires WellFormed(h) && fi < |h.fns| && id < |h.exprs| && h.exprs[id].HirCall?
    requires Consistent(h, fi, st) && AllEmitted(h, fi, st) && LowerArg(h, fi, st, id, i).0.ok
    ensures var st' := LowerArg(h, fi, st, id, i).0;
      && AllEmitted(h, fi, st')
      && (i < |h.exprs[id].args| && h.exprs[id].args[i] < |h.exprs| ==> h.exprs[id].args[i] in st'.memo)
    decreases Rank(h, id), 0, 0
  {
    hide WellFormed, Consistent, AllEmitted, Continues, LowerOperand;
    InPool(h, id);
    if i < |h.exprs[id].args| {
      OperandContinues(h, fi, st, h.exprs[id].args[i]);
      OperandEmits(h, fi, st, h.exprs[id].args[i]);
    }
  }

  // ---- a whole function ----

  /** The operands and the call of something a block lists, or ends in, are in the code. */
  ghost predicate RootEmitted(h: HirModule, fi: nat, st: LState, id: nat)
    requires fi < |h.fns| && id < |h.exprs|
  {
    OperandsEmitted(h, st.memo, id) && CallEmitted(h, fi, st.body, id)
  }

  lemma AllGrows(h: HirModule, fi: nat, a: LState, b: LState)
    requires fi < |h.fns| && AllEmitted(h, fi, a) && b.memo == a.memo && a.body <= b.body
    ensures AllEmitted(h, fi, b)
  {
    hide OperandsEmitted, CallEmitted;
    forall id | id in b.memo
      ensures id < |h.exprs| && OperandsEmitted(h, b.memo, id) && CallEmitted(h, fi, b.body, id)
    {
      EmittedGrows(h, fi, a, b, id);
    }
  }

  lemma InstEmits(h: HirModule, fi: nat, st: LState, id: nat)
    requires WellFormed(h) && fi < |h.fns| && id < |h.exprs| && Consistent(h, fi, st) && AllEmitted(h, fi, st)
    requires LowerInst(h, fi, st, id).ok
    ensures AllEmitted(h, fi, LowerInst(h, fi, st, id))
    ensures !h.exprs[id].HirRet? ==> RootEmitted(h, fi, LowerInst(h, fi, st, id), id)
  {
    hide WellFormed, Consistent, AllEmitted, LowerOperand, CallTarget, Continues;
    match h.exprs[id]
    case SlotAlloca(slot) =>
      AllGrows(h, fi, st, GrowSlots(st, slot));
    case HirRet(_) =>
    case SlotStore(slot, v) =>
      var st1 := LowerOperand(h, fi, st, v).0;
      OperandContinues(h, fi, st, v);
      OperandEmits(h, fi, st, v);
      AllGrows(h, fi, st1, LowerInst(h, fi, st, id));
    case _ =>
      OperandContinues(h, fi, st, id);
      OperandEmits(h, fi, st, id);
      AllEmittedAt(h, fi, LowerOperand(h, fi, st, id).0, id);
  }

  lemma AllEmittedAt(h: HirModule, fi: nat, st: LState, id: nat)
    requires fi < |h.fns| && AllEmitted(h, fi, st) && id in st.memo
    ensures id < |h.exprs| && RootEmitted(h, fi, st, id)
  {
    hide OperandsEmitted, CallEmitted;
  }

  lemma {:induction false} InstsEmit(h: HirModule, fi: nat, st: LState, ids: seq<nat>)
    requires WellFormed(h) && fi < |h.fns| && Consistent(h, fi, st) && AllEmitted(h, fi, st)
    requires forall i :: 0 <= i < |ids| ==> ids[i] < |h.exprs|
    requires LowerInsts(h, fi, st, ids).ok
    ensures var st' := LowerInsts(h, fi, st, ids);
      && AllEmitted(h, fi, st')
      && forall i :: 0 <= i < |ids| && !h.exprs[ids[i]].HirRet? ==> RootEmitted(h, fi, st', ids[i])
    decreases |ids|
  {
    hide WellFormed, Consistent, AllEmitted, LowerInst, Continues, OperandsEmitted, CallEmitted;
    if ids != [] {
      var st1, st' := LowerInst(h, fi, st, ids[0]), LowerInsts(h, fi, st, ids);
      InstContinues(h, fi, st, ids[0]);
      InstsContinue(h, fi, st1, ids[1..]);
      OkBefore(st1, st');
      InstEmits(h, fi, st, ids[0]);
      InstsEmit(h, fi, st1, ids[1..]);
      Grown(st1, st');
      EmittedGrows(h, fi, st1, st', ids[0]);
      assert forall i :: 0 < i < |ids| ==> ids[i] == ids[1..][i - 1];
    }
  }

  lemma ReturnEmits(h: HirModule, fi: nat, st: LState, id: nat)
    requires WellFormed(h) && fi < |h.fns| && id < |h.exprs| && h.exprs[id].HirRet?
    requires Consistent(h, fi, st) && AllEmitted(h, fi, st) && LowerTerminator(h, fi, st, id).ok
    ensures AllEmitted(h, fi, LowerTerminator(h, fi, st, id)) && RootEmitted(h, fi, LowerTerminator(h, fi, st, id), id)
  {
    hide WellFormed, Consistent, AllEmitted, LowerOperand, Continues;
    match h.exprs[id].result
    case None => AllGrows(h, fi, st, LowerTerminator(h, fi, st, id));
    case Some(v) =>
      var st1 := LowerOperand(h, fi, st, v).0;
      OperandContinues(h, fi, st, v);
      OperandEmits(h, fi, st, v);
      AllGrows(h, fi, st1, LowerTerminator(h, fi, st, id));
  }

  /** In a lowered function everything the block asks for is in the code. */
  lemma FunctionEmits(h: HirModule, fi: nat, m: Module, ok: bool)
    requires WellFormed(h) && fi < |h.fns| && IsStraight(h, h.fns[fi]) && Distinct(m.strings) && LowerFunction(h, fi, m, ok).ok
    ensures var st, b := LowerFunction(h, fi, m, ok), h.fns[fi].blocks[0];
      && AllEmitted(h, fi, st)
      && forall id :: IsRoot(h, b, id) ==> RootEmitted(h, fi, st, id)
  {
    hide WellFormed, Consistent, LowerInsts, LowerTerminator, LowerFunction, Distinct, Continues, OperandsEmitted, CallEmitted;
    var b := h.fns[fi].blocks[0];
    StraightLowering(h, fi, m, ok);
    var st0 := Begin(h.fns[fi], m, ok);
    var st1 := LowerInsts(h, fi, st0, b.insts);
    var st := LowerTerminator(h, fi, st1, b.terminator.value);
    OkBefore(st1, st);
    InstsEmit(h, fi, st0, b.insts);
    ReturnEmits(h, fi, st1, b.terminator.value);
    Grown(st1, st);
    forall id: nat | IsRoot(h, b, id)
      ensures RootEmitted(h, fi, st, id)
    {
      if id in b.insts && !h.exprs[id].HirRet? {
        var i :| 0 <= i < |b.insts| && b.insts[i] == id;
        EmittedGrows(h, fi, st1, st, id);
      }
    }
  }

  lemma UsedIsEmitted(h: HirModule, fi: nat, st: LState, id: nat)
    requires fi < |h.fns| && |h.fns[fi].blocks| == 1 && AllEmitted(h, fi, st)
    requires forall root :: IsRoot(h, h.fns[fi].blocks[0], root) ==> RootEmitted(h, fi, st, root)
    requires Uses(h, fi, id)
    ensures id < |h.exprs| && CallEmitted(h, fi, st.body, id)
  {
    hide IsRoot, Operands, CallEmitted;
    var g := OperandGraph(h);
    var b, root :| 0 <= b < |h.fns[fi].blocks| && IsRoot(h, h.fns[fi].blocks[b], root) && ReachesOrIs(g, root, id);
    RootInPool(h, h.fns[fi].blocks[0], root);
    if id != root {
      var walk :| WalkBetween(g, walk, root, id);
      assert walk[1] in Reachability.Next(g, walk[0]);
      assert Closed(g, st.memo.Keys);
      var rest := walk[1..];
      assert IsWalk(g, rest) by {
        forall i | 0 < i < |rest|
          ensures rest[i] in Reachability.Next(g, rest[i - 1])
        {
          assert rest[i] == walk[i + 1] && rest[i - 1] == walk[i];
        }
      }
      WalkStaysInClosed(g, st.memo.Keys, rest, |rest| - 1);
      AllEmittedAt(h, fi, st, id);
    }
  }

  lemma RootInPool(h: HirModule, b: Block, id: nat)
    requires IsRoot(h, b, id)
    ensures id < |h.exprs|
  {
  }

  /** The functions a lowered body calls are those that the calls its function uses resolve to. */
  lemma CallsAreEmittedIff(h: HirModule, m: Module, k: nat, t: nat)
    requires Compiled(h, m) && k < |m.functions|
    ensures |m.functions| == |Emitted(h, |h.fns|)|
    ensures HasCall(m.functions[k].body, t) <==> CallsNumber(h, Emitted(h, |h.fns|)[k], t)
  {
    hide Compiled, Emitted, BodyInBounds, Uses, CallTarget, EmittedNames, AllEmitted, LowerFunction, WellFormed, SourceName, ExternNames, Distinct;
    FunctionCount(h, m);
    var l := FunctionIsSafe(h, m, k);
    var f := m.functions[k];
    if HasCall(f.body, t) {
      var j :| 0 <= j < |f.body| && f.body[j].op == CallFn && f.body[j].imm == t;
      SafeInstr(m, f, l, j);
    }
    if CallsNumber(h, Emitted(h, |h.fns|)[k], t) {
      var fi, m0, ok := FunctionAt(h, m, k);
      CompiledAt(h, m, fi);
      FunctionEmits(h, fi, m0, ok);
      var id: nat :| Uses(h, fi, id) && id < |h.exprs| && h.exprs[id].HirCall? && h.exprs[id].callee < |h.exprs| &&
                 CallTarget(h, fi, id) == Target.Function(t);
      UsedIsEmitted(h, fi, LowerFunction(h, fi, m0, ok), id);
      ScopeIsBounded(h, m, fi);
    }
  }

  /** So a function that uses a call of itself never returns, whatever its arguments and the budget. */
  lemma SelfCallerNeverReturns(h: HirModule, m: Module, k: nat, regs: seq<int>, output: string, depth: nat, steps: nat, cap: nat)
    requires Compiled(h, m) && k < |m.functions| && |m.functions| == |Emitted(h, |h.fns|)|
    requires CallsNumber(h, Emitted(h, |h.fns|)[k], k)
    ensures !Run(m, m.functions[k], Start(m.functions[k], regs, output), depth, steps, cap).Returned?
  {
    hide Compiled, Emitted, BodyInBounds, Run, CallsNumber, IsSafe;
    CallsAreEmittedIff(h, m, k, k);
    var f := m.functions[k];
    var j :| 0 <= j < |f.body| && f.body[j].op == CallFn && f.body[j].imm == k;
    var l := FunctionIsSafe(h, m, k);
    forall i | 0 <= i <= j
      ensures !f.body[i].op.Jump? && !f.body[i].op.Branch? && !f.body[i].op.Ret?
    {
      SafeInstr(m, f, l, i);
      SafeInstr(m, f, l, j);
    }
    SelfCallNeverReturns(m, k, j, Start(f, regs, output), depth, steps, cap);
  }
}
