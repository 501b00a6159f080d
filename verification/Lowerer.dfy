/** The lowering as the compiler runs it: one mutable state with 16-bit counters and a register
    table that marks unassigned entries. While the counters fit it computes the function of
    module `HirToIr`. */
module Lowerer {
  import opened Collections
  import opened ExecIr
  import opened Hir
  import opened HirToIr

  const UNASSIGNED: nat := 0xFFFF

  /** The memo a register table stands for. */
  ghost function MemoOf(regs: seq<nat>): (m: map<nat, nat>)
    ensures forall id: nat :: id in m <==> id < |regs| && regs[id] != UNASSIGNED
    ensures forall id: nat :: id in m ==> m[id] == regs[id]
  {
    map id: nat | id < |regs| && regs[id] != UNASSIGNED :: regs[id]
  }

  lemma MemoUpdate(regs: seq<nat>, id: nat, r: nat)
    requires id < |regs| && r != UNASSIGNED
    ensures MemoOf(regs[id := r]) == MemoOf(regs)[id := r]
  {
  }

  /** No register number exceeds the 16-bit field, the last one being the unassigned mark. */
  ghost predicate Fits(st: LState, params: nat) { st.registerCount < U16 && params < U16 }

  lemma FitsAfterDefine(st: LState, id: nat, op: Op, b: nat, c: nat, imm: nat)
    ensures Fits(HirToIr.Define(st, id, op, b, c, imm).0, 0) <==> st.registerCount + 1 < U16
  {
  }

  lemma DefineIs(st: LState, after: LState, id: nat, op: Op, b: nat, c: nat, imm: nat)
    requires after == st.(body := st.body + [Instr(op, st.registerCount, b, c, imm)],
                          memo := st.memo[id := st.registerCount], registerCount := st.registerCount + 1)
    ensures (after, st.registerCount) == HirToIr.Define(st, id, op, b, c, imm)
  {
  }

  /** One level of the recursive definition. */
  lemma OperandCases(h: HirModule, fi: nat, st: LState, id: nat)
    requires WellFormed(h) && fi < |h.fns|
    ensures id >= |h.exprs| ==> LowerOperand(h, fi, st, id) == (st, 0)
    ensures id < |h.exprs| && id in st.memo ==> LowerOperand(h, fi, st, id) == (st, st.memo[id])
    ensures id < |h.exprs| && id !in st.memo ==>
      var e := h.exprs[id];
      && (e.Literal? ==> LowerOperand(h, fi, st, id) == LowerLiteral(st, id, e.value))
      && (e.StringLiteral? ==> LowerOperand(h, fi, st, id) == LowerString(st, id, e.text))
      && (e.Var? ==> LowerOperand(h, fi, st, id) == LowerVar(h, fi, st, id, e.name))
      && (e.SlotLoad? ==> LowerOperand(h, fi, st, id) == Define(st, id, Op.SlotLoad, 0, 0, ToU16(e.slot)))
      && (e.Binary? ==>
            var (st1, lhs) := LowerOperand(h, fi, st, e.lhs);
            var (st2, rhs) := LowerOperand(h, fi, st1, e.rhs);
            LowerOperand(h, fi, st, id) == Define(st2, id, BinaryOpcode(e.op), lhs, rhs, 0))
      && (e.Unary? ==>
            var (st1, operand) := LowerOperand(h, fi, st, e.operand);
            LowerOperand(h, fi, st, id) == Define(st1, id, UnaryOpcode(e.uop), operand, 0, 0))
      && (!e.Literal? && !e.StringLiteral? && !e.Var? && !e.SlotLoad? && !e.Binary? && !e.Unary? && !e.HirCall? ==>
            LowerOperand(h, fi, st, id) == Fail(st))
  {
    hide WellFormed, Define, BinaryOpcode, UnaryOpcode, CallTarget, LowerLiteral, LowerString, LowerVar, ToU16, LowerArg;
  }

  lemma CallCases(h: HirModule, fi: nat, st: LState, id: nat)
    requires WellFormed(h) && fi < |h.fns| && id < |h.exprs| && h.exprs[id].HirCall? && id !in st.memo
    requires h.exprs[id].callee < |h.exprs|
    ensures var t := CallTarget(h, fi, id);
      var (st1, arg0) := LowerArg(h, fi, st, id, 0);
      var (st2, arg1) := LowerArg(h, fi, st1, id, 1);
      LowerOperand(h, fi, st, id) ==
        if t.NotFound? then Fail(st)
        else Define(st2, id, if t.Extern? then CallExtern else CallFn, arg0, arg1, ToU16(t.index))
  {
    hide WellFormed, Define, CallTarget, ToU16, LowerArg, LowerLiteral, LowerString, LowerVar, BinaryOpcode, UnaryOpcode;
  }

  lemma InstCases(h: HirModule, fi: nat, st: LState, id: nat)
    requires WellFormed(h) && fi < |h.fns| && id < |h.exprs|
    ensures var e := h.exprs[id];
      && (e.SlotAlloca? ==> LowerInst(h, fi, st, id) == GrowSlots(st, e.slot))
      && (e.SlotStore? ==>
            var (st1, value) := LowerOperand(h, fi, st, e.stored);
            LowerInst(h, fi, st, id) == Emit(GrowSlots(st1, e.slot), Op.SlotStore, 0, value, 0, ToU16(e.slot)))
      && (e.HirRet? ==> LowerInst(h, fi, st, id) == st)
      && (!e.SlotAlloca? && !e.SlotStore? && !e.HirRet? ==> LowerInst(h, fi, st, id) == LowerOperand(h, fi, st, id).0)
  {
    hide WellFormed, LowerOperand, Emit, GrowSlots, ToU16;
  }

  lemma TerminatorCases(h: HirModule, fi: nat, st: LState, id: nat)
    requires WellFormed(h) && fi < |h.fns| && id < |h.exprs|
    ensures var e := h.exprs[id];
      && (e.HirJump? ==> LowerTerminator(h, fi, st, id) == Emit(st, Jump, 0, 0, 0, ToU16(e.target)))
      && (e.HirBranch? ==>
            var (st1, cond) := LowerOperand(h, fi, st, e.cond);
            LowerTerminator(h, fi, st, id) ==
              Emit(Emit(st1, Branch, 0, cond, 0, ToU16(e.thenBlock)), Jump, 0, 0, 0, ToU16(e.elseBlock)))
      && (e.HirRet? && e.result.None? ==>
            LowerTerminator(h, fi, st, id) == Emit(st.(returnIsExitCode := false), Ret, 0, 0, 0, 0))
      && (e.HirRet? && e.result.Some? ==>
            var (st1, value) := LowerOperand(h, fi, st, e.result.value);
            LowerTerminator(h, fi, st, id) ==
              Emit(st1.(returnRegister := value, returnIsExitCode := true), Ret, 0, 0, 0, 0))
      && (!e.HirJump? && !e.HirBranch? && !e.HirRet? ==> LowerTerminator(h, fi, st, id) == st)
  {
    hide WellFormed, LowerOperand, Emit, ToU16;
  }

  lemma {:induction false} ArgCases(h: HirModule, fi: nat, st: LState, id: nat, i: nat)
    requires WellFormed(h) && fi < |h.fns| && id < |h.exprs| && h.exprs[id].HirCall?
    ensures LowerArg(h, fi, st, id, i) ==
      if i < |h.exprs[id].args| then LowerOperand(h, fi, st, h.exprs[id].args[i]) else (st, 0)
    ensures st.registerCount <= LowerArg(h, fi, st, id, i).0.registerCount
  {
    hide WellFormed, LowerOperand;
    if i < |h.exprs[id].args| { OperandCount(h, fi, st, h.exprs[id].args[i]); }
  }

  lemma {:induction false} OperandCount(h: HirModule, fi: nat, st: LState, id: nat)
    requires WellFormed(h) && fi < |h.fns|
    ensures st.registerCount <= LowerOperand(h, fi, st, id).0.registerCount
    decreases Rank(h, id)
  {
    hide WellFormed, CallTarget, ToU16, BinaryOpcode, UnaryOpcode, FirstIndex;
    if id < |h.exprs| && id !in st.memo {
      InPool(h, id);
      match h.exprs[id]
      case Binary(_, l, r) =>
        OperandCount(h, fi, st, l);
        OperandCount(h, fi, LowerOperand(h, fi, st, l).0, r);
      case Unary(_, o) => OperandCount(h, fi, st, o);
      case HirCall(_, _, args) =>
        if 0 < |args| { OperandCount(h, fi, st, args[0]); }
        if 1 < |args| { OperandCount(h, fi, LowerArg(h, fi, st, id, 0).0, args[1]); }
      case _ =>
    }
  }

  lemma ArgsInPool(h: HirModule, id: nat)
    requires WellFormed(h) && id < |h.exprs| && h.exprs[id].HirCall?
    ensures h.exprs[id].callee < |h.exprs|
    ensures forall i :: 0 <= i < |h.exprs[id].args| ==> Rank(h, h.exprs[id].args[i]) < Rank(h, id)
  {
    InPool(h, id);
    hide WellFormed;
  }

  lemma DefineGrows(st: LState, id: nat)
    ensures forall op, b: nat, c: nat, imm: nat ::
      Define(st, id, op, b, c, imm).0.registerCount == st.registerCount + 1
  {
  }

  lemma InstCount(h: HirModule, fi: nat, st: LState, id: nat)
    requires WellFormed(h) && fi < |h.fns| && id < |h.exprs|
    ensures st.registerCount <= LowerInst(h, fi, st, id).registerCount
  {
    hide WellFormed, LowerOperand;
    match h.exprs[id]
    case SlotAlloca(_) =>
    case HirRet(_) =>
    case SlotStore(_, v) => OperandCount(h, fi, st, v);
    case _ => OperandCount(h, fi, st, id);
  }

  lemma {:induction false} InstsCount(h: HirModule, fi: nat, st: LState, ids: seq<nat>)
    requires WellFormed(h) && fi < |h.fns| && forall i :: 0 <= i < |ids| ==> ids[i] < |h.exprs|
    ensures st.registerCount <= LowerInsts(h, fi, st, ids).registerCount
    decreases |ids|
  {
    hide WellFormed, LowerInst;
    if ids != [] {
      InstCount(h, fi, st, ids[0]);
      InstsCount(h, fi, LowerInst(h, fi, st, ids[0]), ids[1..]);
    }
  }

  lemma InstsStep(h: HirModule, fi: nat, st: LState, ids: seq<nat>)
    requires WellFormed(h) && fi < |h.fns| && forall i :: 0 <= i < |ids| ==> ids[i] < |h.exprs|
    ensures LowerInsts(h, fi, st, ids) ==
      if ids == [] then st else LowerInsts(h, fi, LowerInst(h, fi, st, ids[0]), ids[1..])
  {
    hide WellFormed, LowerInst;
  }

  lemma TerminatorCount(h: HirModule, fi: nat, st: LState, id: nat)
    requires WellFormed(h) && fi < |h.fns| && id < |h.exprs|
    ensures st.registerCount <= LowerTerminator(h, fi, st, id).registerCount
  {
    hide WellFormed, LowerOperand;
    match h.exprs[id]
    case HirBranch(c, _, _) => OperandCount(h, fi, st, c);
    case HirRet(Some(v)) => OperandCount(h, fi, st, v);
    case _ =>
  }

  lemma {:induction false} BlocksCount(h: HirModule, fi: nat, st: LState, bs: seq<Block>)
    requires WellFormed(h) && fi < |h.fns| && forall b :: 0 <= b < |bs| ==> BlockInRange(h, bs[b])
    ensures st.registerCount <= LowerBlocks(h, fi, st, bs).registerCount
    decreases |bs|
  {
    hide WellFormed, LowerInsts, LowerTerminator, BlockInRange;
    if bs != [] {
      BlockCount(h, fi, st, bs[0]);
      BlocksCount(h, fi, LowerBlock(h, fi, st, bs[0]), bs[1..]);
    }
  }

  lemma BlockCount(h: HirModule, fi: nat, st: LState, b: Block)
    requires WellFormed(h) && fi < |h.fns| && BlockInRange(h, b)
    ensures st.registerCount <= LowerBlock(h, fi, st, b).registerCount
  {
    hide WellFormed, LowerInsts, LowerTerminator;
    InstsCount(h, fi, st, b.insts);
    if b.terminator.Some? {
      TerminatorCount(h, fi, LowerInsts(h, fi, st, b.insts), b.terminator.value);
    }
  }

  class LowerState {
    const h: HirModule
    var fi: nat
    var regs: seq<nat>
    var registerCount: nat
    var slotCount: nat
    var returnRegister: nat
    var returnIsExitCode: bool
    var body: seq<Instr>
    var names: seq<string>
    var constants: seq<int>
    var strings: seq<string>
    var externs: seq<string>
    var ok: bool

    ghost predicate Valid()
      reads this
    {
      WellFormed(h) && fi < |h.fns| && |regs| == |h.exprs|
      && names == EmittedNames(h, fi + 1) && externs == ExternNames(h, fi)
    }

    /** The lowering state this object stands for. */
    ghost function State(): LState
      reads this
    {
      LState(MemoOf(regs), registerCount, slotCount, returnRegister, returnIsExitCode, body, constants, strings, ok)
    }

    constructor (h: HirModule)
      requires WellFormed(h)
      ensures this.h == h && names == [] && externs == [] && constants == [] && strings == [] && ok
    {
      this.h := h;
      fi, regs, registerCount, slotCount, returnRegister, returnIsExitCode, body := 0, [], 1, 0, 0, true, [];
      names, constants, strings, externs, ok := [], [], [], [], true;
    }

    /** `registerCount++` on 16 bits, an instruction into that register, and the memo entry. */
    method Define(id: nat, op: Op, b: nat, c: nat, imm: nat) returns (dest: nat)
      requires Valid() && id < |h.exprs|
      modifies this`registerCount, this`body, this`regs
      ensures Valid()
      ensures Fits(HirToIr.Define(old(State()), id, op, b, c, imm).0, 0) ==>
        (State(), dest) == HirToIr.Define(old(State()), id, op, b, c, imm)
    {
      hide WellFormed, EmittedNames, ExternNames, MemoOf, Fits, HirToIr.Define;
      ghost var st := State();
      FitsAfterDefine(st, id, op, b, c, imm);
      dest := registerCount;
      if dest != UNASSIGNED { MemoUpdate(regs, id, dest); }
      registerCount := if registerCount + 1 < 0x1_0000 then registerCount + 1 else 0;
      body := body + [Instr(op, dest, b, c, imm)];
      regs := regs[id := dest];
      if dest + 1 < U16 {
        DefineIs(st, State(), id, op, b, c, imm);
      }
    }

    /** The search through the functions emitted so far, then through the external names. */
    method FindTarget(id: nat) returns (t: Target)
      requires Valid() && id < |h.exprs| && h.exprs[id].HirCall? && h.exprs[id].callee < |h.exprs|
      ensures t == CallTarget(h, fi, id)
    {
      hide WellFormed, EmittedNames, ExternNames, FirstIndex, SourceName;
      var call := h.exprs[id];
      if call.resolved.Some? {
        var f := 0;
        while f < |h.fns|
          invariant 0 <= f <= |h.fns|
          invariant FindBySymbol(h, call.resolved.value, 0, names) == FindBySymbol(h, call.resolved.value, f, names)
        {
          if h.fns[f].symbol == call.resolved.value {
            var candidate := FindFirst(names, SourceName(h.fns[f].linkage));
            if candidate.Some? { return Target.Function(candidate.value); }
          }
          f := f + 1;
        }
      }
      if h.exprs[call.callee].Var? {
        var e := FindFirst(externs, h.exprs[call.callee].name);
        if e.Some? { return Target.Extern(e.value, h.exprs[call.callee].name); }
      }
      return Target.NotFound;
    }

    /** `lowerOperand`: memo hit, or by the kind of the expression. */
    method LowerOperand(id: nat) returns (r: nat)
      requires Valid()
      modifies this`regs, this`registerCount, this`body, this`constants, this`strings, this`ok
      ensures Valid()
      ensures Fits(HirToIr.LowerOperand(h, fi, old(State()), id).0, |h.fns[fi].params|) ==>
        (State(), r) == HirToIr.LowerOperand(h, fi, old(State()), id)
      decreases Rank(h, id), 1
    {
      hide WellFormed, CallTarget, EmittedNames, ExternNames, HirToIr.LowerOperand, HirToIr.LowerArg, HirToIr.Define,
        BinaryOpcode, UnaryOpcode, HirToIr.LowerLiteral, HirToIr.LowerString, HirToIr.LowerVar, ToU16;
      OperandCases(h, fi, State(), id);
      if id >= |regs| { return 0; }
      if regs[id] != UNASSIGNED { return regs[id]; }
      InPool(h, id);
      match h.exprs[id] {
        case Literal(v) => r := LowerLiteral(id, v);
        case StringLiteral(text) => r := LowerString(id, text);
        case Var(name) => r := LowerVar(id, name);
        case Binary(_, _, _) => r := LowerBinary(id);
        case Unary(op, o) => r := LowerUnary(id);
        case HirCall(_, _, _) => r := LowerCall(id);
        case SlotLoad(slot) => r := Define(id, Op.SlotLoad, 0, 0, ToU16(slot));
        case _ =>
          ok := false;
          r := 0;
      }
    }

    method LowerLiteral(id: nat, v: int) returns (r: nat)
      requires Valid() && id < |h.exprs|
      modifies this`regs, this`registerCount, this`body, this`constants, this`ok
      ensures Valid()
      ensures Fits(HirToIr.LowerLiteral(old(State()), id, v).0, 0) ==>
        (State(), r) == HirToIr.LowerLiteral(old(State()), id, v)
    {
      hide WellFormed, EmittedNames, ExternNames;
      var index := |constants|;
      if index > 0xFFFF { ok := false; }
      constants := constants + [v];
      r := Define(id, LoadConst, 0, 0, ToU16(index));
    }

    method LowerString(id: nat, text: string) returns (r: nat)
      requires Valid() && id < |h.exprs|
      modifies this`regs, this`registerCount, this`body, this`strings, this`ok
      ensures Valid()
      ensures Fits(HirToIr.LowerString(old(State()), id, text).0, 0) ==>
        (State(), r) == HirToIr.LowerString(old(State()), id, text)
    {
      hide WellFormed, EmittedNames, ExternNames, FirstIndex;
      var found := FindFirst(strings, text);
      var index := if found.Some? then found.value else |strings|;
      if index == |strings| { strings := strings + [text]; }
      if index > 0xFFFF { ok := false; }
      r := Define(id, LoadString, 0, 0, if index > 0xFFFF then 0 else index);
    }

    method LowerVar(id: nat, name: string) returns (r: nat)
      requires Valid() && id < |h.exprs|
      modifies this`regs, this`ok
      ensures Valid()
      ensures |h.fns[fi].params| < U16 ==> (State(), r) == HirToIr.LowerVar(h, fi, old(State()), id, name)
    {
      hide WellFormed, EmittedNames, ExternNames, FirstIndex;
      var p := FindFirst(h.fns[fi].params[..ToU16(|h.fns[fi].params|)], name);
      if p.Some? {
        if p.value != UNASSIGNED { MemoUpdate(regs, id, p.value); }
        regs := regs[id := p.value];
        return p.value;
      }
      ok := false;
      return 0;
    }

    method LowerBinary(id: nat) returns (r: nat)
      requires Valid() && id < |h.exprs| && h.exprs[id].Binary? && id !in State().memo
      modifies this`regs, this`registerCount, this`body, this`constants, this`strings, this`ok
      ensures Valid()
      ensures Fits(HirToIr.LowerOperand(h, fi, old(State()), id).0, |h.fns[fi].params|) ==>
        (State(), r) == HirToIr.LowerOperand(h, fi, old(State()), id)
      decreases Rank(h, id), 0
    {
      hide WellFormed, EmittedNames, ExternNames, HirToIr.LowerOperand, BinaryOpcode;
      var e := h.exprs[id];
      InPool(h, id);
      OperandCases(h, fi, State(), id);
      OperandCount(h, fi, HirToIr.LowerOperand(h, fi, State(), e.lhs).0, e.rhs);
      var lhs := LowerOperand(e.lhs);
      var rhs := LowerOperand(e.rhs);
      r := Define(id, BinaryOpcode(e.op), lhs, rhs, 0);
    }

    method LowerUnary(id: nat) returns (r: nat)
      requires Valid() && id < |h.exprs| && h.exprs[id].Unary? && id !in State().memo
      modifies this`regs, this`registerCount, this`body, this`constants, this`strings, this`ok
      ensures Valid()
      ensures Fits(HirToIr.LowerOperand(h, fi, old(State()), id).0, |h.fns[fi].params|) ==>
        (State(), r) == HirToIr.LowerOperand(h, fi, old(State()), id)
      decreases Rank(h, id), 0
    {
      hide WellFormed, EmittedNames, ExternNames, HirToIr.LowerOperand, UnaryOpcode;
      var e := h.exprs[id];
      InPool(h, id);
      OperandCases(h, fi, State(), id);
      var operand := LowerOperand(e.operand);
      r := Define(id, UnaryOpcode(e.uop), operand, 0, 0);
    }

    method LowerCall(id: nat) returns (r: nat)
      requires Valid() && id < |h.exprs| && h.exprs[id].HirCall? && id !in State().memo
      modifies this`regs, this`registerCount, this`body, this`constants, this`strings, this`ok
      ensures Valid()
      ensures Fits(HirToIr.LowerOperand(h, fi, old(State()), id).0, |h.fns[fi].params|) ==>
        (State(), r) == HirToIr.LowerOperand(h, fi, old(State()), id)
      decreases Rank(h, id), 0
    {
      hide WellFormed, EmittedNames, ExternNames, HirToIr.LowerOperand, HirToIr.LowerArg, CallTarget, ToU16, MemoOf,
        HirToIr.Define, OperandsPrecede;
      var args := h.exprs[id].args;
      ArgsInPool(h, id);
      ghost var st := State();
      CallCases(h, fi, st, id);
      ArgCases(h, fi, st, id, 0);
      ArgCases(h, fi, HirToIr.LowerArg(h, fi, st, id, 0).0, id, 1);
      var t := FindTarget(id);
      if t.NotFound? {
        ok := false;
        return 0;
      }
      var arg0, arg1 := 0, 0;
      if |args| > 0 { arg0 := LowerOperand(args[0]); }
      if |args| > 1 { arg1 := LowerOperand(args[1]); }
      DefineGrows(HirToIr.LowerArg(h, fi, HirToIr.LowerArg(h, fi, st, id, 0).0, id, 1).0, id);
      r := Define(id, if t.Extern? then CallExtern else CallFn, arg0, arg1, ToU16(t.index));
    }

    /** One instruction of a block. */
    method LowerInst(id: nat)
      requires Valid() && id < |h.exprs|
      modifies this`regs, this`registerCount, this`body, this`constants, this`strings, this`ok, this`slotCount
      ensures Valid()
      ensures Fits(HirToIr.LowerInst(h, fi, old(State()), id), |h.fns[fi].params|) ==>
        State() == HirToIr.LowerInst(h, fi, old(State()), id)
    {
      hide WellFormed, EmittedNames, ExternNames, HirToIr.LowerOperand, HirToIr.LowerInst, MemoOf, ToU16;
      InstCases(h, fi, State(), id);
      match h.exprs[id] {
        case SlotAlloca(slot) =>
          slotCount := Max(slotCount, ToU16(ToU16(slot) + 1));
        case SlotStore(slot, v) =>
          var value := LowerOperand(v);
          slotCount := Max(slotCount, ToU16(ToU16(slot) + 1));
          body := body + [Instr(Op.SlotStore, 0, value, 0, ToU16(slot))];
        case HirRet(_) =>
        case _ =>
          var _ := LowerOperand(id);
      }
    }

    /** The block's terminator. */
    method LowerTerminator(id: nat)
      requires Valid() && id < |h.exprs|
      modifies this`regs, this`registerCount, this`body, this`constants, this`strings, this`ok,
               this`returnRegister, this`returnIsExitCode
      ensures Valid()
      ensures Fits(HirToIr.LowerTerminator(h, fi, old(State()), id), |h.fns[fi].params|) ==>
        State() == HirToIr.LowerTerminator(h, fi, old(State()), id)
    {
      hide WellFormed, EmittedNames, ExternNames, HirToIr.LowerOperand, HirToIr.LowerTerminator, MemoOf, ToU16;
      TerminatorCases(h, fi, State(), id);
      match h.exprs[id] {
        case HirJump(target) =>
          body := body + [Instr(Jump, 0, 0, 0, ToU16(target))];
        case HirBranch(c, t, e) =>
          var cond := LowerOperand(c);
          body := body + [Instr(Branch, 0, cond, 0, ToU16(t))];
          body := body + [Instr(Jump, 0, 0, 0, ToU16(e))];
        case HirRet(result) =>
          if result.Some? {
            returnRegister := LowerOperand(result.value);
            returnIsExitCode := true;
          } else {
            returnIsExitCode := false;
          }
          body := body + [Instr(Ret, 0, 0, 0, 0)];
        case _ =>
      }
    }

    method LowerBlock(b: Block)
      requires Valid() && BlockInRange(h, b)
      modifies this`regs, this`registerCount, this`body, this`constants, this`strings, this`ok, this`slotCount,
               this`returnRegister, this`returnIsExitCode
      ensures Valid()
      ensures Fits(HirToIr.LowerBlock(h, fi, old(State()), b), |h.fns[fi].params|) ==>
        State() == HirToIr.LowerBlock(h, fi, old(State()), b)
    {
      hide WellFormed, EmittedNames, ExternNames, HirToIr.LowerInst, HirToIr.LowerTerminator, MemoOf, LowerInsts;
      ghost var st1 := LowerInsts(h, fi, State(), b.insts);
      ghost var params := |h.fns[fi].params|;
      if b.terminator.Some? { TerminatorCount(h, fi, st1, b.terminator.value); }
      var i := 0;
      while i < |b.insts|
        invariant 0 <= i <= |b.insts| && Valid()
        invariant Fits(st1, params) ==> LowerInsts(h, fi, State(), b.insts[i..]) == st1
      {
        InstsStep(h, fi, State(), b.insts[i..]);
        InstsCount(h, fi, HirToIr.LowerInst(h, fi, State(), b.insts[i]), b.insts[i..][1..]);
        assert b.insts[i..][1..] == b.insts[i + 1..];
        LowerInst(b.insts[i]);
        i := i + 1;
      }
      InstsStep(h, fi, State(), b.insts[i..]);
      if b.terminator.Some? {
        LowerTerminator(b.terminator.value);
      }
    }

    /** The body of one function, from a fresh register table. */
    method LowerFunction(i: nat) returns (f: ExecIr.Function)
      requires WellFormed(h) && i < |h.fns|
      requires names == EmittedNames(h, i + 1) && externs == ExternNames(h, i)
      modifies this`fi, this`regs, this`registerCount, this`body, this`constants, this`strings, this`ok, this`slotCount,
               this`returnRegister, this`returnIsExitCode
      ensures var st := HirToIr.LowerFunction(h, i, Module([], old(strings), old(constants), []), old(ok));
        st.registerCount < U16 ==>
          f == Finish(h.fns[i], st) && constants == st.constants && strings == st.strings && ok == st.ok
    {
      hide WellFormed, EmittedNames, ExternNames, HirToIr.LowerBlock, SourceName;
      var hirFn := h.fns[i];
      fi := i;
      regs := seq(|h.exprs|, _ => UNASSIGNED);
      registerCount := ToU16(if |hirFn.params| > 0 then |hirFn.params| else 1);
      slotCount, returnRegister, returnIsExitCode, body := 0, 0, true, [];
      ghost var st := HirToIr.LowerFunction(h, i, Module([], strings, constants, []), ok);
      ghost var params := |hirFn.params|;
      BlocksInPool(h, i);
      BlocksCount(h, i, Begin(hirFn, Module([], strings, constants, []), ok), hirFn.blocks);
      assert params < U16 ==> State() == Begin(hirFn, Module([], strings, constants, []), ok);
      var b := 0;
      while b < |hirFn.blocks|
        invariant 0 <= b <= |hirFn.blocks| && Valid() && fi == i
        invariant Fits(st, params) ==> LowerBlocks(h, i, State(), hirFn.blocks[b..]) == st
      {
        if Fits(st, params) {
          BlocksCount(h, i, HirToIr.LowerBlock(h, i, State(), hirFn.blocks[b]), hirFn.blocks[b + 1..]);
          assert hirFn.blocks[b..][1..] == hirFn.blocks[b + 1..];
        }
        LowerBlock(hirFn.blocks[b]);
        b := b + 1;
      }
      f := Function.Function(SourceName(hirFn.linkage), ToU16(|hirFn.params|), registerCount, slotCount, returnRegister,
                             returnIsExitCode, body);
    }
  }

  lemma BlocksInPool(h: HirModule, i: nat)
    requires WellFormed(h) && i < |h.fns|
    ensures forall b :: 0 <= b < |h.fns[i].blocks| ==> BlockInRange(h, h.fns[i].blocks[b])
  {
  }

  /** Some function needs more registers than the 16-bit fields can name. */
  ghost predicate Overflows(m: Module) {
    exists k :: 0 <= k < |m.functions| && m.functions[k].registerCount >= U16
  }

  /** Once a function overflows, it stays in the module. */
  lemma {:induction false} OverflowStays(h: HirModule, n: nat, n': nat)
    requires WellFormed(h) && n <= n' <= |h.fns| && Overflows(LowerUpTo(h, n).0)
    ensures Overflows(LowerUpTo(h, n').0)
  {
    hide LowerUpTo, WellFormed;
    UpToGrows(h, n, n');
    var m, m' := LowerUpTo(h, n).0, LowerUpTo(h, n').0;
    var k :| 0 <= k < |m.functions| && m.functions[k].registerCount >= U16;
    assert m'.functions[k] == m.functions[k];
  }

  lemma StepUpTo(h: HirModule, i: nat)
    requires WellFormed(h) && i < |h.fns|
    ensures LowerUpTo(h, i + 1) == AddFunction(h, i, LowerUpTo(h, i).0, LowerUpTo(h, i).1)
    ensures EmittedNames(h, i + 1) ==
      if IsEmitted(h.fns[i]) then EmittedNames(h, i) + [SourceName(h.fns[i].linkage)] else EmittedNames(h, i)
  {
    hide WellFormed, AddFunction, IsEmitted, SourceName;
  }

  /** Only the tables of the module matter to lowering one function. */
  lemma TablesSuffice(h: HirModule, i: nat, m: Module, ok: bool)
    requires WellFormed(h) && i < |h.fns|
    ensures LowerFunction(h, i, Module([], m.strings, m.constants, []), ok) == LowerFunction(h, i, m, ok)
  {
    hide WellFormed, LowerBlocks;
  }

  /** `lowerModule`: every function in order. The result is the specified module and success flag,
      unless some function needs more registers than 16 bits can name. */
  method LowerModuleInPlace(h: HirModule) returns (m: Module, ok: bool)
    requires WellFormed(h)
    ensures !Overflows(LowerModule(h).0) ==> (m, ok) == LowerModule(h)
  {
    hide WellFormed, AddFunction, EmittedNames, ExternNames, LowerUpTo, SourceName, HirToIr.LowerFunction, Overflows;
    var state := new LowerState(h);
    var functions := [];
    UpToZero(h);
    var i := 0;
    ghost var overflow := false;
    while i < |h.fns|
      invariant 0 <= i <= |h.fns|
      invariant state.h == h && state.names == EmittedNames(h, i) && state.externs == ExternNames(h, i)
      invariant overflow ==> Overflows(LowerUpTo(h, i).0)
      invariant !overflow ==>
        LowerUpTo(h, i) == (Module(functions, state.strings, state.constants, state.externs), state.ok)
      invariant fresh(state)
    {
      var hirFn := h.fns[i];
      var name := SourceName(hirFn.linkage);
      StepUpTo(h, i);
      AddCases(h, i, LowerUpTo(h, i).0, LowerUpTo(h, i).1);
      UpToInvariant(h, i + 1);
      UpToInvariant(h, i);
      if overflow { OverflowStays(h, i, i + 1); }
      if hirFn.blocks == [] {
        var found := FindFirst(state.externs, name);
        if found.None? {
          state.externs := state.externs + [name];
        }
      } else if hirFn.declared {
        state.names := state.names + [name];
        TablesSuffice(h, i, LowerUpTo(h, i).0, LowerUpTo(h, i).1);
        ghost var st := HirToIr.LowerFunction(h, i, LowerUpTo(h, i).0, LowerUpTo(h, i).1);
        var f := state.LowerFunction(i);
        functions := functions + [f];
        if !overflow && st.registerCount >= U16 {
          overflow := true;
          Overflowing(LowerUpTo(h, i + 1).0);
        }
      }
      i := i + 1;
    }
    return Module(functions, state.strings, state.constants, state.externs), state.ok;
  }

  lemma UpToZero(h: HirModule)
    requires WellFormed(h)
    ensures LowerUpTo(h, 0) == (Module([], [], [], []), true) && EmittedNames(h, 0) == [] && ExternNames(h, 0) == []
  {
  }

  lemma Overflowing(m: Module)
    requires m.functions != [] && m.functions[|m.functions| - 1].registerCount >= U16
    ensures Overflows(m)
  {
  }

  lemma AddCases(h: HirModule, i: nat, m: Module, ok: bool)
    requires WellFormed(h) && i < |h.fns|
    ensures var f := h.fns[i];
      var name := SourceName(f.linkage);
      var st := LowerFunction(h, i, m, ok);
      AddFunction(h, i, m, ok) ==
        if f.blocks == [] then (if name !in m.externs then (m.(externs := m.externs + [name]), ok) else (m, ok))
        else if f.declared then
          (Module(m.functions + [Finish(f, st)], st.strings, st.constants, m.externs), st.ok)
        else (m, ok)
  {
    hide WellFormed, LowerFunction, SourceName;
  }
}
