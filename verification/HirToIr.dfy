/** Lowering HIR to the execution IR, as a function on values. Register numbers are unbounded here;
    `Lowerer` is the 16-bit imperative form. */
module HirToIr {
  import opened Collections
  import opened ExecIr
  import opened Hir

  const U16: nat := 0x1_0000

  /** `static_cast<uint16_t>`. */
  function ToU16(n: nat): (r: nat)
    ensures r < U16 && (n < U16 ==> r == n)
  {
    if n < 0x1_0000 then n else n % 0x1_0000
  }

  /** Lowering state of one function: the per-expression register memo, the function record under
      construction, the module's shared tables, and the success flag. */
  datatype LState = LState(
    memo: map<nat, nat>, registerCount: nat, slotCount: nat, returnRegister: nat, returnIsExitCode: bool,
    body: seq<Instr>, constants: seq<int>, strings: seq<string>, ok: bool)

  function Emit(st: LState, op: Op, a: nat, b: nat, c: nat, imm: nat): LState
  {
    st.(body := st.body + [Instr(op, a, b, c, imm)])
  }

  /** Emit an instruction into a fresh register that from now on stands for `id`. */
  function Define(st: LState, id: nat, op: Op, b: nat, c: nat, imm: nat): (LState, nat)
  {
    (Emit(st, op, st.registerCount, b, c, imm)
     .(memo := st.memo[id := st.registerCount], registerCount := st.registerCount + 1),
     st.registerCount)
  }

  function Fail(st: LState): (LState, nat) { (st.(ok := false), 0) }

  function BinaryOpcode(op: BinaryOp): Op
  {
    match op
    case Add => Op.Binary(BinOp.Add)
    case Sub => Op.Binary(BinOp.Sub)
    case Mul => Op.Binary(BinOp.Mul)
    case Div => Op.Binary(BinOp.Div)
    case Rem => Op.Binary(BinOp.Rem)
    case Eq => Op.Binary(BinOp.Eq)
    case Ne => Op.Binary(BinOp.Ne)
    case Lt => Op.Binary(BinOp.Lt)
    case Le => Op.Binary(BinOp.Le)
    case Gt => Op.Binary(BinOp.Gt)
    case Ge => Op.Binary(BinOp.Ge)
    case And => Op.Binary(BinOp.And)
    case Or => Op.Binary(BinOp.Or)
    case Xor => Op.Binary(BinOp.Xor)
    case Shl => Op.Binary(BinOp.Shl)
    case Shr => Op.Binary(BinOp.Shr)
    case InvalidOp => Op.Trap
  }

  function UnaryOpcode(op: UnaryOp): Op
  {
    match op
    case Neg => Op.Unary(UnOp.Neg)
    case Not => Op.Unary(UnOp.Not)
    case BitNot => Op.Unary(UnOp.BitNot)
    case Ref => Op.Trap
    case Deref => Op.Trap
  }

  function LowerLiteral(st: LState, id: nat, v: int): (LState, nat)
  {
    var n := |st.constants|;
    Define(st.(constants := st.constants + [v], ok := st.ok && n < U16), id, LoadConst, 0, 0, ToU16(n))
  }

  function LowerString(st: LState, id: nat, text: string): (LState, nat)
  {
    var (index, strings) := match FirstIndex(st.strings, text)
      case Some(i) => (i, st.strings)
      case None => (|st.strings|, st.strings + [text]);
    Define(st.(strings := strings, ok := st.ok && index < U16), id, LoadString, 0, 0,
           if index < U16 then index else 0)
  }

  function LowerVar(h: HirModule, fi: nat, st: LState, id: nat, name: string): (LState, nat)
    requires fi < |h.fns|
  {
    match FirstIndex(h.fns[fi].params, name)
    case Some(p) => (st.(memo := st.memo[id := p]), p)
    case None => Fail(st)
  }

  function LowerOperand(h: HirModule, fi: nat, st: LState, id: nat): (LState, nat)
    requires WellFormed(h) && fi < |h.fns|
    decreases Rank(h, id), 1
  {
    if id >= |h.exprs| then (st, 0)
    else if id in st.memo then (st, st.memo[id])
    else
      assert OperandsPrecede(h, id);
      match h.exprs[id]
      case Literal(v) => LowerLiteral(st, id, v)
      case StringLiteral(text) => LowerString(st, id, text)
      case Var(name) => LowerVar(h, fi, st, id, name)
      case Binary(op, l, r) =>
        var (st1, lhs) := LowerOperand(h, fi, st, l);
        var (st2, rhs) := LowerOperand(h, fi, st1, r);
        Define(st2, id, BinaryOpcode(op), lhs, rhs, 0)
      case Unary(op, o) =>
        var (st1, operand) := LowerOperand(h, fi, st, o);
        Define(st1, id, UnaryOpcode(op), operand, 0, 0)
      case HirCall(_, _, _) =>
        (match CallTarget(h, fi, id)
         case NotFound => Fail(st)
         case target =>
           var (st1, arg0) := LowerArg(h, fi, st, id, 0);
           var (st2, arg1) := LowerArg(h, fi, st1, id, 1);
           Define(st2, id, if target.Extern? then CallExtern else CallFn, arg0, arg1, ToU16(target.index)))
      case SlotLoad(slot) => Define(st, id, Op.SlotLoad, 0, 0, ToU16(slot))
      case _ => Fail(st)
  }

  function LowerArg(h: HirModule, fi: nat, st: LState, id: nat, i: nat): (LState, nat)
    requires WellFormed(h) && fi < |h.fns| && id < |h.exprs| && h.exprs[id].HirCall?
    decreases Rank(h, id), 0
  {
    assert OperandsPrecede(h, id);
    if i < |h.exprs[id].args| then LowerOperand(h, fi, st, h.exprs[id].args[i]) else (st, 0)
  }

  function GrowSlots(st: LState, slot: nat): LState
  {
    st.(slotCount := Max(st.slotCount, ToU16(ToU16(slot) + 1)))
  }

  function LowerInst(h: HirModule, fi: nat, st: LState, id: nat): LState
    requires WellFormed(h) && fi < |h.fns| && id < |h.exprs|
  {
    match h.exprs[id]
    case SlotAlloca(slot) => GrowSlots(st, slot)
    case SlotStore(slot, v) =>
      var (st1, value) := LowerOperand(h, fi, st, v);
      Emit(GrowSlots(st1, slot), Op.SlotStore, 0, value, 0, ToU16(slot))
    case HirRet(_) => st
    case _ => LowerOperand(h, fi, st, id).0
  }

  function LowerInsts(h: HirModule, fi: nat, st: LState, ids: seq<nat>): LState
    requires WellFormed(h) && fi < |h.fns| && forall i :: 0 <= i < |ids| ==> ids[i] < |h.exprs|
    decreases |ids|
  {
    if ids == [] then st else LowerInsts(h, fi, LowerInst(h, fi, st, ids[0]), ids[1..])
  }

  function LowerTerminator(h: HirModule, fi: nat, st: LState, id: nat): LState
    requires WellFormed(h) && fi < |h.fns| && id < |h.exprs|
  {
    match h.exprs[id]
    case HirJump(target) => Emit(st, Jump, 0, 0, 0, ToU16(target))
    case HirBranch(c, t, e) =>
      var (st1, cond) := LowerOperand(h, fi, st, c);
      Emit(Emit(st1, Branch, 0, cond, 0, ToU16(t)), Jump, 0, 0, 0, ToU16(e))
    case HirRet(None) => Emit(st.(returnIsExitCode := false), Ret, 0, 0, 0, 0)
    case HirRet(Some(v)) =>
      var (st1, value) := LowerOperand(h, fi, st, v);
      Emit(st1.(returnRegister := value, returnIsExitCode := true), Ret, 0, 0, 0, 0)
    case _ => st
  }

  function LowerBlock(h: HirModule, fi: nat, st: LState, b: Block): LState
    requires WellFormed(h) && fi < |h.fns| && BlockInRange(h, b)
  {
    var st1 := LowerInsts(h, fi, st, b.insts);
    if b.terminator.Some? then LowerTerminator(h, fi, st1, b.terminator.value) else st1
  }

  function LowerBlocks(h: HirModule, fi: nat, st: LState, bs: seq<Block>): LState
    requires WellFormed(h) && fi < |h.fns| && forall b :: 0 <= b < |bs| ==> BlockInRange(h, bs[b])
    decreases |bs|
  {
    if bs == [] then st else LowerBlocks(h, fi, LowerBlock(h, fi, st, bs[0]), bs[1..])
  }

  function Begin(f: HirFunction, m: Module, ok: bool): LState
  {
    LState(map[], Max(|f.params|, 1), 0, 0, true, [], m.constants, m.strings, ok)
  }

  function LowerFunction(h: HirModule, fi: nat, m: Module, ok: bool): LState
    requires WellFormed(h) && fi < |h.fns|
  {
    LowerBlocks(h, fi, Begin(h.fns[fi], m, ok), h.fns[fi].blocks)
  }

  function Finish(f: HirFunction, st: LState): ExecIr.Function
  {
    Function.Function(SourceName(f.linkage), |f.params|, st.registerCount, st.slotCount, st.returnRegister,
             st.returnIsExitCode, st.body)
  }

  /** One turn of the module loop: an external name, a skipped declaration, or a function body. */
  function AddFunction(h: HirModule, i: nat, m: Module, ok: bool): (Module, bool)
    requires WellFormed(h) && i < |h.fns|
  {
    if IsEmitted(h.fns[i]) then
      var st := LowerFunction(h, i, m, ok);
      (Module(m.functions + [Finish(h.fns[i], st)], st.strings, st.constants, m.externs), st.ok)
    else if h.fns[i].blocks == [] && SourceName(h.fns[i].linkage) !in m.externs then
      (m.(externs := m.externs + [SourceName(h.fns[i].linkage)]), ok)
    else
      (m, ok)
  }

  /** The module after the first `n` functions, and whether every step was supported. */
  function LowerUpTo(h: HirModule, n: nat): (Module, bool)
    requires WellFormed(h) && n <= |h.fns|
  {
    if n == 0 then (Module([], [], [], []), true)
    else AddFunction(h, n - 1, LowerUpTo(h, n - 1).0, LowerUpTo(h, n - 1).1)
  }

  function LowerModule(h: HirModule): (Module, bool)
    requires WellFormed(h)
  {
    LowerUpTo(h, |h.fns|)
  }

  /** `b` continues the lowering state `a`: nothing emitted, memoised or numbered is revised. */
  ghost predicate Continues(a: LState, b: LState) {
    && (b.ok ==> a.ok)
    && a.body <= b.body
    && a.constants <= b.constants
    && a.strings <= b.strings
    && a.registerCount <= b.registerCount
    && a.slotCount <= b.slotCount
    && (forall id :: id in a.memo ==> id in b.memo && b.memo[id] == a.memo[id])
  }

  /** Registers are allocated, and string numbers are unambiguous. */
  ghost predicate Consistent(h: HirModule, fi: nat, st: LState)
    requires fi < |h.fns|
  {
    && |h.fns[fi].params| <= st.registerCount && 1 <= st.registerCount
    && MemoBelow(st.memo, st.registerCount)
    && Distinct(st.strings)
  }

  ghost predicate MemoBelow(memo: map<nat, nat>, n: nat) { forall id :: id in memo ==> memo[id] < n }

  ghost predicate Distinct(s: seq<string>) { forall i, j :: 0 <= i < j < |s| ==> s[i] != s[j] }

  lemma ContinuesTransitive(a: LState, b: LState, c: LState)
    requires Continues(a, b) && Continues(b, c)
    ensures Continues(a, c)
  {
  }

  lemma LeafContinues(h: HirModule, fi: nat, st: LState, id: nat)
    requires WellFormed(h) && fi < |h.fns| && Consistent(h, fi, st) && id < |h.exprs| && id !in st.memo
    requires h.exprs[id].Literal? || h.exprs[id].StringLiteral? || h.exprs[id].Var? || h.exprs[id].SlotLoad?
    ensures var (st', r) := LowerOperand(h, fi, st, id);
      && Continues(st, st') && Consistent(h, fi, st') && r < st'.registerCount
      && (st'.ok ==> id in st'.memo && st'.memo[id] == r)
  {
  }

  /** Lowering an operand only ever adds, yields an allocated register, and memoises it for the operand. */
  lemma {:induction false} OperandContinues(h: HirModule, fi: nat, st: LState, id: nat)
    requires WellFormed(h) && fi < |h.fns| && Consistent(h, fi, st)
    ensures var (st', r) := LowerOperand(h, fi, st, id);
      && Continues(st, st') && Consistent(h, fi, st') && r < st'.registerCount
      && (st'.ok && id < |h.exprs| ==> id in st'.memo && st'.memo[id] == r)
    decreases Rank(h, id), 1
  {
    if id < |h.exprs| && id !in st.memo {
      assert OperandsPrecede(h, id);
      match h.exprs[id]
      case Binary(op, l, r) =>
        OperandContinues(h, fi, st, l);
        var (st1, lhs) := LowerOperand(h, fi, st, l);
        OperandContinues(h, fi, st1, r);
        var (st2, rhs) := LowerOperand(h, fi, st1, r);
        ContinuesTransitive(st, st1, st2);
      case Unary(op, o) =>
        OperandContinues(h, fi, st, o);
        var (st1, operand) := LowerOperand(h, fi, st, o);
      case HirCall(_, _, _) =>
        CallContinues(h, fi, st, id);
      case Literal(_) => LeafContinues(h, fi, st, id);
      case StringLiteral(_) => LeafContinues(h, fi, st, id);
      case Var(_) => LeafContinues(h, fi, st, id);
      case SlotLoad(_) => LeafContinues(h, fi, st, id);
      case _ =>
    }
  }

  lemma {:induction false} CallContinues(h: HirModule, fi: nat, st: LState, id: nat)
    requires WellFormed(h) && fi < |h.fns| && Consistent(h, fi, st)
    requires id < |h.exprs| && h.exprs[id].HirCall? && id !in st.memo
    ensures var (st', r) := LowerOperand(h, fi, st, id);
      && Continues(st, st') && Consistent(h, fi, st') && r < st'.registerCount
      && (st'.ok ==> id in st'.memo && st'.memo[id] == r)
    decreases Rank(h, id), 0, 1
  {
    assert OperandsPrecede(h, id);
    var target := CallTarget(h, fi, id);
    if !target.NotFound? {
      ArgContinues(h, fi, st, id, 0);
      var (st1, arg0) := LowerArg(h, fi, st, id, 0);
      ArgContinues(h, fi, st1, id, 1);
      var (st2, arg1) := LowerArg(h, fi, st1, id, 1);
      ContinuesTransitive(st, st1, st2);
    }
  }

  lemma {:induction false} ArgContinues(h: HirModule, fi: nat, st: LState, id: nat, i: nat)
    requires WellFormed(h) && fi < |h.fns| && id < |h.exprs| && h.exprs[id].HirCall? && Consistent(h, fi, st)
    ensures var (st', r) := LowerArg(h, fi, st, id, i);
      Continues(st, st') && Consistent(h, fi, st') && r < st'.registerCount
    decreases Rank(h, id), 0, 0
  {
    assert OperandsPrecede(h, id);
    if i < |h.exprs[id].args| {
      OperandContinues(h, fi, st, h.exprs[id].args[i]);
    }
  }

  lemma InstContinues(h: HirModule, fi: nat, st: LState, id: nat)
    requires WellFormed(h) && fi < |h.fns| && id < |h.exprs| && Consistent(h, fi, st)
    ensures Continues(st, LowerInst(h, fi, st, id)) && Consistent(h, fi, LowerInst(h, fi, st, id))
  {
    hide LowerOperand;
    assert OperandsPrecede(h, id);
    match h.exprs[id]
    case SlotAlloca(_) =>
    case SlotStore(_, v) => OperandContinues(h, fi, st, v);
    case HirRet(_) =>
    case _ => OperandContinues(h, fi, st, id);
  }

  lemma {:induction false} InstsContinue(h: HirModule, fi: nat, st: LState, ids: seq<nat>)
    requires WellFormed(h) && fi < |h.fns| && Consistent(h, fi, st)
    requires forall i :: 0 <= i < |ids| ==> ids[i] < |h.exprs|
    ensures Continues(st, LowerInsts(h, fi, st, ids)) && Consistent(h, fi, LowerInsts(h, fi, st, ids))
    decreases |ids|
  {
    hide LowerInst, Consistent;
    if ids != [] {
      InstContinues(h, fi, st, ids[0]);
      var st1 := LowerInst(h, fi, st, ids[0]);
      InstsContinue(h, fi, st1, ids[1..]);
      ContinuesTransitive(st, st1, LowerInsts(h, fi, st1, ids[1..]));
    }
  }

  lemma TerminatorContinues(h: HirModule, fi: nat, st: LState, id: nat)
    requires WellFormed(h) && fi < |h.fns| && id < |h.exprs| && Consistent(h, fi, st)
    ensures Continues(st, LowerTerminator(h, fi, st, id)) && Consistent(h, fi, LowerTerminator(h, fi, st, id))
  {
    hide LowerOperand;
    match h.exprs[id]
    case HirBranch(c, _, _) => OperandContinues(h, fi, st, c);
    case HirRet(Some(v)) => OperandContinues(h, fi, st, v);
    case _ =>
  }

  lemma {:induction false} BlocksContinue(h: HirModule, fi: nat, st: LState, bs: seq<Block>)
    requires WellFormed(h) && fi < |h.fns| && Consistent(h, fi, st)
    requires forall b :: 0 <= b < |bs| ==> BlockInRange(h, bs[b])
    ensures Continues(st, LowerBlocks(h, fi, st, bs)) && Consistent(h, fi, LowerBlocks(h, fi, st, bs))
    decreases |bs|
  {
    hide LowerInsts, LowerTerminator, Consistent, BlockInRange;
    if bs != [] {
      assert BlockInRange(h, bs[0]);
      var st1 := LowerBlock(h, fi, st, bs[0]);
      BlockContinues(h, fi, st, bs[0]);
      BlocksContinue(h, fi, st1, bs[1..]);
      ContinuesTransitive(st, st1, LowerBlocks(h, fi, st1, bs[1..]));
    }
  }

  lemma BlockContinues(h: HirModule, fi: nat, st: LState, b: Block)
    requires WellFormed(h) && fi < |h.fns| && Consistent(h, fi, st) && BlockInRange(h, b)
    ensures Continues(st, LowerBlock(h, fi, st, b)) && Consistent(h, fi, LowerBlock(h, fi, st, b))
  {
    hide LowerInsts, LowerTerminator, Consistent;
    var st1 := LowerInsts(h, fi, st, b.insts);
    InstsContinue(h, fi, st, b.insts);
    if b.terminator.Some? {
      TerminatorContinues(h, fi, st1, b.terminator.value);
      ContinuesTransitive(st, st1, LowerTerminator(h, fi, st1, b.terminator.value));
    }
  }

  /** Later functions leave the module's tables and functions in place, and a success flag at the
      end means success all along. */
  ghost predicate Grows(a: (Module, bool), b: (Module, bool)) {
    && (b.1 ==> a.1)
    && a.0.functions <= b.0.functions
    && a.0.constants <= b.0.constants
    && a.0.strings <= b.0.strings
    && a.0.externs <= b.0.externs
  }

  lemma {:induction false} FunctionContinues(h: HirModule, fi: nat, m: Module, ok: bool)
    requires WellFormed(h) && fi < |h.fns| && Distinct(m.strings)
    ensures var st := LowerFunction(h, fi, m, ok);
      Continues(Begin(h.fns[fi], m, ok), st) && Consistent(h, fi, st) && Consistent(h, fi, Begin(h.fns[fi], m, ok))
  {
    assert forall b :: 0 <= b < |h.fns[fi].blocks| ==> BlockInRange(h, h.fns[fi].blocks[b]);
    hide LowerBlocks, BlockInRange;
    BlocksContinue(h, fi, Begin(h.fns[fi], m, ok), h.fns[fi].blocks);
  }

  lemma {:induction false} FunctionGrows(h: HirModule, fi: nat, m: Module, ok: bool)
    requires WellFormed(h) && fi < |h.fns| && Distinct(m.strings)
    ensures var st := LowerFunction(h, fi, m, ok);
      (st.ok ==> ok) && m.constants <= st.constants && m.strings <= st.strings && Distinct(st.strings)
  {
    FunctionContinues(h, fi, m, ok);
    hide LowerFunction;
  }

  lemma AddFunctionGrows(h: HirModule, i: nat, m: Module, ok: bool)
    requires WellFormed(h) && i < |h.fns| && Distinct(m.strings) && m.externs == ExternNames(h, i)
    ensures Grows((m, ok), AddFunction(h, i, m, ok))
    ensures var (m', _) := AddFunction(h, i, m, ok);
      && Distinct(m'.strings) && m'.externs == ExternNames(h, i + 1)
      && |m'.functions| == |m.functions| + (if IsEmitted(h.fns[i]) then 1 else 0)
      && (IsEmitted(h.fns[i]) ==> m'.functions[|m.functions|].name == SourceName(h.fns[i].linkage))
  {
    hide LowerFunction, Distinct;
    FunctionGrows(h, i, m, ok);
  }

  lemma {:induction false} UpToInvariant(h: HirModule, n: nat)
    requires WellFormed(h) && n <= |h.fns|
    ensures Distinct(LowerUpTo(h, n).0.strings)
    ensures LowerUpTo(h, n).0.externs == ExternNames(h, n)
    ensures |LowerUpTo(h, n).0.functions| == |Emitted(h, n)|
    ensures forall k :: 0 <= k < |Emitted(h, n)| ==> LowerUpTo(h, n).0.functions[k].name == EmittedNames(h, n)[k]
  {
    hide AddFunction, IsEmitted, SourceName;
    if n > 0 {
      UpToInvariant(h, n - 1);
      AddFunctionGrows(h, n - 1, LowerUpTo(h, n - 1).0, LowerUpTo(h, n - 1).1);
    } else {
    }
  }

  lemma {:induction false} UpToGrows(h: HirModule, n: nat, n': nat)
    requires WellFormed(h) && n <= n' <= |h.fns|
    ensures Grows(LowerUpTo(h, n), LowerUpTo(h, n'))
    decreases n'
  {
    hide AddFunction, ExternNames;
    if n < n' {
      UpToGrows(h, n, n' - 1);
      UpToInvariant(h, n' - 1);
      AddFunctionGrows(h, n' - 1, LowerUpTo(h, n' - 1).0, LowerUpTo(h, n' - 1).1);
    }
  }

  /** The HIR functions emitted before `n` keep their positions. */
  lemma {:induction false} EmittedPrefix(h: HirModule, n: nat, n': nat)
    requires n <= n' <= |h.fns|
    ensures Emitted(h, n) <= Emitted(h, n')
    decreases n'
  {
    hide IsEmitted;
    if n < n' {
      EmittedPrefix(h, n, n' - 1);
    }
  }
}
