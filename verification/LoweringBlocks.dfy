/** Functions of several blocks: where their code begins, and which jumps get there. A jump is emitted
    with its target's block number, and executed as an instruction number. */
module LoweringBlocks {
  import opened Collections
  import opened ExecIr
  import opened IrVm
  import opened Hir
  import opened HirToIr

  /** The lowering state once the first `t` blocks of a function are lowered. */
  function LowerFirst(h: HirModule, fi: nat, m: Module, ok: bool, t: nat): LState
    requires WellFormed(h) && fi < |h.fns| && t <= |h.fns[fi].blocks|
  {
    LowerBlocks(h, fi, Begin(h.fns[fi], m, ok), h.fns[fi].blocks[..t])
  }

  /** Where the code of block `t` begins. */
  function BlockStart(h: HirModule, fi: nat, m: Module, ok: bool, t: nat): nat
    requires WellFormed(h) && fi < |h.fns| && t <= |h.fns[fi].blocks|
  {
    |LowerFirst(h, fi, m, ok, t).body|
  }

  /** The terminators the lowering emits code for. */
  predicate IsEnded(h: HirModule, b: Block)
    requires BlockInRange(h, b)
  {
    b.terminator.Some? &&
    var e := h.exprs[b.terminator.value];
    e.HirJump? || e.HirBranch? || e.HirRet?
  }

  /** The jump, branch or return a block ends in. */
  function Ending(h: HirModule, fi: nat, b: nat): HirExpr
    requires WellFormed(h) && fi < |h.fns| && b < |h.fns[fi].blocks| && IsEnded(h, h.fns[fi].blocks[b])
  {
    h.exprs[h.fns[fi].blocks[b].terminator.value]
  }

  /** Every block of the function ends in a jump, a branch or a return. */
  ghost predicate AllEnded(h: HirModule, fi: nat)
    requires WellFormed(h) && fi < |h.fns|
  {
    forall b :: 0 <= b < |h.fns[fi].blocks| ==> IsEnded(h, h.fns[fi].blocks[b])
  }

  /** A block that amounts to its jump or its return: nothing it lists needs an instruction. */
  predicate IsBare(h: HirModule, b: Block)
    requires BlockInRange(h, b)
  {
    && (forall i :: 0 <= i < |b.insts| ==> IsSilent(h, b.insts[i]))
    && b.terminator.Some?
    && match h.exprs[b.terminator.value]
       case HirJump(_) => true
       case HirRet(None) => true
       case HirRet(Some(v)) => v >= |h.exprs| || h.exprs[v].Var?
       case _ => false
  }

  predicate IsSilent(h: HirModule, id: nat)
    requires id < |h.exprs|
  {
    h.exprs[id].SlotAlloca? || h.exprs[id].HirRet? || h.exprs[id].Var?
  }

  lemma {:induction false} BlocksSplit(h: HirModule, fi: nat, st: LState, bs: seq<Block>, t: nat)
    requires WellFormed(h) && fi < |h.fns| && t <= |bs| && forall b :: 0 <= b < |bs| ==> BlockInRange(h, bs[b])
    ensures LowerBlocks(h, fi, st, bs) == LowerBlocks(h, fi, LowerBlocks(h, fi, st, bs[..t]), bs[t..])
    decreases t
  {
    hide WellFormed, LowerBlock, BlockInRange;
    if t == 0 {
      assert bs[0..] == bs;
    } else {
      BlocksSplit(h, fi, LowerBlock(h, fi, st, bs[0]), bs[1..], t - 1);
      assert bs[..t][1..] == bs[1..][..t - 1] && bs[t..] == bs[1..][t - 1..];
    }
  }

  /** Blocks are lowered one after the other, each after the code of those before it. */
  lemma BlocksInOrder(h: HirModule, fi: nat, m: Module, ok: bool, t: nat)
    requires WellFormed(h) && fi < |h.fns| && t < |h.fns[fi].blocks| && Distinct(m.strings)
    ensures BlockInRange(h, h.fns[fi].blocks[t])
    ensures LowerFirst(h, fi, m, ok, t + 1) == LowerBlock(h, fi, LowerFirst(h, fi, m, ok, t), h.fns[fi].blocks[t])
    ensures Consistent(h, fi, LowerFirst(h, fi, m, ok, t))
    ensures Continues(LowerFirst(h, fi, m, ok, t + 1), LowerFunction(h, fi, m, ok))
    ensures Continues(LowerFirst(h, fi, m, ok, t), LowerFunction(h, fi, m, ok))
    ensures Consistent(h, fi, LowerFunction(h, fi, m, ok))
  {
    hide LowerBlock, Distinct, Continues;
    var bs, st := h.fns[fi].blocks, Begin(h.fns[fi], m, ok);
    var mid := LowerFirst(h, fi, m, ok, t);
    BlocksSplit(h, fi, st, bs[..t + 1], t);
    assert bs[..t + 1][..t] == bs[..t] && bs[..t + 1][t..] == [bs[t]];
    OneBlock(h, fi, mid, bs[t]);
    BlocksContinue(h, fi, st, bs[..t]);
    BlocksSplit(h, fi, st, bs, t + 1);
    BlocksContinue(h, fi, st, bs[..t + 1]);
    BlocksContinue(h, fi, LowerFirst(h, fi, m, ok, t + 1), bs[t + 1..]);
    BlockContinues(h, fi, mid, bs[t]);
    ContinuesTransitive(mid, LowerFirst(h, fi, m, ok, t + 1), LowerFunction(h, fi, m, ok));
  }

  lemma OneBlock(h: HirModule, fi: nat, st: LState, b: Block)
    requires WellFormed(h) && fi < |h.fns| && BlockInRange(h, b)
    ensures LowerBlocks(h, fi, st, [b]) == LowerBlock(h, fi, st, b)
  {
    hide LowerBlock;
    assert [b][1..] == [];
  }

  // ---- What blocks emit ----------------------------------------------------------------------

  /** Nothing but parameters has a register so far. */
  ghost predicate OnlyVars(h: HirModule, st: LState) {
    forall id :: id in st.memo ==> id < |h.exprs| && h.exprs[id].Var?
  }

  /** Lowering an operand for the first time emits an instruction, unless it is a parameter. */
  lemma FreshOperandEmits(h: HirModule, fi: nat, st: LState, id: nat)
    requires WellFormed(h) && fi < |h.fns| && Consistent(h, fi, st) && id < |h.exprs| && id !in st.memo
    requires !h.exprs[id].Var? && LowerOperand(h, fi, st, id).0.ok
    ensures |st.body| < |LowerOperand(h, fi, st, id).0.body|
  {
    hide WellFormed, Consistent, CallTarget, BinaryOpcode, UnaryOpcode, FirstIndex;
    match h.exprs[id]
    case Binary(_, l, r) =>
      OperandContinues(h, fi, st, l);
      OperandContinues(h, fi, LowerOperand(h, fi, st, l).0, r);
    case Unary(_, o) =>
      OperandContinues(h, fi, st, o);
    case HirCall(_, _, _) =>
      ArgContinues(h, fi, st, id, 0);
      ArgContinues(h, fi, LowerArg(h, fi, st, id, 0).0, id, 1);
    case _ =>
  }

  lemma LoudInst(h: HirModule, fi: nat, st: LState, id: nat)
    requires WellFormed(h) && fi < |h.fns| && Consistent(h, fi, st) && id < |h.exprs| && !IsSilent(h, id) && OnlyVars(h, st)
    requires LowerInst(h, fi, st, id).ok
    ensures |st.body| < |LowerInst(h, fi, st, id).body|
  {
    hide WellFormed, Consistent, LowerOperand;
    if h.exprs[id].SlotStore? {
      OperandContinues(h, fi, st, h.exprs[id].stored);
    } else {
      FreshOperandEmits(h, fi, st, id);
    }
  }

  lemma {:induction false} InstsEmit(h: HirModule, fi: nat, st: LState, ids: seq<nat>)
    requires WellFormed(h) && fi < |h.fns| && Consistent(h, fi, st) && OnlyVars(h, st)
    requires forall i :: 0 <= i < |ids| ==> ids[i] < |h.exprs|
    requires LowerInsts(h, fi, st, ids).ok
    ensures var st' := LowerInsts(h, fi, st, ids);
      if forall i :: 0 <= i < |ids| ==> IsSilent(h, ids[i]) then st'.body == st.body && OnlyVars(h, st')
      else |st.body| < |st'.body|
    decreases |ids|
  {
    hide Consistent;
    if ids != [] {
      var st1 := LowerInst(h, fi, st, ids[0]);
      InstContinues(h, fi, st, ids[0]);
      InstsContinue(h, fi, st1, ids[1..]);
      if IsSilent(h, ids[0]) {
        InstsEmit(h, fi, st1, ids[1..]);
        assert forall i :: 0 < i < |ids| ==> ids[i] == ids[1..][i - 1];
      } else {
        LoudInst(h, fi, st, ids[0]);
      }
    }
  }

  /** A terminator emits at least one instruction; only one when it needs no operand. */
  lemma TerminatorEmits(h: HirModule, fi: nat, st: LState, id: nat)
    requires WellFormed(h) && fi < |h.fns| && Consistent(h, fi, st) && id < |h.exprs|
    requires h.exprs[id].HirJump? || h.exprs[id].HirBranch? || h.exprs[id].HirRet?
    requires LowerTerminator(h, fi, st, id).ok
    ensures |st.body| < |LowerTerminator(h, fi, st, id).body|
    ensures OnlyVars(h, st) ==>
      if IsBare(h, Block([], Some(id))) then |LowerTerminator(h, fi, st, id).body| == |st.body| + 1 && OnlyVars(h, LowerTerminator(h, fi, st, id))
      else |st.body| + 1 < |LowerTerminator(h, fi, st, id).body|
  {
    hide WellFormed, Consistent, FirstIndex;
    match h.exprs[id]
    case HirBranch(c, _, _) =>
      OperandContinues(h, fi, st, c);
    case HirRet(Some(v)) =>
      OperandContinues(h, fi, st, v);
      if v < |h.exprs| && !h.exprs[v].Var? && OnlyVars(h, st) {
        FreshOperandEmits(h, fi, st, v);
      }
    case _ =>
  }

  /** Every block emits something, and exactly one instruction when it is bare, as long as only such
      blocks came before. */
  lemma BlockEmits(h: HirModule, fi: nat, st: LState, b: Block)
    requires WellFormed(h) && fi < |h.fns| && Consistent(h, fi, st) && BlockInRange(h, b) && IsEnded(h, b)
    requires LowerBlock(h, fi, st, b).ok
    ensures |st.body| < |LowerBlock(h, fi, st, b).body|
    ensures OnlyVars(h, st) ==>
      if IsBare(h, b) then |LowerBlock(h, fi, st, b).body| == |st.body| + 1 && OnlyVars(h, LowerBlock(h, fi, st, b))
      else |st.body| + 1 < |LowerBlock(h, fi, st, b).body|
  {
    hide WellFormed, Consistent, LowerInsts, LowerTerminator, OnlyVars, IsSilent;
    var st1 := LowerInsts(h, fi, st, b.insts);
    InstsContinue(h, fi, st, b.insts);
    TerminatorContinues(h, fi, st1, b.terminator.value);
    TerminatorEmits(h, fi, st1, b.terminator.value);
    if OnlyVars(h, st) {
      InstsEmit(h, fi, st, b.insts);
    }
  }

  /**
   * Block `t` begins at instruction `t` exactly when every block before it is bare; otherwise it begins
   * later.
   */
  lemma {:induction false} StartsAtItsNumberIff(h: HirModule, fi: nat, m: Module, ok: bool, t: nat)
    requires WellFormed(h) && fi < |h.fns| && t <= |h.fns[fi].blocks| && Distinct(m.strings)
    requires forall b :: 0 <= b < t ==> IsEnded(h, h.fns[fi].blocks[b])
    requires LowerFunction(h, fi, m, ok).ok
    ensures t <= BlockStart(h, fi, m, ok, t)
    ensures BlockStart(h, fi, m, ok, t) == t <==> forall b :: 0 <= b < t ==> IsBare(h, h.fns[fi].blocks[b])
    ensures BlockStart(h, fi, m, ok, t) == t ==> OnlyVars(h, LowerFirst(h, fi, m, ok, t))
  {
    hide LowerFunction, LowerBlock, Consistent, IsBare, IsEnded, Distinct;
    if t > 0 {
      StartsAtItsNumberIff(h, fi, m, ok, t - 1);
      BlocksInOrder(h, fi, m, ok, t - 1);
      BlockEmits(h, fi, LowerFirst(h, fi, m, ok, t - 1), h.fns[fi].blocks[t - 1]);
    }
  }

  // ---- Where jumps go ------------------------------------------------------------------------

  /** The instructions emitted for a block's jump or branch are its last ones, and stay where they are. */
  lemma JumpIsEmitted(h: HirModule, fi: nat, m: Module, ok: bool, b: nat)
    requires WellFormed(h) && fi < |h.fns| && b < |h.fns[fi].blocks| && Distinct(m.strings)
    requires IsEnded(h, h.fns[fi].blocks[b]) && LowerFunction(h, fi, m, ok).ok
    ensures var st, end := LowerFunction(h, fi, m, ok), BlockStart(h, fi, m, ok, b + 1);
      end <= |st.body| &&
      match Ending(h, fi, b)
      case HirJump(t) => end > 0 && st.body[end - 1] == Instr(Jump, 0, 0, 0, ToU16(t))
      case HirBranch(c, t, e) =>
        && end > 1 && st.body[end - 1] == Instr(Jump, 0, 0, 0, ToU16(e))
        && st.body[end - 2] == Instr(Branch, 0, st.body[end - 2].b, 0, ToU16(t)) && st.body[end - 2].b < st.registerCount
        && (c < |h.exprs| ==> c in st.memo && st.memo[c] == st.body[end - 2].b)
      case _ => true
  {
    hide LowerFunction, LowerOperand, LowerInsts, Distinct;
    BlocksInOrder(h, fi, m, ok, b);
    var bl := h.fns[fi].blocks[b];
    var st := LowerFirst(h, fi, m, ok, b);
    InstsContinue(h, fi, st, bl.insts);
    var st1 := LowerInsts(h, fi, st, bl.insts);
    match Ending(h, fi, b)
    case HirBranch(c, _, _) => OperandContinues(h, fi, st1, c);
    case _ =>
  }

  /** Executing the instruction takes the run to the first one of block `t`. */
  predicate Reaches(h: HirModule, fi: nat, m0: Module, ok: bool, m: Module, fr: Frame, t: nat)
    requires WellFormed(h) && fi < |h.fns| && t < |h.fns[fi].blocks|
    requires fr.pc < |LowerFunction(h, fi, m0, ok).body|
  {
    Step(m, Finish(h.fns[fi], LowerFunction(h, fi, m0, ok)), fr) == Next(fr.(pc := BlockStart(h, fi, m0, ok, t)))
  }

  /** What a block number comes to when it is taken for an instruction number. */
  predicate HitsBlock(h: HirModule, fi: nat, t: nat)
    requires WellFormed(h) && fi < |h.fns| && t < |h.fns[fi].blocks|
  {
    t < U16 && forall b :: 0 <= b < t ==> IsBare(h, h.fns[fi].blocks[b])
  }

  lemma TargetIff(h: HirModule, fi: nat, m: Module, ok: bool, t: nat)
    requires WellFormed(h) && fi < |h.fns| && t < |h.fns[fi].blocks| && Distinct(m.strings)
    requires AllEnded(h, fi) && LowerFunction(h, fi, m, ok).ok
    ensures ToU16(t) <= BlockStart(h, fi, m, ok, t) < |LowerFunction(h, fi, m, ok).body|
    ensures ToU16(t) == BlockStart(h, fi, m, ok, t) <==> HitsBlock(h, fi, t)
  {
    hide LowerFunction, LowerBlock, Consistent, IsBare, IsEnded, Distinct, BlockInRange;
    StartsAtItsNumberIff(h, fi, m, ok, t);
    BlocksInOrder(h, fi, m, ok, t);
    BlockEmits(h, fi, LowerFirst(h, fi, m, ok, t), h.fns[fi].blocks[t]);
  }

  /**
   * The jump that ends a block reaches block `t`, its target, exactly when the blocks before `t` emitted
   * `t` instructions (and `t` fits sixteen bits); that is, exactly when they are all bare. Otherwise it
   * lands in the code of an earlier block.
   */
  lemma JumpReachesItsBlockIff(h: HirModule, fi: nat, m0: Module, ok: bool, b: nat, m: Module, fr: Frame)
    requires WellFormed(h) && fi < |h.fns| && b < |h.fns[fi].blocks| && Distinct(m0.strings)
    requires IsEnded(h, h.fns[fi].blocks[b]) && LowerFunction(h, fi, m0, ok).ok
    requires fr.pc + 1 == BlockStart(h, fi, m0, ok, b + 1)
    requires Ending(h, fi, b).HirJump? && Ending(h, fi, b).target < |h.fns[fi].blocks|
    ensures var body, t := LowerFunction(h, fi, m0, ok).body, Ending(h, fi, b).target;
      && fr.pc < |body|
      && (Reaches(h, fi, m0, ok, m, fr, t) <==> ToU16(t) == BlockStart(h, fi, m0, ok, t) < |body|)
      && (AllEnded(h, fi) ==> (Reaches(h, fi, m0, ok, m, fr, t) <==> HitsBlock(h, fi, t)))
      && (AllEnded(h, fi) && !HitsBlock(h, fi, t) ==>
            exists pc: nat :: pc < BlockStart(h, fi, m0, ok, t) &&
              Step(m, Finish(h.fns[fi], LowerFunction(h, fi, m0, ok)), fr) == Next(fr.(pc := pc)))
  {
    hide LowerFunction, BlockStart, HitsBlock, Distinct, IsBare, AllEnded;
    var t := Ending(h, fi, b).target;
    JumpIsEmitted(h, fi, m0, ok, b);
    if AllEnded(h, fi) {
      TargetIff(h, fi, m0, ok, t);
      assert Step(m, Finish(h.fns[fi], LowerFunction(h, fi, m0, ok)), fr) == Next(fr.(pc := ToU16(t)));
    }
  }

  /**
   * The same for the two instructions of a branch: the first one goes to its block when the condition is
   * not zero, and on to the second one, the jump to the other block, when it is.
   */
  lemma BranchReachesItsBlocksIff(h: HirModule, fi: nat, m0: Module, ok: bool, b: nat, m: Module, fr: Frame)
    requires WellFormed(h) && fi < |h.fns| && b < |h.fns[fi].blocks| && Distinct(m0.strings)
    requires IsEnded(h, h.fns[fi].blocks[b]) && LowerFunction(h, fi, m0, ok).ok
    requires fr.pc + 2 == BlockStart(h, fi, m0, ok, b + 1) && |fr.regs| == LowerFunction(h, fi, m0, ok).registerCount
    requires var e := Ending(h, fi, b);
      e.HirBranch? && e.thenBlock < |h.fns[fi].blocks| && e.elseBlock < |h.fns[fi].blocks|
    ensures var st, e := LowerFunction(h, fi, m0, ok), Ending(h, fi, b);
      && fr.pc + 1 < |st.body| && st.body[fr.pc].b < |fr.regs|
      && (e.cond < |h.exprs| ==> e.cond in st.memo && st.body[fr.pc].b == st.memo[e.cond])
      && if fr.regs[st.body[fr.pc].b] != 0 then
           && (Reaches(h, fi, m0, ok, m, fr, e.thenBlock) <==> ToU16(e.thenBlock) == BlockStart(h, fi, m0, ok, e.thenBlock))
           && (AllEnded(h, fi) ==> (Reaches(h, fi, m0, ok, m, fr, e.thenBlock) <==> HitsBlock(h, fi, e.thenBlock)))
         else
           var second := fr.(pc := fr.pc + 1);
           && Step(m, Finish(h.fns[fi], st), fr) == Next(second)
           && (Reaches(h, fi, m0, ok, m, second, e.elseBlock) <==>
                 ToU16(e.elseBlock) == BlockStart(h, fi, m0, ok, e.elseBlock) < |st.body|)
           && (AllEnded(h, fi) ==> (Reaches(h, fi, m0, ok, m, second, e.elseBlock) <==> HitsBlock(h, fi, e.elseBlock)))
  {
    hide LowerFunction, BlockStart, HitsBlock, Distinct, AllEnded;
    var e := Ending(h, fi, b);
    JumpIsEmitted(h, fi, m0, ok, b);
    if AllEnded(h, fi) {
      TargetIff(h, fi, m0, ok, e.thenBlock);
      TargetIff(h, fi, m0, ok, e.elseBlock);
    }
  }
}
