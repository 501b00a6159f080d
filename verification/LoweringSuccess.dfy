/** Which modules the lowering accepts. */
module LoweringSuccess {
  import opened Collections
  import opened ExecIr
  import opened Hir
  import opened HirToIr

  /** An operand that can be lowered: of a supported kind, with such operands; a name must be a parameter, and
      a call must have a target. An invalid id needs no code. */
  predicate Lowerable(h: HirModule, fi: nat, id: nat)
    requires WellFormed(h) && fi < |h.fns|
    decreases Rank(h, id)
  {
    id >= |h.exprs| ||
    (assert OperandsPrecede(h, id);
     match h.exprs[id]
     case Literal(_) => true
     case StringLiteral(_) => true
     case SlotLoad(_) => true
     case Var(name) => name in h.fns[fi].params
     case Binary(_, l, r) => Lowerable(h, fi, l) && Lowerable(h, fi, r)
     case Unary(_, o) => Lowerable(h, fi, o)
     case HirCall(_, _, args) =>
       !CallTarget(h, fi, id).NotFound? && forall i :: 0 <= i < |args| && i < 2 ==> Lowerable(h, fi, args[i])
     case _ => false)
  }

  predicate InstLowerable(h: HirModule, fi: nat, id: nat)
    requires WellFormed(h) && fi < |h.fns| && id < |h.exprs|
  {
    match h.exprs[id]
    case SlotAlloca(_) => true
    case HirRet(_) => true
    case SlotStore(_, v) => Lowerable(h, fi, v)
    case _ => Lowerable(h, fi, id)
  }

  predicate EndLowerable(h: HirModule, fi: nat, id: nat)
    requires WellFormed(h) && fi < |h.fns| && id < |h.exprs|
  {
    match h.exprs[id]
    case HirBranch(c, _, _) => Lowerable(h, fi, c)
    case HirRet(Some(v)) => Lowerable(h, fi, v)
    case _ => true
  }

  predicate BlockLowerable(h: HirModule, fi: nat, b: Block)
    requires WellFormed(h) && fi < |h.fns| && BlockInRange(h, b)
  {
    && (forall i :: 0 <= i < |b.insts| ==> InstLowerable(h, fi, b.insts[i]))
    && (b.terminator.Some? ==> EndLowerable(h, fi, b.terminator.value))
  }

  ghost predicate FunctionLowerable(h: HirModule, fi: nat)
    requires WellFormed(h) && fi < |h.fns|
  {
    forall b :: 0 <= b < |h.fns[fi].blocks| ==> BlockLowerable(h, fi, h.fns[fi].blocks[b])
  }

  /** The tables the sixteen-bit numbers of constants and strings can reach. */
  predicate Small(constants: seq<int>, strings: seq<string>) {
    |constants| <= U16 && |strings| <= U16
  }

  /** As long as nothing failed, everything that has a register could be lowered, and the tables are small. */
  ghost predicate Sound(h: HirModule, fi: nat, st: LState)
    requires WellFormed(h) && fi < |h.fns|
  {
    st.ok ==> Small(st.constants, st.strings) && forall id :: id in st.memo ==> Lowerable(h, fi, id)
  }

  /** `b`, lowered from `a`, fails exactly when something asked for cannot be lowered or a table overflows. */
  ghost predicate Succeeds(h: HirModule, fi: nat, a: LState, b: LState, lowerable: bool)
    requires WellFormed(h) && fi < |h.fns|
  {
    Sound(h, fi, b) && (b.ok <==> a.ok && lowerable && Small(b.constants, b.strings))
  }

  lemma DefineSucceeds(h: HirModule, fi: nat, a: LState, mid: LState, id: nat, op: Op, b: nat, c: nat, imm: nat, before: bool)
    requires WellFormed(h) && fi < |h.fns| && Succeeds(h, fi, a, mid, before)
    requires before ==> Lowerable(h, fi, id)
    ensures Succeeds(h, fi, a, Define(mid, id, op, b, c, imm).0, before)
  {
    hide WellFormed, Lowerable;
  }

  lemma SucceedsThen(h: HirModule, fi: nat, a: LState, b: LState, c: LState, first: bool, second: bool)
    requires WellFormed(h) && fi < |h.fns| && Succeeds(h, fi, a, b, first) && Succeeds(h, fi, b, c, second)
    requires Continues(b, c)
    ensures Succeeds(h, fi, a, c, first && second)
  {
    hide WellFormed, Lowerable;
  }

  lemma LeafSucceeds(h: HirModule, fi: nat, st: LState, id: nat)
    requires WellFormed(h) && fi < |h.fns| && id < |h.exprs| && id !in st.memo && Sound(h, fi, st)
    requires !h.exprs[id].Binary? && !h.exprs[id].Unary? && !h.exprs[id].HirCall?
    ensures Succeeds(h, fi, st, LowerOperand(h, fi, st, id).0, Lowerable(h, fi, id))
  {
    hide WellFormed, FirstIndex;
    InPool(h, id);
  }

  lemma {:induction false} OperandSucceeds(h: HirModule, fi: nat, st: LState, id: nat)
    requires WellFormed(h) && fi < |h.fns| && Consistent(h, fi, st) && Sound(h, fi, st)
    ensures Succeeds(h, fi, st, LowerOperand(h, fi, st, id).0, Lowerable(h, fi, id))
    decreases Rank(h, id), 1
  {
    hide WellFormed, Consistent, CallTarget, Define, BinaryOpcode, UnaryOpcode, LowerLiteral, LowerString, LowerVar, Continues;
    if id < |h.exprs| && id !in st.memo {
      InPool(h, id);
      match h.exprs[id]
      case Binary(op, l, r) =>
        var (st1, lhs) := LowerOperand(h, fi, st, l);
        var (st2, rhs) := LowerOperand(h, fi, st1, r);
        OperandContinues(h, fi, st, l);
        OperandContinues(h, fi, st1, r);
        OperandSucceeds(h, fi, st, l);
        OperandSucceeds(h, fi, st1, r);
        SucceedsThen(h, fi, st, st1, st2, Lowerable(h, fi, l), Lowerable(h, fi, r));
        DefineSucceeds(h, fi, st, st2, id, BinaryOpcode(op), lhs, rhs, 0, Lowerable(h, fi, id));
      case Unary(op, o) =>
        var (st1, operand) := LowerOperand(h, fi, st, o);
        OperandSucceeds(h, fi, st, o);
        DefineSucceeds(h, fi, st, st1, id, UnaryOpcode(op), operand, 0, 0, Lowerable(h, fi, id));
      case HirCall(_, _, _) => CallSucceeds(h, fi, st, id);
      case _ => LeafSucceeds(h, fi, st, id);
    }
  }

  lemma {:induction false} CallSucceeds(h: HirModule, fi: nat, st: LState, id: nat)
    requires WellFormed(h) && fi < |h.fns| && Consistent(h, fi, st) && Sound(h, fi, st)
    requires id < |h.exprs| && h.exprs[id].HirCall? && id !in st.memo
    ensures Succeeds(h, fi, st, LowerOperand(h, fi, st, id).0, Lowerable(h, fi, id))
    decreases Rank(h, id), 0, 1
  {
    hide WellFormed, Consistent, CallTarget, Define, Continues;
    InPool(h, id);
    var t := CallTarget(h, fi, id);
    if !t.NotFound? {
      var (st1, arg0) := LowerArg(h, fi, st, id, 0);
      var (st2, arg1) := LowerArg(h, fi, st1, id, 1);
      ArgContinues(h, fi, st, id, 0);
      ArgContinues(h, fi, st1, id, 1);
      ArgSucceeds(h, fi, st, id, 0);
      ArgSucceeds(h, fi, st1, id, 1);
      SucceedsThen(h, fi, st, st1, st2, ArgLowerable(h, fi, id, 0), ArgLowerable(h, fi, id, 1));
      DefineSucceeds(h, fi, st, st2, id, if t.Extern? then CallExtern else CallFn, arg0, arg1, ToU16(t.index), Lowerable(h, fi, id));
    }
  }

  predicate ArgLowerable(h: HirModule, fi: nat, id: nat, i: nat)
    requires WellFormed(h) && fi < |h.fns| && id < |h.exprs| && h.exprs[id].HirCall?
  {
    i < |h.exprs[id].args| ==> Lowerable(h, fi, h.exprs[id].args[i])
  }

  lemma {:induction false} ArgSucceeds(h: HirModule, fi: nat, st: LState, id: nat, i: nat)
    requires WellFormed(h) && fi < |h.fns| && id < |h.exprs| && h.exprs[id].HirCall?
    requires Consistent(h, fi, st) && Sound(h, fi, st)
    ensures Succeeds(h, fi, st, LowerArg(h, fi, st, id, i).0, ArgLowerable(h, fi, id, i))
    decreases Rank(h, id), 0, 0
  {
    hide WellFormed, Consistent, LowerOperand, Lowerable;
    InPool(h, id);
    if i < |h.exprs[id].args| {
      OperandSucceeds(h, fi, st, h.exprs[id].args[i]);
    }
  }

  lemma InstSucceeds(h: HirModule, fi: nat, st: LState, id: nat)
    requires WellFormed(h) && fi < |h.fns| && id < |h.exprs| && Consistent(h, fi, st) && Sound(h, fi, st)
    ensures Succeeds(h, fi, st, LowerInst(h, fi, st, id), InstLowerable(h, fi, id))
  {
    hide WellFormed, Consistent, LowerOperand, Lowerable;
    match h.exprs[id]
    case SlotAlloca(_) =>
    case HirRet(_) =>
    case SlotStore(_, v) => OperandSucceeds(h, fi, st, v);
    case _ => OperandSucceeds(h, fi, st, id);
  }

  lemma {:induction false} InstsSucceed(h: HirModule, fi: nat, st: LState, ids: seq<nat>)
    requires WellFormed(h) && fi < |h.fns| && Consistent(h, fi, st) && Sound(h, fi, st)
    requires forall i :: 0 <= i < |ids| ==> ids[i] < |h.exprs|
    ensures Succeeds(h, fi, st, LowerInsts(h, fi, st, ids), forall i :: 0 <= i < |ids| ==> InstLowerable(h, fi, ids[i]))
    decreases |ids|
  {
    hide WellFormed, Consistent, LowerInst, Lowerable, InstLowerable, Continues;
    if ids != [] {
      var st1 := LowerInst(h, fi, st, ids[0]);
      InstContinues(h, fi, st, ids[0]);
      InstsContinue(h, fi, st1, ids[1..]);
      InstSucceeds(h, fi, st, ids[0]);
      InstsSucceed(h, fi, st1, ids[1..]);
      var rest := forall i :: 0 <= i < |ids[1..]| ==> InstLowerable(h, fi, ids[1..][i]);
      SucceedsThen(h, fi, st, st1, LowerInsts(h, fi, st, ids), InstLowerable(h, fi, ids[0]), rest);
      assert forall i :: 0 < i < |ids| ==> ids[i] == ids[1..][i - 1];
    }
  }

  lemma EndSucceeds(h: HirModule, fi: nat, st: LState, id: nat)
    requires WellFormed(h) && fi < |h.fns| && id < |h.exprs| && Consistent(h, fi, st) && Sound(h, fi, st)
    ensures Succeeds(h, fi, st, LowerTerminator(h, fi, st, id), EndLowerable(h, fi, id))
  {
    hide WellFormed, Consistent, LowerOperand, Lowerable;
    match h.exprs[id]
    case HirBranch(c, _, _) => OperandSucceeds(h, fi, st, c);
    case HirRet(Some(v)) => OperandSucceeds(h, fi, st, v);
    case _ =>
  }

  lemma {:induction false} BlocksSucceed(h: HirModule, fi: nat, st: LState, bs: seq<Block>)
    requires WellFormed(h) && fi < |h.fns| && Consistent(h, fi, st) && Sound(h, fi, st)
    requires forall b :: 0 <= b < |bs| ==> BlockInRange(h, bs[b])
    ensures Succeeds(h, fi, st, LowerBlocks(h, fi, st, bs), forall b :: 0 <= b < |bs| ==> BlockLowerable(h, fi, bs[b]))
    decreases |bs|
  {
    hide WellFormed, Consistent, LowerInsts, LowerTerminator, Lowerable, InstLowerable, EndLowerable, Continues, BlockInRange;
    if bs != [] {
      var b := bs[0];
      BlockSucceeds(h, fi, st, b);
      BlockContinues(h, fi, st, b);
      var st1 := LowerBlock(h, fi, st, b);
      BlocksContinue(h, fi, st1, bs[1..]);
      BlocksSucceed(h, fi, st1, bs[1..]);
      var rest := forall i :: 0 <= i < |bs[1..]| ==> BlockLowerable(h, fi, bs[1..][i]);
      SucceedsThen(h, fi, st, st1, LowerBlocks(h, fi, st, bs), BlockLowerable(h, fi, b), rest);
      assert forall i :: 0 < i < |bs| ==> bs[i] == bs[1..][i - 1];
    }
  }

  lemma BlockSucceeds(h: HirModule, fi: nat, st: LState, b: Block)
    requires WellFormed(h) && fi < |h.fns| && Consistent(h, fi, st) && Sound(h, fi, st) && BlockInRange(h, b)
    ensures Succeeds(h, fi, st, LowerBlock(h, fi, st, b), BlockLowerable(h, fi, b))
  {
    hide WellFormed, Consistent, LowerInsts, LowerTerminator, Lowerable, InstLowerable, EndLowerable, Continues;
    var st1 := LowerInsts(h, fi, st, b.insts);
    InstsContinue(h, fi, st, b.insts);
    InstsSucceed(h, fi, st, b.insts);
    if b.terminator.Some? {
      TerminatorContinues(h, fi, st1, b.terminator.value);
      EndSucceeds(h, fi, st1, b.terminator.value);
      SucceedsThen(h, fi, st, st1, LowerBlock(h, fi, st, b),
                   forall i :: 0 <= i < |b.insts| ==> InstLowerable(h, fi, b.insts[i]), EndLowerable(h, fi, b.terminator.value));
    }
  }

  ghost predicate AllLowerable(h: HirModule, n: nat)
    requires WellFormed(h) && n <= |h.fns|
  {
    forall fi :: 0 <= fi < n && IsEmitted(h.fns[fi]) ==> FunctionLowerable(h, fi)
  }

  lemma {:induction false} UpToSucceeds(h: HirModule, n: nat)
    requires WellFormed(h) && n <= |h.fns|
    ensures var (m, ok) := LowerUpTo(h, n);
      ok <==> AllLowerable(h, n) && Small(m.constants, m.strings)
  {
    hide WellFormed, LowerBlocks, Consistent, Lowerable, BlockLowerable, IsEmitted, SourceName, Distinct, ExternNames, Continues;
    if n > 0 {
      UpToSucceeds(h, n - 1);
      UpToInvariant(h, n - 1);
      var (m, ok) := LowerUpTo(h, n - 1);
      var fi := n - 1;
      if IsEmitted(h.fns[fi]) {
        var st0 := Begin(h.fns[fi], m, ok);
        FunctionContinues(h, fi, m, ok);
        InRange(h, fi);
        BlocksSucceed(h, fi, st0, h.fns[fi].blocks);
        TablesKept(st0, LowerFunction(h, fi, m, ok));
      }
    }
  }

  lemma TablesKept(a: LState, b: LState)
    requires Continues(a, b)
    ensures Small(b.constants, b.strings) ==> Small(a.constants, a.strings)
  {
  }

  lemma InRange(h: HirModule, fi: nat)
    requires WellFormed(h) && fi < |h.fns|
    ensures forall b :: 0 <= b < |h.fns[fi].blocks| ==> BlockInRange(h, h.fns[fi].blocks[b])
  {
  }

  /**
   * A module is lowered successfully exactly when everything its emitted functions ask for can be lowered
   * and no more than 65536 constants and 65536 strings come together.
   */
  lemma LoweringSucceedsIff(h: HirModule)
    requires WellFormed(h)
    ensures var (m, ok) := LowerModule(h);
      ok <==> |m.constants| <= 0x1_0000 && |m.strings| <= 0x1_0000 &&
              forall fi :: 0 <= fi < |h.fns| && h.fns[fi].blocks != [] && h.fns[fi].declared ==> FunctionLowerable(h, fi)
  {
    hide WellFormed, LowerUpTo, FunctionLowerable;
    UpToSucceeds(h, |h.fns|);
  }
}
