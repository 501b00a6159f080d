/** Two small modules, lowered by the definition: one that shares an operand, one with two blocks. */
module LoweringExamples {
  import opened Collections
  import opened ExecIr
  import opened IrVm
  import opened Hir
  import opened HirToIr
  import opened LoweringBlocks
  import opened LoweringCorrect
  import Int64

  const PRODUCT := HirModule(
    [Literal(6), HirExpr.Binary(BinaryOp.Mul, 0, 0), HirRet(Some(1))],
    [HirFunction(0, "main", true, [], [Block([], Some(2))])])

  const PRODUCT_BODY := [
    Instr(LoadConst, 1, 0, 0, 0),
    Instr(Op.Binary(BinOp.Mul), 2, 1, 1, 0),
    Instr(Ret, 0, 0, 0, 0)]

  const PRODUCT_LOWERED := Module([ExecIr.Function("main", 0, 3, 0, 2, true, PRODUCT_BODY)], [], [6], [])

  lemma MainIsMain()
    ensures SourceName("main") == "main"
  {
    var s := "main";
    assert UpTo(s, '(') == s by {
      assert s[1..] == "ain" && s[1..][1..] == "in" && s[1..][1..][1..] == "n" && s[1..][1..][1..][1..] == [];
    }
    assert AfterLast(s[..3], '.') == s[..3] by {
      assert s[..3][..2] == s[..2] && s[..2][..1] == s[..1] && s[..1][..0] == [];
      assert AfterLast(s[..1], '.') == s[..1] && AfterLast(s[..2], '.') == s[..2];
    }
  }

  /** The shared literal is loaded once and multiplied with itself. */
  lemma ProductOperands(st: LState)
    requires WellFormed(PRODUCT) && st == Begin(PRODUCT.fns[0], Module([], [], [], []), true)
    ensures LowerOperand(PRODUCT, 0, st, 1) ==
            (LState(map[0 := 1, 1 := 2], 3, 0, 0, true, PRODUCT_BODY[..2], [6], [], true), 2)
  {
    var st1 := LState(map[0 := 1], 2, 0, 0, true, PRODUCT_BODY[..1], [6], [], true);
    assert ToU16(0) == 0;
    assert PRODUCT_BODY[..1] == [] + [PRODUCT_BODY[0]] && [] + [6] == [6];
    assert LowerLiteral(st, 0, 6) == (st1, 1);
    assert LowerOperand(PRODUCT, 0, st, 0) == (st1, 1);
    assert LowerOperand(PRODUCT, 0, st1, 0) == (st1, 1);
    assert PRODUCT_BODY[..2] == PRODUCT_BODY[..1] + [PRODUCT_BODY[1]];
    assert st1.memo[1 := 2] == map[0 := 1, 1 := 2];
    assert LowerOperand(PRODUCT, 0, st, 1) == Define(st1, 1, Op.Binary(BinOp.Mul), 1, 1, 0);
  }

  lemma ProductLowers()
    requires WellFormed(PRODUCT)
    ensures LowerModule(PRODUCT) == (PRODUCT_LOWERED, true)
  {
    hide LowerOperand, WellFormed, SourceName;
    var f, b := PRODUCT.fns[0], PRODUCT.fns[0].blocks[0];
    var st := Begin(f, Module([], [], [], []), true);
    ProductOperands(st);
    MainIsMain();
    var st1 := LState(map[0 := 1, 1 := 2], 3, 0, 0, true, PRODUCT_BODY[..2], [6], [], true);
    var st2 := LState(map[0 := 1, 1 := 2], 3, 0, 2, true, PRODUCT_BODY, [6], [], true);
    assert PRODUCT_BODY[..2] + [Instr(Ret, 0, 0, 0, 0)] == PRODUCT_BODY;
    assert LowerInsts(PRODUCT, 0, st, b.insts) == st;
    assert LowerTerminator(PRODUCT, 0, st, 2) == st2;
    assert LowerBlock(PRODUCT, 0, st, b) == st2;
    assert LowerBlocks(PRODUCT, 0, st2, []) == st2;
    assert f.blocks[1..] == [];
    assert LowerBlocks(PRODUCT, 0, st, f.blocks) == st2;
    assert LowerFunction(PRODUCT, 0, Module([], [], [], []), true) == st2;
    assert Finish(f, st2) == PRODUCT_LOWERED.functions[0];
    assert AddFunction(PRODUCT, 0, Module([], [], [], []), true) == (PRODUCT_LOWERED, true) by {
      assert [] + [Finish(f, st2)] == PRODUCT_LOWERED.functions;
    }
    assert LowerUpTo(PRODUCT, 0) == (Module([], [], [], []), true);
    assert LowerUpTo(PRODUCT, 1) == AddFunction(PRODUCT, 0, Module([], [], [], []), true);
  }

  lemma ProductRuns(depth: nat)
    ensures var f := PRODUCT_LOWERED.functions[0];
            Run(PRODUCT_LOWERED, f, Start(f, [], ""), depth, 3, 3) == Returned(36, "")
  {
    var m, f := PRODUCT_LOWERED, PRODUCT_LOWERED.functions[0];
    var fr0, fr1, fr2 := Frame(0, [0, 0, 0], [], ""), Frame(1, [0, 6, 0], [], ""), Frame(2, [0, 6, 36], [], "");
    assert Start(f, [], "") == fr0;
    assert fr0.regs[1 := 6] == fr1.regs && fr1.regs[2 := 36] == fr2.regs;
    assert Run(m, f, fr2, depth, 1, 3) == Returned(36, "");
    assert Run(m, f, fr1, depth, 2, 3) == Run(m, f, fr2, depth, 1, 3);
    assert Run(m, f, fr0, depth, 3, 3) == Run(m, f, fr1, depth, 2, 3);
  }

  /** The conditions of the theorems can be met, and give what one expects: main returns 36. */
  lemma ProductIsCompiled(depth: nat)
    ensures Compiled(PRODUCT, PRODUCT_LOWERED) && CapCovers(PRODUCT_LOWERED, 3)
    ensures var f := PRODUCT_LOWERED.functions[0];
            Run(PRODUCT_LOWERED, f, Start(f, [], ""), depth, 3, 3) == Returned(36, "")
  {
    hide LowerModule, Run, Start;
    ProductLowers();
    ProductRuns(depth);
  }

  /** `5; goto block 1` and then `return 0`: the jump is to instruction 1, which is the jump itself. */
  const TWO_BLOCKS := HirModule(
    [Literal(5), HirJump(1), HirRet(None)],
    [HirFunction(0, "main", true, [], [Block([0], Some(1)), Block([], Some(2))])])

  const TWO_BLOCKS_BODY := [
    Instr(LoadConst, 1, 0, 0, 0),
    Instr(Jump, 0, 0, 0, 1),
    Instr(Ret, 0, 0, 0, 0)]

  const EMPTY := Module([], [], [], [])

  const TWO_BLOCKS_LOWERED := Module([ExecIr.Function("main", 0, 2, 0, 0, false, TWO_BLOCKS_BODY)], [], [5], [])

  const AFTER_FIRST := LState(map[0 := 1], 2, 0, 0, true, TWO_BLOCKS_BODY[..2], [5], [], true)

  lemma TwoBlocksAreWellFormed()
    ensures WellFormed(TWO_BLOCKS)
  {
  }

  lemma TwoBlocksLower()
    ensures WellFormed(TWO_BLOCKS) && LowerModule(TWO_BLOCKS) == (TWO_BLOCKS_LOWERED, true)
    ensures BlockStart(TWO_BLOCKS, 0, EMPTY, true, 1) == 2
  {
    TwoBlocksAreWellFormed();
    var f := TWO_BLOCKS.fns[0];
    assert f.blocks[1..] == [f.blocks[1]] && f.blocks[1..][1..] == [] && f.blocks[..1] == [f.blocks[0]];
    OneBlock(TWO_BLOCKS, 0, Begin(f, EMPTY, true), f.blocks[0]);
    var st := AFTER_FIRST.(body := TWO_BLOCKS_BODY, returnIsExitCode := false);
    assert LowerFunction(TWO_BLOCKS, 0, EMPTY, true) == st;
    MainIsMain();
    assert AddFunction(TWO_BLOCKS, 0, EMPTY, true) == (TWO_BLOCKS_LOWERED, true) by {
      assert [] + [Finish(f, st)] == TWO_BLOCKS_LOWERED.functions;
    }
    assert LowerUpTo(TWO_BLOCKS, 0) == (EMPTY, true);
    assert LowerUpTo(TWO_BLOCKS, 1) == AddFunction(TWO_BLOCKS, 0, EMPTY, true);
  }

  lemma {:induction false} JumpLoops(regs: seq<int>, output: string, depth: nat, steps: nat, cap: nat)
    ensures Run(TWO_BLOCKS_LOWERED, TWO_BLOCKS_LOWERED.functions[0], Frame(1, regs, [], output), depth, steps, cap) == OutOfFuel
    decreases steps
  {
    if steps > 0 {
      JumpLoops(regs, output, depth, steps - 1, cap);
    }
  }

  /** The code lowered from the two blocks never ends, whatever the budget, though a run that is put at the
      first instruction of the second block returns at once. */
  lemma {:induction false} TwoBlocksNeverEnd(output: string, depth: nat, steps: nat, cap: nat)
    ensures WellFormed(TWO_BLOCKS) && LowerModule(TWO_BLOCKS) == (TWO_BLOCKS_LOWERED, true)
    ensures var f := TWO_BLOCKS_LOWERED.functions[0];
      && Run(TWO_BLOCKS_LOWERED, f, Start(f, [], output), depth, steps, cap) == OutOfFuel
      && var second := Start(f, [], output).(pc := BlockStart(TWO_BLOCKS, 0, EMPTY, true, 1));
         steps > 0 ==> Run(TWO_BLOCKS_LOWERED, f, second, depth, steps, cap) == Returned(0, output)
  {
    hide LowerModule, BlockStart;
    TwoBlocksLower();
    var f := TWO_BLOCKS_LOWERED.functions[0];
    assert Start(f, [], output) == Frame(0, [0, 0], [], output);
    if steps > 0 {
      assert Advance(TWO_BLOCKS_LOWERED, f, Start(f, [], output), depth, cap) == Next(Frame(1, [0, 5], [], output)) by {
        assert [0, 0][1 := 5] == [0, 5];
      }
      JumpLoops([0, 5], output, depth, steps - 1, cap);
    }
  }
}
