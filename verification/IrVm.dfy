/** The execution IR interpreter: a specification by recursion, and the loop that runs it. */
module IrVm {
  import opened Collections
  import opened ExecIr
  import Int64

  /** How a call ends. `Undefined` stands for behaviour C++ leaves undefined; `OutOfFuel` for a run
      cut short by the model's budgets. A trap keeps what was already printed. */
  datatype Outcome =
    | Returned(ret: int, output: string)
    | Trapped(output: string)
    | Undefined
    | OutOfFuel

  /** One activation: program counter, register file, slots, and everything printed so far. */
  datatype Frame = Frame(pc: nat, regs: seq<int>, slots: seq<int>, output: string)

  datatype StepResult = Next(frame: Frame) | Invoke(callee: nat, regs: seq<int>) | Halt(outcome: Outcome)

  function ExecBinary(op: BinOp, x: int, y: int): Int64.Arith
  {
    match op
    case Add => Int64.Checked(x + y)
    case Sub => Int64.Checked(x - y)
    case Mul => Int64.Mul(x, y)
    case Div => Int64.Div(x, y)
    case Rem => Int64.Rem(x, y)
    case Eq => Int64.Bit(x == y)
    case Ne => Int64.Bit(x != y)
    case Lt => Int64.Bit(x < y)
    case Le => Int64.Bit(x <= y)
    case Gt => Int64.Bit(x > y)
    case Ge => Int64.Bit(x >= y)
    case And => Int64.Bit(x != 0 && y != 0)
    case Or => Int64.Bit(x != 0 || y != 0)
    case Xor => Int64.Value(Int64.Xor(x, y))
    // the count is converted to a 32-bit unsigned before the shift
    case Shl => if y < 0 then Int64.Trap else Int64.ShiftLeft(x, Int64.ToU32(y))
    case Shr => if y < 0 then Int64.Trap else Int64.ShiftRight(x, Int64.ToU32(y))
  }

  function ExecUnary(op: UnOp, x: int): Int64.Arith
  {
    match op
    case Neg => Int64.Checked(-x)
    case Not => Int64.Bit(x == 0)
    case BitNot => Int64.Value(-x - 1)
  }

  /** Sums, differences and products are exact or undefined; nothing wraps. */
  lemma ExactArithmetic(x: int, y: int, v: int)
    ensures ExecBinary(BinOp.Add, x, y) == Int64.Value(v) <==> v - y == x && Int64.Fits(v)
    ensures ExecBinary(BinOp.Sub, x, y) == Int64.Value(v) <==> v + y == x && Int64.Fits(v)
    ensures ExecBinary(BinOp.Mul, x, y) == Int64.Value(v) <==> v == x * y && Int64.Fits(v)
    ensures ExecUnary(Neg, x) == Int64.Value(v) <==> v + x == 0 && Int64.Fits(v)
    ensures ExecUnary(BitNot, x) == Int64.Value(v) <==> v + x == -1
    ensures !ExecBinary(BinOp.Add, x, y).Trap? && !ExecBinary(BinOp.Sub, x, y).Trap? && !ExecBinary(BinOp.Mul, x, y).Trap?
  {
  }

  /** Division traps on zero only, overflows in one case only, and otherwise splits the dividend, the
      remainder being smaller than the divisor and of the dividend's sign. */
  lemma DivisionSplits(x: int, y: int)
    ensures var d, r := ExecBinary(BinOp.Div, x, y), ExecBinary(BinOp.Rem, x, y);
      && (d.Trap? <==> y == 0) && (r.Trap? <==> y == 0)
      && (d.Undefined? <==> x == Int64.MIN && y == -1) && (r.Undefined? <==> x == Int64.MIN && y == -1)
      && (d.Value? ==> r.Value? && d.v * y + r.v == x && Int64.Abs(r.v) < Int64.Abs(y) && (r.v != 0 ==> (r.v < 0 <==> x < 0)))
  {
    if y != 0 {
      Int64.TruncatedDivision(x, y);
    }
  }

  /** A comparison or a logical operator yields 1 where it holds and 0 where it does not, and nothing else. */
  lemma TruthValues(x: int, y: int)
    ensures forall op, holds :: Asks(op, x, y, holds) ==> ExecBinary(op, x, y) == Int64.Value(if holds then 1 else 0)
    ensures ExecUnary(Not, x) == Int64.Value(if x == 0 then 1 else 0)
  {
  }

  /** The operator asks this of its operands. */
  predicate Asks(op: BinOp, x: int, y: int, holds: bool) {
    match op
    case Eq => holds <==> x == y
    case Ne => holds <==> x != y
    case Lt => holds <==> x < y
    case Le => holds <==> !(y < x)
    case Gt => holds <==> y < x
    case Ge => holds <==> !(x < y)
    case And => holds <==> !(x == 0 || y == 0)
    case Or => holds <==> !(x == 0 && y == 0)
    case _ => false
  }

  /** A negative count traps, one of 64 or more is undefined as far as it fits 32 bits, and the others shift. */
  lemma Shifts(x: int, y: int)
    ensures ExecBinary(BinOp.Shl, x, y).Trap? <==> y < 0
    ensures ExecBinary(BinOp.Shr, x, y).Trap? <==> y < 0
    ensures 64 <= y < Int64.TWO_32 ==> ExecBinary(BinOp.Shl, x, y) == Int64.Undefined && ExecBinary(BinOp.Shr, x, y) == Int64.Undefined
    ensures 0 <= y < 64 ==> forall v ::
              ExecBinary(BinOp.Shl, x, y) == Int64.Value(v) <==> Int64.Fits(v) && (v - Int64.Doubled(x, y)) % Int64.TWO_64 == 0
    ensures 0 <= y < 64 ==> forall v ::
              ExecBinary(BinOp.Shr, x, y) == Int64.Value(v) <==> Int64.Doubled(v, y) <= x < Int64.Doubled(v + 1, y)
  {
    hide Int64.Pow2, Int64.Doubled, Int64.ShiftLeft, Int64.ShiftRight, Int64.ToU32, Int64.Fits;
    if 0 <= y < Int64.TWO_32 {
      Int64.ToU32Small(y);
      Int64.ShiftLeftDoubles(x, y);
      Int64.ShiftRightHalves(x, y);
    }
  }

  /** Exclusive or works bit by bit. */
  lemma ExclusiveOr(x: int, y: int, k: nat)
    requires k < 64
    ensures ExecBinary(BinOp.Xor, x, y).Value? && Int64.Fits(ExecBinary(BinOp.Xor, x, y).v)
    ensures Int64.BitAt(ExecBinary(BinOp.Xor, x, y).v, k) == 1 <==> Int64.BitAt(x, k) != Int64.BitAt(y, k)
  {
    Int64.XorBitwise(x, y, k);
  }

  /** Writing an arithmetic result to its destination and moving on. */
  function Assign(fr: Frame, dst: nat, v: Int64.Arith): StepResult
    requires dst < |fr.regs|
  {
    match v
    case Value(x) => Next(fr.(pc := fr.pc + 1, regs := fr.regs[dst := x]))
    case Trap => Halt(Trapped(fr.output))
    case Undefined => Halt(Undefined)
  }

  function ByteChar(v: int): char { (v % 256) as char }

  /** The two library functions the interpreter knows. They leave the destination untouched. */
  function CallLibrary(strings: seq<string>, name: string, v: int, output: string): Outcome
  {
    if name == "puts" then
      if 0 <= v < |strings| then Returned(0, output + strings[v] + ['\n']) else Trapped(output)
    else if name == "putchar" then Returned(0, output + [ByteChar(v)])
    else Trapped(output)
  }

  /** `puts` prints the numbered string and a line break, `putchar` the low byte of its operand; a bad number
      and any other name trap and print nothing. */
  lemma LibraryPrints(strings: seq<string>, name: string, v: int, output: string)
    ensures name == "puts" && 0 <= v < |strings| ==>
              exists after :: CallLibrary(strings, name, v, output) == Returned(0, after) &&
                              |after| == |output| + |strings[v]| + 1 && output <= after &&
                              after[|output|..|after| - 1] == strings[v] && after[|after| - 1] == '\n'
    ensures name == "putchar" ==>
              exists after :: CallLibrary(strings, name, v, output) == Returned(0, after) &&
                              |after| == |output| + 1 && output <= after &&
                              0 <= after[|output|] as int < 256 && (after[|output|] as int - v) % 256 == 0
    ensures CallLibrary(strings, name, v, output) == Trapped(output) <==>
              name != "putchar" && (name != "puts" || v < 0 || |strings| <= v)
  {
    if name == "puts" && 0 <= v < |strings| {
      var after := output + strings[v] + ['\n'];
      assert after[|output|..|after| - 1] == strings[v];
    }
  }

  /** The register file a call starts with: zeros, with up to two copied arguments. Copying past a
      register file that is too small is undefined, not a trap. */
  function CalleeRegs(f: Function, x: int, y: int): Option<seq<int>>
  {
    if f.registerCount < f.paramCount && f.paramCount <= 2 then None
    else
      var r0 := Zeros(f.registerCount);
      var r1 := if 0 < f.paramCount <= f.registerCount then r0[0 := x] else r0;
      Some(if 1 < f.paramCount <= f.registerCount then r1[1 := y] else r1)
  }

  /** A direct call: the checks, then the callee's register file. */
  function CallStep(m: Module, i: Instr, fr: Frame): (r: StepResult)
    ensures r.Invoke? ==> r.callee == i.imm < |m.functions|
    ensures !r.Next?
  {
    if i.imm >= |m.functions| || i.b >= |fr.regs| || i.c >= |fr.regs| then Halt(Trapped(fr.output))
    else if m.functions[i.imm].paramCount > 2 then Halt(Trapped(fr.output))
    else match CalleeRegs(m.functions[i.imm], fr.regs[i.b], fr.regs[i.c])
      case None => Halt(Undefined)
      case Some(regs) => Invoke(i.imm, regs)
  }

  function Step(m: Module, f: Function, fr: Frame): (r: StepResult)
    requires fr.pc < |f.body|
    ensures r.Invoke? ==> f.body[fr.pc].op.CallFn? && r.callee < |m.functions|
  {
    var i := f.body[fr.pc];
    var n := |fr.regs|;
    var trap := Halt(Trapped(fr.output));
    match i.op
    case LoadConst =>
      if i.a >= n || i.imm >= |m.constants| then trap else Assign(fr, i.a, Int64.Value(m.constants[i.imm]))
    case LoadString =>
      if i.a >= n || i.imm >= |m.strings| then trap else Assign(fr, i.a, Int64.Value(i.imm))
    case Copy =>
      if i.a >= n || i.b >= n then trap else Assign(fr, i.a, Int64.Value(fr.regs[i.b]))
    case SlotLoad =>
      if i.a >= n || i.imm >= |fr.slots| then trap else Assign(fr, i.a, Int64.Value(fr.slots[i.imm]))
    case SlotStore =>
      if i.imm >= |fr.slots| || i.b >= n then trap
      else Next(fr.(pc := fr.pc + 1, slots := fr.slots[i.imm := fr.regs[i.b]]))
    case CallExtern =>
      if i.imm >= |m.externs| || i.b >= n then trap
      else (match CallLibrary(m.strings, m.externs[i.imm], fr.regs[i.b], fr.output)
            case Returned(_, out) => Next(fr.(pc := fr.pc + 1, output := out))
            case o => Halt(o))
    case CallFn => CallStep(m, i, fr)
    case Ret =>
      Halt(Returned(if f.returnIsExitCode && f.returnRegister < n then fr.regs[f.returnRegister] else 0, fr.output))
    case Branch =>
      if i.b >= n then trap else Next(fr.(pc := if fr.regs[i.b] != 0 then i.imm else fr.pc + 1))
    case Jump =>
      if i.imm >= |f.body| then trap else Next(fr.(pc := i.imm))
    case Trap => trap
    case Binary(op) =>
      if i.a >= n || i.b >= n || i.c >= n then trap
      else Assign(fr, i.a, ExecBinary(op, fr.regs[i.b], fr.regs[i.c]))
    case Unary(op) =>
      if i.a >= n || i.b >= n then trap else Assign(fr, i.a, ExecUnary(op, fr.regs[i.b]))
  }

  /** An instruction moves on by one, or jumps, and writes no register but `a` and no slot but `imm`; only a
      library call prints, and only a store touches the slots. */
  lemma StepTouchesLittle(m: Module, f: Function, fr: Frame)
    requires fr.pc < |f.body| && Step(m, f, fr).Next?
    ensures var i, after := f.body[fr.pc], Step(m, f, fr).frame;
      && |after.regs| == |fr.regs| && |after.slots| == |fr.slots| && fr.output <= after.output
      && (forall r :: 0 <= r < |fr.regs| && r != i.a ==> after.regs[r] == fr.regs[r])
      && (forall s :: 0 <= s < |fr.slots| && s != i.imm ==> after.slots[s] == fr.slots[s])
      && (after.output != fr.output ==> i.op.CallExtern?)
      && (after.slots != fr.slots ==> i.op.SlotStore?)
      && (after.regs != fr.regs ==> !i.op.Jump? && !i.op.Branch? && !i.op.SlotStore? && !i.op.CallExtern?)
      && (after.pc == fr.pc + 1 || ((i.op.Jump? || i.op.Branch?) && after.pc == i.imm))
  {
    hide ExecBinary, ExecUnary;
  }

  function Start(f: Function, regs: seq<int>, output: string): Frame
  {
    Frame(0, if |regs| < f.registerCount then regs + Zeros(f.registerCount - |regs|) else regs,
          Zeros(f.slotCount), output)
  }

  /** One instruction with any call it makes run to its end. `depth` bounds nested calls and `cap`
      is the instruction budget of every activation. */
  function Advance(m: Module, f: Function, fr: Frame, depth: nat, cap: nat): (r: StepResult)
    requires fr.pc < |f.body|
    ensures !r.Invoke?
    decreases depth, 0, 1
  {
    match Step(m, f, fr)
    case Next(fr') => Next(fr')
    case Halt(o) => Halt(o)
    case Invoke(c, regs) => Resume(f, fr, Call(m, c, regs, fr.output, depth, cap))
  }

  /** The outcome of calling function `c` with a prepared register file. */
  function Call(m: Module, c: nat, regs: seq<int>, output: string, depth: nat, cap: nat): Outcome
    requires c < |m.functions|
    decreases depth, 0, 0
  {
    if depth == 0 then OutOfFuel
    else Run(m, m.functions[c], Start(m.functions[c], regs, output), depth - 1, cap, cap)
  }

  /** Taking the callee's outcome back into the caller. */
  function Resume(f: Function, fr: Frame, callee: Outcome): (r: StepResult)
    requires fr.pc < |f.body|
    ensures !r.Invoke?
  {
    match callee
    case Returned(v, out) =>
      if f.body[fr.pc].a >= |fr.regs| then Halt(Trapped(out))
      else Next(Frame(fr.pc + 1, fr.regs[f.body[fr.pc].a := v], fr.slots, out))
    case o => Halt(o)
  }

  /** Running `f` from a frame; `steps` bounds the instructions of this activation. */
  function Run(m: Module, f: Function, fr: Frame, depth: nat, steps: nat, cap: nat): Outcome
    decreases depth, steps, 2
  {
    if fr.pc >= |f.body| then Trapped(fr.output)
    else if steps == 0 then OutOfFuel
    else match Advance(m, f, fr, depth, cap)
      case Next(fr') => Run(m, f, fr', depth, steps - 1, cap)
      case Halt(o) => o
  }

  /** The budgets are no part of the meaning: once a run finishes, larger ones change nothing. */
  lemma {:induction false} FuelMonotone(m: Module, f: Function, fr: Frame, depth: nat, steps: nat, cap: nat,
                                        depth': nat, steps': nat, cap': nat)
    requires depth <= depth' && steps <= steps' && cap <= cap'
    requires Run(m, f, fr, depth, steps, cap) != OutOfFuel
    ensures Run(m, f, fr, depth', steps', cap') == Run(m, f, fr, depth, steps, cap)
    decreases depth, steps
  {
    if fr.pc < |f.body| {
      AdvanceMonotone(m, f, fr, depth, cap, depth', cap');
      match Advance(m, f, fr, depth, cap)
      case Next(fr') => FuelMonotone(m, f, fr', depth, steps - 1, cap, depth', steps' - 1, cap');
      case Halt(o) =>
    }
  }

  lemma {:induction false} AdvanceMonotone(m: Module, f: Function, fr: Frame, depth: nat, cap: nat,
                                           depth': nat, cap': nat)
    requires fr.pc < |f.body| && depth <= depth' && cap <= cap'
    requires Advance(m, f, fr, depth, cap) != Halt(OutOfFuel)
    ensures Advance(m, f, fr, depth', cap') == Advance(m, f, fr, depth, cap)
    decreases depth, 0
  {
    hide Step;
    match Step(m, f, fr)
    case Next(_) =>
    case Halt(_) =>
    case Invoke(c, regs) =>
      FuelMonotone(m, m.functions[c], Start(m.functions[c], regs, fr.output), depth - 1, cap, cap,
                   depth' - 1, cap', cap');
  }

  datatype RunStatus = StatusReturned | StatusTrapped | StatusUndefined | StatusOutOfFuel

  datatype VmStatus = Ok | MissingMain | VmTrap | VmUndefined | VmOutOfFuel
  datatype VmResult = VmResult(status: VmStatus, exitCode: int, output: string)

  /** What a status, a return value and the printed text say together. */
  predicate Describes(o: Outcome, status: RunStatus, ret: int, output: string)
  {
    match o
    case Returned(v, out) => status == StatusReturned && ret == v && output == out
    case Trapped(out) => status == StatusTrapped && output == out
    case Undefined => status == StatusUndefined
    case OutOfFuel => status == StatusOutOfFuel
  }

  class Vm {
    var output: string

    constructor ()
      ensures output == ""
    {
      output := "";
    }

    /** One pass through the instruction switch, for every opcode but `CallFn`. */
    method Execute(m: Module, f: Function, pc: nat, regs: seq<int>, slots: seq<int>)
      returns (halted: bool, status: RunStatus, ret: int, pc': nat, regs': seq<int>, slots': seq<int>)
      requires pc < |f.body| && !f.body[pc].op.CallFn?
      modifies this
      ensures match Step(m, f, Frame(pc, regs, slots, old(output)))
        case Next(fr) => !halted && fr == Frame(pc', regs', slots', output)
        case Halt(o) => halted && Describes(o, status, ret, output)
        case Invoke(_, _) => false
    {
      var i := f.body[pc];
      halted, status, ret, pc', regs', slots' := true, StatusTrapped, 0, pc, regs, slots;
      match i.op {
        case LoadConst =>
          if i.a >= |regs| || i.imm >= |m.constants| { return; }
          regs' := regs[i.a := m.constants[i.imm]];
          pc' := pc + 1;
        case LoadString =>
          if i.a >= |regs| || i.imm >= |m.strings| { return; }
          regs' := regs[i.a := i.imm];
          pc' := pc + 1;
        case Copy =>
          if i.a >= |regs| || i.b >= |regs| { return; }
          regs' := regs[i.a := regs[i.b]];
          pc' := pc + 1;
        case SlotLoad =>
          if i.a >= |regs| || i.imm >= |slots| { return; }
          regs' := regs[i.a := slots[i.imm]];
          pc' := pc + 1;
        case SlotStore =>
          if i.imm >= |slots| || i.b >= |regs| { return; }
          slots' := slots[i.imm := regs[i.b]];
          pc' := pc + 1;
        case CallExtern =>
          if i.imm >= |m.externs| || i.b >= |regs| { return; }
          if m.externs[i.imm] == "puts" {
            if regs[i.b] < 0 || regs[i.b] >= |m.strings| { return; }
            output := output + m.strings[regs[i.b]] + ['\n'];
          } else if m.externs[i.imm] == "putchar" {
            output := output + [ByteChar(regs[i.b])];
          } else {
            return;
          }
          pc' := pc + 1;
        case Ret =>
          if f.returnIsExitCode && f.returnRegister < |regs| {
            ret := regs[f.returnRegister];
          }
          status := StatusReturned;
          return;
        case Branch =>
          if i.b >= |regs| { return; }
          pc' := if regs[i.b] != 0 then i.imm else pc + 1;
        case Jump =>
          if i.imm >= |f.body| { return; }
          pc' := i.imm;
        case Trap =>
          return;
        case Binary(op) =>
          if i.a >= |regs| || i.b >= |regs| || i.c >= |regs| { return; }
          var v := ExecBinary(op, regs[i.b], regs[i.c]);
          if v.Trap? { return; }
          if v.Undefined? { status := StatusUndefined; return; }
          regs' := regs[i.a := v.v];
          pc' := pc + 1;
        case Unary(op) =>
          if i.a >= |regs| || i.b >= |regs| { return; }
          var v := ExecUnary(op, regs[i.b]);
          if v.Undefined? { status := StatusUndefined; return; }
          regs' := regs[i.a := v.v];
          pc' := pc + 1;
      }
      halted := false;
    }

    /** The `CallFn` case up to the recursive call: the checks and the callee's register file. */
    method PrepareCall(m: Module, f: Function, pc: nat, regs: seq<int>, ghost slots: seq<int>)
      returns (halted: bool, status: RunStatus, calleeRegs: seq<int>)
      requires pc < |f.body| && f.body[pc].op.CallFn?
      ensures match Step(m, f, Frame(pc, regs, slots, output))
        case Invoke(c, r) => !halted && c == f.body[pc].imm && calleeRegs == r
        case Halt(o) => halted && status != StatusReturned && Describes(o, status, 0, output)
        case Next(_) => false
    {
      var i := f.body[pc];
      halted, status, calleeRegs := true, StatusTrapped, [];
      if i.imm >= |m.functions| || i.b >= |regs| || i.c >= |regs| { return; }
      var callee := m.functions[i.imm];
      if callee.paramCount > 2 { return; }
      calleeRegs := Zeros(callee.registerCount);
      if callee.registerCount < callee.paramCount { status := StatusUndefined; return; }
      if callee.paramCount > 0 {
        calleeRegs := calleeRegs[0 := regs[i.b]];
      }
      if callee.paramCount > 1 {
        calleeRegs := calleeRegs[1 := regs[i.c]];
      }
      halted := false;
    }

    /** The `CallFn` case: run the callee on a fresh register file and keep its result. */
    method CallFunction(m: Module, f: Function, pc: nat, regs: seq<int>, ghost slots: seq<int>, depth: nat, cap: nat)
      returns (halted: bool, status: RunStatus, regs': seq<int>)
      requires pc < |f.body| && f.body[pc].op.CallFn?
      modifies this
      ensures match Advance(m, f, Frame(pc, regs, slots, old(output)), depth, cap)
        case Next(fr) => !halted && fr == Frame(pc + 1, regs', slots, output)
        case Halt(o) => halted && Describes(o, status, 0, output)
      decreases depth, 0
    {
      hide Step;
      regs' := regs;
      var calleeRegs;
      halted, status, calleeRegs := PrepareCall(m, f, pc, regs, slots);
      if halted { return; }
      halted := true;
      if depth == 0 { status := StatusOutOfFuel; return; }
      var calleeRet;
      ghost var callee := Call(m, f.body[pc].imm, calleeRegs, output, depth, cap);
      assert Advance(m, f, Frame(pc, regs, slots, output), depth, cap) == Resume(f, Frame(pc, regs, slots, output), callee);
      status, calleeRet := RunFunction(m, m.functions[f.body[pc].imm], calleeRegs, depth - 1, cap);
      if status != StatusReturned { return; }
      if f.body[pc].a >= |regs| { status := StatusTrapped; return; }
      halted, regs' := false, regs[f.body[pc].a := calleeRet];
    }

    /** The dispatch loop. */
    method RunFunction(m: Module, f: Function, initial: seq<int>, depth: nat, cap: nat)
      returns (status: RunStatus, ret: int)
      modifies this
      ensures Describes(Run(m, f, Start(f, initial, old(output)), depth, cap, cap), status, ret, output)
      decreases depth, 1
    {
      hide Step;
      var regs := initial;
      if |regs| < f.registerCount {
        regs := regs + Zeros(f.registerCount - |regs|);
      }
      var slots := Zeros(f.slotCount);
      var pc: nat := 0;
      var steps := cap;
      ghost var expected := Run(m, f, Start(f, initial, output), depth, cap, cap);
      while pc < |f.body|
        invariant expected == Run(m, f, Frame(pc, regs, slots, output), depth, steps, cap)
        decreases steps
      {
        if steps == 0 { return StatusOutOfFuel, 0; }
        steps := steps - 1;
        var halted;
        ret := 0;
        if f.body[pc].op == CallFn {
          halted, status, regs := CallFunction(m, f, pc, regs, slots, depth, cap);
          pc := pc + 1;
        } else {
          halted, status, ret, pc, regs, slots := Execute(m, f, pc, regs, slots);
        }
        if halted { return; }
      }
      return StatusTrapped, 0;
    }

    static method FindMain(m: Module) returns (index: Option<nat>)
      ensures index == FirstIndex(Names(m), "main")
    {
      var i := 0;
      while i < |m.functions|
        invariant 0 <= i <= |m.functions|
        invariant "main" !in Names(m)[..i]
      {
        if m.functions[i].name == "main" {
          FirstIndexIs(Names(m), "main", i);
          return Some(i);
        }
        i := i + 1;
      }
      return None;
    }

    /** `runMain`. After a trap the text already printed stays in the machine, so it would lead the
        output of a later run. */
    method RunMain(m: Module, depth: nat, cap: nat) returns (result: VmResult)
      modifies this
      ensures match FirstIndex(Names(m), "main")
        case None => result.status == MissingMain && output == old(output)
        case Some(k) =>
          match Run(m, m.functions[k], Start(m.functions[k], [], old(output)), depth, cap, cap)
          case Returned(v, out) => result == VmResult(Ok, v, out) && output == ""
          case Trapped(out) => result == VmResult(VmTrap, 0, "") && output == out
          case Undefined => result.status == VmUndefined
          case OutOfFuel => result.status == VmOutOfFuel
    {
      var k := FindMain(m);
      if k == None { return VmResult(MissingMain, 0, ""); }
      var status, ret := RunFunction(m, m.functions[k.value], [], depth, cap);
      match status {
        case StatusTrapped => return VmResult(VmTrap, 0, "");
        case StatusUndefined => return VmResult(VmUndefined, 0, "");
        case StatusOutOfFuel => return VmResult(VmOutOfFuel, 0, "");
        case StatusReturned =>
          result := VmResult(Ok, ret, output);
          output := "";
      }
    }
  }

  function Names(m: Module): (r: seq<string>)
    ensures |r| == |m.functions| && forall i :: 0 <= i < |r| ==> r[i] == m.functions[i].name
  {
    seq(|m.functions|, i requires 0 <= i < |m.functions| => m.functions[i].name)
  }
}
