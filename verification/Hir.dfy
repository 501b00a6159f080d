/** The high-level IR the lowering consumes, and what it means: each expression id is evaluated at
    most once per activation, in the order the block asks for it. */
module Hir {
  import opened Collections
  import Int64
  import ExecIr
  import opened IrVm

  datatype BinaryOp =
    | Add | Sub | Mul | Div | Rem | Eq | Ne | Lt | Le | Gt | Ge | And | Or | Xor | Shl | Shr | InvalidOp

  datatype UnaryOp = Neg | Not | BitNot | Ref | Deref

  datatype HirExpr =
    | Literal(value: int)
    | StringLiteral(text: string)
    | Var(name: string)
    | Binary(op: BinaryOp, lhs: nat, rhs: nat)
    | Unary(uop: UnaryOp, operand: nat)
    | HirCall(callee: nat, resolved: Option<nat>, args: seq<nat>)
    | SlotAlloca(slot: nat)
    | SlotStore(slot: nat, stored: nat)
    | SlotLoad(slot: nat)
    | HirRet(result: Option<nat>)
    | HirBranch(cond: nat, thenBlock: nat, elseBlock: nat)
    | HirJump(target: nat)
    | Unsupported

  datatype Block = Block(insts: seq<nat>, terminator: Option<nat>)

  /** `declared` says that the function has a declaration id; a bodyless one is external. */
  datatype HirFunction = HirFunction(
    symbol: nat, linkage: string, declared: bool, params: seq<string>, blocks: seq<Block>)

  datatype HirModule = HirModule(exprs: seq<HirExpr>, fns: seq<HirFunction>)

  /** The pool is append-only, so an expression's operands are earlier entries or invalid ids. */
  predicate OperandsPrecede(h: HirModule, id: nat)
    requires id < |h.exprs|
  {
    var before := (o: nat) => o < |h.exprs| ==> o < id;
    match h.exprs[id]
    case Binary(_, l, r) => before(l) && before(r)
    case Unary(_, o) => before(o)
    case HirCall(c, _, args) => c < |h.exprs| && forall i :: 0 <= i < |args| ==> before(args[i])
    case SlotStore(_, v) => before(v)
    case HirRet(Some(v)) => before(v)
    case HirBranch(c, _, _) => before(c)
    case _ => true
  }

  predicate BlockInRange(h: HirModule, b: Block) {
    && (forall i :: 0 <= i < |b.insts| ==> b.insts[i] < |h.exprs|)
    && (b.terminator.Some? ==> b.terminator.value < |h.exprs|)
  }

  ghost predicate WellFormed(h: HirModule) {
    && (forall id :: 0 <= id < |h.exprs| ==> OperandsPrecede(h, id))
    && (forall f, b :: 0 <= f < |h.fns| && 0 <= b < |h.fns[f].blocks| ==> BlockInRange(h, h.fns[f].blocks[b]))
  }

  /** What an expression asks for, in order: left before right, and the first two arguments of a call. */
  function Operands(h: HirModule, id: nat): seq<nat>
    requires id < |h.exprs|
  {
    match h.exprs[id]
    case Binary(_, l, r) => [l, r]
    case Unary(_, o) => [o]
    case HirCall(_, _, args) => if |args| > 2 then args[..2] else args
    case SlotStore(_, v) => [v]
    case HirRet(Some(v)) => [v]
    case HirBranch(c, _, _) => [c]
    case _ => []
  }

  lemma InPool(h: HirModule, id: nat)
    requires WellFormed(h) && id < |h.exprs|
    ensures OperandsPrecede(h, id)
  {
  }

  /** Which functions get a body in the execution IR, among the first `n`. */
  predicate IsEmitted(f: HirFunction) { f.blocks != [] && f.declared }

  function Emitted(h: HirModule, n: nat): (r: seq<nat>)
    requires n <= |h.fns|
    ensures |r| <= n
    ensures forall k :: 0 <= k < |r| ==> r[k] < n && IsEmitted(h.fns[r[k]])
  {
    if n == 0 then [] else if IsEmitted(h.fns[n - 1]) then Emitted(h, n - 1) + [n - 1] else Emitted(h, n - 1)
  }

  function EmittedNames(h: HirModule, n: nat): (r: seq<string>)
    requires n <= |h.fns|
    ensures |r| == |Emitted(h, n)|
    ensures forall k :: 0 <= k < |r| ==> r[k] == ExecIr.SourceName(h.fns[Emitted(h, n)[k]].linkage)
  {
    var e := Emitted(h, n);
    seq(|e|, k requires 0 <= k < |e| => ExecIr.SourceName(h.fns[e[k]].linkage))
  }

  /** The external names collected before function `n`, without repetition. */
  function ExternNames(h: HirModule, n: nat): seq<string>
    requires n <= |h.fns|
  {
    if n == 0 then []
    else
      var before := ExternNames(h, n - 1);
      var name := ExecIr.SourceName(h.fns[n - 1].linkage);
      if h.fns[n - 1].blocks == [] && name !in before then before + [name] else before
  }

  datatype Target = Function(index: nat) | Extern(index: nat, name: string) | NotFound

  /** The search for a call's target: each function carrying the symbol, looked up by source name
      among the functions emitted so far. */
  function FindBySymbol(h: HirModule, symbol: nat, from: nat, names: seq<string>): (r: Option<nat>)
    requires from <= |h.fns|
    ensures r.Some? ==> r.value < |names|
    decreases |h.fns| - from
  {
    if from == |h.fns| then None
    else if h.fns[from].symbol == symbol && FirstIndex(names, ExecIr.SourceName(h.fns[from].linkage)).Some?
    then FirstIndex(names, ExecIr.SourceName(h.fns[from].linkage))
    else FindBySymbol(h, symbol, from + 1, names)
  }

  function FindExtern(h: HirModule, callee: nat, externs: seq<string>): (r: Target)
    requires callee < |h.exprs|
    ensures r.Extern? ==> r.index < |externs| && externs[r.index] == r.name
    ensures !r.Function?
  {
    if !h.exprs[callee].Var? then NotFound
    else match FirstIndex(externs, h.exprs[callee].name)
      case Some(e) => Extern(e, h.exprs[callee].name)
      case None => NotFound
  }

  /** The target of call expression `id` inside function `fi`. */
  function CallTarget(h: HirModule, fi: nat, id: nat): (r: Target)
    requires fi < |h.fns| && id < |h.exprs| && h.exprs[id].HirCall? && h.exprs[id].callee < |h.exprs|
    ensures r.Function? ==> r.index < |Emitted(h, fi + 1)|
    ensures r.Extern? ==> r.index < |ExternNames(h, fi)| && ExternNames(h, fi)[r.index] == r.name
  {
    var c := h.exprs[id];
    var f := if c.resolved.Some? then FindBySymbol(h, c.resolved.value, 0, EmittedNames(h, fi + 1)) else None;
    if f.Some? then Function(f.value) else FindExtern(h, c.callee, ExternNames(h, fi))
  }

  function EvalBinary(op: BinaryOp, x: int, y: int): Int64.Arith
  {
    match op
    case Add => Int64.Checked(x + y)
    case Sub => Int64.Checked(x - y)
    case Mul => Int64.Mul(x, y)
    case Div => Int64.Div(x, y)
    case Rem => Int64.Rem(x, y)
    case Eq => Int64.Bit(x == y)
    case Ne => Int64.Bit(x != y)
    case Lt => Int64.Bit(x < y)
    case Le => Int64.Bit(x <= y)
    case Gt => Int64.Bit(x > y)
    case Ge => Int64.Bit(x >= y)
    case And => Int64.Bit(x != 0 && y != 0)
    case Or => Int64.Bit(x != 0 || y != 0)
    case Xor => Int64.Value(Int64.Xor(x, y))
    // the count is taken as a 32-bit unsigned
    case Shl => if y < 0 then Int64.Trap else Int64.ShiftLeft(x, Int64.ToU32(y))
    case Shr => if y < 0 then Int64.Trap else Int64.ShiftRight(x, Int64.ToU32(y))
    case InvalidOp => Int64.Trap
  }

  function EvalUnary(op: UnaryOp, x: int): Int64.Arith
  {
    match op
    case Neg => Int64.Checked(-x)
    case Not => Int64.Bit(x == 0)
    case BitNot => Int64.Value(-x - 1)
    case Ref => Int64.Trap
    case Deref => Int64.Trap
  }

  /** What one activation has computed: values by expression id, slots, and the text printed. */
  datatype EvalState = EvalState(memo: map<nat, int>, slots: seq<int>, output: string)

  /** What an activation amounts to. `Rejected` marks input the lowering refuses. */
  datatype Meaning = Ends(outcome: Outcome) | Rejected

  datatype Result = Val(v: int, st: EvalState) | Stop(m: Meaning)

  /** One activation: the function, its arguments, the table string literals are numbered by, and
      the remaining call depth. */
  datatype Env = Env(fi: nat, args: seq<int>, strings: seq<string>, depth: nat)

  /** An invalid operand id reads the first register: the first parameter, or zero. */
  function Fallback(args: seq<int>): int { if args == [] then 0 else args[0] }

  function Rank(h: HirModule, id: nat): nat { if id < |h.exprs| then id + 1 else 0 }

  function Keep(id: nat, v: Int64.Arith, st: EvalState): Result
  {
    match v
    case Value(x) => Val(x, st.(memo := st.memo[id := x]))
    case Trap => Stop(Ends(Trapped(st.output)))
    case Undefined => Stop(Ends(Undefined))
  }

  function Eval(h: HirModule, env: Env, st: EvalState, id: nat): Result
    requires WellFormed(h) && env.fi < |h.fns|
    decreases env.depth, 0, Rank(h, id)
  {
    if id >= |h.exprs| then Val(Fallback(env.args), st)
    else if id in st.memo then Val(st.memo[id], st)
    else
      assert OperandsPrecede(h, id);
      match h.exprs[id]
      case Literal(v) => Keep(id, Int64.Value(v), st)
      case StringLiteral(text) =>
        (match FirstIndex(env.strings, text)
         case Some(i) => Keep(id, Int64.Value(i), st)
         case None => Stop(Rejected))
      case Var(name) =>
        (match FirstIndex(h.fns[env.fi].params, name)
         case Some(p) => if p < |env.args| then Keep(id, Int64.Value(env.args[p]), st) else Stop(Rejected)
         case None => Stop(Rejected))
      case Binary(op, l, r) =>
        (match Eval(h, env, st, l)
         case Stop(m) => Stop(m)
         case Val(x, st1) =>
           match Eval(h, env, st1, r)
           case Stop(m) => Stop(m)
           case Val(y, st2) => Keep(id, EvalBinary(op, x, y), st2))
      case Unary(op, o) =>
        (match Eval(h, env, st, o)
         case Stop(m) => Stop(m)
         case Val(x, st1) => Keep(id, EvalUnary(op, x), st1))
      case HirCall(_, _, _) =>
        (match EvalArg(h, env, st, id, 0)
         case Stop(m) => Stop(m)
         case Val(x, st1) =>
           match EvalArg(h, env, st1, id, 1)
           case Stop(m) => Stop(m)
           case Val(y, st2) => EvalCall(h, env, st2, id, x, y))
      case SlotLoad(slot) =>
        if slot < |st.slots| then Keep(id, Int64.Value(st.slots[slot]), st) else Stop(Ends(Trapped(st.output)))
      case _ => Stop(Rejected)
  }

  /** Only the first two arguments of a call are evaluated; a missing one reads the first register. */
  function EvalArg(h: HirModule, env: Env, st: EvalState, id: nat, i: nat): Result
    requires WellFormed(h) && env.fi < |h.fns| && id < |h.exprs| && h.exprs[id].HirCall?
    decreases env.depth, 0, id + 1, 1
  {
    assert OperandsPrecede(h, id);
    if i < |h.exprs[id].args| then Eval(h, env, st, h.exprs[id].args[i]) else Val(Fallback(env.args), st)
  }

  function EvalCall(h: HirModule, env: Env, st: EvalState, id: nat, x: int, y: int): Result
    requires WellFormed(h) && env.fi < |h.fns| && id < |h.exprs| && h.exprs[id].HirCall?
    decreases env.depth, 0, id + 1, 0
  {
    assert OperandsPrecede(h, id);
    match CallTarget(h, env.fi, id)
    case NotFound => Stop(Rejected)
    case Extern(_, name) =>
      (match CallLibrary(env.strings, name, x, st.output)
       case Returned(_, out) => Keep(id, Int64.Value(0), st.(output := out))
       case o => Stop(Ends(o)))
    case Function(k) =>
      var callee := Emitted(h, env.fi + 1)[k];
      if |h.fns[callee].params| > 2 then Stop(Ends(Trapped(st.output)))
      else if env.depth == 0 then Stop(Ends(OutOfFuel))
      else match EvalFunction(h, callee, [x, y][..|h.fns[callee].params|], env.strings, st.output, env.depth - 1)
        case Ends(Returned(v, out)) => Keep(id, Int64.Value(v), st.(output := out))
        case m => Stop(m)
  }

  function EvalInst(h: HirModule, env: Env, st: EvalState, id: nat): Result
    requires WellFormed(h) && env.fi < |h.fns| && id < |h.exprs|
    decreases env.depth, 1, 0
  {
    match h.exprs[id]
    case SlotAlloca(_) => Val(0, st)
    case HirRet(_) => Val(0, st)
    case SlotStore(slot, v) =>
      (match Eval(h, env, st, v)
       case Stop(m) => Stop(m)
       case Val(x, st1) =>
         if slot < |st1.slots| then Val(0, st1.(slots := st1.slots[slot := x])) else Stop(Rejected))
    case _ => Eval(h, env, st, id)
  }

  function EvalInsts(h: HirModule, env: Env, st: EvalState, ids: seq<nat>): Result
    requires WellFormed(h) && env.fi < |h.fns| && forall i :: 0 <= i < |ids| ==> ids[i] < |h.exprs|
    decreases env.depth, 1, |ids| + 1
  {
    if ids == [] then Val(0, st)
    else match EvalInst(h, env, st, ids[0])
      case Stop(m) => Stop(m)
      case Val(_, st1) => EvalInsts(h, env, st1, ids[1..])
  }

  /** One more than the largest slot the instructions allocate or store to. */
  function SlotBound(h: HirModule, ids: seq<nat>): nat
    requires forall i :: 0 <= i < |ids| ==> ids[i] < |h.exprs|
  {
    if ids == [] then 0
    else match h.exprs[ids[0]]
      case SlotAlloca(slot) => Max(slot + 1, SlotBound(h, ids[1..]))
      case SlotStore(slot, _) => Max(slot + 1, SlotBound(h, ids[1..]))
      case _ => SlotBound(h, ids[1..])
  }

  /** A function made of one block that ends in a return. */
  predicate IsStraight(h: HirModule, f: HirFunction) {
    |f.blocks| == 1 && BlockInRange(h, f.blocks[0]) && f.blocks[0].terminator.Some?
    && h.exprs[f.blocks[0].terminator.value].HirRet?
  }

  /** Calling function `fi`: its block's instructions in order, then its return value. */
  function EvalFunction(h: HirModule, fi: nat, args: seq<int>, strings: seq<string>, output: string, depth: nat): Meaning
    requires WellFormed(h) && fi < |h.fns|
    decreases depth, 2, 0
  {
    if !IsStraight(h, h.fns[fi]) then Rejected
    else
      var b := h.fns[fi].blocks[0];
      var env := Env(fi, args, strings, depth);
      match EvalInsts(h, env, EvalState(map[], Zeros(SlotBound(h, b.insts)), output), b.insts)
      case Stop(m) => m
      case Val(_, st) =>
        match h.exprs[b.terminator.value].result
        case None => Ends(Returned(0, st.output))
        case Some(v) =>
          match Eval(h, env, st, v)
          case Stop(m) => m
          case Val(x, st1) => Ends(Returned(x, st1.output))
  }
}
