/** Laws of the reference evaluation, stated without its definition by cases: evaluating only adds, asking
    twice is asking once, operands may be asked for beforehand, and a load reads the last store. */
module HirMeaning {
  import opened Collections
  import opened IrVm
  import opened Hir

  /** `b` knows all that `a` knows and otherwise only ids below `n`, has printed what `a` has printed, and has
      the slots of `a`. */
  ghost predicate Later(a: EvalState, b: EvalState, n: nat) {
    && a.slots == b.slots && a.output <= b.output
    && (forall id :: id in a.memo ==> id in b.memo && b.memo[id] == a.memo[id])
    && (forall id :: id in b.memo ==> id in a.memo || id < n)
  }

  /** What an evaluation that is cut short has printed begins with what was printed before it. */
  predicate PrintsOn(output: string, m: Meaning) {
    match m
    case Ends(Returned(_, out)) => output <= out
    case Ends(Trapped(out)) => output <= out
    case _ => true
  }

  lemma PrintsOnwards(a: string, b: string, m: Meaning)
    requires a <= b && PrintsOn(b, m)
    ensures PrintsOn(a, m)
  {
  }

  lemma LibraryPrintsOn(strings: seq<string>, name: string, x: int, output: string)
    ensures PrintsOn(output, Ends(CallLibrary(strings, name, x, output)))
  {
  }

  /** Evaluating an expression changes no slot and forgets nothing; a pool entry is then known by its value. */
  lemma {:induction false} EvalOnlyAdds(h: HirModule, env: Env, st: EvalState, id: nat)
    requires WellFormed(h) && env.fi < |h.fns|
    ensures match Eval(h, env, st, id)
      case Val(v, after) => Later(st, after, Rank(h, id)) && (id < |h.exprs| ==> id in after.memo && after.memo[id] == v)
      case Stop(m) => PrintsOn(st.output, m)
    decreases env.depth, 0, Rank(h, id), 2
  {
    hide WellFormed, FirstIndex, EvalBinary, EvalUnary, EvalCall, EvalArg, CallTarget;
    if id < |h.exprs| && id !in st.memo {
      InPool(h, id);
      match h.exprs[id]
      case Binary(_, l, r) =>
        EvalOnlyAdds(h, env, st, l);
        var first := Eval(h, env, st, l);
        if first.Val? {
          EvalOnlyAdds(h, env, first.st, r);
          var second := Eval(h, env, first.st, r);
          if second.Stop? {
            PrintsOnwards(st.output, first.st.output, second.m);
          }
        }
      case Unary(_, o) => EvalOnlyAdds(h, env, st, o);
      case HirCall(_, _, _) => CallOnlyAdds(h, env, st, id);
      case _ =>
    }
  }

  lemma {:induction false} CallOnlyAdds(h: HirModule, env: Env, st: EvalState, id: nat)
    requires WellFormed(h) && env.fi < |h.fns| && id < |h.exprs| && h.exprs[id].HirCall? && id !in st.memo
    ensures match Eval(h, env, st, id)
      case Val(v, after) => Later(st, after, id + 1) && id in after.memo && after.memo[id] == v
      case Stop(m) => PrintsOn(st.output, m)
    decreases env.depth, 0, Rank(h, id), 1
  {
    hide WellFormed, EvalArg, CallTarget, EvalFunction, CallLibrary, Emitted;
    ArgOnlyAdds(h, env, st, id, 0);
    var first := EvalArg(h, env, st, id, 0);
    if first.Val? {
      ArgOnlyAdds(h, env, first.st, id, 1);
      var second := EvalArg(h, env, first.st, id, 1);
      if second.Stop? {
        PrintsOnwards(st.output, first.st.output, second.m);
      } else {
        StepOnlyAdds(h, env, second.st, id, first.v, second.v);
      }
    }
  }

  lemma {:induction false} ArgOnlyAdds(h: HirModule, env: Env, st: EvalState, id: nat, i: nat)
    requires WellFormed(h) && env.fi < |h.fns| && id < |h.exprs| && h.exprs[id].HirCall?
    ensures match EvalArg(h, env, st, id, i)
      case Val(_, after) => Later(st, after, id)
      case Stop(m) => PrintsOn(st.output, m)
    decreases env.depth, 0, Rank(h, id), 0
  {
    hide WellFormed, Eval;
    InPool(h, id);
    if i < |h.exprs[id].args| {
      EvalOnlyAdds(h, env, st, h.exprs[id].args[i]);
    }
  }

  lemma {:induction false} StepOnlyAdds(h: HirModule, env: Env, st: EvalState, id: nat, x: int, y: int)
    requires WellFormed(h) && env.fi < |h.fns| && id < |h.exprs| && h.exprs[id].HirCall?
    ensures match EvalCall(h, env, st, id, x, y)
      case Val(v, after) =>
        && after.slots == st.slots && st.output <= after.output
        && after.memo == st.memo[id := v]
      case Stop(m) => PrintsOn(st.output, m)
    decreases env.depth, 0, Rank(h, id), 0
  {
    hide WellFormed, EvalFunction, CallLibrary;
    InPool(h, id);
    match CallTarget(h, env.fi, id)
    case NotFound =>
    case Extern(_, name) => LibraryPrintsOn(env.strings, name, x, st.output);
    case Function(k) =>
      var callee := Emitted(h, env.fi + 1)[k];
      if |h.fns[callee].params| <= 2 && env.depth > 0 {
        FunctionPrintsOn(h, callee, [x, y][..|h.fns[callee].params|], env.strings, st.output, env.depth - 1);
      }
  }

  /** An instruction only adds as well, but for the slot it may store to. */
  lemma {:induction false} InstPrintsOn(h: HirModule, env: Env, st: EvalState, id: nat)
    requires WellFormed(h) && env.fi < |h.fns| && id < |h.exprs|
    ensures match EvalInst(h, env, st, id)
      case Val(_, after) => Later(st.(slots := after.slots), after, |h.exprs|) && |after.slots| == |st.slots|
      case Stop(m) => PrintsOn(st.output, m)
    decreases env.depth, 1, 0
  {
    hide WellFormed, Eval;
    match h.exprs[id]
    case SlotStore(_, v) => EvalOnlyAdds(h, env, st, v);
    case _ => EvalOnlyAdds(h, env, st, id);
  }

  lemma {:induction false} InstsPrintOn(h: HirModule, env: Env, st: EvalState, ids: seq<nat>)
    requires WellFormed(h) && env.fi < |h.fns| && forall i :: 0 <= i < |ids| ==> ids[i] < |h.exprs|
    ensures match EvalInsts(h, env, st, ids)
      case Val(_, after) => Later(st.(slots := after.slots), after, |h.exprs|) && |after.slots| == |st.slots|
      case Stop(m) => PrintsOn(st.output, m)
    decreases env.depth, 1, |ids| + 1
  {
    hide WellFormed, EvalInst;
    if ids != [] {
      InstPrintsOn(h, env, st, ids[0]);
      var first := EvalInst(h, env, st, ids[0]);
      if first.Val? {
        InstsPrintOn(h, env, first.st, ids[1..]);
        var rest := EvalInsts(h, env, first.st, ids[1..]);
        if rest.Stop? {
          PrintsOnwards(st.output, first.st.output, rest.m);
        }
      }
    }
  }

  /** Whatever a call prints comes after what was printed before it. */
  lemma {:induction false} FunctionPrintsOn(h: HirModule, fi: nat, args: seq<int>, strings: seq<string>, output: string, depth: nat)
    requires WellFormed(h) && fi < |h.fns|
    ensures PrintsOn(output, EvalFunction(h, fi, args, strings, output, depth))
    decreases depth, 2, 0
  {
    hide WellFormed, Eval, EvalInsts;
    if IsStraight(h, h.fns[fi]) {
      var b := h.fns[fi].blocks[0];
      var env := Env(fi, args, strings, depth);
      var st := EvalState(map[], Zeros(SlotBound(h, b.insts)), output);
      InstsPrintOn(h, env, st, b.insts);
      var body := EvalInsts(h, env, st, b.insts);
      var result := h.exprs[b.terminator.value].result;
      if body.Val? && result.Some? {
        EvalOnlyAdds(h, env, body.st, result.value);
        var last := Eval(h, env, body.st, result.value);
        if last.Stop? {
          PrintsOnwards(output, body.st.output, last.m);
        }
      }
    }
  }

  /** Asking for an expression again gives the same value and does nothing: nothing is printed twice. */
  lemma EvalTwiceIsOnce(h: HirModule, env: Env, st: EvalState, id: nat)
    requires WellFormed(h) && env.fi < |h.fns| && id < |h.exprs| && Eval(h, env, st, id).Val?
    ensures var once := Eval(h, env, st, id); Eval(h, env, once.st, id) == once
  {
    hide WellFormed;
    EvalOnlyAdds(h, env, st, id);
  }

  /** A block asks for its instructions one after the other. */
  lemma {:induction false} InstsInOrder(h: HirModule, env: Env, st: EvalState, a: seq<nat>, b: seq<nat>)
    requires WellFormed(h) && env.fi < |h.fns| && forall i :: 0 <= i < |a + b| ==> (a + b)[i] < |h.exprs|
    requires forall i :: 0 <= i < |a| ==> a[i] < |h.exprs|
    requires forall i :: 0 <= i < |b| ==> b[i] < |h.exprs|
    ensures EvalInsts(h, env, st, a + b) ==
      match EvalInsts(h, env, st, a)
      case Stop(m) => Stop(m)
      case Val(_, mid) => EvalInsts(h, env, mid, b)
    decreases |a|
  {
    hide WellFormed, EvalInst;
    if a == [] {
      assert a + b == b;
    } else {
      assert (a + b)[1..] == a[1..] + b;
      var first := EvalInst(h, env, st, a[0]);
      if first.Val? {
        InstsInOrder(h, env, first.st, a[1..], b);
      }
    }
  }

  /** An expression that stands for a value, so that a block may list it as an instruction. */
  predicate IsValue(h: HirModule, id: nat) {
    id < |h.exprs| && !h.exprs[id].SlotAlloca? && !h.exprs[id].SlotStore? && !h.exprs[id].HirRet? && !h.exprs[id].HirBranch?
  }

  /** Listed as an instruction, an expression is evaluated. */
  lemma OneInst(h: HirModule, env: Env, st: EvalState, id: nat)
    requires WellFormed(h) && env.fi < |h.fns| && IsValue(h, id)
    ensures EvalInsts(h, env, st, [id]) ==
      match Eval(h, env, st, id)
      case Stop(m) => Stop(m)
      case Val(_, after) => Val(0, after)
  {
    hide WellFormed, Eval;
  }

  lemma TwoInsts(h: HirModule, env: Env, st: EvalState, a: nat, b: nat)
    requires WellFormed(h) && env.fi < |h.fns| && IsValue(h, a) && IsValue(h, b)
    ensures EvalInsts(h, env, st, [a, b]) ==
      match Eval(h, env, st, a)
      case Stop(m) => Stop(m)
      case Val(_, mid) => EvalInsts(h, env, mid, [b])
  {
    hide WellFormed, Eval, EvalInsts;
    assert [a] + [b] == [a, b];
    InstsInOrder(h, env, st, [a], [b]);
    OneInst(h, env, st, a);
  }

  /** The operands of a pool entry are earlier entries. */
  lemma OperandsAreEarlier(h: HirModule, id: nat)
    requires WellFormed(h) && id < |h.exprs|
    ensures forall i :: 0 <= i < |Operands(h, id)| ==> IsValue(h, Operands(h, id)[i]) ==> Operands(h, id)[i] < id
  {
    InPool(h, id);
  }

  lemma OneOperandFirst(h: HirModule, env: Env, st: EvalState, id: nat)
    requires WellFormed(h) && env.fi < |h.fns| && id < |h.exprs| && id !in st.memo
    requires |Operands(h, id)| == 1 && Operands(h, id)[0] < id
    requires Eval(h, env, st, Operands(h, id)[0]).Val?
    ensures Eval(h, env, Eval(h, env, st, Operands(h, id)[0]).st, id) == Eval(h, env, st, id)
  {
    hide WellFormed, EvalCall, EvalBinary, EvalUnary;
    InPool(h, id);
    var o := Operands(h, id)[0];
    EvalOnlyAdds(h, env, st, o);
    EvalTwiceIsOnce(h, env, st, o);
    var first := Eval(h, env, st, o);
    if h.exprs[id].HirCall? {
      assert EvalArg(h, env, first.st, id, 0) == first == EvalArg(h, env, st, id, 0);
      assert EvalArg(h, env, first.st, id, 1) == Val(Fallback(env.args), first.st);
    }
  }

  lemma TwoOperandsFirst(h: HirModule, env: Env, st: EvalState, id: nat)
    requires WellFormed(h) && env.fi < |h.fns| && id < |h.exprs| && id !in st.memo
    requires |Operands(h, id)| == 2 && Operands(h, id)[0] < id && Operands(h, id)[1] < id
    requires var first := Eval(h, env, st, Operands(h, id)[0]);
      first.Val? && Eval(h, env, first.st, Operands(h, id)[1]).Val?
    ensures var first := Eval(h, env, st, Operands(h, id)[0]);
      var second := Eval(h, env, first.st, Operands(h, id)[1]);
      Eval(h, env, second.st, id) == Eval(h, env, st, id)
  {
    hide WellFormed, EvalCall, EvalBinary, EvalUnary;
    InPool(h, id);
    var l, r := Operands(h, id)[0], Operands(h, id)[1];
    var first := Eval(h, env, st, l);
    var second := Eval(h, env, first.st, r);
    EvalOnlyAdds(h, env, st, l);
    EvalOnlyAdds(h, env, first.st, r);
    EvalTwiceIsOnce(h, env, first.st, r);
    assert Eval(h, env, second.st, l) == Val(first.v, second.st);
    if h.exprs[id].HirCall? {
      assert EvalArg(h, env, second.st, id, 0) == Val(first.v, second.st) && EvalArg(h, env, st, id, 0) == first;
      assert EvalArg(h, env, second.st, id, 1) == second == EvalArg(h, env, first.st, id, 1);
    }
  }

  /**
   * The operands of an expression may be listed before it, in order, without any difference to the values,
   * the slots, the text printed or the way evaluation ends.
   */
  lemma OperandsFirst(h: HirModule, env: Env, st: EvalState, id: nat)
    requires WellFormed(h) && env.fi < |h.fns| && IsValue(h, id) && id !in st.memo
    requires forall i :: 0 <= i < |Operands(h, id)| ==> IsValue(h, Operands(h, id)[i])
    ensures forall i :: 0 <= i < |Operands(h, id) + [id]| ==> (Operands(h, id) + [id])[i] < |h.exprs|
    ensures EvalInsts(h, env, st, Operands(h, id) + [id]) == EvalInsts(h, env, st, [id])
  {
    hide WellFormed, EvalInsts, EvalCall, EvalBinary, EvalUnary;
    var ops := Operands(h, id);
    OperandsAreEarlier(h, id);
    InstsInOrder(h, env, st, ops, [id]);
    OneInst(h, env, st, id);
    if |ops| == 1 {
      assert ops == [ops[0]];
      OneInst(h, env, st, ops[0]);
      EvalOnlyAdds(h, env, st, ops[0]);
      var first := Eval(h, env, st, ops[0]);
      if first.Val? {
        OneInst(h, env, first.st, id);
        OneOperandFirst(h, env, st, id);
      }
    } else if |ops| == 2 {
      var l, r := ops[0], ops[1];
      assert ops == [l, r];
      TwoInsts(h, env, st, l, r);
      EvalOnlyAdds(h, env, st, l);
      var first := Eval(h, env, st, l);
      if first.Val? {
        OneInst(h, env, first.st, r);
        EvalOnlyAdds(h, env, first.st, r);
        var second := Eval(h, env, first.st, r);
        if second.Val? {
          OneInst(h, env, second.st, id);
          TwoOperandsFirst(h, env, st, id);
        }
      }
    } else {
      assert ops + [id] == [id];
    }
  }

  /** A store to `slot` somewhere among the instructions. */
  predicate Stores(h: HirModule, ids: seq<nat>, slot: nat)
    requires forall i :: 0 <= i < |ids| ==> ids[i] < |h.exprs|
  {
    exists i :: 0 <= i < |ids| && h.exprs[ids[i]].SlotStore? && h.exprs[ids[i]].slot == slot
  }

  /** Only a store to it changes a slot. */
  lemma {:induction false} OnlyStoresChange(h: HirModule, env: Env, st: EvalState, ids: seq<nat>, slot: nat)
    requires WellFormed(h) && env.fi < |h.fns| && forall i :: 0 <= i < |ids| ==> ids[i] < |h.exprs|
    requires slot < |st.slots| && !Stores(h, ids, slot) && EvalInsts(h, env, st, ids).Val?
    ensures var after := EvalInsts(h, env, st, ids).st; slot < |after.slots| && after.slots[slot] == st.slots[slot]
    decreases |ids|
  {
    hide WellFormed, Eval;
    if ids != [] {
      match h.exprs[ids[0]] {
        case SlotStore(_, v) => EvalOnlyAdds(h, env, st, v);
        case _ => EvalOnlyAdds(h, env, st, ids[0]);
      }
      assert h.exprs[ids[0]].SlotStore? ==> h.exprs[ids[0]].slot != slot;
      forall i | 0 <= i < |ids[1..]|
        ensures !(h.exprs[ids[1..][i]].SlotStore? && h.exprs[ids[1..][i]].slot == slot)
      {
        assert ids[1..][i] == ids[i + 1];
      }
      OnlyStoresChange(h, env, EvalInst(h, env, st, ids[0]).st, ids[1..], slot);
    }
  }

  /**
   * A load not yet evaluated reads the value last stored: after a store to its slot, and then any
   * instructions but a store to it, it has the value the store stored.
   */
  lemma LoadReadsLastStore(h: HirModule, env: Env, st: EvalState, store: nat, between: seq<nat>, load: nat)
    requires WellFormed(h) && env.fi < |h.fns| && store < |h.exprs| && load < |h.exprs|
    requires forall i :: 0 <= i < |between| ==> between[i] < |h.exprs|
    requires h.exprs[store].SlotStore? && h.exprs[load] == SlotLoad(h.exprs[store].slot)
    requires !Stores(h, between, h.exprs[store].slot) && EvalInsts(h, env, st, [store] + between).Val?
    requires load !in EvalInsts(h, env, st, [store] + between).st.memo
    ensures Eval(h, env, st, h.exprs[store].stored).Val?
    ensures var after := EvalInsts(h, env, st, [store] + between).st;
      Eval(h, env, after, load).Val? && Eval(h, env, after, load).v == Eval(h, env, st, h.exprs[store].stored).v
  {
    hide WellFormed;
    assert ([store] + between)[1..] == between;
    OnlyStoresChange(h, env, EvalInst(h, env, st, store).st, between, h.exprs[store].slot);
  }

  /** A function whose one block returns its p-th parameter at once. */
  predicate ReturnsParameter(h: HirModule, g: nat, p: nat) {
    && g < |h.fns| && IsStraight(h, h.fns[g]) && h.fns[g].blocks[0].insts == [] && p < |h.fns[g].params| <= 2
    && h.fns[g].params[p] !in h.fns[g].params[..p]
    && var v := h.exprs[h.fns[g].blocks[0].terminator.value].result;
       v.Some? && v.value < |h.exprs| && h.exprs[v.value] == Var(h.fns[g].params[p])
  }

  /** Arguments go to the parameters in order: a call of such a function has the value of its p-th argument,
      and prints no more than its arguments do. */
  lemma CallPassesArguments(h: HirModule, env: Env, st: EvalState, id: nat, p: nat)
    requires WellFormed(h) && env.fi < |h.fns| && id < |h.exprs| && h.exprs[id].HirCall? && id !in st.memo && env.depth > 0
    requires |h.exprs[id].args| >= 2
    requires h.exprs[id].callee < |h.exprs| && CallTarget(h, env.fi, id).Function?
    requires ReturnsParameter(h, Emitted(h, env.fi + 1)[CallTarget(h, env.fi, id).index], p)
    requires var first := Eval(h, env, st, h.exprs[id].args[0]);
      first.Val? && Eval(h, env, first.st, h.exprs[id].args[1]).Val?
    ensures var first := Eval(h, env, st, h.exprs[id].args[0]);
      var second := Eval(h, env, first.st, h.exprs[id].args[1]);
      var r := Eval(h, env, st, id);
      r.Val? && r.v == (if p == 0 then first.v else second.v) && r.st.output == second.st.output
  {
    hide WellFormed, CallTarget, Emitted;
    InPool(h, id);
    var first := Eval(h, env, st, h.exprs[id].args[0]);
    var second := Eval(h, env, first.st, h.exprs[id].args[1]);
    var g := Emitted(h, env.fi + 1)[CallTarget(h, env.fi, id).index];
    var args := [first.v, second.v][..|h.fns[g].params|];
    ParameterIsReturned(h, g, p, args, env.strings, second.st.output, env.depth - 1);
    assert EvalArg(h, env, st, id, 0) == first && EvalArg(h, env, first.st, id, 1) == second;
    assert EvalCall(h, env, second.st, id, first.v, second.v).Val?;
  }

  lemma ParameterIsReturned(h: HirModule, g: nat, p: nat, args: seq<int>, strings: seq<string>, output: string, depth: nat)
    requires WellFormed(h) && ReturnsParameter(h, g, p) && |args| == |h.fns[g].params|
    ensures EvalFunction(h, g, args, strings, output, depth) == Ends(Returned(args[p], output))
  {
    hide WellFormed, FirstIndex;
    FirstIndexIs(h.fns[g].params, h.fns[g].params[p], p);
    var b := h.fns[g].blocks[0];
    var env := Env(g, args, strings, depth);
    var st := EvalState(map[], Zeros(SlotBound(h, b.insts)), output);
    assert EvalInsts(h, env, st, []) == Val(0, st);
    var v := h.exprs[b.terminator.value].result.value;
    assert Eval(h, env, st, v).Val?;
  }
}
