/** What the simulation gives for whole programs, which function a call reaches, and when evaluating at
    most once cannot be told from evaluating each time. */
module LoweringTheorems {
  import opened Collections
  import opened ExecIr
  import opened IrVm
  import opened Hir
  import opened HirToIr
  import opened LoweringCorrect
  import Int64

  /** Running `main` of a lowered module does what evaluating it does, with all parameters zero. */
  lemma MainPreserved(h: HirModule, m: Module, k: nat, output: string, depth: nat, cap: nat)
    requires Compiled(h, m) && CapCovers(m, cap) && FirstIndex(Names(m), "main") == Some(k)
    ensures k < |Emitted(h, |h.fns|)|
    ensures var fi := Emitted(h, |h.fns|)[k];
      match EvalFunction(h, fi, Zeros(|h.fns[fi].params|), m.strings, output, depth)
      case Ends(o) => Run(m, m.functions[k], Start(m.functions[k], [], output), depth, cap, cap) == o
      case Rejected => false
  {
    hide WellFormed, LowerModule, AllStraight, FitsU16, Emitted, EvalFunction, Run, CapCovers, FirstIndex;
    FunctionCount(h, m);
    var fi := CalleeShape(h, m, k);
    var args := Zeros(|h.fns[fi].params|);
    var regs := Zeros(m.functions[k].registerCount);
    FunctionSim(h, m, k, fi, args, regs, output, depth, cap);
    assert Start(m.functions[k], [], output) == Start(m.functions[k], regs, output);
  }

  // ---- Which function a call reaches --------------------------------------------------------

  /** A call resolved to function `g` reaches `g` exactly when `g` was emitted by then and no
      function emitted before it has the same source name. */
  lemma {:induction false} CallReachesItsFunction(h: HirModule, fi: nat, id: nat, g: nat)
    requires fi < |h.fns| && g < |h.fns| && id < |h.exprs| && h.exprs[id].HirCall? && h.exprs[id].callee < |h.exprs|
    requires h.exprs[id].resolved == Some(h.fns[g].symbol)
    requires forall i :: 0 <= i < |h.fns| && h.fns[i].symbol == h.fns[g].symbol ==> i == g
    ensures var t := CallTarget(h, fi, id);
      (t.Function? && Emitted(h, fi + 1)[t.index] == g) <==>
      (g <= fi && IsEmitted(h.fns[g]) &&
       forall e :: 0 <= e < g && IsEmitted(h.fns[e]) ==> SourceName(h.fns[e].linkage) != SourceName(h.fns[g].linkage))
  {
    hide FirstIndex, SourceName, IsEmitted, Emitted, EmittedNames, FindBySymbol, FindExtern;
    FindUnique(h, h.fns[g].symbol, EmittedNames(h, fi + 1), g);
    FirstOfName(h, fi + 1, g);
  }

  /** A function that carries the symbol and whose source name is known. */
  predicate Carries(h: HirModule, symbol: nat, names: seq<string>, i: nat) {
    i < |h.fns| && h.fns[i].symbol == symbol && SourceName(h.fns[i].linkage) in names
  }

  /** With several functions for one symbol, a call goes to the first of them whose name has been emitted. */
  lemma {:induction false} FirstCarrierIsCalled(h: HirModule, symbol: nat, from: nat, names: seq<string>, i: nat)
    requires from <= i < |h.fns| && Carries(h, symbol, names, i)
    requires forall e :: from <= e < i ==> !Carries(h, symbol, names, e)
    ensures FindBySymbol(h, symbol, from, names).Some?
    ensures FindBySymbol(h, symbol, from, names) == FirstIndex(names, SourceName(h.fns[i].linkage))
    decreases i - from
  {
    hide SourceName, FirstIndex;
    if from < i {
      assert !Carries(h, symbol, names, from);
      FirstCarrierIsCalled(h, symbol, from + 1, names, i);
    }
  }

  /** And there is a target only if one of them has. */
  lemma {:induction false} NoCarrierNoTarget(h: HirModule, symbol: nat, from: nat, names: seq<string>)
    requires from <= |h.fns| && forall i :: from <= i < |h.fns| ==> !Carries(h, symbol, names, i)
    ensures FindBySymbol(h, symbol, from, names) == None
    decreases |h.fns| - from
  {
    hide SourceName, FirstIndex;
    if from < |h.fns| {
      assert !Carries(h, symbol, names, from);
      NoCarrierNoTarget(h, symbol, from + 1, names);
    }
  }

  /** Looking a function's source name up among the emitted ones finds it when it comes first. */
  lemma FirstOfName(h: HirModule, n: nat, g: nat)
    requires n <= |h.fns| && g < |h.fns|
    ensures var name := SourceName(h.fns[g].linkage);
      var first := FirstIndex(EmittedNames(h, n), name);
      (first.Some? && Emitted(h, n)[first.value] == g) <==>
      (g < n && IsEmitted(h.fns[g]) &&
       forall e :: 0 <= e < g && IsEmitted(h.fns[e]) ==> SourceName(h.fns[e].linkage) != name)
  {
    hide FirstIndex, SourceName, IsEmitted, Emitted;
    var names, emitted := EmittedNames(h, n), Emitted(h, n);
    var name := SourceName(h.fns[g].linkage);
    EmittedExactly(h, n);
    var first := FirstIndex(names, name);
    if first.Some? && emitted[first.value] == g {
      forall e | 0 <= e < g && IsEmitted(h.fns[e])
        ensures SourceName(h.fns[e].linkage) != name
      {
        var k :| 0 <= k < |emitted| && emitted[k] == e;
        assert emitted[k] < emitted[first.value] && k < first.value;
        assert names[..first.value][k] == names[k];
      }
    }
    if g < n && IsEmitted(h.fns[g]) && forall e :: 0 <= e < g && IsEmitted(h.fns[e]) ==> SourceName(h.fns[e].linkage) != name {
      var k :| 0 <= k < |emitted| && emitted[k] == g;
      assert forall j :: 0 <= j < k ==> emitted[j] < g && names[j] != name;
      assert name !in names[..k];
      FirstIndexIs(names, name, k);
    }
  }

  /** A symbol carried by one function only is looked up through that function's name. */
  lemma FindUnique(h: HirModule, symbol: nat, names: seq<string>, g: nat)
    requires g < |h.fns| && h.fns[g].symbol == symbol
    requires forall i :: 0 <= i < |h.fns| && h.fns[i].symbol == symbol ==> i == g
    ensures FindBySymbol(h, symbol, 0, names) == FirstIndex(names, SourceName(h.fns[g].linkage))
  {
    hide FirstIndex, SourceName, FindBySymbol;
    if Carries(h, symbol, names, g) {
      FirstCarrierIsCalled(h, symbol, 0, names, g);
    } else {
      NoCarrierNoTarget(h, symbol, 0, names);
    }
  }

  /** `Emitted` lists the emitted functions, each once, in order. */
  lemma {:induction false} EmittedExactly(h: HirModule, n: nat)
    requires n <= |h.fns|
    ensures forall j, k :: 0 <= j < k < |Emitted(h, n)| ==> Emitted(h, n)[j] < Emitted(h, n)[k]
    ensures forall i :: 0 <= i < n && IsEmitted(h.fns[i]) ==> exists k :: 0 <= k < |Emitted(h, n)| && Emitted(h, n)[k] == i
  {
    hide IsEmitted;
    if n > 0 {
      EmittedExactly(h, n - 1);
      var before, now := Emitted(h, n - 1), Emitted(h, n);
      assert now == before || now == before + [n - 1];
      forall i | 0 <= i < n && IsEmitted(h.fns[i])
        ensures exists k :: 0 <= k < |now| && now[k] == i
      {
        if i < n - 1 {
          var k :| 0 <= k < |before| && before[k] == i;
          assert now[k] == i;
        } else {
          assert now[|now| - 1] == i;
        }
      }
    }
  }

  /** Overloads of one function share a source name, so only the first one emitted can be called. */
  lemma {:induction false} OverloadsCollapse(name: string, params: string)
    requires '(' !in name
    ensures SourceName(name + ['('] + params) == SourceName(name)
  {
    UpToParen(name, params);
    UpToAll(name);
  }

  lemma {:induction false} UpToParen(name: string, params: string)
    requires '(' !in name
    ensures UpTo(name + ['('] + params, '(') == name
  {
    if name != [] {
      assert (name + ['('] + params)[1..] == name[1..] + ['('] + params;
      UpToParen(name[1..], params);
    }
  }

  lemma {:induction false} UpToAll(name: string)
    requires '(' !in name
    ensures UpTo(name, '(') == name
  {
    if name != [] {
      UpToAll(name[1..]);
    }
  }

  /** What is left of a linkage name: the last component, without the parameter list. */
  lemma {:induction false} SourceNameIsLastComponent(path: string, name: string, params: string)
    requires '(' !in path && '(' !in name && '.' !in name
    ensures SourceName(path + ['.'] + name + ['('] + params) == name
    ensures SourceName(path + ['.'] + name) == name
    ensures SourceName(name) == name
  {
    var whole := path + ['.'] + name;
    UpToParen(whole, params);
    UpToAll(whole);
    UpToAll(name);
    AfterDot(path + ['.'], name);
    AfterDot([], name);
    assert [] + name == name;
  }

  lemma {:induction false} AfterDot(path: string, name: string)
    requires '.' !in name && (path == [] || path[|path| - 1] == '.')
    ensures AfterLast(path + name, '.') == name
    decreases |name|
  {
    if name == [] {
      assert path + name == path;
    } else {
      var front, last := name[..|name| - 1], name[|name| - 1];
      assert (path + name)[..|path + name| - 1] == path + front;
      AfterDot(path, front);
      assert front + [last] == name;
    }
  }

  /** The externals collected are the source names of the bodyless functions met, each once. */
  lemma {:induction false} ExternNamesExactly(h: HirModule, n: nat)
    requires n <= |h.fns|
    ensures forall name :: name in ExternNames(h, n) <==> exists i :: 0 <= i < n && h.fns[i].blocks == [] && SourceName(h.fns[i].linkage) == name
    ensures Distinct(ExternNames(h, n))
  {
    hide SourceName;
    if n > 0 {
      ExternNamesExactly(h, n - 1);
      forall name
        ensures name in ExternNames(h, n) <==> exists i :: 0 <= i < n && h.fns[i].blocks == [] && SourceName(h.fns[i].linkage) == name
      {
        if name in ExternNames(h, n) && name !in ExternNames(h, n - 1) {
          assert h.fns[n - 1].blocks == [] && SourceName(h.fns[n - 1].linkage) == name;
        }
      }
    }
  }

  /** A call that names no function reaches an external exactly when a bodyless function before its own has
      the callee's name, and then one of that name. */
  lemma CallReachesExternalIff(h: HirModule, fi: nat, id: nat)
    requires fi < |h.fns| && id < |h.exprs| && h.exprs[id].HirCall? && h.exprs[id].callee < |h.exprs|
    requires !CallTarget(h, fi, id).Function?
    ensures var callee, t := h.exprs[h.exprs[id].callee], CallTarget(h, fi, id);
      (t.Extern? <==> callee.Var? && exists i :: 0 <= i < fi && h.fns[i].blocks == [] && SourceName(h.fns[i].linkage) == callee.name) &&
      (t.Extern? ==> t.index < |ExternNames(h, fi)| && ExternNames(h, fi)[t.index] == callee.name == t.name)
  {
    hide SourceName, ExternNames, FindBySymbol, EmittedNames;
    ExternNamesExactly(h, fi);
    var callee := h.exprs[h.exprs[id].callee];
    if callee.Var? {
      assert CallTarget(h, fi, id).Extern? <==> callee.name in ExternNames(h, fi);
    }
  }

  // ---- Evaluating at most once is transparent where nothing has an effect ---------------------

  /** Plain recursive evaluation, with no memory of what was evaluated. */
  function TreeValue(h: HirModule, env: Env, id: nat): Int64.Arith
    requires WellFormed(h) && env.fi < |h.fns|
    decreases Rank(h, id)
  {
    if id >= |h.exprs| then Int64.Value(Fallback(env.args))
    else
      assert OperandsPrecede(h, id);
      match h.exprs[id]
      case Literal(v) => Int64.Value(v)
      case Var(name) =>
        (match FirstIndex(h.fns[env.fi].params, name)
         case Some(p) => if p < |env.args| then Int64.Value(env.args[p]) else Int64.Undefined
         case None => Int64.Undefined)
      case Binary(op, l, r) =>
        (match TreeValue(h, env, l)
         case Value(x) =>
           (match TreeValue(h, env, r)
            case Value(y) => EvalBinary(op, x, y)
            case a => a)
         case a => a)
      case Unary(op, o) =>
        (match TreeValue(h, env, o)
         case Value(x) => EvalUnary(op, x)
         case a => a)
      case _ => Int64.Undefined
  }

  /** Built from literals, parameters and operators only. */
  predicate Pure(h: HirModule, fi: nat, id: nat)
    requires WellFormed(h) && fi < |h.fns|
    decreases Rank(h, id)
  {
    id >= |h.exprs| ||
    (assert OperandsPrecede(h, id);
     match h.exprs[id]
     case Literal(_) => true
     case Var(name) => FirstIndex(h.fns[fi].params, name).Some?
     case Binary(_, l, r) => Pure(h, fi, l) && Pure(h, fi, r)
     case Unary(_, o) => Pure(h, fi, o)
     case _ => false)
  }

  /** Every pure expression evaluated so far has its tree value. */
  ghost predicate MemoIsTree(h: HirModule, env: Env, es: EvalState)
    requires WellFormed(h) && env.fi < |h.fns|
  {
    forall id :: id in es.memo && id < |h.exprs| && Pure(h, env.fi, id) ==> TreeValue(h, env, id) == Int64.Value(es.memo[id])
  }

  /** On pure expressions the memoised evaluation is the plain one: same value or same failure,
      whatever has been evaluated before, and no other effect. */
  lemma {:induction false} MemoIsTransparent(h: HirModule, env: Env, es: EvalState, id: nat)
    requires WellFormed(h) && env.fi < |h.fns| && |env.args| == |h.fns[env.fi].params|
    requires Pure(h, env.fi, id) && MemoIsTree(h, env, es)
    ensures match TreeValue(h, env, id)
      case Value(v) =>
        && Eval(h, env, es, id).Val? && Eval(h, env, es, id).v == v
        && Eval(h, env, es, id).st.slots == es.slots && Eval(h, env, es, id).st.output == es.output
        && MemoIsTree(h, env, Eval(h, env, es, id).st)
      case Trap => Eval(h, env, es, id) == Stop(Ends(Trapped(es.output)))
      case Undefined => Eval(h, env, es, id) == Stop(Ends(Undefined))
    decreases Rank(h, id)
  {
    hide WellFormed, FirstIndex, EvalBinary, EvalUnary;
    if id < |h.exprs| && id !in es.memo {
      InPool(h, id);
      match h.exprs[id]
      case Binary(_, l, r) =>
        MemoIsTransparent(h, env, es, l);
        if TreeValue(h, env, l).Value? {
          MemoIsTransparent(h, env, Eval(h, env, es, l).st, r);
        }
      case Unary(_, o) => MemoIsTransparent(h, env, es, o);
      case _ =>
    }
  }
}
