/** Finding the calls in the body of a function, whose expressions may be shared and even cyclic. */
module CalleeWalks {
  import opened Collections
  import opened Reachability

  /** An expression number; 0 is none. */
  type ExprId = nat

  datatype Expr = Expr(isCall: bool, operands: seq<ExprId>, conditions: seq<ExprId>, expansion: ExprId, statements: seq<nat>)

  datatype Stmt = Stmt(expression: ExprId, initializer: ExprId, arguments: seq<ExprId>)

  datatype Frontend = Frontend(expressions: seq<Expr>, statements: seq<Stmt>)

  predicate IsExpr(f: Frontend, id: ExprId) {
    1 <= id <= |f.expressions|
  }

  predicate IsStmt(f: Frontend, id: nat) {
    1 <= id <= |f.statements|
  }

  function StmtVisits(f: Frontend, id: nat): seq<ExprId> {
    if IsStmt(f, id) then
      var stmt := f.statements[id - 1];
      [stmt.expression, stmt.initializer] + stmt.arguments
    else []
  }

  function StmtsVisits(f: Frontend, ids: seq<nat>): seq<ExprId> {
    if ids == [] then [] else StmtsVisits(f, ids[..|ids| - 1]) + StmtVisits(f, ids[|ids| - 1])
  }

  /** The expressions an expression leads to, in order. */
  function Visits(f: Frontend, id: ExprId): seq<ExprId>
    requires IsExpr(f, id)
  {
    var expr := f.expressions[id - 1];
    expr.operands + expr.conditions + [expr.expansion] + StmtsVisits(f, expr.statements)
  }

  function Successors(f: Frontend, id: ExprId): set<ExprId>
    requires IsExpr(f, id)
  {
    set v | v in Visits(f, id) && IsExpr(f, v)
  }

  function ExprGraph(f: Frontend): Graph<ExprId> {
    map id | 1 <= id <= |f.expressions| :: Successors(f, id)
  }

  /** The statement, if there is one of that number, holds the expression. */
  predicate StmtHolds(f: Frontend, id: nat, v: ExprId) {
    IsStmt(f, id) &&
    var stmt := f.statements[id - 1];
    v == stmt.expression || v == stmt.initializer || v in stmt.arguments
  }

  /** An expression leads to its operands, its conditions, its expansion and what its statements hold. */
  lemma {:induction false} LeadsToIff(f: Frontend, id: ExprId, v: ExprId)
    requires IsExpr(f, id)
    ensures var expr := f.expressions[id - 1];
      v in Next(ExprGraph(f), id) <==>
      IsExpr(f, v) && (v in expr.operands || v in expr.conditions || v == expr.expansion ||
                       exists k :: 0 <= k < |expr.statements| && StmtHolds(f, expr.statements[k], v))
  {
    StmtsVisitsIff(f, f.expressions[id - 1].statements, v);
  }

  lemma StmtVisitsIff(f: Frontend, id: nat, v: ExprId)
    ensures v in StmtVisits(f, id) <==> StmtHolds(f, id, v)
  {
  }

  predicate AnyHolds(f: Frontend, ids: seq<nat>, v: ExprId) {
    exists k :: 0 <= k < |ids| && StmtHolds(f, ids[k], v)
  }

  lemma AnyHoldsLast(f: Frontend, ids: seq<nat>, v: ExprId)
    requires ids != []
    ensures AnyHolds(f, ids, v) <==> AnyHolds(f, ids[..|ids| - 1], v) || StmtHolds(f, ids[|ids| - 1], v)
  {
    hide StmtHolds;
    var front := ids[..|ids| - 1];
    if AnyHolds(f, front, v) {
      var k :| 0 <= k < |front| && StmtHolds(f, front[k], v);
      assert ids[k] == front[k];
    }
    if AnyHolds(f, ids, v) {
      var k :| 0 <= k < |ids| && StmtHolds(f, ids[k], v);
      assert k < |front| ==> front[k] == ids[k];
    }
  }

  lemma {:induction false} StmtsVisitsIff(f: Frontend, ids: seq<nat>, v: ExprId)
    ensures v in StmtsVisits(f, ids) <==> AnyHolds(f, ids, v)
  {
    hide StmtHolds, StmtVisits, AnyHolds;
    if ids == [] {
      NothingHolds(f, v);
    } else {
      StmtsVisitsIff(f, ids[..|ids| - 1], v);
      StmtVisitsIff(f, ids[|ids| - 1], v);
      AnyHoldsLast(f, ids, v);
    }
  }

  lemma NothingHolds(f: Frontend, v: ExprId)
    ensures !AnyHolds(f, [], v)
  {
  }

  /** The expression is a call, and this is what it calls. */
  predicate IsCalleeOf(f: Frontend, id: ExprId, callee: ExprId) {
    && IsExpr(f, id)
    && var expr := f.expressions[id - 1];
       expr.isCall && expr.operands != [] && expr.operands[0] == callee
  }

  /**
   * Between two points of the walk: everything asked for has been visited, what was newly visited has
   * had all it leads to visited, and was reached from something asked for.
   */
  ghost predicate Explored(f: Frontend, before: set<ExprId>, after: set<ExprId>, from: seq<ExprId>) {
    && before <= after
    && (forall id :: id in from && IsExpr(f, id) ==> id in after)
    && (forall v :: v in after && v !in before ==>
          IsExpr(f, v) && Next(ExprGraph(f), v) <= after && exists id :: id in from && ReachesOrIs(ExprGraph(f), id, v))
  }

  /** The callees added are those of the calls newly visited. */
  ghost predicate Collected(f: Frontend, before: set<ExprId>, after: set<ExprId>, out: seq<ExprId>, out': seq<ExprId>) {
    forall c :: c in out' <==> c in out || exists v :: v in after && v !in before && IsCalleeOf(f, v, c)
  }

  lemma ExploredNothing(f: Frontend, visited: set<ExprId>, out: seq<ExprId>, from: seq<ExprId>)
    requires forall id :: id in from && IsExpr(f, id) ==> id in visited
    ensures Stretch(f, visited, visited, from, out, out)
  {
  }

  lemma ExploredThen(f: Frontend, a: set<ExprId>, b: set<ExprId>, c: set<ExprId>, from: seq<ExprId>, more: seq<ExprId>)
    requires Explored(f, a, b, from) && Explored(f, b, c, more)
    ensures Explored(f, a, c, from + more)
  {
    forall v | v in c && v !in a
      ensures exists id :: id in from + more && ReachesOrIs(ExprGraph(f), id, v)
    {
      if v in b {
        var id :| id in from && ReachesOrIs(ExprGraph(f), id, v);
        assert id in from + more;
      } else {
        var id :| id in more && ReachesOrIs(ExprGraph(f), id, v);
        assert id in from + more;
      }
    }
  }

  /** One stretch of the walk after another. */
  lemma StretchThen(f: Frontend, a: set<ExprId>, b: set<ExprId>, c: set<ExprId>, from: seq<ExprId>, more: seq<ExprId>,
                    out: seq<ExprId>, out': seq<ExprId>, out'': seq<ExprId>)
    requires Stretch(f, a, b, from, out, out') && Stretch(f, b, c, more, out', out'')
    ensures Stretch(f, a, c, from + more, out, out'')
  {
    ExploredThen(f, a, b, c, from, more);
  }

  ghost predicate Stretch(f: Frontend, before: set<ExprId>, after: set<ExprId>, from: seq<ExprId>, out: seq<ExprId>, out': seq<ExprId>) {
    Explored(f, before, after, from) && Collected(f, before, after, out, out')
  }

  lemma StretchGrows(f: Frontend, before: set<ExprId>, after: set<ExprId>, from: seq<ExprId>, out: seq<ExprId>, out': seq<ExprId>)
    requires Stretch(f, before, after, from, out, out')
    ensures before <= after
  {
  }

  /** Visiting a root and then all it leads to explores the root. */
  lemma RootStretch(f: Frontend, before: set<ExprId>, after: set<ExprId>, root: ExprId, out: seq<ExprId>, out': seq<ExprId>, out'': seq<ExprId>)
    requires IsExpr(f, root) && root !in before && Stretch(f, before + {root}, after, Visits(f, root), out', out'')
    requires forall c :: c in out' <==> c in out || IsCalleeOf(f, root, c)
    ensures Stretch(f, before, after, [root], out, out'')
  {
    assert Collected(f, before, before + {root}, out, out');
    var g := ExprGraph(f);
    assert Next(g, root) == Successors(f, root);
    forall v | v in after && v !in before
      ensures IsExpr(f, v) && Next(g, v) <= after && ReachesOrIs(g, root, v)
    {
      if v != root {
        var id :| id in Visits(f, root) && ReachesOrIs(g, id, v);
        if id != v {
          var walk :| WalkBetween(g, walk, id, v);
          assert walk[1] in Next(g, walk[0]);
        }
        assert id in Next(g, root);
        EdgeReaches(g, root, id);
        if id != v {
          ReachesTransitive(g, root, id, v);
        }
      }
    }
    assert root in [root];
  }

  /** A walk that starts with nothing visited visits what the root reaches and nothing else. */
  lemma ExploredIsReached(f: Frontend, visited: set<ExprId>, root: ExprId)
    requires Explored(f, {}, visited, [root])
    ensures forall v :: v in visited <==> IsExpr(f, root) && ReachesOrIs(ExprGraph(f), root, v)
  {
    var g := ExprGraph(f);
    forall v
      ensures v in visited <==> IsExpr(f, root) && ReachesOrIs(g, root, v)
    {
      if v in visited {
        var id :| id in [root] && ReachesOrIs(g, id, v);
        if root != v {
          var walk :| WalkBetween(g, walk, root, v);
          assert walk[1] in Next(g, walk[0]);
        }
      }
      if IsExpr(f, root) && ReachesOrIs(g, root, v) {
        assert root in [root];
        ClosedContainsReached(g, visited, root, v);
      }
    }
  }

  class CalleeWalk {
    const frontend: Frontend
    const visited: array<bool>
    var callees: seq<ExprId>

    ghost predicate Valid()
      reads this, visited
    {
      visited.Length == |frontend.expressions| + 1
    }

    ghost function Visited(): set<ExprId>
      reads this, visited
    {
      set id | 0 <= id < visited.Length && visited[id]
    }

    ghost function Unvisited(): set<ExprId>
      reads this, visited
    {
      set id | 0 <= id < visited.Length && !visited[id]
    }

    lemma VisitedOrNot(before: set<ExprId>, unvisited: set<ExprId>)
      requires forall id :: 0 <= id < visited.Length ==> (id in unvisited <==> id !in before)
      requires before <= Visited()
      ensures Unvisited() <= unvisited
    {
    }

    constructor (frontend: Frontend)
      ensures Valid() && fresh(visited) && this.frontend == frontend && callees == [] && Visited() == {}
    {
      this.frontend := frontend;
      visited := new bool[|frontend.expressions| + 1](_ => false);
      callees := [];
    }

    method Collect(root: ExprId)
      requires Valid()
      modifies this`callees, visited
      ensures Valid() && Stretch(frontend, old(Visited()), Visited(), [root], old(callees), callees)
      decreases Unvisited(), 1, 0
    {
      if root == 0 || root > |frontend.expressions| {
        ExploredNothing(frontend, Visited(), callees, [root]);
        return;
      }
      if visited[root] {
        ExploredNothing(frontend, Visited(), callees, [root]);
        return;
      }
      ghost var before, unvisited, out0 := Visited(), Unvisited(), callees;
      visited[root] := true;
      assert Visited() == before + {root};
      assert root in unvisited && Unvisited() <= unvisited && root !in Unvisited();
      var expr := frontend.expressions[root - 1];
      if expr.isCall && expr.operands != [] {
        callees := callees + [expr.operands[0]];
      }
      ghost var out1 := callees;
      CollectParts(expr);
      RootStretch(frontend, before, Visited(), root, out0, out1, callees);
    }

    /** Everything an expression leads to. */
    method CollectParts(expr: Expr)
      requires Valid()
      modifies this`callees, visited
      ensures Valid()
      ensures Stretch(frontend, old(Visited()), Visited(),
                      expr.operands + expr.conditions + [expr.expansion] + StmtsVisits(frontend, expr.statements), old(callees), callees)
      decreases Unvisited(), 4, 0
    {
      hide Stretch, StmtsVisits;
      ghost var v0, out0, unvisited := Visited(), callees, Unvisited();
      CollectAll(expr.operands);
      ghost var v1, out1 := Visited(), callees;
      StretchGrows(frontend, v0, v1, expr.operands, out0, out1);
      VisitedOrNot(v0, unvisited);
      CollectAll(expr.conditions);
      StretchThen(frontend, v0, v1, Visited(), expr.operands, expr.conditions, out0, out1, callees);
      ghost var v2, out2 := Visited(), callees;
      StretchGrows(frontend, v0, v2, expr.operands + expr.conditions, out0, out2);
      VisitedOrNot(v0, unvisited);
      Collect(expr.expansion);
      StretchThen(frontend, v0, v2, Visited(), expr.operands + expr.conditions, [expr.expansion], out0, out2, callees);
      ghost var v3, out3 := Visited(), callees;
      StretchGrows(frontend, v0, v3, expr.operands + expr.conditions + [expr.expansion], out0, out3);
      VisitedOrNot(v0, unvisited);
      CollectStatements(expr.statements);
      StretchThen(frontend, v0, v3, Visited(), expr.operands + expr.conditions + [expr.expansion],
                  StmtsVisits(frontend, expr.statements), out0, out3, callees);
    }

    method CollectAll(ids: seq<ExprId>)
      requires Valid()
      modifies this`callees, visited
      ensures Valid() && Stretch(frontend, old(Visited()), Visited(), ids, old(callees), callees)
      decreases Unvisited(), 2, 0
    {
      ghost var before, out0, unvisited := Visited(), callees, Unvisited();
      ExploredNothing(frontend, before, callees, []);
      for i := 0 to |ids|
        invariant Valid() && Stretch(frontend, before, Visited(), ids[..i], out0, callees)
      {
        ghost var v, out1 := Visited(), callees;
        VisitedOrNot(before, unvisited);
        Collect(ids[i]);
        StretchThen(frontend, before, v, Visited(), ids[..i], [ids[i]], out0, out1, callees);
        assert ids[..i + 1] == ids[..i] + [ids[i]];
      }
      assert ids[..|ids|] == ids;
    }

    method CollectStatements(ids: seq<nat>)
      requires Valid()
      modifies this`callees, visited
      ensures Valid() && Stretch(frontend, old(Visited()), Visited(), StmtsVisits(frontend, ids), old(callees), callees)
      decreases Unvisited(), 3, 1
    {
      hide Explored, Collected;
      ghost var before, out0, unvisited := Visited(), callees, Unvisited();
      ExploredNothing(frontend, before, callees, []);
      for i := 0 to |ids|
        invariant Valid() && Stretch(frontend, before, Visited(), StmtsVisits(frontend, ids[..i]), out0, callees)
      {
        assert ids[..i + 1][..i] == ids[..i];
        ghost var v0, out1 := Visited(), callees;
        StretchGrows(frontend, before, v0, StmtsVisits(frontend, ids[..i]), out0, out1);
        VisitedOrNot(before, unvisited);
        if ids[i] == 0 || ids[i] > |frontend.statements| {
          assert StmtsVisits(frontend, ids[..i + 1]) == StmtsVisits(frontend, ids[..i]);
          continue;
        }
        CollectStatement(frontend.statements[ids[i] - 1]);
        StretchThen(frontend, before, v0, Visited(), StmtsVisits(frontend, ids[..i]), StmtVisits(frontend, ids[i]), out0, out1, callees);
      }
      assert ids[..|ids|] == ids;
    }

    method CollectStatement(stmt: Stmt)
      requires Valid()
      modifies this`callees, visited
      ensures Valid()
      ensures Stretch(frontend, old(Visited()), Visited(), [stmt.expression, stmt.initializer] + stmt.arguments, old(callees), callees)
      decreases Unvisited(), 3, 0
    {
      hide Stretch;
      ghost var v0, out0, unvisited := Visited(), callees, Unvisited();
      Collect(stmt.expression);
      ghost var v1, out1 := Visited(), callees;
      StretchGrows(frontend, v0, v1, [stmt.expression], out0, out1);
      VisitedOrNot(v0, unvisited);
      Collect(stmt.initializer);
      StretchThen(frontend, v0, v1, Visited(), [stmt.expression], [stmt.initializer], out0, out1, callees);
      ghost var v2, out2 := Visited(), callees;
      StretchGrows(frontend, v0, v2, [stmt.expression] + [stmt.initializer], out0, out2);
      VisitedOrNot(v0, unvisited);
      CollectAll(stmt.arguments);
      StretchThen(frontend, v0, v2, Visited(), [stmt.expression] + [stmt.initializer], stmt.arguments, out0, out2, callees);
      assert [stmt.expression] + [stmt.initializer] + stmt.arguments == [stmt.expression, stmt.initializer] + stmt.arguments;
    }
  }

  /** The calls reachable from a body are found, all of them and no others. */
  ghost predicate CallsIn(f: Frontend, body: ExprId, callee: ExprId) {
    IsExpr(f, body) && exists v :: ReachesOrIs(ExprGraph(f), body, v) && IsCalleeOf(f, v, callee)
  }

  method CalleesOf(f: Frontend, body: ExprId) returns (callees: seq<ExprId>)
    ensures forall c :: c in callees <==> CallsIn(f, body, c)
  {
    var walk := new CalleeWalk(f);
    walk.Collect(body);
    callees := walk.callees;
    ExploredIsReached(f, walk.Visited(), body);
  }
}
