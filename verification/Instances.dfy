/** The table of generic instances, and closing it under the generic calls inside instance bodies. */
module Instances {
  import opened Collections
  import opened GenericTypes
  import opened InferenceTheorems
  import opened CalleeWalks
  import opened Reachability

  datatype Instance = Instance(home: string, decl: nat, args: seq<Type>)

  /** A module's expressions, if it has been parsed, and the bodies of its declarations, 0 for none. */
  datatype ModuleView = ModuleView(frontend: Option<Frontend>, bodies: map<nat, ExprId>)

  type Snapshot = map<string, ModuleView>

  /** Which instance a call, given by its module and its callee expression, is bound to. */
  type Calls = map<(string, ExprId), nat>

  const CAP: nat := 1024

  predicate IsAbstract(args: seq<Type>) {
    exists k :: 0 <= k < |args| && MentionsGeneric(args[k], 0)
  }

  predicate HasBody(snapshot: Snapshot, home: string, decl: nat) {
    && home in snapshot
    && snapshot[home].frontend.Some?
    && decl in snapshot[home].bodies
    && snapshot[home].bodies[decl] != 0
  }

  /** The body of the instance's function calls this callee. */
  ghost predicate CallsFrom(snapshot: Snapshot, src: Instance, callee: ExprId) {
    HasBody(snapshot, src.home, src.decl) &&
    CallsIn(snapshot[src.home].frontend.value, snapshot[src.home].bodies[src.decl], callee)
  }

  /** A concrete instance whose body calls something that is bound to an abstract instance. */
  ghost predicate Wants(snapshot: Snapshot, calls: Calls, instances: seq<Instance>, src: Instance, callee: ExprId, bound: Instance) {
    && !IsAbstract(src.args)
    && CallsFrom(snapshot, src, callee)
    && (src.home, callee) in calls
    && calls[(src.home, callee)] < |instances|
    && bound == instances[calls[(src.home, callee)]]
    && IsAbstract(bound.args)
  }

  function Concrete(bound: Instance, src: Instance, next: nat): Instance {
    Instance(bound.home, bound.decl, SubstituteAll(bound.args, src.args, next).0)
  }

  ghost predicate SettledWith(instances: seq<Instance>, src: Instance, bound: Instance, next: nat) {
    IsAbstract(Concrete(bound, src, next).args) || Concrete(bound, src, next) in instances
  }

  /** The instance the call needs is there, unless substitution leaves it abstract. */
  ghost predicate Settled(instances: seq<Instance>, src: Instance, bound: Instance) {
    exists next :: SettledWith(instances, src, bound, next)
  }

  ghost predicate SourceSettled(snapshot: Snapshot, calls: Calls, instances: seq<Instance>, src: Instance) {
    forall callee, bound :: Wants(snapshot, calls, instances, src, callee, bound) ==> Settled(instances, src, bound)
  }

  /** Every call in the bodies of the first n instances has what it needs. */
  ghost predicate AllSettled(snapshot: Snapshot, calls: Calls, instances: seq<Instance>, n: nat)
    requires n <= |instances|
  {
    forall i :: 0 <= i < n ==> SourceSettled(snapshot, calls, instances, instances[i])
  }

  /** An instance made concrete for a call in the body of another. */
  ghost predicate MadeFor(snapshot: Snapshot, calls: Calls, instances: seq<Instance>, src: Instance, callee: ExprId, next: nat, made: Instance) {
    exists bound :: Wants(snapshot, calls, instances, src, callee, bound) && made == Concrete(bound, src, next) && !IsAbstract(made.args)
  }

  /** Instance i was made for a call in the body of an earlier one. */
  ghost predicate MadeEarlier(snapshot: Snapshot, calls: Calls, instances: seq<Instance>, i: nat)
    requires i < |instances|
  {
    exists j, callee, next :: 0 <= j < i && MadeFor(snapshot, calls, instances, instances[j], callee, next, instances[i])
  }

  /** So was every instance from the n-th on. */
  ghost predicate AllMade(snapshot: Snapshot, calls: Calls, instances: seq<Instance>, n: nat) {
    forall i :: n <= i < |instances| ==> MadeEarlier(snapshot, calls, instances, i)
  }

  ghost predicate InRange(calls: Calls, n: nat) {
    forall key :: key in calls ==> calls[key] < n
  }

  ghost predicate NoRepeats(instances: seq<Instance>) {
    forall i, j :: 0 <= i < j < |instances| ==> instances[i] != instances[j]
  }

  lemma WantsStable(snapshot: Snapshot, calls: Calls, instances: seq<Instance>, instances': seq<Instance>)
    requires instances <= instances' && InRange(calls, |instances|)
    ensures forall src, callee, bound ::
              Wants(snapshot, calls, instances', src, callee, bound) <==> Wants(snapshot, calls, instances, src, callee, bound)
  {
    hide CallsFrom, IsAbstract;
  }

  lemma SourceSettledStays(snapshot: Snapshot, calls: Calls, instances: seq<Instance>, instances': seq<Instance>, src: Instance)
    requires instances <= instances' && InRange(calls, |instances|)
    requires SourceSettled(snapshot, calls, instances, src)
    ensures SourceSettled(snapshot, calls, instances', src)
  {
    hide Wants, IsAbstract, Concrete;
    WantsStable(snapshot, calls, instances, instances');
    forall callee, bound | Wants(snapshot, calls, instances', src, callee, bound)
      ensures Settled(instances', src, bound)
    {
      var next :| SettledWith(instances, src, bound, next);
      assert SettledWith(instances', src, bound, next);
    }
  }

  lemma AllSettledStays(snapshot: Snapshot, calls: Calls, instances: seq<Instance>, instances': seq<Instance>, n: nat)
    requires instances <= instances' && InRange(calls, |instances|) && n <= |instances|
    requires AllSettled(snapshot, calls, instances, n)
    ensures AllSettled(snapshot, calls, instances', n)
  {
    hide SourceSettled;
    forall i | 0 <= i < n
      ensures SourceSettled(snapshot, calls, instances', instances'[i])
    {
      SourceSettledStays(snapshot, calls, instances, instances', instances[i]);
    }
  }

  lemma AllMadeGrows(snapshot: Snapshot, calls: Calls, instances: seq<Instance>, n: nat, made: Instance, j: nat, callee: ExprId, next: nat)
    requires InRange(calls, |instances|) && AllMade(snapshot, calls, instances, n)
    requires j < |instances| && MadeFor(snapshot, calls, instances, instances[j], callee, next, made)
    ensures AllMade(snapshot, calls, instances + [made], n)
  {
    var instances' := instances + [made];
    forall i | n <= i < |instances'|
      ensures MadeEarlier(snapshot, calls, instances', i)
    {
      if i < |instances| {
        assert MadeEarlier(snapshot, calls, instances, i);
        var j0, callee0, next0 :| 0 <= j0 < i && MadeFor(snapshot, calls, instances, instances[j0], callee0, next0, instances[i]);
        assert MadeFor(snapshot, calls, instances', instances'[j0], callee0, next0, instances'[i]);
      } else {
        assert MadeFor(snapshot, calls, instances', instances'[j], callee, next, instances'[i]);
      }
    }
  }

  // ---- what the closed table means ----

  /** Everything in the table is needed: it belongs to any set that has the first n and what its members' calls need. */
  lemma {:induction false} OnlyNeededInstances(snapshot: Snapshot, calls: Calls, instances: seq<Instance>, n: nat, closed: iset<Instance>, i: nat)
    requires AllMade(snapshot, calls, instances, n) && i < |instances|
    requires forall k :: 0 <= k < n && k < |instances| ==> instances[k] in closed
    requires forall src, callee, next, made :: src in closed && MadeFor(snapshot, calls, instances, src, callee, next, made) ==> made in closed
    ensures instances[i] in closed
    decreases i
  {
    hide MadeFor;
    if i >= n {
      assert MadeEarlier(snapshot, calls, instances, i);
      var j, callee, next :| 0 <= j < i && MadeFor(snapshot, calls, instances, instances[j], callee, next, instances[i]);
      OnlyNeededInstances(snapshot, calls, instances, n, closed, j);
    }
  }

  lemma {:induction false} StripKeepsParams(t: Type, guard: nat)
    ensures Params(StripUpTo(t, guard)) == Params(t)
    decreases guard
  {
    if guard > 0 && t.Qualified? {
      StripKeepsParams(t.inner, guard - 1);
    }
  }

  lemma {:induction false} MentionedOccurs(t: Type, depth: nat)
    requires MentionsGeneric(t, depth)
    ensures Params(t) != {}
    decreases 16 - depth
  {
    hide Params;
    var s := Strip(t);
    StripKeepsParams(t, 8);
    if s.Generic? {
      GenericParams(s);
    } else {
      var k :| 0 <= k < |Parts(s)| && MentionsGeneric(Parts(s)[k], depth + 1);
      MentionedOccurs(Parts(s)[k], depth + 1);
      ParamsOfParts(s);
      ParamsOfEach(Parts(s));
      var i :| i in Params(Parts(s)[k]);
      assert i in Params(s);
    }
  }

  lemma SubstituteAllGround(ts: seq<Type>, args: seq<Type>, next: nat)
    requires Ground(args) && Below(ParamsOfAll(ts), |args|)
    ensures Ground(SubstituteAll(ts, args, next).0)
  {
    hide Params, Substitute, SubstituteAll;
    ParamsOfEach(ts);
    forall k | 0 <= k < |ts|
      ensures Params(SubstituteAll(ts, args, next).0[k]) == {}
    {
      SubstituteAllAt(ts, args, next, k);
      assert forall i :: i in Params(ts[k]) ==> i in ParamsOfAll(ts);
      GroundSubstitute(ts[k], args, SubstituteAll(ts, args, next).0[k]);
    }
  }

  lemma GroundIsConcrete(args: seq<Type>)
    requires Ground(args)
    ensures !IsAbstract(args)
  {
    if IsAbstract(args) {
      var k :| 0 <= k < |args| && MentionsGeneric(args[k], 0);
      MentionedOccurs(args[k], 0);
    }
  }

  /** What the walk that looks for parameters needs to be exact. */
  predicate Tidy(args: seq<Type>) {
    forall k :: 0 <= k < |args| ==> FewQualifiers(args[k]) && Shallow(args[k], 0)
  }

  /** An instance is abstract exactly when a parameter occurs in one of its arguments, whichever. */
  lemma IsAbstractIff(args: seq<Type>)
    requires Tidy(args)
    ensures IsAbstract(args) <==> ParamsOfAll(args) != {}
    ensures IsAbstract(args) <==> !Ground(args)
  {
    hide Params, MentionsGeneric, FewQualifiers, Shallow;
    ParamsOfEach(args);
    forall k | 0 <= k < |args|
      ensures MentionsGeneric(args[k], 0) <==> Params(args[k]) != {}
    {
      MentionsIff(args[k], 0);
    }
    if !Ground(args) {
      var k :| 0 <= k < |args| && Params(args[k]) != {};
      var i :| i in Params(args[k]);
      assert i in ParamsOfAll(args);
    }
  }

  /** An expression the body reaches is a call of this callee. */
  ghost predicate CallReached(snapshot: Snapshot, src: Instance, callee: ExprId, v: ExprId) {
    && src.home in snapshot && snapshot[src.home].frontend.Some? && src.decl in snapshot[src.home].bodies
    && var f, body := snapshot[src.home].frontend.value, snapshot[src.home].bodies[src.decl];
       && 1 <= body <= |f.expressions| && ReachesOrIs<ExprId>(ExprGraph(f), body, v)
       && 1 <= v <= |f.expressions|
       && f.expressions[v - 1].isCall && f.expressions[v - 1].operands != [] && f.expressions[v - 1].operands[0] == callee
  }

  /** What a call wants, in terms of the types: its function is an instance without parameters, and it is bound
      to one with. */
  lemma WantsIff(snapshot: Snapshot, calls: Calls, instances: seq<Instance>, src: Instance, callee: ExprId, bound: Instance)
    requires Tidy(src.args) && Tidy(bound.args)
    ensures Wants(snapshot, calls, instances, src, callee, bound) <==>
            && Ground(src.args) && ParamsOfAll(bound.args) != {}
            && (exists v: ExprId :: CallReached(snapshot, src, callee, v))
            && (src.home, callee) in calls && calls[(src.home, callee)] < |instances| && instances[calls[(src.home, callee)]] == bound
  {
    hide Tidy, IsAbstract, Ground, ParamsOfAll;
    IsAbstractIff(src.args);
    IsAbstractIff(bound.args);
    if CallsFrom(snapshot, src, callee) {
      var f, body := snapshot[src.home].frontend.value, snapshot[src.home].bodies[src.decl];
      var v: ExprId :| ReachesOrIs<ExprId>(ExprGraph(f), body, v) && IsCalleeOf(f, v, callee);
      assert CallReached(snapshot, src, callee, v);
    }
    if exists v: ExprId :: CallReached(snapshot, src, callee, v) {
      var v: ExprId :| CallReached(snapshot, src, callee, v);
      var f := snapshot[src.home].frontend.value;
      assert IsCalleeOf(f, v, callee);
    }
  }

  /**
   * In a settled table a call bound to f<A> in the body of a ground instance over B finds an instance
   * of f whose arguments look like A with B put in.
   */
  lemma SettledCallFindsItsInstance(instances: seq<Instance>, src: Instance, bound: Instance) returns (j: nat)
    requires Settled(instances, src, bound) && Ground(src.args) && Below(ParamsOfAll(bound.args), |src.args|)
    ensures j < |instances| && instances[j].home == bound.home && instances[j].decl == bound.decl
    ensures ShapesOf(instances[j].args) == InstantiateAll(ShapesOf(bound.args), ShapesOf(src.args))
  {
    var next :| SettledWith(instances, src, bound, next);
    SubstituteAllGround(bound.args, src.args, next);
    GroundIsConcrete(Concrete(bound, src, next).args);
    SubstituteAllInstantiates(bound.args, src.args, next);
    j :| 0 <= j < |instances| && instances[j] == Concrete(bound, src, next);
  }

  /**
   * So in a closed table every call reached in the body of a ground instance over B, bound to f<A> with a
   * parameter somewhere in A, finds an instance of f whose arguments look like A with B put in.
   */
  lemma ClosedTableHasInstance(snapshot: Snapshot, calls: Calls, instances: seq<Instance>, src: Instance, callee: ExprId, v: ExprId)
    returns (j: nat)
    requires AllSettled(snapshot, calls, instances, |instances|) && src in instances && Ground(src.args) && Tidy(src.args)
    requires CallReached(snapshot, src, callee, v) && (src.home, callee) in calls && calls[(src.home, callee)] < |instances|
    requires var bound := instances[calls[(src.home, callee)]];
      Tidy(bound.args) && ParamsOfAll(bound.args) != {} && Below(ParamsOfAll(bound.args), |src.args|)
    ensures j < |instances|
    ensures var bound := instances[calls[(src.home, callee)]];
      && instances[j].home == bound.home && instances[j].decl == bound.decl
      && ShapesOf(instances[j].args) == InstantiateAll(ShapesOf(bound.args), ShapesOf(src.args))
  {
    hide Tidy, Wants, Settled, Ground, ParamsOfAll, InstantiateAll, ShapesOf;
    var bound := instances[calls[(src.home, callee)]];
    WantsIff(snapshot, calls, instances, src, callee, bound);
    var i :| 0 <= i < |instances| && instances[i] == src;
    assert SourceSettled(snapshot, calls, instances, instances[i]);
    j := SettledCallFindsItsInstance(instances, src, bound);
  }

  /** A type that substitution does not build anew. */
  predicate IsLeaf(t: Type) {
    t.Prim? || t.Generic?
  }

  /** The number of entries substitution makes. */
  function Built(t: Type): (n: nat)
    ensures n == 0 <==> IsLeaf(t)
    decreases t
  {
    match t
    case Prim(_) => 0
    case Generic(_) => 0
    case Pointer(_, pointee) => Built(pointee) + 1
    case Optional(_, inner) => Built(inner) + 1
    case Array(_, element, _) => Built(element) + 1
    case Slice(_, element) => Built(element) + 1
    case Function(_, params, result) => BuiltAll(params) + Built(result) + 1
    case Failable(_, inner) => Built(inner) + 1
    case Sum(_, members) => BuiltAll(members) + 1
    case Qualified(_, inner, _, _) => Built(inner) + 1
  }

  function BuiltAll(ts: seq<Type>): nat
    decreases ts
  {
    if ts == [] then 0 else Built(ts[0]) + BuiltAll(ts[1..])
  }

  lemma {:induction false} SubstituteBuilds(t: Type, args: seq<Type>, next: nat)
    ensures Substitute(t, args, next).1 == next + Built(t)
    ensures !IsLeaf(t) ==> !IsLeaf(Substitute(t, args, next).0) && Substitute(t, args, next).0.entry == next + Built(t) - 1
    decreases t
  {
    match t
    case Prim(_) =>
    case Generic(_) =>
    case Function(_, params, result) =>
      SubstituteAllBuilds(params, args, next);
      SubstituteBuilds(result, args, SubstituteAll(params, args, next).1);
    case Sum(_, members) => SubstituteAllBuilds(members, args, next);
    case Pointer(_, pointee) => SubstituteBuilds(pointee, args, next);
    case Optional(_, inner) => SubstituteBuilds(inner, args, next);
    case Array(_, element, _) => SubstituteBuilds(element, args, next);
    case Slice(_, element) => SubstituteBuilds(element, args, next);
    case Failable(_, inner) => SubstituteBuilds(inner, args, next);
    case Qualified(_, inner, _, _) => SubstituteBuilds(inner, args, next);
  }

  lemma {:induction false} SubstituteAllBuilds(ts: seq<Type>, args: seq<Type>, next: nat)
    ensures SubstituteAll(ts, args, next).1 == next + BuiltAll(ts)
    decreases ts
  {
    if ts != [] {
      SubstituteBuilds(ts[0], args, next);
      SubstituteAllBuilds(ts[1..], args, Substitute(ts[0], args, next).1);
    }
  }

  /**
   * Making the same call concrete at two different times gives equal instances if and only if the
   * bound arguments are all primitives or bare parameters; otherwise two instances that look alike
   * enter the table, because equality is of entries.
   */
  lemma ConcreteAgainIffLeaves(bound: Instance, src: Instance, next: nat, later: nat)
    requires next < later
    ensures Concrete(bound, src, next) == Concrete(bound, src, later) <==> forall k :: 0 <= k < |bound.args| ==> IsLeaf(bound.args[k])
    ensures ShapesOf(Concrete(bound, src, next).args) == ShapesOf(Concrete(bound, src, later).args)
  {
    SubstituteAllInstantiates(bound.args, src.args, next);
    SubstituteAllInstantiates(bound.args, src.args, later);
    SubstituteAllAgainIffLeaves(bound.args, src.args, next, later);
  }

  lemma {:induction false} SubstituteAllAgainIffLeaves(ts: seq<Type>, args: seq<Type>, next: nat, later: nat)
    requires next < later
    ensures SubstituteAll(ts, args, next).0 == SubstituteAll(ts, args, later).0 <==> forall k :: 0 <= k < |ts| ==> IsLeaf(ts[k])
    decreases ts
  {
    if ts != [] {
      var (t, n) := Substitute(ts[0], args, next);
      var (u, m) := Substitute(ts[0], args, later);
      SubstituteBuilds(ts[0], args, next);
      SubstituteBuilds(ts[0], args, later);
      SubstituteAllAgainIffLeaves(ts[1..], args, n, m);
      var left, right := SubstituteAll(ts, args, next).0, SubstituteAll(ts, args, later).0;
      assert left[0] == t && right[0] == u && left[1..] == SubstituteAll(ts[1..], args, n).0 && right[1..] == SubstituteAll(ts[1..], args, m).0;
      assert left == [t] + left[1..] && right == [u] + right[1..];
      assert forall k :: 0 < k < |ts| ==> ts[k] == ts[1..][k - 1];
    }
  }

  class InstantiationPass {
    const snapshot: Snapshot
    var instances: seq<Instance>
    var calls: Calls
    var nextEntry: nat

    ghost predicate Valid()
      reads this
    {
      |instances| <= CAP && InRange(calls, |instances|) && NoRepeats(instances)
    }

    constructor (snapshot: Snapshot, nextEntry: nat)
      ensures Valid() && this.snapshot == snapshot && instances == [] && calls == map[] && this.nextEntry == nextEntry
    {
      this.snapshot := snapshot;
      this.nextEntry := nextEntry;
      instances := [];
      calls := map[];
    }

    method EnsureInstance(home: string, decl: nat, args: seq<Type>) returns (index: Option<nat>)
      requires Valid()
      modifies this`instances
      ensures Valid()
      ensures instances == if Instance(home, decl, args) in old(instances) || |old(instances)| == 1024 then old(instances)
                           else old(instances) + [Instance(home, decl, args)]
      ensures index.Some? ==> index.value < |instances| && instances[index.value] == Instance(home, decl, args)
      ensures index.None? <==> Instance(home, decl, args) !in instances
    {
      for i := 0 to |instances|
        invariant Instance(home, decl, args) !in instances[..i]
      {
        if instances[i].home == home && instances[i].decl == decl && instances[i].args == args {
          return Some(i);
        }
      }
      if |instances| >= CAP {
        return None;
      }
      instances := instances + [Instance(home, decl, args)];
      return Some(|instances| - 1);
    }

    method BindCall(home: string, callee: ExprId, targetHome: string, decl: nat, args: seq<Type>) returns (index: Option<nat>)
      requires Valid()
      modifies this`instances, this`calls
      ensures Valid() && old(instances) <= instances
      ensures index.Some? ==> index.value < |instances| && instances[index.value] == Instance(targetHome, decl, args) &&
                              calls == old(calls)[(home, callee) := index.value]
      ensures index.None? ==> calls == old(calls) && instances == old(instances) && |instances| == CAP
    {
      index := EnsureInstance(targetHome, decl, args);
      if index.None? {
        return;
      }
      calls := calls[(home, callee) := index.value];
    }

    /** One call in the body of instance `cursor`. */
    method ConcretizeCall(cursor: nat, callee: ExprId, ghost n: nat)
      requires Valid() && cursor < |instances| && !IsAbstract(instances[cursor].args) && CallsFrom(snapshot, instances[cursor], callee)
      requires AllMade(snapshot, calls, instances, n)
      modifies this`instances, this`nextEntry
      ensures Valid() && old(instances) <= instances && AllMade(snapshot, calls, instances, n)
      ensures |instances| < CAP ==>
                forall bound :: Wants(snapshot, calls, instances, instances[cursor], callee, bound) ==> Settled(instances, instances[cursor], bound)
    {
      hide CallsFrom, IsAbstract, AllMade, SubstituteAll;
      var source := instances[cursor];
      if (source.home, callee) !in calls {
        return;
      }
      var bound := instances[calls[(source.home, callee)]];
      if !IsAbstract(bound.args) {
        return;
      }
      ghost var before := instances;
      ghost var entry := nextEntry;
      var (concrete, next) := SubstituteAll(bound.args, source.args, nextEntry);
      nextEntry := next;
      assert Concrete(bound, source, entry) == Instance(bound.home, bound.decl, concrete);
      assert Wants(snapshot, calls, instances, source, callee, bound);
      if IsAbstract(concrete) {
        assert SettledWith(instances, source, bound, entry);
        return;
      }
      assert MadeFor(snapshot, calls, instances, source, callee, entry, Instance(bound.home, bound.decl, concrete));
      AllMadeGrows(snapshot, calls, before, n, Instance(bound.home, bound.decl, concrete), cursor, callee, entry);
      var index := EnsureInstance(bound.home, bound.decl, concrete);
      assert index.Some? ==> SettledWith(instances, source, bound, entry);
    }

    method ConcretizeCallsOf(cursor: nat, ghost n: nat)
      requires Valid() && cursor < |instances| && AllMade(snapshot, calls, instances, n)
      modifies this`instances, this`nextEntry
      ensures Valid() && old(instances) <= instances && AllMade(snapshot, calls, instances, n)
      ensures |instances| < CAP ==> SourceSettled(snapshot, calls, instances, instances[cursor])
    {
      hide IsAbstract, AllMade, CallsIn;
      var source := instances[cursor];
      if IsAbstract(source.args) {
        return;
      }
      if !HasBody(snapshot, source.home, source.decl) {
        return;
      }
      var callees := CalleesOf(snapshot[source.home].frontend.value, snapshot[source.home].bodies[source.decl]);
      for k := 0 to |callees|
        invariant Valid() && old(instances) <= instances && AllMade(snapshot, calls, instances, n)
        invariant |instances| < CAP ==>
                    forall callee, bound :: callee in callees[..k] && Wants(snapshot, calls, instances, source, callee, bound) ==>
                                              Settled(instances, source, bound)
      {
        ghost var before := instances;
        assert callees[k] in callees;
        assert CallsFrom(snapshot, source, callees[k]);
        ConcretizeCall(cursor, callees[k], n);
        assert callees[..k + 1] == callees[..k] + [callees[k]];
        if |instances| < CAP {
          forall callee, bound | callee in callees[..k] && Wants(snapshot, calls, instances, source, callee, bound)
            ensures Settled(instances, source, bound)
          {
            WantsStable(snapshot, calls, before, instances);
            SettledStays(before, instances, source, bound);
          }
        }
      }
      assert callees[..|callees|] == callees;
    }

    lemma SettledStays(before: seq<Instance>, after: seq<Instance>, src: Instance, bound: Instance)
      requires before <= after && Settled(before, src, bound)
      ensures Settled(after, src, bound)
    {
      var next :| SettledWith(before, src, bound, next);
      assert SettledWith(after, src, bound, next);
    }

    /**
     * Works through the instances in order, those appended on the way included. The table only grows,
     * no instance is in it twice, every new one was made for a call in the body of an earlier one, and
     * unless the table is full in the end, every call in every concrete body has what it needs.
     */
    method ConcretizeNestedInstances()
      requires Valid()
      modifies this`instances, this`nextEntry
      ensures Valid() && old(instances) <= instances
      ensures AllMade(snapshot, calls, instances, old(|instances|))
      ensures |instances| < 1024 ==> AllSettled(snapshot, calls, instances, |instances|)
    {
      hide SourceSettled;
      ghost var n := |instances|;
      var cursor := 0;
      while cursor < |instances|
        invariant Valid() && old(instances) <= instances && cursor <= |instances|
        invariant AllMade(snapshot, calls, instances, n)
        invariant |instances| < CAP ==> AllSettled(snapshot, calls, instances, cursor)
        decreases CAP - cursor
      {
        ghost var before := instances;
        ConcretizeCallsOf(cursor, n);
        if |instances| < CAP {
          AllSettledStays(snapshot, calls, before, instances, cursor);
        }
        cursor := cursor + 1;
      }
    }
  }
}
