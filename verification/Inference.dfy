/** Inferring the arguments of a generic call from the types of its arguments, in strict mode. */
module Inference {
  import opened Collections
  import opened GenericTypes

  type Fact = (nat, Type)

  /** Which type each parameter met stands opposite, or that the shapes cannot be matched. */
  datatype Demands = Mismatch | Demands(facts: set<Fact>)

  function Both(a: Demands, b: Demands): Demands {
    if a.Mismatch? || b.Mismatch? then Mismatch else Demands(a.facts + b.facts)
  }

  predicate IsBorrow(t: Type) {
    t.Pointer? && t.pointee.Qualified? && (t.pointee.ownership == Lend || t.pointee.ownership == View)
  }

  /** A borrow parameter is matched through its pointer; the argument may be the pointee itself. */
  function Borrowed(param: Type, arg: Type): (r: (Type, Type))
    ensures r.0 == param || r.0 < param
  {
    var p := Strip(param);
    if IsBorrow(p) then (p.pointee, if Strip(arg).Pointer? then Strip(Strip(arg).pointee) else arg)
    else (param, arg)
  }

  /** Inside the optional layers. */
  function Peel(t: Type): (r: Type)
    ensures r == t || r < t
    decreases t
  {
    if Strip(t).Optional? then Peel(Strip(t).inner) else t
  }

  /**
   * An independent account of matching a declared type against an argument: every fact the
   * occurrences of generic parameters demand, as a set.
   */
  function DemandsOf(degree: nat, param: Type, arg: Type): Demands
    decreases param, 2
  {
    if !MentionsGeneric(param, 0) then Demands({})
    else
      var (p0, a0) := Borrowed(param, arg);
      DemandsOfStripped(degree, Strip(p0), Strip(a0))
  }

  /** A parameter demands what it stands opposite; an argument may do without optional layers the parameter has. */
  function DemandsOfStripped(degree: nat, p: Type, a: Type): Demands
    decreases p, 1
  {
    if p.Generic? && p.index < degree then Demands({(p.index, a)})
    else if p == a then Demands({})
    else if p.Optional? && !a.Optional? then ProbeDemands(degree, Peel(p.inner), a)
    else DemandsOfParts(degree, p, a)
  }

  /** Two stripped types of the same kind are matched part by part. */
  function DemandsOfParts(degree: nat, p: Type, a: Type): Demands
    decreases p, 0
  {
    if p.Pointer? && a.Pointer? then DemandsOf(degree, p.pointee, a.pointee)
    else if p.Optional? && a.Optional? then DemandsOf(degree, p.inner, a.inner)
    else if p.Array? && a.Array? && p.size == a.size then DemandsOf(degree, p.element, a.element)
    else if p.Slice? && a.Slice? then DemandsOf(degree, p.element, a.element)
    else if p.Failable? && a.Failable? then DemandsOf(degree, p.inner, a.inner)
    else if p.Function? && a.Function? && |p.params| == |a.params| then
      Both(DemandsOfAll(degree, p.params, a.params), DemandsOf(degree, p.result, a.result))
    else if p.Sum? && a.Sum? && |p.members| == |a.members| then DemandsOfAll(degree, p.members, a.members)
    else Mismatch
  }

  function DemandsOfAll(degree: nat, params: seq<Type>, args: seq<Type>): Demands
    requires |params| == |args|
    decreases params, 3
  {
    if params == [] then Demands({})
    else
      var n := |params| - 1;
      Both(DemandsOfAll(degree, params[..n], args[..n]), DemandsOf(degree, params[n], args[n]))
  }

  /** Matching inside peeled optional layers is stricter: concrete parts must be the same, and functions and sums never match. */
  function ProbeDemands(degree: nat, param: Type, arg: Type): Demands
    decreases param
  {
    var p, a := Strip(param), Strip(arg);
    if p.Generic? && p.index < degree then Demands({(p.index, a)})
    else if p == a then Demands({})
    else if p.Pointer? && a.Pointer? then ProbeDemands(degree, p.pointee, a.pointee)
    else if p.Optional? && a.Optional? then ProbeDemands(degree, p.inner, a.inner)
    else if p.Array? && a.Array? && p.size == a.size then ProbeDemands(degree, p.element, a.element)
    else if p.Slice? && a.Slice? then ProbeDemands(degree, p.element, a.element)
    else if p.Failable? && a.Failable? then ProbeDemands(degree, p.inner, a.inner)
    else Mismatch
  }

  /** No parameter is told two different types. */
  ghost predicate Functional(facts: set<Fact>) {
    forall i, t, u :: (i, t) in facts && (i, u) in facts ==> t == u
  }

  function Facts(resolved: seq<Option<Type>>): set<Fact> {
    set i | 0 <= i < |resolved| && resolved[i].Some? :: (i, resolved[i].value)
  }

  lemma FactsAreFunctional(resolved: seq<Option<Type>>)
    ensures Functional(Facts(resolved))
  {
  }

  lemma FactsGrow(resolved: seq<Option<Type>>, i: nat, t: Type)
    requires i < |resolved| && resolved[i].None?
    ensures Facts(resolved[i := Some(t)]) == Facts(resolved) + {(i, t)}
    ensures Functional(Facts(resolved) + {(i, t)})
  {
    var grown := resolved[i := Some(t)];
    forall k, u
      ensures (k, u) in Facts(grown) <==> (k, u) in Facts(resolved) || (k, u) == (i, t)
    {
      if (k, u) in Facts(resolved) {
        assert grown[k] == resolved[k];
      }
      if (k, u) == (i, t) {
        assert grown[i].Some?;
      }
    }
    assert Facts(grown) == Facts(resolved) + {(i, t)};
    FactsAreFunctional(grown);
  }

  lemma FewQualifiersInside(t: Type)
    requires FewQualifiers(t)
    ensures FewQualifiers(Strip(t)) && !Strip(t).Qualified?
    ensures forall k :: 0 <= k < |Parts(Strip(t))| ==> FewQualifiers(Parts(Strip(t))[k])
  {
    StripFewQualifiers(t, 8);
  }

  lemma {:induction false} StripFewQualifiers(t: Type, guard: nat)
    requires FewQualifiers(t)
    ensures FewQualifiers(StripUpTo(t, guard))
    decreases guard
  {
    if guard > 0 && t.Qualified? {
      assert Parts(t)[0] == t.inner;
      StripFewQualifiers(t.inner, guard - 1);
    }
  }

  /** A stripped type and what it is made of have few qualifiers too. */
  lemma {:induction false} StrippedInside(t: Type)
    requires FewQualifiers(t)
    ensures var s := Strip(t);
            && !s.Qualified? && FewQualifiers(s)
            && (s.Pointer? ==> FewQualifiers(s.pointee))
            && (s.Optional? || s.Failable? ==> FewQualifiers(s.inner))
            && (s.Array? || s.Slice? ==> FewQualifiers(s.element))
            && (s.Function? ==> FewQualifiers(s.result) && forall k :: 0 <= k < |s.params| ==> FewQualifiers(s.params[k]))
            && (s.Sum? ==> forall k :: 0 <= k < |s.members| ==> FewQualifiers(s.members[k]))
  {
    hide FewQualifiers;
    FewQualifiersInside(t);
    var s := Strip(t);
    var parts := Parts(s);
    if s.Function? {
      assert parts == s.params + [s.result];
      assert parts[|s.params|] == s.result;
      assert forall k :: 0 <= k < |s.params| ==> parts[k] == s.params[k];
    } else if s.Sum? {
      assert parts == s.members;
    } else if |parts| == 1 {
      assert FewQualifiers(parts[0]);
    }
  }

  /** What happened to the facts: either all demands were added, or they could not all be met. */
  ghost predicate Outcome(before: set<Fact>, demands: Demands, after: set<Fact>, failed: bool) {
    if failed then demands.Mismatch? || !Functional(before + demands.facts)
    else demands.Demands? && Functional(before + demands.facts) && after == before + demands.facts
  }

  datatype Status = Ok(args: seq<Type>) | Arity | CannotInfer

  class Inference {
    const degree: nat
    var resolved: seq<Option<Type>>
    var failed: bool

    ghost predicate Valid()
      reads this
    {
      |resolved| == degree && forall i :: 0 <= i < |resolved| && resolved[i].Some? ==> !resolved[i].value.Qualified?
    }

    constructor (degree: nat)
      ensures this.degree == degree && Valid() && !failed && Facts(resolved) == {}
    {
      this.degree := degree;
      resolved := seq(degree, _ => None);
      failed := false;
    }

    /** Works on a copy of the bindings, which counts only if the whole probe succeeds. */
    method Probe(param: Type, arg: Type, before: seq<Option<Type>>) returns (probe: seq<Option<Type>>, probeFailed: bool)
      requires FewQualifiers(arg) && |before| == degree
      requires forall i :: 0 <= i < degree && before[i].Some? ==> !before[i].value.Qualified?
      ensures |probe| == degree && forall i :: 0 <= i < degree && probe[i].Some? ==> !probe[i].value.Qualified?
      ensures Outcome(Facts(before), ProbeDemands(degree, param, arg), Facts(probe), probeFailed)
      decreases param
    {
      hide FewQualifiers, Parts, Strip;
      probe, probeFailed := before, false;
      StrippedInside(arg);
      FactsAreFunctional(before);
      NothingDemanded(Facts(before));
      var p, a := Strip(param), Strip(arg);
      if p.Generic? && p.index < degree {
        if probe[p.index].Some? {
          if probe[p.index].value != a && Strip(probe[p.index].value) != Strip(a) {
            return probe, true;
          }
          assert probe[p.index := Some(a)] == before;
        } else {
          FactsGrow(before, p.index, a);
        }
        probe := probe[p.index := Some(a)];
        return;
      }
      if p == a {
        return;
      }
      if p.Pointer? && a.Pointer? {
        probe, probeFailed := Probe(p.pointee, a.pointee, before);
      } else if p.Optional? && a.Optional? {
        probe, probeFailed := Probe(p.inner, a.inner, before);
      } else if p.Array? && a.Array? && p.size == a.size {
        probe, probeFailed := Probe(p.element, a.element, before);
      } else if p.Slice? && a.Slice? {
        probe, probeFailed := Probe(p.element, a.element, before);
      } else if p.Failable? && a.Failable? {
        probe, probeFailed := Probe(p.inner, a.inner, before);
      } else {
        probeFailed := true;
      }
    }

    /** Matches a declared type against an argument; once it has failed it does nothing more. */
    method Unify(param: Type, arg: Type)
      requires Valid() && FewQualifiers(arg)
      modifies this`resolved, this`failed
      ensures Valid()
      ensures old(failed) ==> failed && resolved == old(resolved)
      ensures !old(failed) ==> Outcome(old(Facts(resolved)), DemandsOf(degree, param, arg), Facts(resolved), failed)
      decreases param, 1
    {
      hide FewQualifiers, Parts, Strip, Functional, Facts, MentionsGeneric, ProbeDemands, DemandsOfParts;
      if failed {
        return;
      }
      FactsAreFunctional(resolved);
      NothingDemanded(Facts(resolved));
      if !MentionsGeneric(param, 0) {
        return;
      }
      var p0, a0 := param, arg;
      StrippedInside(arg);
      if IsBorrow(Strip(param)) {
        if Strip(arg).Pointer? {
          StrippedInside(Strip(arg).pointee);
          a0 := Strip(Strip(arg).pointee);
        }
        p0 := Strip(param).pointee;
      }
      StrippedInside(a0);
      var p, a := Strip(p0), Strip(a0);
      if p.Generic? && p.index < degree {
        Bind(p.index, a);
        return;
      }
      if p == a {
        return;
      }
      if p.Optional? && !a.Optional? {
        var probe, probeFailed := Probe(Peel(p.inner), a, resolved);
        if !probeFailed {
          resolved := probe;
          return;
        }
        failed := true;
        return;
      }
      UnifyParts(p, a);
    }

    method UnifyParts(p: Type, a: Type)
      requires Valid() && !failed && FewQualifiers(a) && !a.Qualified?
      modifies this`resolved, this`failed
      ensures Valid() && Outcome(old(Facts(resolved)), DemandsOfParts(degree, p, a), Facts(resolved), failed)
      decreases p, 0
    {
      hide FewQualifiers, Parts, Strip, Functional, Facts, DemandsOf, DemandsOfAll;
      StrippedInside(a);
      if p.Function? && a.Function? && |p.params| == |a.params| {
        ghost var facts0 := Facts(resolved);
        UnifyAll(p.params, a.params);
        ghost var facts1, failed1 := Facts(resolved), failed;
        Unify(p.result, a.result);
        OutcomesCombine(facts0, DemandsOfAll(degree, p.params, a.params), facts1, failed1,
                        DemandsOf(degree, p.result, a.result), Facts(resolved), failed);
      } else if p.Sum? && a.Sum? && |p.members| == |a.members| {
        UnifyAll(p.members, a.members);
      } else if p.Pointer? && a.Pointer? {
        Unify(p.pointee, a.pointee);
      } else if p.Optional? && a.Optional? {
        Unify(p.inner, a.inner);
      } else if p.Array? && a.Array? && p.size == a.size {
        Unify(p.element, a.element);
      } else if p.Slice? && a.Slice? {
        Unify(p.element, a.element);
      } else if p.Failable? && a.Failable? {
        Unify(p.inner, a.inner);
      } else {
        failed := true;
      }
    }

    /** The first type a parameter meets is its binding; later ones must be the same up to qualifiers. */
    method Bind(index: nat, arg: Type)
      requires Valid() && !failed && index < degree && !arg.Qualified?
      modifies this`resolved, this`failed
      ensures Valid() && Outcome(old(Facts(resolved)), Demands({(index, arg)}), Facts(resolved), failed)
    {
      if resolved[index].Some? {
        if resolved[index].value == arg || Strip(resolved[index].value) == Strip(arg) {
          return;
        }
        failed := true;
        return;
      }
      FactsGrow(resolved, index, arg);
      resolved := resolved[index := Some(arg)];
    }

    method UnifyAll(params: seq<Type>, args: seq<Type>)
      requires Valid() && |params| == |args| && forall k :: 0 <= k < |args| ==> FewQualifiers(args[k])
      modifies this`resolved, this`failed
      ensures Valid()
      ensures old(failed) ==> failed && resolved == old(resolved)
      ensures !old(failed) ==> Outcome(old(Facts(resolved)), DemandsOfAll(degree, params, args), Facts(resolved), failed)
      decreases params, 2
    {
      hide FewQualifiers, Parts, Strip, Functional, Facts, DemandsOf;
      FactsAreFunctional(resolved);
      NothingDemanded(Facts(resolved));
      ghost var facts0 := Facts(resolved);
      for i := 0 to |params|
        invariant Valid()
        invariant old(failed) ==> failed && resolved == old(resolved)
        invariant !old(failed) ==> Outcome(facts0, DemandsOfAll(degree, params[..i], args[..i]), Facts(resolved), failed)
      {
        ghost var facts1, failed1 := Facts(resolved), failed;
        Unify(params[i], args[i]);
        if !old(failed) {
          OutcomesCombine(facts0, DemandsOfAll(degree, params[..i], args[..i]), facts1, failed1,
                          DemandsOf(degree, params[i], args[i]), Facts(resolved), failed);
        }
        assert params[..i + 1][..i] == params[..i] && args[..i + 1][..i] == args[..i];
      }
      assert params[..|params|] == params && args[..|args|] == args;
    }
  }

  lemma OutcomesCombine(facts0: set<Fact>, d1: Demands, facts1: set<Fact>, failed1: bool,
                        d2: Demands, facts2: set<Fact>, failed2: bool)
    requires Outcome(facts0, d1, facts1, failed1)
    requires if failed1 then failed2 else Outcome(facts1, d2, facts2, failed2)
    ensures Outcome(facts0, Both(d1, d2), facts2, failed2)
  {
    if d1.Demands? && d2.Demands? {
      assert facts0 + (d1.facts + d2.facts) == (facts0 + d1.facts) + d2.facts;
    }
  }

  lemma NothingDemanded(facts: set<Fact>)
    ensures facts + {} == facts
  {
  }

  function DemandsOfPair(degree: nat, declared: Type, actual: Option<Type>): Demands {
    if actual.Some? then DemandsOf(degree, declared, actual.value) else Demands({})
  }

  /** The demands of the first n arguments; an argument without a type demands nothing. */
  function DemandsOfArguments(degree: nat, declared: seq<Type>, actual: seq<Option<Type>>, n: nat): Demands
    requires n <= |declared| && n <= |actual|
  {
    if n == 0 then Demands({})
    else Both(DemandsOfArguments(degree, declared, actual, n - 1), DemandsOfPair(degree, declared[n - 1], actual[n - 1]))
  }

  function Pairs(declared: seq<Type>, actual: seq<Option<Type>>): nat {
    if |declared| < |actual| then |declared| else |actual|
  }

  function DemandsOfCall(degree: nat, declared: seq<Type>, actual: seq<Option<Type>>,
                         declaredResult: Option<Type>, expectedResult: Option<Type>): Demands {
    Both(DemandsOfArguments(degree, declared, actual, Pairs(declared, actual)),
         if declaredResult.Some? then DemandsOfPair(degree, declaredResult.value, expectedResult) else Demands({}))
  }

  /** Every parameter with its binding. */
  function Bindings(args: seq<Type>): set<Fact> {
    set i | 0 <= i < |args| :: (i, args[i])
  }

  lemma ResolvedIsBindings(resolved: seq<Option<Type>>, args: seq<Type>)
    requires |args| == |resolved|
    ensures (forall i :: 0 <= i < |args| ==> resolved[i] == Some(args[i])) <==> Facts(resolved) == Bindings(args)
  {
    if Facts(resolved) == Bindings(args) {
      forall i | 0 <= i < |args|
        ensures resolved[i] == Some(args[i])
      {
        assert (i, args[i]) in Facts(resolved);
      }
    }
    if forall i :: 0 <= i < |args| ==> resolved[i] == Some(args[i]) {
      assert forall f :: f in Facts(resolved) <==> f in Bindings(args);
    }
  }

  /**
   * Without explicit arguments, inference answers with some arguments if and only if the set of what
   * the call demands is exactly the bindings of those arguments: nothing is mismatched, nothing is
   * told twice differently, nothing is left open.
   */
  method ResolveTypes(degree: nat, explicitArgs: seq<Option<Type>>, declared: seq<Type>, actual: seq<Option<Type>>,
                      declaredResult: Option<Type>, expectedResult: Option<Type>)
    returns (status: Status)
    requires forall k :: 0 <= k < |actual| && actual[k].Some? ==> FewQualifiers(actual[k].value)
    requires expectedResult.Some? ==> FewQualifiers(expectedResult.value)
    ensures status == Arity <==> degree == 0 || (explicitArgs != [] && |explicitArgs| != degree)
    ensures degree > 0 && |explicitArgs| == degree ==>
              forall out :: status == Ok(out) <==> |out| == degree && forall i :: 0 <= i < degree ==> explicitArgs[i] == Some(out[i])
    ensures degree > 0 && explicitArgs == [] ==>
              forall out :: status == Ok(out) <==>
                            |out| == degree &&
                            DemandsOfCall(degree, declared, actual, declaredResult, expectedResult) == Demands(Bindings(out))
  {
    hide FewQualifiers, DemandsOf, Facts;
    if degree == 0 {
      return Arity;
    }
    if explicitArgs != [] && |explicitArgs| != degree {
      return Arity;
    }
    if |explicitArgs| == degree {
      status := AllBound(explicitArgs);
      return;
    }
    var inference := new Inference(degree);
    ghost var facts0 := Facts(inference.resolved);
    FactsAreFunctional(inference.resolved);
    NothingDemanded(facts0);
    for p := 0 to Pairs(declared, actual)
      invariant inference.Valid() && inference.degree == degree
      invariant Outcome(facts0, DemandsOfArguments(degree, declared, actual, p), Facts(inference.resolved), inference.failed)
    {
      ghost var facts1, failed1 := Facts(inference.resolved), inference.failed;
      FactsAreFunctional(inference.resolved);
      NothingDemanded(facts1);
      if actual[p].Some? {
        inference.Unify(declared[p], actual[p].value);
      }
      OutcomesCombine(facts0, DemandsOfArguments(degree, declared, actual, p), facts1, failed1,
                      DemandsOfPair(degree, declared[p], actual[p]), Facts(inference.resolved), inference.failed);
    }
    ghost var fromArguments := DemandsOfArguments(degree, declared, actual, Pairs(declared, actual));
    ghost var demands := DemandsOfCall(degree, declared, actual, declaredResult, expectedResult);
    if inference.failed {
      return CannotInfer;
    }
    ghost var facts1 := Facts(inference.resolved);
    FactsAreFunctional(inference.resolved);
    NothingDemanded(facts1);
    if declaredResult.Some? && expectedResult.Some? {
      inference.Unify(declaredResult.value, expectedResult.value);
    }
    OutcomesCombine(facts0, fromArguments, facts1, false,
                    if declaredResult.Some? then DemandsOfPair(degree, declaredResult.value, expectedResult) else Demands({}),
                    Facts(inference.resolved), inference.failed);
    if inference.failed {
      return CannotInfer;
    }
    assert demands == Demands(Facts(inference.resolved));
    forall out: seq<Type> | |out| == degree
      ensures (forall i :: 0 <= i < degree ==> inference.resolved[i] == Some(out[i])) <==> demands == Demands(Bindings(out))
    {
      ResolvedIsBindings(inference.resolved, out);
    }
    status := AllBound(inference.resolved);
  }

  /** A parameter that is still open means the arguments cannot be inferred. */
  method AllBound(resolved: seq<Option<Type>>) returns (status: Status)
    ensures status != Arity
    ensures forall out :: status == Ok(out) <==> |out| == |resolved| && forall i :: 0 <= i < |resolved| ==> resolved[i] == Some(out[i])
  {
    var args: seq<Type> := [];
    for i := 0 to |resolved|
      invariant |args| == i && forall k :: 0 <= k < i ==> resolved[k] == Some(args[k])
    {
      if resolved[i].None? {
        return CannotInfer;
      }
      args := args + [resolved[i].value];
    }
    return Ok(args);
  }

}
