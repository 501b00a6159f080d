/** What inference owes to substitution: it finds again what was substituted, and nothing else. */
module InferenceTheorems {
  import opened Collections
  import opened GenericTypes
  import opened Inference

  // ---- the order of arguments ----

  /** Some one of the first n arguments cannot be matched. */
  ghost predicate SomeMismatch(degree: nat, declared: seq<Type>, actual: seq<Option<Type>>, n: nat)
    requires n <= |declared| && n <= |actual|
  {
    exists k :: 0 <= k < n && DemandsOfPair(degree, declared[k], actual[k]).Mismatch?
  }

  ghost predicate SomeDemands(degree: nat, declared: seq<Type>, actual: seq<Option<Type>>, n: nat, fact: Fact)
    requires n <= |declared| && n <= |actual|
  {
    exists k :: 0 <= k < n && fact in Facts1(DemandsOfPair(degree, declared[k], actual[k]))
  }

  function Facts1(d: Demands): set<Fact> {
    if d.Demands? then d.facts else {}
  }

  lemma {:induction false} DemandsAreTheUnion(degree: nat, declared: seq<Type>, actual: seq<Option<Type>>, n: nat)
    requires n <= |declared| && n <= |actual|
    ensures DemandsOfArguments(degree, declared, actual, n).Mismatch? <==> SomeMismatch(degree, declared, actual, n)
    ensures DemandsOfArguments(degree, declared, actual, n).Demands? ==>
              forall fact :: fact in DemandsOfArguments(degree, declared, actual, n).facts <==>
                             SomeDemands(degree, declared, actual, n, fact)
  {
    hide DemandsOfPair;
    if n > 0 {
      DemandsAreTheUnion(degree, declared, actual, n - 1);
      var last := DemandsOfPair(degree, declared[n - 1], actual[n - 1]);
      assert SomeMismatch(degree, declared, actual, n) <==> SomeMismatch(degree, declared, actual, n - 1) || last.Mismatch?;
      forall fact
        ensures SomeDemands(degree, declared, actual, n, fact) <==>
                SomeDemands(degree, declared, actual, n - 1, fact) || fact in Facts1(last)
      {
      }
    }
  }

  ghost predicate SamePairs(declared: seq<Type>, actual: seq<Option<Type>>, declared': seq<Type>, actual': seq<Option<Type>>)
    requires |declared| == |actual| && |declared'| == |actual'|
  {
    && (forall k :: 0 <= k < |declared| ==> exists j :: 0 <= j < |declared'| && declared'[j] == declared[k] && actual'[j] == actual[k])
    && (forall j :: 0 <= j < |declared'| ==> exists k :: 0 <= k < |declared| && declared'[j] == declared[k] && actual'[j] == actual[k])
  }

  /** Only the set of (declared, actual) pairs matters, not their order or number. */
  lemma OrderDoesNotMatter(degree: nat, declared: seq<Type>, actual: seq<Option<Type>>,
                           declared': seq<Type>, actual': seq<Option<Type>>, result: Option<Type>, expected: Option<Type>)
    requires |declared| == |actual| && |declared'| == |actual'| && SamePairs(declared, actual, declared', actual')
    ensures DemandsOfCall(degree, declared, actual, result, expected) == DemandsOfCall(degree, declared', actual', result, expected)
  {
    hide DemandsOfPair, DemandsOfArguments;
    var n, n' := |declared|, |declared'|;
    DemandsAreTheUnion(degree, declared, actual, n);
    DemandsAreTheUnion(degree, declared', actual', n');
    assert SomeMismatch(degree, declared, actual, n) <==> SomeMismatch(degree, declared', actual', n');
    forall fact
      ensures SomeDemands(degree, declared, actual, n, fact) <==> SomeDemands(degree, declared', actual', n', fact)
    {
    }
    var d, d' := DemandsOfArguments(degree, declared, actual, n), DemandsOfArguments(degree, declared', actual', n');
    assert d.Demands? ==> d.facts == d'.facts;
  }

  /** `f(T, T)` called with two arguments: only one entry for both is accepted, and it is the answer. */
  lemma {:induction false} TwiceTheSameIff(a: Type, b: Type, out: seq<Type>)
    requires FewQualifiers(a) && FewQualifiers(b)
    ensures DemandsOfCall(1, [Generic(0), Generic(0)], [Some(a), Some(b)], None, None) == Demands(Bindings(out))
            <==> out == [Bare(a)] && Bare(a) == Bare(b)
  {
    var declared, actual := [Generic(0), Generic(0)], [Some(a), Some(b)];
    var d := DemandsOfCall(1, declared, actual, None, None);
    assert DemandsOfArguments(1, declared, actual, 0) == Demands({});
    assert DemandsOfArguments(1, declared, actual, 1) == Both(Demands({}), DemandsOfPair(1, Generic(0), Some(a)));
    assert DemandsOfArguments(1, declared, actual, 2) ==
      Both(DemandsOfArguments(1, declared, actual, 1), DemandsOfPair(1, Generic(0), Some(b)));
    assert d == Demands({(0, Bare(a)), (0, Bare(b))});
    assert (0, Bare(a)) in d.facts && (0, Bare(b)) in d.facts;
    if |out| == 1 {
      assert Bindings(out) == {(0, out[0])};
    } else if |out| > 1 {
      assert (1, out[1]) in Bindings(out);
    }
  }

  /** So two types that look alike but are different entries are refused: `f(T, T)` of two `*i32`. */
  lemma SeparateEntriesConflict(i32: Type, one: nat, two: nat, out: seq<Type>)
    requires one != two && i32.Prim?
    ensures ShapeOf(Pointer(one, i32)) == ShapeOf(Pointer(two, i32))
    ensures var args := [Some(Pointer(one, i32)), Some(Pointer(two, i32))];
            DemandsOfCall(1, [Generic(0), Generic(0)], args, None, None) != Demands(Bindings(out))
  {
    assert FewQualifiers(i32);
    TwiceTheSameIff(Pointer(one, i32), Pointer(two, i32), out);
  }

  // ---- which parameters occur ----

  function Params(t: Type): set<nat>
    decreases t
  {
    match t
    case Prim(_) => {}
    case Generic(index) => {index}
    case Pointer(_, pointee) => Params(pointee)
    case Optional(_, inner) => Params(inner)
    case Array(_, element, _) => Params(element)
    case Slice(_, element) => Params(element)
    case Function(_, params, result) => ParamsOfAll(params) + Params(result)
    case Failable(_, inner) => Params(inner)
    case Sum(_, members) => ParamsOfAll(members)
    case Qualified(_, inner, _, _) => Params(inner)
  }

  function ParamsOfAll(ts: seq<Type>): set<nat>
    decreases ts
  {
    if ts == [] then {} else ParamsOfAll(ts[..|ts| - 1]) + Params(ts[|ts| - 1])
  }

  lemma {:induction false} ParamsOfEach(ts: seq<Type>)
    ensures forall i :: i in ParamsOfAll(ts) <==> exists k :: 0 <= k < |ts| && i in Params(ts[k])
    decreases ts
  {
    hide Params;
    if ts != [] {
      var front := ts[..|ts| - 1];
      ParamsOfEach(front);
      forall i
        ensures i in ParamsOfAll(ts) <==> exists k :: 0 <= k < |ts| && i in Params(ts[k])
      {
        if i in ParamsOfAll(front) {
          var k :| 0 <= k < |front| && i in Params(front[k]);
          assert ts[k] == front[k];
        }
        if exists k :: 0 <= k < |ts| && i in Params(ts[k]) {
          var k :| 0 <= k < |ts| && i in Params(ts[k]);
          assert k < |front| ==> front[k] == ts[k];
        }
      }
    }
  }

  lemma ParamsOfParts(t: Type)
    requires !t.Generic?
    ensures Params(t) == ParamsOfAll(Parts(t))
  {
    var parts := Parts(t);
    if t.Function? {
      assert parts[..|parts| - 1] == t.params;
    } else if |parts| == 1 {
      assert ParamsOfAll(parts[..0]) == {};
    }
  }

  lemma {:induction false} ParamsBare(t: Type)
    ensures Params(Bare(t)) == Params(t)
    decreases t
  {
    if t.Qualified? {
      ParamsBare(t.inner);
    }
  }

  /** For a type shallow enough the walk finds a parameter exactly when there is one. */
  lemma {:induction false} MentionsIff(t: Type, depth: nat)
    requires FewQualifiers(t) && Shallow(t, depth)
    ensures MentionsGeneric(t, depth) <==> Params(t) != {}
    decreases t
  {
    hide Params, ParamsOfAll;
    var s := Strip(t);
    FewQualifiersInside(t);
    ShallowBare(t, depth);
    ParamsBare(t);
    if s.Generic? {
      GenericParams(s);
    } else {
      ParamsOfParts(s);
      ParamsOfEach(Parts(s));
      forall k | 0 <= k < |Parts(s)|
        ensures MentionsGeneric(Parts(s)[k], depth + 1) <==> Params(Parts(s)[k]) != {}
      {
        MentionsIff(Parts(s)[k], depth + 1);
      }
      if Params(s) != {} {
        var i :| i in Params(s);
      }
      if MentionsGeneric(t, depth) {
        var k :| 0 <= k < |Parts(s)| && MentionsGeneric(Parts(s)[k], depth + 1);
        var i :| i in Params(Parts(s)[k]);
        assert i in ParamsOfAll(Parts(s));
      }
    }
  }

  lemma GenericParams(t: Type)
    requires t.Generic?
    ensures Params(t) == {t.index}
  {
  }

  lemma {:induction false} ShallowBare(t: Type, depth: nat)
    requires Shallow(t, depth)
    ensures Shallow(Bare(t), depth) && depth < 16
    decreases t
  {
    if t.Qualified? {
      ShallowBare(t.inner, depth);
    }
  }

  // ---- inference undoes substitution ----

  predicate Ground(args: seq<Type>) {
    forall i :: 0 <= i < |args| ==> Params(args[i]) == {}
  }

  predicate Below(indices: set<nat>, degree: nat) {
    forall i :: i in indices ==> i < degree
  }

  /** The bindings of some of the parameters, without qualifiers. */
  function BareBindings(args: seq<Type>, indices: set<nat>): set<Fact> {
    set i | i in indices && i < |args| :: (i, Bare(args[i]))
  }

  ghost predicate IsSubstitute(t: Type, args: seq<Type>, a: Type) {
    exists next :: Substitute(t, args, next).0 == a
  }

  lemma {:induction false} SubstituteAllAt(ts: seq<Type>, args: seq<Type>, next: nat, k: nat)
    requires k < |ts|
    ensures IsSubstitute(ts[k], args, SubstituteAll(ts, args, next).0[k])
    decreases ts
  {
    var (t, n) := Substitute(ts[0], args, next);
    assert SubstituteAll(ts, args, next).0 == [t] + SubstituteAll(ts[1..], args, n).0;
    if k > 0 {
      SubstituteAllAt(ts[1..], args, n, k - 1);
    }
  }

  lemma {:induction false} GroundSubstitute(t: Type, args: seq<Type>, a: Type)
    requires IsSubstitute(t, args, a) && Ground(args) && Below(Params(t), |args|)
    ensures Params(a) == {}
    decreases t
  {
    var next :| Substitute(t, args, next).0 == a;
    if !t.Generic? {
      var parts, out := Parts(t), Parts(a);
      PartsSubstituted(t, args, next);
      ParamsOfParts(t);
      ParamsOfEach(parts);
      ParamsOfParts(a);
      ParamsOfEach(out);
      forall k | 0 <= k < |out|
        ensures Params(out[k]) == {}
      {
        forall i | i in Params(parts[k])
          ensures i < |args|
        {
          assert i in ParamsOfAll(parts);
        }
        GroundSubstitute(parts[k], args, out[k]);
      }
    }
  }

  /** Substitution goes part by part. */
  lemma PartsSubstituted(t: Type, args: seq<Type>, next: nat)
    requires !t.Generic?
    ensures var a := Substitute(t, args, next).0;
            && !a.Generic? && (a.Qualified? <==> t.Qualified?)
            && |Parts(a)| == |Parts(t)|
            && forall k :: 0 <= k < |Parts(t)| ==> IsSubstitute(Parts(t)[k], args, Parts(a)[k])
  {
    match t
    case Function(_, params, result) =>
      var a := Substitute(t, args, next).0;
      forall k | 0 <= k < |params|
        ensures IsSubstitute(params[k], args, a.params[k])
      {
        SubstituteAllAt(params, args, next, k);
      }
      assert a.result == Substitute(result, args, SubstituteAll(params, args, next).1).0;
      assert IsSubstitute(result, args, a.result);
    case Sum(_, members) =>
      var a := Substitute(t, args, next).0;
      forall k | 0 <= k < |members|
        ensures IsSubstitute(members[k], args, a.members[k])
      {
        SubstituteAllAt(members, args, next, k);
      }
    case Prim(_) =>
    case Generic(_) =>
    case Pointer(_, pointee) => assert IsSubstitute(pointee, args, Substitute(pointee, args, next).0);
    case Optional(_, inner) => assert IsSubstitute(inner, args, Substitute(inner, args, next).0);
    case Array(_, element, _) => assert IsSubstitute(element, args, Substitute(element, args, next).0);
    case Slice(_, element) => assert IsSubstitute(element, args, Substitute(element, args, next).0);
    case Failable(_, inner) => assert IsSubstitute(inner, args, Substitute(inner, args, next).0);
    case Qualified(_, inner, _, _) => assert IsSubstitute(inner, args, Substitute(inner, args, next).0);
  }

  /** A substitute of a type is, without its qualifiers, a substitute of the bare type without them. */
  lemma {:induction false} BareSubstitute(t: Type, args: seq<Type>, next: nat)
    ensures Bare(Substitute(t, args, next).0) == Bare(Substitute(Bare(t), args, next).0)
    decreases t
  {
    if t.Qualified? {
      BareSubstitute(t.inner, args, next);
    }
  }

  lemma {:induction false} ShallowHigher(t: Type, depth: nat, lower: nat)
    requires Shallow(t, depth) && lower <= depth
    ensures Shallow(t, lower)
    decreases t
  {
    if t.Qualified? {
      ShallowHigher(t.inner, depth, lower);
    } else {
      forall k | 0 <= k < |Parts(t)|
        ensures Shallow(Parts(t)[k], lower + 1)
      {
        ShallowHigher(Parts(t)[k], depth + 1, lower + 1);
      }
    }
  }

  /** What is asked of a declared type and its argument below. */
  ghost predicate Substituted(degree: nat, t: Type, args: seq<Type>, a: Type) {
    && IsSubstitute(t, args, a)
    && |args| == degree && Ground(args) && Below(Params(t), degree)
    && FewQualifiers(t) && FewQualifiers(a) && Shallow(t, 0)
  }

  ghost predicate AllSubstituted(degree: nat, ts: seq<Type>, args: seq<Type>, actual: seq<Type>) {
    |ts| == |actual| && forall k :: 0 <= k < |ts| ==> Substituted(degree, ts[k], args, actual[k])
  }

  /** The bare substitute of a compound type has substitutes for parts. */
  lemma {:induction false} SubstitutedParts(degree: nat, t: Type, args: seq<Type>, a: Type)
    requires Substituted(degree, t, args, a) && !Bare(t).Generic?
    ensures var p, b := Bare(t), Bare(a);
            AllSubstituted(degree, Parts(p), args, Parts(b)) && IsSubstitute(p, args, b) && Params(b) == {}
  {
    var p, b := Bare(t), Bare(a);
    var next :| Substitute(t, args, next).0 == a;
    BareSubstitute(t, args, next);
    PartsSubstituted(p, args, next);
    assert b == Substitute(p, args, next).0;
    FewQualifiersInside(t);
    FewQualifiersInside(a);
    ShallowBare(t, 0);
    ParamsBare(t);
    ParamsOfParts(p);
    ParamsOfEach(Parts(p));
    GroundSubstitute(p, args, b);
    forall k | 0 <= k < |Parts(p)|
      ensures Substituted(degree, Parts(p)[k], args, Parts(b)[k])
    {
      ShallowHigher(Parts(p)[k], 1, 0);
      assert forall i :: i in Params(Parts(p)[k]) ==> i in ParamsOfAll(Parts(p));
    }
  }

  /** Substitution keeps the kind, the size and the number of parts. */
  lemma SameKind(p: Type, args: seq<Type>, b: Type)
    requires IsSubstitute(p, args, b) && !p.Generic? && !p.Qualified?
    ensures (p.Prim? <==> b.Prim?) && (p.Pointer? <==> b.Pointer?) && (p.Optional? <==> b.Optional?)
    ensures (p.Array? <==> b.Array?) && (p.Array? ==> p.size == b.size)
    ensures (p.Slice? <==> b.Slice?) && (p.Failable? <==> b.Failable?)
    ensures (p.Function? <==> b.Function?) && (p.Function? ==> |p.params| == |b.params|)
    ensures (p.Sum? <==> b.Sum?) && (p.Sum? ==> |p.members| == |b.members|)
    ensures p.Prim? ==> b == p
  {
  }

  /**
   * Matching a declared type against what substitution made of it demands exactly the bindings that
   * were substituted, for the parameters that occur in it.
   */
  lemma {:induction false} DemandsOfSubstitute(degree: nat, t: Type, args: seq<Type>, a: Type)
    requires Substituted(degree, t, args, a)
    ensures DemandsOf(degree, t, a) == Demands(BareBindings(args, Params(t)))
    decreases t, 2
  {
    hide Substitute, DemandsOfStripped, MentionsGeneric, Shallow, FewQualifiers;
    MentionsIff(t, 0);
    if Params(t) != {} {
      StrippedIsBare(t);
      StrippedIsBare(a);
      ParamsBare(t);
      var p, b := Bare(t), Bare(a);
      if IsBorrow(p) {
        SubstitutedParts(degree, t, args, a);
        SameKind(p, args, b);
        assert Parts(p)[0] == p.pointee && Parts(b)[0] == b.pointee;
        StrippedIsBare(p.pointee);
        StrippedIsBare(b.pointee);
        DemandsOfBareSubstitute(degree, p.pointee, args, b.pointee);
      } else {
        DemandsOfBareSubstitute(degree, t, args, a);
      }
    }
  }

  lemma StrippedIsBare(t: Type)
    requires FewQualifiers(t)
    ensures Strip(t) == Bare(t) && Strip(Bare(t)) == Bare(t)
  {
  }

  lemma {:induction false} DemandsOfBareSubstitute(degree: nat, t: Type, args: seq<Type>, a: Type)
    requires Substituted(degree, t, args, a) && Params(t) != {}
    ensures DemandsOfStripped(degree, Bare(t), Bare(a)) == Demands(BareBindings(args, Params(t)))
    decreases t, 1
  {
    hide Params, Substitute, DemandsOf, DemandsOfAll, Shallow, FewQualifiers;
    var p, b := Bare(t), Bare(a);
    ParamsBare(t);
    if p.Generic? {
      BareParameter(t, args, a);
    } else {
      SubstitutedParts(degree, t, args, a);
      SameKind(p, args, b);
      var ps, bs := Parts(p), Parts(b);
      ParamsOfParts(p);
      if p.Function? {
        assert ps[..|p.params|] == p.params && bs[..|p.params|] == b.params;
        assert ps[|p.params|] == p.result && bs[|p.params|] == b.result;
        assert forall k :: 0 <= k < |p.params| ==> p.params[k] == ps[k] && b.params[k] == bs[k];
        DemandsOfAllSubstitutes(degree, p.params, args, b.params);
        DemandsOfSubstitute(degree, p.result, args, b.result);
      } else if p.Sum? {
        DemandsOfAllSubstitutes(degree, p.members, args, b.members);
      } else if |ps| == 1 {
        DemandsOfSubstitute(degree, ps[0], args, bs[0]);
      }
    }
  }

  lemma BareParameter(t: Type, args: seq<Type>, a: Type)
    requires IsSubstitute(t, args, a) && Bare(t).Generic? && Below(Params(t), |args|)
    ensures Params(t) == {Bare(t).index} && Bare(a) == Bare(args[Bare(t).index])
  {
    var next :| Substitute(t, args, next).0 == a;
    ParamsBare(t);
    assert Bare(t).index in Params(t);
    BareSubstitute(t, args, next);
  }

  lemma {:induction false} DemandsOfAllSubstitutes(degree: nat, ts: seq<Type>, args: seq<Type>, actual: seq<Type>)
    requires AllSubstituted(degree, ts, args, actual)
    ensures DemandsOfAll(degree, ts, actual) == Demands(BareBindings(args, ParamsOfAll(ts)))
    decreases ts, 3
  {
    hide Params, Substitute, DemandsOf, Shallow, FewQualifiers;
    if ts != [] {
      var n := |ts| - 1;
      DemandsOfAllSubstitutes(degree, ts[..n], args, actual[..n]);
      DemandsOfSubstitute(degree, ts[n], args, actual[n]);
    }
  }

  // ---- arguments that stand for more than themselves ----

  /** What is left when the optional layers are taken off. */
  function Unwrapped(t: Type): Type
    decreases t
  {
    if Bare(t).Optional? then Unwrapped(Bare(t).inner) else t
  }

  /** A pointer to something lent or viewed. */
  predicate IsLent(t: Type) {
    match t
    case Pointer(_, Qualified(_, _, Lend, _)) => true
    case Pointer(_, Qualified(_, _, View, _)) => true
    case _ => false
  }

  /** No function or sum occurs in the type. */
  predicate NoCallables(t: Type)
    decreases t
  {
    !t.Function? && !t.Sum? && forall k :: 0 <= k < |Parts(t)| ==> NoCallables(Parts(t)[k])
  }

  /** The argument is what substitution makes of the type, or of what is inside its optional layers. */
  ghost predicate Fills(degree: nat, t: Type, args: seq<Type>, a: Type) {
    || Substituted(degree, t, args, a)
    || (Bare(t).Optional? && !Bare(a).Optional? && NoCallables(Unwrapped(t)) && Substituted(degree, Unwrapped(t), args, a))
  }

  /** The same, where the argument may also be what a borrow points to. */
  ghost predicate StandsFor(degree: nat, t: Type, args: seq<Type>, a: Type) {
    && Below(Params(t), degree) && FewQualifiers(t) && Shallow(t, 0)
    && (Fills(degree, t, args, a) || (IsLent(Bare(t)) && !Bare(a).Pointer? && Fills(degree, Bare(t).pointee, args, a)))
  }

  lemma {:induction false} UnwrappedIsPeeled(t: Type)
    requires FewQualifiers(t)
    ensures Unwrapped(t) == Peel(t) && Params(Unwrapped(t)) == Params(t) && FewQualifiers(Unwrapped(t))
    decreases t
  {
    hide FewQualifiers;
    StrippedIsBare(t);
    ParamsBare(t);
    StrippedInside(t);
    if Bare(t).Optional? {
      UnwrappedIsPeeled(Bare(t).inner);
    }
  }

  /** Inside optional layers a substitute is matched too, as long as it holds no function and no sum. */
  lemma {:induction false} ProbeOfSubstitute(degree: nat, t: Type, args: seq<Type>, a: Type)
    requires Substituted(degree, t, args, a) && NoCallables(t)
    ensures ProbeDemands(degree, t, a) == Demands(BareBindings(args, Params(t)))
    decreases t
  {
    hide Params, Substitute, Shallow, FewQualifiers;
    StrippedIsBare(t);
    StrippedIsBare(a);
    ParamsBare(t);
    NoCallablesBare(t);
    var p, b := Bare(t), Bare(a);
    if p.Generic? {
      BareParameter(t, args, a);
    } else {
      SubstitutedParts(degree, t, args, a);
      SameKind(p, args, b);
      ParamsOfParts(p);
      if |Parts(p)| == 1 {
        ProbeOfSubstitute(degree, Parts(p)[0], args, Parts(b)[0]);
      }
    }
  }

  lemma {:induction false} NoCallablesBare(t: Type)
    ensures NoCallables(Bare(t)) <==> NoCallables(t)
    decreases t
  {
    if t.Qualified? {
      assert Parts(t) == [t.inner] && Parts(t)[0] == t.inner;
      NoCallablesBare(t.inner);
    }
  }

  /** All entries of the type are older than the next one to be made. */
  predicate Older(t: Type, next: nat)
    decreases t
  {
    (!t.Generic? ==> t.entry < next) && forall k :: 0 <= k < |Parts(t)| ==> Older(Parts(t)[k], next)
  }

  lemma {:induction false} OlderBare(t: Type, next: nat)
    requires Older(t, next)
    ensures Older(Bare(t), next)
    decreases t
  {
    if t.Qualified? {
      assert Parts(t)[0] == t.inner;
      OlderBare(t.inner, next);
    }
  }

  /** With entries as they are made, the condition is exact: an argument with a function or a sum in it does
      not stand for what is inside optional layers, not even where the same one is declared. */
  lemma {:induction false} ProbeOfSubstituteIff(degree: nat, t: Type, args: seq<Type>, next: nat)
    requires Substituted(degree, t, args, Substitute(t, args, next).0) && Older(t, next)
    ensures ProbeDemands(degree, t, Substitute(t, args, next).0).Demands? <==> NoCallables(t)
    decreases t
  {
    hide Params, Substitute, Shallow, FewQualifiers;
    var a := Substitute(t, args, next).0;
    StrippedIsBare(t);
    StrippedIsBare(a);
    ParamsBare(t);
    NoCallablesBare(t);
    OlderBare(t, next);
    BareSubstitute(t, args, next);
    var p, b := Bare(t), Bare(a);
    if p.Generic? {
      BareParameter(t, args, a);
    } else {
      SubstitutedParts(degree, t, args, a);
      SameKind(p, args, b);
      PartSubstituted(p, args, next);
      if |Parts(p)| == 1 && !p.Function? && !p.Sum? {
        ProbeOfSubstituteIff(degree, Parts(p)[0], args, next);
      }
    }
  }

  /** Substitution makes a new entry for a compound type, after those of its parts. */
  lemma PartSubstituted(p: Type, args: seq<Type>, next: nat)
    requires !p.Generic? && !p.Qualified?
    ensures Bare(Substitute(p, args, next).0) == Substitute(p, args, next).0
    ensures p.Prim? || Substitute(p, args, next).0.entry >= next
    ensures !p.Prim? && !p.Function? && !p.Sum? ==>
              Parts(p) != [] && Parts(Substitute(p, args, next).0) == [Substitute(Parts(p)[0], args, next).0]
  {
  }

  lemma {:induction false} DemandsOfFilling(degree: nat, t: Type, args: seq<Type>, a: Type)
    requires Fills(degree, t, args, a) && FewQualifiers(t) && Params(t) != {}
    ensures DemandsOfStripped(degree, Bare(t), Bare(a)) == Demands(BareBindings(args, Params(t)))
  {
    hide Params, Shallow, FewQualifiers, MentionsGeneric, DemandsOfParts, IsSubstitute;
    if Substituted(degree, t, args, a) {
      DemandsOfBareSubstitute(degree, t, args, a);
    } else {
      StrippedIsBare(t);
      StrippedIsBare(a);
      UnwrappedIsPeeled(t);
      ProbeOfSubstitute(degree, Unwrapped(t), args, a);
    }
  }

  /** An argument that stands for its declared type demands exactly what was substituted. */
  lemma {:induction false} DemandsOfStanding(degree: nat, t: Type, args: seq<Type>, a: Type)
    requires StandsFor(degree, t, args, a) && FewQualifiers(a)
    ensures DemandsOf(degree, t, a) == Demands(BareBindings(args, Params(t)))
  {
    hide FewQualifiers, DemandsOfStripped, MentionsGeneric, IsSubstitute;
    MentionsIff(t, 0);
    StrippedIsBare(t);
    StrippedIsBare(a);
    ParamsBare(t);
    if Params(t) != {} {
      var p := Bare(t);
      if Substituted(degree, t, args, a) {
        DemandsOfSubstitute(degree, t, args, a);
      } else if IsLent(p) {
        StrippedInside(t);
        StrippedIsBare(p.pointee);
        DemandsOfFilling(degree, p.pointee, args, a);
      } else {
        DemandsOfFilling(degree, t, args, a);
      }
    }
  }

  function Bares(args: seq<Type>): (r: seq<Type>)
    ensures |r| == |args| && forall i :: 0 <= i < |r| ==> r[i] == Bare(args[i])
  {
    seq(|args|, i requires 0 <= i < |args| => Bare(args[i]))
  }

  /** Each argument stands for the declared type at its place, under one choice. */
  ghost predicate CallFilled(degree: nat, declared: seq<Type>, args: seq<Type>, actual: seq<Option<Type>>) {
    && |declared| == |actual|
    && forall k :: 0 <= k < |declared| ==>
         actual[k].Some? && FewQualifiers(actual[k].value) && StandsFor(degree, declared[k], args, actual[k].value)
  }

  /** Each argument is what substitution made of the declared type at its place. */
  ghost predicate CallSubstituted(degree: nat, declared: seq<Type>, args: seq<Type>, actual: seq<Option<Type>>) {
    && |declared| == |actual|
    && forall k :: 0 <= k < |declared| ==> actual[k].Some? && Substituted(degree, declared[k], args, actual[k].value)
  }

  lemma {:induction false} DemandsOfFillingArguments(degree: nat, declared: seq<Type>, args: seq<Type>, actual: seq<Option<Type>>, n: nat)
    requires CallFilled(degree, declared, args, actual) && n <= |declared|
    ensures DemandsOfArguments(degree, declared, actual, n) == Demands(BareBindings(args, ParamsOfAll(declared[..n])))
  {
    hide Params, StandsFor, DemandsOf, FewQualifiers;
    if n > 0 {
      DemandsOfFillingArguments(degree, declared, args, actual, n - 1);
      DemandsOfStanding(degree, declared[n - 1], args, actual[n - 1].value);
      assert declared[..n][..n - 1] == declared[..n - 1];
    }
  }

  lemma BindingsOfSome(degree: nat, args: seq<Type>, indices: set<nat>, out: seq<Type>)
    requires |args| == degree == |out| && Below(indices, degree)
    ensures BareBindings(args, indices) == Bindings(out) <==> out == Bares(args) && forall i :: 0 <= i < degree ==> i in indices
  {
    if BareBindings(args, indices) == Bindings(out) {
      forall i | 0 <= i < degree
        ensures i in indices && out[i] == Bare(args[i])
      {
        assert (i, out[i]) in Bindings(out);
      }
    }
    if out == Bares(args) && forall i :: 0 <= i < degree ==> i in indices {
      forall f
        ensures f in BareBindings(args, indices) <==> f in Bindings(out)
      {
      }
    }
  }

  /**
   * If every argument of a call stands for its declared type, with one choice of ground types, inference
   * answers exactly that choice, without qualifiers, provided every parameter occurs somewhere; if one
   * occurs nowhere it gives no answer.
   */
  lemma {:induction false} InferenceInvertsCoercion(degree: nat, declared: seq<Type>, args: seq<Type>, actual: seq<Option<Type>>,
                                                    result: Option<Type>, expected: Option<Type>, out: seq<Type>)
    requires |args| == degree == |out| && CallFilled(degree, declared, args, actual)
    requires result.Some? && expected.Some? ==> FewQualifiers(expected.value) && StandsFor(degree, result.value, args, expected.value)
    ensures var occurring := ParamsOfAll(declared) + (if result.Some? && expected.Some? then Params(result.value) else {});
            DemandsOfCall(degree, declared, actual, result, expected) == Demands(Bindings(out)) <==>
            out == Bares(args) && forall i :: 0 <= i < degree ==> i in occurring
  {
    hide Params, DemandsOf, Fills, FewQualifiers, Shallow, IsLent;
    var n := |declared|;
    var ofResult := if result.Some? && expected.Some? then Params(result.value) else {};
    DemandsOfFillingArguments(degree, declared, args, actual, n);
    assert declared[..n] == declared;
    ParamsOfEach(declared);
    if result.Some? && expected.Some? {
      DemandsOfStanding(degree, result.value, args, expected.value);
    } else {
      assert BareBindings(args, {}) == {};
    }
    BindingsOfSome(degree, args, ParamsOfAll(declared) + ofResult, out);
  }

  /** In particular if every argument is exactly what substitution made of its declared type. */
  lemma {:induction false} InferenceInvertsSubstitution(degree: nat, declared: seq<Type>, args: seq<Type>, actual: seq<Option<Type>>,
                                                        result: Option<Type>, expected: Option<Type>, out: seq<Type>)
    requires |args| == degree == |out| && CallSubstituted(degree, declared, args, actual)
    requires result.Some? && expected.Some? ==> Substituted(degree, result.value, args, expected.value)
    ensures var occurring := ParamsOfAll(declared) + (if result.Some? && expected.Some? then Params(result.value) else {});
            DemandsOfCall(degree, declared, actual, result, expected) == Demands(Bindings(out)) <==>
            out == Bares(args) && forall i :: 0 <= i < degree ==> i in occurring
  {
    hide Params, DemandsOfCall, FewQualifiers, Shallow, IsLent, IsSubstitute, Bindings, Bares;
    InferenceInvertsCoercion(degree, declared, args, actual, result, expected, out);
  }

  // ---- what inference does not check ----

  /** The concrete parts of a declared type look like what they stand opposite. */
  predicate Agrees(t: Type, a: Type)
    decreases t
  {
    var p, b := Bare(t), Bare(a);
    match p
    case Prim(_) => b == p
    case Generic(_) => true
    case Pointer(_, pointee) => b.Pointer? && Agrees(pointee, b.pointee)
    case Optional(_, inner) => b.Optional? && Agrees(inner, b.inner)
    case Array(_, element, size) => b.Array? && b.size == size && Agrees(element, b.element)
    case Slice(_, element) => b.Slice? && Agrees(element, b.element)
    case Function(_, params, result) =>
      b.Function? && |b.params| == |params| && (forall k :: 0 <= k < |params| ==> Agrees(params[k], b.params[k])) && Agrees(result, b.result)
    case Failable(_, inner) => b.Failable? && Agrees(inner, b.inner)
    case Sum(_, members) => b.Sum? && |b.members| == |members| && forall k :: 0 <= k < |members| ==> Agrees(members[k], b.members[k])
  }

  lemma {:induction false} ShapeOfBare(t: Type)
    ensures ShapeOf(Bare(t)) == ShapeOf(t)
    decreases t
  {
    if t.Qualified? {
      ShapeOfBare(t.inner);
    }
  }

  /** Part by part the two are the same entry or of one kind, and each parameter is bound to the very
      entry it stands opposite, without its outer qualifiers. */
  predicate Exactly(t: Type, a: Type, args: seq<Type>)
    decreases t
  {
    var p, b := Bare(t), Bare(a);
    (p.Generic? && p.index < |args| && args[p.index] == b)
    || (!p.Generic? && p == b)
    || match p
       case Pointer(_, pointee) => b.Pointer? && Exactly(pointee, b.pointee, args)
       case Optional(_, inner) => b.Optional? && Exactly(inner, b.inner, args)
       case Array(_, element, size) => b.Array? && b.size == size && Exactly(element, b.element, args)
       case Slice(_, element) => b.Slice? && Exactly(element, b.element, args)
       case Failable(_, inner) => b.Failable? && Exactly(inner, b.inner, args)
       case _ => false
  }

  /**
   * Each parameter the type mentions is bound to the very entry it stands opposite, without its outer
   * qualifiers. An argument that is not a pointer may stand for what a borrow points to, and an argument
   * that is not optional for what is inside all the optional layers, but then it is exactly that.
   */
  predicate Opposite(t: Type, a: Type, args: seq<Type>)
    decreases t
  {
    Params(t) == {} ||
    var p, b := Bare(t), Bare(a);
    match p
    case Prim(_) => true
    case Generic(index) => index < |args| && args[index] == b
    case Pointer(_, pointee) => if b.Pointer? then Opposite(pointee, b.pointee, args) else IsBorrow(p) && Opposite(pointee, b, args)
    case Optional(_, inner) =>
      if b.Optional? then Opposite(inner, b.inner, args)
      else Exactly(Peel(inner), b, args)
    case Array(_, element, size) => b.Array? && b.size == size && Opposite(element, b.element, args)
    case Slice(_, element) => b.Slice? && Opposite(element, b.element, args)
    case Function(_, params, result) =>
      b.Function? && |b.params| == |params| && (forall k :: 0 <= k < |params| ==> Opposite(params[k], b.params[k], args)) &&
      Opposite(result, b.result, args)
    case Failable(_, inner) => b.Failable? && Opposite(inner, b.inner, args)
    case Sum(_, members) => b.Sum? && |b.members| == |members| && forall k :: 0 <= k < |members| ==> Opposite(members[k], b.members[k], args)
  }

  lemma NoParamsInside(t: Type)
    requires Params(t) == {}
    ensures Params(Bare(t)) == {} && forall k :: 0 <= k < |Parts(Bare(t))| ==> Params(Parts(Bare(t))[k]) == {}
  {
    ParamsBare(t);
    var p := Bare(t);
    if p.Generic? {
      GenericParams(p);
    } else {
      ParamsOfParts(p);
      ParamsOfEach(Parts(p));
      forall k | 0 <= k < |Parts(p)|
        ensures Params(Parts(p)[k]) == {}
      {
        assert forall i :: i in Params(Parts(p)[k]) ==> i in ParamsOfAll(Parts(p));
      }
    }
  }

  /** Part by part, parameters stand opposite too, once the kinds match. */
  lemma PartsOpposite(t: Type, a: Type, args: seq<Type>)
    requires Opposite(t, a, args)
    ensures var p, b := Bare(t), Bare(a);
            && (p.Pointer? && b.Pointer? ==> Opposite(p.pointee, b.pointee, args))
            && ((p.Optional? && b.Optional?) || (p.Failable? && b.Failable?) ==> Opposite(p.inner, b.inner, args))
            && ((p.Array? && b.Array? && p.size == b.size) || (p.Slice? && b.Slice?) ==> Opposite(p.element, b.element, args))
            && (p.Function? && b.Function? && |p.params| == |b.params| ==>
                  (forall k :: 0 <= k < |p.params| ==> Opposite(p.params[k], b.params[k], args)) && Opposite(p.result, b.result, args))
            && (p.Sum? && b.Sum? && |p.members| == |b.members| ==>
                  forall k :: 0 <= k < |p.members| ==> Opposite(p.members[k], b.members[k], args))
  {
    hide Params;
    if Params(t) == {} {
      NoParamsInside(t);
      var p := Bare(t);
      var ps := Parts(p);
      if p.Function? {
        assert ps == p.params + [p.result];
        assert ps[|p.params|] == p.result && forall k :: 0 <= k < |p.params| ==> p.params[k] == ps[k];
      } else if p.Sum? {
        assert ps == p.members;
      } else if |ps| == 1 {
        assert Params(ps[0]) == {};
      }
    }
  }

  /** Given that, substituting gives a type that looks like the argument if and only if the concrete parts agree. */
  lemma {:induction false} SubstitutionGivesArgumentIff(t: Type, a: Type, args: seq<Type>)
    requires Opposite(t, a, args)
    ensures Instantiate(ShapeOf(t), ShapesOf(args)) == ShapeOf(a) <==> Agrees(t, a)
    decreases t
  {
    hide Opposite, Params, InstantiateAll, ShapesOf, Bare;
    ShapeOfBare(t);
    ShapeOfBare(a);
    PartsOpposite(t, a, args);
    var p, b := Bare(t), Bare(a);
    match p
    case Prim(_) =>
    case Generic(_) => GenericOpposite(t, a, args);
    case Pointer(_, pointee) => if b.Pointer? { SubstitutionGivesArgumentIff(pointee, b.pointee, args); }
    case Optional(_, inner) => if b.Optional? { SubstitutionGivesArgumentIff(inner, b.inner, args); }
    case Array(_, element, size) => if b.Array? && b.size == size { SubstitutionGivesArgumentIff(element, b.element, args); }
    case Slice(_, element) => if b.Slice? { SubstitutionGivesArgumentIff(element, b.element, args); }
    case Failable(_, inner) => if b.Failable? { SubstitutionGivesArgumentIff(inner, b.inner, args); }
    case Function(_, params, result) =>
      if b.Function? && |b.params| == |params| {
        AllSubstitutionsGiveArgumentsIff(params, b.params, args);
        SubstitutionGivesArgumentIff(result, b.result, args);
      }
    case Sum(_, members) =>
      if b.Sum? && |b.members| == |members| {
        AllSubstitutionsGiveArgumentsIff(members, b.members, args);
      }
  }

  lemma {:induction false} GenericOpposite(t: Type, a: Type, args: seq<Type>)
    requires Opposite(t, a, args) && Bare(t).Generic?
    ensures Bare(t).index < |args| && args[Bare(t).index] == Bare(a)
  {
    ParamsBare(t);
    GenericParams(Bare(t));
  }

  lemma {:induction false} AllSubstitutionsGiveArgumentsIff(ts: seq<Type>, actual: seq<Type>, args: seq<Type>)
    requires |ts| == |actual| && forall k :: 0 <= k < |ts| ==> Opposite(ts[k], actual[k], args)
    ensures InstantiateAll(ShapesOf(ts), ShapesOf(args)) == ShapesOf(actual) <==> forall k :: 0 <= k < |ts| ==> Agrees(ts[k], actual[k])
    decreases ts
  {
    hide Opposite, Params;
    var left, right := InstantiateAll(ShapesOf(ts), ShapesOf(args)), ShapesOf(actual);
    forall k | 0 <= k < |ts|
      ensures left[k] == right[k] <==> Agrees(ts[k], actual[k])
    {
      SubstitutionGivesArgumentIff(ts[k], actual[k], args);
    }
  }

  // ---- inference is sound ----

  /** A type without parameters is its own instance. */
  lemma {:induction false} GroundIsItsOwnInstance(t: Type, args: seq<Type>)
    requires Params(t) == {}
    ensures Instantiate(ShapeOf(t), ShapesOf(args)) == ShapeOf(t)
    decreases t
  {
    SelfAgrees(t);
    assert Opposite(t, t, args);
    SubstitutionGivesArgumentIff(t, t, args);
  }

  lemma {:induction false} SelfAgrees(t: Type)
    ensures Agrees(t, t)
    decreases t
  {
    var p := Bare(t);
    forall k | 0 <= k < |Parts(p)|
      ensures Agrees(Parts(p)[k], Parts(p)[k])
    {
      SelfAgrees(Parts(p)[k]);
    }
    match p
    case Function(_, params, result) =>
      assert forall k :: 0 <= k < |params| ==> Parts(p)[k] == params[k];
      assert Parts(p)[|params|] == result;
    case Sum(_, members) => assert Parts(p) == members;
    case Prim(_) =>
    case Generic(_) =>
    case Pointer(_, pointee) => assert Parts(p)[0] == pointee;
    case Optional(_, inner) => assert Parts(p)[0] == inner;
    case Array(_, element, _) => assert Parts(p)[0] == element;
    case Slice(_, element) => assert Parts(p)[0] == element;
    case Failable(_, inner) => assert Parts(p)[0] == inner;
  }

  /** What is known of a declared type and a ground argument. */
  ghost predicate Inferable(degree: nat, t: Type, a: Type) {
    Below(Params(t), degree) && Params(a) == {} && FewQualifiers(t) && FewQualifiers(a) && Shallow(t, 0)
  }

  /** So it is for their parts, where they have the same kind. */
  lemma {:induction false} InferableParts(degree: nat, t: Type, a: Type)
    requires Inferable(degree, t, a)
    ensures Inferable(degree, Bare(t), Bare(a))
    ensures forall j, k :: 0 <= j < |Parts(Bare(t))| && 0 <= k < |Parts(Bare(a))| ==> Inferable(degree, Parts(Bare(t))[j], Parts(Bare(a))[k])
    ensures forall j :: 0 <= j < |Parts(Bare(t))| ==> Inferable(degree, Parts(Bare(t))[j], Bare(a))
  {
    var p, b := Bare(t), Bare(a);
    FewQualifiersInside(t);
    FewQualifiersInside(a);
    ShallowBare(t, 0);
    ParamsBare(t);
    ParamsBare(a);
    NoParamsInside(a);
    if !p.Generic? {
      ParamsOfParts(p);
      ParamsOfEach(Parts(p));
      forall j | 0 <= j < |Parts(p)|
        ensures Below(Params(Parts(p)[j]), degree) && Shallow(Parts(p)[j], 0)
      {
        ShallowHigher(Parts(p)[j], 1, 0);
        assert forall i :: i in Params(Parts(p)[j]) ==> i in ParamsOfAll(Parts(p));
      }
    }
  }

  /**
   * Whether an argument may stand for a declared type at all. A type without parameters is not looked at;
   * what a borrow points to may stand for the borrow; and what is not optional may stand for what is inside
   * the optional layers, but then its concrete parts must be the same.
   */
  predicate Accepts(t: Type, a: Type)
    decreases t, 1
  {
    Params(t) == {} ||
    if IsLent(Bare(t)) then Meets(Bare(t).pointee, if Bare(a).Pointer? then Bare(a).pointee else Bare(a)) else Meets(t, a)
  }

  predicate Meets(t: Type, a: Type)
    decreases t, 0
  {
    var p, b := Bare(t), Bare(a);
    match p
    case Generic(_) => true
    case Prim(_) => p == b
    case Pointer(_, pointee) => b.Pointer? && Accepts(pointee, b.pointee)
    case Optional(_, inner) => if b.Optional? then Accepts(inner, b.inner) else FitsInside(Unwrapped(inner), b)
    case Array(_, element, size) => b.Array? && b.size == size && Accepts(element, b.element)
    case Slice(_, element) => b.Slice? && Accepts(element, b.element)
    case Failable(_, inner) => b.Failable? && Accepts(inner, b.inner)
    case Function(_, params, result) =>
      b.Function? && |b.params| == |params| && (forall k :: 0 <= k < |params| ==> Accepts(params[k], b.params[k])) && Accepts(result, b.result)
    case Sum(_, members) => b.Sum? && |b.members| == |members| && forall k :: 0 <= k < |members| ==> Accepts(members[k], b.members[k])
  }

  predicate FitsInside(t: Type, a: Type)
    decreases t
  {
    var p, b := Bare(t), Bare(a);
    p.Generic? || p == b ||
    match p
    case Pointer(_, pointee) => b.Pointer? && FitsInside(pointee, b.pointee)
    case Optional(_, inner) => b.Optional? && FitsInside(inner, b.inner)
    case Array(_, element, size) => b.Array? && b.size == size && FitsInside(element, b.element)
    case Slice(_, element) => b.Slice? && FitsInside(element, b.element)
    case Failable(_, inner) => b.Failable? && FitsInside(inner, b.inner)
    case _ => false
  }

  lemma {:induction false} ProbeFitsIff(degree: nat, t: Type, a: Type)
    requires Inferable(degree, t, a)
    ensures ProbeDemands(degree, t, a).Demands? <==> FitsInside(t, a)
    decreases t
  {
    hide Params, FewQualifiers, Shallow;
    StrippedIsBare(t);
    StrippedIsBare(a);
    InferableParts(degree, t, a);
    var p, b := Bare(t), Bare(a);
    if p.Generic? {
      IndexBelow(degree, p, b);
    } else if p != b && |Parts(p)| == 1 && |Parts(b)| == 1 {
      ProbeFitsIff(degree, Parts(p)[0], Parts(b)[0]);
    }
  }

  /** Inference finds a mismatch exactly where the argument may not stand for the declared type. */
  lemma {:induction false} AcceptedIff(degree: nat, t: Type, a: Type)
    requires Inferable(degree, t, a)
    ensures DemandsOf(degree, t, a).Demands? <==> Accepts(t, a)
    decreases t, 2
  {
    hide Params, FewQualifiers, Shallow, MentionsGeneric, DemandsOfStripped, Meets, Inferable, Parts;
    MentionsIffInferable(degree, t, a);
    InferableQualifiers(degree, t, a);
    StrippedIsBare(t);
    StrippedIsBare(a);
    if Params(t) != {} {
      if IsLent(Bare(t)) {
        LentAcceptedIff(degree, t, a);
      } else {
        MeetsIff(degree, t, a);
      }
    }
  }

  /** What a borrow points to is matched in place of the borrow. */
  lemma {:induction false} LentAcceptedIff(degree: nat, t: Type, a: Type)
    requires Inferable(degree, t, a) && IsLent(Bare(t)) && Params(t) != {}
    ensures var pointee, behind := Bare(t).pointee, if Bare(a).Pointer? then Bare(a).pointee else Bare(a);
      && Strip(pointee) == Bare(pointee) && Strip(behind) == Bare(behind) && Strip(Strip(behind)) == Bare(behind)
      && (DemandsOfStripped(degree, Bare(pointee), Bare(behind)).Demands? <==> Meets(pointee, behind))
    decreases t, 1
  {
    hide Params, FewQualifiers, Shallow, DemandsOfStripped, Meets, Inferable;
    var p, b := Bare(t), Bare(a);
    var behind := if b.Pointer? then b.pointee else b;
    InferableParts(degree, t, a);
    ParamsBare(t);
    assert Parts(p)[0] == p.pointee;
    assert b.Pointer? ==> Parts(b)[0] == b.pointee;
    InferableQualifiers(degree, p.pointee, behind);
    StrippedIsBare(p.pointee);
    StrippedIsBare(behind);
    LentParams(p);
    MeetsIff(degree, p.pointee, behind);
  }

  lemma LentParams(p: Type)
    requires p.Pointer?
    ensures Params(p) == Params(p.pointee)
  {
  }

  lemma {:induction false} MeetsIff(degree: nat, t: Type, a: Type)
    requires Inferable(degree, t, a) && Params(t) != {}
    ensures DemandsOfStripped(degree, Bare(t), Bare(a)).Demands? <==> Meets(t, a)
    decreases t, 1
  {
    hide Params, FewQualifiers, Shallow, DemandsOf, DemandsOfAll, Inferable, Accepts, FitsInside;
    var p, b := Bare(t), Bare(a);
    InferableParts(degree, t, a);
    ParamsBare(t);
    if p.Generic? {
      IndexBelow(degree, p, b);
    } else if p == b {
      GroundHasNoParams(degree, t, a);
    } else if p.Optional? && !b.Optional? {
      assert Parts(p)[0] == p.inner;
      PeelKeeps(degree, p.inner, b);
      InferableQualifiers(degree, p.inner, b);
      UnwrappedIsPeeled(p.inner);
      ProbeFitsIff(degree, Peel(p.inner), b);
    } else if p.Function? && b.Function? && |p.params| == |b.params| {
      FunctionParts(degree, p, b);
      AllAcceptedIff(degree, p.params, b.params);
      AcceptedIff(degree, p.result, b.result);
    } else if p.Sum? && b.Sum? && |p.members| == |b.members| {
      assert Parts(p) == p.members && Parts(b) == b.members;
      AllAcceptedIff(degree, p.members, b.members);
    } else if |Parts(p)| == 1 && |Parts(b)| == 1 {
      AcceptedIff(degree, Parts(p)[0], Parts(b)[0]);
    }
  }

  lemma InferableQualifiers(degree: nat, t: Type, a: Type)
    requires Inferable(degree, t, a)
    ensures FewQualifiers(t) && FewQualifiers(a)
  {
  }

  lemma {:induction false} AllAcceptedIff(degree: nat, ts: seq<Type>, actual: seq<Type>)
    requires |ts| == |actual| && forall k :: 0 <= k < |ts| ==> Inferable(degree, ts[k], actual[k])
    ensures DemandsOfAll(degree, ts, actual).Demands? <==> forall k :: 0 <= k < |ts| ==> Accepts(ts[k], actual[k])
    decreases ts, 3
  {
    hide Inferable, Accepts, DemandsOf;
    if ts != [] {
      var n := |ts| - 1;
      AllAcceptedIff(degree, ts[..n], actual[..n]);
      AcceptedIff(degree, ts[n], actual[n]);
      assert forall k :: 0 <= k < n ==> ts[..n][k] == ts[k] && actual[..n][k] == actual[k];
    }
  }

  /** The demands are met by these arguments. */
  ghost predicate Met(demands: Demands, out: seq<Type>) {
    demands.Demands? && demands.facts <= Bindings(out)
  }

  lemma MetParameter(out: seq<Type>, index: nat, a: Type)
    requires Met(Demands({(index, a)}), out)
    ensures index < |out| && out[index] == a
  {
    assert (index, a) in Bindings(out);
  }

  lemma BothMet(d1: Demands, d2: Demands, out: seq<Type>)
    requires Met(Both(d1, d2), out)
    ensures Met(d1, out) && Met(d2, out)
  {
  }

  lemma {:induction false} PeelKeeps(degree: nat, t: Type, a: Type)
    requires Inferable(degree, t, a)
    ensures Inferable(degree, Peel(t), a)
    decreases t
  {
    hide Params, FewQualifiers, Shallow;
    StrippedIsBare(t);
    if Strip(t).Optional? {
      PeelPart(degree, t, a);
      PeelKeeps(degree, Bare(t).inner, a);
    }
  }

  lemma {:induction false} PeelPart(degree: nat, t: Type, a: Type)
    requires Inferable(degree, t, a) && Bare(t).Optional?
    ensures Inferable(degree, Bare(t).inner, a)
  {
    InferableParts(degree, t, a);
    assert Parts(Bare(t))[0] == Bare(t).inner;
  }

  /** Inside peeled optional layers the parameters are bound to the argument's own parts, and substitution
      gives a type that looks like the argument. */
  lemma {:induction false} ProbeGivesArgument(degree: nat, t: Type, a: Type, out: seq<Type>)
    requires |out| == degree && Inferable(degree, t, a) && Met(ProbeDemands(degree, t, a), out)
    ensures Exactly(t, a, out) && Instantiate(ShapeOf(t), ShapesOf(out)) == ShapeOf(a)
  {
    hide Params, FewQualifiers, Shallow, Met, ProbeDemands, Exactly, Instantiate;
    ProbeIsExact(degree, t, a, out);
    ExactlyLooksAlike(t, a, out);
  }

  lemma {:induction false} ProbeIsExact(degree: nat, t: Type, a: Type, out: seq<Type>)
    requires |out| == degree && Inferable(degree, t, a) && Met(ProbeDemands(degree, t, a), out)
    ensures Exactly(t, a, out)
    decreases t
  {
    hide Params, FewQualifiers, Shallow, Met;
    StrippedIsBare(t);
    StrippedIsBare(a);
    var p, b := Bare(t), Bare(a);
    InferableParts(degree, t, a);
    NeverMet(out);
    if p.Generic? {
      IndexBelow(degree, p, b);
      MetParameter(out, p.index, b);
    } else if p != b && |Parts(p)| == 1 && |Parts(b)| == 1 && Met(ProbeDemands(degree, Parts(p)[0], Parts(b)[0]), out) {
      ProbeIsExact(degree, Parts(p)[0], Parts(b)[0], out);
    }
  }

  lemma {:induction false} ExactlyLooksAlike(t: Type, a: Type, args: seq<Type>)
    requires Exactly(t, a, args) && Params(a) == {}
    ensures Instantiate(ShapeOf(t), ShapesOf(args)) == ShapeOf(a)
    decreases t
  {
    hide Params;
    ShapeOfBare(t);
    ShapeOfBare(a);
    NoParamsInside(a);
    var p, b := Bare(t), Bare(a);
    if !p.Generic? && p == b {
      GroundIsItsOwnInstance(b, args);
    } else if !p.Generic? {
      assert |Parts(p)| == 1 && |Parts(b)| == 1 && Params(Parts(b)[0]) == {};
      ExactlyLooksAlike(Parts(p)[0], Parts(b)[0], args);
    }
  }

  lemma NeverMet(out: seq<Type>)
    ensures !Met(Mismatch, out)
  {
  }

  lemma IndexBelow(degree: nat, p: Type, a: Type)
    requires Inferable(degree, p, a) && p.Generic?
    ensures p.index < degree
  {
    assert p.index in Params(p);
  }

  /** If what a declared type demands is met, its parameters stand opposite their bindings. */
  lemma {:induction false} MetIsOpposite(degree: nat, t: Type, a: Type, out: seq<Type>)
    requires |out| == degree && Inferable(degree, t, a) && Met(DemandsOf(degree, t, a), out)
    ensures Opposite(t, a, out)
    decreases t, 2
  {
    hide Params, FewQualifiers, Shallow, Met, MentionsGeneric, DemandsOfStripped;
    if Params(t) == {} {
      assert Opposite(t, a, out);
    } else {
      MentionsIffInferable(degree, t, a);
      StrippedIsBare(t);
      StrippedIsBare(a);
      var p, b := Bare(t), Bare(a);
      if IsBorrow(p) {
        InferableParts(degree, t, a);
        assert Parts(p)[0] == p.pointee;
        StrippedIsBare(p.pointee);
        if b.Pointer? {
          assert Parts(b)[0] == b.pointee;
          StrippedIsBare(b.pointee);
          MetStrippedIsOpposite(degree, p.pointee, b.pointee, out);
        } else {
          MetStrippedIsOpposite(degree, p.pointee, b, out);
        }
      } else {
        MetStrippedIsOpposite(degree, t, a, out);
      }
    }
  }

  lemma MentionsIffInferable(degree: nat, t: Type, a: Type)
    requires Inferable(degree, t, a)
    ensures MentionsGeneric(t, 0) <==> Params(t) != {}
  {
    MentionsIff(t, 0);
  }

  lemma {:induction false} MetStrippedIsOpposite(degree: nat, t: Type, a: Type, out: seq<Type>)
    requires |out| == degree && Inferable(degree, t, a) && Met(DemandsOfStripped(degree, Bare(t), Bare(a)), out)
    ensures Opposite(t, a, out)
    decreases t, 1
  {
    hide Params, FewQualifiers, Shallow, Met, DemandsOf, DemandsOfAll, Inferable;
    var p, b := Bare(t), Bare(a);
    InferableParts(degree, t, a);
    NeverMet(out);
    if Params(t) == {} {
      assert Opposite(t, a, out);
    } else if p.Generic? {
      IndexBelow(degree, p, b);
      MetParameter(out, p.index, b);
    } else if p == b {
      GroundHasNoParams(degree, t, a);
    } else if p.Optional? && !b.Optional? {
      assert Parts(p)[0] == p.inner;
      PeelKeeps(degree, p.inner, b);
      ProbeGivesArgument(degree, Peel(p.inner), b, out);
      ShapeOfBare(b);
    } else if p.Pointer? && b.Pointer? {
      assert Parts(p)[0] == p.pointee && Parts(b)[0] == b.pointee;
      MetIsOpposite(degree, p.pointee, b.pointee, out);
    } else if (p.Optional? && b.Optional?) || (p.Failable? && b.Failable?) {
      assert Parts(p)[0] == p.inner && Parts(b)[0] == b.inner;
      MetIsOpposite(degree, p.inner, b.inner, out);
    } else if (p.Array? && b.Array? && p.size == b.size) || (p.Slice? && b.Slice?) {
      assert Parts(p)[0] == p.element && Parts(b)[0] == b.element;
      MetIsOpposite(degree, p.element, b.element, out);
    } else if p.Function? && b.Function? && |p.params| == |b.params| {
      BothMet(DemandsOfAll(degree, p.params, b.params), DemandsOf(degree, p.result, b.result), out);
      FunctionParts(degree, p, b);
      AllMetAreOpposite(degree, p.params, b.params, out);
      MetIsOpposite(degree, p.result, b.result, out);
    } else if p.Sum? && b.Sum? && |p.members| == |b.members| {
      assert Parts(p) == p.members && Parts(b) == b.members;
      AllMetAreOpposite(degree, p.members, b.members, out);
    }
  }

  lemma FunctionParts(degree: nat, p: Type, b: Type)
    requires p.Function? && b.Function? && |p.params| == |b.params|
    requires forall j, k :: 0 <= j < |Parts(p)| && 0 <= k < |Parts(b)| ==> Inferable(degree, Parts(p)[j], Parts(b)[k])
    ensures forall k :: 0 <= k < |p.params| ==> Inferable(degree, p.params[k], b.params[k])
    ensures Inferable(degree, p.result, b.result)
  {
    hide Inferable;
    assert Parts(p)[|p.params|] == p.result && Parts(b)[|p.params|] == b.result;
    assert forall k :: 0 <= k < |p.params| ==> Parts(p)[k] == p.params[k] && Parts(b)[k] == b.params[k];
  }

  lemma {:induction false} GroundHasNoParams(degree: nat, t: Type, a: Type)
    requires Inferable(degree, t, a) && Bare(t) == Bare(a)
    ensures Params(t) == {}
  {
    ParamsBare(t);
    ParamsBare(a);
  }

  lemma {:induction false} AllMetAreOpposite(degree: nat, ts: seq<Type>, actual: seq<Type>, out: seq<Type>)
    requires |out| == degree && |ts| == |actual| && Met(DemandsOfAll(degree, ts, actual), out)
    requires forall k :: 0 <= k < |ts| ==> Inferable(degree, ts[k], actual[k])
    ensures forall k :: 0 <= k < |ts| ==> Opposite(ts[k], actual[k], out)
    decreases ts, 3
  {
    hide Inferable, Opposite, Met, DemandsOf;
    if ts != [] {
      var n := |ts| - 1;
      BothMet(DemandsOfAll(degree, ts[..n], actual[..n]), DemandsOf(degree, ts[n], actual[n]), out);
      AllMetAreOpposite(degree, ts[..n], actual[..n], out);
      MetIsOpposite(degree, ts[n], actual[n], out);
      forall k | 0 <= k < |ts|
        ensures Opposite(ts[k], actual[k], out)
      {
        if k < n {
          assert ts[..n][k] == ts[k] && actual[..n][k] == actual[k];
        }
      }
    }
  }

  lemma {:induction false} MetArguments(degree: nat, declared: seq<Type>, actual: seq<Option<Type>>, n: nat, out: seq<Type>, k: nat)
    requires k < n <= |declared| && n <= |actual| && Met(DemandsOfArguments(degree, declared, actual, n), out)
    ensures Met(DemandsOfPair(degree, declared[k], actual[k]), out)
  {
    BothMet(DemandsOfArguments(degree, declared, actual, n - 1), DemandsOfPair(degree, declared[n - 1], actual[n - 1]), out);
    if k < n - 1 {
      MetArguments(degree, declared, actual, n - 1, out, k);
    }
  }

  /**
   * If inference answers, every parameter in a declared type is bound to the very entry it stands
   * opposite; and substituting the answer into the declared type gives a type that looks like the
   * argument if and only if their concrete parts agree.
   */
  lemma {:induction false} InferenceIsSound(degree: nat, declared: seq<Type>, actual: seq<Option<Type>>, result: Option<Type>, expected: Option<Type>,
                         out: seq<Type>, k: nat, next: nat)
    requires |out| == degree && DemandsOfCall(degree, declared, actual, result, expected) == Demands(Bindings(out))
    requires k < Pairs(declared, actual) && actual[k].Some? && Inferable(degree, declared[k], actual[k].value)
    ensures Opposite(declared[k], actual[k].value, out)
    ensures ShapeOf(Substitute(declared[k], out, next).0) == ShapeOf(actual[k].value) <==> Agrees(declared[k], actual[k].value)
  {
    hide DemandsOf, Inferable, Opposite;
    var n := Pairs(declared, actual);
    var ofResult := if result.Some? then DemandsOfPair(degree, result.value, expected) else Demands({});
    BothMet(DemandsOfArguments(degree, declared, actual, n), ofResult, out);
    MetArguments(degree, declared, actual, n, out, k);
    MetIsOpposite(degree, declared[k], actual[k].value, out);
    SubstituteInstantiates(declared[k], out, next);
    SubstitutionGivesArgumentIff(declared[k], actual[k].value, out);
  }

  /** The same for the declared result against the type the context expects. */
  lemma {:induction false} InferenceIsSoundForResult(degree: nat, declared: seq<Type>, actual: seq<Option<Type>>, result: Type, expected: Type,
                                  out: seq<Type>, next: nat)
    requires |out| == degree && DemandsOfCall(degree, declared, actual, Some(result), Some(expected)) == Demands(Bindings(out))
    requires Inferable(degree, result, expected)
    ensures Opposite(result, expected, out)
    ensures ShapeOf(Substitute(result, out, next).0) == ShapeOf(expected) <==> Agrees(result, expected)
  {
    hide DemandsOf, Inferable, Opposite;
    BothMet(DemandsOfArguments(degree, declared, actual, Pairs(declared, actual)), DemandsOfPair(degree, result, Some(expected)), out);
    MetIsOpposite(degree, result, expected, out);
    SubstituteInstantiates(result, out, next);
    SubstitutionGivesArgumentIff(result, expected, out);
  }
}
