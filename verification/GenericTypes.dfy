/**
 * Types of generic code. The type table never merges entries, so two types are the same type only
 * if they are the same entry: every compound type carries the number of its entry.
 */
module GenericTypes {
  import opened Collections

  datatype Ownership = Default | Unique | Share | Lend | View | Belong

  datatype Type =
    | Prim(entry: nat)
    | Generic(index: nat)
    | Pointer(entry: nat, pointee: Type)
    | Optional(entry: nat, inner: Type)
    | Array(entry: nat, element: Type, size: nat)
    | Slice(entry: nat, element: Type)
    | Function(entry: nat, params: seq<Type>, result: Type)
    | Failable(entry: nat, inner: Type)
    | Sum(entry: nat, members: seq<Type>)
    | Qualified(entry: nat, inner: Type, ownership: Ownership, isMut: bool)

  /** Takes off at most `guard` qualifiers. */
  function StripUpTo(t: Type, guard: nat): (r: Type)
    ensures r == t || r < t
    ensures !r.Qualified? ==> r == Bare(t)
    decreases guard
  {
    if guard == 0 || !t.Qualified? then t else StripUpTo(t.inner, guard - 1)
  }

  function Strip(t: Type): (r: Type)
    ensures r == t || r < t
    ensures !r.Qualified? ==> r == Bare(t)
    ensures !t.Qualified? ==> r == t
  {
    StripUpTo(t, 8)
  }

  /** Takes off all qualifiers. */
  function Bare(t: Type): (r: Type)
    ensures !r.Qualified?
    ensures r == t || r < t
    ensures !t.Qualified? ==> r == t
  {
    if t.Qualified? then Bare(t.inner) else t
  }

  /** How many qualifiers a type begins with. */
  function Qualifiers(t: Type): nat {
    if t.Qualified? then 1 + Qualifiers(t.inner) else 0
  }

  /** All of them come off if and only if there are at most eight. */
  lemma StripsAllIff(t: Type)
    ensures Strip(t) == Bare(t) <==> Qualifiers(t) <= 8
  {
    StripsUpToIff(t, 8);
  }

  lemma {:induction false} StripsUpToIff(t: Type, guard: nat)
    ensures StripUpTo(t, guard).Qualified? <==> Qualifiers(t) > guard
    decreases guard
  {
    if guard > 0 && t.Qualified? {
      StripsUpToIff(t.inner, guard - 1);
    }
  }

  /** The direct parts of a type. */
  function Parts(t: Type): (parts: seq<Type>)
    ensures forall k :: 0 <= k < |parts| ==> parts[k] < t
  {
    match t
    case Prim(_) => []
    case Generic(_) => []
    case Pointer(_, pointee) => [pointee]
    case Optional(_, inner) => [inner]
    case Array(_, element, _) => [element]
    case Slice(_, element) => [element]
    case Function(_, params, result) => params + [result]
    case Failable(_, inner) => [inner]
    case Sum(_, members) => members
    case Qualified(_, inner, _, _) => [inner]
  }

  /** Some generic parameter occurs in the type. */
  predicate HasGeneric(t: Type)
    decreases t
  {
    t.Generic? || exists k :: 0 <= k < |Parts(t)| && HasGeneric(Parts(t)[k])
  }

  /** The walk that looks for a generic parameter gives up below a fixed depth. */
  predicate MentionsGeneric(t: Type, depth: nat)
    decreases 16 - depth
  {
    depth < 16 &&
    var s := Strip(t);
    s.Generic? || (!s.Qualified? && exists k :: 0 <= k < |Parts(s)| && MentionsGeneric(Parts(s)[k], depth + 1))
  }

  /** No qualifier chain is longer than the eight that get stripped. */
  predicate FewQualifiers(t: Type)
    decreases t
  {
    !Strip(t).Qualified? && forall k :: 0 <= k < |Parts(t)| ==> FewQualifiers(Parts(t)[k])
  }

  /** Within the depth the walk looks at, not counting qualifiers. */
  predicate Shallow(t: Type, depth: nat)
    decreases t
  {
    if t.Qualified? then Shallow(t.inner, depth)
    else depth < 16 && forall k :: 0 <= k < |Parts(t)| ==> Shallow(Parts(t)[k], depth + 1)
  }

  /** What a type looks like, apart from entry numbers and qualifiers. */
  datatype Shape =
    | SPrim(entry: nat)
    | SGeneric(index: nat)
    | SPointer(pointee: Shape)
    | SOptional(inner: Shape)
    | SArray(element: Shape, size: nat)
    | SSlice(element: Shape)
    | SFunction(params: seq<Shape>, result: Shape)
    | SFailable(inner: Shape)
    | SSum(members: seq<Shape>)

  function ShapeOf(t: Type): Shape
    decreases t
  {
    match t
    case Prim(entry) => SPrim(entry)
    case Generic(index) => SGeneric(index)
    case Pointer(_, pointee) => SPointer(ShapeOf(pointee))
    case Optional(_, inner) => SOptional(ShapeOf(inner))
    case Array(_, element, size) => SArray(ShapeOf(element), size)
    case Slice(_, element) => SSlice(ShapeOf(element))
    case Function(_, params, result) => SFunction(ShapesOf(params), ShapeOf(result))
    case Failable(_, inner) => SFailable(ShapeOf(inner))
    case Sum(_, members) => SSum(ShapesOf(members))
    case Qualified(_, inner, _, _) => ShapeOf(inner)
  }

  function ShapesOf(ts: seq<Type>): (shapes: seq<Shape>)
    ensures |shapes| == |ts| && forall k :: 0 <= k < |ts| ==> shapes[k] == ShapeOf(ts[k])
    decreases ts
  {
    if ts == [] then [] else [ShapeOf(ts[0])] + ShapesOf(ts[1..])
  }

  /** Putting shapes for generic parameters. */
  function Instantiate(s: Shape, args: seq<Shape>): Shape
    decreases s
  {
    match s
    case SPrim(_) => s
    case SGeneric(index) => if index < |args| then args[index] else s
    case SPointer(pointee) => SPointer(Instantiate(pointee, args))
    case SOptional(inner) => SOptional(Instantiate(inner, args))
    case SArray(element, size) => SArray(Instantiate(element, args), size)
    case SSlice(element) => SSlice(Instantiate(element, args))
    case SFunction(params, result) => SFunction(InstantiateAll(params, args), Instantiate(result, args))
    case SFailable(inner) => SFailable(Instantiate(inner, args))
    case SSum(members) => SSum(InstantiateAll(members, args))
  }

  function InstantiateAll(shapes: seq<Shape>, args: seq<Shape>): (r: seq<Shape>)
    ensures |r| == |shapes| && forall k :: 0 <= k < |r| ==> r[k] == Instantiate(shapes[k], args)
    decreases shapes
  {
    if shapes == [] then [] else [Instantiate(shapes[0], args)] + InstantiateAll(shapes[1..], args)
  }

  /**
   * Substitution makes a new entry for every compound type it passes, concrete or not, and returns
   * the argument itself for a parameter. `next` is the first unused entry number.
   */
  function Substitute(t: Type, args: seq<Type>, next: nat): (r: (Type, nat))
    ensures next <= r.1
    decreases t
  {
    match t
    case Prim(_) => (t, next)
    case Generic(index) => (if index < |args| then args[index] else t, next)
    case Pointer(_, pointee) => var (p, n) := Substitute(pointee, args, next); (Pointer(n, p), n + 1)
    case Optional(_, inner) => var (i, n) := Substitute(inner, args, next); (Optional(n, i), n + 1)
    case Array(_, element, size) => var (e, n) := Substitute(element, args, next); (Array(n, e, size), n + 1)
    case Slice(_, element) => var (e, n) := Substitute(element, args, next); (Slice(n, e), n + 1)
    case Function(_, params, result) =>
      var (ps, n) := SubstituteAll(params, args, next);
      var (r, m) := Substitute(result, args, n);
      (Function(m, ps, r), m + 1)
    case Failable(_, inner) => var (i, n) := Substitute(inner, args, next); (Failable(n, i), n + 1)
    case Sum(_, members) => var (ms, n) := SubstituteAll(members, args, next); (Sum(n, ms), n + 1)
    case Qualified(_, inner, ownership, isMut) =>
      var (i, n) := Substitute(inner, args, next);
      (Qualified(n, i, ownership, isMut), n + 1)
  }

  function SubstituteAll(ts: seq<Type>, args: seq<Type>, next: nat): (r: (seq<Type>, nat))
    ensures next <= r.1 && |r.0| == |ts|
    decreases ts
  {
    if ts == [] then ([], next)
    else
      var (t, n) := Substitute(ts[0], args, next);
      var (rest, m) := SubstituteAll(ts[1..], args, n);
      ([t] + rest, m)
  }

  /** Whatever entries it makes, substitution instantiates the shape. */
  lemma {:induction false} SubstituteInstantiates(t: Type, args: seq<Type>, next: nat)
    ensures ShapeOf(Substitute(t, args, next).0) == Instantiate(ShapeOf(t), ShapesOf(args))
    decreases t
  {
    hide SubstituteAll, InstantiateAll, ShapesOf;
    match t
    case Prim(_) =>
    case Generic(_) =>
    case Pointer(_, pointee) => SubstituteInstantiates(pointee, args, next);
    case Optional(_, inner) => SubstituteInstantiates(inner, args, next);
    case Array(_, element, _) => SubstituteInstantiates(element, args, next);
    case Slice(_, element) => SubstituteInstantiates(element, args, next);
    case Function(_, params, result) =>
      SubstituteAllInstantiates(params, args, next);
      SubstituteInstantiates(result, args, SubstituteAll(params, args, next).1);
    case Failable(_, inner) => SubstituteInstantiates(inner, args, next);
    case Sum(_, members) => SubstituteAllInstantiates(members, args, next);
    case Qualified(_, inner, _, _) => SubstituteInstantiates(inner, args, next);
  }

  lemma {:induction false} SubstituteAllInstantiates(ts: seq<Type>, args: seq<Type>, next: nat)
    ensures ShapesOf(SubstituteAll(ts, args, next).0) == InstantiateAll(ShapesOf(ts), ShapesOf(args))
    decreases ts
  {
    if ts != [] {
      var (t, n) := Substitute(ts[0], args, next);
      SubstituteInstantiates(ts[0], args, next);
      SubstituteAllInstantiates(ts[1..], args, n);
      assert SubstituteAll(ts, args, next).0 == [t] + SubstituteAll(ts[1..], args, n).0;
      assert ([t] + SubstituteAll(ts[1..], args, n).0)[1..] == SubstituteAll(ts[1..], args, n).0;
    }
  }
}
