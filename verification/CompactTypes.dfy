/** The session's type table, the artifact's compact one, and what an entry of either stands for. */
module CompactTypes {
  import opened Collections

  type TypeId = nat

  const INVALID_TYPE: TypeId := 0xFFFF_FFFF

  datatype TypeData =
    | Error
    | Never
    | Void
    | Bool
    | Char
    | Int(width: nat)
    | Float(width: nat)
    | Ptr(pointee: TypeId, isMut: bool, ownership: nat)
    | Array(elem: TypeId, count: nat)
    | Struct(defId: nat)
    | Fn(params: seq<TypeId>, ret: TypeId)
    | TypeVar(id: nat)
    | Optional(inner: TypeId)
    | Failable(inner: TypeId)
    | Alias(target: TypeId)
    | Nominal(name: string, target: TypeId)
    | Trait(name: string)
    | Dyn(target: TypeId, methodCount: nat)
    | Opaque
    | OpaqueTagged
    | Unknown
    | Qualified(inner: TypeId, ownership: nat, isMut: bool)
    | Slice(elem: TypeId)
    | Enum(defId: nat)
    | Union(defId: nat)
    | Pack(members: seq<TypeId>, names: seq<string>)
    | Sum(members: seq<TypeId>)
    | GenericParam(owner: string, index: nat)
    | Incomplete(base: TypeId, args: seq<TypeId>)

  /** The types a type is made of, in the order they are interned. */
  function Children(t: TypeData): seq<TypeId> {
    match t
    case Ptr(pointee, _, _) => [pointee]
    case Array(elem, _) => [elem]
    case Fn(params, ret) => [ret] + params
    case Optional(inner) => [inner]
    case Failable(inner) => [inner]
    case Alias(target) => [target]
    case Nominal(_, target) => [target]
    case Qualified(inner, _, _) => [inner]
    case Slice(elem) => [elem]
    case Pack(members, _) => members
    case Dyn(target, _) => [target]
    case Sum(members) => members
    case Incomplete(base, args) => [base] + args
    case _ => []
  }

  /** The layers that have no compact form of their own. */
  predicate IsErased(t: TypeData) {
    t.Alias? || t.Nominal? || t.Qualified?
  }

  /** The names a type carries into the artifact. */
  function Names(t: TypeData): seq<string> {
    match t
    case Trait(name) => [name]
    case GenericParam(owner, _) => [owner]
    case Pack(_, names) => names
    case _ => []
  }

  /** A type is interned after the types it is made of, and every pack member has a name entry. */
  ghost predicate WellFounded(types: seq<TypeData>) {
    && |types| <= INVALID_TYPE
    && forall id :: 0 <= id < |types| ==>
         && (forall k :: 0 <= k < |Children(types[id])| ==> Children(types[id])[k] < id)
         && (types[id].Pack? ==> |types[id].names| == |types[id].members|)
  }

  /** No name is empty and no sum is. */
  predicate Readable(t: TypeData) {
    (forall k :: 0 <= k < |Names(t)| ==> Names(t)[k] != "") && !(t.Sum? && t.members == [])
  }

  /** What distinguishes a type apart from the types it is made of. */
  datatype Head =
    | Error
    | Never
    | Void
    | Bool
    | Char
    | Int(width: nat)
    | Float(width: nat)
    | Ptr(isMut: bool)
    | Array(count: nat)
    | Struct(defId: nat)
    | Fn
    | TypeVar(id: nat)
    | Optional
    | Failable
    | Trait(name: Option<string>)
    | Dyn(methodCount: nat)
    | Opaque
    | OpaqueTagged
    | Slice
    | Enum(defId: nat)
    | Union(defId: nat)
    | Pack(names: seq<Option<string>>)
    | Sum
    | GenericParam(owner: Option<string>, index: nat)
    | Incomplete

  datatype Tree = Node(head: Head, children: seq<Tree>)

  function AllSome(names: seq<string>): (r: seq<Option<string>>)
    ensures |r| == |names| && forall i :: 0 <= i < |r| ==> r[i] == Some(names[i])
  {
    seq(|names|, i requires 0 <= i < |names| => Some(names[i]))
  }

  /** The ownership of a pointer is not part of it, and an unknown type counts as an error. */
  function HeadOf(t: TypeData): Head {
    match t
    case Error => Head.Error
    case Never => Head.Never
    case Void => Head.Void
    case Bool => Head.Bool
    case Char => Head.Char
    case Int(width) => Head.Int(width)
    case Float(width) => Head.Float(width)
    case Ptr(_, isMut, _) => Head.Ptr(isMut)
    case Array(_, count) => Head.Array(count)
    case Struct(defId) => Head.Struct(defId)
    case Fn(_, _) => Head.Fn
    case TypeVar(id) => Head.TypeVar(id)
    case Optional(_) => Head.Optional
    case Failable(_) => Head.Failable
    case Trait(name) => Head.Trait(Some(name))
    case Dyn(_, methodCount) => Head.Dyn(methodCount)
    case Opaque => Head.Opaque
    case OpaqueTagged => Head.OpaqueTagged
    case Slice(_) => Head.Slice
    case Enum(defId) => Head.Enum(defId)
    case Union(defId) => Head.Union(defId)
    case Pack(_, names) => Head.Pack(AllSome(names))
    case Sum(_) => Head.Sum
    case GenericParam(owner, index) => Head.GenericParam(Some(owner), index)
    case Incomplete(_, _) => Head.Incomplete
    case _ => Head.Error
  }

  /** The type as a tree, with alias, nominal and qualified layers taken off everywhere in it. */
  function Erase(types: seq<TypeData>, id: TypeId): Tree {
    if id >= |types| then Node(Head.Error, [])
    else
      var t := types[id];
      var children := Children(t);
      if IsErased(t) then
        if children[0] < id then Erase(types, children[0]) else Node(Head.Error, [])
      else
        Node(HeadOf(t), seq(|children|, k requires 0 <= k < |children| =>
                                          if children[k] < id then Erase(types, children[k]) else Node(Head.Error, [])))
  }

  /** What an artifact can tell of a type: not the ownership of a pointer, nor an unknown type from an error. */
  function Told(t: TypeData): TypeData {
    match t
    case Ptr(pointee, isMut, _) => TypeData.Ptr(pointee, isMut, 0)
    case Unknown => TypeData.Error
    case _ => t
  }

  function OrEmpty(name: Option<string>): string {
    if name.Some? then name.value else ""
  }

  /** The type with the given head and children. */
  function Retold(head: Head, children: seq<TypeId>): TypeData {
    var first := if children == [] then 0 else children[0];
    var others := if children == [] then [] else children[1..];
    match head
    case Error => TypeData.Error
    case Never => TypeData.Never
    case Void => TypeData.Void
    case Bool => TypeData.Bool
    case Char => TypeData.Char
    case Int(width) => TypeData.Int(width)
    case Float(width) => TypeData.Float(width)
    case Ptr(isMut) => TypeData.Ptr(first, isMut, 0)
    case Array(count) => TypeData.Array(first, count)
    case Struct(defId) => TypeData.Struct(defId)
    case Fn => TypeData.Fn(others, first)
    case TypeVar(id) => TypeData.TypeVar(id)
    case Optional => TypeData.Optional(first)
    case Failable => TypeData.Failable(first)
    case Trait(name) => TypeData.Trait(OrEmpty(name))
    case Dyn(methodCount) => TypeData.Dyn(first, methodCount)
    case Opaque => TypeData.Opaque
    case OpaqueTagged => TypeData.OpaqueTagged
    case Slice => TypeData.Slice(first)
    case Enum(defId) => TypeData.Enum(defId)
    case Union(defId) => TypeData.Union(defId)
    case Pack(names) => TypeData.Pack(children, seq(|names|, i requires 0 <= i < |names| => OrEmpty(names[i])))
    case Sum => TypeData.Sum(children)
    case GenericParam(owner, index) => TypeData.GenericParam(OrEmpty(owner), index)
    case Incomplete => TypeData.Incomplete(first, others)
  }

  lemma RetoldIsTold(t: TypeData)
    requires !IsErased(t)
    ensures Retold(HeadOf(t), Children(t)) == Told(t)
  {
  }

  lemma ToldKeepsBoth(t: TypeData)
    requires !IsErased(t)
    ensures HeadOf(Told(t)) == HeadOf(t) && Children(Told(t)) == Children(t)
  {
  }

  /** Head and children together are the type, up to that. */
  lemma HeadAndChildrenAreTheType(a: TypeData, b: TypeData)
    requires !IsErased(a) && !IsErased(b)
    ensures HeadOf(a) == HeadOf(b) && Children(a) == Children(b) <==> Told(a) == Told(b)
  {
    hide HeadOf, Children, Told, Retold, IsErased;
    RetoldIsTold(a);
    RetoldIsTold(b);
    ToldKeepsBoth(a);
    ToldKeepsBoth(b);
  }

  /** An alias, a nominal and a qualified type are told as what they stand for. */
  lemma LayersComeOff(types: seq<TypeData>, id: TypeId, target: TypeId)
    requires target < id < |types|
    requires types[id] == TypeData.Alias(target) || (types[id].Nominal? && types[id].target == target)
      || (types[id].Qualified? && types[id].inner == target)
    ensures Erase(types, id) == Erase(types, target)
  {
  }

  /** Every name in the type, under whatever layers, is nonempty, and so is every sum. */
  predicate ReadableTree(types: seq<TypeData>, id: TypeId) {
    && id < |types|
    && var t := types[id];
       var children := Children(t);
       if IsErased(t) then children[0] < id && ReadableTree(types, children[0])
       else Readable(t) && forall k :: 0 <= k < |children| ==> children[k] < id && ReadableTree(types, children[k])
  }

  datatype CompactKind =
    | KError | KNever | KVoid | KBool | KChar | KInt | KFloat | KPtr | KArray | KStruct | KFn | KOptional
    | KFailable | KSlice | KEnum | KUnion | KTypeVar | KGenericParam | KIncomplete | KPack | KDyn | KOpaque
    | KOpaqueTagged | KTrait

  datatype CompactType = CompactType(
    kind: CompactKind,
    intWidth: nat := 0,
    flags: nat := 0,
    ref0: nat := 0,
    ref1: nat := 0,
    args: seq<nat> := [],
    argNames: seq<nat> := [])

  /** The compact entries an entry refers to. */
  function Refs(c: CompactType): seq<nat> {
    match c.kind
    case KPtr => [c.ref0]
    case KArray => [c.ref0]
    case KFn => [c.ref0] + c.args
    case KOptional => [c.ref0]
    case KFailable => [c.ref0]
    case KSlice => [c.ref0]
    case KPack => c.args
    case KDyn => [c.ref0]
    case KUnion => c.args
    case KIncomplete => [c.ref0] + c.args
    case _ => []
  }

  /** The strings an entry refers to. */
  function NameRefs(c: CompactType): seq<nat> {
    match c.kind
    case KTrait => [c.ref0]
    case KGenericParam => [c.ref0]
    case KPack => c.argNames
    case _ => []
  }

  function ReadName(strings: seq<string>, id: nat): Option<string> {
    if id < |strings| then Some(strings[id]) else None
  }

  function ReadNames(strings: seq<string>, ids: seq<nat>): (r: seq<Option<string>>)
    ensures |r| == |ids| && forall i :: 0 <= i < |r| ==> r[i] == ReadName(strings, ids[i])
  {
    seq(|ids|, i requires 0 <= i < |ids| => ReadName(strings, ids[i]))
  }

  /** Sums and unions share a kind: with members it is a sum, without it names a definition. */
  function ReadHead(c: CompactType, strings: seq<string>): Head {
    match c.kind
    case KError => Head.Error
    case KNever => Head.Never
    case KVoid => Head.Void
    case KBool => Head.Bool
    case KChar => Head.Char
    case KInt => Head.Int(c.intWidth)
    case KFloat => Head.Float(c.intWidth)
    case KPtr => Head.Ptr(c.flags != 0)
    case KArray => Head.Array(c.ref1)
    case KStruct => Head.Struct(c.ref0)
    case KFn => Head.Fn
    case KTypeVar => Head.TypeVar(c.ref0)
    case KOptional => Head.Optional
    case KFailable => Head.Failable
    case KTrait => Head.Trait(ReadName(strings, c.ref0))
    case KDyn => Head.Dyn(c.ref1)
    case KOpaque => Head.Opaque
    case KOpaqueTagged => Head.OpaqueTagged
    case KSlice => Head.Slice
    case KEnum => Head.Enum(c.ref0)
    case KUnion => if c.args == [] then Head.Union(c.ref0) else Head.Sum
    case KPack => Head.Pack(ReadNames(strings, c.argNames))
    case KGenericParam => Head.GenericParam(ReadName(strings, c.ref0), c.ref1)
    case KIncomplete => Head.Incomplete
  }

  /** The tree an entry stands for, following only references to entries before `limit`. */
  function ReadEntry(table: seq<CompactType>, strings: seq<string>, c: CompactType, limit: nat): Tree
    requires limit <= |table|
    decreases limit, 1
  {
    Node(ReadHead(c, strings), seq(|Refs(c)|, k requires 0 <= k < |Refs(c)| => Read(table, strings, Refs(c)[k], limit)))
  }

  function Read(table: seq<CompactType>, strings: seq<string>, r: nat, limit: nat): Tree
    requires limit <= |table|
    decreases limit, 0
  {
    if r < limit then ReadEntry(table, strings, table[r], r) else Node(Head.Error, [])
  }

  predicate RefsBelow(c: CompactType, n: nat) {
    forall k :: 0 <= k < |Refs(c)| ==> Refs(c)[k] < n
  }

  /** The entry of a type that is made of no other types and has no name. */
  function PlainEntry(t: TypeData): CompactType {
    match t
    case Never => CompactType(KNever)
    case Void => CompactType(KVoid)
    case Bool => CompactType(KBool)
    case Char => CompactType(KChar)
    case Int(width) => CompactType(KInt, intWidth := width)
    case Float(width) => CompactType(KFloat, intWidth := width)
    case Struct(defId) => CompactType(KStruct, ref0 := defId)
    case TypeVar(id) => CompactType(KTypeVar, ref0 := id)
    case Opaque => CompactType(KOpaque)
    case OpaqueTagged => CompactType(KOpaqueTagged)
    case Enum(defId) => CompactType(KEnum, ref0 := defId)
    case Union(defId) => CompactType(KUnion, ref0 := defId)
    case _ => CompactType(KError)
  }

  /** The entry written for a type that is not erased, given its children's entries and its names' ids. */
  function Encoding(t: TypeData, refs: seq<nat>, nameIds: seq<nat>): CompactType
    requires !IsErased(t) && |refs| == |Children(t)| && |nameIds| == |Names(t)|
  {
    match t
    case Ptr(_, isMut, _) => CompactType(KPtr, ref0 := refs[0], flags := if isMut then 1 else 0)
    case Array(_, count) => CompactType(KArray, ref0 := refs[0], ref1 := count)
    case Fn(_, _) => CompactType(KFn, ref0 := refs[0], args := refs[1..])
    case Optional(_) => CompactType(KOptional, ref0 := refs[0])
    case Failable(_) => CompactType(KFailable, ref0 := refs[0])
    case Trait(_) => CompactType(KTrait, ref0 := nameIds[0])
    case Dyn(_, methodCount) => CompactType(KDyn, ref0 := refs[0], ref1 := methodCount)
    case Slice(_) => CompactType(KSlice, ref0 := refs[0])
    case Pack(_, _) => CompactType(KPack, args := refs, argNames := nameIds)
    case Sum(_) => CompactType(KUnion, args := refs)
    case GenericParam(_, index) => CompactType(KGenericParam, ref0 := nameIds[0], ref1 := index)
    case Incomplete(_, _) => CompactType(KIncomplete, ref0 := refs[0], args := refs[1..])
    case _ => PlainEntry(t)
  }

  lemma EncodingRefs(t: TypeData, refs: seq<nat>, nameIds: seq<nat>)
    requires !IsErased(t) && |refs| == |Children(t)| && |nameIds| == |Names(t)|
    ensures Refs(Encoding(t, refs, nameIds)) == refs
    ensures NameRefs(Encoding(t, refs, nameIds)) == nameIds
  {
  }

  /** A string table holds no empty string, and its index is the inverse of it. */
  ghost predicate StringsOk(strings: seq<string>, index: map<string, nat>) {
    && (forall s :: s in index ==> index[s] < |strings| && strings[index[s]] == s)
    && (forall i :: 0 <= i < |strings| ==> strings[i] != "" && strings[i] in index && index[strings[i]] == i)
  }

  /** What interning a string answers once it has been interned: an empty string gets id 0. */
  predicate IsNameId(index: map<string, nat>, s: string, id: nat) {
    if s == "" then id == 0 else s in index && id == index[s]
  }

  predicate AreNameIds(index: map<string, nat>, names: seq<string>, ids: seq<nat>) {
    |ids| == |names| && forall k :: 0 <= k < |ids| ==> IsNameId(index, names[k], ids[k])
  }

  lemma NameReadsBackIff(strings: seq<string>, index: map<string, nat>, s: string, id: nat)
    requires StringsOk(strings, index) && IsNameId(index, s, id)
    ensures ReadName(strings, id) == Some(s) <==> s != ""
  {
  }

  lemma UnnamedHeadReadsBackIff(t: TypeData, refs: seq<nat>, strings: seq<string>)
    requires !IsErased(t) && |refs| == |Children(t)| && |Names(t)| == 0 && !t.Pack? && !t.Trait? && !t.GenericParam?
    requires t.Sum? ==> |refs| == |t.members|
    ensures ReadHead(Encoding(t, refs, []), strings) == HeadOf(t) <==> !(t.Sum? && t.members == [])
  {
    hide ReadNames, ReadName, Children, Names;
  }

  lemma PackHeadReadsBackIff(t: TypeData, refs: seq<nat>, strings: seq<string>, nameIds: seq<nat>)
    requires t.Pack? && |refs| == |Children(t)| && |nameIds| == |t.names|
    ensures ReadHead(Encoding(t, refs, nameIds), strings) == HeadOf(t) <==> ReadNames(strings, nameIds) == AllSome(t.names)
  {
    hide ReadNames, AllSome, Children, PlainEntry;
  }

  lemma NamedHeadReadsBackIff(t: TypeData, refs: seq<nat>, strings: seq<string>, nameIds: seq<nat>)
    requires t.Trait? || t.GenericParam?
    requires |refs| == |Children(t)| && |nameIds| == 1
    ensures ReadHead(Encoding(t, refs, nameIds), strings) == HeadOf(t) <==> ReadNames(strings, nameIds) == AllSome(Names(t))
  {
    hide ReadNames, AllSome, Children, PlainEntry;
    OneNameReadsBackIff(strings, nameIds, if t.Trait? then t.name else t.owner);
  }

  lemma OneNameReadsBackIff(strings: seq<string>, nameIds: seq<nat>, name: string)
    requires |nameIds| == 1
    ensures ReadNames(strings, nameIds) == AllSome([name]) <==> ReadName(strings, nameIds[0]) == Some(name)
  {
    assert ReadNames(strings, nameIds)[0] == ReadName(strings, nameIds[0]);
    assert AllSome([name])[0] == Some(name);
    if ReadName(strings, nameIds[0]) == Some(name) {
      assert ReadNames(strings, nameIds) == AllSome([name]);
    }
  }

  /**
   * An entry says what its type says if and only if none of the type's names is empty and the type
   * is not a sum of nothing: an empty name is read back as the first string of the artifact, and an
   * empty sum as the union with definition 0.
   */
  lemma HeadReadsBackIff(t: TypeData, refs: seq<nat>, strings: seq<string>, index: map<string, nat>, nameIds: seq<nat>)
    requires !IsErased(t) && |refs| == |Children(t)| && StringsOk(strings, index) && AreNameIds(index, Names(t), nameIds)
    ensures ReadHead(Encoding(t, refs, nameIds), strings) == HeadOf(t) <==> Readable(t)
  {
    hide ReadHead, Encoding, HeadOf;
    if t.Pack? {
      PackHeadReadsBackIff(t, refs, strings, nameIds);
    } else if t.Trait? || t.GenericParam? {
      NamedHeadReadsBackIff(t, refs, strings, nameIds);
    } else {
      assert nameIds == [];
      UnnamedHeadReadsBackIff(t, refs, strings);
    }
  }

  /** A sum of nothing is read as a union, and a trait without a name as the trait named like the first string. */
  lemma UnreadableExamples()
    ensures ReadHead(Encoding(TypeData.Sum([]), [], []), []) == Head.Union(0) != HeadOf(TypeData.Sum([]))
    ensures ReadHead(Encoding(TypeData.Trait(""), [], [0]), ["first"]) == Head.Trait(Some("first")) != HeadOf(TypeData.Trait(""))
  {
  }
}
