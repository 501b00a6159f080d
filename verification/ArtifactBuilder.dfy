/**
 * Interning types and strings into the tables of an artifact, writing its functions, and resolving
 * the (name, signature) pairs that calls are written as.
 */
module ArtifactBuilding {
  import opened Collections
  import opened CompactTypes

  /** The compact ids recorded for a sequence of types; an invalid type counts as 0. */
  ghost predicate AreIndexOf(index: map<TypeId, nat>, ids: seq<TypeId>, compact: seq<nat>) {
    |compact| == |ids| && forall k :: 0 <= k < |ids| ==> IsIndexOf(index, ids[k], compact[k])
  }

  ghost predicate IsIndexOf(index: map<TypeId, nat>, id: TypeId, compact: nat) {
    if id == INVALID_TYPE then compact == 0 else id in index && compact == index[id]
  }

  ghost predicate ChildrenIndexed(types: seq<TypeData>, index: map<TypeId, nat>, id: TypeId)
    requires id < |types|
  {
    forall k :: 0 <= k < |Children(types[id])| ==> Children(types[id])[k] in index
  }

  /** c is what gets written for the type: an erased layer is written as a copy of what is under it. */
  ghost predicate EntryFor(types: seq<TypeData>, index: map<TypeId, nat>, stringIndex: map<string, nat>, id: TypeId, c: CompactType)
    requires WellFounded(types) && id < |types|
    decreases id
  {
    var t := types[id];
    if IsErased(t) then EntryFor(types, index, stringIndex, Children(t)[0], c)
    else
      && AreIndexOf(index, Children(t), Refs(c))
      && AreNameIds(stringIndex, Names(t), NameRefs(c))
      && c == Encoding(t, Refs(c), NameRefs(c))
  }

  /** The entry of a type, kind by kind. */
  ghost predicate WrittenAs(index: map<TypeId, nat>, stringIndex: map<string, nat>, t: TypeData, c: CompactType)
    requires !IsErased(t)
  {
    match t
    case Ptr(pointee, isMut, _) =>
      c == CompactType(KPtr, ref0 := c.ref0, flags := if isMut then 1 else 0) && IsIndexOf(index, pointee, c.ref0)
    case Array(elem, count) => c == CompactType(KArray, ref0 := c.ref0, ref1 := count) && IsIndexOf(index, elem, c.ref0)
    case Fn(params, ret) =>
      c == CompactType(KFn, ref0 := c.ref0, args := c.args) && IsIndexOf(index, ret, c.ref0) && AreIndexOf(index, params, c.args)
    case Optional(inner) => c == CompactType(KOptional, ref0 := c.ref0) && IsIndexOf(index, inner, c.ref0)
    case Failable(inner) => c == CompactType(KFailable, ref0 := c.ref0) && IsIndexOf(index, inner, c.ref0)
    case Trait(name) => c == CompactType(KTrait, ref0 := c.ref0) && IsNameId(stringIndex, name, c.ref0)
    case Dyn(target, methodCount) => c == CompactType(KDyn, ref0 := c.ref0, ref1 := methodCount) && IsIndexOf(index, target, c.ref0)
    case Slice(elem) => c == CompactType(KSlice, ref0 := c.ref0) && IsIndexOf(index, elem, c.ref0)
    case Pack(members, names) =>
      c == CompactType(KPack, args := c.args, argNames := c.argNames) && AreIndexOf(index, members, c.args) &&
      AreNameIds(stringIndex, names, c.argNames)
    case Sum(members) => c == CompactType(KUnion, args := c.args) && AreIndexOf(index, members, c.args)
    case GenericParam(owner, paramIndex) =>
      c == CompactType(KGenericParam, ref0 := c.ref0, ref1 := paramIndex) && IsNameId(stringIndex, owner, c.ref0)
    case Incomplete(base, args) =>
      c == CompactType(KIncomplete, ref0 := c.ref0, args := c.args) && IsIndexOf(index, base, c.ref0) && AreIndexOf(index, args, c.args)
    case _ => c == PlainEntry(t)
  }

  lemma WrittenIsEntry(types: seq<TypeData>, index: map<TypeId, nat>, stringIndex: map<string, nat>, id: TypeId, c: CompactType)
    requires WellFounded(types) && id < |types| && !IsErased(types[id])
    requires WrittenAs(index, stringIndex, types[id], c)
    ensures EntryFor(types, index, stringIndex, id, c)
  {
    hide IsIndexOf, IsNameId, WellFounded;
    var t := types[id];
    assert AreIndexOf(index, Children(t), Refs(c));
    assert AreNameIds(stringIndex, Names(t), NameRefs(c));
    assert c == Encoding(t, Refs(c), NameRefs(c));
  }

  lemma ErasedEntry(types: seq<TypeData>, index: map<TypeId, nat>, stringIndex: map<string, nat>, id: TypeId, c: CompactType)
    requires WellFounded(types) && id < |types| && IsErased(types[id])
    requires Children(types[id])[0] < id && EntryFor(types, index, stringIndex, Children(types[id])[0], c)
    ensures EntryFor(types, index, stringIndex, id, c)
  {
  }

  lemma ErasedNode(types: seq<TypeData>, table: seq<CompactType>, stringIndex: map<string, nat>, index: map<TypeId, nat>,
                   id: TypeId, target: TypeId)
    requires WellFounded(types) && Indexed(types, table, stringIndex, index)
    requires id < |types| && IsErased(types[id]) && target in index
    requires target == if types[id].Qualified? then types[id].inner else types[id].target
    ensures Children(types[id]) == [target] && target < |types| && ChildrenIndexed(types, index, target)
  {
    hide EntryFor, WellFounded;
  }

  /** The types a type is made of are smaller and indexed, kind by kind. */
  lemma ChildrenOfNode(types: seq<TypeData>, index: map<TypeId, nat>, id: TypeId)
    requires WellFounded(types) && id < |types| && ChildrenIndexed(types, index, id)
    ensures |types| <= INVALID_TYPE
    ensures var t := types[id];
            && (t.Ptr? ==> t.pointee < id && t.pointee in index)
            && (t.Array? || t.Slice? ==> t.elem < id && t.elem in index)
            && (t.Fn? ==> t.ret < id && t.ret in index && forall k :: 0 <= k < |t.params| ==> t.params[k] < id && t.params[k] in index)
            && (t.Optional? || t.Failable? || t.Qualified? ==> t.inner < id && t.inner in index)
            && (t.Alias? || t.Nominal? || t.Dyn? ==> t.target < id && t.target in index)
            && (t.Pack? || t.Sum? ==> forall k :: 0 <= k < |t.members| ==> t.members[k] < id && t.members[k] in index)
            && (t.Incomplete? ==> t.base < id && t.base in index && forall k :: 0 <= k < |t.args| ==> t.args[k] < id && t.args[k] in index)
  {
    var t := types[id];
    var children := Children(t);
    if t.Fn? {
      assert children[0] == t.ret && forall k :: 0 <= k < |t.params| ==> children[k + 1] == t.params[k];
    } else if t.Incomplete? {
      assert children[0] == t.base && forall k :: 0 <= k < |t.args| ==> children[k + 1] == t.args[k];
    } else if |children| == 1 {
      assert children[0] < id && children[0] in index;
    }
  }

  /** Every indexed type has its entry in the table, and its children are indexed too. */
  ghost predicate Indexed(types: seq<TypeData>, table: seq<CompactType>, stringIndex: map<string, nat>, index: map<TypeId, nat>)
    requires WellFounded(types)
  {
    forall id :: id in index ==>
      && id < |types|
      && index[id] < |table|
      && EntryFor(types, index, stringIndex, id, table[index[id]])
      && ChildrenIndexed(types, index, id)
  }

  /** The entry of an indexed type refers only to strictly earlier entries. */
  ghost predicate Ordered(table: seq<CompactType>, index: map<TypeId, nat>) {
    forall id :: id in index ==> index[id] < |table| && RefsBelow(table[index[id]], index[id])
  }

  ghost predicate Extends<K, V>(before: map<K, V>, after: map<K, V>) {
    forall k :: k in before ==> k in after && after[k] == before[k]
  }

  lemma ExtendsItself<K, V>(m: map<K, V>)
    ensures Extends(m, m)
  {
  }

  lemma {:induction false} EntryForStays(types: seq<TypeData>, index: map<TypeId, nat>, stringIndex: map<string, nat>,
                                         index': map<TypeId, nat>, stringIndex': map<string, nat>, id: TypeId, c: CompactType)
    requires WellFounded(types) && id < |types| && EntryFor(types, index, stringIndex, id, c)
    requires Extends(index, index') && Extends(stringIndex, stringIndex')
    ensures EntryFor(types, index', stringIndex', id, c)
    decreases id
  {
    hide Refs, NameRefs, Encoding, Names;
    if IsErased(types[id]) {
      EntryForStays(types, index, stringIndex, index', stringIndex', Children(types[id])[0], c);
    }
  }

  lemma IndexedStays(types: seq<TypeData>, table: seq<CompactType>, stringIndex: map<string, nat>, index: map<TypeId, nat>,
                     table': seq<CompactType>, stringIndex': map<string, nat>)
    requires WellFounded(types) && Indexed(types, table, stringIndex, index)
    requires table <= table' && Extends(stringIndex, stringIndex')
    ensures Indexed(types, table', stringIndex', index)
  {
    hide EntryFor, Children, WellFounded;
    forall id | id in index
      ensures EntryFor(types, index, stringIndex', id, table'[index[id]])
    {
      EntryForStays(types, index, stringIndex, index, stringIndex', id, table[index[id]]);
    }
  }

  /** Adding the entry of one more type, whose children are all indexed. */
  lemma IndexedGrows(types: seq<TypeData>, table: seq<CompactType>, stringIndex: map<string, nat>, index: map<TypeId, nat>,
                     id: TypeId, c: CompactType)
    requires WellFounded(types) && Indexed(types, table, stringIndex, index)
    requires id < |types| && id !in index && ChildrenIndexed(types, index, id) && EntryFor(types, index, stringIndex, id, c)
    ensures Indexed(types, table + [c], stringIndex, index[id := |table|])
  {
    hide EntryFor, Children, WellFounded;
    var index' := index[id := |table|];
    forall other | other in index'
      ensures EntryFor(types, index', stringIndex, other, (table + [c])[index'[other]])
      ensures ChildrenIndexed(types, index', other)
    {
      EntryForStays(types, index, stringIndex, index', stringIndex, other, (table + [c])[index'[other]]);
    }
  }

  /** The references of an entry are those of indexed types, so they are in the table. */
  lemma {:induction false} EntryRefsBelow(types: seq<TypeData>, table: seq<CompactType>, stringIndex: map<string, nat>,
                                          index: map<TypeId, nat>, id: TypeId, c: CompactType)
    requires WellFounded(types) && Indexed(types, table, stringIndex, index)
    requires id < |types| && EntryFor(types, index, stringIndex, id, c)
    ensures RefsBelow(c, |table|)
    decreases id
  {
    hide Refs, NameRefs, Encoding, Names;
    if IsErased(types[id]) {
      EntryRefsBelow(types, table, stringIndex, index, Children(types[id])[0], c);
    } else {
      forall k | 0 <= k < |Refs(c)|
        ensures Refs(c)[k] < |table|
      {
        assert IsIndexOf(index, Children(types[id])[k], Refs(c)[k]);
      }
    }
  }

  /**
   * What is written for a type reads back as the type with its alias, nominal and qualified layers
   * taken off, if and only if no name in it is empty and no sum in it is.
   */
  lemma {:induction false} EntryReadsBackIff(
    types: seq<TypeData>, table: seq<CompactType>, strings: seq<string>, stringIndex: map<string, nat>, index: map<TypeId, nat>,
    id: TypeId, c: CompactType, limit: nat)
    requires WellFounded(types) && StringsOk(strings, stringIndex) && Indexed(types, table, stringIndex, index) && Ordered(table, index)
    requires id < |types| && EntryFor(types, index, stringIndex, id, c) && RefsBelow(c, limit) && limit <= |table|
    ensures ReadEntry(table, strings, c, limit) == Erase(types, id) <==> ReadableTree(types, id)
    decreases id
  {
    hide Encoding, Refs, NameRefs, ReadHead, HeadOf, Names, Readable, StringsOk, AreNameIds;
    var t := types[id];
    if IsErased(t) {
      EntryReadsBackIff(types, table, strings, stringIndex, index, Children(t)[0], c, limit);
    } else {
      HeadReadsBackIff(t, Refs(c), strings, stringIndex, NameRefs(c));
      var read, plain := ReadEntry(table, strings, c, limit), Erase(types, id);
      forall k | 0 <= k < |Refs(c)|
        ensures Children(t)[k] < id
        ensures read.children[k] == plain.children[k] <==> ReadableTree(types, Children(t)[k])
      {
        assert IsIndexOf(index, Children(t)[k], Refs(c)[k]);
        assert Refs(c)[k] < limit;
        assert read.children[k] == Read(table, strings, Refs(c)[k], limit);
        assert Read(table, strings, Refs(c)[k], limit) == ReadEntry(table, strings, table[Refs(c)[k]], Refs(c)[k]);
        assert plain.children[k] == Erase(types, Children(t)[k]);
        EntryReadsBackIff(types, table, strings, stringIndex, index, Children(t)[k], table[Refs(c)[k]], Refs(c)[k]);
      }
    }
  }

  /** The id recorded for a type is the slot that says what the type says. */
  lemma IndexedTypeReadsBackIff(types: seq<TypeData>, table: seq<CompactType>, strings: seq<string>, stringIndex: map<string, nat>,
                                index: map<TypeId, nat>, id: TypeId)
    requires WellFounded(types) && StringsOk(strings, stringIndex) && Indexed(types, table, stringIndex, index) && Ordered(table, index)
    requires id in index
    ensures Read(table, strings, index[id], |table|) == Erase(types, id) <==> ReadableTree(types, id)
  {
    EntryReadsBackIff(types, table, strings, stringIndex, index, id, table[index[id]], index[id]);
  }

  // ---- functions ----

  datatype HirFunction = HirFunction(
    name: string,
    params: seq<TypeId>,
    returnType: TypeId,
    isVariadic: bool,
    isState: bool,
    isForeignC: bool,
    usesTailCC: bool)

  /** A function's types are in the table or invalid. */
  predicate Typed(types: seq<TypeData>, f: HirFunction) {
    && (f.returnType == INVALID_TYPE || f.returnType < |types|)
    && forall k :: 0 <= k < |f.params| ==> f.params[k] == INVALID_TYPE || f.params[k] < |types|
  }

  datatype CompactFunction = CompactFunction(
    name: string,
    nameId: nat,
    signatureTypeId: nat,
    paramTypeIds: seq<nat>,
    returnTypeId: nat,
    isVariadic: bool,
    isState: bool,
    isForeignC: bool,
    usesTailCC: bool)

  datatype Artifact = Artifact(strings: seq<string>, types: seq<CompactType>, functions: seq<CompactFunction>)

  /** The flag byte: one bit for each of four properties. */
  function SignatureFlags(isVariadic: bool, isState: bool, isForeignC: bool, usesTailCC: bool): (flags: nat)
    ensures flags < 16
  {
    (if isVariadic then 1 else 0) + (if isState then 2 else 0) + (if isForeignC then 4 else 0) + (if usesTailCC then 8 else 0)
  }

  /** Each property is read back from its own bit. */
  lemma FlagsReadBack(isVariadic: bool, isState: bool, isForeignC: bool, usesTailCC: bool)
    ensures var flags := SignatureFlags(isVariadic, isState, isForeignC, usesTailCC);
      && (flags % 2 == 1 <==> isVariadic) && (flags / 2 % 2 == 1 <==> isState)
      && (flags / 4 % 2 == 1 <==> isForeignC) && (flags / 8 % 2 == 1 <==> usesTailCC)
  {
  }

  /** The name a function goes by when its own is empty is that of its string id. */
  function FunctionName(artifact: Artifact, f: CompactFunction): string {
    if f.name == "" && f.nameId < |artifact.strings| then artifact.strings[f.nameId] else f.name
  }

  predicate Matches(artifact: Artifact, nameId: nat, signatureTypeId: nat, index: nat)
    requires nameId < |artifact.strings| && signatureTypeId < |artifact.types| && index < |artifact.functions|
  {
    var f, signature := artifact.functions[index], artifact.types[signatureTypeId];
    && FunctionName(artifact, f) == artifact.strings[nameId]
    && f.signatureTypeId == signatureTypeId
    && f.returnTypeId == signature.ref0
    && f.paramTypeIds == signature.args
    && SignatureFlags(f.isVariadic, f.isState, f.isForeignC, f.usesTailCC) == signature.flags
  }

  /** A function matches when the name is its own, the signature is its own entry, and that entry has its return
      type, its parameter types and each of its four properties in its bit. */
  lemma MatchesIff(artifact: Artifact, nameId: nat, signatureTypeId: nat, index: nat)
    requires nameId < |artifact.strings| && signatureTypeId < |artifact.types| && index < |artifact.functions|
    requires artifact.types[signatureTypeId].flags < 16
    ensures var f, signature, name := artifact.functions[index], artifact.types[signatureTypeId], artifact.strings[nameId];
      Matches(artifact, nameId, signatureTypeId, index) <==>
      && (if f.name != "" then f.name == name else if f.nameId < |artifact.strings| then artifact.strings[f.nameId] == name else name == "")
      && f.signatureTypeId == signatureTypeId && f.returnTypeId == signature.ref0 && f.paramTypeIds == signature.args
      && (f.isVariadic <==> signature.flags % 2 == 1) && (f.isState <==> signature.flags / 2 % 2 == 1)
      && (f.isForeignC <==> signature.flags / 4 % 2 == 1) && (f.usesTailCC <==> signature.flags / 8 % 2 == 1)
  {
    var f := artifact.functions[index];
    FlagsReadBack(f.isVariadic, f.isState, f.isForeignC, f.usesTailCC);
  }

  /** Both ids name something, and the signature is a function type with no unknown flags. */
  predicate IsReference(artifact: Artifact, nameId: nat, signatureTypeId: nat) {
    && nameId < |artifact.strings|
    && signatureTypeId < |artifact.types|
    && artifact.types[signatureTypeId].kind == KFn
    && artifact.types[signatureTypeId].flags < 16
  }

  /** The reference names function i and no other. */
  ghost predicate ResolvesTo(artifact: Artifact, nameId: nat, signatureTypeId: nat, i: nat) {
    && IsReference(artifact, nameId, signatureTypeId)
    && i < |artifact.functions|
    && forall j :: 0 <= j < |artifact.functions| ==> (Matches(artifact, nameId, signatureTypeId, j) <==> j == i)
  }

  /** A missing or ambiguous match is no answer. */
  method ResolveFunctionReference(artifact: Artifact, nameId: nat, signatureTypeId: nat) returns (found: Option<nat>)
    ensures forall i: nat :: found == Some(i) <==> ResolvesTo(artifact, nameId, signatureTypeId, i)
  {
    if nameId >= |artifact.strings| || signatureTypeId >= |artifact.types| {
      return None;
    }
    var signature := artifact.types[signatureTypeId];
    if signature.kind != KFn || signature.flags >= 16 {
      return None;
    }
    var name := artifact.strings[nameId];
    found := None;
    for index := 0 to |artifact.functions|
      invariant found.Some? ==> found.value < index
      invariant forall j :: 0 <= j < index ==> (Matches(artifact, nameId, signatureTypeId, j) <==> found == Some(j))
    {
      var f := artifact.functions[index];
      var functionName := if f.name == "" && f.nameId < |artifact.strings| then artifact.strings[f.nameId] else f.name;
      if functionName != name || f.signatureTypeId != signatureTypeId || f.returnTypeId != signature.ref0 || f.paramTypeIds != signature.args {
        continue;
      }
      if SignatureFlags(f.isVariadic, f.isState, f.isForeignC, f.usesTailCC) != signature.flags {
        continue;
      }
      if found.Some? {
        assert Matches(artifact, nameId, signatureTypeId, found.value) && Matches(artifact, nameId, signatureTypeId, index);
        return None;
      }
      found := Some(index);
    }
  }

  /** What the code section holds for function i of the module. */
  ghost predicate WrittenFor(table: seq<CompactType>, strings: seq<string>, f: CompactFunction, hir: HirFunction) {
    && f.name == hir.name
    && (if hir.name == "" then f.nameId == 0 else f.nameId < |strings| && strings[f.nameId] == hir.name)
    && f.isVariadic == hir.isVariadic && f.isState == hir.isState
    && f.isForeignC == hir.isForeignC && f.usesTailCC == hir.usesTailCC
    && f.signatureTypeId < |table|
    && table[f.signatureTypeId] ==
       CompactType(KFn, flags := SignatureFlags(f.isVariadic, f.isState, f.isForeignC, f.usesTailCC),
                   ref0 := f.returnTypeId, args := f.paramTypeIds)
  }

  /** Every function is written, each with a signature entry of its own. */
  ghost predicate AllWritten(table: seq<CompactType>, strings: seq<string>, functions: seq<CompactFunction>, hir: seq<HirFunction>) {
    && |functions| <= |hir|
    && (forall i :: 0 <= i < |functions| ==> WrittenFor(table, strings, functions[i], hir[i]))
    && (forall i, j :: 0 <= i < j < |functions| ==> functions[i].signatureTypeId < functions[j].signatureTypeId)
  }

  lemma WrittenStays(table: seq<CompactType>, strings: seq<string>, table': seq<CompactType>, strings': seq<string>,
                     functions: seq<CompactFunction>, hir: seq<HirFunction>)
    requires AllWritten(table, strings, functions, hir) && table <= table' && strings <= strings'
    ensures AllWritten(table', strings', functions, hir)
  {
  }

  /**
   * The pair a call of function i is written as has i as its only match, even among functions of the
   * same name and type, as long as the artifact has any string at all; a function with a name of its
   * own guarantees that.
   */
  lemma ReferenceNamesItsFunction(artifact: Artifact, hir: seq<HirFunction>, i: nat)
    requires i < |artifact.functions| && AllWritten(artifact.types, artifact.strings, artifact.functions, hir)
    ensures var f := artifact.functions[i]; ResolvesTo(artifact, f.nameId, f.signatureTypeId, i) <==> artifact.strings != []
    ensures hir[i].name != "" ==> artifact.strings != []
  {
    var f := artifact.functions[i];
    assert WrittenFor(artifact.types, artifact.strings, f, hir[i]);
    if artifact.strings != [] {
      forall j | 0 <= j < |artifact.functions|
        ensures Matches(artifact, f.nameId, f.signatureTypeId, j) <==> j == i
      {
        if j < i {
          assert artifact.functions[j].signatureTypeId < f.signatureTypeId;
        } else if i < j {
          assert f.signatureTypeId < artifact.functions[j].signatureTypeId;
        }
      }
    }
  }

  /** Where a call goes, as it is written: a name and a signature, or twice the "none" value. */
  datatype Reference = Reference(nameId: nat, signatureTypeId: nat)

  const NO_REFERENCE := Reference(0xFFFF_FFFF, 0xFFFF_FFFF)

  class ArtifactBuilder {
    const types: seq<TypeData>
    var strings: seq<string>
    var stringIndex: map<string, nat>
    var compactTypes: seq<CompactType>
    var typeIndex: map<TypeId, nat>

    ghost predicate Valid()
      reads this
    {
      && WellFounded(types)
      && StringsOk(strings, stringIndex)
      && Ordered(compactTypes, typeIndex)
      && Indexed(types, compactTypes, stringIndex, typeIndex)
    }

    constructor (types: seq<TypeData>)
      requires WellFounded(types)
      ensures Valid() && this.types == types && compactTypes == [] && strings == [] && typeIndex == map[]
    {
      this.types := types;
      strings := [];
      stringIndex := map[];
      compactTypes := [];
      typeIndex := map[];
    }

    method InternString(s: string) returns (id: nat)
      requires Valid()
      modifies this`strings, this`stringIndex
      ensures Valid() && old(strings) <= strings && IsNameId(stringIndex, s, id)
      ensures Extends(old(stringIndex), stringIndex)
      ensures s != "" ==> id < |strings| && strings[id] == s
    {
      if s == "" {
        return 0;
      }
      if s in stringIndex {
        return stringIndex[s];
      }
      id := |strings|;
      IndexedStays(types, compactTypes, stringIndex, typeIndex, compactTypes, stringIndex[s := id]);
      StringsGrow(strings, stringIndex, s);
      strings := strings + [s];
      stringIndex := stringIndex[s := id];
    }

    method InternStrings(names: seq<string>) returns (ids: seq<nat>)
      requires Valid()
      modifies this`strings, this`stringIndex
      ensures Valid() && old(strings) <= strings && AreNameIds(stringIndex, names, ids)
      ensures Extends(old(stringIndex), stringIndex)
    {
      hide Indexed, StringsOk, WellFounded, Ordered;
      ids := [];
      for i := 0 to |names|
        invariant Valid() && old(strings) <= strings && AreNameIds(stringIndex, names[..i], ids)
        invariant Extends(old(stringIndex), stringIndex)
      {
        var id := InternString(names[i]);
        assert names[..i + 1] == names[..i] + [names[i]];
        ids := ids + [id];
      }
      assert names[..|names|] == names;
    }

    /** Only additions, and nothing at all when the type is already there. */
    method InternType(id: TypeId) returns (compactId: nat)
      requires Valid() && (id == INVALID_TYPE || id < |types|)
      modifies this`strings, this`stringIndex, this`compactTypes, this`typeIndex
      ensures Valid() && IsIndexOf(typeIndex, id, compactId)
      ensures old(strings) <= strings && old(compactTypes) <= compactTypes
      ensures Extends(old(stringIndex), stringIndex) && Extends(old(typeIndex), typeIndex)
      ensures forall other :: other in typeIndex ==> other in old(typeIndex) || other <= id
      ensures id == INVALID_TYPE || id in old(typeIndex) ==>
                strings == old(strings) && stringIndex == old(stringIndex) &&
                compactTypes == old(compactTypes) && typeIndex == old(typeIndex)
      decreases if id == INVALID_TYPE then 0 else id + 1, 3
    {
      hide Children, Ordered, StringsOk, EntryFor, RefsBelow;
      if id == INVALID_TYPE {
        return 0;
      }
      if id in typeIndex {
        return typeIndex[id];
      }
      var ignored := InternTypes(Children(types[id]), id);
      var entry := ConvertType(id);
      compactId := |compactTypes|;
      EntryRefsBelow(types, compactTypes, stringIndex, typeIndex, id, entry);
      IndexedGrows(types, compactTypes, stringIndex, typeIndex, id, entry);
      OrderedGrows(compactTypes, typeIndex, id, entry);
      compactTypes := compactTypes + [entry];
      typeIndex := typeIndex[id := compactId];
    }

    method InternTypes(ids: seq<TypeId>, ghost bound: nat) returns (compactIds: seq<nat>)
      requires Valid() && bound <= |types| && forall k :: 0 <= k < |ids| ==> ids[k] == INVALID_TYPE || ids[k] < bound
      modifies this`strings, this`stringIndex, this`compactTypes, this`typeIndex
      ensures Valid() && AreIndexOf(typeIndex, ids, compactIds)
      ensures old(strings) <= strings && old(compactTypes) <= compactTypes
      ensures Extends(old(stringIndex), stringIndex) && Extends(old(typeIndex), typeIndex)
      ensures forall other :: other in typeIndex ==> other in old(typeIndex) || other < bound
      ensures (forall k :: 0 <= k < |ids| ==> ids[k] == INVALID_TYPE || ids[k] in old(typeIndex)) ==>
                strings == old(strings) && stringIndex == old(stringIndex) &&
                compactTypes == old(compactTypes) && typeIndex == old(typeIndex)
      decreases bound, 4
    {
      hide Indexed, StringsOk, WellFounded, Ordered;
      compactIds := [];
      for i := 0 to |ids|
        invariant Valid() && AreIndexOf(typeIndex, ids[..i], compactIds)
        invariant old(strings) <= strings && old(compactTypes) <= compactTypes
        invariant Extends(old(stringIndex), stringIndex) && Extends(old(typeIndex), typeIndex)
        invariant forall other :: other in typeIndex ==> other in old(typeIndex) || other < bound
        invariant (forall k :: 0 <= k < i ==> ids[k] == INVALID_TYPE || ids[k] in old(typeIndex)) ==>
                    strings == old(strings) && stringIndex == old(stringIndex) &&
                    compactTypes == old(compactTypes) && typeIndex == old(typeIndex)
      {
        var compactId := InternType(ids[i]);
        assert ids[..i + 1] == ids[..i] + [ids[i]];
        compactIds := compactIds + [compactId];
      }
      assert ids[..|ids|] == ids;
    }

    /** Once a type's children are interned, converting it adds no type. An erased layer converts as what is under it. */
    method ConvertType(id: TypeId) returns (out: CompactType)
      requires Valid() && id < |types| && ChildrenIndexed(types, typeIndex, id)
      modifies this`strings, this`stringIndex, this`compactTypes, this`typeIndex
      ensures Valid() && EntryFor(types, typeIndex, stringIndex, id, out)
      ensures compactTypes == old(compactTypes) && typeIndex == old(typeIndex)
      ensures old(strings) <= strings && Extends(old(stringIndex), stringIndex)
      decreases id + 1, 2
    {
      hide Indexed, StringsOk, WellFounded, Ordered, EntryFor, Extends, Children, ChildrenIndexed, WrittenAs;
      var t := types[id];
      ChildrenOfNode(types, typeIndex, id);
      if t.Alias? || t.Nominal? {
        ErasedNode(types, compactTypes, stringIndex, typeIndex, id, t.target);
        out := ConvertType(t.target);
        ErasedEntry(types, typeIndex, stringIndex, id, out);
      } else if t.Qualified? {
        ErasedNode(types, compactTypes, stringIndex, typeIndex, id, t.inner);
        out := ConvertType(t.inner);
        ErasedEntry(types, typeIndex, stringIndex, id, out);
      } else {
        out := ConvertNode(id);
        WrittenIsEntry(types, typeIndex, stringIndex, id, out);
      }
    }

    lemma TypesAreWellFounded()
      requires Valid()
      ensures WellFounded(types)
    {
    }

    method ConvertNode(id: TypeId) returns (out: CompactType)
      requires Valid() && id < |types| && ChildrenIndexed(types, typeIndex, id) && !IsErased(types[id])
      modifies this`strings, this`stringIndex, this`compactTypes, this`typeIndex
      ensures Valid() && WrittenAs(typeIndex, stringIndex, types[id], out)
      ensures compactTypes == old(compactTypes) && typeIndex == old(typeIndex)
      ensures old(strings) <= strings && Extends(old(stringIndex), stringIndex)
      decreases id + 1, 1
    {
      hide Indexed, StringsOk, Ordered, EntryFor, WellFounded, AreIndexOf, AreNameIds, IsIndexOf, IsNameId, Extends, Encoding, Children, Names, ChildrenIndexed, PlainEntry;
      ExtendsItself(stringIndex);
      TypesAreWellFounded();
      var t := types[id];
      ChildrenOfNode(types, typeIndex, id);
      match t {
        case Ptr(pointee, isMut, _) =>
          var ref := InternType(pointee);
          out := CompactType(KPtr, ref0 := ref, flags := if isMut then 1 else 0);
        case Array(elem, count) =>
          var ref := InternType(elem);
          out := CompactType(KArray, ref0 := ref, ref1 := count);
        case Optional(inner) =>
          var ref := InternType(inner);
          out := CompactType(KOptional, ref0 := ref);
        case Failable(inner) =>
          var ref := InternType(inner);
          out := CompactType(KFailable, ref0 := ref);
        case Trait(name) =>
          var nameId := InternString(name);
          out := CompactType(KTrait, ref0 := nameId);
        case Slice(elem) =>
          var ref := InternType(elem);
          out := CompactType(KSlice, ref0 := ref);
        case Dyn(target, methodCount) =>
          var ref := InternType(target);
          out := CompactType(KDyn, ref0 := ref, ref1 := methodCount);
        case GenericParam(owner, index) =>
          var nameId := InternString(owner);
          out := CompactType(KGenericParam, ref0 := nameId, ref1 := index);
        case Fn(_, _) => out := ConvertList(id);
        case Pack(_, _) => out := ConvertList(id);
        case Sum(_) => out := ConvertList(id);
        case Incomplete(_, _) => out := ConvertList(id);
        case _ =>
          out := PlainEntry(t);
      }
    }

    /** The kinds that are made of a list of types. */
    method ConvertList(id: TypeId) returns (out: CompactType)
      requires Valid() && id < |types| && ChildrenIndexed(types, typeIndex, id)
      requires types[id].Fn? || types[id].Pack? || types[id].Sum? || types[id].Incomplete?
      modifies this`strings, this`stringIndex, this`compactTypes, this`typeIndex
      ensures Valid() && WrittenAs(typeIndex, stringIndex, types[id], out)
      ensures compactTypes == old(compactTypes) && typeIndex == old(typeIndex)
      ensures old(strings) <= strings && Extends(old(stringIndex), stringIndex)
      decreases id + 1, 0
    {
      hide Indexed, StringsOk, Ordered, EntryFor, WellFounded, AreIndexOf, AreNameIds, IsIndexOf, IsNameId, Extends, Encoding, Children, Names, ChildrenIndexed, PlainEntry;
      ExtendsItself(stringIndex);
      TypesAreWellFounded();
      var t := types[id];
      ChildrenOfNode(types, typeIndex, id);
      match t {
        case Fn(params, ret) =>
          var ref := InternType(ret);
          var args := InternTypes(params, id);
          out := CompactType(KFn, ref0 := ref, args := args);
        case Pack(members, names) =>
          var args := InternTypes(members, id);
          var argNames := InternStrings(names);
          out := CompactType(KPack, args := args, argNames := argNames);
        case Sum(members) =>
          var args := InternTypes(members, id);
          out := CompactType(KUnion, args := args);
        case Incomplete(base, args) =>
          var ref := InternType(base);
          var argIds := InternTypes(args, id);
          out := CompactType(KIncomplete, ref0 := ref, args := argIds);
      }
    }

    /** A signature gets an entry of its own even if an equal one exists. It refers to earlier entries,
        unless it is the first entry of all: then its types are invalid ones, and it refers to itself. */
    method InternFunctionSignature(f: HirFunction) returns (signatureId: nat)
      requires Valid() && Typed(types, f)
      modifies this`strings, this`stringIndex, this`compactTypes, this`typeIndex
      ensures Valid() && old(strings) <= strings && old(compactTypes) <= compactTypes && Extends(old(typeIndex), typeIndex)
      ensures old(|compactTypes|) <= signatureId == |compactTypes| - 1
      ensures var signature := compactTypes[signatureId];
              && signature == CompactType(KFn, flags := SignatureFlags(f.isVariadic, f.isState, f.isForeignC, f.usesTailCC),
                                          ref0 := signature.ref0, args := signature.args)
              && IsIndexOf(typeIndex, f.returnType, signature.ref0)
              && AreIndexOf(typeIndex, f.params, signature.args)
      ensures RefsBelow(compactTypes[signatureId], signatureId) <==> signatureId > 0
    {
      hide StringsOk, EntryFor, SignatureFlags;
      var ref0 := InternType(f.returnType);
      var args := InternTypes(f.params, |types|);
      var flags := SignatureFlags(f.isVariadic, f.isState, f.isForeignC, f.usesTailCC);
      signatureId := |compactTypes|;
      var signature := CompactType(KFn, flags := flags, ref0 := ref0, args := args);
      assert Refs(signature)[0] == ref0;
      forall k | 0 <= k < |Refs(signature)|
        ensures Refs(signature)[k] == 0 || Refs(signature)[k] < |compactTypes|
      {
        if k > 0 {
          assert IsIndexOf(typeIndex, f.params[k - 1], args[k - 1]);
        }
      }
      OrderedStays(compactTypes, typeIndex, signature);
      ExtendsItself(stringIndex);
      IndexedStays(types, compactTypes, stringIndex, typeIndex, compactTypes + [signature], stringIndex);
      compactTypes := compactTypes + [signature];
    }

    /** The part of writing a function that its callers' references depend on. */
    method WriteFunction(f: HirFunction) returns (out: CompactFunction)
      requires Valid() && Typed(types, f)
      modifies this`strings, this`stringIndex, this`compactTypes, this`typeIndex
      ensures Valid() && old(strings) <= strings && old(compactTypes) <= compactTypes
      ensures WrittenFor(compactTypes, strings, out, f) && out.signatureTypeId >= old(|compactTypes|)
    {
      hide Ordered, StringsOk, Indexed, SignatureFlags, Children;
      var nameId := InternString(f.name);
      var returnTypeId := InternType(f.returnType);
      var paramTypeIds := InternTypes(f.params, |types|);
      var signatureId := InternFunctionSignature(f);
      out := CompactFunction(f.name, nameId, signatureId, paramTypeIds, returnTypeId,
                             f.isVariadic, f.isState, f.isForeignC, f.usesTailCC);
      assert compactTypes[signatureId].args == paramTypeIds;
    }

    method WriteFunctions(hir: seq<HirFunction>) returns (functions: seq<CompactFunction>)
      requires Valid()
      requires forall i :: 0 <= i < |hir| ==> Typed(types, hir[i])
      modifies this`strings, this`stringIndex, this`compactTypes, this`typeIndex
      ensures Valid() && |functions| == |hir| && AllWritten(compactTypes, strings, functions, hir)
    {
      hide Ordered, StringsOk, Indexed, WellFounded, WrittenFor;
      functions := [];
      for i := 0 to |hir|
        invariant Valid() && |functions| == i && AllWritten(compactTypes, strings, functions, hir)
        invariant forall k :: 0 <= k < i ==> functions[k].signatureTypeId < |compactTypes|
      {
        ghost var table0, strings0 := compactTypes, strings;
        var f := WriteFunction(hir[i]);
        WrittenStays(table0, strings0, compactTypes, strings, functions, hir);
        WrittenIsInTable(compactTypes, strings, f, hir[i]);
        functions := functions + [f];
      }
    }

    /** What a direct call, a state tail call or a vtable slot that targets a function is written as. */
    method WriteReference(hir: seq<HirFunction>, functions: seq<CompactFunction>, target: nat) returns (ref: Reference)
      requires Valid() && |functions| == |hir| && AllWritten(compactTypes, strings, functions, hir)
      modifies this`strings, this`stringIndex
      ensures Valid() && AllWritten(compactTypes, strings, functions, hir)
      ensures ref == if target < |hir| then Reference(functions[target].nameId, functions[target].signatureTypeId) else NO_REFERENCE
    {
      hide Ordered, Indexed, WellFounded;
      if target >= |hir| {
        return NO_REFERENCE;
      }
      assert WrittenFor(compactTypes, strings, functions[target], hir[target]);
      ghost var strings0 := strings;
      var nameId := InternString(hir[target].name);
      WrittenStays(compactTypes, strings0, compactTypes, strings, functions, hir);
      ref := Reference(nameId, functions[target].signatureTypeId);
    }

    /** Writing a module: its functions, then every call; a call resolves to the function it was a call of. */
    method Build(hir: seq<HirFunction>, calls: seq<nat>) returns (artifact: Artifact, refs: seq<Reference>)
      requires Valid()
      requires forall i :: 0 <= i < |hir| ==> Typed(types, hir[i])
      modifies this`strings, this`stringIndex, this`compactTypes, this`typeIndex
      ensures Valid() && |refs| == |calls| && |artifact.functions| == |hir|
      ensures artifact.strings == strings && artifact.types == compactTypes
      ensures forall k :: 0 <= k < |calls| && calls[k] < |hir| ==>
                            (ResolvesTo(artifact, refs[k].nameId, refs[k].signatureTypeId, calls[k]) <==> artifact.strings != []) &&
                            (hir[calls[k]].name != "" ==> artifact.strings != [])
    {
      hide Ordered, Indexed, StringsOk, WellFounded, AllWritten;
      var functions := WriteFunctions(hir);
      refs := [];
      for k := 0 to |calls|
        invariant Valid() && AllWritten(compactTypes, strings, functions, hir) && |refs| == k
        invariant forall j :: 0 <= j < k && calls[j] < |hir| ==>
                                refs[j] == Reference(functions[calls[j]].nameId, functions[calls[j]].signatureTypeId)
      {
        var ref := WriteReference(hir, functions, calls[k]);
        refs := refs + [ref];
      }
      artifact := Artifact(strings, compactTypes, functions);
      forall k | 0 <= k < |calls| && calls[k] < |hir|
        ensures ResolvesTo(artifact, refs[k].nameId, refs[k].signatureTypeId, calls[k]) <==> artifact.strings != []
        ensures hir[calls[k]].name != "" ==> artifact.strings != []
      {
        ReferenceNamesItsFunction(artifact, hir, calls[k]);
      }
    }
  }

  lemma WrittenIsInTable(table: seq<CompactType>, strings: seq<string>, f: CompactFunction, hir: HirFunction)
    requires WrittenFor(table, strings, f, hir)
    ensures f.signatureTypeId < |table|
  {
  }

  lemma StringsGrow(strings: seq<string>, index: map<string, nat>, s: string)
    requires StringsOk(strings, index) && s != "" && s !in index
    ensures StringsOk(strings + [s], index[s := |strings|])
  {
  }

  lemma OrderedGrows(table: seq<CompactType>, index: map<TypeId, nat>, id: TypeId, c: CompactType)
    requires Ordered(table, index) && RefsBelow(c, |table|)
    ensures Ordered(table + [c], index[id := |table|])
  {
    hide RefsBelow;
  }

  lemma OrderedStays(table: seq<CompactType>, index: map<TypeId, nat>, c: CompactType)
    requires Ordered(table, index)
    ensures Ordered(table + [c], index)
  {
    hide RefsBelow;
  }
}
