/**
 * The on-disk artifact store: it keeps a manifest for invalidation and the registry of canonical
 * tags. What the disk does is a parameter of each method.
 */
module Stores {
  import opened Collections
  import opened Reachability
  import opened Manifests
  import opened CanonicalRegistry

  /** The entries that neither are x nor depend on it. */
  ghost function Survivors(byPath: map<string, Entry>, x: string): map<string, Entry> {
    map q | q in byPath && q != x && !DependsOn(byPath, q, x) :: byPath[q]
  }

  ghost function Dependents(byPath: map<string, Entry>, x: string): set<string> {
    set q | q in byPath && DependsOn(byPath, q, x)
  }

  lemma DependentIsRecorded(byPath: map<string, Entry>, q: string, x: string)
    requires DependsOn(byPath, q, x)
    ensures q in byPath
  {
    var walk :| WalkBetween(Imports(byPath), walk, q, x);
    assert walk[1] in Next(Imports(byPath), walk[0]);
  }

  /** Every recorded module a survivor's import chain passes through survives too. */
  lemma ChainSurvives(byPath: map<string, Entry>, x: string, walk: seq<string>, i: nat)
    requires walk != [] && walk[0] in Survivors(byPath, x) && IsWalk(Imports(byPath), walk)
    requires i < |walk| && walk[i] in byPath
    ensures walk[i] in Survivors(byPath, x)
  {
    var g, q := Imports(byPath), walk[0];
    if i > 0 {
      assert WalkBetween(g, walk[..i + 1], q, walk[i]);
      if DependsOn(byPath, walk[i], x) {
        ReachesTransitive(g, q, walk[i], x);
      }
    }
  }

  /** Invalidation cuts no import chain of a survivor, and joins none. */
  lemma SurvivorsKeepChains(byPath: map<string, Entry>, x: string, q: string, y: string)
    requires q in Survivors(byPath, x)
    ensures DependsOn(Survivors(byPath, x), q, y) <==> DependsOn(byPath, q, y)
  {
    var before, after := Imports(byPath), Imports(Survivors(byPath, x));
    if Reaches(after, q, y) {
      SubgraphReaches(after, before, q, y);
    }
    if Reaches(before, q, y) {
      var walk :| WalkBetween(before, walk, q, y);
      forall i | 0 < i < |walk|
        ensures walk[i] in Next(after, walk[i - 1])
      {
        assert walk[i] in Next(before, walk[i - 1]);
        ChainSurvives(byPath, x, walk, i - 1);
      }
      assert WalkBetween(after, walk, q, y);
    }
  }

  /** Invalidating two modules one after the other leaves the same manifest in either order. */
  lemma InvalidationCommutes(byPath: map<string, Entry>, x: string, y: string)
    ensures Survivors(Survivors(byPath, x), y) == Survivors(Survivors(byPath, y), x)
    ensures Survivors(Survivors(byPath, x), x) == Survivors(byPath, x)
  {
    forall q | q in byPath
      ensures q in Survivors(byPath, x) ==> (DependsOn(Survivors(byPath, x), q, y) <==> DependsOn(byPath, q, y))
      ensures q in Survivors(byPath, y) ==> (DependsOn(Survivors(byPath, y), q, x) <==> DependsOn(byPath, q, x))
      ensures q in Survivors(byPath, x) ==> !DependsOn(Survivors(byPath, x), q, x)
    {
      if q in Survivors(byPath, x) {
        SurvivorsKeepChains(byPath, x, q, y);
        SurvivorsKeepChains(byPath, x, q, x);
      }
      if q in Survivors(byPath, y) {
        SurvivorsKeepChains(byPath, y, q, x);
      }
    }
  }

  /** A set of recorded modules, without x, none of which imports x or a recorded module outside the set. */
  ghost predicate ClosedWithout(byPath: map<string, Entry>, kept: set<string>, x: string) {
    x !in kept && forall q :: q in kept ==>
      q in byPath && forall d :: d in byPath[q].dependencies ==> d != x && (d in byPath ==> d in kept)
  }

  /** What survives is the largest such set, with its entries: nothing that stays imports what is gone, and
      nothing goes without need. */
  lemma SurvivorsAreLargest(byPath: map<string, Entry>, x: string, kept: set<string>)
    ensures ClosedWithout(byPath, Survivors(byPath, x).Keys, x)
    ensures ClosedWithout(byPath, kept, x) ==> kept <= Survivors(byPath, x).Keys
    ensures forall q :: q in Survivors(byPath, x) ==> Survivors(byPath, x)[q] == byPath[q]
  {
    var g := Imports(byPath);
    forall q, d | q in Survivors(byPath, x) && d in byPath[q].dependencies
      ensures d != x && (d in byPath ==> d in Survivors(byPath, x))
    {
      assert d in Next(g, q);
      EdgeReaches(g, q, d);
      if Reaches(g, d, x) {
        ReachesTransitive(g, q, d, x);
      }
    }
    if ClosedWithout(byPath, kept, x) {
      forall q | q in kept
        ensures !DependsOn(byPath, q, x)
      {
        if DependsOn(byPath, q, x) {
          var walk :| WalkBetween(g, walk, q, x);
          KeptAlong(byPath, kept, x, walk, |walk| - 1);
        }
      }
    }
  }

  lemma {:induction false} KeptAlong(byPath: map<string, Entry>, kept: set<string>, x: string, walk: seq<string>, i: nat)
    requires ClosedWithout(byPath, kept, x) && IsWalk(Imports(byPath), walk) && i < |walk| && walk[0] in kept
    ensures walk[i] != x && (walk[i] in byPath ==> walk[i] in kept)
  {
    if i > 0 {
      KeptAlong(byPath, kept, x, walk, i - 1);
      assert walk[i] in Next(Imports(byPath), walk[i - 1]);
    }
  }

  datatype Metrics = Metrics(hits: nat, misses: nat, invalid: nat, writes: nat, evictions: nat)

  /** A dependency as an artifact records it: the module and the ABI hash it was compiled against. */
  datatype DepRef = DepRef(canonicalPath: string, publicAbiHi: nat, publicAbiLo: nat)

  /** What reading an artifact file gives: no file, a file that fails validation, or a valid artifact. */
  datatype FileContent = Missing | Invalid | Valid(deps: seq<DepRef>)

  datatype WriteOutcome = NothingToWrite | OpenFailed | WriteFailed | Written

  /** The manifest still has the dependency, and with the ABI the artifact was compiled against. */
  predicate UpToDate(byPath: map<string, Entry>, dep: DepRef) {
    && dep.canonicalPath in byPath
    && var entry := byPath[dep.canonicalPath];
       || (dep.publicAbiHi == 0 && dep.publicAbiLo == 0)
       || (entry.publicAbiHi == dep.publicAbiHi && entry.publicAbiLo == dep.publicAbiLo)
  }

  /** Reading the artifact of a module gives it: it is valid, and all its dependencies are up to date. */
  predicate Hits(byPath: map<string, Entry>, content: FileContent) {
    content.Valid? && forall i :: 0 <= i < |content.deps| ==> UpToDate(byPath, content.deps[i])
  }

  /** In terms of the hashes: each dependency is recorded, and unless the artifact names no hash for it, both
      halves of the recorded hash are those it was compiled against. */
  lemma HitsIff(byPath: map<string, Entry>, content: FileContent)
    ensures Hits(byPath, content) <==>
            content.Valid? &&
            forall dep :: dep in content.deps ==>
              dep.canonicalPath in byPath &&
              ((dep.publicAbiHi, dep.publicAbiLo) != (0, 0) ==>
                 byPath[dep.canonicalPath].publicAbiHi == dep.publicAbiHi && byPath[dep.canonicalPath].publicAbiLo == dep.publicAbiLo)
  {
    if content.Valid? && forall dep :: dep in content.deps ==> UpToDate(byPath, dep) {
      assert forall i :: 0 <= i < |content.deps| ==> content.deps[i] in content.deps;
    }
  }

  // ---- runs of the store ----

  /** What is done to a store between two looks at it. */
  datatype Operation =
    | Putting(entry: Entry, outcome: WriteOutcome)
    | Loading(path: string, content: FileContent)
    | Invalidating(path: string)

  /** What becomes of the manifest, its index being exact. */
  ghost function Done(byPath: map<string, Entry>, op: Operation): map<string, Entry> {
    match op
    case Putting(entry, outcome) => if outcome.Written? then byPath[entry.canonicalPath := entry] else byPath
    case Loading(path, content) => if Hits(byPath, content) || content.Missing? then byPath else byPath - {path}
    case Invalidating(path) => Survivors(byPath, path)
  }

  ghost function AllDone(byPath: map<string, Entry>, ops: seq<Operation>): map<string, Entry> {
    if ops == [] then byPath else Done(AllDone(byPath, ops[..|ops| - 1]), ops[|ops| - 1])
  }

  /** The module is completely written by one of the operations. */
  predicate Writes(ops: seq<Operation>, path: string) {
    exists i :: 0 <= i < |ops| && ops[i].Putting? && ops[i].outcome.Written? && ops[i].entry.canonicalPath == path
  }

  /** What was written last stays recorded until it is dropped or invalidated. */
  lemma {:induction false} LastWriteStays(byPath: map<string, Entry>, before: seq<Operation>, entry: Entry, after: seq<Operation>)
    requires !Writes(after, entry.canonicalPath)
    ensures var end := AllDone(byPath, before + [Putting(entry, Written)] + after);
      entry.canonicalPath in end ==> end[entry.canonicalPath] == entry
    decreases |after|
  {
    var ops := before + [Putting(entry, Written)] + after;
    if after == [] {
      assert ops[..|ops| - 1] == before;
    } else {
      var front := after[..|after| - 1];
      assert ops[..|ops| - 1] == before + [Putting(entry, Written)] + front;
      assert !Writes(front, entry.canonicalPath);
      assert ops[|ops| - 1] == after[|after| - 1];
      LastWriteStays(byPath, before, entry, front);
    }
  }

  /**
   * Over every run: once a dependency has been written with one hash, and not written again since, an
   * artifact that was compiled against another hash is no hit, whatever else happened, and is dropped.
   */
  lemma {:induction false} StaleIsDropped(byPath: map<string, Entry>, before: seq<Operation>, entry: Entry, after: seq<Operation>,
                                          path: string, content: FileContent, dep: DepRef)
    requires !Writes(after, entry.canonicalPath)
    requires content.Valid? && dep in content.deps && dep.canonicalPath == entry.canonicalPath
    requires (dep.publicAbiHi, dep.publicAbiLo) != (0, 0)
    requires (dep.publicAbiHi, dep.publicAbiLo) != (entry.publicAbiHi, entry.publicAbiLo)
    ensures var end := AllDone(byPath, before + [Putting(entry, Written)] + after);
      !Hits(end, content) && path !in Done(end, Loading(path, content))
  {
    var end := AllDone(byPath, before + [Putting(entry, Written)] + after);
    LastWriteStays(byPath, before, entry, after);
    HitsIff(end, content);
  }

  /** An equal hash or none is accepted, as long as the other dependencies are fine and the module is still recorded. */
  lemma {:induction false} CurrentIsHit(byPath: map<string, Entry>, before: seq<Operation>, entry: Entry, after: seq<Operation>, content: FileContent)
    requires !Writes(after, entry.canonicalPath) && content.Valid?
    requires var end := AllDone(byPath, before + [Putting(entry, Written)] + after);
      entry.canonicalPath in end && forall dep :: dep in content.deps && dep.canonicalPath != entry.canonicalPath ==> UpToDate(end, dep)
    ensures Hits(AllDone(byPath, before + [Putting(entry, Written)] + after), content) <==>
            forall dep :: dep in content.deps && dep.canonicalPath == entry.canonicalPath ==>
              (dep.publicAbiHi, dep.publicAbiLo) == (0, 0) || (dep.publicAbiHi, dep.publicAbiLo) == (entry.publicAbiHi, entry.publicAbiLo)
  {
    var end := AllDone(byPath, before + [Putting(entry, Written)] + after);
    LastWriteStays(byPath, before, entry, after);
    HitsIff(end, content);
  }

  datatype Divergence = Divergence(
    canonicalId: CanonicalId,
    persistedTag: U32,
    currentTag: U32,
    fieldOrderChanged: bool,
    registryConflicts: bool)

  class Store {
    const manifest: Manifest
    const pathHash: string -> nat
    var artifacts: set<nat>
    var canonicalRegistry: map<CanonicalId, U32>
    var canonicalByTag: map<U32, CanonicalId>
    var registryFile: Option<string>
    var metrics: Metrics

    ghost function Tags(): Registry
      reads this
    {
      Registry(canonicalRegistry, canonicalByTag)
    }

    ghost predicate Valid()
      reads this, manifest
    {
      manifest.Valid() && Tags().Valid()
    }

    /** What a store that opens the given registry file starts with. */
    static ghost function Opened(file: Option<string>): Registry {
      if file.None? then EMPTY else AddText(EMPTY, file.value)
    }

    constructor (lines: seq<Entry>, file: Option<string>, onDisk: set<nat>, hash: string -> nat)
      ensures Valid() && fresh(manifest) && registryFile == file && artifacts == onDisk && pathHash == hash
      ensures Tags() == Opened(file)
      ensures manifest.byPath == Loaded(map[], lines) && Covers(manifest.byPath, manifest.reverseDeps)
      ensures Exact(manifest.byPath, manifest.reverseDeps) <==> LastLineListsAll(lines)
    {
      manifest := new Manifest();
      pathHash := hash;
      artifacts := onDisk;
      canonicalRegistry := map[];
      canonicalByTag := map[];
      registryFile := file;
      metrics := Metrics(0, 0, 0, 0, 0);
      new;
      assert forall p, d :: p !in Next(manifest.reverseDeps, d);
      manifest.Load(lines);
      LoadedIndexExactIff(lines, manifest.reverseDeps);
      LoadCanonicalRegistry();
    }

    // ---- canonical tags ----

    method AssignCanonicalId(id: CanonicalId, diskWorks: bool) returns (tag: U32)
      requires Valid()
      modifies this`canonicalRegistry, this`canonicalByTag, this`registryFile
      ensures Valid() && Tags() == old(Tags()).Assign(id) && tag == old(Tags()).Told(id)
      ensures Tags() == old(Tags()) || !diskWorks ==> registryFile == old(registryFile)
      ensures Tags() != old(Tags()) && diskWorks ==> Opened(registryFile) == Tags()
    {
      AssignKeepsInverse(Tags(), id);
      if id in canonicalRegistry {
        return canonicalRegistry[id];
      }
      tag := (|canonicalRegistry| % U32_LIMIT + 1) % U32_LIMIT;
      if tag == 0 || tag in canonicalByTag {
        return 0;
      }
      canonicalRegistry := canonicalRegistry[id := tag];
      canonicalByTag := canonicalByTag[tag := id];
      SaveCanonicalRegistryLocked(diskWorks);
    }

    method LookupCanonicalId(id: CanonicalId) returns (tag: Option<U32>)
      ensures tag == if id in canonicalRegistry then Some(canonicalRegistry[id]) else None
    {
      if id !in canonicalRegistry {
        return None;
      }
      return Some(canonicalRegistry[id]);
    }

    /** With inverse maps, a persisted tag conflicts exactly when its id is registered under another tag. */
    method CheckCanonicalMapping(id: CanonicalId, persistedTag: U32) returns (d: Divergence)
      requires Tags().Valid()
      ensures d.canonicalId == id && d.persistedTag == persistedTag
      ensures d.currentTag == if id in canonicalRegistry then canonicalRegistry[id] else 0
      ensures d.fieldOrderChanged <==> exists other :: other in canonicalRegistry && other != id && canonicalRegistry[other] == persistedTag
      ensures d.registryConflicts <==> id in canonicalRegistry && canonicalRegistry[id] != persistedTag
    {
      var currentTag: U32 := if id in canonicalRegistry then canonicalRegistry[id] else 0;
      var fieldOrderChanged := persistedTag != 0 && persistedTag in canonicalByTag && canonicalByTag[persistedTag] != id;
      d := Divergence(id, persistedTag, currentTag, fieldOrderChanged,
                      currentTag != 0 && (currentTag != persistedTag || fieldOrderChanged));
      assert fieldOrderChanged ==> canonicalByTag[persistedTag] in canonicalRegistry;
    }

    /** Loading starts over from the file; lines that are malformed or collide are skipped. */
    method LoadCanonicalRegistry()
      modifies this`canonicalRegistry, this`canonicalByTag
      ensures Tags() == Opened(registryFile) && Tags().Valid()
    {
      canonicalRegistry := map[];
      canonicalByTag := map[];
      LoadEmptyKeepsInverse(registryFile);
      if registryFile.None? {
        return;
      }
      var rest := registryFile.value;
      while rest != ""
        invariant AddText(Tags(), rest) == Opened(registryFile)
        decreases |rest|
      {
        var line, tail := FirstLine(rest).0, FirstLine(rest).1;
        var parsed := ParseLine(line);
        if parsed.Some? && parsed.value.0 !in canonicalRegistry && parsed.value.1 !in canonicalByTag {
          canonicalRegistry := canonicalRegistry[parsed.value.0 := parsed.value.1];
          canonicalByTag := canonicalByTag[parsed.value.1 := parsed.value.0];
        }
        rest := tail;
      }
    }

    lemma LoadEmptyKeepsInverse(file: Option<string>)
      ensures Opened(file).Valid()
    {
      if file.Some? {
        LoadKeepsInverse(EMPTY, file.value);
      }
    }

    /** Writes a new file and renames it over the old one, which stays if anything fails. */
    method SaveCanonicalRegistryLocked(diskWorks: bool)
      requires Tags().Valid()
      modifies this`registryFile
      ensures !diskWorks ==> registryFile == old(registryFile)
      ensures diskWorks ==> registryFile.Some? && Opened(registryFile) == Tags()
    {
      if !diskWorks {
        return;
      }
      var text := "";
      var todo := canonicalRegistry.Keys;
      ghost var order: seq<CanonicalId> := [];
      while todo != {}
        invariant todo <= canonicalRegistry.Keys
        invariant forall id :: id in canonicalRegistry <==> id in todo || id in order
        invariant forall i :: 0 <= i < |order| ==> order[i] in canonicalRegistry && order[i] !in todo
        invariant forall i, j :: 0 <= i < j < |order| ==> order[i] != order[j]
        invariant text == Render(Tags(), order)
        decreases todo
      {
        var id :| id in todo;
        RenderOneMore(Tags(), order, id);
        text := text + RenderLine(id, canonicalRegistry[id]) + "\n";
        order := order + [id];
        todo := todo - {id};
      }
      SaveLoadRoundTrip(Tags(), order);
      registryFile := Some(text);
    }

    static lemma {:induction false} RenderOneMore(r: Registry, order: seq<CanonicalId>, id: CanonicalId)
      requires id in r.tagOf && forall i :: 0 <= i < |order| ==> order[i] in r.tagOf
      ensures Render(r, order + [id]) == Render(r, order) + RenderLine(id, r.tagOf[id]) + "\n"
    {
      if order != [] {
        assert (order + [id])[1..] == order[1..] + [id];
        RenderOneMore(r, order[1..], id);
      } else {
        assert ([] + [id])[1..] == [];
      }
    }

    // ---- artifacts ----

    method DropInvalid(path: string)
      requires Valid()
      modifies this`artifacts, this`metrics, manifest
      ensures Valid() && artifacts == old(artifacts) - {pathHash(path)}
      ensures manifest.byPath == old(manifest.byPath) - {path}
      ensures old(Exact(manifest.byPath, manifest.reverseDeps)) ==> Exact(manifest.byPath, manifest.reverseDeps)
      ensures old(Covers(manifest.byPath, manifest.reverseDeps)) ==> Covers(manifest.byPath, manifest.reverseDeps)
      ensures metrics == old(metrics).(invalid := old(metrics).invalid + 1)
    {
      artifacts := artifacts - {pathHash(path)};
      manifest.Remove(path);
      metrics := metrics.(invalid := metrics.invalid + 1);
    }

    /** A hit is a valid artifact all of whose dependencies are up to date; a stale or broken one is dropped. */
    method Load(path: string, content: FileContent) returns (hit: bool)
      requires Valid()
      modifies this`artifacts, this`metrics, manifest
      ensures Valid()
      ensures hit <==> Hits(old(manifest.byPath), content)
      ensures manifest.byPath == Done(old(manifest.byPath), Loading(path, content))
      ensures hit || content.Missing? ==> manifest.byPath == old(manifest.byPath) && artifacts == old(artifacts)
      ensures !hit && !content.Missing? ==>
                manifest.byPath == old(manifest.byPath) - {path} && artifacts == old(artifacts) - {pathHash(path)}
      ensures old(Exact(manifest.byPath, manifest.reverseDeps)) ==> Exact(manifest.byPath, manifest.reverseDeps)
      ensures old(Covers(manifest.byPath, manifest.reverseDeps)) ==> Covers(manifest.byPath, manifest.reverseDeps)
      ensures metrics == if hit then old(metrics).(hits := old(metrics).hits + 1)
                         else if content.Missing? then old(metrics).(misses := old(metrics).misses + 1)
                         else old(metrics).(invalid := old(metrics).invalid + 1)
    {
      if content.Missing? {
        metrics := metrics.(misses := metrics.misses + 1);
        return false;
      }
      if content.Invalid? {
        DropInvalid(path);
        return false;
      }
      for i := 0 to |content.deps|
        invariant manifest.byPath == old(manifest.byPath) && manifest.reverseDeps == old(manifest.reverseDeps)
        invariant artifacts == old(artifacts) && metrics == old(metrics) && Valid()
        invariant forall k :: 0 <= k < i ==> UpToDate(manifest.byPath, content.deps[k])
      {
        var dep := content.deps[i];
        var entry := manifest.Find(dep.canonicalPath);
        if entry.None? {
          DropInvalid(path);
          return false;
        }
        if dep.publicAbiHi == 0 && dep.publicAbiLo == 0 {
          continue;
        }
        if entry.value.publicAbiHi != dep.publicAbiHi || entry.value.publicAbiLo != dep.publicAbiLo {
          DropInvalid(path);
          return false;
        }
      }
      metrics := metrics.(hits := metrics.hits + 1);
      return true;
    }

    /** The manifest learns of an artifact only once its file is completely written. */
    method Put(entry: Entry, outcome: WriteOutcome)
      requires Valid()
      modifies this`artifacts, this`metrics, manifest
      ensures Valid()
      ensures manifest.byPath == Done(old(manifest.byPath), Putting(entry, outcome))
      ensures !outcome.Written? ==> manifest.byPath == old(manifest.byPath)
      ensures outcome.Written? ==> manifest.byPath == old(manifest.byPath)[entry.canonicalPath := entry]
      ensures artifacts == old(artifacts) + if outcome.Written? || outcome.WriteFailed? then {pathHash(entry.canonicalPath)} else {}
      ensures old(Exact(manifest.byPath, manifest.reverseDeps)) ==> Exact(manifest.byPath, manifest.reverseDeps)
      ensures old(Covers(manifest.byPath, manifest.reverseDeps)) ==> Covers(manifest.byPath, manifest.reverseDeps)
      ensures metrics == match outcome
                         case NothingToWrite => old(metrics).(invalid := old(metrics).invalid + 1)
                         case Written => old(metrics).(writes := old(metrics).writes + 1)
                         case _ => old(metrics).(misses := old(metrics).misses + 1)
    {
      match outcome {
        case NothingToWrite =>
          metrics := metrics.(invalid := metrics.invalid + 1);
        case OpenFailed =>
          metrics := metrics.(misses := metrics.misses + 1);
        case WriteFailed =>
          artifacts := artifacts + {pathHash(entry.canonicalPath)};
          metrics := metrics.(misses := metrics.misses + 1);
        case Written =>
          artifacts := artifacts + {pathHash(entry.canonicalPath)};
          manifest.Upsert(entry);
          metrics := metrics.(writes := metrics.writes + 1);
      }
    }

    /**
     * Evicts a module and everything that depends on it. With an exact index that is precisely what
     * goes; with surplus index entries more may go, but nothing that depended on the module stays.
     */
    method Invalidate(path: string)
      requires Valid()
      modifies this`artifacts, this`metrics, manifest
      ensures Valid()
      ensures old(Exact(manifest.byPath, manifest.reverseDeps)) ==>
                && Exact(manifest.byPath, manifest.reverseDeps)
                && manifest.byPath == Done(old(manifest.byPath), Invalidating(path)) == Survivors(old(manifest.byPath), path)
                && artifacts == old(artifacts) - (set q | q in Dependents(old(manifest.byPath), path) + {path} :: pathHash(q))
                && metrics == old(metrics).(evictions := old(metrics).evictions + |Dependents(old(manifest.byPath), path) + {path}|)
      ensures old(Covers(manifest.byPath, manifest.reverseDeps)) ==>
                && Covers(manifest.byPath, manifest.reverseDeps)
                && forall q :: q in manifest.byPath ==>
                     q in Survivors(old(manifest.byPath), path) && manifest.byPath[q] == old(manifest.byPath)[q]
    {
      var deps := manifest.DependentsOf(path);
      var toEvict := {path} + set i | 0 <= i < |deps| :: deps[i];
      EvictionSet(path, deps, toEvict);
      Evict(toEvict);
      metrics := metrics.(evictions := metrics.evictions + |toEvict|);
    }

    /** What the walk finds, as a set, is the dependents when the index is exact and at least them otherwise. */
    lemma EvictionSet(path: string, deps: seq<string>, toEvict: set<string>)
      requires Exact(manifest.byPath, manifest.reverseDeps) ==> forall q :: q in deps <==> DependsOn(manifest.byPath, q, path)
      requires Covers(manifest.byPath, manifest.reverseDeps) ==> forall q :: DependsOn(manifest.byPath, q, path) ==> q in deps
      requires toEvict == {path} + set i | 0 <= i < |deps| :: deps[i]
      ensures Exact(manifest.byPath, manifest.reverseDeps) ==>
                toEvict == Dependents(manifest.byPath, path) + {path} &&
                manifest.byPath - toEvict == Survivors(manifest.byPath, path)
      ensures Covers(manifest.byPath, manifest.reverseDeps) ==>
                forall q :: q in manifest.byPath && q !in toEvict ==> q in Survivors(manifest.byPath, path)
    {
      forall q
        ensures q in toEvict <==> q == path || q in deps
      {
        if q in deps {
          var i :| 0 <= i < |deps| && deps[i] == q;
        }
      }
      forall q | DependsOn(manifest.byPath, q, path)
        ensures q in manifest.byPath
      {
        DependentIsRecorded(manifest.byPath, q, path);
      }
    }

    method Evict(toEvict: set<string>)
      requires Valid()
      modifies this`artifacts, manifest
      ensures Valid() && manifest.byPath == old(manifest.byPath) - toEvict
      ensures artifacts == old(artifacts) - set q | q in toEvict :: pathHash(q)
      ensures old(Exact(manifest.byPath, manifest.reverseDeps)) ==> Exact(manifest.byPath, manifest.reverseDeps)
      ensures old(Covers(manifest.byPath, manifest.reverseDeps)) ==> Covers(manifest.byPath, manifest.reverseDeps)
    {
      hide Exact, Covers;
      var todo := toEvict;
      while todo != {}
        invariant todo <= toEvict && Valid()
        invariant manifest.byPath == old(manifest.byPath) - (toEvict - todo)
        invariant artifacts == old(artifacts) - set q | q in toEvict - todo :: pathHash(q)
        invariant old(Exact(manifest.byPath, manifest.reverseDeps)) ==> Exact(manifest.byPath, manifest.reverseDeps)
        invariant old(Covers(manifest.byPath, manifest.reverseDeps)) ==> Covers(manifest.byPath, manifest.reverseDeps)
        decreases todo
      {
        var p :| p in todo;
        assert toEvict - (todo - {p}) == (toEvict - todo) + {p};
        artifacts := artifacts - {pathHash(p)};
        manifest.Remove(p);
        todo := todo - {p};
      }
    }
  }
}
