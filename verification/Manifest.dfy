/**
 * The module manifest: which modules are cached, what each of them imports, and an index from a
 * module to its importers that is maintained beside it.
 */
module Manifests {
  import opened Collections
  import opened Reachability

  datatype Entry = Entry(
    canonicalPath: string,
    artifactPath: string,
    publicAbiHi: nat,
    publicAbiLo: nat,
    sourceFpHi: nat,
    sourceFpLo: nat,
    dependencies: seq<string>)

  function DependencySet(entry: Entry): set<string> {
    set i | 0 <= i < |entry.dependencies| :: entry.dependencies[i]
  }

  /** The import relation the recorded entries spell out. */
  function Imports(byPath: map<string, Entry>): Graph<string> {
    map p | p in byPath :: DependencySet(byPath[p])
  }

  /** q imports x, directly or through other recorded modules. */
  ghost predicate DependsOn(byPath: map<string, Entry>, q: string, x: string) {
    Reaches(Imports(byPath), q, x)
  }

  /** The index lists every import, turned round. */
  ghost predicate Covers(byPath: map<string, Entry>, index: Graph<string>) {
    forall p, d :: p in byPath && d in byPath[p].dependencies ==> p in Next(index, d)
  }

  /** The index lists every import turned round, and nothing else. */
  ghost predicate Exact(byPath: map<string, Entry>, index: Graph<string>) {
    forall p, d :: p in Next(index, d) <==> p in byPath && d in byPath[p].dependencies
  }

  /** Walking an exact index from x finds the modules that depend on x and no others. */
  lemma ExactIndexFindsDependents(byPath: map<string, Entry>, index: Graph<string>, x: string, q: string)
    requires Exact(byPath, index)
    ensures Reaches(index, x, q) <==> DependsOn(byPath, q, x)
  {
    if Reaches(index, x, q) {
      ReversedWalk(index, Imports(byPath), x, q);
    }
    if DependsOn(byPath, q, x) {
      ReversedWalk(Imports(byPath), index, q, x);
    }
  }

  /** Walking an index with surplus edges still finds every module that depends on x. */
  lemma CoveringIndexFindsDependents(byPath: map<string, Entry>, index: Graph<string>, x: string, q: string)
    requires Covers(byPath, index) && DependsOn(byPath, q, x)
    ensures Reaches(index, x, q)
  {
    forall p, d | d in Next(Imports(byPath), p)
      ensures p in Next(index, d)
    {
      assert d in byPath[p].dependencies;
    }
    ReversedWalk(Imports(byPath), index, q, x);
  }

  /** What the index holds for d once `path` is taken out of the lists of `gone` and put on those of `come`. */
  function Reindexed(was: set<string>, d: string, path: string, gone: seq<string>, come: seq<string>): set<string> {
    (if d in gone then was - {path} else was) + (if d in come then {path} else {})
  }

  /** The entries a sequence of file lines leaves, later lines replacing earlier ones of the same path. */
  function Loaded(byPath: map<string, Entry>, lines: seq<Entry>): map<string, Entry> {
    if lines == [] then byPath
    else
      var last := lines[|lines| - 1];
      Loaded(byPath, lines[..|lines| - 1])[last.canonicalPath := last]
  }

  ghost predicate ListedBy(lines: seq<Entry>, p: string, d: string) {
    exists i :: 0 <= i < |lines| && lines[i].canonicalPath == p && d in lines[i].dependencies
  }

  /** No later line is for the same path. */
  predicate IsLastLine(lines: seq<Entry>, j: nat)
    requires j < |lines|
  {
    forall k :: j < k < |lines| ==> lines[k].canonicalPath != lines[j].canonicalPath
  }

  /** The last line of each path lists every import the earlier lines of that path list. */
  predicate LastLineListsAll(lines: seq<Entry>) {
    forall i, j :: 0 <= i < j < |lines| && lines[i].canonicalPath == lines[j].canonicalPath && IsLastLine(lines, j) ==>
                     DependencySet(lines[i]) <= DependencySet(lines[j])
  }

  lemma {:induction false} LoadedIsLastLine(byPath: map<string, Entry>, lines: seq<Entry>, p: string)
    ensures p in Loaded(byPath, lines) <==>
            p in byPath || exists j :: 0 <= j < |lines| && lines[j].canonicalPath == p
    ensures forall j :: 0 <= j < |lines| && lines[j].canonicalPath == p && IsLastLine(lines, j) ==>
                          p in Loaded(byPath, lines) && Loaded(byPath, lines)[p] == lines[j]
  {
    if lines != [] {
      var front := lines[..|lines| - 1];
      LoadedIsLastLine(byPath, front, p);
      assert lines == front + [lines[|lines| - 1]];
      forall j | 0 <= j < |lines| && lines[j].canonicalPath == p && IsLastLine(lines, j)
        ensures p in Loaded(byPath, lines) && Loaded(byPath, lines)[p] == lines[j]
      {
        if j < |front| {
          assert IsLastLine(front, j);
        }
      }
    }
  }

  lemma {:induction false} HasLastLine(lines: seq<Entry>, i: nat) returns (j: nat)
    requires i < |lines|
    ensures i <= j < |lines| && lines[j].canonicalPath == lines[i].canonicalPath && IsLastLine(lines, j)
    decreases |lines| - i
  {
    if k :| i < k < |lines| && lines[k].canonicalPath == lines[i].canonicalPath {
      j := HasLastLine(lines, k);
    } else {
      j := i;
    }
  }

  /**
   * Loading into an empty manifest never loses an import, and its index is exact if and only if no
   * path's last line drops an import that an earlier line of the path lists.
   */
  lemma {:induction false} LoadedIndexExactIff(lines: seq<Entry>, index: Graph<string>)
    requires forall p, d :: p in Next(index, d) <==> ListedBy(lines, p, d)
    ensures Covers(Loaded(map[], lines), index)
    ensures Exact(Loaded(map[], lines), index) <==> LastLineListsAll(lines)
  {
    var loaded := Loaded(map[], lines);
    forall p | p in loaded
      ensures exists j :: 0 <= j < |lines| && lines[j].canonicalPath == p && IsLastLine(lines, j) && loaded[p] == lines[j]
    {
      LoadedIsLastLine(map[], lines, p);
      var i :| 0 <= i < |lines| && lines[i].canonicalPath == p;
      var j := HasLastLine(lines, i);
    }
    if LastLineListsAll(lines) {
      forall p, d | p in Next(index, d)
        ensures p in loaded && d in loaded[p].dependencies
      {
        var i :| 0 <= i < |lines| && lines[i].canonicalPath == p && d in lines[i].dependencies;
        var j := HasLastLine(lines, i);
        LoadedIsLastLine(map[], lines, p);
        assert d in DependencySet(lines[i]);
      }
    }
    if Exact(loaded, index) {
      forall i, j | 0 <= i < j < |lines| && lines[i].canonicalPath == lines[j].canonicalPath && IsLastLine(lines, j)
        ensures DependencySet(lines[i]) <= DependencySet(lines[j])
      {
        LoadedIsLastLine(map[], lines, lines[j].canonicalPath);
        forall d | d in DependencySet(lines[i])
          ensures d in DependencySet(lines[j])
        {
          assert ListedBy(lines, lines[i].canonicalPath, d);
          assert d in lines[j].dependencies;
          var k :| 0 <= k < |lines[j].dependencies| && lines[j].dependencies[k] == d;
        }
      }
    }
  }

  class Manifest {
    var byPath: map<string, Entry>
    var reverseDeps: map<string, set<string>>

    ghost predicate Valid()
      reads this
    {
      forall p :: p in byPath ==> byPath[p].canonicalPath == p
    }

    constructor ()
      ensures Valid() && byPath == map[] && reverseDeps == map[]
    {
      byPath := map[];
      reverseDeps := map[];
    }

    method Forget(path: string, deps: seq<string>)
      modifies this`reverseDeps
      ensures forall d :: Next(reverseDeps, d) == Reindexed(Next(old(reverseDeps), d), d, path, deps, [])
    {
      for i := 0 to |deps|
        invariant forall d :: Next(reverseDeps, d) == Reindexed(Next(old(reverseDeps), d), d, path, deps[..i], [])
      {
        assert deps[..i + 1] == deps[..i] + [deps[i]];
        reverseDeps := reverseDeps[deps[i] := Next(reverseDeps, deps[i]) - {path}];
      }
      assert deps[..|deps|] == deps;
    }

    method Record(path: string, deps: seq<string>)
      modifies this`reverseDeps
      ensures forall d :: Next(reverseDeps, d) == Reindexed(Next(old(reverseDeps), d), d, path, [], deps)
    {
      for i := 0 to |deps|
        invariant forall d :: Next(reverseDeps, d) == Reindexed(Next(old(reverseDeps), d), d, path, [], deps[..i])
      {
        assert deps[..i + 1] == deps[..i] + [deps[i]];
        reverseDeps := reverseDeps[deps[i] := Next(reverseDeps, deps[i]) + {path}];
      }
      assert deps[..|deps|] == deps;
    }

    method Upsert(entry: Entry)
      requires Valid()
      modifies this
      ensures Valid() && byPath == old(byPath)[entry.canonicalPath := entry]
      ensures forall d :: Next(reverseDeps, d) ==
                Reindexed(Next(old(reverseDeps), d), d, entry.canonicalPath,
                          if entry.canonicalPath in old(byPath) then old(byPath)[entry.canonicalPath].dependencies else [],
                          entry.dependencies)
      ensures old(Exact(byPath, reverseDeps)) ==> Exact(byPath, reverseDeps)
      ensures old(Covers(byPath, reverseDeps)) ==> Covers(byPath, reverseDeps)
    {
      var path := entry.canonicalPath;
      if path in byPath {
        Forget(path, byPath[path].dependencies);
      }
      byPath := byPath[path := entry];
      Record(path, entry.dependencies);
    }

    method Remove(path: string)
      requires Valid()
      modifies this
      ensures Valid() && byPath == old(byPath) - {path}
      ensures forall d :: Next(reverseDeps, d) ==
                Reindexed(Next(old(reverseDeps), d), d, path,
                          if path in old(byPath) then old(byPath)[path].dependencies else [], [])
      ensures old(Exact(byPath, reverseDeps)) ==> Exact(byPath, reverseDeps)
      ensures old(Covers(byPath, reverseDeps)) ==> Covers(byPath, reverseDeps)
    {
      if path !in byPath {
        return;
      }
      Forget(path, byPath[path].dependencies);
      byPath := byPath - {path};
    }

    method Find(path: string) returns (entry: Option<Entry>)
      ensures entry == if path in byPath then Some(byPath[path]) else None
    {
      if path !in byPath {
        return None;
      }
      return Some(byPath[path]);
    }

    /**
     * An explicit stack and a visited set. A module may be listed once for each of its imports that
     * is met, but as a set the result is what the index reaches, and an exact index reaches exactly
     * the modules that depend on `path`, on cyclic import graphs too.
     */
    method DependentsOf(path: string) returns (result: seq<string>)
      ensures forall q :: q in result <==> Reaches(reverseDeps, path, q)
      ensures Exact(byPath, reverseDeps) ==> forall q :: q in result <==> DependsOn(byPath, q, path)
      ensures Covers(byPath, reverseDeps) ==> forall q :: DependsOn(byPath, q, path) ==> q in result
    {
      result := [];
      var visited: set<string> := {};
      var stack := [path];
      ghost var universe := {path} + set d, q | d in reverseDeps && q in reverseDeps[d] :: q;
      while stack != []
        invariant visited <= universe && forall q :: q in stack ==> q in universe
        invariant path in visited || path in stack
        invariant forall q :: q in visited || q in stack ==> ReachesOrIs(reverseDeps, path, q)
        invariant forall q :: q in result <==> exists v :: v in visited && q in Next(reverseDeps, v)
        invariant forall v, q :: v in visited && q in Next(reverseDeps, v) ==> q in visited || q in stack
        decreases universe - visited, |stack|
      {
        var cur := stack[|stack| - 1];
        stack := stack[..|stack| - 1];
        if cur in visited {
          continue;
        }
        visited := visited + {cur};
        var todo := Next(reverseDeps, cur);
        ghost var dependents, result0, stack0 := todo, result, stack;
        while todo != {}
          invariant todo <= dependents
          invariant forall q :: q in result <==> q in result0 || q in dependents - todo
          invariant forall q :: q in stack <==> q in stack0 || q in dependents - todo
          decreases todo
        {
          var dep :| dep in todo;
          result := result + [dep];
          stack := stack + [dep];
          todo := todo - {dep};
        }
        forall q | q in dependents
          ensures q in universe && ReachesOrIs(reverseDeps, path, q)
        {
          StepReaches(reverseDeps, path, cur, q);
        }
      }
      VisitedIsReached(path, visited, result);
      forall q
        ensures Exact(byPath, reverseDeps) ==> (q in result <==> DependsOn(byPath, q, path))
        ensures Covers(byPath, reverseDeps) && DependsOn(byPath, q, path) ==> q in result
      {
        if Exact(byPath, reverseDeps) {
          ExactIndexFindsDependents(byPath, reverseDeps, path, q);
        }
        if Covers(byPath, reverseDeps) && DependsOn(byPath, q, path) {
          CoveringIndexFindsDependents(byPath, reverseDeps, path, q);
        }
      }
    }

    /** A closed visited set of reached nodes is everything reached. */
    lemma VisitedIsReached(path: string, visited: set<string>, result: seq<string>)
      requires path in visited && Closed(reverseDeps, visited)
      requires forall q :: q in visited ==> ReachesOrIs(reverseDeps, path, q)
      requires forall q :: q in result <==> exists v :: v in visited && q in Next(reverseDeps, v)
      ensures forall q :: q in result <==> Reaches(reverseDeps, path, q)
    {
      forall q
        ensures q in result <==> Reaches(reverseDeps, path, q)
      {
        if q in result {
          var v :| v in visited && q in Next(reverseDeps, v);
          StepReaches(reverseDeps, path, v, q);
        }
        if Reaches(reverseDeps, path, q) {
          var from := LastEdge(reverseDeps, path, q);
          ClosedContainsReached(reverseDeps, visited, path, from);
        }
      }
    }

    /**
     * Reads back the lines of the manifest file. A line replaces the entry of its path, but the
     * importers already listed for that path stay listed.
     */
    method Load(lines: seq<Entry>)
      requires Valid()
      modifies this
      ensures Valid() && byPath == Loaded(old(byPath), lines)
      ensures forall p, d :: p in Next(reverseDeps, d) <==> p in Next(old(reverseDeps), d) || ListedBy(lines, p, d)
    {
      for n := 0 to |lines|
        invariant Valid() && byPath == Loaded(old(byPath), lines[..n])
        invariant forall p, d :: p in Next(reverseDeps, d) <==> p in Next(old(reverseDeps), d) || ListedBy(lines[..n], p, d)
      {
        var entry := lines[n];
        assert lines[..n + 1][..n] == lines[..n];
        Record(entry.canonicalPath, entry.dependencies);
        byPath := byPath[entry.canonicalPath := entry];
        forall p, d
          ensures ListedBy(lines[..n + 1], p, d) <==>
                  ListedBy(lines[..n], p, d) || (p == entry.canonicalPath && d in entry.dependencies)
        {
          assert lines[..n + 1] == lines[..n] + [entry];
          if p == entry.canonicalPath && d in entry.dependencies {
            assert lines[..n + 1][n] == entry;
          }
        }
      }
      assert lines[..|lines|] == lines;
    }
  }
}
