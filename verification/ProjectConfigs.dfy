/** The config that owns a file (internal/tsgo/lintaiapi/snapshot.go, owningConfig): a depth-first
    search over project references, which may be cyclic. The search stops at the first config that
    lists the file or cannot be loaded; without one the nearest config is the owner. The preorder
    of the walk is a function of the references, and the recursive search with its visited map is
    proved against it. */
module ProjectConfigs {
  import opened Basics
  import opened Graphs

  type Path = string

  /** A loaded config: the files it lists, and its references that exist, in order. */
  datatype Loaded = Config(rootFiles: set<string>, references: seq<Path>) | LoadError(message: string)

  type Configs = Path -> Loaded

  datatype Owner = Owned(path: Path) | Failed(message: string)

  function References(configs: Configs, path: Path): seq<Path> {
    if configs(path).Config? then configs(path).references else []
  }

  /** The references as a graph. */
  ghost function Next(configs: Configs): Path -> set<Path> {
    path => Elems(References(configs, path))
  }

  /** Where the search stops: at a config that lists the file, or that cannot be loaded. */
  function StopAt(configs: Configs, file: string, path: Path): Option<Owner> {
    match configs(path)
    case LoadError(message) => Some(Failed(message))
    case Config(rootFiles, _) => if file in rootFiles then Some(Owned(path)) else None
  }

  /** The configs in depth-first preorder from a config, without those already visited. `universe`
      is a set of configs, closed under references, that bounds the walk. */
  ghost function Preorder(configs: Configs, universe: set<Path>, path: Path, visited: set<Path>): seq<Path>
    requires IsClosed(Next(configs), universe) && path in universe
    decreases universe - visited, 1
  {
    if path in visited then [] else
      assert Next(configs)(path) <= universe;
      [path] + PreorderAll(configs, universe, References(configs, path), visited + {path})
  }

  /** The same from a list of configs. */
  ghost function PreorderAll(configs: Configs, universe: set<Path>, paths: seq<Path>, visited: set<Path>): seq<Path>
    requires IsClosed(Next(configs), universe) && forall p <- paths :: p in universe
    decreases universe - visited, 2, |paths|
  {
    if paths == [] then []
    else
      var first := Preorder(configs, universe, paths[0], visited);
      first + PreorderAll(configs, universe, paths[1..], visited + Elems(first))
  }

  /** The first stop of a list of configs. */
  ghost function FirstStop(configs: Configs, file: string, order: seq<Path>): Option<Owner> {
    if order == [] then None
    else
      var stop := StopAt(configs, file, order[0]);
      if stop.Some? then stop else FirstStop(configs, file, order[1..])
  }

  lemma {:induction false} FirstStopConcat(configs: Configs, file: string, a: seq<Path>, b: seq<Path>)
    ensures var first := FirstStop(configs, file, a);
            FirstStop(configs, file, a + b) == if first.Some? then first else FirstStop(configs, file, b)
  {
    if a == [] {
      assert a + b == b;
    } else {
      FirstStopConcat(configs, file, a[1..], b);
      assert (a + b)[1..] == a[1..] + b;
    }
  }

  /** The search of one config and of what it references. */
  method Search(configs: Configs, file: string, path: Path, visited: set<Path>, ghost universe: set<Path>)
    returns (owner: Option<Owner>, visited': set<Path>)
    requires IsClosed(Next(configs), universe) && path in universe
    ensures owner == FirstStop(configs, file, Preorder(configs, universe, path, visited))
    ensures owner.None? ==> visited' == visited + Elems(Preorder(configs, universe, path, visited))
    decreases universe - visited, 1
  {
    if path in visited {
      return None, visited;
    }
    visited' := visited + {path};
    var parsed := configs(path);
    if parsed.LoadError? {
      return Some(Failed(parsed.message)), visited';
    }
    if file in parsed.rootFiles {
      return Some(Owned(path)), visited';
    }
    assert Next(configs)(path) <= universe;
    ghost var below := PreorderAll(configs, universe, parsed.references, visited');
    assert Preorder(configs, universe, path, visited) == [path] + below;
    assert ([path] + below)[1..] == below;
    owner, visited' := SearchAll(configs, file, parsed.references, visited', universe);
  }

  method SearchAll(configs: Configs, file: string, paths: seq<Path>, visited: set<Path>, ghost universe: set<Path>)
    returns (owner: Option<Owner>, visited': set<Path>)
    requires IsClosed(Next(configs), universe) && forall p <- paths :: p in universe
    ensures owner == FirstStop(configs, file, PreorderAll(configs, universe, paths, visited))
    ensures owner.None? ==> visited' == visited + Elems(PreorderAll(configs, universe, paths, visited))
    decreases universe - visited, 2, |paths|
  {
    if paths == [] {
      return None, visited;
    }
    owner, visited' := Search(configs, file, paths[0], visited, universe);
    ghost var first := Preorder(configs, universe, paths[0], visited);
    ghost var rest := PreorderAll(configs, universe, paths[1..], visited + Elems(first));
    FirstStopConcat(configs, file, first, rest);
    assert Elems(first + rest) == Elems(first) + Elems(rest);
    if owner.Some? {
      return;
    }
    owner, visited' := SearchAll(configs, file, paths[1..], visited', universe);
  }

  /** The owner of a file: the first stop in depth-first preorder from the nearest config, or else
      the nearest config. */
  method OwningConfig(configs: Configs, nearest: Path, file: string, ghost universe: set<Path>) returns (owner: Owner)
    requires IsClosed(Next(configs), universe) && nearest in universe
    ensures owner == FirstStop(configs, file, Preorder(configs, universe, nearest, {})).GetOr(Owned(nearest))
  {
    var found, _ := Search(configs, file, nearest, {}, universe);
    if found.Some? {
      return found.value;
    }
    owner := Owned(nearest);
  }

  // -------------------------------------------------------------- what the search covers

  predicate Distinct(order: seq<Path>) {
    forall i, j :: 0 <= i < j < |order| ==> order[i] != order[j]
  }

  /** A walk that starts with some visited configs visits each further config once, and all
      references of the configs it visits. */
  ghost predicate IsWalk(next: Path -> set<Path>, start: set<Path>, visited: set<Path>, order: seq<Path>) {
    && start <= visited + Elems(order)
    && visited !! Elems(order) && Distinct(order)
    && forall p <- order :: next(p) <= visited + Elems(order)
  }

  lemma DistinctConcat(a: seq<Path>, b: seq<Path>)
    requires Distinct(a) && Distinct(b) && Elems(a) !! Elems(b)
    ensures Distinct(a + b) && Elems(a + b) == Elems(a) + Elems(b)
  {
    forall i, j | 0 <= i < j < |a + b|
      ensures (a + b)[i] != (a + b)[j]
    {
      if i < |a| <= j { assert a[i] in Elems(a) && b[j - |a|] in Elems(b); }
    }
  }

  lemma WalkDown(next: Path -> set<Path>, path: Path, visited: set<Path>, below: seq<Path>)
    requires path !in visited && IsWalk(next, next(path), visited + {path}, below)
    ensures IsWalk(next, {path}, visited, [path] + below)
  {
    DistinctConcat([path], below);
    assert visited + Elems([path] + below) == visited + {path} + Elems(below);
  }

  lemma WalkThen(next: Path -> set<Path>, start: set<Path>, visited: set<Path>, first: seq<Path>, start': set<Path>,
                 rest: seq<Path>)
    requires IsWalk(next, start, visited, first) && IsWalk(next, start', visited + Elems(first), rest)
    ensures IsWalk(next, start + start', visited, first + rest)
  {
    DistinctConcat(first, rest);
    assert visited + Elems(first + rest) == visited + Elems(first) + Elems(rest);
    forall p | p in first + rest
      ensures next(p) <= visited + Elems(first + rest)
    {
      assert p in first || p in rest;
    }
  }

  lemma {:induction false} PreorderExplores(configs: Configs, universe: set<Path>, path: Path, visited: set<Path>)
    requires IsClosed(Next(configs), universe) && path in universe
    ensures IsWalk(Next(configs), {path}, visited, Preorder(configs, universe, path, visited))
    decreases universe - visited, 1
  {
    if path !in visited {
      assert Next(configs)(path) <= universe;
      PreorderAllExplores(configs, universe, References(configs, path), visited + {path});
      var below := PreorderAll(configs, universe, References(configs, path), visited + {path});
      WalkDown(Next(configs), path, visited, below);
    }
  }

  lemma WalkAll(next: Path -> set<Path>, paths: seq<Path>, visited: set<Path>, first: seq<Path>, rest: seq<Path>)
    requires paths != [] && IsWalk(next, {paths[0]}, visited, first)
    requires IsWalk(next, Elems(paths[1..]), visited + Elems(first), rest)
    ensures IsWalk(next, Elems(paths), visited, first + rest)
  {
    WalkThen(next, {paths[0]}, visited, first, Elems(paths[1..]), rest);
    assert paths == [paths[0]] + paths[1..];
    ElemsConcat([paths[0]], paths[1..]);
  }

  lemma {:induction false} PreorderAllExplores(configs: Configs, universe: set<Path>, paths: seq<Path>,
                                               visited: set<Path>)
    requires IsClosed(Next(configs), universe) && forall p <- paths :: p in universe
    ensures IsWalk(Next(configs), Elems(paths), visited, PreorderAll(configs, universe, paths, visited))
    decreases universe - visited, 2, |paths|
  {
    if paths != [] {
      var first := Preorder(configs, universe, paths[0], visited);
      var rest := PreorderAll(configs, universe, paths[1..], visited + Elems(first));
      PreorderExplores(configs, universe, paths[0], visited);
      PreorderAllExplores(configs, universe, paths[1..], visited + Elems(first));
      WalkAll(Next(configs), paths, visited, first, rest);
    }
  }

  /** The walk from a config visits exactly the configs that it reaches through references. */
  lemma PreorderIsReachable(configs: Configs, universe: set<Path>, nearest: Path)
    requires IsClosed(Next(configs), universe) && nearest in universe
    ensures forall p :: p in Preorder(configs, universe, nearest, {}) <==> Reaches(Next(configs), nearest, p)
  {
    var next := Next(configs);
    var order := Preorder(configs, universe, nearest, {});
    PreorderExplores(configs, universe, nearest, {});
    forall p | Reaches(next, nearest, p)
      ensures p in order
    {
      ClosedHoldsReachable(next, Elems(order), nearest, p);
    }
    ReachableIsClosed(next, universe, {nearest});
    PreorderStaysIn(configs, universe, Reachable(next, universe, {nearest}), nearest, {});
  }

  /** The walk stays in every closed set that it starts in. */
  lemma {:induction false} PreorderStaysIn(configs: Configs, universe: set<Path>, inner: set<Path>, path: Path,
                                           visited: set<Path>)
    requires IsClosed(Next(configs), universe) && IsClosed(Next(configs), inner)
    requires path in inner && path in universe
    ensures Elems(Preorder(configs, universe, path, visited)) <= inner
    decreases universe - visited, 1
  {
    if path !in visited {
      assert Next(configs)(path) <= universe && Next(configs)(path) <= inner;
      PreorderAllStaysIn(configs, universe, inner, References(configs, path), visited + {path});
    }
  }

  lemma {:induction false} PreorderAllStaysIn(configs: Configs, universe: set<Path>, inner: set<Path>,
                                              paths: seq<Path>, visited: set<Path>)
    requires IsClosed(Next(configs), universe) && IsClosed(Next(configs), inner)
    requires forall p <- paths :: p in inner && p in universe
    ensures Elems(PreorderAll(configs, universe, paths, visited)) <= inner
    decreases universe - visited, 2, |paths|
  {
    if paths != [] {
      PreorderStaysIn(configs, universe, inner, paths[0], visited);
      var first := Preorder(configs, universe, paths[0], visited);
      PreorderAllStaysIn(configs, universe, inner, paths[1..], visited + Elems(first));
    }
  }

  lemma {:induction false} FirstStopExists(configs: Configs, file: string, order: seq<Path>)
    ensures FirstStop(configs, file, order).None? <==> forall p <- order :: StopAt(configs, file, p).None?
    ensures FirstStop(configs, file, order).Some? ==>
              exists p <- order :: StopAt(configs, file, p) == FirstStop(configs, file, order)
  {
    if order != [] {
      FirstStopExists(configs, file, order[1..]);
      assert order == [order[0]] + order[1..];
    }
  }

  /** When every reachable config loads: an owner that lists the file is found exactly when some
      reachable config lists it, and otherwise the nearest config is the owner. */
  lemma OwnerListsFile(configs: Configs, universe: set<Path>, nearest: Path, file: string)
    requires IsClosed(Next(configs), universe) && nearest in universe
    requires forall p :: Reaches(Next(configs), nearest, p) ==> configs(p).Config?
    ensures var owner := FirstStop(configs, file, Preorder(configs, universe, nearest, {})).GetOr(Owned(nearest));
            && owner.Owned? && Reaches(Next(configs), nearest, owner.path)
            && (file in configs(owner.path).rootFiles <==>
                  exists p :: Reaches(Next(configs), nearest, p) && file in configs(p).rootFiles)
            && (file !in configs(owner.path).rootFiles ==> owner.path == nearest)
  {
    var order := Preorder(configs, universe, nearest, {});
    PreorderIsReachable(configs, universe, nearest);
    FirstStopExists(configs, file, order);
    ReachesSelf(Next(configs), nearest);
  }
}
