/** Snapshot assembly (internal/tsgo/lintaiapi/snapshot.go): the merge of the config groups'
    snapshots, the resolution of calls, and the filter for module files. */
module Snapshots {
  import opened Basics
  import Graphs
  import opened TypeFacts
  import opened TypeRecording
  import opened MergedTypes
  import TypeKeys

  /** types: the IDs of its parameter and return types. */
  datatype Function = Function(
    entityId: string,
    semanticKey: string,
    name: string,
    filePath: string,
    types: FunctionTypes,
    data: string)

  datatype Module = Module(entityId: string, path: string)

  datatype CallEdge = CallEdge(
    entityId: string,
    semanticKey: string,
    fromKey: string,
    fromModule: bool,
    toKey: string,
    fromName: string,
    toName: string,
    fromPath: string,
    toPath: string,
    range: int)

  datatype ExternalCall = ExternalCall(entityId: string, data: string)

  /** A call whose target is declared in a declaration file. */
  datatype PendingCall = PendingCall(
    dtsPath: string,
    targetName: string,
    fromKey: string,
    fromModule: bool,
    fromName: string,
    fromPath: string,
    range: int,
    fallback: ExternalCall)

  /** A record of a relation that is merged and then left as it is. */
  datatype Record = Record(entityId: string, data: string)

  datatype OtherRelations = OtherRelations(
    importEdges: seq<Record>,
    callsUnresolved: seq<Record>,
    importsOpaque: seq<Record>,
    fnRefs: seq<Record>,
    typeRefs: seq<Record>,
    ambientUses: seq<Record>,
    globalRefs: seq<Record>,
    directives: seq<Record>,
    parseErrors: seq<Record>)

  const NO_RECORDS := OtherRelations([], [], [], [], [], [], [], [], [])

  /** The snapshot of one config group. */
  datatype Partial = Partial(
    modules: seq<Module>,
    functions: seq<Function>,
    callEdges: seq<CallEdge>,
    externalCalls: seq<ExternalCall>,
    pendingCalls: seq<PendingCall>,
    others: OtherRelations,
    types: seq<Fact>)

  // ------------------------------------------------------------------------ merge by ID

  function IdsOf<T(==, !new)>(items: seq<T>, id: T -> string): set<string> {
    set item <- items :: id(item)
  }

  /** A list with the items of another list whose IDs it does not have yet. */
  function MergedById<T(==, !new)>(existing: seq<T>, incoming: seq<T>, id: T -> string): seq<T> {
    if incoming == [] then existing
    else
      var merged, last := MergedById(existing, incoming[..|incoming| - 1], id), incoming[|incoming| - 1];
      if id(last) in IdsOf(merged, id) then merged else merged + [last]
  }

  method MergeById<T(==, !new)>(existing: seq<T>, incoming: seq<T>, id: T -> string) returns (merged: seq<T>)
    ensures merged == MergedById(existing, incoming, id)
  {
    var seen: set<string> := {};
    for i := 0 to |existing|
      invariant seen == IdsOf(existing[..i], id)
    {
      assert existing[..i + 1] == existing[..i] + [existing[i]];
      seen := seen + {id(existing[i])};
    }
    assert existing[..|existing|] == existing;
    merged := existing;
    for i := 0 to |incoming|
      invariant merged == MergedById(existing, incoming[..i], id)
      invariant seen == IdsOf(merged, id)
    {
      assert incoming[..i + 1][..i] == incoming[..i];
      if id(incoming[i]) !in seen {
        merged := merged + [incoming[i]];
        seen := seen + {id(incoming[i])};
      }
    }
    assert incoming[..|incoming|] == incoming;
  }

  /** The merge keeps the list, adds only items of the other list, and has every ID. */
  lemma {:induction false} MergedByIdHas<T(!new)>(existing: seq<T>, incoming: seq<T>, id: T -> string)
    ensures existing <= MergedById(existing, incoming, id)
    ensures forall item <- MergedById(existing, incoming, id) :: item in existing || item in incoming
    ensures IdsOf(MergedById(existing, incoming, id), id) == IdsOf(existing, id) + IdsOf(incoming, id)
  {
    if incoming != [] {
      var init, last := incoming[..|incoming| - 1], incoming[|incoming| - 1];
      assert incoming == init + [last];
      MergedByIdHas(existing, init, id);
      var merged := MergedById(existing, init, id);
      assert IdsOf(incoming, id) == IdsOf(init, id) + {id(last)};
      assert IdsOf(merged + [last], id) == IdsOf(merged, id) + {id(last)};
    }
  }

  predicate DistinctIds<T(==, !new)>(items: seq<T>, id: T -> string) {
    forall i, j :: 0 <= i < j < |items| ==> id(items[i]) != id(items[j])
  }

  lemma {:induction false} MergedByIdDistinct<T(!new)>(existing: seq<T>, incoming: seq<T>, id: T -> string)
    requires DistinctIds(existing, id)
    ensures DistinctIds(MergedById(existing, incoming, id), id)
  {
    if incoming != [] {
      var init, last := incoming[..|incoming| - 1], incoming[|incoming| - 1];
      MergedByIdDistinct(existing, init, id);
      var merged := MergedById(existing, init, id);
      assert forall i | 0 <= i < |merged| :: id(merged[i]) in IdsOf(merged, id);
    }
  }

  const FUNCTION_ID: Function -> string := (f: Function) => f.entityId
  const MODULE_ID: Module -> string := (m: Module) => m.entityId
  const EDGE_ID: CallEdge -> string := (e: CallEdge) => e.entityId
  const EXTERNAL_ID: ExternalCall -> string := (c: ExternalCall) => c.entityId

  const RECORD_ID: Record -> string := (r: Record) => r.entityId

  function MergedOthers(a: OtherRelations, b: OtherRelations): OtherRelations {
    OtherRelations(
      MergedById(a.importEdges, b.importEdges, RECORD_ID),
      MergedById(a.callsUnresolved, b.callsUnresolved, RECORD_ID),
      MergedById(a.importsOpaque, b.importsOpaque, RECORD_ID),
      MergedById(a.fnRefs, b.fnRefs, RECORD_ID),
      MergedById(a.typeRefs, b.typeRefs, RECORD_ID),
      MergedById(a.ambientUses, b.ambientUses, RECORD_ID),
      MergedById(a.globalRefs, b.globalRefs, RECORD_ID),
      MergedById(a.directives, b.directives, RECORD_ID),
      MergedById(a.parseErrors, b.parseErrors, RECORD_ID))
  }

  method MergeOthers(a: OtherRelations, b: OtherRelations) returns (merged: OtherRelations)
    ensures merged == MergedOthers(a, b)
  {
    var importEdges := MergeById(a.importEdges, b.importEdges, RECORD_ID);
    var callsUnresolved := MergeById(a.callsUnresolved, b.callsUnresolved, RECORD_ID);
    var importsOpaque := MergeById(a.importsOpaque, b.importsOpaque, RECORD_ID);
    var fnRefs := MergeById(a.fnRefs, b.fnRefs, RECORD_ID);
    var typeRefs := MergeById(a.typeRefs, b.typeRefs, RECORD_ID);
    var ambientUses := MergeById(a.ambientUses, b.ambientUses, RECORD_ID);
    var globalRefs := MergeById(a.globalRefs, b.globalRefs, RECORD_ID);
    var directives := MergeById(a.directives, b.directives, RECORD_ID);
    var parseErrors := MergeById(a.parseErrors, b.parseErrors, RECORD_ID);
    merged := OtherRelations(importEdges, callsUnresolved, importsOpaque, fnRefs, typeRefs, ambientUses, globalRefs,
                             directives, parseErrors);
  }

  // ---------------------------------------------------------------------- types of functions

  function TypesOfFunctions(functions: seq<Function>): seq<FunctionTypes> {
    seq(|functions|, i requires 0 <= i < |functions| => functions[i].types)
  }

  /** Every type that a function names has a fact. */
  ghost predicate TypesKnown(functions: seq<Function>, types: seq<Fact>) {
    forall f <- functions :: FunctionIds(f.types) <= Ids(types)
  }

  lemma MergeKeepsTypesKnown(functions: seq<Function>, incoming: seq<Function>, types: seq<Fact>, more: seq<Fact>,
                             merged: seq<Fact>)
    requires TypesKnown(functions, types) && TypesKnown(incoming, more) && Ids(merged) == Ids(types) + Ids(more)
    ensures TypesKnown(MergedById(functions, incoming, FUNCTION_ID), merged)
  {
    MergedByIdHas(functions, incoming, FUNCTION_ID);
  }

  lemma RootOfFunction(functions: seq<Function>, f: Function, id: TypeKeys.Id)
    requires f in functions && id in FunctionIds(f.types)
    ensures id in RootIds(TypesOfFunctions(functions))
  {
    var i :| 0 <= i < |functions| && functions[i] == f;
    assert TypesOfFunctions(functions)[i] == f.types;
    assert f.types in TypesOfFunctions(functions);
  }

  /** The types of the functions stay, because a root reaches itself. */
  lemma KeepingKeepsTypesKnown(functions: seq<Function>, types: seq<Fact>, reached: set<TypeKeys.Id>)
    requires TypesKnown(functions, types)
    requires forall id :: id in reached <==>
               Graphs.ReachedFrom(NextIds(types), RootIds(TypesOfFunctions(functions)), id)
    ensures TypesKnown(functions, Select(types, reached))
  {
    forall f, id | f in functions && id in FunctionIds(f.types) ensures id in Ids(Select(types, reached)) {
      RootOfFunction(functions, f, id);
      Graphs.ReachesSelf(NextIds(types), id);
      assert id in Ids(types) && id in reached;
      var i :| 0 <= i < |types| && types[i].ident.id == id;
      SelectElems(types, reached, types[i]);
      var kept := Select(types, reached);
      var j :| 0 <= j < |kept| && kept[j] == types[i];
      assert kept[j].ident.id in Ids(kept);
    }
  }

  lemma KeepFunctionsKeepTypesKnown(functions: seq<Function>, paths: set<string>, types: seq<Fact>)
    requires TypesKnown(functions, types)
    ensures TypesKnown(KeepFunctions(functions, paths), types)
  {
    forall f | f in KeepFunctions(functions, paths) ensures f in functions {
      KeepFunctionsElems(functions, paths, f);
    }
  }

  // ------------------------------------------------------------------------ call targets

  predicate IsTarget(e: CallEdge, f: Function) {
    f.semanticKey == e.toKey && f.filePath == e.toPath
  }

  ghost predicate HasTarget(e: CallEdge, functions: seq<Function>) {
    exists f <- functions :: IsTarget(e, f)
  }

  ghost function TargetOf(e: CallEdge, functions: seq<Function>): (f: Function)
    requires HasTarget(e, functions)
    ensures f in functions && IsTarget(e, f)
  {
    var f :| f in functions && IsTarget(e, f);
    f
  }

  /** Every call edge leads to a function of the list. */
  ghost predicate NoDanglingEdges(edges: seq<CallEdge>, functions: seq<Function>) {
    forall e <- edges :: HasTarget(e, functions)
  }

  /** Where the function with an entity ID is declared: one ID has one semantic key and path. */
  type Places = string -> (string, string)

  ghost predicate AllPlaced(functions: seq<Function>, places: Places) {
    forall f <- functions :: places(f.entityId) == (f.semanticKey, f.filePath)
  }

  /** A function that the merge dropped has a stand-in with its key and path. */
  lemma TargetSurvives(functions: seq<Function>, incoming: seq<Function>, places: Places, f: Function)
    requires AllPlaced(functions, places) && AllPlaced(incoming, places)
    requires f in functions || f in incoming
    ensures exists g <- MergedById(functions, incoming, FUNCTION_ID) ::
              g.semanticKey == f.semanticKey && g.filePath == f.filePath
  {
    var merged := MergedById(functions, incoming, FUNCTION_ID);
    MergedByIdHas(functions, incoming, FUNCTION_ID);
    assert FUNCTION_ID(f) in IdsOf(merged, FUNCTION_ID);
    var g :| g in merged && FUNCTION_ID(g) == FUNCTION_ID(f);
    assert g in functions || g in incoming;
  }

  lemma MergeKeepsPlaces(functions: seq<Function>, incoming: seq<Function>, places: Places)
    requires AllPlaced(functions, places) && AllPlaced(incoming, places)
    ensures AllPlaced(MergedById(functions, incoming, FUNCTION_ID), places)
  {
    MergedByIdHas(functions, incoming, FUNCTION_ID);
  }

  lemma MergeKeepsTargets(functions: seq<Function>, incoming: seq<Function>, edges: seq<CallEdge>,
                          newEdges: seq<CallEdge>, places: Places)
    requires AllPlaced(functions, places) && AllPlaced(incoming, places)
    requires NoDanglingEdges(edges, functions) && NoDanglingEdges(newEdges, incoming)
    ensures NoDanglingEdges(MergedById(edges, newEdges, EDGE_ID), MergedById(functions, incoming, FUNCTION_ID))
  {
    var merged := MergedById(functions, incoming, FUNCTION_ID);
    forall e | e in MergedById(edges, newEdges, EDGE_ID)
      ensures HasTarget(e, merged)
    {
      assert e in edges || e in newEdges by { MergedByIdHas(edges, newEdges, EDGE_ID); }
      var f := if e in edges then TargetOf(e, functions) else TargetOf(e, incoming);
      TargetSurvives(functions, incoming, places, f);
      var g :| g in merged && g.semanticKey == f.semanticKey && g.filePath == f.filePath;
      assert IsTarget(e, g);
    }
  }

  // ----------------------------------------------------------- calls through declarations

  /** The function with a name and a path; the last one counts. */
  function FindFunction(functions: seq<Function>, name: string, path: string): (r: Option<Function>)
    ensures r.Some? ==> r.value in functions && r.value.name == name && r.value.filePath == path
    ensures r.None? ==> forall f <- functions :: f.name != name || f.filePath != path
  {
    if functions == [] then None
    else
      var last := functions[|functions| - 1];
      assert functions == functions[..|functions| - 1] + [last];
      if last.name == name && last.filePath == path then Some(last)
      else FindFunction(functions[..|functions| - 1], name, path)
  }

  function EdgeTo(p: PendingCall, key: string, target: Function): CallEdge {
    CallEdge("call:" + key, key, p.fromKey, p.fromModule, target.semanticKey, p.fromName, target.name, p.fromPath,
             target.filePath, p.range)
  }

  /** The edge that a pending call becomes, when its source function is in the snapshot.
      `sourceOf` maps the path of a declaration file to its source, or to the empty path. */
  function ResolveCall(functions: seq<Function>, sourceOf: string -> string, p: PendingCall): Option<CallEdge> {
    var path := sourceOf(p.dtsPath);
    var target := FindFunction(functions, p.targetName, path);
    if path == "" || target.None? then None
    else
      var key := p.fromKey + "::calls::" + target.value.semanticKey;
      Some(EdgeTo(p, key, target.value))
  }

  function ResolvedCalls(functions: seq<Function>, sourceOf: string -> string,
                         pending: seq<PendingCall>): seq<CallEdge> {
    if pending == [] then []
    else
      var edge := ResolveCall(functions, sourceOf, pending[|pending| - 1]);
      ResolvedCalls(functions, sourceOf, pending[..|pending| - 1]) + if edge.Some? then [edge.value] else []
  }

  function UnresolvedCalls(functions: seq<Function>, sourceOf: string -> string,
                           pending: seq<PendingCall>): seq<ExternalCall> {
    if pending == [] then []
    else
      UnresolvedCalls(functions, sourceOf, pending[..|pending| - 1])
      + if ResolveCall(functions, sourceOf, pending[|pending| - 1]).Some? then [] else [pending[|pending| - 1].fallback]
  }

  /** Every pending call becomes exactly one edge or one external call, and the new edges lead to
      functions of the snapshot. */
  lemma {:induction false} EveryCallResolvesOnce(functions: seq<Function>, sourceOf: string -> string,
                                                 pending: seq<PendingCall>)
    ensures |ResolvedCalls(functions, sourceOf, pending)| + |UnresolvedCalls(functions, sourceOf, pending)| == |pending|
    ensures NoDanglingEdges(ResolvedCalls(functions, sourceOf, pending), functions)
  {
    if pending != [] {
      EveryCallResolvesOnce(functions, sourceOf, pending[..|pending| - 1]);
    }
  }

  // ------------------------------------------------------------------------ module files

  function KeepFunctions(functions: seq<Function>, paths: set<string>): seq<Function> {
    if functions == [] then []
    else KeepFunctions(functions[..|functions| - 1], paths)
         + if functions[|functions| - 1].filePath in paths then [functions[|functions| - 1]] else []
  }

  function KeepEdges(edges: seq<CallEdge>, paths: set<string>): seq<CallEdge> {
    if edges == [] then []
    else
      var last := edges[|edges| - 1];
      KeepEdges(edges[..|edges| - 1], paths) + if last.toPath in paths then [last] else []
  }

  lemma {:induction false} KeepFunctionsElems(functions: seq<Function>, paths: set<string>, f: Function)
    ensures f in KeepFunctions(functions, paths) <==> f in functions && f.filePath in paths
  {
    if functions != [] {
      KeepFunctionsElems(functions[..|functions| - 1], paths, f);
      assert functions == functions[..|functions| - 1] + [functions[|functions| - 1]];
    }
  }

  lemma {:induction false} KeepEdgesElems(edges: seq<CallEdge>, paths: set<string>, e: CallEdge)
    ensures e in KeepEdges(edges, paths) <==> e in edges && e.toPath in paths
  {
    if edges != [] {
      KeepEdgesElems(edges[..|edges| - 1], paths, e);
      assert edges == edges[..|edges| - 1] + [edges[|edges| - 1]];
    }
  }

  lemma KeepingLeavesNoDanglingEdges(functions: seq<Function>, edges: seq<CallEdge>, paths: set<string>)
    requires NoDanglingEdges(edges, functions)
    ensures NoDanglingEdges(KeepEdges(edges, paths), KeepFunctions(functions, paths))
    ensures forall e <- KeepEdges(edges, paths) :: e.toPath in paths
  {
    forall e | e in KeepEdges(edges, paths)
      ensures HasTarget(e, KeepFunctions(functions, paths)) && e.toPath in paths
    {
      KeepEdgesElems(edges, paths, e);
      var f :| f in functions && IsTarget(e, f);
      KeepFunctionsElems(functions, paths, f);
    }
  }

  // --------------------------------------------------------------------- the whole pipeline

  /** The loop over the pending calls, with an index of the functions. */
  method ResolvePending(functions: seq<Function>, sourceOf: string -> string, pending: seq<PendingCall>)
    returns (edges: seq<CallEdge>, externals: seq<ExternalCall>)
    ensures edges == ResolvedCalls(functions, sourceOf, pending)
    ensures externals == UnresolvedCalls(functions, sourceOf, pending)
  {
    var index := IndexFunctions(functions);
    edges, externals := [], [];
    for i := 0 to |pending|
      invariant edges == ResolvedCalls(functions, sourceOf, pending[..i])
      invariant externals == UnresolvedCalls(functions, sourceOf, pending[..i])
    {
      assert pending[..i + 1][..i] == pending[..i];
      var p := pending[i];
      var path := sourceOf(p.dtsPath);
      if path == "" || (p.targetName, path) !in index {
        externals := externals + [p.fallback];
      } else {
        var target := functions[index[(p.targetName, path)]];
        var key := p.fromKey + "::calls::" + target.semanticKey;
        edges := edges + [EdgeTo(p, key, target)];
      }
    }
    assert pending[..|pending|] == pending;
  }

  /** What every step of the merge keeps. */
  ghost predicate IsMerged(functions: seq<Function>, callEdges: seq<CallEdge>, types: seq<Fact>, places: Places,
                           typeLists: seq<seq<Fact>>) {
    && AllPlaced(functions, places) && NoDanglingEdges(callEdges, functions)
    && DistinctIds(functions, FUNCTION_ID)
    && Lists(types, AddAll(map[], Flatten(typeLists))) && TypesKnown(functions, types)
  }

  lemma MergeKeepsMerged(functions: seq<Function>, callEdges: seq<CallEdge>, types: seq<Fact>, places: Places,
                         typeLists: seq<seq<Fact>>, partial: Partial, merged: seq<Fact>)
    requires IsMerged(functions, callEdges, types, places, typeLists)
    requires AllPlaced(partial.functions, places) && NoDanglingEdges(partial.callEdges, partial.functions)
    requires TypesKnown(partial.functions, partial.types)
    requires Lists(merged, AddAll(map[], Flatten(typeLists + [partial.types])))
    requires Ids(merged) == Ids(types) + Ids(partial.types)
    ensures IsMerged(MergedById(functions, partial.functions, FUNCTION_ID),
                     MergedById(callEdges, partial.callEdges, EDGE_ID), merged, places, typeLists + [partial.types])
  {
    MergeKeepsPlaces(functions, partial.functions, places);
    MergeKeepsTargets(functions, partial.functions, callEdges, partial.callEdges, places);
    MergedByIdDistinct(functions, partial.functions, FUNCTION_ID);
    MergeKeepsTypesKnown(functions, partial.functions, types, partial.types, merged);
  }

  class Snapshot {
    var modules: seq<Module>
    var functions: seq<Function>
    var callEdges: seq<CallEdge>
    var externalCalls: seq<ExternalCall>
    var pendingCalls: seq<PendingCall>
    var others: OtherRelations
    var types: seq<Fact>
    /** The type facts of the merged groups. */
    ghost var typeLists: seq<seq<Fact>>
    ghost const places: Places

    constructor (ghost places: Places)
      ensures Valid() && this.places == places && functions == [] && callEdges == [] && pendingCalls == []
      ensures types == [] && typeLists == []
    {
      modules, functions, callEdges, externalCalls, pendingCalls := [], [], [], [], [];
      others, types, typeLists := NO_RECORDS, [], [];
      this.places := places;
    }

    ghost predicate Valid()
      reads this
    {
      IsMerged(functions, callEdges, types, places, typeLists)
    }

    /** Adds the snapshot of a group, whose own edges lead to its own functions, with the facts of their types. */
    method MergeSnapshot(partial: Partial)
      requires Valid()
      requires AllPlaced(partial.functions, places) && NoDanglingEdges(partial.callEdges, partial.functions)
      requires TypesKnown(partial.functions, partial.types)
      modifies this
      ensures Valid()
      ensures functions == MergedById(old(functions), partial.functions, FUNCTION_ID)
      ensures callEdges == MergedById(old(callEdges), partial.callEdges, EDGE_ID)
      ensures modules == MergedById(old(modules), partial.modules, MODULE_ID)
      ensures externalCalls == MergedById(old(externalCalls), partial.externalCalls, EXTERNAL_ID)
      ensures pendingCalls == old(pendingCalls) + partial.pendingCalls
      ensures others == MergedOthers(old(others), partial.others)
      ensures typeLists == old(typeLists) + [partial.types]
    {
      var merged := MergeListed(types, partial.types, typeLists);
      MergeKeepsMerged(functions, callEdges, types, places, typeLists, partial, merged);
      MergeRecords(partial);
      var newFunctions := MergeById(functions, partial.functions, FUNCTION_ID);
      var newEdges := MergeById(callEdges, partial.callEdges, EDGE_ID);
      functions, callEdges, types, typeLists := newFunctions, newEdges, merged, typeLists + [partial.types];
    }

    /** Adds the records that no invariant is about. */
    method MergeRecords(partial: Partial)
      modifies this`modules, this`externalCalls, this`pendingCalls, this`others
      ensures modules == MergedById(old(modules), partial.modules, MODULE_ID)
      ensures externalCalls == MergedById(old(externalCalls), partial.externalCalls, EXTERNAL_ID)
      ensures pendingCalls == old(pendingCalls) + partial.pendingCalls
      ensures others == MergedOthers(old(others), partial.others)
    {
      modules := MergeById(modules, partial.modules, MODULE_ID);
      externalCalls := MergeById(externalCalls, partial.externalCalls, EXTERNAL_ID);
      pendingCalls := pendingCalls + partial.pendingCalls;
      others := MergeOthers(others, partial.others);
    }

    /** Resolves the calls that go through declaration files. */
    method ResolveDtsCalls(sourceOf: string -> string)
      requires Valid()
      modifies this`callEdges, this`externalCalls, this`pendingCalls
      ensures Valid() && pendingCalls == []
      ensures callEdges == old(callEdges) + ResolvedCalls(functions, sourceOf, old(pendingCalls))
      ensures externalCalls == old(externalCalls) + UnresolvedCalls(functions, sourceOf, old(pendingCalls))
      ensures |callEdges| + |externalCalls| == old(|callEdges| + |externalCalls| + |pendingCalls|)
    {
      EveryCallResolvesOnce(functions, sourceOf, pendingCalls);
      var edges, externals := ResolvePending(functions, sourceOf, pendingCalls);
      callEdges, externalCalls, pendingCalls := callEdges + edges, externalCalls + externals, [];
    }

    /** Drops the functions in files that are not modules, and the calls of them. */
    method KeepModuleFiles()
      requires Valid()
      modifies this`functions, this`callEdges
      ensures AllPlaced(functions, places) && NoDanglingEdges(callEdges, functions) && TypesKnown(functions, types)
      ensures var paths := set m <- modules :: m.path;
              && functions == KeepFunctions(old(functions), paths)
              && callEdges == KeepEdges(old(callEdges), paths)
              && forall e <- callEdges :: e.toPath in paths
    {
      var paths := set m <- modules :: m.path;
      KeepingLeavesNoDanglingEdges(functions, callEdges, paths);
      forall f {
        KeepFunctionsElems(functions, paths, f);
      }
      KeepFunctionsKeepTypesKnown(functions, paths, types);
      functions := KeepFunctionList(functions, paths);
      callEdges := KeepEdgeList(callEdges, paths);
    }

    /** Drops the types that no function is left to reach. */
    method KeepTypes() returns (reached: set<TypeKeys.Id>)
      requires TypesKnown(functions, types)
      modifies this`types
      ensures TypesKnown(functions, types)
      ensures forall id :: id in reached <==>
                Graphs.ReachedFrom(NextIds(old(types)), RootIds(TypesOfFunctions(functions)), id)
      ensures types == Select(old(types), reached)
    {
      var kept;
      kept, reached := KeepReachableTypes(types, TypesOfFunctions(functions));
      KeepingKeepsTypesKnown(functions, types, reached);
      types := kept;
    }

    /** Drops what is in files that are not modules, and then the types that are not needed any more. */
    method KeepTsconfigFiles(ghost recordings: seq<Recording>)
      requires Valid() && AreRecordings(recordings) && typeLists == TypesOf(recordings)
      modifies this`functions, this`callEdges, this`types
      ensures NoDanglingEdges(callEdges, functions) && TypesKnown(functions, types) && ClosedFacts(types)
      ensures forall e <- callEdges :: exists m <- modules :: m.path == e.toPath
    {
      ghost var merged := types;
      KeepModuleFiles();
      var reached := KeepTypes();
      KeptOfMergedAreClosed(recordings, merged, TypesOfFunctions(functions), reached);
    }
  }

  method KeepFunctionList(functions: seq<Function>, paths: set<string>) returns (kept: seq<Function>)
    ensures kept == KeepFunctions(functions, paths)
  {
    kept := [];
    for i := 0 to |functions|
      invariant kept == KeepFunctions(functions[..i], paths)
    {
      assert functions[..i + 1][..i] == functions[..i];
      if functions[i].filePath in paths {
        kept := kept + [functions[i]];
      }
    }
    assert functions[..|functions|] == functions;
  }

  method KeepEdgeList(edges: seq<CallEdge>, paths: set<string>) returns (kept: seq<CallEdge>)
    ensures kept == KeepEdges(edges, paths)
  {
    kept := [];
    for i := 0 to |edges|
      invariant kept == KeepEdges(edges[..i], paths)
    {
      assert edges[..i + 1][..i] == edges[..i];
      if edges[i].toPath in paths {
        kept := kept + [edges[i]];
      }
    }
    assert edges[..|edges|] == edges;
  }

  /** The position of the last function with each name and path. */
  method IndexFunctions(functions: seq<Function>) returns (index: map<(string, string), nat>)
    ensures forall key <- index :: index[key] < |functions|
    ensures forall name: string, path: string ::
              FindFunction(functions, name, path) ==
              if (name, path) in index then Some(functions[index[(name, path)]]) else None
  {
    index := map[];
    for i := 0 to |functions|
      invariant forall key <- index :: index[key] < i
      invariant forall name: string, path: string ::
                  FindFunction(functions[..i], name, path) ==
                  if (name, path) in index then Some(functions[index[(name, path)]]) else None
    {
      assert functions[..i + 1][..i] == functions[..i];
      index := index[(functions[i].name, functions[i].filePath) := i];
    }
    assert functions[..|functions|] == functions;
  }

  method MergeListed(types: seq<Fact>, incoming: seq<Fact>, ghost lists: seq<seq<Fact>>) returns (merged: seq<Fact>)
    requires Lists(types, AddAll(map[], Flatten(lists)))
    ensures Lists(merged, AddAll(map[], Flatten(lists + [incoming])))
    ensures Ids(merged) == Ids(types) + Ids(incoming)
  {
    ghost var m := AddAll(map[], Flatten(lists));
    merged := MergeTypes(types, incoming, m);
    assert (lists + [incoming])[..|lists|] == lists;
    AddAllConcat(map[], Flatten(lists), incoming);
    AddAllKeys(m, incoming);
  }

  /** The types that the functions of a group name were visited by its recorder. */
  ghost predicate NameVisits(functions: seq<Function>, r: Recording) {
    forall f <- functions :: NamesVisits(f.types, r.w, r.log)
  }

  /** So they have facts. */
  lemma VisitedTypesAreKnown(functions: seq<Function>, r: Recording)
    requires IsRecording(r) && NameVisits(functions, r)
    ensures TypesKnown(functions, r.types)
  {
    forall f, id | f in functions && id in FunctionIds(f.types) ensures id in Ids(r.types) {
      assert NamesVisits(f.types, r.w, r.log) && IsVisited(r.w, r.log, id);
      VisitedIsListed(r, id);
    }
  }

  /** The groups of a snapshot and what their recorders left. */
  ghost predicate AreGroups(groups: seq<Partial>, recordings: seq<Recording>, places: Places) {
    && |groups| == |recordings| && AreRecordings(recordings)
    && forall i :: 0 <= i < |groups| ==> IsGroup(groups[i], recordings[i], places)
  }

  /** Its edges lead to its own functions, and its type facts are those that its recorder left. */
  ghost predicate IsGroup(group: Partial, recording: Recording, places: Places) {
    && AllPlaced(group.functions, places) && NoDanglingEdges(group.callEdges, group.functions)
    && NameVisits(group.functions, recording) && group.types == recording.types
  }

  lemma GroupAt(groups: seq<Partial>, recordings: seq<Recording>, places: Places, i: nat)
    requires AreGroups(groups, recordings, places) && i < |groups|
    ensures AllPlaced(groups[i].functions, places) && NoDanglingEdges(groups[i].callEdges, groups[i].functions)
    ensures TypesKnown(groups[i].functions, groups[i].types)
    ensures TypesOf(recordings[..i + 1]) == TypesOf(recordings[..i]) + [groups[i].types]
  {
    assert recordings[i] in recordings && recordings[..i + 1] == recordings[..i] + [recordings[i]];
    VisitedTypesAreKnown(groups[i].functions, recordings[i]);
  }

  method MergeSnapshots(groups: seq<Partial>, ghost places: Places, ghost recordings: seq<Recording>)
    returns (snapshot: Snapshot)
    requires AreGroups(groups, recordings, places)
    ensures fresh(snapshot) && snapshot.Valid() && snapshot.typeLists == TypesOf(recordings)
  {
    snapshot := new Snapshot(places);
    for i := 0 to |groups|
      invariant fresh(snapshot) && snapshot.Valid() && snapshot.places == places
      invariant snapshot.typeLists == TypesOf(recordings[..i])
    {
      GroupAt(groups, recordings, places, i);
      snapshot.MergeSnapshot(groups[i]);
    }
    assert recordings[..|groups|] == recordings;
  }

  /**
   * Builds the merged snapshot of the config groups. Whatever the groups are, every call edge of the result leads to a
   * function of the result, with the module filter to one in a module; and every type that a function or a fact names
   * has its fact, also after the types that no function reaches are dropped.
   */
  method BuildSnapshot(groups: seq<Partial>, sourceOf: string -> string, tsconfigFiles: bool, ghost places: Places,
                       ghost recordings: seq<Recording>)
    returns (snapshot: Snapshot)
    requires AreGroups(groups, recordings, places)
    ensures fresh(snapshot)
    ensures NoDanglingEdges(snapshot.callEdges, snapshot.functions) && snapshot.pendingCalls == []
    ensures tsconfigFiles ==> forall e <- snapshot.callEdges :: exists m <- snapshot.modules :: m.path == e.toPath
    ensures TypesKnown(snapshot.functions, snapshot.types) && ClosedFacts(snapshot.types)
  {
    snapshot := MergeSnapshots(groups, places, recordings);
    MergedRecordingsAreClosed(recordings, snapshot.types);
    snapshot.ResolveDtsCalls(sourceOf);
    if tsconfigFiles {
      snapshot.KeepTsconfigFiles(recordings);
    }
  }
}
