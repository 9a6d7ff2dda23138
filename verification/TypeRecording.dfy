/** The recording of type facts (internal/tsgo/lintaiapi/types.go, emitFunctionType and
    newTypeFact) and their removal (keepReachableTypes). */
module TypeRecording {
  import opened Basics
  import opened Graphs
  import opened TypeKeys
  import opened TypeFacts
  import Ordering

  /** What the extractor reads: the shapes, the display text of each type without context, and
      the location of each declaration name. */
  datatype World = World(g: Graph, display: Type -> string, location: Type -> Option<Location>)

  function IdIn(w: World, t: Type): Id {
    IdOf(w.g, w.display, t)
  }

  function IdsIn(w: World, ts: seq<Type>): seq<Id> {
    seq(|ts|, i requires 0 <= i < |ts| => IdIn(w, ts[i]))
  }

  /** The types that the fact of a type refers to. */
  function FactTypes(s: Shape): seq<Type> {
    s.args + s.members + PropTypes(s.props) + if s.kind == FunctionKind then s.sig.params + [s.sig.ret] else []
  }

  /** The types that are recorded after a type; none after a truncated one. */
  function NextTypes(w: World, t: Type): set<Type> {
    if IsTruncated(w.g, t) then {} else Elems(FactTypes(w.g(t)))
  }

  /** Marks of a fact: empty when no item is marked. */
  function FactMarks(marks: seq<string>): seq<string> {
    if forall mark <- marks :: mark == "" then []
    else
      seq(|marks|, i requires 0 <= i < |marks| =>
        if marks[i] == "?" then "optional" else if marks[i] == "..." then "rest" else "")
  }

  function FactPropsOf(w: World, props: seq<Prop>): seq<FactProp> {
    seq(|props|, i requires 0 <= i < |props| =>
      FactProp(props[i].name, IdIn(w, props[i].t), props[i].optional, props[i].readonly))
  }

  const TRUNCATED_BODY := Structure(OtherKind, [], [], false, {}, "", "", [], [], [], None, {TRUNCATED})

  function BodyOf(w: World, s: Shape): Structure {
    var function' := s.kind == FunctionKind;
    Structure(
      s.kind,
      IdsIn(w, s.args),
      FactMarks(s.argMarks),
      s.readonly,
      Elems(IdsIn(w, s.members)),
      if s.kind == LiteralKind then s.literal else "",
      s.paramName,
      FactPropsOf(w, s.props),
      if function' then IdsIn(w, s.sig.params) else [],
      if function' then FactMarks(s.sig.marks) else [],
      if function' then Some(IdIn(w, s.sig.ret)) else None,
      s.incomplete)
  }

  function IdentityOf(id: Id, s: Shape): Identity {
    Identity(id, s.named, if s.named then s.originKind else "", s.origin, s.name)
  }

  function NewFact(w: World, t: Type, display: string): Fact {
    var s := w.g(t);
    Fact(
      IdentityOf(IdIn(w, t), s),
      if IsTruncated(w.g, t) then TRUNCATED_BODY else BodyOf(w, s),
      display,
      if s.named then w.location(t) else None)
  }

  /** The IDs that a fact refers to. */
  ghost predicate Mentions(f: Fact, id: Id) {
    || id in f.body.args || id in f.body.members || id in f.body.sigParams
    || (exists prop <- f.body.props :: prop.t == id)
    || f.body.sigReturns == Some(id)
  }

  /** A fact refers to the IDs of the types that are recorded after its type, and to no other. */
  lemma NewFactMentions(w: World, t: Type, display: string, id: Id)
    ensures Mentions(NewFact(w, t, display), id) <==> exists u <- NextTypes(w, t) :: IdIn(w, u) == id
  {
    var s, f := w.g(t), NewFact(w, t, display);
    if !IsTruncated(w.g, t) {
      IdsInElems(w, s.args, id);
      IdsInElems(w, s.members, id);
      IdsInElems(w, s.sig.params, id);
      PropIdsInElems(w, s.props, id);
      FactTypesElems(s);
    }
  }

  lemma PropIdsInElems(w: World, props: seq<Prop>, id: Id)
    ensures (exists prop <- FactPropsOf(w, props) :: prop.t == id) <==> exists u <- PropTypes(props) :: IdIn(w, u) == id
  {
    var recorded, types := FactPropsOf(w, props), PropTypes(props);
    if i :| 0 <= i < |recorded| && recorded[i].t == id {
      assert types[i] in types;
    }
    if i :| 0 <= i < |types| && IdIn(w, types[i]) == id {
      assert recorded[i] in recorded;
    }
  }

  lemma IdsInElems(w: World, ts: seq<Type>, id: Id)
    ensures id in IdsIn(w, ts) <==> exists u <- ts :: IdIn(w, u) == id
  {
    if i :| 0 <= i < |ts| && IdIn(w, ts[i]) == id {
      assert IdsIn(w, ts)[i] == id;
    }
  }

  lemma FactTypesElems(s: Shape)
    ensures forall u :: u in FactTypes(s) <==>
              u in s.args || u in s.members || u in PropTypes(s.props)
              || (s.kind == FunctionKind && (u in s.sig.params || u == s.sig.ret))
  {
  }

  /** What the classification leaves empty: only a named type has a name, and only a named type or
      a type parameter has an origin. */
  predicate WellFormed(s: Shape) {
    !s.named ==> s.name == "" && (s.kind != TypeParamKind ==> s.origin == "")
  }

  /** Two types with one ID, even of two config groups, agree on the fields that the key fixes. */
  lemma IdFixesIdentity(w: World, w': World, t: Type, t': Type, display: string, display': string)
    requires WellFormed(w.g(t)) && WellFormed(w'.g(t'))
    requires IdIn(w, t) == IdIn(w', t')
    ensures NewFact(w, t, display).ident == NewFact(w', t', display').ident
    ensures IsTruncated(w.g, t) == IsTruncated(w'.g, t')
  {
    SameIdSameHead(w, w', t, t');
    HeadFixesIdentity(IdIn(w, t), w.g(t), w'.g(t'));
  }

  lemma HeadFixesIdentity(id: Id, s: Shape, s': Shape)
    requires WellFormed(s) && WellFormed(s') && HeadOf(s) == HeadOf(s')
    ensures IdentityOf(id, s) == IdentityOf(id, s')
  {
    assert s.named == s'.named;
  }

  lemma SameIdSameHead(w: World, w': World, t: Type, t': Type)
    requires IdIn(w, t) == IdIn(w', t')
    ensures HeadOf(w.g(t)) == HeadOf(w'.g(t'))
    ensures IsTruncated(w.g, t) == IsTruncated(w'.g, t')
  {
    RootHead(w.g, t);
    RootHead(w'.g, t');
  }

  function RootHeadOf(k: Key): Option<Head> {
    match k
    case Node(head, _) => Some(head)
    case SetNode(head, _) => Some(head)
    case _ => None
  }

  lemma RootHead(g: Graph, t: Type)
    ensures RootHeadOf(KeyOf(g, t, []).key) == Some(HeadOf(g(t)))
  {
  }

  // ------------------------------------------------------------------------- the recorder

  /** A visit of a type, with its display text in the context of the visit. */
  datatype Visit = Visit(t: Type, display: string)

  ghost function FactsOf(w: World, log: seq<Visit>): seq<Fact> {
    seq(|log|, i requires 0 <= i < |log| => NewFact(w, log[i].t, log[i].display))
  }

  /** The facts are what merging the facts of all visits gives. */
  ghost predicate Records(w: World, facts: Facts, log: seq<Visit>) {
    && SameFacts(facts, AddAll(map[], FactsOf(w, log)))
    && forall id <- facts :: facts[id].ident.id == id
  }

  ghost predicate AllWellFormed(w: World) {
    forall t :: WellFormed(w.g(t))
  }

  lemma VisitsAreConsistent(w: World, log: seq<Visit>)
    requires AllWellFormed(w)
    ensures Consistent(Elems(FactsOf(w, log)))
  {
    var facts := FactsOf(w, log);
    forall a, b | a in Elems(facts) && b in Elems(facts) && a.ident.id == b.ident.id
      ensures a.ident == b.ident
    {
      var i :| 0 <= i < |facts| && facts[i] == a;
      var j :| 0 <= j < |facts| && facts[j] == b;
      IdFixesIdentity(w, w, log[i].t, log[j].t, log[i].display, log[j].display);
    }
  }

  lemma FactsOfMore(w: World, log: seq<Visit>, v: Visit)
    ensures AddAll(map[], FactsOf(w, log + [v])) == AddFact(AddAll(map[], FactsOf(w, log)), NewFact(w, v.t, v.display))
  {
    var f := NewFact(w, v.t, v.display);
    assert FactsOf(w, log + [v]) == FactsOf(w, log) + [f];
    assert (FactsOf(w, log) + [f])[..|log|] == FactsOf(w, log);
  }

  lemma RecordVisit(w: World, facts: Facts, log: seq<Visit>, v: Visit, f: Fact, x: Fact)
    requires Records(w, facts, log) && f == NewFact(w, v.t, v.display)
    requires x.ident.id == f.ident.id
    requires Norm(x) == if f.ident.id in facts then Norm(MergeFact(facts[f.ident.id], f)) else Norm(f)
    ensures Records(w, facts[f.ident.id := x], log + [v])
  {
    SameFactsStep(facts, AddAll(map[], FactsOf(w, log)), f, x);
    FactsOfMore(w, log, v);
  }

  /** A type that was visited before adds nothing but its display text. */
  lemma Revisit(w: World, facts: Facts, log: seq<Visit>, v: Visit, display: string)
    requires AllWellFormed(w) && Records(w, facts, log) && v in log
    ensures IdIn(w, v.t) in facts
    ensures var f := facts[IdIn(w, v.t)];
            Norm(f.(display := Ordering.Min(f.display, display))) == Norm(MergeFact(f, NewFact(w, v.t, display)))
  {
    var x := NewFact(w, v.t, v.display);
    var i :| 0 <= i < |log| && log[i] == v;
    assert FactsOf(w, log)[i] == x;
    VisitsAreConsistent(w, log);
    MergedIsAbove(facts, FactsOf(w, log), x);
    AbsorbedChangesDisplay(facts[IdIn(w, v.t)], x, display);
  }

  ghost function VisitsOf(order: seq<Type>, display: Type -> string): seq<Visit> {
    seq(|order|, i requires 0 <= i < |order| => Visit(order[i], display(order[i])))
  }

  /** A walk that took the log and the visited types from `before` to `after` visited `order`. */
  ghost predicate Visited(log: seq<Visit>, visited: set<Type>, order: seq<Type>, display: Type -> string,
                          log': seq<Visit>, visited': set<Type>) {
    log' == log + VisitsOf(order, display) && visited' == visited + Elems(order)
  }

  lemma VisitedThen(log: seq<Visit>, visited: set<Type>, a: seq<Type>, display: Type -> string, log': seq<Visit>,
                    visited': set<Type>, b: seq<Type>, log'': seq<Visit>, visited'': set<Type>)
    requires Visited(log, visited, a, display, log', visited')
    requires Visited(log', visited', b, display, log'', visited'')
    ensures Visited(log, visited, a + b, display, log'', visited'')
  {
    assert VisitsOf(a + b, display) == VisitsOf(a, display) + VisitsOf(b, display);
    assert Elems(a + b) == Elems(a) + Elems(b);
  }

  lemma VisitedNone(log: seq<Visit>, visited: set<Type>, display: Type -> string)
    ensures Visited(log, visited, [], display, log, visited)
  {
  }

  lemma VisitedOne(log: seq<Visit>, visited: set<Type>, t: Type, display: Type -> string)
    ensures Visited(log, visited, [t], display, log + [Visit(t, display(t))], visited + {t})
  {
    assert VisitsOf([t], display) == [Visit(t, display(t))];
    assert Elems([t]) == {t};
  }

  ghost predicate SeenIsLogged(seen: set<Type>, log: seq<Visit>) {
    forall t <- seen :: exists v <- log :: v.t == t
  }

  lemma SeeOneMore(seen: set<Type>, log: seq<Visit>, t: Type, display: string)
    requires SeenIsLogged(seen, log)
    ensures SeenIsLogged(seen + {t}, log + [Visit(t, display)])
  {
    var log' := log + [Visit(t, display)];
    assert log'[|log|] in log' && log'[|log|].t == t;
    assert forall v <- log :: v in log';
  }

  /** The list of the facts that are not left to list. */
  ghost predicate ListsAllBut(types: seq<Fact>, facts: Facts, left: set<Id>) {
    && left <= facts.Keys && (forall id <- facts :: facts[id].ident.id == id)
    && Lists(types, map id | id in facts && id !in left :: facts[id])
  }

  lemma AllListed(types: seq<Fact>, facts: Facts)
    requires ListsAllBut(types, facts, {})
    ensures Lists(types, facts)
  {
    assert (map id | id in facts && id !in {} :: facts[id]) == facts;
  }

  lemma OneMoreListed(types: seq<Fact>, facts: Facts, left: set<Id>, id: Id)
    requires ListsAllBut(types, facts, left) && id in left
    ensures ListsAllBut(types + [facts[id]], facts, left - {id})
  {
    var more := types + [facts[id]];
    assert more[|types|].ident.id == id;
    forall i | 0 <= i < |types| ensures more[i] == types[i] && types[i].ident.id in Ids(types) {}
    assert Ids(more) == Ids(types) + {id};
  }

  method ListFacts(facts: Facts) returns (types: seq<Fact>)
    requires forall id <- facts :: facts[id].ident.id == id
    ensures Lists(types, facts)
  {
    types := [];
    var left := facts.Keys;
    while left != {}
      invariant ListsAllBut(types, facts, left)
      decreases |left|
    {
      var id :| id in left;
      OneMoreListed(types, facts, left, id);
      types, left := types + [facts[id]], left - {id};
    }
    AllListed(types, facts);
  }

  lemma EmittedIsReachable(next: Type -> set<Type>, universe: set<Type>, root: Type, visited: set<Type>,
                           order: seq<Type>)
    requires IsClosed(next, universe) && root in universe && visited == Elems(order)
    requires root in visited && visited <= Reachable(next, universe, {root}) && Explored(next, visited, {})
    ensures IsClosed(next, Elems(order))
    ensures forall t :: t in order <==> Reaches(next, root, t)
  {
    ExploredIsReachable(next, universe, {root}, visited);
    ReachableIsClosed(next, universe, {root});
    forall t ensures t in order <==> Reaches(next, root, t) {
      assert t in order <==> ReachedFrom(next, {root}, t);
    }
  }

  /** A visited type has a fact. */
  lemma VisitedIsRecorded(w: World, facts: Facts, log: seq<Visit>, v: Visit)
    requires Records(w, facts, log) && v in log
    ensures IdIn(w, v.t) in facts
  {
    var fs := FactsOf(w, log);
    var i :| 0 <= i < |log| && log[i] == v;
    assert fs[i].ident.id in Ids(fs);
    AddAllKeys(map[], fs);
    assert IdIn(w, v.t) in AddAll(map[], fs).Keys;
  }

  ghost predicate IsVisited(w: World, log: seq<Visit>, id: Id) {
    exists v <- log :: IdIn(w, v.t) == id
  }

  /** A function of the snapshot: its return type and its parameter types, if it has them. */
  datatype FunctionTypes = FunctionTypes(returnType: Option<Id>, parameterTypes: seq<Option<Id>>)

  function FunctionIds(f: FunctionTypes): set<Id> {
    (if f.returnType.Some? then {f.returnType.value} else {})
    + set p <- f.parameterTypes | p.Some? :: p.value
  }

  /** The types that a function names were visited. */
  ghost predicate NamesVisits(f: FunctionTypes, w: World, log: seq<Visit>) {
    forall id <- FunctionIds(f) :: IsVisited(w, log, id)
  }

  lemma StillNamesVisits(f: FunctionTypes, w: World, log: seq<Visit>, log': seq<Visit>)
    requires NamesVisits(f, w, log) && log <= log'
    ensures NamesVisits(f, w, log')
  {
    forall id | id in FunctionIds(f) ensures IsVisited(w, log', id) {
      assert IsVisited(w, log, id);
      var v :| v in log && IdIn(w, v.t) == id;
      assert v in log';
    }
  }

  lemma OneMoreParameter(f: FunctionTypes, id: Option<Id>, w: World, log: seq<Visit>)
    requires NamesVisits(f, w, log) && (id.Some? ==> IsVisited(w, log, id.value))
    ensures NamesVisits(f.(parameterTypes := f.parameterTypes + [id]), w, log)
  {
    var more := f.(parameterTypes := f.parameterTypes + [id]);
    forall i | i in FunctionIds(more) ensures IsVisited(w, log, i) {
      assert i in FunctionIds(f) || id == Some(i);
    }
  }

  /** A return type or a parameter: its type, if it has one, and the display texts at its node. */
  datatype Slot = Slot(t: Option<Type>, display: Type -> string)

  function SlotId(w: World, slot: Slot): Option<Id> {
    if slot.t.Some? then Some(IdIn(w, slot.t.value)) else None
  }

  function SlotIds(w: World, slots: seq<Slot>): seq<Option<Id>> {
    seq(|slots|, i requires 0 <= i < |slots| => SlotId(w, slots[i]))
  }

  lemma OneMoreSlot(w: World, slots: seq<Slot>, i: nat)
    requires i < |slots|
    ensures SlotIds(w, slots[..i + 1]) == SlotIds(w, slots[..i]) + [SlotId(w, slots[i])]
  {
  }

  /** The types of the result and of the parameters, all of them visited. */
  ghost predicate AreTypesOf(types: FunctionTypes, w: World, log: seq<Visit>, result: Slot, parameters: seq<Slot>) {
    types == FunctionTypes(SlotId(w, result), SlotIds(w, parameters)) && NamesVisits(types, w, log)
  }

  lemma NoParameterYet(id: Option<Id>, w: World, log: seq<Visit>, result: Slot)
    requires id == SlotId(w, result) && (id.Some? ==> IsVisited(w, log, id.value))
    ensures AreTypesOf(FunctionTypes(id, []), w, log, result, [])
  {
  }

  lemma NextParameter(types: FunctionTypes, w: World, log: seq<Visit>, log': seq<Visit>, result: Slot,
                      parameters: seq<Slot>, i: nat, id: Option<Id>)
    requires i < |parameters| && AreTypesOf(types, w, log, result, parameters[..i]) && log <= log'
    requires id == SlotId(w, parameters[i]) && (id.Some? ==> IsVisited(w, log', id.value))
    ensures AreTypesOf(types.(parameterTypes := types.parameterTypes + [id]), w, log', result, parameters[..i + 1])
  {
    OneMoreSlot(w, parameters, i);
    StillNamesVisits(types, w, log, log');
    OneMoreParameter(types, id, w, log');
  }

  ghost predicate SlotIsIn(slot: Slot, universe: set<Type>) {
    slot.t.Some? ==> slot.t.value in universe
  }

  /** The part of the extractor that records type facts. */
  class Recorder {
    const w: World
    /** The types that are recorded after each type. */
    ghost const next: Type -> set<Type>
    var typeFacts: Facts
    var typeFactSeen: set<Type>
    /** Every visit so far, in order. */
    ghost var log: seq<Visit>

    constructor (w: World)
      requires AllWellFormed(w)
      ensures Valid() && this.w == w && log == []
    {
      this.w := w;
      this.next := t => NextTypes(w, t);
      typeFacts, typeFactSeen, log := map[], {}, [];
    }

    ghost predicate Valid()
      reads this
    {
      && AllWellFormed(w)
      && (forall t {:trigger NextTypes(w, t)} :: next(t) == NextTypes(w, t))
      && Records(w, typeFacts, log)
      && SeenIsLogged(typeFactSeen, log)
    }

    /** The fact of a type with one more visit. */
    method Merged(t: Type, display: string) returns (recorded: Fact)
      requires Valid()
      ensures recorded.ident.id == IdIn(w, t)
      ensures var fact := NewFact(w, t, display);
              Norm(recorded) ==
              if IdIn(w, t) in typeFacts then Norm(MergeFact(typeFacts[IdIn(w, t)], fact)) else Norm(fact)
    {
      var id, fact := IdIn(w, t), NewFact(w, t, display);
      if id !in typeFacts {
        recorded := fact;
      } else if t !in typeFactSeen {
        recorded := MergeFact(typeFacts[id], fact);
      } else {
        ghost var v :| v in log && v.t == t;
        Revisit(w, typeFacts, log, v, display);
        recorded := typeFacts[id].(display := Ordering.Min(typeFacts[id].display, display));
      }
    }

    /** Records one visit of a type. */
    method Record(t: Type, display: string)
      requires Valid()
      modifies this
      ensures Valid()
      ensures log == old(log) + [Visit(t, display)]
    {
      var recorded := Merged(t, display);
      RecordVisit(w, typeFacts, log, Visit(t, display), NewFact(w, t, display), recorded);
      SeeOneMore(typeFactSeen, log, t, display);
      typeFacts := typeFacts[IdIn(w, t) := recorded];
      typeFactSeen := typeFactSeen + {t};
      log := log + [Visit(t, display)];
    }

    /** Visits a type and the types it refers to. `open` are the types whose visit has started and
        not finished, and `universe` is a closed set of types that bounds the walk. The new visits
        are those of `order`. */
    method VisitType(t: Type, visited: set<Type>, display: Type -> string, ghost open: set<Type>,
                     ghost universe: set<Type>)
      returns (visited': set<Type>, ghost order: seq<Type>)
      requires Valid() && IsClosed(next, universe)
      requires t in universe && visited <= universe && Explored(next, visited, open)
      modifies this
      ensures Valid()
      ensures t in visited' && visited <= visited' <= universe && Explored(next, visited', open)
      ensures Visited(old(log), visited, order, display, log, visited')
      decreases universe - visited, 1
    {
      if t in visited {
        VisitedNone(log, visited, display);
        return visited, [];
      }
      Record(t, display(t));
      VisitedOne(old(log), visited, t, display);
      visited', order := visited + {t}, [t];
      assert next(t) == NextTypes(w, t);
      if !IsTruncated(w.g, t) {
        ghost var logMid := log;
        ghost var below: seq<Type>;
        visited', below := VisitChildren(t, FactTypes(w.g(t)), visited', display, open, universe);
        VisitedThen(old(log), visited, order, display, logMid, visited + {t}, below, log, visited');
        order := order + below;
      }
    }

    method VisitChildren(t: Type, children: seq<Type>, visited: set<Type>, display: Type -> string,
                         ghost open: set<Type>, ghost universe: set<Type>)
      returns (visited': set<Type>, ghost order: seq<Type>)
      requires Valid() && IsClosed(next, universe) && next(t) == Elems(children)
      requires t in visited && visited <= universe && Explored(next, visited, open + {t})
      modifies this
      ensures Valid()
      ensures visited <= visited' <= universe && Explored(next, visited', open)
      ensures Visited(old(log), visited, order, display, log, visited')
      decreases universe - visited, 2
    {
      visited', order := visited, [];
      VisitedNone(log, visited, display);
      for i := 0 to |children|
        invariant Valid()
        invariant visited <= visited' <= universe && Explored(next, visited', open + {t})
        invariant Elems(children[..i]) <= visited'
        invariant Visited(old(log), visited, order, display, log, visited')
      {
        ElemsOfPrefix(children, i);
        ghost var logMid, visitedMid := log, visited';
        ghost var below: seq<Type>;
        visited', below := VisitType(children[i], visited', display, open + {t}, universe);
        VisitedThen(old(log), visited, order, display, logMid, visitedMid, below, log, visited');
        order := order + below;
      }
      assert children[..|children|] == children;
    }

    /** Every type that a visited type refers to is visited too. */
    ghost predicate Finished()
      reads this
    {
      forall v <- log, t <- next(v.t) :: exists u <- log :: u.t == t
    }

    /** Records a parameter or return type and everything it refers to: one visit of each type
        that the root reaches. */
    method EmitFunctionType(root: Option<Type>, display: Type -> string, ghost universe: set<Type>)
      returns (id: Option<Id>, ghost order: seq<Type>)
      requires Valid() && Finished() && IsClosed(next, universe)
      requires root.Some? ==> root.value in universe
      modifies this
      ensures Valid() && Finished()
      ensures id == if root.None? then None else Some(IdIn(w, root.value))
      ensures log == old(log) + VisitsOf(order, display)
      ensures forall t :: t in order <==> root.Some? && Reaches(next, root.value, t)
      ensures id.Some? ==> id.value in typeFacts && IsVisited(w, log, id.value)
    {
      if root.None? {
        return None, [];
      }
      ghost var reachable := Reachable(next, universe, {root.value});
      ReachableIsClosed(next, universe, {root.value});
      var visited;
      visited, order := VisitType(root.value, {}, display, {}, reachable);
      EmittedIsReachable(next, universe, root.value, visited, order);
      VisitsClose(next, old(log), order, display);
      id := Some(IdIn(w, root.value));
      RootIsVisited(next, order, display, root.value, old(log));
      VisitedIsRecorded(w, typeFacts, log, Visit(root.value, display(root.value)));
    }

    /** Records the return type and the parameter types of a function. */
    method TypesOfFunction(result: Slot, parameters: seq<Slot>, ghost universe: set<Type>)
      returns (types: FunctionTypes)
      requires Valid() && Finished() && IsClosed(next, universe)
      requires SlotIsIn(result, universe) && forall i :: 0 <= i < |parameters| ==> SlotIsIn(parameters[i], universe)
      modifies this
      ensures Valid() && Finished() && old(log) <= log
      ensures AreTypesOf(types, w, log, result, parameters)
    {
      var returnType := EmitSlot(result, universe);
      types := FunctionTypes(returnType, []);
      NoParameterYet(returnType, w, log, result);
      for i := 0 to |parameters|
        invariant Valid() && Finished() && old(log) <= log
        invariant AreTypesOf(types, w, log, result, parameters[..i])
      {
        ghost var before := log;
        assert SlotIsIn(parameters[i], universe);
        var id := EmitSlot(parameters[i], universe);
        NextParameter(types, w, before, log, result, parameters, i, id);
        types := types.(parameterTypes := types.parameterTypes + [id]);
      }
      assert parameters[..|parameters|] == parameters;
    }

    method EmitSlot(slot: Slot, ghost universe: set<Type>) returns (id: Option<Id>)
      requires Valid() && Finished() && IsClosed(next, universe) && SlotIsIn(slot, universe)
      modifies this
      ensures Valid() && Finished() && old(log) <= log
      ensures id == SlotId(w, slot) && (id.Some? ==> IsVisited(w, log, id.value))
    {
      ghost var order;
      id, order := EmitFunctionType(slot.t, slot.display, universe);
    }

    /** The recorded facts as a list, one for each ID; the order by ID does not matter here. */
    method TypeFactList() returns (types: seq<Fact>)
      requires Valid()
      ensures Lists(types, typeFacts)
    {
      types := ListFacts(typeFacts);
    }

    /** Between two calls, every ID that a recorded fact refers to has its own fact. */
    lemma FactsAreClosed(id: Id, mentioned: Id)
      requires Valid() && Finished()
      requires id in typeFacts && Mentions(typeFacts[id], mentioned)
      ensures mentioned in typeFacts
    {
      forall v, t | v in log && t in NextTypes(w, v.t)
        ensures exists u <- log :: u.t == t
      {
        assert t in next(v.t);
      }
      RecordedFactsAreClosed(w, typeFacts, log, id, mentioned);
    }
  }

  lemma RootIsVisited(next: Type -> set<Type>, order: seq<Type>, display: Type -> string, root: Type, log: seq<Visit>)
    requires forall t :: t in order <==> Reaches(next, root, t)
    ensures Visit(root, display(root)) in log + VisitsOf(order, display)
  {
    ReachesSelf(next, root);
    var i :| 0 <= i < |order| && order[i] == root;
    assert VisitsOf(order, display)[i] == Visit(root, display(root));
  }

  /** A log to which all visits of a closed set of types are added stays finished. */
  lemma VisitsClose(next: Type -> set<Type>, log: seq<Visit>, order: seq<Type>, display: Type -> string)
    requires forall v <- log, t <- next(v.t) :: exists u <- log :: u.t == t
    requires IsClosed(next, Elems(order))
    ensures var log' := log + VisitsOf(order, display);
            forall v <- log', t <- next(v.t) :: exists u <- log' :: u.t == t
  {
    var visits := VisitsOf(order, display);
    forall v, t | v in log + visits && t in next(v.t)
      ensures exists u <- log + visits :: u.t == t
    {
      if v in log {
        var u :| u in log && u.t == t;
        assert u in log + visits;
      } else {
        var i :| 0 <= i < |order| && visits[i] == v;
        assert order[i] in Elems(order) && t in Elems(order);
        var j :| 0 <= j < |order| && order[j] == t;
        assert visits[j] in log + visits;
      }
    }
  }

  /** The recorded facts depend only on the set of visits, not on their order. */
  lemma RecordingOrderIrrelevant(w: World, facts: Facts, facts': Facts, log: seq<Visit>, log': seq<Visit>)
    requires AllWellFormed(w) && Records(w, facts, log) && Records(w, facts', log')
    requires Elems(log) == Elems(log')
    ensures SameFacts(facts, facts')
  {
    assert Elems(FactsOf(w, log)) == Elems(FactsOf(w, log')) by {
      SameVisitsSameFacts(w, log, log');
      SameVisitsSameFacts(w, log', log);
    }
    VisitsAreConsistent(w, log);
    MergeOrderIrrelevant(FactsOf(w, log), FactsOf(w, log'));
  }

  lemma SameVisitsSameFacts(w: World, log: seq<Visit>, log': seq<Visit>)
    requires Elems(log) <= Elems(log')
    ensures Elems(FactsOf(w, log)) <= Elems(FactsOf(w, log'))
  {
    MappedElems(log, log', FactsOf(w, log), FactsOf(w, log'));
  }

  /** Lists that are made from other lists in the same way. */
  lemma MappedElems<A(!new), B(!new)>(xs: seq<A>, xs': seq<A>, ys: seq<B>, ys': seq<B>)
    requires Elems(xs) <= Elems(xs') && |ys| == |xs| && |ys'| == |xs'|
    requires forall i, j :: 0 <= i < |xs| && 0 <= j < |xs'| && xs[i] == xs'[j] ==> ys[i] == ys'[j]
    ensures Elems(ys) <= Elems(ys')
  {
    forall y | y in ys ensures y in ys' {
      var i :| 0 <= i < |ys| && ys[i] == y;
      assert xs[i] in Elems(xs');
      var j :| 0 <= j < |xs'| && xs'[j] == xs[i];
      assert ys'[j] == y;
    }
  }

  /** A merged fact refers only to IDs that one of the merged facts refers to. */
  lemma {:induction false} AddAllMentions(fs: seq<Fact>, id: Id, mentioned: Id)
    requires id in AddAll(map[], fs) && Mentions(AddAll(map[], fs)[id], mentioned)
    ensures exists f <- fs :: f.ident.id == id && Mentions(f, mentioned)
  {
    var init, last := fs[..|fs| - 1], fs[|fs| - 1];
    assert fs == init + [last];
    var m := AddAll(map[], init);
    if id != last.ident.id || (id in m && Mentions(m[id], mentioned)) {
      AddAllMentions(init, id, mentioned);
    } else {
      assert last in fs && Mentions(last, mentioned);
    }
  }

  ghost predicate FinishedLog(w: World, log: seq<Visit>) {
    forall v <- log, t {:trigger t in NextTypes(w, v.t)} :: t in NextTypes(w, v.t) ==> exists u <- log :: u.t == t
  }

  lemma LoggedFactMentions(w: World, log: seq<Visit>, i: nat, mentioned: Id)
    requires FinishedLog(w, log)
    requires i < |log| && Mentions(FactsOf(w, log)[i], mentioned)
    ensures mentioned in Ids(FactsOf(w, log))
  {
    NewFactMentions(w, log[i].t, log[i].display, mentioned);
    var t :| t in NextTypes(w, log[i].t) && IdIn(w, t) == mentioned;
    var u :| u in log && u.t == t;
    var j :| 0 <= j < |log| && log[j] == u;
    assert FactsOf(w, log)[j].ident.id == mentioned;
  }

  /** Every ID that a recorded fact refers to has a recorded fact of its own. */
  lemma RecordedFactsAreClosed(w: World, facts: Facts, log: seq<Visit>, id: Id, mentioned: Id)
    requires AllWellFormed(w) && Records(w, facts, log) && FinishedLog(w, log)
    requires id in facts && Mentions(facts[id], mentioned)
    ensures mentioned in facts
  {
    SameMentions(facts[id], AddAll(map[], FactsOf(w, log))[id], mentioned);
    var i := MentionedByVisit(w, log, id, mentioned);
    LoggedFactMentions(w, log, i, mentioned);
    AddAllKeys(map[], FactsOf(w, log));
    assert mentioned in AddAll(map[], FactsOf(w, log)).Keys;
  }

  lemma MentionedByVisit(w: World, log: seq<Visit>, id: Id, mentioned: Id) returns (i: nat)
    requires id in AddAll(map[], FactsOf(w, log)) && Mentions(AddAll(map[], FactsOf(w, log))[id], mentioned)
    ensures i < |log| && Mentions(FactsOf(w, log)[i], mentioned)
  {
    var fs := FactsOf(w, log);
    AddAllMentions(fs, id, mentioned);
    var f :| f in fs && f.ident.id == id && Mentions(f, mentioned);
    i :| 0 <= i < |fs| && fs[i] == f;
  }

  lemma SameMentions(f: Fact, g: Fact, id: Id)
    requires Norm(f) == Norm(g)
    ensures Mentions(f, id) <==> Mentions(g, id)
  {
    assert Norm(f).body == Norm(g).body;
  }

  // ------------------------------------------------------------------------------- removal

  /** The IDs that a fact refers to, in order of its fields. */
  function ChildIds(f: Fact): set<Id> {
    Elems(f.body.args) + f.body.members + Elems(f.body.sigParams)
    + (set prop <- f.body.props :: prop.t)
    + if f.body.sigReturns.Some? then {f.body.sigReturns.value} else {}
  }

  lemma ChildIdsAreMentions(f: Fact, id: Id)
    ensures id in ChildIds(f) <==> Mentions(f, id)
  {
  }

  function IndexFacts(types: seq<Fact>): map<Id, Fact> {
    if types == [] then map[] else IndexFacts(types[..|types| - 1])[types[|types| - 1].ident.id := types[|types| - 1]]
  }

  function ChildrenIn(index: map<Id, Fact>, id: Id): set<Id> {
    if id in index then ChildIds(index[id]) else {}
  }

  function RootIds(functions: seq<FunctionTypes>): set<Id> {
    set f <- functions, id <- FunctionIds(f) :: id
  }

  method VisitId(index: map<Id, Fact>, id: Id, reached: set<Id>, ghost next: Id -> set<Id>, ghost open: set<Id>,
                 ghost universe: set<Id>)
    returns (reached': set<Id>)
    requires forall n {:trigger ChildrenIn(index, n)} :: next(n) == ChildrenIn(index, n)
    requires IsClosed(next, universe) && id in universe && reached <= universe && Explored(next, reached, open)
    ensures id in reached' && reached <= reached' <= universe && Explored(next, reached', open)
    decreases universe - reached, 1
  {
    if id in reached {
      return reached;
    }
    assert next(id) == ChildrenIn(index, id);
    reached' := VisitIds(index, ChildrenIn(index, id), reached + {id}, next, open + {id}, universe);
    assert Explored(next, reached', open);
  }

  /** Visits the children of an entity, in any order. */
  method VisitIds(index: map<Id, Fact>, children: set<Id>, reached: set<Id>, ghost next: Id -> set<Id>,
                  ghost open: set<Id>, ghost universe: set<Id>)
    returns (reached': set<Id>)
    requires forall n {:trigger ChildrenIn(index, n)} :: next(n) == ChildrenIn(index, n)
    requires IsClosed(next, universe) && children <= universe && reached <= universe && Explored(next, reached, open)
    ensures children <= reached' && reached <= reached' <= universe && Explored(next, reached', open)
    decreases universe - reached, 2, children
  {
    if children == {} {
      return reached;
    }
    var child :| child in children;
    reached' := VisitId(index, child, reached, next, open, universe);
    reached' := VisitIds(index, children - {child}, reached', next, open, universe);
  }

  function NextIds(types: seq<Fact>): Id -> set<Id> {
    id => ChildrenIn(IndexFacts(types), id)
  }

  /** The facts with the given IDs, in the order of the list. */
  function Select(types: seq<Fact>, ids: set<Id>): seq<Fact> {
    if types == [] then []
    else
      var last := types[|types| - 1];
      Select(types[..|types| - 1], ids) + if last.ident.id in ids then [last] else []
  }

  lemma {:induction false} SelectElems(types: seq<Fact>, ids: set<Id>, f: Fact)
    ensures f in Select(types, ids) <==> f in types && f.ident.id in ids
  {
    if types != [] {
      SelectElems(types[..|types| - 1], ids, f);
      assert types == types[..|types| - 1] + [types[|types| - 1]];
    }
  }

  lemma {:induction false} IndexedFacts(types: seq<Fact>, id: Id)
    ensures id in IndexFacts(types) <==> exists f <- types :: f.ident.id == id
    ensures id in IndexFacts(types) ==> IndexFacts(types)[id] in types && IndexFacts(types)[id].ident.id == id
  {
    if types != [] {
      IndexedFacts(types[..|types| - 1], id);
      assert types == types[..|types| - 1] + [types[|types| - 1]];
    }
  }

  /** All IDs that the walk can meet. */
  function AllIds(types: seq<Fact>, functions: seq<FunctionTypes>): set<Id> {
    RootIds(functions) + set f <- types, id <- ChildIds(f) :: id
  }

  lemma AllIdsIsClosed(types: seq<Fact>, functions: seq<FunctionTypes>)
    ensures IsClosed(NextIds(types), AllIds(types, functions)) && RootIds(functions) <= AllIds(types, functions)
  {
    forall n, id | n in AllIds(types, functions) && id in NextIds(types)(n)
      ensures id in AllIds(types, functions)
    {
      IndexedFacts(types, n);
      var f := IndexFacts(types)[n];
      assert f in types && id in ChildIds(f);
    }
  }

  method BuildFactIndex(types: seq<Fact>) returns (index: map<Id, Fact>)
    ensures index == IndexFacts(types)
  {
    index := map[];
    for i := 0 to |types|
      invariant index == IndexFacts(types[..i])
    {
      assert types[..i + 1][..i] == types[..i];
      index := index[types[i].ident.id := types[i]];
    }
    assert types[..|types|] == types;
  }

  method ReachIds(types: seq<Fact>, functions: seq<FunctionTypes>) returns (reached: set<Id>)
    ensures forall id :: id in reached <==> ReachedFrom(NextIds(types), RootIds(functions), id)
  {
    ghost var next, all := NextIds(types), AllIds(types, functions);
    AllIdsIsClosed(types, functions);
    ReachableIsClosed(next, all, RootIds(functions));
    var index := BuildFactIndex(types);
    reached := VisitIds(index, RootIds(functions), {}, next, {}, Reachable(next, all, RootIds(functions)));
    ExploredIsReachable(next, all, RootIds(functions), reached);
  }

  /** Keeps the facts that a parameter or return type of some function reaches. */
  method KeepReachableTypes(types: seq<Fact>, functions: seq<FunctionTypes>) returns (kept: seq<Fact>, reached: set<Id>)
    ensures forall id :: id in reached <==> ReachedFrom(NextIds(types), RootIds(functions), id)
    ensures kept == Select(types, reached)
  {
    reached := ReachIds(types, functions);
    kept := [];
    for i := 0 to |types|
      invariant kept == Select(types[..i], reached)
    {
      assert types[..i + 1][..i] == types[..i];
      if types[i].ident.id in reached {
        kept := kept + [types[i]];
      }
    }
    assert types[..|types|] == types;
  }

  ghost predicate ClosedFacts(types: seq<Fact>) {
    forall f <- types, id: Id :: Mentions(f, id) ==> exists g <- types :: g.ident.id == id
  }

  /** The kept facts are exactly the reachable ones, and they are closed when all facts were. */
  lemma KeptFactsAreClosed(types: seq<Fact>, functions: seq<FunctionTypes>, reached: set<Id>)
    requires UniqueIds(types) && ClosedFacts(types)
    requires forall id :: id in reached <==> ReachedFrom(NextIds(types), RootIds(functions), id)
    ensures forall f ::
              f in Select(types, reached) <==> f in types && ReachedFrom(NextIds(types), RootIds(functions), f.ident.id)
    ensures ClosedFacts(Select(types, reached))
  {
    var kept := Select(types, reached);
    forall f {
      SelectElems(types, reached, f);
    }
    forall f, id: Id | f in kept && Mentions(f, id)
      ensures exists g <- kept :: g.ident.id == id
    {
      var g :| g in types && g.ident.id == id;
      var root :| root in RootIds(functions) && Reaches(NextIds(types), root, f.ident.id);
      IndexedFacts(types, f.ident.id);
      ChildIdsAreMentions(f, id);
      assert IndexFacts(types)[f.ident.id] == f;
      ReachesNext(NextIds(types), root, f.ident.id, id);
      assert g in kept;
    }
  }
}
