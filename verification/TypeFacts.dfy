/** Type facts (internal/tsgo/lintaiapi/types.go): the record of a type, and the merge of the records
    of one ID. */
module TypeFacts {
  import opened Basics
  import opened Graphs
  import opened TypeKeys
  import Ordering

  const CONFLICT := "conflict"
  const TRUNCATED := "truncated"

  datatype Location = Location(file: string, startLine: int, startColumn: int, endLine: int, endColumn: int)

  datatype FactProp = FactProp(name: string, t: Id, optional: bool, readonly: bool)

  /** The fields that the key of a type fixes. */
  datatype Identity = Identity(id: Id, named: bool, originKind: string, origin: string, name: string)

  /** The structure of a type. An absent list is the empty list, sorted lists without duplicates
      are sets. */
  datatype Structure = Structure(
    kind: Kind,
    args: seq<Id>,
    argMarks: seq<string>,
    readonly: bool,
    members: set<Id>,
    literal: string,
    paramName: string,
    props: seq<FactProp>,
    sigParams: seq<Id>,
    sigMarks: seq<string>,
    sigReturns: Option<Id>,
    incomplete: set<string>)

  datatype Fact = Fact(ident: Identity, body: Structure, display: string, location: Option<Location>)

  // ------------------------------------------------------------------------ merging two facts

  predicate LocationLess(l: Location, r: Location) {
    if l.file != r.file then Ordering.Less(l.file, r.file)
    else if l.startLine != r.startLine then l.startLine < r.startLine
    else l.startColumn < r.startColumn
  }

  function MergeLocation(l: Option<Location>, r: Option<Location>): Option<Location> {
    if l.None? || (r.Some? && LocationLess(r.value, l.value)) then r else l
  }

  predicate SameStructure(l: Fact, r: Fact) {
    l.ident == r.ident && l.body == r.body
  }

  /** What is left of two different structures: what the key fixes, and the kind if they agree. */
  function ConflictBody(l: Fact, r: Fact): Structure {
    Structure(
      if l.body.kind != r.body.kind then OtherKind else l.body.kind,
      if l.ident.named && l.body.args == r.body.args then l.body.args else [],
      [], false, {}, "", "", [], [], [], None, {CONFLICT})
  }

  function MergeFact(l: Fact, r: Fact): Fact {
    Fact(
      l.ident,
      if SameStructure(l, r) then l.body else ConflictBody(l, r),
      Ordering.Min(l.display, r.display),
      MergeLocation(l.location, r.location))
  }

  function Start(l: Option<Location>): Option<Location> {
    match l
    case None => None
    case Some(v) => Some(v.(endLine := 0, endColumn := 0))
  }

  /** A fact with its location reduced to where it starts. */
  function Norm(f: Fact): Fact {
    f.(location := Start(f.location))
  }

  lemma LocationLessLaws(a: Location, b: Location, c: Location)
    ensures !(LocationLess(a, b) && LocationLess(b, a))
    ensures LocationLess(a, b) && LocationLess(b, c) ==> LocationLess(a, c)
    ensures !LocationLess(a, b) && !LocationLess(b, a) ==> Start(Some(a)) == Start(Some(b))
  {
    Ordering.CompareAntisymmetric(a.file, b.file);
    Ordering.CompareIsEquality(a.file, b.file);
    Ordering.CompareIsEquality(a.file, c.file);
    Ordering.CompareTransitive(a.file, b.file, c.file);
  }

  lemma MergeLocationLaws(a: Option<Location>, b: Option<Location>, c: Option<Location>)
    ensures Start(MergeLocation(a, b)) == MergeLocation(Start(a), Start(b))
    ensures Start(MergeLocation(a, b)) == Start(MergeLocation(b, a))
    ensures Start(MergeLocation(a, MergeLocation(b, c))) == Start(MergeLocation(MergeLocation(a, b), c))
    ensures MergeLocation(a, a) == a
  {
    if a.Some? && b.Some? { LocationLessLaws(a.value, b.value, a.value); LocationLessLaws(b.value, a.value, b.value); }
    if b.Some? && c.Some? { LocationLessLaws(b.value, c.value, b.value); LocationLessLaws(c.value, b.value, c.value); }
    if a.Some? && c.Some? { LocationLessLaws(a.value, c.value, a.value); LocationLessLaws(c.value, a.value, c.value); }
    if a.Some? && b.Some? && c.Some? {
      LocationLessLaws(a.value, b.value, c.value); LocationLessLaws(c.value, b.value, a.value);
    }
  }

  /** Only the start of a location matters to the merge. */
  lemma MergeNorm(a: Fact, b: Fact)
    ensures Norm(MergeFact(a, b)) == MergeFact(Norm(a), Norm(b))
  {
    MergeLocationLaws(a.location, b.location, None);
  }

  lemma MergeCommutative(a: Fact, b: Fact)
    requires a.ident == b.ident
    ensures Norm(MergeFact(a, b)) == Norm(MergeFact(b, a))
  {
    MergeLocationLaws(a.location, b.location, None);
    Ordering.MinLaws(a.display, b.display, "");
  }

  lemma MergeAssociative(a: Fact, b: Fact, c: Fact)
    requires a.ident == b.ident == c.ident
    ensures Norm(MergeFact(a, MergeFact(b, c))) == Norm(MergeFact(MergeFact(a, b), c))
  {
    var l, r := MergeFact(a, MergeFact(b, c)), MergeFact(MergeFact(a, b), c);
    assert Start(l.location) == Start(r.location) by { MergeLocationLaws(a.location, b.location, c.location); }
    assert l.display == r.display by { Ordering.MinLaws(a.display, b.display, c.display); }
    assert l.body == r.body by { BodiesAssociative(a, b, c); }
  }

  lemma BodiesAssociative(a: Fact, b: Fact, c: Fact)
    requires a.ident == b.ident == c.ident
    ensures MergeFact(a, MergeFact(b, c)).body == MergeFact(MergeFact(a, b), c).body
  {
    if a.body == b.body == c.body {
      assert MergeFact(b, c).body == a.body;
    }
  }

  lemma MergeIdempotent(a: Fact)
    ensures MergeFact(a, a) == a
  {
    MergeLocationLaws(a.location, a.location, a.location);
    Ordering.MinLaws(a.display, a.display, a.display);
  }

  /** The order of the semilattice: `b` already has everything that `a` contributes. */
  predicate Below(a: Fact, b: Fact) {
    a.ident == b.ident && Norm(MergeFact(a, b)) == Norm(b)
  }

  lemma BelowAntisymmetric(a: Fact, b: Fact)
    requires Below(a, b) && Below(b, a)
    ensures Norm(a) == Norm(b)
  {
    MergeCommutative(a, b);
  }

  /** The merge of two facts is their least upper bound. */
  lemma MergeIsLeastUpperBound(a: Fact, b: Fact, u: Fact)
    requires a.ident == b.ident == u.ident
    ensures Below(a, MergeFact(a, b)) && Below(b, MergeFact(a, b))
    ensures Below(a, u) && Below(b, u) ==> Below(MergeFact(a, b), u)
  {
    MergeIdempotent(a); MergeIdempotent(b);
    MergeAssociative(a, a, b);
    MergeAssociative(b, b, a);
    MergeCommutative(a, b);
    MergeNorm(b, MergeFact(a, b)); MergeNorm(b, MergeFact(b, a));
    MergeAssociative(a, b, u);
    MergeNorm(a, MergeFact(b, u)); MergeNorm(a, u);
  }

  lemma BelowTransitive(a: Fact, b: Fact, c: Fact)
    requires Below(a, b) && Below(b, c)
    ensures Below(a, c)
  {
    MergeAssociative(a, b, c);
    MergeNorm(a, MergeFact(b, c)); MergeNorm(a, c);
    MergeNorm(MergeFact(a, b), c); MergeNorm(b, c);
  }

  // ------------------------------------------------------------------ merging lists of facts

  type Facts = map<Id, Fact>

  function AddFact(m: Facts, f: Fact): Facts {
    m[f.ident.id := if f.ident.id in m then MergeFact(m[f.ident.id], f) else f]
  }

  /** The facts of a list, merged by ID from left to right. */
  function AddAll(m: Facts, fs: seq<Fact>): Facts {
    if fs == [] then m else AddFact(AddAll(m, fs[..|fs| - 1]), fs[|fs| - 1])
  }

  /** Facts with one ID agree on the fields that the key fixes. */
  ghost predicate Consistent(fs: set<Fact>) {
    forall a, b :: a in fs && b in fs && a.ident.id == b.ident.id ==> a.ident == b.ident
  }

  ghost predicate SameFacts(m: Facts, n: Facts) {
    m.Keys == n.Keys && forall id <- m :: Norm(m[id]) == Norm(n[id])
  }

  /** `f` is the least upper bound of the facts of `fs` with its ID. */
  ghost predicate IsJoin(f: Fact, fs: seq<Fact>) {
    && (exists x <- fs :: x.ident == f.ident)
    && (forall x <- fs :: x.ident == f.ident ==> Below(x, f))
    && (forall u: Fact {:trigger Below(f, u)} ::
          u.ident == f.ident && (forall x <- fs :: x.ident == f.ident ==> Below(x, u)) ==> Below(f, u))
  }

  lemma JoinOne(f: Fact, fs: seq<Fact>, x: Fact)
    requires IsJoin(f, fs) && f.ident == x.ident
    ensures IsJoin(MergeFact(f, x), fs + [x])
  {
    var g := MergeFact(f, x);
    MergeIsLeastUpperBound(f, x, g);
    assert x in fs + [x];
    forall y | y in fs + [x] && y.ident == g.ident
      ensures Below(y, g)
    {
      if y != x { BelowTransitive(y, f, g); }
    }
    forall u: Fact | u.ident == g.ident && (forall y <- fs + [x] :: y.ident == g.ident ==> Below(y, u))
      ensures Below(g, u)
    {
      assert forall y <- fs :: y in fs + [x];
      MergeIsLeastUpperBound(f, x, u);
    }
  }

  lemma JoinFirst(fs: seq<Fact>, x: Fact)
    requires forall y <- fs :: y.ident != x.ident
    ensures IsJoin(x, fs + [x])
  {
    MergeIdempotent(x);
    assert x in fs + [x];
  }

  lemma JoinOther(f: Fact, fs: seq<Fact>, x: Fact)
    requires IsJoin(f, fs) && f.ident != x.ident
    ensures IsJoin(f, fs + [x])
  {
    assert forall y: Fact :: y.ident == f.ident ==> (y in fs <==> y in fs + [x]);
  }

  /** Folding facts into an empty map computes their joins. */
  lemma {:induction false} AddAllJoins(fs: seq<Fact>)
    requires Consistent(Elems(fs))
    ensures forall id :: id in AddAll(map[], fs) <==> exists x <- fs :: x.ident.id == id
    ensures forall id <- AddAll(map[], fs) :: AddAll(map[], fs)[id].ident.id == id && IsJoin(AddAll(map[], fs)[id], fs)
  {
    if fs != [] {
      var init, x := fs[..|fs| - 1], fs[|fs| - 1];
      assert fs == init + [x] && Elems(init) <= Elems(fs);
      AddAllJoins(init);
      var m, n := AddAll(map[], init), AddAll(map[], fs);
      forall id | id in n
        ensures n[id].ident.id == id && IsJoin(n[id], fs)
      {
        AddOneJoins(m, init, x, id);
      }
      assert forall y <- fs :: y in init || y == x;
    }
  }

  lemma AddOneJoins(m: Facts, fs: seq<Fact>, x: Fact, id: Id)
    requires Consistent(Elems(fs + [x]))
    requires forall id :: id in m <==> exists y <- fs :: y.ident.id == id
    requires forall id <- m :: m[id].ident.id == id && IsJoin(m[id], fs)
    requires id in AddFact(m, x)
    ensures AddFact(m, x)[id].ident.id == id && IsJoin(AddFact(m, x)[id], fs + [x])
  {
    assert forall y <- fs :: y in Elems(fs + [x]);
    assert x in Elems(fs + [x]);
    if id != x.ident.id {
      JoinOther(m[id], fs, x);
    } else if id in m {
      JoinOne(m[id], fs, x);
    } else {
      JoinFirst(fs, x);
    }
  }

  /** A merged fact has the identity of one of the facts. */
  lemma JoinedIdentity(fs: seq<Fact>, id: Id) returns (x: Fact)
    requires Consistent(Elems(fs)) && id in AddAll(map[], fs)
    ensures x in fs && x.ident == AddAll(map[], fs)[id].ident
  {
    AddAllJoins(fs);
    x :| x in fs && x.ident == AddAll(map[], fs)[id].ident;
  }

  function Ids(fs: seq<Fact>): set<Id> {
    set i | 0 <= i < |fs| :: fs[i].ident.id
  }

  lemma IdsOfMore(fs: seq<Fact>, x: Fact)
    ensures Ids(fs + [x]) == Ids(fs) + {x.ident.id}
  {
    var more := fs + [x];
    assert more[|fs|] == x;
    assert forall i | 0 <= i < |fs| :: more[i] == fs[i] && more[i].ident.id in Ids(more);
  }

  lemma {:induction false} AddAllKeys(m: Facts, fs: seq<Fact>)
    ensures AddAll(m, fs).Keys == m.Keys + Ids(fs)
  {
    if fs != [] {
      var init, last := fs[..|fs| - 1], fs[|fs| - 1];
      AddAllKeys(m, init);
      IdsOfMore(init, last);
      assert fs == init + [last];
    }
  }

  lemma SameIds(fs: seq<Fact>, gs: seq<Fact>)
    requires Elems(fs) <= Elems(gs)
    ensures Ids(fs) <= Ids(gs)
  {
    forall i | 0 <= i < |fs|
      ensures fs[i].ident.id in Ids(gs)
    {
      assert fs[i] in Elems(gs);
      var j :| 0 <= j < |gs| && gs[j] == fs[i];
    }
  }

  lemma SameIdentity(fs: seq<Fact>, gs: seq<Fact>, id: Id)
    requires Elems(fs) == Elems(gs) && Consistent(Elems(fs))
    requires id in AddAll(map[], fs) && id in AddAll(map[], gs)
    ensures AddAll(map[], fs)[id].ident == AddAll(map[], gs)[id].ident
  {
    var x := JoinedIdentity(fs, id);
    var y := JoinedIdentity(gs, id);
    assert x in Elems(fs) && y in Elems(gs);
    AddAllJoins(fs);
    AddAllJoins(gs);
  }

  lemma JoinIsUnique(f: Fact, g: Fact, fs: seq<Fact>, gs: seq<Fact>)
    requires Elems(fs) == Elems(gs) && f.ident == g.ident
    requires IsJoin(f, fs) && IsJoin(g, gs)
    ensures Norm(f) == Norm(g)
  {
    assert forall x :: x in fs <==> x in Elems(fs);
    assert forall x :: x in gs <==> x in Elems(gs);
    BelowAntisymmetric(f, g);
  }

  /** The merged facts depend only on which facts there are: not on their order, and not on how
      often each one occurs. */
  lemma MergeOrderIrrelevant(fs: seq<Fact>, gs: seq<Fact>)
    requires Elems(fs) == Elems(gs) && Consistent(Elems(fs))
    ensures SameFacts(AddAll(map[], fs), AddAll(map[], gs))
  {
    var m, n := AddAll(map[], fs), AddAll(map[], gs);
    SameIds(fs, gs);
    SameIds(gs, fs);
    AddAllKeys(map[], fs);
    AddAllKeys(map[], gs);
    forall id | id in m
      ensures Norm(m[id]) == Norm(n[id])
    {
      assert id in n.Keys;
      SameIdentity(fs, gs, id);
      AddAllJoins(fs);
      AddAllJoins(gs);
      JoinIsUnique(m[id], n[id], fs, gs);
    }
  }

  predicate UniqueIds(fs: seq<Fact>) {
    forall i, j :: 0 <= i < j < |fs| ==> fs[i].ident.id != fs[j].ident.id
  }

  lemma {:induction false} AddAllConcat(m: Facts, a: seq<Fact>, b: seq<Fact>)
    ensures AddAll(m, a + b) == AddAll(AddAll(m, a), b)
  {
    if b == [] {
      assert a + b == a;
    } else {
      assert (a + b)[..|a + b| - 1] == a + b[..|b| - 1];
      AddAllConcat(m, a, b[..|b| - 1]);
    }
  }


  /** A list that holds exactly the facts of a map, one for each ID. */
  ghost predicate Lists(fs: seq<Fact>, m: Facts) {
    && UniqueIds(fs)
    && Ids(fs) == m.Keys
    && forall i | 0 <= i < |fs| :: m[fs[i].ident.id] == fs[i]
  }

  /** The index of a list: the position of each ID. */
  ghost predicate IsIndex(index: map<Id, int>, fs: seq<Fact>) {
    && (forall i | 0 <= i < |fs| :: fs[i].ident.id in index && index[fs[i].ident.id] == i)
    && (forall id <- index :: 0 <= index[id] < |fs| && fs[index[id]].ident.id == id)
  }

  /** The list, seen through its index, holds the facts of the map. */
  ghost predicate Shows(index: map<Id, int>, fs: seq<Fact>, m: Facts) {
    && IsIndex(index, fs)
    && index.Keys == m.Keys
    && forall id <- index :: m[id] == fs[index[id]]
  }

  method BuildIndex(fs: seq<Fact>) returns (index: map<Id, int>)
    requires UniqueIds(fs)
    ensures IsIndex(index, fs)
  {
    index := map[];
    for i := 0 to |fs|
      invariant forall j | 0 <= j < i :: fs[j].ident.id in index && index[fs[j].ident.id] == j
      invariant forall id <- index :: 0 <= index[id] < i && fs[index[id]].ident.id == id
    {
      index := index[fs[i].ident.id := i];
    }
  }

  lemma AddAllStep(m: Facts, fs: seq<Fact>, n: nat)
    requires n < |fs|
    ensures AddAll(m, fs[..n + 1]) == AddFact(AddAll(m, fs[..n]), fs[n])
  {
    assert fs[..n + 1][..n] == fs[..n];
  }

  lemma ListsIsShows(index: map<Id, int>, fs: seq<Fact>, m: Facts)
    requires IsIndex(index, fs) && UniqueIds(fs)
    ensures Lists(fs, m) <==> Shows(index, fs, m)
  {
    assert forall id <- index :: fs[index[id]].ident.id in Ids(fs);
    assert Ids(fs) == index.Keys;
  }

  lemma ShowsMerge(index: map<Id, int>, fs: seq<Fact>, m: Facts, f: Fact)
    requires Shows(index, fs, m) && f.ident.id in index
    ensures Shows(index, fs[index[f.ident.id] := MergeFact(fs[index[f.ident.id]], f)], AddFact(m, f))
  {
    var fs' := fs[index[f.ident.id] := MergeFact(fs[index[f.ident.id]], f)];
    assert forall i | 0 <= i < |fs'| :: fs'[i].ident == fs[i].ident;
  }

  lemma ShowsAppend(index: map<Id, int>, fs: seq<Fact>, m: Facts, f: Fact)
    requires Shows(index, fs, m) && f.ident.id !in index
    ensures Shows(index[f.ident.id := |fs|], fs + [f], AddFact(m, f))
  {
    var index' := index[f.ident.id := |fs|];
    assert forall i | 0 <= i < |fs| :: (fs + [f])[i] == fs[i];
    assert index'.Keys == m.Keys + {f.ident.id};
  }

  /** Merges the facts of one config group into the facts of the groups before it. */
  method MergeTypes(existing: seq<Fact>, incoming: seq<Fact>, ghost m: Facts) returns (result: seq<Fact>)
    requires Lists(existing, m)
    ensures Lists(result, AddAll(m, incoming))
  {
    var index := BuildIndex(existing);
    result := existing;
    ListsIsShows(index, existing, m);
    for n := 0 to |incoming|
      invariant Shows(index, result, AddAll(m, incoming[..n]))
    {
      var item := incoming[n];
      AddAllStep(m, incoming, n);
      if item.ident.id in index {
        var i := index[item.ident.id];
        ShowsMerge(index, result, AddAll(m, incoming[..n]), item);
        result := result[i := MergeFact(result[i], item)];
      } else {
        ShowsAppend(index, result, AddAll(m, incoming[..n]), item);
        index := index[item.ident.id := |result|];
        result := result + [item];
      }
    }
    assert incoming[..|incoming|] == incoming;
    ListsIsShows(index, result, AddAll(m, incoming));
  }

  function Flatten(groups: seq<seq<Fact>>): seq<Fact> {
    if groups == [] then [] else Flatten(groups[..|groups| - 1]) + groups[|groups| - 1]
  }

  /** Merges the facts of all config groups, as the snapshot builder does. */
  method MergeGroups(groups: seq<seq<Fact>>) returns (result: seq<Fact>)
    ensures Lists(result, AddAll(map[], Flatten(groups)))
  {
    result := [];
    for n := 0 to |groups|
      invariant Lists(result, AddAll(map[], Flatten(groups[..n])))
    {
      assert groups[..n + 1][..n] == groups[..n];
      AddAllConcat(map[], Flatten(groups[..n]), groups[n]);
      result := MergeTypes(result, groups[n], AddAll(map[], Flatten(groups[..n])));
    }
    assert groups[..|groups|] == groups;
  }

  lemma {:induction false} FlattenElems(groups: seq<seq<Fact>>, f: Fact)
    ensures f in Flatten(groups) <==> exists group <- groups :: f in group
  {
    if groups != [] {
      FlattenElems(groups[..|groups| - 1], f);
      assert groups == groups[..|groups| - 1] + [groups[|groups| - 1]];
    }
  }

  /** The merged snapshot does not depend on the order of the config groups. */
  lemma GroupOrderIrrelevant(groups: seq<seq<Fact>>, groups': seq<seq<Fact>>)
    requires Elems(groups) == Elems(groups')
    requires Consistent(Elems(Flatten(groups)))
    ensures SameFacts(AddAll(map[], Flatten(groups)), AddAll(map[], Flatten(groups')))
  {
    forall f
      ensures f in Flatten(groups) <==> f in Flatten(groups')
    {
      FlattenElems(groups, f);
      FlattenElems(groups', f);
      assert forall group :: group in groups <==> group in Elems(groups);
      assert forall group :: group in groups' <==> group in Elems(groups');
    }
    assert Elems(Flatten(groups)) == Elems(Flatten(groups'));
    MergeOrderIrrelevant(Flatten(groups), Flatten(groups'));
  }

  // -------------------------------------------------------------------- facts up to their ends

  lemma SameFactsStep(m: Facts, n: Facts, f: Fact, x: Fact)
    requires SameFacts(m, n)
    requires Norm(x) == if f.ident.id in m then Norm(MergeFact(m[f.ident.id], f)) else Norm(f)
    ensures SameFacts(m[f.ident.id := x], AddFact(n, f))
  {
    var id := f.ident.id;
    if id in m {
      MergeNorm(m[id], f);
      MergeNorm(n[id], f);
    }
  }

  /** A fact of the list is below the merged fact with its ID. */
  lemma MergedIsAbove(m: Facts, fs: seq<Fact>, x: Fact)
    requires Consistent(Elems(fs)) && SameFacts(m, AddAll(map[], fs)) && x in fs
    ensures x.ident.id in m && m[x.ident.id].ident == x.ident && Below(x, m[x.ident.id])
  {
    AddAllJoins(fs);
    var f, joined := m[x.ident.id], AddAll(map[], fs)[x.ident.id];
    var z :| z in fs && z.ident == joined.ident;
    assert z in Elems(fs) && x in Elems(fs);
    assert Below(x, joined);
    MergeNorm(x, joined);
    MergeNorm(x, f);
  }

  /** Merging a fact that differs from an absorbed one only in its display text changes only the
      display text. */
  lemma AbsorbedChangesDisplay(f: Fact, x: Fact, display: string)
    requires Below(x, f)
    ensures Norm(f.(display := Ordering.Min(f.display, display))) == Norm(MergeFact(f, x.(display := display)))
  {
    MergeCommutative(x, f);
    MergeLocationLaws(f.location, x.location, None);
  }
}
