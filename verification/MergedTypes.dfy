/** The type facts of all config groups (internal/tsgo/lintaiapi/snapshot.go, BuildSnapshot): each group has its own
    recorder. */
module MergedTypes {
  import opened Basics
  import opened Graphs
  import opened TypeKeys
  import opened TypeFacts
  import opened TypeRecording

  /** What the recorder of one config group leaves: its visits, the facts, and the list of the facts. */
  datatype Recording = Recording(w: World, facts: Facts, log: seq<Visit>, types: seq<Fact>)

  ghost predicate IsRecording(r: Recording) {
    AllWellFormed(r.w) && Records(r.w, r.facts, r.log) && FinishedLog(r.w, r.log) && Lists(r.types, r.facts)
  }

  /** The list of any recorder between two calls is a recording. */
  lemma RecorderLeavesRecording(recorder: Recorder, types: seq<Fact>)
    requires recorder.Valid() && recorder.Finished() && Lists(types, recorder.typeFacts)
    ensures IsRecording(Recording(recorder.w, recorder.typeFacts, recorder.log, types))
  {
    forall v, t | v in recorder.log && t in NextTypes(recorder.w, v.t)
      ensures exists u <- recorder.log :: u.t == t
    {
      assert t in recorder.next(v.t);
    }
  }

  function TypesOf(rs: seq<Recording>): seq<seq<Fact>> {
    seq(|rs|, i requires 0 <= i < |rs| => rs[i].types)
  }

  ghost predicate AreRecordings(rs: seq<Recording>) {
    forall r <- rs :: IsRecording(r)
  }

  lemma VisitOfFact(w: World, log: seq<Visit>, x: Fact) returns (v: Visit)
    requires x in FactsOf(w, log)
    ensures v in log && NewFact(w, v.t, v.display) == x
  {
    var i :| 0 <= i < |FactsOf(w, log)| && FactsOf(w, log)[i] == x;
    v := log[i];
  }

  lemma ListedIsRecorded(types: seq<Fact>, facts: Facts, f: Fact)
    requires Lists(types, facts) && f in types
    ensures f.ident.id in facts && facts[f.ident.id] == f
  {
    var i :| 0 <= i < |types| && types[i] == f;
    assert f.ident.id in Ids(types);
  }

  /** What a recorder visited is on its list. */
  lemma VisitedIsListed(r: Recording, id: Id)
    requires IsRecording(r) && IsVisited(r.w, r.log, id)
    ensures id in Ids(r.types)
  {
    var v :| v in r.log && IdIn(r.w, v.t) == id;
    VisitedIsRecorded(r.w, r.facts, r.log, v);
    assert id in r.facts.Keys;
  }

  /** The identity of a listed fact is that of one of its visits. */
  lemma ListedIdentity(r: Recording, f: Fact) returns (v: Visit)
    requires IsRecording(r) && f in r.types
    ensures v in r.log && NewFact(r.w, v.t, v.display).ident == f.ident
  {
    ListedIsRecorded(r.types, r.facts, f);
    VisitsAreConsistent(r.w, r.log);
    assert Norm(f).ident == Norm(AddAll(map[], FactsOf(r.w, r.log))[f.ident.id]).ident;
    var x := JoinedIdentity(FactsOf(r.w, r.log), f.ident.id);
    v := VisitOfFact(r.w, r.log, x);
  }

  /** The facts of any recorders over any worlds agree on the fields that the key fixes. */
  lemma RecordingsAreConsistent(rs: seq<Recording>)
    requires AreRecordings(rs)
    ensures Consistent(Elems(Flatten(TypesOf(rs))))
  {
    var all := Flatten(TypesOf(rs));
    forall a, b | a in Elems(all) && b in Elems(all) && a.ident.id == b.ident.id
      ensures a.ident == b.ident
    {
      var r := RecordingWith(rs, a);
      var r' := RecordingWith(rs, b);
      OneIdentity(r, r', a, b);
    }
  }

  lemma OneIdentity(r: Recording, r': Recording, a: Fact, b: Fact)
    requires IsRecording(r) && IsRecording(r') && a in r.types && b in r'.types && a.ident.id == b.ident.id
    ensures a.ident == b.ident
  {
    var v := ListedIdentity(r, a);
    var v' := ListedIdentity(r', b);
    IdFixesIdentity(r.w, r'.w, v.t, v'.t, v.display, v'.display);
  }

  lemma RecordingWith(rs: seq<Recording>, f: Fact) returns (r: Recording)
    requires f in Flatten(TypesOf(rs))
    ensures r in rs && f in r.types
  {
    FlattenElems(TypesOf(rs), f);
    var group :| group in TypesOf(rs) && f in group;
    var i :| 0 <= i < |TypesOf(rs)| && TypesOf(rs)[i] == group;
    r := rs[i];
  }

  /** A recording is closed. */
  lemma RecordingIsClosed(r: Recording)
    requires IsRecording(r)
    ensures ClosedFacts(r.types)
  {
    forall f, id: Id | f in r.types && Mentions(f, id) ensures exists g <- r.types :: g.ident.id == id {
      var i :| 0 <= i < |r.types| && r.types[i] == f;
      assert f.ident.id in Ids(r.types);
      RecordedFactsAreClosed(r.w, r.facts, r.log, f.ident.id, id);
      assert id in Ids(r.types);
      var j :| 0 <= j < |r.types| && r.types[j].ident.id == id;
      assert r.types[j] in r.types;
    }
  }

  /** Merging closed lists gives a closed list, also when structures of two groups conflict. */
  lemma MergedFactsAreClosed(groups: seq<seq<Fact>>, result: seq<Fact>)
    requires Lists(result, AddAll(map[], Flatten(groups)))
    requires forall group <- groups :: ClosedFacts(group)
    requires Consistent(Elems(Flatten(groups)))
    ensures ClosedFacts(result)
  {
    var all := Flatten(groups);
    var merged := AddAll(map[], all);
    AddAllJoins(all);
    forall f, id: Id | f in result && Mentions(f, id) ensures exists g <- result :: g.ident.id == id {
      var i :| 0 <= i < |result| && result[i] == f;
      assert f.ident.id in Ids(result);
      AddAllMentions(all, f.ident.id, id);
      var x :| x in all && x.ident.id == f.ident.id && Mentions(x, id);
      FlattenElems(groups, x);
      var group :| group in groups && x in group;
      var y :| y in group && y.ident.id == id;
      FlattenElems(groups, y);
      assert id in merged && id in Ids(result);
      var j :| 0 <= j < |result| && result[j].ident.id == id;
      assert result[j] in result;
    }
  }

  /** What the snapshot merges from its groups: each ID once, and every ID that a fact mentions. */
  lemma MergedRecordingsAreClosed(rs: seq<Recording>, result: seq<Fact>)
    requires AreRecordings(rs) && Lists(result, AddAll(map[], Flatten(TypesOf(rs))))
    ensures UniqueIds(result) && ClosedFacts(result)
  {
    forall group | group in TypesOf(rs) ensures ClosedFacts(group) {
      var i :| 0 <= i < |TypesOf(rs)| && TypesOf(rs)[i] == group;
      RecordingIsClosed(rs[i]);
    }
    RecordingsAreConsistent(rs);
    MergedFactsAreClosed(TypesOf(rs), result);
  }

  /** The merged facts do not depend on the order in which the groups are built. */
  lemma RecordingOrderOfGroupsIrrelevant(rs: seq<Recording>, rs': seq<Recording>)
    requires AreRecordings(rs) && Elems(TypesOf(rs)) == Elems(TypesOf(rs'))
    ensures SameFacts(AddAll(map[], Flatten(TypesOf(rs))), AddAll(map[], Flatten(TypesOf(rs'))))
  {
    RecordingsAreConsistent(rs);
    GroupOrderIrrelevant(TypesOf(rs), TypesOf(rs'));
  }

  /** What keepReachableTypes leaves of the merged facts is closed, with no condition on the groups. */
  lemma KeptOfMergedAreClosed(rs: seq<Recording>, merged: seq<Fact>, functions: seq<FunctionTypes>, reached: set<Id>)
    requires AreRecordings(rs) && Lists(merged, AddAll(map[], Flatten(TypesOf(rs))))
    requires forall id :: id in reached <==> ReachedFrom(NextIds(merged), RootIds(functions), id)
    ensures forall f :: f in Select(merged, reached) <==>
              f in merged && ReachedFrom(NextIds(merged), RootIds(functions), f.ident.id)
    ensures ClosedFacts(Select(merged, reached))
  {
    MergedRecordingsAreClosed(rs, merged);
    KeptFactsAreClosed(merged, functions, reached);
  }
}
