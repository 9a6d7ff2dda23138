/** The collection of compiler diagnostics: a location index with collisions, and lists that are sorted when asked
    for. */
module Diagnostics {
  import opened Basics
  import opened Ordering
  import opened DiagnosticOrder
  import opened SortedLists

  datatype LocationKey = LocationKey(path: string, pos: int, end: int, code: int)

  lemma CompareIsOrder()
    ensures IsOrder(CompareDiagnostics)
  {
    forall a, b, c ensures OrderAt(CompareDiagnostics, a, b, c) {
      DiagnosticsAreOrdered(a, b, c);
    }
  }

  /** No two of the diagnostics are equal. */
  ghost predicate AllDifferent(s: seq<Diagnostic>) {
    forall i, j :: 0 <= i < |s| && 0 <= j < |s| && i != j ==> !EqualDiagnostics(s[i], s[j])
  }

  lemma OneMoreDifferent(s: seq<Diagnostic>, d: Diagnostic)
    requires AllDifferent(s) && forall e :: e in s ==> !EqualDiagnostics(e, d)
    ensures AllDifferent(s + [d])
  {
    forall i | 0 <= i < |s| ensures !EqualDiagnostics(s[i], d) && !EqualDiagnostics(d, s[i]) {
      assert s[i] in s;
      EqualIsSymmetric(s[i], d);
    }
  }

  /** The lists of a collection: one for each path key, and one without a file. */
  datatype Lists = Lists(
    byPath: map<string, seq<Diagnostic>>,
    global: seq<Diagnostic>,
    sortedPaths: set<string>,
    globalSorted: bool)
  {
    function Get(key: Option<string>): seq<Diagnostic> {
      match key
      case None => global
      case Some(path) => if path in byPath then byPath[path] else []
    }

    predicate IsMarked(key: Option<string>) {
      match key
      case None => globalSorted
      case Some(path) => path in sortedPaths
    }

    ghost predicate MarkedAreSorted() {
      forall key :: IsMarked(key) ==> IsSorted(Get(key), CompareDiagnostics)
    }

    /** The other lists and their marks are as before. */
    ghost predicate Changes(key: Option<string>, before: Lists) {
      forall k :: k != key ==> Get(k) == before.Get(k) && IsMarked(k) == before.IsMarked(k)
    }

    /** The list of a path is sorted, when there is one, and marked. */
    function SortPath(path: string): Lists {
      this.(byPath := if path in byPath then byPath[path := Sorted(byPath[path], CompareDiagnostics)] else byPath,
            sortedPaths := sortedPaths + {path})
    }

    lemma PathIsSorted(path: string)
      ensures SortPath(path).Get(Some(path)) == Sorted(Get(Some(path)), CompareDiagnostics)
      ensures SortPath(path).IsMarked(Some(path)) && SortPath(path).Changes(Some(path), this)
    {
    }

    lemma StaySorted(key: Option<string>, before: Lists)
      requires before.MarkedAreSorted() && Changes(key, before)
      requires IsMarked(key) ==> IsSorted(Get(key), CompareDiagnostics)
      ensures MarkedAreSorted()
    {}
  }

  /** Of the diagnostics that compare as 0 with x, the first one. */
  function FirstTied(s: seq<Diagnostic>, x: Diagnostic): Option<Diagnostic> {
    var ties := Ties(s, x, CompareDiagnostics);
    if ties == [] then None else Some(ties[0])
  }

  lemma FirstTiedIsTied(s: seq<Diagnostic>, x: Diagnostic)
    ensures FirstTied(s, x).Some? ==> FirstTied(s, x).value in s && CompareDiagnostics(FirstTied(s, x).value, x) == 0
    ensures FirstTied(s, x).Some? <==> exists d :: d in s && CompareDiagnostics(d, x) == 0
    ensures (exists d :: d in s && EqualDiagnostics(d, x)) ==> FirstTied(s, x).Some?
  {
    var ties := Ties(s, x, CompareDiagnostics);
    forall d ensures d in ties <==> d in s && CompareDiagnostics(d, x) == 0 {
      TiesHave(s, x, CompareDiagnostics, d);
    }
    assert ties != [] ==> ties[0] in ties;
    forall d | d in s && EqualDiagnostics(d, x) ensures CompareDiagnostics(d, x) == 0 {
      EqualMeansCompareZero(d, x);
    }
  }

  /**
   * What Lookup returns is equal to its argument if and only if the first diagnostic added that compares as 0 has
   * the codes of the argument. When an equal one was added, that is if and only if it was the first of its ties.
   */
  lemma LookupFindsEqual(s: seq<Diagnostic>, x: Diagnostic, d: Diagnostic)
    requires AllDifferent(s) && d in s && EqualDiagnostics(d, x)
    ensures var first := FirstTied(s, x);
            && first.Some?
            && (EqualDiagnostics(first.value, x) <==> CodesOf(first.value) == CodesOf(x))
            && (EqualDiagnostics(first.value, x) <==> first.value == d)
  {
    FirstTiedIsTied(s, x);
    var first := FirstTied(s, x).value;
    EqualMeansCompareZero(first, x);
    EqualMeansCompareZero(d, x);
    if EqualDiagnostics(first, x) {
      DiagnosticsAreOrdered(x, d, d);
      DiagnosticsAreOrdered(first, x, d);
      EqualMeansCompareZero(first, d);
      var i :| 0 <= i < |s| && s[i] == first;
      var j :| 0 <= j < |s| && s[j] == d;
    }
  }

  /** Lookup finds this one for every argument equal to it. */
  ghost predicate IsFound(s: seq<Diagnostic>, d: Diagnostic) {
    forall x :: EqualDiagnostics(d, x) ==> FirstTied(s, x) == Some(d)
  }

  /** Lookup finds every diagnostic that was added if and only if no two of them compare as 0. */
  lemma LookupFindsAll(s: seq<Diagnostic>)
    requires AllDifferent(s)
    ensures (forall d <- s :: IsFound(s, d)) <==> NoTies(s, CompareDiagnostics)
  {
    if NoTies(s, CompareDiagnostics) {
      CompareIsOrder();
      forall d, x | d in s && EqualDiagnostics(d, x) ensures FirstTied(s, x) == Some(d) {
        EqualMeansCompareZero(d, x);
        OnlyTie(s, x, CompareDiagnostics, d);
      }
    } else {
      var i, j :| 0 <= i < j < |s| && CompareDiagnostics(s[i], s[j]) == 0;
      TiedIsMissed(s, i, j);
      assert s[j] in s;
    }
  }

  /** The later of two that compare as 0 is not found: the first of them all is returned. */
  lemma TiedIsMissed(s: seq<Diagnostic>, i: nat, j: nat)
    requires AllDifferent(s) && i < j < |s| && CompareDiagnostics(s[i], s[j]) == 0
    ensures !IsFound(s, s[j])
  {
    var k := FirstZero(s, s[j], CompareDiagnostics, i);
    FirstTie(s, s[j], CompareDiagnostics, k);
    assert k != j && !EqualDiagnostics(s[k], s[j]);
    CompareIsReflexive(s[j]);
    EqualMeansCompareZero(s[j], s[j]);
  }

  /** A diagnostic that was added, and for which Lookup returns another one that was added before. */
  lemma LookupCanMissEqual()
    ensures var a, b := Plain(1, [Plain(2, [])]), Plain(1, [Plain(3, [])]);
            AllDifferent([a, b]) && FirstTied([a, b], b) == Some(a) && !EqualDiagnostics(a, b)
  {
    ChainCodesAreNotCompared();
    FirstOfTwo(Plain(1, [Plain(2, [])]), Plain(1, [Plain(3, [])]));
  }

  lemma FirstOfTwo(a: Diagnostic, b: Diagnostic)
    requires CompareDiagnostics(a, b) == 0 && !EqualDiagnostics(a, b)
    ensures AllDifferent([a, b]) && FirstTied([a, b], b) == Some(a)
  {
    EqualIsSymmetric(a, b);
    FirstTie([a, b], b, CompareDiagnostics, 0);
  }

  class DiagnosticsCollection {
    /** tspath's key of a file name: a function of the name, so equal names have equal keys. */
    const pathKey: string -> string

    var count: nat
    var fileDiagnostics: map<string, seq<Diagnostic>>
    var fileDiagnosticsSorted: set<string>
    var nonFileDiagnostics: seq<Diagnostic>
    var nonFileDiagnosticsSorted: bool
    var diagnosticIndex: map<LocationKey, Diagnostic>
    var diagnosticCollisions: map<LocationKey, seq<Diagnostic>>
    /** What was added and not already there, in order. */
    ghost var added: seq<Diagnostic>

    constructor (pathKey: string -> string)
      ensures Valid() && added == [] && this.pathKey == pathKey
    {
      this.pathKey := pathKey;
      count, added := 0, [];
      fileDiagnostics, fileDiagnosticsSorted := map[], {};
      nonFileDiagnostics, nonFileDiagnosticsSorted := [], false;
      diagnosticIndex, diagnosticCollisions := map[], map[];
      new;
      NoListsYet(AllLists());
    }

    function KeyOf(d: Diagnostic): LocationKey {
      LocationKey(if d.file.Some? then pathKey(d.file.value) else "", d.pos, d.end, d.code)
    }

    /** The list of a diagnostic: that of its file's path key, or the one without a file. */
    function ListKey(d: Diagnostic): Option<string> {
      if d.file.Some? then Some(pathKey(d.file.value)) else None
    }

    function AllLists(): Lists
      reads this`fileDiagnostics, this`nonFileDiagnostics, this`fileDiagnosticsSorted, this`nonFileDiagnosticsSorted
    {
      Lists(fileDiagnostics, nonFileDiagnostics, fileDiagnosticsSorted, nonFileDiagnosticsSorted)
    }

    function Collisions(key: LocationKey): seq<Diagnostic>
      reads this`diagnosticCollisions
    {
      if key in diagnosticCollisions then diagnosticCollisions[key] else []
    }

    /** What the index knows under a key. */
    function Indexed(key: LocationKey): seq<Diagnostic>
      reads this`diagnosticIndex, this`diagnosticCollisions
    {
      if key in diagnosticIndex then [diagnosticIndex[key]] + Collisions(key) else []
    }

    /** Each list holds exactly the diagnostics that belong in it. */
    ghost predicate Hold(lists: Lists, s: seq<Diagnostic>) {
      forall key, d :: multiset(lists.Get(key))[d] == if ListKey(d) == key then multiset(s)[d] else 0
    }

    /** Each list has the diagnostics that compare as 0 with x in the order in which they were added. */
    ghost predicate KeepTies(lists: Lists, s: seq<Diagnostic>) {
      forall x {:trigger TiesIn(lists, x)} :: TiesIn(lists, x) == Ties(s, x, CompareDiagnostics)
    }

    /** The diagnostics that compare as 0 with x, in its list. */
    function TiesIn(lists: Lists, x: Diagnostic): seq<Diagnostic> {
      Ties(lists.Get(ListKey(x)), x, CompareDiagnostics)
    }

    /** The lists of these diagnostics. */
    ghost predicate AreLists(lists: Lists, s: seq<Diagnostic>) {
      Hold(lists, s) && KeepTies(lists, s) && lists.MarkedAreSorted()
    }

    lemma NoListsYet(lists: Lists)
      requires lists == Lists(map[], [], {}, false)
      ensures AreLists(lists, [])
    {
    }

    lemma OneMoreInLists(before: Lists, after: Lists, s: seq<Diagnostic>, d: Diagnostic)
      requires AreLists(before, s) && after.Changes(ListKey(d), before)
      requires after.Get(ListKey(d)) == before.Get(ListKey(d)) + [d] && !after.IsMarked(ListKey(d))
      ensures AreLists(after, s + [d])
    {
      HoldOneMore(before, after, s, d);
      KeepTiesOneMore(before, after, s, d);
      after.StaySorted(ListKey(d), before);
    }

    ghost predicate IndexHolds(s: seq<Diagnostic>)
      reads this`diagnosticIndex, this`diagnosticCollisions
    {
      && (forall key :: key !in diagnosticIndex ==> key !in diagnosticCollisions)
      && (forall key, d :: d in Indexed(key) <==> d in s && KeyOf(d) == key)
    }

    ghost predicate Valid()
      reads this
    {
      && count == |added|
      && AllDifferent(added)
      && IndexHolds(added)
      && AreLists(AllLists(), added)
    }

    lemma EqualHaveOneKey(a: Diagnostic, b: Diagnostic)
      requires EqualDiagnostics(a, b)
      ensures KeyOf(a) == KeyOf(b) && ListKey(a) == ListKey(b)
    {}

    /** The diagnostic already there that is equal to this one. */
    method FindEqual(diagnostic: Diagnostic) returns (existing: Option<Diagnostic>)
      requires Valid()
      ensures existing.Some? ==> existing.value in added && EqualDiagnostics(existing.value, diagnostic)
      ensures existing.None? ==> forall d :: d in added ==> !EqualDiagnostics(d, diagnostic)
    {
      var key := KeyOf(diagnostic);
      if key in diagnosticIndex {
        var first := diagnosticIndex[key];
        assert Indexed(key)[0] == first;
        if EqualDiagnostics(first, diagnostic) {
          return Some(first);
        }
        var collisions := Collisions(key);
        for n := 0 to |collisions|
          invariant forall k :: 0 <= k < n ==> !EqualDiagnostics(collisions[k], diagnostic)
        {
          if EqualDiagnostics(collisions[n], diagnostic) {
            assert Indexed(key)[n + 1] == collisions[n];
            return Some(collisions[n]);
          }
        }
      }
      forall d | d in added ensures !EqualDiagnostics(d, diagnostic) {
        if KeyOf(d) == key {
          assert d in Indexed(key);
        } else if EqualDiagnostics(d, diagnostic) {
          EqualHaveOneKey(d, diagnostic);
          assert false;
        }
      }
      return None;
    }

    method AddToIndex(diagnostic: Diagnostic)
      requires IndexHolds(added)
      modifies this`diagnosticIndex, this`diagnosticCollisions
      ensures IndexHolds(added + [diagnostic])
    {
      var key := KeyOf(diagnostic);
      if key !in diagnosticIndex {
        diagnosticIndex := diagnosticIndex[key := diagnostic];
      } else {
        diagnosticCollisions := diagnosticCollisions[key := Collisions(key) + [diagnostic]];
      }
      assert Indexed(key) == old(Indexed(key)) + [diagnostic];
      forall k, d: Diagnostic ensures d in Indexed(k) <==> d in added + [diagnostic] && KeyOf(d) == k {
        assert k != key ==> Indexed(k) == old(Indexed(k));
        assert d in old(Indexed(k)) <==> d in added && KeyOf(d) == k;
      }
    }

    method AddToList(diagnostic: Diagnostic)
      modifies this`fileDiagnostics, this`fileDiagnosticsSorted, this`nonFileDiagnostics, this`nonFileDiagnosticsSorted
      ensures var key := ListKey(diagnostic);
              && AllLists().Get(key) == old(AllLists()).Get(key) + [diagnostic]
              && !AllLists().IsMarked(key)
              && AllLists().Changes(key, old(AllLists()))
    {
      if diagnostic.file.Some? {
        var path := pathKey(diagnostic.file.value);
        fileDiagnostics := fileDiagnostics[path := AllLists().Get(Some(path)) + [diagnostic]];
        fileDiagnosticsSorted := fileDiagnosticsSorted - {path};
      } else {
        nonFileDiagnostics := nonFileDiagnostics + [diagnostic];
        nonFileDiagnosticsSorted := false;
      }
    }

    lemma HoldOneMore(before: Lists, after: Lists, s: seq<Diagnostic>, diagnostic: Diagnostic)
      requires Hold(before, s) && after.Changes(ListKey(diagnostic), before)
      requires after.Get(ListKey(diagnostic)) == before.Get(ListKey(diagnostic)) + [diagnostic]
      ensures Hold(after, s + [diagnostic])
    {
      var key := ListKey(diagnostic);
      assert multiset(s + [diagnostic]) == multiset(s) + multiset{diagnostic};
      assert multiset(after.Get(key)) == multiset(before.Get(key)) + multiset{diagnostic};
      forall k, d ensures multiset(after.Get(k))[d] == if ListKey(d) == k then multiset(s + [diagnostic])[d] else 0 {
        ghost var was := multiset(before.Get(k))[d];
        assert was == if ListKey(d) == k then multiset(s)[d] else 0;
        if k != key {
          assert after.Get(k) == before.Get(k);
        }
      }
    }

    lemma HoldAt(lists: Lists, s: seq<Diagnostic>, key: Option<string>, d: Diagnostic)
      requires Hold(lists, s)
      ensures multiset(lists.Get(key))[d] == if ListKey(d) == key then multiset(s)[d] else 0
    {}

    lemma HoldSame(before: Lists, after: Lists, s: seq<Diagnostic>, key: Option<string>)
      requires Hold(before, s) && after.Changes(key, before)
      requires multiset(after.Get(key)) == multiset(before.Get(key))
      ensures Hold(after, s)
    {
      forall k, d ensures multiset(after.Get(k))[d] == if ListKey(d) == k then multiset(s)[d] else 0 {
        HoldAt(before, s, k, d);
        assert multiset(after.Get(k)) == multiset(before.Get(k));
      }
    }

    lemma TiesHaveOneList(d: Diagnostic, x: Diagnostic)
      requires CompareDiagnostics(d, x) == 0
      ensures ListKey(d) == ListKey(x)
    {
      CompareIsEquality(d.Path(), x.Path());
    }

    lemma KeepTiesOneMore(before: Lists, after: Lists, s: seq<Diagnostic>, d: Diagnostic)
      requires KeepTies(before, s) && after.Changes(ListKey(d), before)
      requires after.Get(ListKey(d)) == before.Get(ListKey(d)) + [d]
      ensures KeepTies(after, s + [d])
    {
      forall x ensures TiesIn(after, x) == Ties(s + [d], x, CompareDiagnostics) {
        assert TiesIn(before, x) == Ties(s, x, CompareDiagnostics);
        TiesConcat(s, [d], x, CompareDiagnostics);
        TiesConcat(before.Get(ListKey(d)), [d], x, CompareDiagnostics);
        if ListKey(x) != ListKey(d) {
          if CompareDiagnostics(d, x) == 0 { TiesHaveOneList(d, x); }
          assert Ties([d], x, CompareDiagnostics) == [];
        }
      }
    }

    lemma KeepTiesSorted(before: Lists, after: Lists, s: seq<Diagnostic>, key: Option<string>)
      requires KeepTies(before, s) && after.Changes(key, before)
      requires after.Get(key) == before.Get(key) || after.Get(key) == Sorted(before.Get(key), CompareDiagnostics)
      ensures KeepTies(after, s)
    {
      CompareIsOrder();
      forall x ensures TiesIn(after, x) == Ties(s, x, CompareDiagnostics) {
        assert TiesIn(before, x) == Ties(s, x, CompareDiagnostics);
        SortIsStable(before.Get(ListKey(x)), x, CompareDiagnostics);
      }
    }

    /** Adds the diagnostic unless an equal one is there, and returns the one that is there afterwards. */
    method Add(diagnostic: Diagnostic) returns (result: Diagnostic)
      requires Valid()
      modifies this
      ensures Valid()
      ensures result in added && EqualDiagnostics(result, diagnostic)
      ensures added == if exists d :: d in old(added) && EqualDiagnostics(d, diagnostic) then old(added)
                       else old(added) + [diagnostic]
    {
      var existing := FindEqual(diagnostic);
      if existing.Some? {
        return existing.value;
      }
      Insert(diagnostic);
      CompareIsReflexive(diagnostic);
      EqualMeansCompareZero(diagnostic, diagnostic);
      return diagnostic;
    }

    method Insert(diagnostic: Diagnostic)
      requires Valid() && forall d :: d in added ==> !EqualDiagnostics(d, diagnostic)
      modifies this
      ensures Valid() && added == old(added) + [diagnostic]
    {
      ghost var before := AllLists();
      AddToIndex(diagnostic);
      count := count + 1;
      AddToList(diagnostic);
      OneMoreInLists(before, AllLists(), added, diagnostic);
      OneMoreDifferent(added, diagnostic);
      added := added + [diagnostic];
    }

    /** Sorts the list under a key in place, unless it is marked as sorted. */
    method SortList(key: Option<string>)
      modifies this`fileDiagnostics, this`fileDiagnosticsSorted, this`nonFileDiagnostics, this`nonFileDiagnosticsSorted
      ensures var before, after := old(AllLists()), AllLists();
              && after.Get(key) ==
                 (if before.IsMarked(key) then before.Get(key) else Sorted(before.Get(key), CompareDiagnostics))
              && after.IsMarked(key)
              && after.Changes(key, before)
    {
      ghost var before := AllLists();
      if key.None? {
        if !nonFileDiagnosticsSorted {
          nonFileDiagnostics := Sorted(nonFileDiagnostics, CompareDiagnostics);
          nonFileDiagnosticsSorted := true;
        }
      } else if key.value !in fileDiagnosticsSorted {
        SortFile(key.value);
        before.PathIsSorted(key.value);
      }
    }

    method SortFile(path: string)
      modifies this`fileDiagnostics, this`fileDiagnosticsSorted
      ensures AllLists() == old(AllLists()).SortPath(path)
    {
      if path in fileDiagnostics {
        fileDiagnostics := fileDiagnostics[path := Sorted(fileDiagnostics[path], CompareDiagnostics)];
      }
      fileDiagnosticsSorted := fileDiagnosticsSorted + {path};
    }

    /** The sorted list under a key. */
    method SortedList(key: Option<string>) returns (diagnostics: seq<Diagnostic>)
      requires Valid()
      modifies this`fileDiagnostics, this`fileDiagnosticsSorted, this`nonFileDiagnostics, this`nonFileDiagnosticsSorted
      ensures Valid() && AllLists().IsMarked(key)
      ensures diagnostics == AllLists().Get(key) && IsSorted(diagnostics, CompareDiagnostics)
      ensures forall d :: multiset(diagnostics)[d] == if ListKey(d) == key then multiset(added)[d] else 0
    {
      ghost var before := AllLists();
      SortList(key);
      SortingKeepsAll(before, AllLists(), added, key);
      KeepTiesSorted(before, AllLists(), added, key);
      diagnostics := AllLists().Get(key);
    }

    lemma SortingKeepsAll(before: Lists, after: Lists, s: seq<Diagnostic>, key: Option<string>)
      requires Hold(before, s) && before.MarkedAreSorted() && after.Changes(key, before)
      requires after.Get(key) ==
               if before.IsMarked(key) then before.Get(key) else Sorted(before.Get(key), CompareDiagnostics)
      ensures Hold(after, s) && after.MarkedAreSorted() && IsSorted(after.Get(key), CompareDiagnostics)
      ensures forall d :: multiset(after.Get(key))[d] == if ListKey(d) == key then multiset(s)[d] else 0
    {
      HoldSame(before, after, s, key);
      CompareIsOrder();
      SortedIsSorted(before.Get(key), CompareDiagnostics);
      after.StaySorted(key, before);
      forall d ensures multiset(after.Get(key))[d] == if ListKey(d) == key then multiset(s)[d] else 0 {
        HoldAt(after, s, key, d);
      }
    }

    method GetGlobalDiagnostics() returns (diagnostics: seq<Diagnostic>)
      requires Valid()
      modifies this`fileDiagnostics, this`fileDiagnosticsSorted, this`nonFileDiagnostics, this`nonFileDiagnosticsSorted
      ensures Valid() && IsSorted(diagnostics, CompareDiagnostics)
      ensures forall d :: multiset(diagnostics)[d] == if d.file.None? then multiset(added)[d] else 0
    {
      diagnostics := SortedList(None);
    }

    method GetDiagnosticsForFile(file: FileName) returns (diagnostics: seq<Diagnostic>)
      requires Valid()
      modifies this`fileDiagnostics, this`fileDiagnosticsSorted, this`nonFileDiagnostics, this`nonFileDiagnosticsSorted
      ensures Valid() && IsSorted(diagnostics, CompareDiagnostics)
      ensures forall d :: multiset(diagnostics)[d] ==
                if d.file.Some? && pathKey(d.file.value) == pathKey(file) then multiset(added)[d] else 0
    {
      diagnostics := SortedList(Some(pathKey(file)));
    }

    /**
     * Of the diagnostics there that compare as 0, the one that was added first. So there is a result for every
     * diagnostic equal to an added one, and the result is equal exactly when its codes are those of the argument.
     */
    method Lookup(diagnostic: Diagnostic) returns (result: Option<Diagnostic>)
      requires Valid()
      modifies this`fileDiagnostics, this`fileDiagnosticsSorted, this`nonFileDiagnostics, this`nonFileDiagnosticsSorted
      ensures Valid()
      ensures result == FirstTied(added, diagnostic)
      ensures result.Some? <==> exists d :: d in added && CompareDiagnostics(d, diagnostic) == 0
      ensures (exists d :: d in added && EqualDiagnostics(d, diagnostic)) ==> result.Some?
    {
      var diagnostics := SortedList(ListKey(diagnostic));
      CompareIsOrder();
      var i, found := BinarySearch(diagnostics, diagnostic, CompareDiagnostics);
      result := if found then Some(diagnostics[i]) else None;
      assert TiesIn(AllLists(), diagnostic) == Ties(added, diagnostic, CompareDiagnostics);
      FirstTie(diagnostics, diagnostic, CompareDiagnostics, if found then i else |diagnostics|);
      FirstTiedIsTied(added, diagnostic);
    }

    /** All diagnostics; the lists of the files come in an arbitrary order before the sort. */
    method GetDiagnostics() returns (diagnostics: seq<Diagnostic>)
      requires Valid()
      ensures IsSorted(diagnostics, CompareDiagnostics) && multiset(diagnostics) == multiset(added)
      ensures |diagnostics| == count
    {
      diagnostics := Concatenated();
      CompareIsOrder();
      SortedIsSorted(diagnostics, CompareDiagnostics);
      diagnostics := Sorted(diagnostics, CompareDiagnostics);
      assert |diagnostics| == |multiset(diagnostics)| == |multiset(added)|;
    }

    method Concatenated() returns (diagnostics: seq<Diagnostic>)
      requires Hold(AllLists(), added)
      ensures multiset(diagnostics) == multiset(added)
    {
      diagnostics := nonFileDiagnostics;
      var left := fileDiagnostics.Keys;
      ghost var done: set<string> := {};
      forall d ensures multiset(diagnostics)[d] == if IsOf(d, done) then multiset(added)[d] else 0 {
        assert multiset(AllLists().Get(None))[d] == if ListKey(d) == None then multiset(added)[d] else 0;
      }
      while left != {}
        invariant left <= fileDiagnostics.Keys && done == fileDiagnostics.Keys - left
        invariant AreOf(diagnostics, done)
        decreases |left|
      {
        var path :| path in left;
        OneMorePath(diagnostics, done, path);
        left, done := left - {path}, done + {path};
        diagnostics := diagnostics + fileDiagnostics[path];
      }
      forall d: Diagnostic ensures multiset(diagnostics)[d] == multiset(added)[d] {
        assert multiset(AllLists().Get(ListKey(d)))[d] == multiset(added)[d];
      }
    }

    predicate IsOf(d: Diagnostic, paths: set<string>) {
      d.file.None? || pathKey(d.file.value) in paths
    }

    /** All added diagnostics without a file or with a file of these paths. */
    ghost predicate AreOf(diagnostics: seq<Diagnostic>, paths: set<string>)
      reads this`added
    {
      forall d :: multiset(diagnostics)[d] == if IsOf(d, paths) then multiset(added)[d] else 0
    }

    lemma OneMorePath(diagnostics: seq<Diagnostic>, paths: set<string>, path: string)
      requires Hold(AllLists(), added) && AreOf(diagnostics, paths) && path in fileDiagnostics && path !in paths
      ensures AreOf(diagnostics + fileDiagnostics[path], paths + {path})
    {
      forall d ensures multiset(diagnostics + fileDiagnostics[path])[d] ==
                       if IsOf(d, paths + {path}) then multiset(added)[d] else 0
      {
        assert multiset(AllLists().Get(Some(path)))[d] == if ListKey(d) == Some(path) then multiset(added)[d] else 0;
      }
    }
  }
}
