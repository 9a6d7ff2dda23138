/** Canonical type keys (internal/tsgo/lintaiapi/types.go). */
module TypeKeys {
  // A checker type is a node of a graph that may have cycles. Its canonical key is built by a
  // depth-limited walk that writes a type already on the walk's stack as a back reference, and a
  // position that is too deep as a truncation mark. `KeyOf` is that walk without any cache. The
  // class `Extractor` is the walk with the cache of the program, and its methods are proved to
  // return what `KeyOf` returns for every sequence of calls.

  import opened Basics

  /** The height of the highest key that has structure facts. */
  const MAX_TYPE_KEY_DEPTH: nat := 16

  /** The identity of a checker type. */
  type Type = nat

  datatype Kind =
    | LiteralKind
    | TypeParamKind
    | UnionKind
    | IntersectionKind
    | TupleKind
    | FunctionKind
    | ObjectKind
    | OtherKind
    | KeywordKind(keyword: string)

  datatype Prop = Prop(name: string, t: Type, optional: bool, readonly: bool)

  datatype Signature = Signature(params: seq<Type>, marks: seq<string>, ret: Type)

  datatype IndexInfo = IndexInfo(key: Type, value: Type, readonly: bool)

  /** The classification of one checker type. */
  datatype Shape = Shape(
    kind: Kind,
    named: bool,
    originKind: string,
    origin: string,
    name: string,
    localPos: string,
    args: seq<Type>,
    argMarks: seq<string>,
    readonly: bool,
    members: seq<Type>,
    literal: string,
    paramName: string,
    paramPos: string,
    props: seq<Prop>,
    sig: Signature,
    callSigs: seq<Signature>,
    ctorSigs: seq<Signature>,
    indexInfos: seq<IndexInfo>,
    otherKey: string,
    otherParts: seq<Type>,
    incomplete: set<string>)

  type Graph = Type -> Shape

  // ------------------------------------------------------------------------------- keys

  /** A node of a key without the keys of its parts. Every JSON array that the program builds
      has its part count fixed by this data, so a head and its parts stand for one text. */
  datatype Head =
    | NamedHead(originKind: string, origin: string, name: string, localPos: string)
    | LiteralHead(literal: string)
    | TypeParamHead(originKind: string, origin: string, paramPos: string, paramName: string)
    | UnionHead
    | IntersectionHead
    | TupleHead(readonly: bool, marks: seq<string>)
    | FunctionHead(marks: seq<string>)
    | ObjectHead(props: seq<(string, bool, bool)>, calls: seq<seq<string>>, ctors: seq<seq<string>>, indexes: seq<bool>)
    | OtherHead(otherKey: string)
    | KeywordHead(keyword: string)

  /** A canonical key. A child key stands for its own hash, which is taken to be injective. The
      sorted and deduplicated parts of a union or intersection are a set. */
  datatype Key =
    | Back(distance: nat)
    | Trunc
    | Node(head: Head, parts: seq<Key>)
    | SetNode(head: Head, members: set<Key>)

  datatype KeyResult = KeyResult(key: Key, height: nat, free: bool, reach: Option<set<Type>>)

  /** The marks of a list of types; a missing mark is the empty one. */
  function MarksOf(types: seq<Type>, marks: seq<string>): seq<string> {
    seq(|types|, i requires 0 <= i => if i < |marks| then marks[i] else "")
  }

  function SignatureMarks(sigs: seq<Signature>): seq<seq<string>> {
    seq(|sigs|, i requires 0 <= i < |sigs| => MarksOf(sigs[i].params, sigs[i].marks))
  }

  function HeadOf(s: Shape): Head {
    if s.named then NamedHead(s.originKind, s.origin, s.name, s.localPos) else
    match s.kind
    case LiteralKind => LiteralHead(s.literal)
    case TypeParamKind => TypeParamHead(s.originKind, s.origin, s.paramPos, s.paramName)
    case UnionKind => UnionHead
    case IntersectionKind => IntersectionHead
    case TupleKind => TupleHead(s.readonly, MarksOf(s.args, s.argMarks))
    case FunctionKind => FunctionHead(MarksOf(s.sig.params, s.sig.marks))
    case ObjectKind =>
      ObjectHead(
        seq(|s.props|, i requires 0 <= i < |s.props| => (s.props[i].name, s.props[i].optional, s.props[i].readonly)),
        SignatureMarks(s.callSigs),
        SignatureMarks(s.ctorSigs),
        seq(|s.indexInfos|, i requires 0 <= i < |s.indexInfos| => s.indexInfos[i].readonly))
    case OtherKind => OtherHead(s.otherKey)
    case KeywordKind(keyword) => KeywordHead(keyword)
  }

  function PropTypes(props: seq<Prop>): seq<Type> {
    seq(|props|, i requires 0 <= i < |props| => props[i].t)
  }

  function SignatureTypes(sigs: seq<Signature>): seq<Type> {
    if sigs == [] then [] else sigs[0].params + [sigs[0].ret] + SignatureTypes(sigs[1..])
  }

  function IndexTypes(infos: seq<IndexInfo>): seq<Type> {
    if infos == [] then [] else [infos[0].key, infos[0].value] + IndexTypes(infos[1..])
  }

  /** The types whose keys are parts of the key of a shape, in the order of the walk. */
  function KeyParts(s: Shape): seq<Type> {
    if s.named then s.args else
    match s.kind
    case LiteralKind => []
    case TypeParamKind => []
    case UnionKind => s.members
    case IntersectionKind => s.members
    case TupleKind => s.args
    case FunctionKind => s.sig.params + [s.sig.ret]
    case ObjectKind =>
      PropTypes(s.props) + SignatureTypes(s.callSigs) + SignatureTypes(s.ctorSigs) + IndexTypes(s.indexInfos)
    case OtherKind => s.otherParts
    case KeywordKind(_) => []
  }

  predicate IsSetHead(head: Head) {
    head.UnionHead? || head.IntersectionHead?
  }

  function Assemble(head: Head, parts: seq<Key>): Key {
    if IsSetHead(head) then SetNode(head, Elems(parts)) else Node(head, parts)
  }

  function KeysOf(kids: seq<KeyResult>): seq<Key> {
    seq(|kids|, i requires 0 <= i < |kids| => kids[i].key)
  }

  predicate AllFree(kids: seq<KeyResult>) {
    forall kid <- kids :: kid.free
  }

  function HeightOf(kids: seq<KeyResult>): nat {
    if kids == [] then 1 else Max(HeightOf(kids[..|kids| - 1]), kids[|kids| - 1].height + 1)
  }

  function AddReach(t: Type, reach: Option<set<Type>>, kid: Option<set<Type>>): Option<set<Type>> {
    if kid.None? then reach else Some(reach.GetOr({t}) + kid.value)
  }

  function ReachOf(t: Type, kids: seq<KeyResult>): Option<set<Type>> {
    if kids == [] then None else AddReach(t, ReachOf(t, kids[..|kids| - 1]), kids[|kids| - 1].reach)
  }

  /** The distance of a type from the top of a stack, counted from 1. */
  function Distance(t: Type, stack: seq<Type>): nat
    requires t in stack
  {
    if stack[|stack| - 1] == t then 1 else 1 + Distance(t, stack[..|stack| - 1])
  }

  function Combine(head: Head, t: Type, kids: seq<KeyResult>): KeyResult {
    KeyResult(Assemble(head, KeysOf(kids)), HeightOf(kids), AllFree(kids), ReachOf(t, kids))
  }

  /** The key of a type under a stack, computed without any cache. */
  function KeyOf(g: Graph, t: Type, stack: seq<Type>): KeyResult
    decreases MAX_TYPE_KEY_DEPTH + 1 - |stack|
  {
    if t in stack then KeyResult(Back(Distance(t, stack)), 0, false, None)
    else if |stack| > MAX_TYPE_KEY_DEPTH then KeyResult(Trunc, 0, true, Some({t}))
    else Combine(HeadOf(g(t)), t, KidsOf(g, t, stack))
  }

  function KidsOf(g: Graph, t: Type, stack: seq<Type>): seq<KeyResult>
    requires |stack| <= MAX_TYPE_KEY_DEPTH
    decreases MAX_TYPE_KEY_DEPTH + 1 - |stack|, 0
  {
    var parts := KeyParts(g(t));
    seq(|parts|, i requires 0 <= i < |parts| => KeyOf(g, parts[i], stack + [t]))
  }

  // ----------------------------------------------------------------- what a key result says

  lemma {:induction false} ReachOfKids(t: Type, kids: seq<KeyResult>)
    ensures ReachOf(t, kids).None? <==> forall kid <- kids :: kid.reach.None?
    ensures ReachOf(t, kids).Some? ==> t in ReachOf(t, kids).value
    ensures ReachOf(t, kids).Some? ==>
              forall kid <- kids :: kid.reach.Some? ==> kid.reach.value <= ReachOf(t, kids).value
  {
    if kids != [] {
      var init := kids[..|kids| - 1];
      ReachOfKids(t, init);
      assert kids == init + [kids[|kids| - 1]];
    }
  }

  /** A back reference occurs somewhere in a key. */
  ghost predicate HasBack(k: Key) {
    match k
    case Back(_) => true
    case Trunc => false
    case Node(_, parts) => exists p <- parts :: HasBack(p)
    case SetNode(_, members) => exists p <- members :: HasBack(p)
  }

  /** The truncation mark occurs somewhere in a key. */
  ghost predicate HasTrunc(k: Key) {
    match k
    case Back(_) => false
    case Trunc => true
    case Node(_, parts) => exists p <- parts :: HasTrunc(p)
    case SetNode(_, members) => exists p <- members :: HasTrunc(p)
  }

  /** `free` and `reach` say what they should about the key: `free` that it has no back
      reference, and `reach` that it has a truncation mark. */
  lemma {:induction false} FlagsDescribeKey(g: Graph, t: Type, stack: seq<Type>)
    ensures KeyOf(g, t, stack).free <==> !HasBack(KeyOf(g, t, stack).key)
    ensures KeyOf(g, t, stack).reach.Some? <==> HasTrunc(KeyOf(g, t, stack).key)
    decreases MAX_TYPE_KEY_DEPTH + 1 - |stack|
  {
    if t !in stack && |stack| <= MAX_TYPE_KEY_DEPTH {
      var parts, kids := KeyParts(g(t)), KidsOf(g, t, stack);
      var keys := KeysOf(kids);
      forall i | 0 <= i < |kids|
        ensures kids[i].free <==> !HasBack(keys[i])
        ensures kids[i].reach.Some? <==> HasTrunc(keys[i])
      {
        FlagsDescribeKey(g, parts[i], stack + [t]);
      }
      ReachOfKids(t, kids);
      assert AllFree(kids) <==> !exists p <- keys :: HasBack(p) by {
        if i :| 0 <= i < |kids| && !kids[i].free { assert keys[i] in keys; }
      }
      assert (exists kid <- kids :: kid.reach.Some?) <==> exists p <- keys :: HasTrunc(p) by {
        if i :| 0 <= i < |kids| && kids[i].reach.Some? { assert keys[i] in keys; }
        if i :| 0 <= i < |keys| && HasTrunc(keys[i]) { assert kids[i] in kids; }
      }
    }
  }

  lemma {:induction false} HeightAboveKids(kids: seq<KeyResult>)
    ensures forall kid <- kids :: kid.height < HeightOf(kids)
  {
    if kids != [] {
      HeightAboveKids(kids[..|kids| - 1]);
      assert kids == kids[..|kids| - 1] + [kids[|kids| - 1]];
    }
  }

  /** A key that was cut off is too high for structure facts: at the root (the empty stack) its
      height is above MAX_TYPE_KEY_DEPTH. */
  lemma {:induction false} CutOffKeyIsHigh(g: Graph, t: Type, stack: seq<Type>)
    requires HasTrunc(KeyOf(g, t, stack).key)
    ensures KeyOf(g, t, stack).height + |stack| > MAX_TYPE_KEY_DEPTH
    decreases MAX_TYPE_KEY_DEPTH + 1 - |stack|
  {
    FlagsDescribeKey(g, t, stack);
    if |stack| <= MAX_TYPE_KEY_DEPTH {
      var parts, kids := KeyParts(g(t)), KidsOf(g, t, stack);
      ReachOfKids(t, kids);
      var i :| 0 <= i < |kids| && kids[i].reach.Some?;
      FlagsDescribeKey(g, parts[i], stack + [t]);
      CutOffKeyIsHigh(g, parts[i], stack + [t]);
      HeightAboveKids(kids);
      assert kids[i] in kids;
    }
  }

  // ------------------------------------------------------------------ walks and stacks

  /** Every type of the sequence has its successor among its key parts. */
  predicate IsWalk(g: Graph, w: seq<Type>) {
    forall i :: 0 <= i < |w| - 1 ==> w[i + 1] in KeyParts(g(w[i]))
  }

  /** A stack is a path of the graph that leads to the type being keyed. */
  predicate LeadsTo(g: Graph, stack: seq<Type>, t: Type) {
    IsWalk(g, stack + [t])
  }

  lemma WalkSuffix(g: Graph, w: seq<Type>, i: nat)
    requires IsWalk(g, w) && i <= |w|
    ensures IsWalk(g, w[i..])
  {
    forall j | 0 <= j < |w[i..]| - 1
      ensures w[i..][j + 1] in KeyParts(g(w[i..][j]))
    {
      assert w[i..][j] == w[i + j] && w[i..][j + 1] == w[i + j + 1];
    }
  }

  lemma StackStep(g: Graph, stack: seq<Type>, t: Type, kid: Type)
    requires LeadsTo(g, stack, t) && kid in KeyParts(g(t))
    ensures LeadsTo(g, stack + [t], kid)
  {
    var old', new' := stack + [t], stack + [t] + [kid];
    forall i | 0 <= i < |new'| - 1
      ensures new'[i + 1] in KeyParts(g(new'[i]))
    {
      if i < |stack| { assert new'[i] == old'[i] && new'[i + 1] == old'[i + 1]; }
    }
  }

  ghost predicate IsComplete(r: KeyResult) {
    r.free && r.reach.None?
  }

  /** A complete key is made of complete keys. */
  lemma KidOfWalk(g: Graph, w: seq<Type>, stack: seq<Type>)
    requires |w| > 1 && IsWalk(g, w) && w[0] !in stack && |stack| <= MAX_TYPE_KEY_DEPTH
    ensures IsWalk(g, w[1..])
    ensures IsComplete(KeyOf(g, w[0], stack)) ==> IsComplete(KeyOf(g, w[1], stack + [w[0]]))
  {
    var parts, kids := KeyParts(g(w[0])), KidsOf(g, w[0], stack);
    var i :| 0 <= i < |parts| && parts[i] == w[1];
    ReachOfKids(w[0], kids);
    assert kids[i] in kids && kids[i] == KeyOf(g, w[1], stack + [w[0]]);
    WalkSuffix(g, w, 1);
  }

  /** A key without back reference and without cut describes everything the type reaches, so no
      walk from the type comes back to its stack. */
  lemma {:induction false} CompleteKeyAvoidsStack(g: Graph, w: seq<Type>, stack: seq<Type>)
    requires w != [] && IsWalk(g, w) && w[|w| - 1] in stack
    ensures !IsComplete(KeyOf(g, w[0], stack))
    decreases |w|
  {
    if w[0] !in stack && |stack| <= MAX_TYPE_KEY_DEPTH {
      KidOfWalk(g, w, stack);
      CompleteKeyAvoidsStack(g, w[1..], stack + [w[0]]);
    }
  }

  /** A type with such a key is on no cycle. */
  lemma CompleteKeyHasNoCycle(g: Graph, w: seq<Type>, stack: seq<Type>)
    requires |w| > 1 && IsWalk(g, w) && w[|w| - 1] == w[0]
    ensures !IsComplete(KeyOf(g, w[0], stack))
  {
    if w[0] !in stack && |stack| <= MAX_TYPE_KEY_DEPTH {
      KidOfWalk(g, w, stack);
      CompleteKeyAvoidsStack(g, w[1..], stack + [w[0]]);
    }
  }

  ghost predicate Avoids(r: KeyResult, stack: seq<Type>) {
    r.reach.Some? ==> forall t <- stack :: t !in r.reach.value
  }

  /** The reuse rule of the cache, generalised to the inside of a walk. `before` and `now` are
      two stacks of one length and `w` is what the walk has pushed on both. A key without back
      reference that was built above `before` is also the key above `now`, when `now` is a path
      to the type and holds none of the types that the key reached. */
  lemma {:induction false} ReuseIsSound(g: Graph, t: Type, before: seq<Type>, now: seq<Type>, w: seq<Type>)
    requires |before| == |now|
    requires LeadsTo(g, now + w, t)
    requires KeyOf(g, t, before + w).free
    requires Avoids(KeyOf(g, t, before + w), now)
    ensures KeyOf(g, t, now + w) == KeyOf(g, t, before + w)
    decreases MAX_TYPE_KEY_DEPTH + 1 - |now + w|
  {
    var r := KeyOf(g, t, before + w);
    assert t !in before + w;
    if t in now {
      assert r.reach.None? by {
        if r.reach.Some? && |before + w| <= MAX_TYPE_KEY_DEPTH { ReachOfKids(t, KidsOf(g, t, before + w)); }
      }
      var i :| 0 <= i < |now| && now[i] == t;
      var cycle := (now + w + [t])[i..];
      WalkSuffix(g, now + w + [t], i);
      CompleteKeyHasNoCycle(g, cycle, before + w);
    }
    if |before + w| <= MAX_TYPE_KEY_DEPTH {
      var parts, kids := KeyParts(g(t)), KidsOf(g, t, before + w);
      ReachOfKids(t, kids);
      forall i | 0 <= i < |parts|
        ensures KeyOf(g, parts[i], now + w + [t]) == kids[i]
      {
        assert kids[i] in kids && kids[i] == KeyOf(g, parts[i], before + w + [t]);
        assert before + (w + [t]) == before + w + [t] && now + (w + [t]) == now + w + [t];
        StackStep(g, now + w, t, parts[i]);
        ReuseIsSound(g, parts[i], before, now, w + [t]);
      }
      assert KidsOf(g, t, now + w) == kids;
    }
  }

  const ANY_SHAPE :=
    Shape(KeywordKind("any"), false, "", "", "", "", [], [], false, [], "", "", "", [],
          Signature([], [], 0), [], [], [], "", [], {})

  /** Type 0 is the tuple [1]; every other type is `any`. */
  const TUPLE_OF_ANY: Graph := t => if t == 0 then ANY_SHAPE.(kind := TupleKind, args := [1]) else ANY_SHAPE

  /** The path condition cannot be dropped: [1] is not a path to type 0, and above it the rule of
      the cache would return a key that the walk does not produce. */
  lemma ReuseNeedsPath()
    ensures KeyOf(TUPLE_OF_ANY, 0, [2]).free && Avoids(KeyOf(TUPLE_OF_ANY, 0, [2]), [1])
    ensures KeyOf(TUPLE_OF_ANY, 0, [1]) != KeyOf(TUPLE_OF_ANY, 0, [2])
  {
    var kids := KidsOf(TUPLE_OF_ANY, 0, [2]);
    AnyIsFree([2, 0]);
    assert kids == [KeyOf(TUPLE_OF_ANY, 1, [2] + [0])] && [2] + [0] == [2, 0];
    ReachOfKids(0, kids);
    TupleIsNotFree();
  }

  lemma AnyIsFree(stack: seq<Type>)
    requires 1 !in stack && |stack| <= MAX_TYPE_KEY_DEPTH
    ensures KeyOf(TUPLE_OF_ANY, 1, stack).free && KeyOf(TUPLE_OF_ANY, 1, stack).reach.None?
  {
    assert KidsOf(TUPLE_OF_ANY, 1, stack) == [];
  }

  lemma TupleIsNotFree()
    ensures !KeyOf(TUPLE_OF_ANY, 0, [1]).free
  {
    var kids := KidsOf(TUPLE_OF_ANY, 0, [1]);
    assert kids[0] == KeyOf(TUPLE_OF_ANY, 1, [1] + [0]) && !kids[0].free;
  }

  // --------------------------------------------------------------------------- type IDs

  /** The ID of a type: the hash of its key or, for a truncated type, of its key and its display
      text. */
  datatype Id = KeyId(key: Key) | TruncatedId(key: Key, display: string)

  predicate IsTruncated(g: Graph, t: Type) {
    KeyOf(g, t, []).height > MAX_TYPE_KEY_DEPTH
  }

  function IdOf(g: Graph, display: Type -> string, t: Type): Id {
    var key := KeyOf(g, t, []).key;
    if IsTruncated(g, t) then TruncatedId(key, display(t)) else KeyId(key)
  }

  /** The key in the ID of a type that is not truncated was never cut off. */
  lemma UntruncatedIdIsComplete(g: Graph, display: Type -> string, t: Type)
    ensures IdOf(g, display, t).KeyId? ==> !HasTrunc(IdOf(g, display, t).key)
  {
    if HasTrunc(KeyOf(g, t, []).key) {
      CutOffKeyIsHigh(g, t, []);
    }
  }

  /** An entry of the cache is the key of its type above some stack of its depth. */
  ghost predicate IsEntry(g: Graph, t: Type, depth: nat, r: KeyResult) {
    r.free && exists stack :: |stack| == depth && r == KeyOf(g, t, stack)
  }

  /** The rule by which the walk reuses an entry of the cache. */
  lemma CacheHit(g: Graph, t: Type, stack: seq<Type>, r: KeyResult)
    requires LeadsTo(g, stack, t) && IsEntry(g, t, |stack|, r) && Avoids(r, stack)
    ensures r == KeyOf(g, t, stack)
  {
    var before :| |before| == |stack| && r == KeyOf(g, t, before);
    assert before + [] == before && stack + [] == stack;
    ReuseIsSound(g, t, before, stack, []);
  }

  lemma CombineStep(t: Type, kids: seq<KeyResult>, i: nat)
    requires i < |kids|
    ensures KeysOf(kids[..i + 1]) == KeysOf(kids[..i]) + [kids[i].key]
    ensures AllFree(kids[..i + 1]) == (AllFree(kids[..i]) && kids[i].free)
    ensures HeightOf(kids[..i + 1]) == Max(HeightOf(kids[..i]), kids[i].height + 1)
    ensures ReachOf(t, kids[..i + 1]) == AddReach(t, ReachOf(t, kids[..i]), kids[i].reach)
  {
    assert kids[..i + 1] == kids[..i] + [kids[i]] && kids[..i + 1][..i] == kids[..i];
  }

  method FindOnStack(t: Type, stack: seq<Type>) returns (distance: Option<nat>)
    ensures distance.None? <==> t !in stack
    ensures distance.Some? ==> distance.value == Distance(t, stack)
  {
    for index := |stack| downto 0
      invariant t !in stack[index..]
    {
      if stack[index] == t {
        DistanceAt(t, stack, index);
        return Some(|stack| - index);
      }
    }
    distance := None;
  }

  /** The remembered IDs, and which of their types are truncated. */
  ghost predicate AreIds(g: Graph, display: Type -> string, ids: map<Type, Id>, truncated: set<Type>) {
    && (forall t <- ids :: ids[t] == IdOf(g, display, t))
    && truncated == set t | t in ids && IsTruncated(g, t)
  }

  lemma OneMoreId(g: Graph, display: Type -> string, ids: map<Type, Id>, truncated: set<Type>, t: Type)
    requires AreIds(g, display, ids, truncated) && t !in ids
    ensures AreIds(g, display, ids[t := IdOf(g, display, t)], if IsTruncated(g, t) then truncated + {t} else truncated)
  {
  }

  /** The part of the extractor that builds keys and IDs. */
  class Extractor {
    const g: Graph
    const display: Type -> string
    var typeKeys: map<(Type, nat), KeyResult>
    var typeIDs: map<Type, Id>
    var typeTruncated: set<Type>

    constructor (g: Graph, display: Type -> string)
      ensures Valid() && this.g == g && this.display == display
    {
      this.g := g;
      this.display := display;
      typeKeys, typeIDs, typeTruncated := map[], map[], {};
    }

    ghost predicate Valid()
      reads this
    {
      && (forall at <- typeKeys :: IsEntry(g, at.0, at.1, typeKeys[at]))
      && AreIds(g, display, typeIDs, typeTruncated)
    }

    /** The walk with the cache returns what the walk without it returns. */
    method TypeKey(t: Type, stack: seq<Type>) returns (r: KeyResult)
      requires Valid() && LeadsTo(g, stack, t)
      modifies this`typeKeys
      ensures Valid()
      ensures r == KeyOf(g, t, stack)
      decreases MAX_TYPE_KEY_DEPTH + 1 - |stack|, 1
    {
      var distance := FindOnStack(t, stack);
      if distance.Some? {
        return KeyResult(Back(distance.value), 0, false, None);
      }
      var at := (t, |stack|);
      if at in typeKeys && (typeKeys[at].reach.None? || forall item <- stack :: item !in typeKeys[at].reach.value) {
        CacheHit(g, t, stack, typeKeys[at]);
        return typeKeys[at];
      }
      if |stack| > MAX_TYPE_KEY_DEPTH {
        return KeyResult(Trunc, 0, true, Some({t}));
      }
      r := BuildKey(t, stack);
      if r.free {
        typeKeys := typeKeys[at := r];
      }
    }

    method BuildKey(t: Type, stack: seq<Type>) returns (r: KeyResult)
      requires Valid() && LeadsTo(g, stack, t)
      requires t !in stack && |stack| <= MAX_TYPE_KEY_DEPTH
      modifies this`typeKeys
      ensures Valid()
      ensures r == KeyOf(g, t, stack)
      decreases MAX_TYPE_KEY_DEPTH + 1 - |stack|, 0
    {
      var shape := g(t);
      var parts := KeyParts(shape);
      var keys: seq<Key> := [];
      var free, height, reach := true, 1, None;
      ghost var kids := KidsOf(g, t, stack);
      for i := 0 to |parts|
        invariant Valid()
        invariant keys == KeysOf(kids[..i]) && free == AllFree(kids[..i])
        invariant height == HeightOf(kids[..i]) && reach == ReachOf(t, kids[..i])
      {
        StackStep(g, stack, t, parts[i]);
        var child := TypeKey(parts[i], stack + [t]);
        keys := keys + [child.key];
        free := free && child.free;
        height := Max(height, child.height + 1);
        reach := AddReach(t, reach, child.reach);
        CombineStep(t, kids, i);
      }
      assert kids[..|parts|] == kids;
      r := KeyResult(Assemble(HeadOf(shape), keys), height, free, reach);
    }

    method TypeID(t: Type) returns (id: Id)
      requires Valid()
      modifies this
      ensures Valid() && t in typeIDs
      ensures id == IdOf(g, display, t)
      ensures forall u <- old(typeIDs) :: u in typeIDs
    {
      if t in typeIDs {
        return typeIDs[t];
      }
      var result := TypeKey(t, []);
      OneMoreId(g, display, typeIDs, typeTruncated, t);
      if result.height > MAX_TYPE_KEY_DEPTH {
        typeTruncated := typeTruncated + {t};
        id := TruncatedId(result.key, display(t));
      } else {
        id := KeyId(result.key);
      }
      typeIDs := typeIDs[t := id];
    }

    method CheckTruncated(t: Type) returns (truncated: bool)
      requires Valid()
      modifies this
      ensures Valid()
      ensures truncated == IsTruncated(g, t)
    {
      var _ := TypeID(t);
      truncated := t in typeTruncated;
    }
  }

  lemma {:induction false} DistanceAt(t: Type, stack: seq<Type>, index: nat)
    requires index < |stack| && stack[index] == t && t !in stack[index + 1..]
    ensures t in stack && Distance(t, stack) == |stack| - index
  {
    if index < |stack| - 1 {
      var init := stack[..|stack| - 1];
      assert stack[|stack| - 1] in stack[index + 1..];
      assert init[index + 1..] == stack[index + 1..][..|stack| - index - 2];
      DistanceAt(t, init, index);
    }
  }

  // ------------------------------------------------------------------ independence of names

  function MapTypes(f: Type -> Type, ts: seq<Type>): seq<Type> {
    seq(|ts|, i requires 0 <= i < |ts| => f(ts[i]))
  }

  /** `f` carries the graph `g` into `h`: it is injective and keeps every shape, up to the order
      and repetition of the members of unions and intersections. */
  ghost predicate IsRenaming(g: Graph, h: Graph, f: Type -> Type) {
    && (forall a, b :: f(a) == f(b) ==> a == b)
    && (forall t :: SameShape(f, g(t), h(f(t))))
  }

  ghost predicate SameShape(f: Type -> Type, s: Shape, s': Shape) {
    var parts, parts' := MapTypes(f, KeyParts(s)), KeyParts(s');
    && HeadOf(s) == HeadOf(s')
    && if IsSetHead(HeadOf(s)) then Elems(parts) == Elems(parts') else parts == parts'
  }

  lemma {:induction false} HeightIsBounded(kids: seq<KeyResult>, bound: nat)
    ensures 1 <= HeightOf(kids)
    ensures 1 <= bound && (forall kid <- kids :: kid.height < bound) ==> HeightOf(kids) <= bound
  {
    if kids != [] {
      HeightIsBounded(kids[..|kids| - 1], bound);
    }
  }

  lemma {:induction false} RenamedDistance(f: Type -> Type, t: Type, stack: seq<Type>)
    requires t in stack
    requires forall a, b :: f(a) == f(b) ==> a == b
    ensures f(t) in MapTypes(f, stack) && Distance(f(t), MapTypes(f, stack)) == Distance(t, stack)
  {
    var mapped := MapTypes(f, stack);
    var i :| 0 <= i < |stack| && stack[i] == t;
    assert mapped[i] == f(t);
    if stack[|stack| - 1] != t {
      assert mapped[..|stack| - 1] == MapTypes(f, stack[..|stack| - 1]);
      RenamedDistance(f, t, stack[..|stack| - 1]);
    }
  }

  ghost predicate SameButReach(x: KeyResult, y: KeyResult) {
    x.key == y.key && x.height == y.height && x.free == y.free
  }

  ghost predicate HasTwin(x: KeyResult, b: seq<KeyResult>) {
    exists j :: 0 <= j < |b| && SameButReach(x, b[j])
  }

  /** Every part of the first list is also a part of the second one. */
  ghost predicate Covered(a: seq<KeyResult>, b: seq<KeyResult>) {
    forall i | 0 <= i < |a| :: HasTwin(a[i], b)
  }

  lemma CoveredCombine(a: seq<KeyResult>, b: seq<KeyResult>)
    requires Covered(a, b)
    ensures Elems(KeysOf(a)) <= Elems(KeysOf(b))
    ensures HeightOf(a) <= HeightOf(b)
    ensures AllFree(b) ==> AllFree(a)
  {
    HeightAboveKids(b);
    HeightIsBounded(b, 0);
    forall i | 0 <= i < |a|
      ensures KeysOf(a)[i] in KeysOf(b) && a[i].height < HeightOf(b) && (AllFree(b) ==> a[i].free)
    {
      var j :| 0 <= j < |b| && SameButReach(a[i], b[j]);
      assert KeysOf(b)[j] == KeysOf(a)[i] && b[j] in b;
    }
    HeightIsBounded(a, HeightOf(b));
  }

  /** `parts` and `parts'` correspond under `f`, and so do their keys. */
  ghost predicate Corresponds(f: Type -> Type, parts: seq<Type>, parts': seq<Type>, kids: seq<KeyResult>,
                              kids': seq<KeyResult>) {
    && |kids| == |parts| && |kids'| == |parts'|
    && forall i, j | 0 <= i < |parts| && 0 <= j < |parts'| && parts'[j] == f(parts[i]) ::
         SameButReach(kids[i], kids'[j])
  }

  lemma CorrespondingSets(f: Type -> Type, parts: seq<Type>, parts': seq<Type>, kids: seq<KeyResult>,
                          kids': seq<KeyResult>)
    requires Corresponds(f, parts, parts', kids, kids')
    requires Elems(MapTypes(f, parts)) == Elems(parts')
    ensures Covered(kids, kids') && Covered(kids', kids)
  {
    var mapped := MapTypes(f, parts);
    forall i | 0 <= i < |kids|
      ensures HasTwin(kids[i], kids')
    {
      assert mapped[i] in Elems(mapped);
      var j :| 0 <= j < |parts'| && parts'[j] == mapped[i];
      assert SameButReach(kids[i], kids'[j]);
    }
    forall j | 0 <= j < |kids'|
      ensures HasTwin(kids'[j], kids)
    {
      assert parts'[j] in Elems(parts');
      var i :| 0 <= i < |mapped| && mapped[i] == parts'[j];
      assert SameButReach(kids[i], kids'[j]);
    }
  }

  lemma CorrespondingFolds(f: Type -> Type, parts: seq<Type>, parts': seq<Type>, kids: seq<KeyResult>,
                           kids': seq<KeyResult>)
    requires Elems(MapTypes(f, parts)) == Elems(parts')
    requires Corresponds(f, parts, parts', kids, kids')
    ensures Elems(KeysOf(kids)) == Elems(KeysOf(kids'))
    ensures HeightOf(kids) == HeightOf(kids') && AllFree(kids) == AllFree(kids')
  {
    CorrespondingSets(f, parts, parts', kids, kids');
    CoveredCombine(kids, kids');
    CoveredCombine(kids', kids);
  }

  lemma CorrespondingKidsCombine(f: Type -> Type, head: Head, parts: seq<Type>, parts': seq<Type>, t: Type,
                                 kids: seq<KeyResult>, kids': seq<KeyResult>)
    requires if IsSetHead(head) then Elems(MapTypes(f, parts)) == Elems(parts') else MapTypes(f, parts) == parts'
    requires Corresponds(f, parts, parts', kids, kids')
    ensures SameButReach(Combine(head, t, kids), Combine(head, f(t), kids'))
  {
    CorrespondingFolds(f, parts, parts', kids, kids');
    if !IsSetHead(head) {
      forall i | 0 <= i < |kids| ensures KeysOf(kids)[i] == KeysOf(kids')[i] {
        assert SameButReach(kids[i], kids'[i]);
      }
    }
  }

  /** Keys do not depend on the identity of types or on the order of union members. */
  lemma {:induction false} RenamingKeepsKey(g: Graph, h: Graph, f: Type -> Type, t: Type, stack: seq<Type>)
    requires IsRenaming(g, h, f)
    ensures SameButReach(KeyOf(g, t, stack), KeyOf(h, f(t), MapTypes(f, stack)))
    decreases MAX_TYPE_KEY_DEPTH + 1 - |stack|
  {
    var stack' := MapTypes(f, stack);
    if t in stack {
      RenamedDistance(f, t, stack);
    } else if |stack| <= MAX_TYPE_KEY_DEPTH {
      assert f(t) !in stack' by {
        assert forall i | 0 <= i < |stack| :: stack[i] in stack;
      }
      var parts, parts' := KeyParts(g(t)), KeyParts(h(f(t)));
      var kids, kids' := KidsOf(g, t, stack), KidsOf(h, f(t), stack');
      assert MapTypes(f, stack + [t]) == stack' + [f(t)];
      forall i, j | 0 <= i < |parts| && 0 <= j < |parts'| && parts'[j] == f(parts[i])
        ensures SameButReach(kids[i], kids'[j])
      {
        RenamingKeepsKey(g, h, f, parts[i], stack + [t]);
      }
      CorrespondingKidsCombine(f, HeadOf(g(t)), parts, parts', t, kids, kids');
    }
  }

  /** A renaming that keeps the display texts keeps every ID. */
  lemma RenamingKeepsId(g: Graph, h: Graph, f: Type -> Type, display: Type -> string, display': Type -> string, t: Type)
    requires IsRenaming(g, h, f) && display'(f(t)) == display(t)
    ensures IdOf(h, display', f(t)) == IdOf(g, display, t)
    ensures IsTruncated(h, f(t)) == IsTruncated(g, t)
  {
    RenamingKeepsKey(g, h, f, t, []);
    assert MapTypes(f, []) == [];
  }
}
