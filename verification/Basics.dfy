/** Options, sets of elements and byte strings, which most modules share. An option is None or Some
    value, as a pointer or a second boolean result is used in Go, and undefined in TypeScript. The set
    of the elements of a list forgets their order and number. A byte string has one char for each
    byte; chunks of a stream are concatenated in order. No lemma here is about LintAI itself: they are
    the small facts about lists and sets that the proofs of the other modules start from. */
module Basics {

  datatype Option<+T> = None | Some(value: T) {
    function GetOr(default: T): T {
      match this
      case Some(v) => v
      case None => default
    }
  }

  /** The set of the elements of a sequence. */
  function Elems<T(==, !new)>(s: seq<T>): (r: set<T>)
    ensures forall x :: x in r <==> x in s
  {
    set x | x in s
  }

  lemma ElemsConcat<T(!new)>(a: seq<T>, b: seq<T>)
    ensures Elems(a + b) == Elems(a) + Elems(b)
  {}

  lemma ElemsOfPrefix<T(!new)>(s: seq<T>, i: nat)
    requires i < |s|
    ensures s[i] in Elems(s) && Elems(s[..i + 1]) == Elems(s[..i]) + {s[i]}
  {
    assert s[..i + 1] == s[..i] + [s[i]];
  }

  function Max(a: nat, b: nat): nat {
    if a < b then b else a
  }

  /** A byte string, one char for each byte. */
  type Bytes = string

  function Concat(chunks: seq<Bytes>): Bytes {
    if chunks == [] then [] else Concat(chunks[..|chunks| - 1]) + chunks[|chunks| - 1]
  }
}
