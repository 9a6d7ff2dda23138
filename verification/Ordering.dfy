/** The order of strings (strings.Compare) and of lists of strings (slices.Compare). Strings are
    compared character by character, and a prefix comes first; lists are compared element by element
    in the same way. Comparing is antisymmetric and transitive, and for strings 0 means equality.
    These orders decide where the sort functions put findings, failures, diagnostics and unknown
    rules, and which of two display texts or locations the merge of type facts keeps. */
module Ordering {

  function CompareChars(a: char, b: char): int {
    if a < b then -1 else if b < a then 1 else 0
  }

  /** Lexicographic comparison; a proper prefix is smaller. */
  function Compare(a: string, b: string): int {
    if a == [] && b == [] then 0
    else if a == [] then -1
    else if b == [] then 1
    else if a[0] != b[0] then CompareChars(a[0], b[0])
    else Compare(a[1..], b[1..])
  }

  predicate Less(a: string, b: string) {
    Compare(a, b) < 0
  }

  function Min(a: string, b: string): string {
    if Less(b, a) then b else a
  }

  /**
   * What three comparisons of a, b and c must satisfy for the order to be transitive: nothing when a
   * and c are on the same side of b, and else the comparison of a and c has the common sign.
   */
  predicate Transitive(ab: int, bc: int, ac: int) {
    || ab < 0 < bc
    || bc < 0 < ab
    || ab == bc == ac == 0
    || (ab <= 0 && bc <= 0 && ac < 0 && ab + bc < 0)
    || (ab >= 0 && bc >= 0 && ac > 0 && ab + bc > 0)
  }

  lemma {:induction false} CompareAntisymmetric(a: string, b: string)
    ensures Compare(a, b) == -Compare(b, a)
  {
    if a != [] && b != [] && a[0] == b[0] {
      CompareAntisymmetric(a[1..], b[1..]);
    }
  }

  lemma {:induction false} CompareIsEquality(a: string, b: string)
    ensures Compare(a, b) == 0 <==> a == b
  {
    if a != [] && b != [] && a[0] == b[0] {
      CompareIsEquality(a[1..], b[1..]);
      assert a == [a[0]] + a[1..] && b == [b[0]] + b[1..];
    }
  }

  lemma {:induction false} CompareTransitive(a: string, b: string, c: string)
    ensures Transitive(Compare(a, b), Compare(b, c), Compare(a, c))
  {
    if a != [] && b != [] && c != [] && a[0] == b[0] == c[0] {
      CompareTransitive(a[1..], b[1..], c[1..]);
    }
  }

  lemma MinLaws(a: string, b: string, c: string)
    ensures Min(a, b) == Min(b, a)
    ensures Min(a, Min(b, c)) == Min(Min(a, b), c)
    ensures Min(a, a) == a
  {
    CompareAntisymmetric(a, b); CompareAntisymmetric(b, c); CompareAntisymmetric(a, c);
    CompareIsEquality(a, b); CompareIsEquality(b, c); CompareIsEquality(a, c);
    CompareTransitive(a, b, c); CompareTransitive(a, c, b); CompareTransitive(b, a, c);
    CompareTransitive(b, c, a); CompareTransitive(c, a, b); CompareTransitive(c, b, a);
    CompareIsEquality(a, a);
  }

  /** Comparison of lists of strings. */
  function CompareLists(a: seq<string>, b: seq<string>): int {
    if a == [] && b == [] then 0
    else if a == [] then -1
    else if b == [] then 1
    else
      var c := Compare(a[0], b[0]);
      if c != 0 then c else CompareLists(a[1..], b[1..])
  }

  lemma {:induction false} CompareListsAntisymmetric(a: seq<string>, b: seq<string>)
    ensures CompareLists(a, b) == -CompareLists(b, a)
  {
    if a != [] && b != [] {
      CompareAntisymmetric(a[0], b[0]);
      CompareListsAntisymmetric(a[1..], b[1..]);
    }
  }

  lemma {:induction false} CompareListsTransitive(a: seq<string>, b: seq<string>, c: seq<string>)
    ensures Transitive(CompareLists(a, b), CompareLists(b, c), CompareLists(a, c))
  {
    if a != [] && b != [] && c != [] {
      CompareTransitive(a[0], b[0], c[0]);
      CompareListsTransitive(a[1..], b[1..], c[1..]);
    }
  }
}
