/** A JavaScript `Set` is a duplicate-free sequence kept in insertion order: `for ... of`
    visits its members in the order in which they were first added. */
module OrderedSets {

  predicate Distinct<T(==,!new)>(s: seq<T>) {
    forall i, j :: 0 <= i < j < |s| ==> s[i] != s[j]
  }

  /** `set.add(x)`: a new member goes to the end, an existing one keeps its place. */
  function Insert<T(==,!new)>(s: seq<T>, x: T): (r: seq<T>)
    ensures forall y :: y in r <==> y in s || y == x
    ensures Distinct(s) ==> Distinct(r)
    ensures x in s ==> r == s
    ensures |r| <= |s| + 1
  {
    if x in s then s else s + [x]
  }

  /** `set.delete(x)`: the other members keep their relative order. */
  function Erase<T(==,!new)>(s: seq<T>, x: T): (r: seq<T>)
    ensures forall y :: y in r <==> y in s && y != x
    ensures Distinct(s) ==> Distinct(r)
    ensures Distinct(s) && x in s ==> |r| == |s| - 1
    ensures x !in s ==> r == s
  {
    if s == [] then []
    else if s[0] == x then Erase(s[1..], x)
    else
      var rest := Erase(s[1..], x);
      assert forall j :: 0 < j < |[s[0]] + rest| ==> ([s[0]] + rest)[j] in rest;
      [s[0]] + rest
  }

  /** Deleting a member that was just added restores the set, order included. */
  lemma {:induction false} EraseInsert<T(!new)>(s: seq<T>, x: T)
    requires x !in s
    ensures Erase(Insert(s, x), x) == s
  {
    if s != [] {
      assert (s + [x])[0] == s[0] && (s + [x])[1..] == s[1..] + [x];
      EraseInsert(s[1..], x);
    }
  }
}
