/** `List.remove(Object)`, which the level uses on a square's occupant list
    and the automatic player on its list of possible directions. */
module Lists {

  /** The position of the first occurrence of `x`. */
  function IndexOf<T(==)>(xs: seq<T>, x: T): (i: nat)
    requires x in xs
    ensures i < |xs| && xs[i] == x && x !in xs[..i]
  {
    if xs[0] == x then 0
    else
      var j := IndexOf(xs[1..], x);
      assert xs[..j + 1] == [xs[0]] + xs[1..][..j];
      1 + j
  }

  /** `List.remove(Object)`: the first occurrence of `x` goes and the other
      elements keep their order; a list without `x` is left as it is. */
  function RemoveFirst<T(==)>(xs: seq<T>, x: T): (r: seq<T>)
    ensures x !in xs ==> r == xs
    ensures x in xs ==> r == xs[..IndexOf(xs, x)] + xs[IndexOf(xs, x) + 1..]
    ensures multiset(r) == multiset(xs) - multiset{x}
  {
    if x in xs then
      var i := IndexOf(xs, x);
      assert xs == xs[..i] + [x] + xs[i + 1..];
      xs[..i] + xs[i + 1..]
    else
      xs
  }

  /** Removing one element keeps every other element of the list. */
  lemma RemoveKeeps<T>(xs: seq<T>, x: T, y: T)
    requires y in xs && y != x
    ensures y in RemoveFirst(xs, x)
  {
    assert multiset(xs)[y] > 0;
    assert multiset(RemoveFirst(xs, x))[y] == multiset(xs)[y];
  }

  /** Every element of the shorter list was in the list. */
  lemma RemoveSubset<T>(xs: seq<T>, x: T, y: T)
    requires y in RemoveFirst(xs, x)
    ensures y in xs
  {
    assert multiset(RemoveFirst(xs, x))[y] > 0;
  }

  /** No element occurs twice. */
  predicate Distinct<T(==)>(xs: seq<T>) {
    forall i, j :: 0 <= i < j < |xs| ==> xs[i] != xs[j]
  }

  /** In a list without repeats, removing `x` leaves no `x`. */
  lemma RemoveDistinct<T>(xs: seq<T>, x: T)
    requires Distinct(xs)
    ensures x !in RemoveFirst(xs, x)
  {
    if x in xs {
      var i := IndexOf(xs, x);
      assert forall k :: i < k < |xs| ==> xs[k] != x;
    }
  }
}
