/** The key-comparison policy an event is instantiated with.

    An event keeps its listeners in an ordered map whose comparator is a
    template argument: `std::less<int>` for a PreEvent (first registered,
    first called) and `std::greater<int>` for a PostEvent (first registered,
    last called).  Iterating the map and stepping an iterator forward are
    modelled by `First` and `Next` over the set of keys currently present.
 */
module Ordering {

  datatype Option<T> = None | Some(value: T)

  /** The comparator: ascending ids (`std::less`) or descending ids (`std::greater`). */
  datatype Order = Ascending | Descending

  /** True when key `a` is visited strictly before key `b` under order `o`. */
  predicate Precedes(o: Order, a: int, b: int) {
    match o
    case Ascending => a < b
    case Descending => a > b
  }

  /** `x` is the key of `s` that an in-order traversal reaches first. */
  predicate IsFirst(o: Order, s: set<int>, x: int) {
    x in s && forall y :: y in s ==> y == x || Precedes(o, x, y)
  }

  /** The keys of `s` that lie strictly after `k` in traversal order. */
  function Beyond(o: Order, s: set<int>, k: int): set<int> {
    set x | x in s && Precedes(o, k, x)
  }

  /** A set of keys that differs from the empty set has an element. */
  lemma Inhabited(s: set<int>)
    requires s != {}
    ensures exists x :: x in s
  {
    if forall x :: x !in s {
      assert false;
    }
  }

  /** Every non-empty finite set of keys has a first element in either order. */
  lemma {:induction false} FirstExists(o: Order, s: set<int>)
    requires s != {}
    ensures exists x :: IsFirst(o, s, x)
    decreases s
  {
    Inhabited(s);
    var y :| y in s;
    if s == {y} {
      assert IsFirst(o, s, y);
    } else {
      var rest := s - {y};
      FirstExists(o, rest);
      var x :| IsFirst(o, rest, x);
      if Precedes(o, x, y) {
        assert IsFirst(o, s, x);
      } else {
        assert Precedes(o, y, x) by { assert x in rest; }
        forall z | z in s
          ensures z == y || Precedes(o, y, z)
        {
          if z != y {
            assert z in rest;
            match o
            case Ascending =>
            case Descending =>
          }
        }
        assert IsFirst(o, s, y);
      }
    }
  }

  /** `begin()` of a map with key set `s`: `None` plays the part of `end()`. */
  function First(o: Order, s: set<int>): (r: Option<int>)
    ensures r.None? <==> s == {}
    ensures r.Some? ==> IsFirst(o, s, r.value)
  {
    if s == {} then None
    else
      FirstExists(o, s);
      var x :| IsFirst(o, s, x);
      Some(x)
  }

  /** `++it` from key `k` in a map whose key set is now `s`: the nearest key
      after `k`, whether or not `k` itself is still present. */
  function Next(o: Order, s: set<int>, k: int): (r: Option<int>)
    ensures r.None? <==> forall y :: y in s ==> !Precedes(o, k, y)
    ensures r.Some? ==> r.value in s && Precedes(o, k, r.value)
    ensures r.Some? ==> forall y :: y in s && Precedes(o, k, y) ==> y == r.value || Precedes(o, r.value, y)
  {
    var r := First(o, Beyond(o, s, k));
    assert r.None? ==> forall y :: y in s ==> y !in Beyond(o, s, k);
    r
  }
}
