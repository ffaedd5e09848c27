/**
 * Finite maps built from a sequence of items, one key per item, written in
 * item order. Keys and values are given as functions so that facts about a
 * table do not depend on how its keys and values are computed.
 */
module Tables {

  /** No two items of `xs` share a key. */
  ghost predicate InjectiveOn<K, J>(xs: seq<K>, key: K -> J) {
    forall x, y :: x in xs && y in xs && key(x) == key(y) ==> x == y
  }

  /** The keys of the items of `xs`. */
  function Image<K, J>(xs: seq<K>, key: K -> J): set<J>
    decreases |xs|
  {
    if |xs| == 0 then {} else Image(xs[..|xs| - 1], key) + {key(xs[|xs| - 1])}
  }

  /** A key is in the image exactly when some item has it. */
  lemma {:induction false} ImageMembers<K, J>(xs: seq<K>, key: K -> J, k: J)
    decreases |xs|
    ensures k in Image(xs, key) <==> exists x :: x in xs && key(x) == k
  {
    if |xs| > 0 {
      var init := xs[..|xs| - 1];
      assert xs == init + [xs[|xs| - 1]];
      assert forall y :: y in xs <==> y in init || y == xs[|xs| - 1];
      ImageMembers(init, key, k);
    }
  }

  /** Each item's key mapped to the item's value, later items written last. */
  function Tabulate<K, J, V>(xs: seq<K>, key: K -> J, value: K -> V): map<J, V>
    decreases |xs|
  {
    if |xs| == 0 then map[]
    else Tabulate(xs[..|xs| - 1], key, value)[key(xs[|xs| - 1]) := value(xs[|xs| - 1])]
  }

  /** Appending an item to the sequence writes exactly its key. */
  lemma TabulateSnoc<K, J, V>(xs: seq<K>, x: K, key: K -> J, value: K -> V)
    ensures Tabulate(xs + [x], key, value) == Tabulate(xs, key, value)[key(x) := value(x)]
  {
    assert (xs + [x])[..|xs|] == xs;
  }

  /**
   * Without shared keys the write order does not matter: the table holds
   * exactly the items' keys, each with its own item's value.
   */
  lemma {:induction false} TabulateContents<K, J, V>(xs: seq<K>, key: K -> J, value: K -> V)
    requires InjectiveOn(xs, key)
    decreases |xs|
    ensures Tabulate(xs, key, value).Keys == Image(xs, key)
    ensures forall x :: x in xs ==>
      key(x) in Tabulate(xs, key, value) && Tabulate(xs, key, value)[key(x)] == value(x)
  {
    if |xs| > 0 {
      var init := xs[..|xs| - 1];
      var last := xs[|xs| - 1];
      assert xs == init + [last];
      assert forall y :: y in xs <==> y in init || y == last;
      TabulateContents(init, key, value);
      ImageMembers(init, key, key(last));
    }
  }

  /** A table depends only on the values of the items it holds. */
  lemma {:induction false} TabulateCongruent<K, J, V>(xs: seq<K>, key: K -> J, v1: K -> V, v2: K -> V)
    requires forall i :: 0 <= i < |xs| ==> v1(xs[i]) == v2(xs[i])
    decreases |xs|
    ensures Tabulate(xs, key, v1) == Tabulate(xs, key, v2)
  {
    if |xs| > 0 {
      TabulateCongruent(xs[..|xs| - 1], key, v1, v2);
    }
  }

  /** Each item's value, in item order. */
  function Apply<K, V>(xs: seq<K>, value: K -> V): seq<V>
    decreases |xs|
  {
    if |xs| == 0 then [] else Apply(xs[..|xs| - 1], value) + [value(xs[|xs| - 1])]
  }

  /** The `i`th value is the `i`th item's. */
  lemma {:induction false} ApplyIndex<K, V>(xs: seq<K>, value: K -> V)
    decreases |xs|
    ensures |Apply(xs, value)| == |xs|
    ensures forall i :: 0 <= i < |xs| ==> Apply(xs, value)[i] == value(xs[i])
  {
    if |xs| > 0 {
      var init := xs[..|xs| - 1];
      ApplyIndex(init, value);
      assert forall i :: 0 <= i < |init| ==> init[i] == xs[i];
    }
  }
}
