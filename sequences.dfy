/** Sequence operations that specify the batching generator: keep the items a
    predicate accepts, transform each item, and concatenate a list of lists.
    Each is defined recursively from the front, and the lemmas below relate it
    to concatenation, which is what the generator's loop extends one item at a
    time. */
module Sequences {

  /** The items of `s` that `keep` accepts, in their original order. */
  function Filter<T>(s: seq<T>, keep: T -> bool): (r: seq<T>)
    ensures |r| <= |s|
    ensures forall x :: x in r ==> x in s && keep(x)
    ensures forall i :: 0 <= i < |s| && keep(s[i]) ==> s[i] in r
  {
    if s == [] then []
    else if keep(s[0]) then [s[0]] + Filter(s[1..], keep)
    else Filter(s[1..], keep)
  }

  /** `f` applied to every item of `s`, position by position. */
  function Map<T, U>(s: seq<T>, f: T -> U): (r: seq<U>)
    ensures |r| == |s|
    ensures forall i :: 0 <= i < |s| ==> r[i] == f(s[i])
  {
    if s == [] then [] else [f(s[0])] + Map(s[1..], f)
  }

  /** All the lists of `bs`, one after another. */
  function Flatten<U>(bs: seq<seq<U>>): seq<U>
  {
    if bs == [] then [] else bs[0] + Flatten(bs[1..])
  }

  /** Filtering a concatenation filters each part separately, in order. */
  lemma {:induction false} FilterConcat<T>(a: seq<T>, b: seq<T>, keep: T -> bool)
    ensures Filter(a + b, keep) == Filter(a, keep) + Filter(b, keep)
  {
    if a == [] {
      assert a + b == b;
    } else {
      assert (a + b)[1..] == a[1..] + b;
      FilterConcat(a[1..], b, keep);
    }
  }

  /** Extending the input by one item extends the filtered sequence by that
      item exactly when it is accepted. */
  lemma FilterSnoc<T>(a: seq<T>, x: T, keep: T -> bool)
    ensures Filter(a + [x], keep) == Filter(a, keep) + (if keep(x) then [x] else [])
  {
    FilterConcat(a, [x], keep);
    assert [x][1..] == [];
  }

  /** A rejected item contributes nothing, wherever it stands. */
  lemma FilterSkipsRejected<T>(a: seq<T>, x: T, b: seq<T>, keep: T -> bool)
    requires !keep(x)
    ensures Filter(a + [x] + b, keep) == Filter(a + b, keep)
  {
    FilterConcat(a + [x], b, keep);
    FilterSnoc(a, x, keep);
    FilterConcat(a, b, keep);
  }

  /** A predicate that accepts everything keeps the whole sequence. */
  lemma {:induction false} FilterAll<T>(s: seq<T>, keep: T -> bool)
    requires forall x :: keep(x)
    ensures Filter(s, keep) == s
  {
    if s != [] {
      FilterAll(s[1..], keep);
    }
  }

  /** Mapping a concatenation maps each part separately, in order. */
  lemma MapConcat<T, U>(a: seq<T>, b: seq<T>, f: T -> U)
    ensures Map(a + b, f) == Map(a, f) + Map(b, f)
  {
  }

  /** Two transformations that agree on every item of `s` give the same map. */
  lemma MapAgree<T, U>(s: seq<T>, f: T -> U, g: T -> U)
    requires forall x :: x in s ==> f(x) == g(x)
    ensures Map(s, f) == Map(s, g)
  {
  }

  /** Flattening a concatenation of lists flattens each part, in order. */
  lemma {:induction false} FlattenConcat<U>(xs: seq<seq<U>>, bs: seq<seq<U>>)
    ensures Flatten(xs + bs) == Flatten(xs) + Flatten(bs)
  {
    if xs == [] {
      assert xs + bs == bs;
    } else {
      assert (xs + bs)[1..] == xs[1..] + bs;
      FlattenConcat(xs[1..], bs);
    }
  }

  /** Appending one list to a list of lists appends its items to the flattening. */
  lemma FlattenSnoc<U>(bs: seq<seq<U>>, b: seq<U>)
    ensures Flatten(bs + [b]) == Flatten(bs) + b
  {
    FlattenConcat(bs, [b]);
    assert Flatten([b]) == b + Flatten([]);
  }

  /** Reading one more input item extends the kept, mapped prefix by the
      mapped item exactly when the item is accepted. */
  lemma MapFilterStep<T, U>(s: seq<T>, i: nat, keep: T -> bool, f: T -> U)
    requires i < |s|
    ensures Map(Filter(s[..i + 1], keep), f)
         == Map(Filter(s[..i], keep), f) + (if keep(s[i]) then [f(s[i])] else [])
  {
    assert s[..i + 1] == s[..i] + [s[i]];
    FilterSnoc(s[..i], s[i], keep);
    MapConcat(Filter(s[..i], keep), if keep(s[i]) then [s[i]] else [], f);
  }
}
