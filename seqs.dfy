/** Sequence helpers shared by the insertion-ordered maps of the model. */
module Seqs {

  /** No element occurs twice. */
  predicate NoDuplicates<T(==)>(xs: seq<T>)
  {
    forall i, j :: 0 <= i < j < |xs| ==> xs[i] != xs[j]
  }

  /** The elements of `xs` in order of first occurrence, each once: the key order of a
      JavaScript `Map` into which `xs` is inserted left to right. */
  function Dedup<T(==)>(xs: seq<T>): (r: seq<T>)
    ensures forall i :: 0 <= i < |r| ==> r[i] in xs
    ensures forall i :: 0 <= i < |xs| ==> xs[i] in r
    ensures NoDuplicates(r)
    ensures |r| <= |xs|
  {
    if xs == [] then []
    else
      var d := Dedup(xs[..|xs| - 1]);
      if xs[|xs| - 1] in xs[..|xs| - 1] then d else d + [xs[|xs| - 1]]
  }

  /** Appending an element already seen leaves the order unchanged; a new one goes last. */
  lemma DedupSnoc<T>(xs: seq<T>, x: T)
    ensures Dedup(xs + [x]) == if x in xs then Dedup(xs) else Dedup(xs) + [x]
  {
    assert (xs + [x])[..|xs|] == xs;
  }

  /** Every element of `Dedup(xs)` stands at its first position in `xs`, so the order of
      `Dedup(xs)` is that of first occurrences. */
  lemma {:induction false} DedupFirstOccurrence<T>(xs: seq<T>, i: nat, j: nat)
    requires i < j < |Dedup(xs)|
    ensures FirstIndex(xs, Dedup(xs)[i]) < FirstIndex(xs, Dedup(xs)[j])
  {
    var init := xs[..|xs| - 1];
    var x := xs[|xs| - 1];
    assert xs == init + [x];
    var d := Dedup(init);
    if x in init || j < |d| {
      DedupFirstOccurrence(init, i, j);
      FirstIndexPrefix(init, x, d[i]);
      FirstIndexPrefix(init, x, d[j]);
    } else {
      FirstIndexPrefix(init, x, d[i]);
      assert Dedup(xs)[j] == x;
      assert Dedup(xs)[i] == d[i] && d[i] in init;
    }
  }

  /** The position of the first occurrence of `x` in `xs` (|xs| if it does not occur). */
  function FirstIndex<T(==)>(xs: seq<T>, x: T): (k: nat)
    ensures k <= |xs|
    ensures k < |xs| <==> x in xs
    ensures k < |xs| ==> xs[k] == x && x !in xs[..k]
  {
    if xs == [] then 0
    else if xs[0] == x then 0
    else
      assert xs == [xs[0]] + xs[1..];
      1 + FirstIndex(xs[1..], x)
  }

  lemma FirstIndexPrefix<T>(xs: seq<T>, y: T, x: T)
    requires x in xs
    ensures FirstIndex(xs + [y], x) == FirstIndex(xs, x)
  {
    var k := FirstIndex(xs, x);
    var k' := FirstIndex(xs + [y], x);
    assert (xs + [y])[k] == x;
    assert (xs + [y])[..k] == xs[..k];
  }
}
