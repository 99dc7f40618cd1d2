/** Small shared vocabulary: optional values, results, and duplicate-free lists. */
module Common {

  datatype Option<+T> = None | Some(value: T)

  datatype Result<+T, +E> = Ok(value: T) | Err(error: E)

  ghost predicate NoDup<T>(s: seq<T>) {
    forall i, j :: 0 <= i < j < |s| ==> s[i] != s[j]
  }

  /** The distinct elements of `xs`, each kept where it first occurs. */
  function Dedupe<T(==)>(xs: seq<T>): (r: seq<T>) {
    if xs == [] then []
    else
      var init := Dedupe(xs[..|xs| - 1]);
      if xs[|xs| - 1] in init then init else init + [xs[|xs| - 1]]
  }

  /** The position at which `x` first occurs in `xs`. */
  function FirstIndex<T(==)>(xs: seq<T>, x: T): (i: nat)
    requires x in xs
    ensures i < |xs| && xs[i] == x && x !in xs[..i]
  {
    if xs[0] == x then 0 else 1 + FirstIndex(xs[1..], x)
  }

  /** De-duplication keeps exactly the elements of the list, once each. */
  lemma {:induction false} DedupeIsDistinct<T(!new)>(xs: seq<T>)
    ensures NoDup(Dedupe(xs))
    ensures forall x :: x in Dedupe(xs) <==> x in xs
    ensures |Dedupe(xs)| <= |xs|
  {
    if xs != [] {
      DedupeIsDistinct(xs[..|xs| - 1]);
      assert xs == xs[..|xs| - 1] + [xs[|xs| - 1]];
    }
  }

  lemma Regroup<T>(a: seq<T>, b: seq<T>, c: seq<T>)
    ensures a + (b + c) == a + b + c
  {
  }

  /** Appending all but the last and then the last is appending the whole. */
  lemma AppendInTwo<T>(a: seq<T>, b: seq<T>)
    requires b != []
    ensures a + b[..|b| - 1] + [b[|b| - 1]] == a + b
  {
  }

  lemma {:induction false} FirstIndexLeast<T>(xs: seq<T>, x: T, i: nat)
    requires i < |xs| && xs[i] == x
    ensures FirstIndex(xs, x) <= i
  {
    if xs[0] != x {
      FirstIndexLeast(xs[1..], x, i - 1);
    }
  }

  lemma {:induction false} FirstIndexStable<T>(xs: seq<T>, ys: seq<T>, x: T)
    requires x in xs
    ensures FirstIndex(xs + ys, x) == FirstIndex(xs, x)
  {
    FirstIndexLeast(xs + ys, x, FirstIndex(xs, x));
    FirstIndexLeast(xs, x, FirstIndex(xs + ys, x));
  }

  /** De-duplication lists the elements in the order of their first occurrences. */
  lemma {:induction false} DedupeKeepsOrder<T(!new)>(xs: seq<T>, i: nat, j: nat)
    requires i < j < |Dedupe(xs)|
    ensures Dedupe(xs)[i] in xs && Dedupe(xs)[j] in xs
    ensures FirstIndex(xs, Dedupe(xs)[i]) < FirstIndex(xs, Dedupe(xs)[j])
  {
    var n := |xs| - 1;
    var init, last := xs[..n], xs[n];
    assert xs == init + [last];
    DedupeIsDistinct(xs);
    DedupeIsDistinct(init);
    var d := Dedupe(xs);
    assert d[i] == Dedupe(init)[i] && d[i] in Dedupe(init);
    FirstIndexStable(init, [last], d[i]);
    if j < |Dedupe(init)| {
      DedupeKeepsOrder(init, i, j);
      FirstIndexStable(init, [last], d[j]);
    } else {
      assert d[j] == last && last !in init;
      assert FirstIndex(xs, last) < n ==> last in init;
    }
  }

  /** The de-duplication loop of the room service and of both event buses. */
  method DedupePreservingOrder<T(==)>(xs: seq<T>) returns (ordered: seq<T>)
    ensures ordered == Dedupe(xs)
  {
    ordered := [];
    for k := 0 to |xs|
      invariant ordered == Dedupe(xs[..k])
    {
      assert xs[..k + 1][..k] == xs[..k];
      if xs[k] !in ordered {
        ordered := ordered + [xs[k]];
      }
    }
    assert xs[..|xs|] == xs;
  }
}
