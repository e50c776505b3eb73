/** Insertion-ordered sets, as JavaScript's `Set` keeps them: adding an element
    already present changes nothing, a new one goes to the end. */
module Collections {

  predicate NoDup<T(==)>(xs: seq<T>) {
    forall i, j :: 0 <= i < j < |xs| ==> xs[i] != xs[j]
  }

  /** Position of the first occurrence of `x` in `xs`. */
  function IndexOf<T(==)>(xs: seq<T>, x: T): (i: nat)
    requires x in xs
    ensures i < |xs| && xs[i] == x && x !in xs[..i]
  {
    if xs[0] == x then 0
    else
      var i := IndexOf(xs[1..], x);
      assert xs[..i + 1] == [xs[0]] + xs[1..][..i];
      i + 1
  }

  /** `set.add(x)`. */
  function Add<T(==,!new)>(acc: seq<T>, x: T): (r: seq<T>)
    ensures x in r && acc <= r
    ensures forall y :: y in r <==> y in acc || y == x
    ensures NoDup(acc) ==> NoDup(r)
    ensures x in acc ==> r == acc
  {
    if x in acc then acc else acc + [x]
  }

  /** Adding to a list with a different first element adds behind that element. */
  lemma AddCons<T(!new)>(x: T, xs: seq<T>, k: T)
    requires x != k
    ensures Add([x] + xs, k) == [x] + Add(xs, k)
  {
    assert k in [x] + xs <==> k in xs;
    if k !in xs {
      assert [x] + xs + [k] == [x] + (xs + [k]);
    }
  }

  /** Adds the elements of `xs` to `acc` one after the other. */
  function AddAll<T(==,!new)>(acc: seq<T>, xs: seq<T>): (r: seq<T>)
    ensures acc <= r
    ensures forall y :: y in r <==> y in acc || y in xs
    ensures NoDup(acc) ==> NoDup(r)
    decreases xs
  {
    if xs == [] then acc else AddAll(Add(acc, xs[0]), xs[1..])
  }

  /** `Array.from(new Set(xs))`: the elements of `xs` without repetitions. */
  function Dedup<T(==,!new)>(xs: seq<T>): (r: seq<T>)
    ensures NoDup(r)
    ensures forall y :: y in r <==> y in xs
  {
    AddAll([], xs)
  }

  /** Adding a list plus one more element is adding the list, then the element. */
  lemma {:induction false} AddAllSnoc<T(!new)>(acc: seq<T>, xs: seq<T>, x: T)
    ensures AddAll(acc, xs + [x]) == Add(AddAll(acc, xs), x)
    decreases xs
  {
    if xs == [] {
      assert [x][1..] == [];
    } else {
      assert (xs + [x])[1..] == xs[1..] + [x];
      AddAllSnoc(Add(acc, xs[0]), xs[1..], x);
    }
  }

  /** Adding a list to what an earlier list left behind is adding both. */
  lemma {:induction false} AddAllAppend<T(!new)>(acc: seq<T>, xs: seq<T>, ys: seq<T>)
    ensures AddAll(acc, xs + ys) == AddAll(AddAll(acc, xs), ys)
    decreases xs
  {
    if xs != [] {
      assert (xs + ys)[1..] == xs[1..] + ys;
      AddAllAppend(Add(acc, xs[0]), xs[1..], ys);
    } else {
      assert xs + ys == ys;
    }
  }

  /** The first occurrence of an element is not moved by appending. */
  lemma IndexOfAppend<T>(xs: seq<T>, x: T, y: T)
    requires y in xs
    ensures IndexOf(xs + [x], y) == IndexOf(xs, y)
  {
    var i := IndexOf(xs, y);
    var j := IndexOf(xs + [x], y);
    assert (xs + [x])[..i] == xs[..i];
    assert (xs + [x])[i] == y;
  }

  /** The result keeps the order of first occurrence: an element that appears
      first earlier in `xs` comes earlier in `Dedup(xs)`. */
  lemma {:induction false} DedupOrder<T(!new)>(xs: seq<T>)
    ensures forall i, j :: 0 <= i < j < |Dedup(xs)| ==> IndexOf(xs, Dedup(xs)[i]) < IndexOf(xs, Dedup(xs)[j])
  {
    if xs != [] {
      var p, x := xs[..|xs| - 1], xs[|xs| - 1];
      assert xs == p + [x];
      DedupOrder(p);
      AddAllSnoc([], p, x);
      var d := Dedup(p);
      assert Dedup(xs) == Add(d, x);
      forall i, j | 0 <= i < j < |Dedup(xs)|
        ensures IndexOf(xs, Dedup(xs)[i]) < IndexOf(xs, Dedup(xs)[j])
      {
        IndexOfAppend(p, x, d[i]);
        if j < |d| {
          IndexOfAppend(p, x, d[j]);
        } else {
          assert x !in p;
          assert IndexOf(xs, x) == |p|;
        }
      }
    }
  }
}
