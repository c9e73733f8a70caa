/** The optional-value datatype the rest of the model uses for Python's `None`. */
module Wrappers {

  datatype Option<+T> = None | Some(value: T)

  /** The carried values of `f` over `xs`, in order, skipping the `None`s
      (a list comprehension with an `if` filter). */
  function Somes<T, U>(xs: seq<T>, f: T -> Option<U>): (r: seq<U>)
    ensures |r| <= |xs|
    ensures r == [] <==> forall i :: 0 <= i < |xs| ==> f(xs[i]).None?
  {
    if xs == [] then []
    else
      var rest := Somes(xs[1..], f);
      assert forall i :: 1 <= i < |xs| ==> xs[i] == xs[1..][i - 1];
      match f(xs[0])
      case None => rest
      case Some(y) => [y] + rest
  }

  /** Every carried value satisfies what every `Some` of `f` satisfies. */
  lemma {:induction false} SomesAll<T, U>(xs: seq<T>, f: T -> Option<U>, p: U -> bool)
    requires forall x :: f(x).Some? ==> p(f(x).value)
    ensures forall i :: 0 <= i < |Somes(xs, f)| ==> p(Somes(xs, f)[i])
  {
    if xs != [] {
      SomesAll(xs[1..], f, p);
    }
  }

  /** The values of two runs are the values of each, in order. */
  lemma {:induction false} SomesAppend<T, U>(a: seq<T>, b: seq<T>, f: T -> Option<U>)
    ensures Somes(a + b, f) == Somes(a, f) + Somes(b, f)
  {
    if a != [] {
      assert (a + b)[1..] == a[1..] + b;
      SomesAppend(a[1..], b, f);
    } else {
      assert a + b == b;
    }
  }

  /** A single element gives its value, if it has one. */
  lemma SomesOne<T, U>(x: T, f: T -> Option<U>)
    ensures Somes([x], f) == if f(x).Some? then [f(x).value] else []
  {
    assert [x][1..] == [];
  }

  /** Where every element has a value, the values come one for one, in
      order. */
  lemma {:induction false} SomesAllSome<T, U>(xs: seq<T>, f: T -> Option<U>)
    requires forall i :: 0 <= i < |xs| ==> f(xs[i]).Some?
    ensures |Somes(xs, f)| == |xs|
    ensures forall i :: 0 <= i < |xs| ==> Somes(xs, f)[i] == f(xs[i]).value
  {
    if xs != [] {
      assert forall i :: 0 <= i < |xs[1..]| ==> xs[1..][i] == xs[i + 1];
      SomesAllSome(xs[1..], f);
      assert forall i :: 1 <= i < |xs| ==> xs[i] == xs[1..][i - 1];
    }
  }
}
