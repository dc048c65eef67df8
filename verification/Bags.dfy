// Sums of multisets over sequences and over multisets: the common currency of
// every conservation argument in this project.
module Bags {

  /** The sum of f over the elements of a queue. */
  ghost function Sum<T, X>(q: seq<T>, f: T -> multiset<X>): multiset<X> {
    if q == [] then multiset{} else f(q[0]) + Sum(q[1..], f)
  }

  lemma {:induction false} SumAppend<T, X>(a: seq<T>, b: seq<T>, f: T -> multiset<X>)
    ensures Sum(a + b, f) == Sum(a, f) + Sum(b, f)
  {
    if a == [] {
      assert a + b == b;
    } else {
      assert (a + b)[1..] == a[1..] + b;
      SumAppend(a[1..], b, f);
    }
  }

  /** Enqueueing one element. */
  lemma SumSnoc<T, X>(q: seq<T>, x: T, f: T -> multiset<X>)
    ensures Sum(q + [x], f) == Sum(q, f) + f(x)
  {
    SumAppend(q, [x], f);
    assert [x][1..] == [];
    assert Sum([x], f) == f(x);
  }

  /** Overwriting one element trades its old contribution for the new one. */
  lemma {:induction false} SumUpdate<T, X>(q: seq<T>, i: nat, x: T, f: T -> multiset<X>)
    requires i < |q|
    ensures Sum(q[i := x], f) + f(q[i]) == Sum(q, f) + f(x)
  {
    if i == 0 {
      assert q[i := x][1..] == q[1..];
    } else {
      assert q[i := x][1..] == q[1..][i - 1 := x];
      SumUpdate(q[1..], i - 1, x, f);
      calc {
        Sum(q[i := x], f) + f(q[i]);
        f(q[0]) + (Sum(q[1..][i - 1 := x], f) + f(q[1..][i - 1]));
        f(q[0]) + (Sum(q[1..], f) + f(x));
        Sum(q, f) + f(x);
      }
    }
  }

  // The same three facts for the multiplicity of one element.

  lemma SumPopAt<T, X>(q: seq<T>, f: T -> multiset<X>, e: X)
    requires q != []
    ensures Sum(q[1..], f)[e] + f(q[0])[e] == Sum(q, f)[e]
  {
  }

  lemma SumSnocAt<T, X>(q: seq<T>, x: T, f: T -> multiset<X>, e: X)
    ensures Sum(q + [x], f)[e] == Sum(q, f)[e] + f(x)[e]
  {
    SumSnoc(q, x, f);
  }

  lemma SumUpdateAt<T, X>(q: seq<T>, i: nat, x: T, f: T -> multiset<X>, e: X)
    requires i < |q|
    ensures Sum(q[i := x], f)[e] + f(q[i])[e] == Sum(q, f)[e] + f(x)[e]
  {
    SumUpdate(q, i, x, f);
    assert (Sum(q[i := x], f) + f(q[i]))[e] == (Sum(q, f) + f(x))[e];
  }

  lemma SumUpdateSize<T, X>(q: seq<T>, i: nat, x: T, f: T -> multiset<X>)
    requires i < |q|
    ensures |Sum(q[i := x], f)| + |f(q[i])| == |Sum(q, f)| + |f(x)|
  {
    SumUpdate(q, i, x, f);
    assert |Sum(q[i := x], f) + f(q[i])| == |Sum(q, f) + f(x)|;
  }

  /** Popping a plain queue, for the multiplicity of one element. */
  lemma PopAt<T>(q: seq<T>, e: T)
    requires q != []
    ensures multiset(q[1..])[e] + (if q[0] == e then 1 else 0) == multiset(q)[e]
  {
    assert q == [q[0]] + q[1..];
  }

  /** Every element's contribution is part of the sum. */
  lemma {:induction false} SumContains<T, X>(q: seq<T>, i: nat, f: T -> multiset<X>)
    requires i < |q|
    ensures f(q[i]) <= Sum(q, f)
  {
    if i > 0 {
      SumContains(q[1..], i - 1, f);
    }
  }

  /** Anything in the sum comes from some element. */
  lemma {:induction false} SumWitness<T, X>(q: seq<T>, x: X, f: T -> multiset<X>) returns (i: nat)
    requires x in Sum(q, f)
    ensures i < |q| && x in f(q[i])
  {
    if x in f(q[0]) {
      i := 0;
    } else {
      var j := SumWitness(q[1..], x, f);
      i := j + 1;
    }
  }

  /** The sum of f over an unordered collection. */
  ghost function Weight<T, X>(ts: multiset<T>, f: T -> multiset<X>): multiset<X>
    decreases |ts|
  {
    if ts == multiset{} then multiset{} else
      var t :| t in ts;
      f(t) + Weight(ts - multiset{t}, f)
  }

  lemma WeightUnfold<T, X>(ts: multiset<T>, f: T -> multiset<X>) returns (t: T)
    requires ts != multiset{}
    ensures t in ts && Weight(ts, f) == f(t) + Weight(ts - multiset{t}, f)
  {
    t :| t in ts && Weight(ts, f) == f(t) + Weight(ts - multiset{t}, f);
  }

  lemma RemoveTwo<T>(ts: multiset<T>, t: T, u: T)
    requires t in ts && u in ts && t != u
    ensures t in ts - multiset{u} && u in ts - multiset{t}
    ensures ts - multiset{u} - multiset{t} == ts - multiset{t} - multiset{u}
  {
  }

  /** Weight does not depend on which element is taken first. */
  lemma {:induction false} WeightRemove<T, X>(ts: multiset<T>, t: T, f: T -> multiset<X>)
    requires t in ts
    ensures Weight(ts, f) == f(t) + Weight(ts - multiset{t}, f)
    decreases |ts|
  {
    hide Weight;
    var u := WeightUnfold(ts, f);
    if u != t {
      RemoveTwo(ts, t, u);
      WeightRemove(ts - multiset{u}, t, f);
      WeightRemove(ts - multiset{t}, u, f);
    }
  }

  lemma WeightAdd<T, X>(ts: multiset<T>, t: T, f: T -> multiset<X>)
    ensures Weight(ts + multiset{t}, f) == Weight(ts, f) + f(t)
  {
    WeightRemove(ts + multiset{t}, t, f);
    assert ts + multiset{t} - multiset{t} == ts;
  }

  lemma MoveOne<T>(a: multiset<T>, b: multiset<T>, t: T)
    requires t in b
    ensures (b - multiset{t}) + multiset{t} == b
    ensures (a + (b - multiset{t})) + multiset{t} == a + b
    ensures |b - multiset{t}| < |b|
  {
  }

  lemma {:induction false} WeightUnion<T, X>(a: multiset<T>, b: multiset<T>, f: T -> multiset<X>)
    ensures Weight(a + b, f) == Weight(a, f) + Weight(b, f)
    decreases |b|
  {
    hide Weight;
    if b == multiset{} {
      NothingWeighs(f);
      assert a + b == a;
    } else {
      var t :| t in b;
      MoveOne(a, b, t);
      var c := b - multiset{t};
      WeightUnion(a, c, f);
      WeightAdd(a + c, t, f);
      WeightAdd(c, t, f);
      Regroup(Weight(a, f), Weight(c, f), f(t));
    }
  }

  lemma NothingWeighs<T, X>(f: T -> multiset<X>)
    ensures Weight(multiset{}, f) == multiset{}
  {
  }

  lemma Regroup<X>(a: multiset<X>, b: multiset<X>, c: multiset<X>)
    ensures (a + b) + c == a + (b + c)
  {
  }

  /** A sequence weighs as much as its multiset: order never matters. */
  lemma {:induction false} SumIsWeight<T, X>(q: seq<T>, f: T -> multiset<X>)
    ensures Sum(q, f) == Weight(multiset(q), f)
  {
    if q != [] {
      SumIsWeight(q[1..], f);
      assert q == [q[0]] + q[1..];
      assert multiset(q) == multiset(q[1..]) + multiset{q[0]};
      WeightAdd(multiset(q[1..]), q[0], f);
    }
  }
}
