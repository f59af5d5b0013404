/** Money amounts keyed by member name: lookup with a zero default, the sum of
    a map's amounts, and the pointwise merge used to accumulate balances. */
module Amounts {

  /** The amount stored under `k`, or 0 when there is none (a blank input, or
      a person not yet in an accumulator). */
  function Amount(m: map<string, real>, k: string): real {
    if k in m then m[k] else 0.0
  }

  /** Sum of the amounts `m` holds under the keys `ks`, in no particular order. */
  ghost function SumOver(ks: set<string>, m: map<string, real>): real
    requires ks <= m.Keys
    decreases ks
  {
    if ks == {} then 0.0
    else
      var k :| k in ks;
      m[k] + SumOver(ks - {k}, m)
  }

  /** Sum of all amounts held in `m`. */
  ghost function SumValues(m: map<string, real>): real {
    SumOver(m.Keys, m)
  }

  /** Pointwise sum of two amount maps; a key of either map is a key of the result. */
  function Merge(a: map<string, real>, b: map<string, real>): (r: map<string, real>)
    ensures r.Keys == a.Keys + b.Keys
  {
    map p | p in a.Keys + b.Keys :: Amount(a, p) + Amount(b, p)
  }

  /** The part of `m` whose keys lie in `ks`. */
  function Restrict(m: map<string, real>, ks: set<string>): (r: map<string, real>)
    ensures r.Keys == m.Keys * ks
  {
    map p | p in m && p in ks :: m[p]
  }

  /** The sum does not depend on which key is taken out first. */
  lemma {:induction false} SumOverRemove(ks: set<string>, m: map<string, real>, k: string)
    requires ks <= m.Keys && k in ks
    ensures SumOver(ks, m) == m[k] + SumOver(ks - {k}, m)
    decreases ks
  {
    var j :| j in ks && SumOver(ks, m) == m[j] + SumOver(ks - {j}, m);
    if j != k {
      SumOverRemove(ks - {j}, m, k);
      SumOverRemove(ks - {k}, m, j);
      assert ks - {j} - {k} == ks - {k} - {j};
    }
  }

  /** Only the amounts under the summed keys matter. */
  lemma {:induction false} SumOverAgree(ks: set<string>, m1: map<string, real>, m2: map<string, real>)
    requires ks <= m1.Keys && ks <= m2.Keys
    requires forall p :: p in ks ==> m1[p] == m2[p]
    ensures SumOver(ks, m1) == SumOver(ks, m2)
    decreases ks
  {
    if ks != {} {
      var k :| k in ks && SumOver(ks, m1) == m1[k] + SumOver(ks - {k}, m1);
      SumOverRemove(ks, m2, k);
      SumOverAgree(ks - {k}, m1, m2);
    }
  }

  /** Taking one entry out of a map takes its amount out of the sum. */
  lemma SumValuesRemove(m: map<string, real>, k: string)
    requires k in m
    ensures SumValues(m) == m[k] + SumValues(m - {k})
  {
    SumOverRemove(m.Keys, m, k);
    assert (m - {k}).Keys == m.Keys - {k};
    SumOverAgree(m.Keys - {k}, m, m - {k});
  }

  /** Overwriting one amount changes the sum by the difference. */
  lemma SumValuesUpdate(m: map<string, real>, k: string, x: real)
    ensures SumValues(m[k := x]) == SumValues(m) - Amount(m, k) + x
  {
    SumValuesRemove(m[k := x], k);
    assert m[k := x] - {k} == m - {k};
    if k in m {
      SumValuesRemove(m, k);
    } else {
      assert m - {k} == m;
    }
  }

  /** Merging in one more entry of `b` updates one amount of the merge. */
  lemma MergeStep(a: map<string, real>, b: map<string, real>, k: string)
    requires k in b
    ensures var c := Merge(a, b - {k});
      Merge(a, b) == c[k := Amount(c, k) + b[k]]
  {
    var c := Merge(a, b - {k});
    var d := c[k := Amount(c, k) + b[k]];
    assert Merge(a, b).Keys == d.Keys;
    forall p | p in d
      ensures Merge(a, b)[p] == d[p]
    {
      if p != k {
        assert Amount(b, p) == Amount(b - {k}, p);
      }
    }
  }

  /** Merging adds the sums. */
  lemma {:induction false} SumValuesMerge(a: map<string, real>, b: map<string, real>)
    ensures SumValues(Merge(a, b)) == SumValues(a) + SumValues(b)
    decreases b.Keys
  {
    if b.Keys == {} {
      assert Merge(a, b) == a;
    } else {
      var k :| k in b;
      var rest := b - {k};
      assert rest.Keys < b.Keys;
      var c := Merge(a, rest);
      MergeStep(a, b, k);
      SumValuesUpdate(c, k, Amount(c, k) + b[k]);
      SumValuesMerge(a, rest);
      SumValuesRemove(b, k);
    }
  }

  /** A sub-map of a map of non-negative amounts sums to no more than the map. */
  lemma {:induction false} SumValuesSubmap(a: map<string, real>, b: map<string, real>)
    requires forall p :: p in a ==> p in b && a[p] == b[p]
    requires forall p :: p in b ==> b[p] >= 0.0
    ensures SumValues(a) <= SumValues(b)
    decreases b.Keys
  {
    if b.Keys == {} {
      assert a.Keys == {};
    } else {
      var k :| k in b;
      var b' := b - {k};
      assert b'.Keys < b.Keys;
      SumValuesRemove(b, k);
      if k in a {
        SumValuesRemove(a, k);
        SumValuesSubmap(a - {k}, b');
      } else {
        SumValuesSubmap(a, b');
      }
    }
  }

  /** Merging in the part of `u` under one more key `p` adds u[p] to the
      accumulated amount for `p`, if `u` has that key. */
  lemma MergeRestrictStep(a: map<string, real>, u: map<string, real>, done: set<string>, p: string)
    requires p !in done
    ensures var before := Merge(a, Restrict(u, done));
      Merge(a, Restrict(u, done + {p}))
        == if p in u then before[p := Amount(before, p) + u[p]] else before
  {
    var before := Merge(a, Restrict(u, done));
    var after := Merge(a, Restrict(u, done + {p}));
    if p in u {
      var b2 := before[p := Amount(before, p) + u[p]];
      assert after.Keys == b2.Keys;
      forall q | q in after
        ensures after[q] == b2[q]
      {
        if q != p {
          assert Amount(Restrict(u, done + {p}), q) == Amount(Restrict(u, done), q);
        }
      }
    } else {
      assert after.Keys == before.Keys;
      forall q | q in after
        ensures after[q] == before[q]
      {
        assert Amount(Restrict(u, done + {p}), q) == Amount(Restrict(u, done), q);
      }
    }
  }

  /** Merging in nothing leaves the accumulator as it was. */
  lemma MergeRestrictNone(a: map<string, real>, u: map<string, real>)
    ensures Merge(a, Restrict(u, {})) == a
  {
    assert Restrict(u, {}).Keys == {};
  }

  /** Restricting to a superset of the keys keeps the whole map. */
  lemma RestrictAll(u: map<string, real>, ks: set<string>)
    requires u.Keys <= ks
    ensures Restrict(u, ks) == u
  {
  }
}
