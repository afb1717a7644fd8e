/** Polynomials over a field of characteristic two: evaluation, the division of a
    polynomial by x - c, the unique polynomial through given points, and the
    Lagrange sum that reads its value at zero. */
module Interpolation {
  import opened Basics
  import opened Fields

  // ---------- sums and products ----------

  ghost function Sum<T>(F: Field<T>, s: seq<T>): T {
    if s == [] then F.zero else F.add(Sum(F, s[..|s| - 1]), s[|s| - 1])
  }

  ghost function Prod<T>(F: Field<T>, s: seq<T>): T {
    if s == [] then F.one else F.mul(Prod(F, s[..|s| - 1]), s[|s| - 1])
  }

  /** The sequence with one position left out. */
  function Without<T>(s: seq<T>, i: nat): (r: seq<T>)
    requires i < |s|
    ensures |r| == |s| - 1
  {
    s[..i] + s[i + 1..]
  }

  lemma {:induction false} SumWithout<T(!new)>(F: Field<T>, s: seq<T>, t: nat)
    requires IsField(F) && t < |s|
    ensures Sum(F, s) == F.add(s[t], Sum(F, Without(s, t)))
  {
    var n := |s| - 1;
    if t == n {
      assert Without(s, t) == s[..n];
      assert F.AddComm(s[t], Sum(F, s[..n]));
    } else {
      SumWithout(F, s[..n], t);
      var r := Without(s[..n], t);
      assert Without(s, t) == r + [s[n]];
      assert (r + [s[n]])[..n - 1] == r;
      assert F.AddAssoc(s[t], Sum(F, r), s[n]);
    }
  }

  lemma {:induction false} ProdWithout<T(!new)>(F: Field<T>, s: seq<T>, t: nat)
    requires IsField(F) && t < |s|
    ensures Prod(F, s) == F.mul(s[t], Prod(F, Without(s, t)))
  {
    var n := |s| - 1;
    if t == n {
      assert Without(s, t) == s[..n];
      assert F.MulComm(s[t], Prod(F, s[..n]));
    } else {
      ProdWithout(F, s[..n], t);
      var r := Without(s[..n], t);
      assert Without(s, t) == r + [s[n]];
      assert (r + [s[n]])[..n - 1] == r;
      assert F.MulAssoc(s[t], Prod(F, r), s[n]);
    }
  }

  lemma {:induction false} ProdNonZero<T(!new)>(F: Field<T>, s: seq<T>)
    requires IsField(F)
    requires forall i :: 0 <= i < |s| ==> s[i] != F.zero
    ensures Prod(F, s) != F.zero
  {
    if s != [] {
      ProdNonZero(F, s[..|s| - 1]);
      NoZeroDivisors(F, Prod(F, s[..|s| - 1]), s[|s| - 1]);
    }
  }

  lemma {:induction false} SumScale<T(!new)>(F: Field<T>, c: T, s: seq<T>, r: seq<T>)
    requires IsField(F) && |s| == |r|
    requires forall i :: 0 <= i < |s| ==> r[i] == F.mul(c, s[i])
    ensures Sum(F, r) == F.mul(c, Sum(F, s))
  {
    var n := |s| - 1;
    if s == [] {
      MulZero(F, c);
    } else {
      SumScale(F, c, s[..n], r[..n]);
      assert F.Distributes(c, Sum(F, s[..n]), s[n]);
    }
  }

  lemma {:induction false} SumAdd<T(!new)>(F: Field<T>, s: seq<T>, r: seq<T>, q: seq<T>)
    requires IsField(F) && |s| == |r| == |q|
    requires forall i :: 0 <= i < |s| ==> q[i] == F.add(s[i], r[i])
    ensures Sum(F, q) == F.add(Sum(F, s), Sum(F, r))
  {
    var n := |s| - 1;
    if s == [] {
      assert F.AddZero(F.zero);
    } else {
      SumAdd(F, s[..n], r[..n], q[..n]);
      AddExchange(F, Sum(F, s[..n]), Sum(F, r[..n]), s[n], r[n]);
    }
  }

  // ---------- polynomials ----------

  /** cs[0] + cs[1] x + cs[2] x^2 + ... */
  ghost function Eval<T>(F: Field<T>, cs: seq<T>, x: T): T {
    if cs == [] then F.zero else F.add(cs[0], F.mul(x, Eval(F, cs[1..], x)))
  }

  lemma EvalAtZero<T(!new)>(F: Field<T>, cs: seq<T>)
    requires IsField(F) && cs != []
    ensures Eval(F, cs, F.zero) == cs[0]
  {
    MulZero(F, Eval(F, cs[1..], F.zero));
    assert F.AddZero(cs[0]);
  }

  /** One round of evaluation by running powers: the next coefficient joins the sum. */
  lemma EvalStep<T(!new)>(F: Field<T>, r: T, p: T, cs: seq<T>, x: T)
    requires IsField(F) && cs != []
    ensures F.add(r, F.mul(p, Eval(F, cs, x)))
         == F.add(F.add(r, F.mul(cs[0], p)), F.mul(F.mul(p, x), Eval(F, cs[1..], x)))
  {
    var e := Eval(F, cs[1..], x);
    assert F.Distributes(p, cs[0], F.mul(x, e));
    assert F.MulAssoc(p, x, e) && F.MulComm(p, cs[0]);
    assert F.AddAssoc(r, F.mul(cs[0], p), F.mul(F.mul(p, x), e));
  }

  /** The quotient of the polynomial by x - c. */
  ghost function Quotient<T>(F: Field<T>, cs: seq<T>, c: T): (q: seq<T>)
    requires cs != []
    ensures |q| == |cs| - 1
  {
    if |cs| == 1 then [] else [Eval(F, cs[1..], c)] + Quotient(F, cs[1..], c)
  }

  /** The polynomial y + (x - c) q(x). */
  ghost function Lift<T>(F: Field<T>, y: T, q: seq<T>, c: T): (cs: seq<T>)
    ensures |cs| == |q| + 1
  {
    if q == [] then [y] else [F.add(y, F.mul(c, q[0]))] + Lift(F, q[0], q[1..], c)
  }

  lemma {:induction false} QuotientEval<T(!new)>(F: Field<T>, cs: seq<T>, c: T, x: T)
    requires IsField(F) && cs != []
    ensures Eval(F, cs, x) == F.add(Eval(F, cs, c), F.mul(F.add(x, c), Eval(F, Quotient(F, cs, c), x)))
  {
    if |cs| == 1 {
      assert cs[1..] == [];
      MulZero(F, x);
      MulZero(F, c);
      MulZero(F, F.add(x, c));
      assert F.AddZero(Eval(F, cs, c));
    } else {
      var r := cs[1..];
      var q := Quotient(F, r, c);
      var rc, qx, d := Eval(F, r, c), Eval(F, q, x), F.add(x, c);
      QuotientEval(F, r, c, x);
      assert Quotient(F, cs, c) == [rc] + q;
      assert Quotient(F, cs, c)[1..] == q;
      QuotientStep(F, cs[0], x, c, rc, qx);
    }
  }

  /** The ring identity behind QuotientEval:
      k + x (r + (x + c) q)  ==  (k + c r) + (x + c) (r + x q). */
  lemma QuotientStep<T(!new)>(F: Field<T>, k: T, x: T, c: T, r: T, q: T)
    requires IsField(F)
    ensures F.add(k, F.mul(x, F.add(r, F.mul(F.add(x, c), q))))
         == F.add(F.add(k, F.mul(c, r)), F.mul(F.add(x, c), F.add(r, F.mul(x, q))))
  {
    var d := F.add(x, c);
    var xr, cr, dxq := F.mul(x, r), F.mul(c, r), F.mul(x, F.mul(d, q));
    assert F.Distributes(x, r, F.mul(d, q));
    assert F.mul(d, F.mul(x, q)) == dxq by {
      assert F.MulAssoc(d, x, q) && F.MulComm(d, x) && F.MulAssoc(x, d, q);
    }
    assert F.Distributes(d, r, F.mul(x, q));
    DistributesLeft(F, x, c, r);
    assert F.AddAssoc(F.add(k, cr), F.add(xr, cr), dxq);
    assert F.add(F.add(k, cr), F.add(xr, cr)) == F.add(k, xr) by {
      assert F.AddComm(xr, cr);
      assert F.AddAssoc(F.add(k, cr), cr, xr);
      AddTwice(F, k, cr);
    }
    assert F.AddAssoc(k, xr, dxq);
  }

  lemma {:induction false} LiftInverts<T(!new)>(F: Field<T>, y: T, q: seq<T>, c: T)
    requires IsField(F)
    ensures Eval(F, Lift(F, y, q, c), c) == y && Quotient(F, Lift(F, y, q, c), c) == q
  {
    var cs := Lift(F, y, q, c);
    if q == [] {
      assert cs[1..] == [];
      MulZero(F, c);
      assert F.AddZero(y);
    } else {
      LiftInverts(F, q[0], q[1..], c);
      assert cs[1..] == Lift(F, q[0], q[1..], c);
      AddTwice(F, y, F.mul(c, q[0]));
    }
  }

  lemma {:induction false} LiftRestores<T(!new)>(F: Field<T>, cs: seq<T>, c: T)
    requires IsField(F) && cs != []
    ensures Lift(F, Eval(F, cs, c), Quotient(F, cs, c), c) == cs
  {
    if |cs| == 1 {
      assert cs[1..] == [];
      MulZero(F, c);
      assert F.AddZero(cs[0]);
    } else {
      var r := cs[1..];
      LiftRestores(F, r, c);
      var q := Quotient(F, cs, c);
      assert q[1..] == Quotient(F, r, c);
      AddTwice(F, cs[0], F.mul(c, Eval(F, r, c)));
      assert cs == [cs[0]] + r;
    }
  }

  // ---------- the unique polynomial through given points ----------

  ghost predicate Fits<T>(F: Field<T>, cs: seq<T>, xs: seq<T>, ys: seq<T>)
    requires |xs| == |ys|
  {
    forall i :: 0 <= i < |xs| ==> Eval(F, cs, xs[i]) == ys[i]
  }

  /** What the quotient by x - xs[0] has to be at the remaining points. */
  ghost function Slopes<T>(F: Field<T>, xs: seq<T>, ys: seq<T>): (zs: seq<T>)
    requires |xs| == |ys| && xs != []
    ensures |zs| == |xs| - 1
  {
    seq(|xs| - 1, i requires 0 <= i < |xs| - 1 => F.div(F.add(ys[i + 1], ys[0]), F.add(xs[i + 1], xs[0])))
  }

  ghost function Interpolant<T>(F: Field<T>, xs: seq<T>, ys: seq<T>): (cs: seq<T>)
    requires |xs| == |ys|
    ensures |cs| == |xs|
  {
    if xs == [] then [] else Lift(F, ys[0], Interpolant(F, xs[1..], Slopes(F, xs, ys)), xs[0])
  }

  /** At a point x other than c: the value is y exactly when the quotient has the slope. */
  lemma QuotientAt<T(!new)>(F: Field<T>, cs: seq<T>, c: T, x: T, y: T)
    requires IsField(F) && cs != [] && x != c
    ensures Eval(F, cs, x) == y <==>
            Eval(F, Quotient(F, cs, c), x) == F.div(F.add(y, Eval(F, cs, c)), F.add(x, c))
  {
    var p, q, d := Eval(F, cs, c), Eval(F, Quotient(F, cs, c), x), F.add(x, c);
    QuotientEval(F, cs, c, x);
    SumZeroIsEqual(F, x, c);
    var z := F.div(F.add(y, p), d);
    assert F.Divides(F.add(y, p), d);
    assert F.MulComm(d, q);
    assert F.AddComm(y, p) && F.AddComm(p, F.mul(d, q));
    AddTwice(F, y, p);
    AddTwice(F, F.mul(d, q), p);
    if Eval(F, cs, x) == y {
      Cancel(F, q, z, d);
    }
  }

  lemma {:induction false} InterpolantFits<T(!new)>(F: Field<T>, xs: seq<T>, ys: seq<T>)
    requires IsField(F) && |xs| == |ys| && Distinct(xs)
    ensures Fits(F, Interpolant(F, xs, ys), xs, ys)
  {
    if xs != [] {
      var q := Interpolant(F, xs[1..], Slopes(F, xs, ys));
      var cs := Interpolant(F, xs, ys);
      InterpolantFits(F, xs[1..], Slopes(F, xs, ys));
      LiftInverts(F, ys[0], q, xs[0]);
      forall i | 1 <= i < |xs| ensures Eval(F, cs, xs[i]) == ys[i] {
        assert Eval(F, q, xs[1..][i - 1]) == Slopes(F, xs, ys)[i - 1];
        QuotientAt(F, cs, xs[0], xs[i], ys[i]);
      }
    }
  }

  lemma {:induction false} InterpolantUnique<T(!new)>(F: Field<T>, cs: seq<T>, xs: seq<T>, ys: seq<T>)
    requires IsField(F) && |cs| == |xs| == |ys| && Distinct(xs)
    requires Fits(F, cs, xs, ys)
    ensures cs == Interpolant(F, xs, ys)
    decreases |xs|
  {
    if xs != [] {
      var q := Quotient(F, cs, xs[0]);
      forall i | 0 <= i < |xs| - 1 ensures Eval(F, q, xs[1..][i]) == Slopes(F, xs, ys)[i] {
        QuotientAt(F, cs, xs[0], xs[i + 1], ys[i + 1]);
      }
      InterpolantUnique(F, q, xs[1..], Slopes(F, xs, ys));
      LiftRestores(F, cs, xs[0]);
    }
  }

  lemma FitsAtZero<T(!new)>(F: Field<T>, cs: seq<T>, s: T, xs: seq<T>, ys: seq<T>)
    requires IsField(F) && |xs| == |ys| && cs != []
    ensures Fits(F, cs, [F.zero] + xs, [s] + ys) <==> cs[0] == s && Fits(F, cs, xs, ys)
  {
    var ps, vs := [F.zero] + xs, [s] + ys;
    EvalAtZero(F, cs);
    assert forall j :: 0 <= j < |xs| ==> ps[j + 1] == xs[j] && vs[j + 1] == ys[j];
    if Fits(F, cs, ps, vs) {
      assert Eval(F, cs, ps[0]) == vs[0];
      forall j | 0 <= j < |xs| ensures Eval(F, cs, xs[j]) == ys[j] {
        assert Eval(F, cs, ps[j + 1]) == vs[j + 1];
      }
    }
  }

  /** With the constant term given, the other coefficients are determined by their number of
      values at nonzero points. */
  lemma WithGivenConstant<T(!new)>(F: Field<T>, s: T, xs: seq<T>, ys: seq<T>, cs: seq<T>)
    requires IsField(F) && |xs| == |ys| && |cs| == |xs| + 1 && Distinct(xs) && F.zero !in xs && cs[0] == s
    ensures Fits(F, cs, xs, ys) <==> cs[1..] == Interpolant(F, [F.zero] + xs, [s] + ys)[1..]
  {
    var ps, vs := [F.zero] + xs, [s] + ys;
    var i := Interpolant(F, ps, vs);
    InterpolantFits(F, ps, vs);
    FitsAtZero(F, i, s, xs, ys);
    FitsAtZero(F, cs, s, xs, ys);
    assert cs == [s] + cs[1..] && i == [s] + i[1..];
    if Fits(F, cs, xs, ys) {
      InterpolantUnique(F, cs, ps, vs);
    }
  }

  // ---------- the Lagrange sum at zero ----------

  ghost function Differences<T>(F: Field<T>, xs: seq<T>, i: nat): (ds: seq<T>)
    requires i < |xs|
    ensures |ds| == |xs| - 1
  {
    var others := Without(xs, i);
    seq(|xs| - 1, j requires 0 <= j < |xs| - 1 => F.add(xs[i], others[j]))
  }

  /** The i-th Lagrange basis polynomial at zero. */
  ghost function Weight<T>(F: Field<T>, xs: seq<T>, i: nat): T
    requires i < |xs|
  {
    F.div(Prod(F, Without(xs, i)), Prod(F, Differences(F, xs, i)))
  }

  ghost function Terms<T>(F: Field<T>, xs: seq<T>, ys: seq<T>): (ts: seq<T>)
    requires |xs| == |ys|
    ensures |ts| == |xs|
  {
    seq(|xs|, i requires 0 <= i < |xs| => F.mul(ys[i], Weight(F, xs, i)))
  }

  ghost function Lagrange<T>(F: Field<T>, xs: seq<T>, ys: seq<T>): T
    requires |xs| == |ys|
  {
    Sum(F, Terms(F, xs, ys))
  }

  lemma DifferencesNonZero<T(!new)>(F: Field<T>, xs: seq<T>, i: nat)
    requires IsField(F) && Distinct(xs) && i < |xs|
    ensures Prod(F, Differences(F, xs, i)) != F.zero
  {
    var ds := Differences(F, xs, i);
    forall j | 0 <= j < |ds| ensures ds[j] != F.zero {
      assert Without(xs, i)[j] == if j < i then xs[j] else xs[j + 1];
      SumZeroIsEqual(F, xs[i], Without(xs, i)[j]);
    }
    ProdNonZero(F, ds);
  }

  /** Position of i once position t is gone, and of t once i is gone. */
  function Shifted(i: nat, t: nat): nat
    requires i != t
  {
    if i < t then i else i - 1
  }

  lemma WithoutSwap<T>(s: seq<T>, i: nat, t: nat)
    requires i < |s| && t < |s| && i != t
    ensures Without(s, i)[Shifted(t, i)] == s[t] && Without(s, t)[Shifted(i, t)] == s[i]
    ensures Without(Without(s, i), Shifted(t, i)) == Without(Without(s, t), Shifted(i, t))
  {
  }

  lemma DifferencesWithout<T(!new)>(F: Field<T>, xs: seq<T>, i: nat, t: nat)
    requires i < |xs| && t < |xs| && i != t
    ensures Differences(F, xs, i)[Shifted(t, i)] == F.add(xs[i], xs[t])
    ensures Without(Differences(F, xs, i), Shifted(t, i)) == Differences(F, Without(xs, t), Shifted(i, t))
  {
    WithoutSwap(xs, i, t);
  }

  lemma WithoutDistinct<T>(s: seq<T>, t: nat)
    requires Distinct(s) && t < |s|
    ensures Distinct(Without(s, t))
  {
  }

  /** Leaving the point t out changes the weight of i by the factor xs[t] / (xs[i] - xs[t]). */
  lemma WeightWithout<T(!new)>(F: Field<T>, xs: seq<T>, i: nat, t: nat)
    requires IsField(F) && Distinct(xs) && i < |xs| && t < |xs| && i != t
    ensures F.mul(F.add(xs[i], xs[t]), Weight(F, xs, i)) == F.mul(xs[t], Weight(F, Without(xs, t), Shifted(i, t)))
  {
    var xs', i', t' := Without(xs, t), Shifted(i, t), Shifted(t, i);
    WithoutSwap(xs, i, t);
    DifferencesWithout(F, xs, i, t);
    ProdWithout(F, Without(xs, i), t');
    ProdWithout(F, Differences(F, xs, i), t');
    DifferencesNonZero(F, xs, i);
    WithoutDistinct(xs, t);
    DifferencesNonZero(F, xs', i');
    WeightRatio(F, xs[t], F.add(xs[i], xs[t]), Weight(F, xs, i), Weight(F, xs', i'),
                Prod(F, Without(xs', i')), Prod(F, Differences(F, xs', i')));
  }

  lemma WeightRatio<T(!new)>(F: Field<T>, x: T, d: T, w: T, w': T, num': T, den': T)
    requires IsField(F) && den' != F.zero && F.mul(d, den') != F.zero
    requires w == F.div(F.mul(x, num'), F.mul(d, den')) && w' == F.div(num', den')
    ensures F.mul(d, w) == F.mul(x, w')
  {
    assert F.Divides(F.mul(x, num'), F.mul(d, den')) && F.Divides(num', den');
    assert F.mul(F.mul(d, w), den') == F.mul(w, F.mul(d, den')) by {
      assert F.MulComm(d, w) && F.MulAssoc(w, d, den');
    }
    assert F.MulAssoc(x, w', den');
    Cancel(F, F.mul(d, w), F.mul(x, w'), den');
  }

  lemma TermWithout<T(!new)>(F: Field<T>, xs: seq<T>, y: T, i: nat, t: nat)
    requires IsField(F) && Distinct(xs) && i < |xs| && t < |xs| && i != t
    ensures F.mul(F.mul(F.add(xs[i], xs[t]), y), Weight(F, xs, i))
         == F.mul(xs[t], F.mul(y, Weight(F, Without(xs, t), Shifted(i, t))))
  {
    var d, w, w' := F.add(xs[i], xs[t]), Weight(F, xs, i), Weight(F, Without(xs, t), Shifted(i, t));
    WeightWithout(F, xs, i, t);
    assert F.MulComm(d, y) && F.MulAssoc(y, d, w);
    assert F.MulAssoc(y, xs[t], w') && F.MulComm(y, xs[t]) && F.MulAssoc(xs[t], y, w');
  }

  /** A factor x - xs[t] in the values removes the point t from the sum. */
  /** The term of the point left out vanishes. */
  lemma TermVanishes<T(!new)>(F: Field<T>, xs: seq<T>, y: T, t: nat)
    requires IsField(F) && t < |xs|
    ensures F.mul(F.mul(F.add(xs[t], xs[t]), y), Weight(F, xs, t)) == F.zero
  {
    assert F.AddSelf(xs[t]);
    MulZero(F, y);
    MulZero(F, Weight(F, xs, t));
  }

  lemma TermsWithout<T(!new)>(F: Field<T>, xs: seq<T>, ys: seq<T>, zs: seq<T>, t: nat, j: nat)
    requires IsField(F) && Distinct(xs) && |xs| == |ys| == |zs| && t < |xs| && j < |xs| - 1
    requires forall i :: 0 <= i < |xs| ==> zs[i] == F.mul(F.add(xs[i], xs[t]), ys[i])
    ensures Without(Terms(F, xs, zs), t)[j] == F.mul(xs[t], Terms(F, Without(xs, t), Without(ys, t))[j])
  {
    var i := if j < t then j else j + 1;
    TermWithout(F, xs, ys[i], i, t);
  }

  lemma LagrangeWithout<T(!new)>(F: Field<T>, xs: seq<T>, ys: seq<T>, zs: seq<T>, t: nat)
    requires IsField(F) && Distinct(xs) && |xs| == |ys| == |zs| && t < |xs|
    requires forall i :: 0 <= i < |xs| ==> zs[i] == F.mul(F.add(xs[i], xs[t]), ys[i])
    ensures Lagrange(F, xs, zs) == F.mul(xs[t], Lagrange(F, Without(xs, t), Without(ys, t)))
  {
    var ts := Terms(F, xs, zs);
    SumWithout(F, ts, t);
    TermVanishes(F, xs, ys[t], t);
    var rest, rest' := Without(ts, t), Terms(F, Without(xs, t), Without(ys, t));
    forall j | 0 <= j < |rest| ensures rest[j] == F.mul(xs[t], rest'[j]) {
      TermsWithout(F, xs, ys, zs, t, j);
    }
    SumScale(F, xs[t], rest', rest);
    AddZeroLeft(F, Sum(F, rest));
  }

  lemma LagrangeAdd<T(!new)>(F: Field<T>, xs: seq<T>, ys: seq<T>, zs: seq<T>, rs: seq<T>)
    requires IsField(F) && |xs| == |ys| == |zs| == |rs|
    requires forall i :: 0 <= i < |xs| ==> rs[i] == F.add(ys[i], zs[i])
    ensures Lagrange(F, xs, rs) == F.add(Lagrange(F, xs, ys), Lagrange(F, xs, zs))
  {
    forall i | 0 <= i < |xs|
      ensures Terms(F, xs, rs)[i] == F.add(Terms(F, xs, ys)[i], Terms(F, xs, zs)[i])
    {
      DistributesLeft(F, ys[i], zs[i], Weight(F, xs, i));
    }
    SumAdd(F, Terms(F, xs, ys), Terms(F, xs, zs), Terms(F, xs, rs));
  }

  lemma LagrangeScale<T(!new)>(F: Field<T>, c: T, xs: seq<T>, ys: seq<T>, rs: seq<T>)
    requires IsField(F) && |xs| == |ys| == |rs|
    requires forall i :: 0 <= i < |xs| ==> rs[i] == F.mul(c, ys[i])
    ensures Lagrange(F, xs, rs) == F.mul(c, Lagrange(F, xs, ys))
  {
    forall i | 0 <= i < |xs| ensures Terms(F, xs, rs)[i] == F.mul(c, Terms(F, xs, ys)[i]) {
      assert F.MulAssoc(c, ys[i], Weight(F, xs, i));
    }
    SumScale(F, c, Terms(F, xs, ys), Terms(F, xs, rs));
  }

  ghost function Ones<T>(F: Field<T>, n: nat): (s: seq<T>)
    ensures |s| == n && forall i :: 0 <= i < n ==> s[i] == F.one
  {
    seq(n, _ => F.one)
  }

  lemma LagrangeSingle<T(!new)>(F: Field<T>, xs: seq<T>, ys: seq<T>)
    requires IsField(F) && |xs| == |ys| == 1
    ensures Lagrange(F, xs, ys) == ys[0]
  {
    assert Without(xs, 0) == [] && Differences(F, xs, 0) == [];
    var w := F.div(F.one, F.one);
    assert F.Divides(F.one, F.one) && F.MulOne(w) && F.MulOne(ys[0]);
    assert Weight(F, xs, 0) == w == F.one;
    assert Terms(F, xs, ys) == [ys[0]];
    assert Sum(F, [ys[0]][..0]) == F.zero;
    assert Sum(F, [ys[0]]) == F.add(F.zero, ys[0]);
    AddZeroLeft(F, ys[0]);
  }

  /** The weights of any distinct points add up to one. */
  lemma {:induction false} WeightsSumToOne<T(!new)>(F: Field<T>, xs: seq<T>)
    requires IsField(F) && Distinct(xs) && xs != []
    ensures Lagrange(F, xs, Ones(F, |xs|)) == F.one
    decreases |xs|
  {
    if |xs| == 1 {
      LagrangeSingle(F, xs, Ones(F, 1));
    } else {
      var n, a, b := |xs|, xs[0], xs[1];
      var ones := Ones(F, n);
      var as' := seq(n, i requires 0 <= i < n => F.add(xs[i], a));
      var bs := seq(n, i requires 0 <= i < n => F.add(xs[i], b));
      var both := seq(n, i requires 0 <= i < n => F.mul(F.add(a, b), ones[i]));
      LeaveOneOut(F, xs, as', 0);
      LeaveOneOut(F, xs, bs, 1);
      forall i | 0 <= i < n ensures both[i] == F.add(as'[i], bs[i]) {
        assert F.MulOne(F.add(a, b));
        assert F.AddComm(xs[i], a);
        AddExchange(F, a, xs[i], xs[i], b);
        assert F.AddAssoc(a, xs[i], F.add(xs[i], b));
        AddTwice(F, b, xs[i]);
      }
      LagrangeAdd(F, xs, as', bs, both);
      LagrangeScale(F, F.add(a, b), xs, ones, both);
      SumZeroIsEqual(F, a, b);
      var s := Lagrange(F, xs, ones);
      assert F.MulComm(F.add(a, b), s);
      MulOneLeft(F, F.add(a, b));
      Cancel(F, s, F.one, F.add(a, b));
    }
  }

  lemma {:induction false} LeaveOneOut<T(!new)>(F: Field<T>, xs: seq<T>, zs: seq<T>, t: nat)
    requires IsField(F) && Distinct(xs) && t < |xs| && |xs| == |zs| && |xs| > 1
    requires forall i :: 0 <= i < |xs| ==> zs[i] == F.add(xs[i], xs[t])
    ensures Lagrange(F, xs, zs) == xs[t]
    decreases |xs|, 0
  {
    forall i | 0 <= i < |xs| ensures zs[i] == F.mul(F.add(xs[i], xs[t]), Ones(F, |xs|)[i]) {
      assert F.MulOne(zs[i]);
    }
    LagrangeWithout(F, xs, Ones(F, |xs|), zs, t);
    assert Distinct(Without(xs, t));
    WeightsSumToOne(F, Without(xs, t));
    assert Without(Ones(F, |xs|), t) == Ones(F, |xs| - 1);
    assert F.MulOne(xs[t]);
  }

  ghost function Values<T>(F: Field<T>, cs: seq<T>, xs: seq<T>): (ys: seq<T>)
    ensures |ys| == |xs|
  {
    seq(|xs|, i requires 0 <= i < |xs| => Eval(F, cs, xs[i]))
  }

  /** Lagrange interpolation: at least as many distinct points as coefficients
      give back the polynomial's value at zero. */
  lemma {:induction false} LagrangeRecovers<T(!new)>(F: Field<T>, cs: seq<T>, xs: seq<T>)
    requires IsField(F) && Distinct(xs) && cs != [] && |cs| <= |xs|
    ensures Lagrange(F, xs, Values(F, cs, xs)) == Eval(F, cs, F.zero)
    decreases |xs|
  {
    var n, c := |xs|, xs[0];
    var p, q := Eval(F, cs, c), Quotient(F, cs, c);
    var ones := Ones(F, n);
    var constant := seq(n, i requires 0 <= i < n => F.mul(p, ones[i]));
    LagrangeScale(F, p, xs, ones, constant);
    WeightsSumToOne(F, xs);
    assert F.MulOne(p);
    var qs := Values(F, q, xs);
    var zs := seq(n, i requires 0 <= i < n => F.mul(F.add(xs[i], c), qs[i]));
    LagrangeWithout(F, xs, qs, zs, 0);
    assert Without(qs, 0) == Values(F, q, Without(xs, 0));
    forall i | 0 <= i < n ensures Values(F, cs, xs)[i] == F.add(constant[i], zs[i]) {
      QuotientEval(F, cs, c, xs[i]);
    }
    LagrangeAdd(F, xs, constant, zs, Values(F, cs, xs));
    QuotientEval(F, cs, c, F.zero);
    AddZeroLeft(F, c);
    if q == [] {
      LagrangeZero(F, Without(xs, 0), Without(qs, 0));
    } else {
      assert Distinct(Without(xs, 0));
      LagrangeRecovers(F, q, Without(xs, 0));
    }
  }

  lemma LagrangeZero<T(!new)>(F: Field<T>, xs: seq<T>, ys: seq<T>)
    requires IsField(F) && |xs| == |ys|
    requires forall i :: 0 <= i < |ys| ==> ys[i] == F.zero
    ensures Lagrange(F, xs, ys) == F.zero
  {
    forall i | 0 <= i < |ys| ensures ys[i] == F.mul(F.zero, ys[i]) { MulZero(F, ys[i]); }
    LagrangeScale(F, F.zero, xs, ys, ys);
    MulZero(F, Lagrange(F, xs, ys));
  }

  lemma {:induction false} EvalTrailingZero<T(!new)>(F: Field<T>, cs: seq<T>, x: T)
    requires IsField(F)
    ensures Eval(F, cs + [F.zero], x) == Eval(F, cs, x)
  {
    if cs == [] {
      assert ([] + [F.zero])[1..] == [];
      assert F.MulComm(x, F.zero) && F.AddZero(F.zero);
      MulZero(F, x);
    } else {
      assert (cs + [F.zero])[1..] == cs[1..] + [F.zero];
      EvalTrailingZero(F, cs[1..], x);
    }
  }

  /** One point fewer than coefficients, none of them zero: the Lagrange sum is still the
      constant exactly when the top coefficient is zero. */
  lemma OnePointShort<T(!new)>(F: Field<T>, cs: seq<T>, xs: seq<T>)
    requires IsField(F) && Distinct(xs) && F.zero !in xs && xs != [] && |cs| == |xs| + 1
    ensures Lagrange(F, xs, Values(F, cs, xs)) == cs[0] <==> cs[|xs|] == F.zero
  {
    var ys, front := Values(F, cs, xs), cs[..|xs|];
    var p := Interpolant(F, xs, ys);
    InterpolantFits(F, xs, ys);
    assert Values(F, p, xs) == ys;
    LagrangeRecovers(F, p, xs);
    EvalAtZero(F, p);
    var q := p + [F.zero];
    forall i | 0 <= i < |xs| ensures Eval(F, q, xs[i]) == ys[i] { EvalTrailingZero(F, p, xs[i]); }
    if p[0] == cs[0] {
      WithGivenConstant(F, cs[0], xs, ys, cs);
      WithGivenConstant(F, cs[0], xs, ys, q);
      assert cs[|xs|] == cs[1..][|xs| - 1] && q[|xs|] == q[1..][|xs| - 1];
    }
    if cs[|xs|] == F.zero {
      assert cs == front + [F.zero];
      forall i | 0 <= i < |xs| ensures Eval(F, front, xs[i]) == ys[i] { EvalTrailingZero(F, front, xs[i]); }
      InterpolantUnique(F, front, xs, ys);
    }
  }
}
