/** Shamir secret sharing: src/sss.rs, `poly_eval`, `split` and `reconstruct`.
    The tables are passed in, and the random coefficients are an argument. */
module Shamir {
  import opened Basics
  import opened Fields
  import opened Interpolation
  import opened Gf256
  import opened ByteIndex

  datatype Shard = Shard(x: bv8, y: seq<bv8>)

  // ---------- specification ----------

  ghost predicate Shape(rand: seq<seq<bv8>>, bytes: nat, width: nat) {
    |rand| == bytes && forall b :: 0 <= b < bytes ==> |rand[b]| == width
  }

  /** The share of `secret` at x: one polynomial per byte, the byte as its constant. */
  ghost function ShardAt(secret: seq<bv8>, rand: seq<seq<bv8>>, x: bv8): (s: Shard)
    requires |rand| == |secret|
    ensures |s.y| == |secret|
  {
    Shard(x, seq(|secret|, b requires 0 <= b < |secret| => Eval(GF(), [secret[b]] + rand[b], x)))
  }

  ghost predicate ValidSplit(secret: seq<bv8>, k: int, n: int) { 2 <= k <= n <= 255 && secret != [] }

  ghost function Xs(shards: seq<Shard>): (xs: seq<bv8>)
    ensures |xs| == |shards|
  {
    seq(|shards|, i requires 0 <= i < |shards| => shards[i].x)
  }

  /** Every shard has a byte b. */
  predicate Readable(shards: seq<Shard>, b: nat) { forall i :: 0 <= i < |shards| ==> b < |shards[i].y| }

  /** Every shard is at least as long as the first, whose length `reconstruct` goes by. */
  predicate Rectangular(shards: seq<Shard>) {
    forall i :: 0 <= i < |shards| ==> |shards[0].y| <= |shards[i].y|
  }

  ghost function Column(shards: seq<Shard>, b: nat): (ys: seq<bv8>)
    requires Readable(shards, b)
    ensures |ys| == |shards|
  {
    seq(|shards|, i requires 0 <= i < |shards| => shards[i].y[b])
  }

  datatype Outcome = Returned(result: Result<seq<bv8>>) | Panicked

  /** A shard shorter than the first makes the indexing panic. */
  ghost function Reconstruction(shards: seq<Shard>): Outcome {
    if shards == [] then Returned(Err(NotEnoughShards))
    else if !Distinct(Xs(shards)) then Returned(Err(DuplicateX))
    else if !Rectangular(shards) then Panicked
    else
      Returned(Ok(seq(|shards[0].y|, b requires 0 <= b < |shards[0].y| =>
        Lagrange(GF(), Xs(shards), Column(shards, b)))))
  }

  // ---------- the code ----------

  /** The table operations are the field's. */
  lemma FieldOps(t: Tables, a: bv8, b: bv8)
    requires t.Valid()
    ensures GfMul(t, a, b) == GF().mul(a, b) && GfAdd(a, b) == GF().add(a, b)
  {
    GfMulIsProduct(t, a, b);
    GFProduct(a, b);
  }

  method PolyEval(t: Tables, coeffs: seq<bv8>, x: bv8) returns (result: bv8)
    requires t.Valid()
    ensures result == Eval(GF(), coeffs, x)
  {
    ghost var F := GF();
    GFIsField();
    result := 0;
    var xPow: bv8 := 1;
    assert coeffs[0..] == coeffs;
    MulOneLeft(F, Eval(F, coeffs, x));
    AddZeroLeft(F, Eval(F, coeffs, x));
    for i := 0 to |coeffs|
      invariant F.add(result, F.mul(xPow, Eval(F, coeffs[i..], x))) == Eval(F, coeffs, x)
    {
      assert coeffs[i..][1..] == coeffs[i + 1..];
      EvalStep(F, result, xPow, coeffs[i..], x);
      FieldOps(t, coeffs[i], xPow);
      FieldOps(t, result, GfMul(t, coeffs[i], xPow));
      FieldOps(t, xPow, x);
      result := GfAdd(result, GfMul(t, coeffs[i], xPow));
      xPow := GfMul(t, xPow, x);
    }
    MulZero(F, xPow);
    assert F.AddZero(result);
  }

  method Split(t: Tables, secret: seq<bv8>, k: nat, n: nat, rand: seq<seq<bv8>>) returns (r: Result<seq<Shard>>)
    requires t.Valid()
    requires ValidSplit(secret, k, n) ==> Shape(rand, |secret|, k - 1)
    ensures !(2 <= k <= n <= 255) ==> r == Err(InvalidThreshold)
    ensures 2 <= k <= n <= 255 && secret == [] ==> r == Err(EmptySecret)
    ensures ValidSplit(secret, k, n) ==> r.Ok? && |r.value| == n
    ensures r.Ok? ==> forall i :: 0 <= i < n ==> r.value[i] == ShardAt(secret, rand, (i + 1) as bv8)
  {
    if k < 2 || k > n || n > 255 {
      return Err(InvalidThreshold);
    }
    if secret == [] {
      return Err(EmptySecret);
    }
    var allCoeffs := [];
    for b := 0 to |secret|
      invariant |allCoeffs| == b
      invariant forall c :: 0 <= c < b ==> allCoeffs[c] == [secret[c]] + rand[c]
    {
      allCoeffs := allCoeffs + [[secret[b]] + rand[b]];
    }
    var shards := [];
    for i := 1 to n + 1
      invariant |shards| == i - 1
      invariant forall j :: 0 <= j < i - 1 ==> shards[j] == ShardAt(secret, rand, (j + 1) as bv8)
    {
      var y := [];
      for b := 0 to |secret|
        invariant |y| == b
        invariant forall c :: 0 <= c < b ==> y[c] == ShardAt(secret, rand, i as bv8).y[c]
      {
        var v := PolyEval(t, allCoeffs[b], i as bv8);
        y := y + [v];
      }
      assert y == ShardAt(secret, rand, i as bv8).y;
      shards := shards + [Shard(i as bv8, y)];
    }
    r := Ok(shards);
  }

  /** The processed part of Without(s, i) after j positions of s. */
  lemma WithoutPrefix<T>(s: seq<T>, i: nat, j: nat)
    requires i < |s| && j < |s|
    ensures j < i ==> Without(s, i)[..j + 1] == Without(s, i)[..j] + [s[j]]
    ensures j > i ==> Without(s, i)[..j] == Without(s, i)[..j - 1] + [s[j]]
  {
  }

  ghost function Done(i: nat, j: nat): nat { if j <= i then j else j - 1 }

  lemma ProdSnoc<T(!new)>(F: Field<T>, s: seq<T>, v: T)
    ensures Prod(F, s + [v]) == F.mul(Prod(F, s), v)
    ensures Sum(F, s + [v]) == F.add(Sum(F, s), v)
  {
    assert (s + [v])[..|s|] == s;
  }

  lemma DifferencePrefix(xs: seq<bv8>, i: nat, j: nat)
    requires i < |xs| && j < |xs| && i != j
    ensures var ds := Differences(GF(), xs, i);
            ds[..Done(i, j + 1)] == ds[..Done(i, j)] + [GF().add(xs[i], xs[j])]
  {
  }

  /** One round of the inner loop of `reconstruct`. */
  lemma BasisStep(t: Tables, xs: seq<bv8>, i: nat, j: nat, num: bv8, den: bv8)
    requires t.Valid() && i < |xs| && j < |xs| && i != j
    requires num == Prod(GF(), Without(xs, i)[..Done(i, j)])
    requires den == Prod(GF(), Differences(GF(), xs, i)[..Done(i, j)])
    ensures GfMul(t, num, xs[j]) == Prod(GF(), Without(xs, i)[..Done(i, j + 1)])
    ensures GfMul(t, den, GfSub(xs[i], xs[j])) == Prod(GF(), Differences(GF(), xs, i)[..Done(i, j + 1)])
  {
    var F := GF();
    FieldOps(t, xs[i], xs[j]);
    FieldOps(t, num, xs[j]);
    FieldOps(t, den, GfSub(xs[i], xs[j]));
    WithoutPrefix(xs, i, j);
    DifferencePrefix(xs, i, j);
    ProdSnoc(F, Without(xs, i)[..Done(i, j)], xs[j]);
    ProdSnoc(F, Differences(F, xs, i)[..Done(i, j)], F.add(xs[i], xs[j]));
  }

  lemma BasisDone(t: Tables, xs: seq<bv8>, i: nat, num: bv8, den: bv8)
    requires t.Valid() && i < |xs| && Distinct(xs)
    requires num == Prod(GF(), Without(xs, i)[..Done(i, |xs|)])
    requires den == Prod(GF(), Differences(GF(), xs, i)[..Done(i, |xs|)])
    ensures GfDiv(t, num, den) == Ok(Weight(GF(), xs, i))
  {
    GFIsField();
    assert Without(xs, i)[..|xs| - 1] == Without(xs, i);
    assert Differences(GF(), xs, i)[..|xs| - 1] == Differences(GF(), xs, i);
    DifferencesNonZero(GF(), xs, i);
    DivisionAgrees(t, num, den);
  }

  /** The basis L_i(0), the quotient of the two running products. */
  method Basis(t: Tables, shards: seq<Shard>, i: nat) returns (r: Result<bv8>)
    requires t.Valid() && i < |shards| && Distinct(Xs(shards))
    ensures r == Ok(Weight(GF(), Xs(shards), i))
  {
    ghost var xs := Xs(shards);
    var numerator: bv8, denominator: bv8 := 1, 1;
    for j := 0 to |shards|
      invariant numerator == Prod(GF(), Without(xs, i)[..Done(i, j)])
      invariant denominator == Prod(GF(), Differences(GF(), xs, i)[..Done(i, j)])
    {
      if i != j {
        BasisStep(t, xs, i, j, numerator, denominator);
        numerator := GfMul(t, numerator, shards[j].x);
        denominator := GfMul(t, denominator, GfSub(shards[i].x, shards[j].x));
      }
    }
    BasisDone(t, xs, i, numerator, denominator);
    r := GfDiv(t, numerator, denominator);
  }

  lemma DivisionAgrees(t: Tables, a: bv8, b: bv8)
    requires t.Valid() && b != 0
    ensures GfDiv(t, a, b) == Ok(GF().div(a, b))
  {
    var F := GF();
    GFIsField();
    GfDivUndoesProduct(t, a, b);
    var q := GfDiv(t, a, b).value;
    GFProduct(q, b);
    assert F.Divides(a, b);
    Cancel(F, q, F.div(a, b), b);
  }

  lemma ValueStep(t: Tables, terms: seq<bv8>, i: nat, value: bv8, y: bv8, basis: bv8)
    requires t.Valid() && i < |terms| && value == Sum(GF(), terms[..i]) && terms[i] == GF().mul(y, basis)
    ensures GfAdd(value, GfMul(t, y, basis)) == Sum(GF(), terms[..i + 1])
  {
    FieldOps(t, y, basis);
    FieldOps(t, value, GfMul(t, y, basis));
    assert terms[..i + 1] == terms[..i] + [terms[i]];
    ProdSnoc(GF(), terms[..i], terms[i]);
  }

  /** One byte of the secret.  The division inside never fails, so the error branch of
      the source after it is dead. */
  method Value(t: Tables, shards: seq<Shard>, b: nat) returns (value: bv8)
    requires t.Valid() && shards != [] && Readable(shards, b) && Distinct(Xs(shards))
    ensures value == Lagrange(GF(), Xs(shards), Column(shards, b))
  {
    ghost var terms := Terms(GF(), Xs(shards), Column(shards, b));
    value := 0;
    for i := 0 to |shards|
      invariant value == Sum(GF(), terms[..i])
    {
      var basis := Basis(t, shards, i);
      ValueStep(t, terms, i, value, shards[i].y[b], basis.value);
      value := GfAdd(value, GfMul(t, shards[i].y[b], basis.value));
    }
    assert terms[..|shards|] == terms;
  }

  lemma {:induction false} SetOfSeq<T>(s: seq<T>, v: set<T>)
    requires forall x :: x in v <==> x in s
    ensures |v| <= |s| && (|v| == |s| <==> Distinct(s))
  {
    if s != [] {
      var r := s[1..];
      SetOfSeq(r, set x | x in r);
      if s[0] in r {
        assert v == set x | x in r;
        var j :| 0 <= j < |r| && r[j] == s[0];
        assert s[0] == s[j + 1];
      } else {
        assert v == (set x | x in r) + {s[0]};
        assert Distinct(s) <==> Distinct(r) by {
          if Distinct(s) {
            assert forall i, j :: 0 <= i < j < |r| ==> r[i] == s[i + 1] && r[j] == s[j + 1];
          }
        }
      }
    }
  }

  /** Sorting and dedup keep one x per value, so the set of x values is what is counted. */
  method Reconstruct(t: Tables, shards: seq<Shard>) returns (r: Outcome)
    requires t.Valid()
    ensures r == Reconstruction(shards)
    ensures r == Returned(Err(NotEnoughShards)) <==> shards == []
    ensures r == Returned(Err(DuplicateX)) <==> shards != [] && !Distinct(Xs(shards))
    ensures r == Panicked <==> shards != [] && Distinct(Xs(shards)) && !Rectangular(shards)
    ensures r != Returned(Err(DivisionByZero))
  {
    if shards == [] {
      return Returned(Err(NotEnoughShards));
    }
    var xs := set s | s in shards :: s.x;
    assert forall x :: x in xs <==> x in Xs(shards) by {
      forall x | x in xs ensures x in Xs(shards) {
        var i :| 0 <= i < |shards| && shards[i].x == x;
        assert Xs(shards)[i] == x;
      }
    }
    SetOfSeq(Xs(shards), xs);
    if |xs| != |shards| {
      return Returned(Err(DuplicateX));
    }
    var secret := [];
    for b := 0 to |shards[0].y|
      invariant |secret| == b
      invariant forall c :: 0 <= c < b ==> Readable(shards, c)
      invariant forall c :: 0 <= c < b ==> secret[c] == Lagrange(GF(), Xs(shards), Column(shards, c))
    {
      if !Readable(shards, b) {
        return Panicked;
      }
      var value := Value(t, shards, b);
      secret := secret + [value];
    }
    AllReadable(shards);
    assert secret == Reconstruction(shards).result.value;
    r := Returned(Ok(secret));
  }

  lemma AllReadable(shards: seq<Shard>)
    requires shards != [] && forall c :: 0 <= c < |shards[0].y| ==> Readable(shards, c)
    ensures Rectangular(shards)
  {
    if shards[0].y != [] { assert Readable(shards, |shards[0].y| - 1); }
  }

  // ---------- the theorems ----------

  /** Any k or more shares with different x give back the secret. */
  lemma SharesRecoverSecret(secret: seq<bv8>, k: nat, rand: seq<seq<bv8>>, picked: seq<Shard>)
    requires secret != [] && k >= 1 && Shape(rand, |secret|, k - 1)
    requires |picked| >= k && Distinct(Xs(picked))
    requires forall i :: 0 <= i < |picked| ==> picked[i] == ShardAt(secret, rand, picked[i].x)
    ensures Reconstruction(picked) == Returned(Ok(secret))
  {
    GFIsField();
    var xs := Xs(picked);
    assert forall i :: 0 <= i < |picked| ==> |picked[i].y| == |secret|;
    forall b | 0 <= b < |secret| ensures Lagrange(GF(), xs, Column(picked, b)) == secret[b] {
      var cs := [secret[b]] + rand[b];
      assert Column(picked, b) == Values(GF(), cs, xs);
      LagrangeRecovers(GF(), cs, xs);
      EvalAtZero(GF(), cs);
    }
    assert Reconstruction(picked).result.value == secret;
  }

  lemma SplitXsDiffer(i: nat, j: nat)
    requires 1 <= i < j <= 255
    ensures i as bv8 != j as bv8 && i as bv8 != 0
  {
    ByteOf(i);
    ByteOf(j);
    ByteOf(0);
  }

  /** `reconstruct` after `split`, for every choice of k or more of its shards in any order. */
  lemma SplitReconstruct(secret: seq<bv8>, k: nat, n: nat, rand: seq<seq<bv8>>, shards: seq<Shard>, picks: seq<nat>)
    requires ValidSplit(secret, k, n) && Shape(rand, |secret|, k - 1)
    requires |shards| == n && forall i :: 0 <= i < n ==> shards[i] == ShardAt(secret, rand, (i + 1) as bv8)
    requires |picks| >= k && Distinct(picks) && forall i :: 0 <= i < |picks| ==> picks[i] < n
    ensures var picked := seq(|picks|, i requires 0 <= i < |picks| => shards[picks[i]]);
            Reconstruction(picked) == Returned(Ok(secret))
  {
    var picked := seq(|picks|, i requires 0 <= i < |picks| => shards[picks[i]]);
    forall i, j | 0 <= i < j < |picks| ensures Xs(picked)[i] != Xs(picked)[j] {
      assert picked[i] == shards[picks[i]] && picked[j] == shards[picks[j]];
      var a, b := picks[i] + 1, picks[j] + 1;
      SplitXsDiffer(if a < b then a else b, if a < b then b else a);
    }
    SharesRecoverSecret(secret, k, rand, picked);
  }

  /** One share short: the secret comes out exactly when the top coefficient of every byte's
      polynomial happens to be zero. */
  lemma OneShareShort(secret: seq<bv8>, k: nat, rand: seq<seq<bv8>>, picked: seq<Shard>)
    requires secret != [] && k >= 2 && Shape(rand, |secret|, k - 1)
    requires |picked| == k - 1 && Distinct(Xs(picked)) && 0 !in Xs(picked)
    requires forall i :: 0 <= i < |picked| ==> picked[i] == ShardAt(secret, rand, picked[i].x)
    ensures Reconstruction(picked) == Returned(Ok(secret)) <==> forall b :: 0 <= b < |secret| ==> rand[b][k - 2] == 0
  {
    GFIsField();
    var xs := Xs(picked);
    assert forall i :: 0 <= i < |picked| ==> |picked[i].y| == |secret|;
    forall b | 0 <= b < |secret|
      ensures Lagrange(GF(), xs, Column(picked, b)) == secret[b] <==> rand[b][k - 2] == 0
    {
      var cs := [secret[b]] + rand[b];
      assert Column(picked, b) == Values(GF(), cs, xs);
      OnePointShort(GF(), cs, xs);
    }
    var r := Reconstruction(picked).result.value;
    assert r == secret <==> forall b :: 0 <= b < |secret| ==> r[b] == secret[b];
  }

  /** The shares `ys` at the points `xs` are the ones `rand` produces. */
  ghost predicate Produces(secret: seq<bv8>, rand: seq<seq<bv8>>, xs: seq<bv8>, ys: seq<seq<bv8>>)
    requires |rand| == |secret| && |xs| == |ys|
  {
    forall j :: 0 <= j < |xs| ==> ShardAt(secret, rand, xs[j]).y == ys[j]
  }

  ghost function CoefficientsFor(secret: seq<bv8>, xs: seq<bv8>, ys: seq<seq<bv8>>): (rand: seq<seq<bv8>>)
    requires |xs| == |ys| && forall j :: 0 <= j < |ys| ==> |ys[j]| == |secret|
    ensures Shape(rand, |secret|, |xs|)
  {
    seq(|secret|, b requires 0 <= b < |secret| =>
      Interpolant(GF(), [0] + xs, [secret[b]] + seq(|ys|, j requires 0 <= j < |ys| => ys[j][b]))[1..])
  }

  /** Perfect secrecy: whatever k - 1 shares at nonzero points were seen, every secret of
      the right length explains them, through exactly one choice of the coefficients. */
  lemma FewerSharesFixNothing(secret: seq<bv8>, xs: seq<bv8>, ys: seq<seq<bv8>>, rand: seq<seq<bv8>>)
    requires |xs| == |ys| && Distinct(xs) && 0 !in xs
    requires forall j :: 0 <= j < |ys| ==> |ys[j]| == |secret|
    requires Shape(rand, |secret|, |xs|)
    ensures Produces(secret, rand, xs, ys) <==> rand == CoefficientsFor(secret, xs, ys)
  {
    var F := GF();
    GFIsField();
    forall b | 0 <= b < |secret|
      ensures (forall j :: 0 <= j < |xs| ==> Eval(F, [secret[b]] + rand[b], xs[j]) == ys[j][b])
          <==> rand[b] == CoefficientsFor(secret, xs, ys)[b]
    {
      var column := seq(|ys|, j requires 0 <= j < |ys| => ys[j][b]);
      WithGivenConstant(F, secret[b], xs, column, [secret[b]] + rand[b]);
    }
    if Produces(secret, rand, xs, ys) {
      forall b, j | 0 <= b < |secret| && 0 <= j < |xs|
        ensures Eval(F, [secret[b]] + rand[b], xs[j]) == ys[j][b]
      {
        assert ShardAt(secret, rand, xs[j]).y[b] == ys[j][b];
      }
    }
  }
}
