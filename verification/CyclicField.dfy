/** Fields presented by a generator, as the log/exp tables of src/sss.rs present
    theirs: multiplying by the generator is a linear map, every nonzero element
    is a power of the generator, and the powers repeat with a known period.

    The element type is abstract, so nothing here looks at the bits of a byte. */
module CyclicField {
  import opened Fields

  /** `shift` is multiplication by the indeterminate x; the generator is x + 1
      (the byte 3), so tripling is `a + shift(a)`. */
  datatype Space<!T> = Space(zero: T, add: (T, T) -> T, shift: T -> T)
  {
    ghost predicate AddAssoc(a: T, b: T, c: T) { add(add(a, b), c) == add(a, add(b, c)) }
    ghost predicate AddComm(a: T, b: T) { add(a, b) == add(b, a) }
    ghost predicate AddZero(a: T) { add(a, zero) == a }
    ghost predicate AddSelf(a: T) { add(a, a) == zero }
    ghost predicate ShiftLinear(a: T, b: T) { shift(add(a, b)) == add(shift(a), shift(b)) }

    function Triple(a: T): T { add(a, shift(a)) }
  }

  ghost predicate IsSpace<T(!new)>(S: Space<T>) {
    && (forall a, b, c :: S.AddAssoc(a, b, c))
    && (forall a, b :: S.AddComm(a, b))
    && (forall a :: S.AddZero(a))
    && (forall a :: S.AddSelf(a))
    && (forall a, b :: S.ShiftLinear(a, b))
  }

  /** Shift-and-add multiplication: the sum of shift^i(a) over the set bits i of b. */
  function Peasant<T>(S: Space<T>, a: T, b: bv16): T
    decreases b
  {
    if b == 0 then S.zero else S.add(Digit(S, a, b), Peasant(S, S.shift(a), b >> 1))
  }

  function Digit<T>(S: Space<T>, a: T, b: bv16): T { if b & 1 == 1 then a else S.zero }

  /** Shift-and-add as a loop does it: the sum r so far, and what is still to come. */
  function Owes<T>(S: Space<T>, r: T, a: T, b: bv16): T
    decreases b
  {
    if b == 0 then r else Owes(S, S.add(r, Digit(S, a, b)), S.shift(a), b >> 1)
  }

  ghost predicate IsSum<T(!new)>(S: Space<T>) {
    (forall a, b, c :: S.AddAssoc(a, b, c)) && (forall a :: S.AddZero(a))
  }

  lemma OwesNext<T>(S: Space<T>, r: T, a: T, b: bv16)
    requires b != 0
    ensures Owes(S, r, a, b) == Owes(S, S.add(r, Digit(S, a, b)), S.shift(a), b >> 1)
  {
  }

  lemma {:induction false} OwesIsPeasant<T(!new)>(S: Space<T>, r: T, a: T, b: bv16)
    requires IsSum(S)
    ensures Owes(S, r, a, b) == S.add(r, Peasant(S, a, b))
    decreases b
  {
    if b == 0 {
      assert S.AddZero(r);
    } else {
      var d, p := Digit(S, a, b), Peasant(S, S.shift(a), b >> 1);
      OwesIsPeasant(S, S.add(r, d), S.shift(a), b >> 1);
      assert S.AddAssoc(r, d, p);
    }
  }

  /** The generator's n-th power times a. */
  function Power<T>(S: Space<T>, n: nat, a: T): T {
    if n == 0 then a else S.Triple(Power(S, n - 1, a))
  }

  lemma Exchange<T(!new)>(S: Space<T>, a: T, b: T, c: T, d: T)
    requires IsSpace(S)
    ensures S.add(S.add(a, b), S.add(c, d)) == S.add(S.add(a, c), S.add(b, d))
  {
    assert S.AddAssoc(a, b, S.add(c, d)) && S.AddAssoc(b, c, d);
    assert S.AddComm(b, c);
    assert S.AddAssoc(c, b, d) && S.AddAssoc(a, c, S.add(b, d));
  }

  lemma ShiftZero<T(!new)>(S: Space<T>)
    requires IsSpace(S)
    ensures S.shift(S.zero) == S.zero && S.Triple(S.zero) == S.zero
  {
    assert S.AddSelf(S.zero) && S.ShiftLinear(S.zero, S.zero) && S.AddSelf(S.shift(S.zero));
  }

  lemma {:induction false} PeasantLinear<T(!new)>(S: Space<T>, a: T, c: T, b: bv16)
    requires IsSpace(S)
    ensures Peasant(S, S.add(a, c), b) == S.add(Peasant(S, a, b), Peasant(S, c, b))
    decreases b
  {
    assert S.AddZero(S.zero);
    if b != 0 {
      assert S.ShiftLinear(a, c);
      PeasantLinear(S, S.shift(a), S.shift(c), b >> 1);
      Exchange(S, Digit(S, a, b), Digit(S, c, b),
               Peasant(S, S.shift(a), b >> 1), Peasant(S, S.shift(c), b >> 1));
    }
  }

  lemma {:induction false} PeasantShift<T(!new)>(S: Space<T>, a: T, b: bv16)
    requires IsSpace(S)
    ensures Peasant(S, S.shift(a), b) == S.shift(Peasant(S, a, b))
    decreases b
  {
    ShiftZero(S);
    if b != 0 {
      PeasantShift(S, S.shift(a), b >> 1);
      assert S.ShiftLinear(Digit(S, a, b), Peasant(S, S.shift(a), b >> 1));
    }
  }

  lemma {:induction false} PeasantPower<T(!new)>(S: Space<T>, n: nat, a: T, b: bv16)
    requires IsSpace(S)
    ensures Peasant(S, Power(S, n, a), b) == Power(S, n, Peasant(S, a, b))
  {
    if n != 0 {
      var p := Power(S, n - 1, a);
      PeasantPower(S, n - 1, a, b);
      PeasantLinear(S, p, S.shift(p), b);
      PeasantShift(S, p, b);
    }
  }

  /** `h` carries one space's operations to another's at the given arguments. */
  ghost predicate CarriesAdd<A, B>(S: Space<A>, T: Space<B>, h: A -> B, a: A, b: A) {
    h(S.add(a, b)) == T.add(h(a), h(b))
  }

  ghost predicate CarriesShift<A, B>(S: Space<A>, T: Space<B>, h: A -> B, a: A) {
    h(S.shift(a)) == T.shift(h(a))
  }

  lemma {:induction false} PeasantMap<A(!new), B>(S: Space<A>, T: Space<B>, h: A -> B, a: A, b: bv16)
    requires h(S.zero) == T.zero
    requires forall a, b :: CarriesAdd(S, T, h, a, b)
    requires forall a :: CarriesShift(S, T, h, a)
    ensures Peasant(T, h(a), b) == h(Peasant(S, a, b))
    decreases b
  {
    if b != 0 {
      assert CarriesShift(S, T, h, a);
      PeasantMap(S, T, h, S.shift(a), b >> 1);
      assert CarriesAdd(S, T, h, Digit(S, a, b), Peasant(S, S.shift(a), b >> 1));
    }
  }

  lemma PeasantStep<T(!new)>(S: Space<T>, a: T, b: bv16)
    requires IsSpace(S)
    ensures Peasant(S, a, b) == S.add(Digit(S, a, b), Peasant(S, S.shift(a), b >> 1))
  {
    assert S.AddZero(S.zero);
  }

  /** The eight digits of a byte, written out. */
  lemma PeasantByte<T(!new)>(S: Space<T>, a: T, b: bv16)
    requires IsSpace(S) && b < 256
    ensures
      var a1 := S.shift(a); var a2 := S.shift(a1); var a3 := S.shift(a2); var a4 := S.shift(a3);
      var a5 := S.shift(a4); var a6 := S.shift(a5); var a7 := S.shift(a6);
      Peasant(S, a, b) ==
      S.add(Digit(S, a, b), S.add(Digit(S, a1, b >> 1), S.add(Digit(S, a2, b >> 2),
      S.add(Digit(S, a3, b >> 3), S.add(Digit(S, a4, b >> 4), S.add(Digit(S, a5, b >> 5),
      S.add(Digit(S, a6, b >> 6), Digit(S, a7, b >> 7))))))))
  {
    var a1 := S.shift(a); var a2 := S.shift(a1); var a3 := S.shift(a2); var a4 := S.shift(a3);
    var a5 := S.shift(a4); var a6 := S.shift(a5); var a7 := S.shift(a6);
    PeasantStep(S, a, b);       PeasantStep(S, a1, b >> 1); PeasantStep(S, a2, b >> 2);
    PeasantStep(S, a3, b >> 3); PeasantStep(S, a4, b >> 4); PeasantStep(S, a5, b >> 5);
    PeasantStep(S, a6, b >> 6); PeasantStep(S, a7, b >> 7);
    assert S.AddZero(Digit(S, a7, b >> 7));
  }

  lemma {:induction false} PowerAdd<T>(S: Space<T>, m: nat, n: nat, a: T)
    ensures Power(S, m + n, a) == Power(S, m, Power(S, n, a))
  {
    if m != 0 {
      PowerAdd(S, m - 1, n, a);
    }
  }

  lemma {:induction false} PowerLinear<T(!new)>(S: Space<T>, n: nat, a: T, b: T)
    requires IsSpace(S)
    ensures Power(S, n, S.add(a, b)) == S.add(Power(S, n, a), Power(S, n, b))
  {
    if n != 0 {
      var p, q := Power(S, n - 1, a), Power(S, n - 1, b);
      PowerLinear(S, n - 1, a, b);
      assert S.ShiftLinear(p, q);
      Exchange(S, p, q, S.shift(p), S.shift(q));
    }
  }

  lemma {:induction false} PowerZero<T(!new)>(S: Space<T>, n: nat)
    requires IsSpace(S)
    ensures Power(S, n, S.zero) == S.zero
  {
    ShiftZero(S);
    if n != 0 {
      PowerZero(S, n - 1);
    }
  }

  /** Whole periods can be dropped from an exponent. */
  lemma {:induction false} PowerPeriods<T>(S: Space<T>, period: nat, k: nat, n: nat, a: T)
    requires Power(S, period, a) == a
    ensures Power(S, n + k * period, a) == Power(S, n, a)
  {
    if k != 0 {
      assert n + k * period == (n + (k - 1) * period) + period;
      PowerAdd(S, n + (k - 1) * period, period, a);
      PowerPeriods(S, period, k - 1, n, a);
    }
  }

  /** A presentation by tables: `log` finds the exponent of every nonzero element. */
  datatype Tabled<!T> = Tabled(space: Space<T>, one: T, order: nat, log: T -> nat)
  {
    function Exp(n: nat): T { Power(space, n, one) }

    ghost predicate LogInverts(a: T) { log(a) < order && (a != space.zero ==> Exp(log(a)) == a) }

    /** The product through the logarithms; the sum of two of them is below 2 * order. */
    ghost function Times(a: T, b: T): T {
      if a == space.zero || b == space.zero then space.zero
      else
        var n := log(a) + log(b);
        Exp(if n >= order then n - order else n)
    }

    ghost function Over(a: T, b: T): T {
      if a == space.zero || b == space.zero || log(b) > log(a) + order then space.zero
      else
        var n := log(a) + order - log(b);
        Exp(if n >= order then n - order else n)
    }
  }

  ghost predicate IsTabled<T(!new)>(G: Tabled<T>) {
    && IsSpace(G.space)
    && G.one != G.space.zero
    && G.Exp(G.order) == G.one
    && forall a :: G.LogInverts(a)
  }

  lemma ExpReduced<T(!new)>(G: Tabled<T>, n: nat)
    requires IsTabled(G) && n >= G.order
    ensures G.Exp(n) == G.Exp(n - G.order)
  {
    PowerAdd(G.space, n - G.order, G.order, G.one);
  }

  /** A power of the generator is never zero: some further power leads back to one. */
  lemma {:induction false} ExpNonZero<T(!new)>(G: Tabled<T>, n: nat)
    requires IsTabled(G)
    ensures G.Exp(n) != G.space.zero
  {
    assert G.LogInverts(G.one);
    if n <= G.order {
      PowerAdd(G.space, G.order - n, n, G.one);
      PowerZero(G.space, G.order - n);
    } else {
      ExpReduced(G, n);
      ExpNonZero(G, n - G.order);
    }
  }

  /** Multiplying by a nonzero element is applying a power of the linear map. */
  lemma TimesIsPower<T(!new)>(G: Tabled<T>, a: T, b: T)
    requires IsTabled(G) && a != G.space.zero
    ensures G.Times(a, b) == Power(G.space, G.log(a), b)
  {
    PowerZero(G.space, G.log(a));
    if b != G.space.zero {
      assert G.LogInverts(a) && G.LogInverts(b);
      PowerAdd(G.space, G.log(a), G.log(b), G.one);
      if G.log(a) + G.log(b) >= G.order {
        ExpReduced(G, G.log(a) + G.log(b));
      }
    }
  }

  lemma TimesZero<T(!new)>(G: Tabled<T>, a: T, b: T)
    requires IsTabled(G)
    ensures G.Times(a, b) == G.space.zero <==> a == G.space.zero || b == G.space.zero
  {
    if a != G.space.zero && b != G.space.zero {
      assert G.LogInverts(a) && G.LogInverts(b);
      var n := G.log(a) + G.log(b);
      ExpNonZero(G, if n >= G.order then n - G.order else n);
    }
  }

  lemma TimesAssoc<T(!new)>(G: Tabled<T>, a: T, b: T, c: T)
    requires IsTabled(G)
    ensures G.Times(G.Times(a, b), c) == G.Times(a, G.Times(b, c))
  {
    TimesZero(G, a, b);
    TimesZero(G, b, c);
    if a != G.space.zero && b != G.space.zero && c != G.space.zero {
      TimesIsPower(G, a, b);
      TimesIsPower(G, c, b);
      TimesIsPower(G, c, G.Times(a, b));
      TimesIsPower(G, a, G.Times(b, c));
      PowerAdd(G.space, G.log(a), G.log(c), b);
      PowerAdd(G.space, G.log(c), G.log(a), b);
    }
  }

  lemma TimesDistributes<T(!new)>(G: Tabled<T>, a: T, b: T, c: T)
    requires IsTabled(G)
    ensures G.Times(a, G.space.add(b, c)) == G.space.add(G.Times(a, b), G.Times(a, c))
  {
    if a == G.space.zero {
      assert G.space.AddZero(G.space.zero);
    } else {
      TimesIsPower(G, a, b);
      TimesIsPower(G, a, c);
      TimesIsPower(G, a, G.space.add(b, c));
      PowerLinear(G.space, G.log(a), b, c);
    }
  }

  lemma TimesOne<T(!new)>(G: Tabled<T>, a: T)
    requires IsTabled(G)
    ensures G.Times(a, G.one) == a
  {
    if a != G.space.zero {
      TimesIsPower(G, a, G.one);
      assert G.LogInverts(a);
    }
  }

  lemma OverInverts<T(!new)>(G: Tabled<T>, a: T, b: T)
    requires IsTabled(G) && b != G.space.zero
    ensures G.Times(G.Over(a, b), b) == a
  {
    if a != G.space.zero {
      assert G.LogInverts(a) && G.LogInverts(b);
      var n := G.log(a) + G.order - G.log(b);
      var k := if n >= G.order then n - G.order else n;
      assert G.Over(a, b) == G.Exp(k);
      TimesIsPower(G, b, G.Exp(k));
      PowerAdd(G.space, G.log(b), k, G.one);
      if n < G.order {
        ExpReduced(G, G.log(b) + k);
      }
    }
  }

  ghost function AsField<T>(G: Tabled<T>): Field<T> {
    Field(G.space.zero, G.one, G.space.add, (a, b) => G.Times(a, b), (a, b) => G.Over(a, b))
  }

  /** Tables of this kind always present a field. */
  lemma TabledIsField<T(!new)>(G: Tabled<T>)
    requires IsTabled(G)
    ensures IsField(AsField(G))
  {
    var F := AsField(G);
    forall a, b, c ensures F.AddAssoc(a, b, c) { assert G.space.AddAssoc(a, b, c); }
    forall a, b ensures F.AddComm(a, b) { assert G.space.AddComm(a, b); }
    forall a ensures F.AddZero(a) { assert G.space.AddZero(a); }
    forall a ensures F.AddSelf(a) { assert G.space.AddSelf(a); }
    forall a, b, c ensures F.MulAssoc(a, b, c) { TimesAssoc(G, a, b, c); }
    forall a, b ensures F.MulComm(a, b) { }
    forall a ensures F.MulOne(a) { TimesOne(G, a); }
    forall a, b, c ensures F.Distributes(a, b, c) { TimesDistributes(G, a, b, c); }
    forall a, b ensures F.Divides(a, b) { if b != F.zero { OverInverts(G, a, b); } }
  }
}
