/** Fields of characteristic two, given by their operations.

    Every law is a predicate of its own, and IsField quantifies over that
    predicate.  A proof names the instance it uses (`assert F.MulComm(a, b)`),
    so the laws are never applied by guesswork. */
module Fields {

  datatype Field<!T> = Field(zero: T, one: T, add: (T, T) -> T, mul: (T, T) -> T, div: (T, T) -> T)
  {
    ghost predicate AddAssoc(a: T, b: T, c: T) { add(add(a, b), c) == add(a, add(b, c)) }
    ghost predicate AddComm(a: T, b: T) { add(a, b) == add(b, a) }
    ghost predicate AddZero(a: T) { add(a, zero) == a }
    /** Characteristic two: subtraction is addition. */
    ghost predicate AddSelf(a: T) { add(a, a) == zero }
    ghost predicate MulAssoc(a: T, b: T, c: T) { mul(mul(a, b), c) == mul(a, mul(b, c)) }
    ghost predicate MulComm(a: T, b: T) { mul(a, b) == mul(b, a) }
    ghost predicate MulOne(a: T) { mul(a, one) == a }
    ghost predicate Distributes(a: T, b: T, c: T) { mul(a, add(b, c)) == add(mul(a, b), mul(a, c)) }
    ghost predicate Divides(a: T, b: T) { b != zero ==> mul(div(a, b), b) == a }
  }

  ghost predicate IsField<T(!new)>(F: Field<T>) {
    && F.one != F.zero
    && (forall a, b, c :: F.AddAssoc(a, b, c))
    && (forall a, b :: F.AddComm(a, b))
    && (forall a :: F.AddZero(a))
    && (forall a :: F.AddSelf(a))
    && (forall a, b, c :: F.MulAssoc(a, b, c))
    && (forall a, b :: F.MulComm(a, b))
    && (forall a :: F.MulOne(a))
    && (forall a, b, c :: F.Distributes(a, b, c))
    && (forall a, b :: F.Divides(a, b))
  }

  lemma AddZeroLeft<T(!new)>(F: Field<T>, a: T)
    requires IsField(F)
    ensures F.add(F.zero, a) == a
  {
    assert F.AddComm(F.zero, a);
    assert F.AddZero(a);
  }

  lemma MulOneLeft<T(!new)>(F: Field<T>, a: T)
    requires IsField(F)
    ensures F.mul(F.one, a) == a
  {
    assert F.MulComm(F.one, a);
    assert F.MulOne(a);
  }

  /** Adding the same element twice does nothing. */
  lemma AddTwice<T(!new)>(F: Field<T>, a: T, b: T)
    requires IsField(F)
    ensures F.add(F.add(a, b), b) == a
    ensures F.add(b, F.add(b, a)) == a
  {
    assert F.AddAssoc(a, b, b) && F.AddSelf(b) && F.AddZero(a);
    assert F.AddAssoc(b, b, a);
    AddZeroLeft(F, a);
  }

  lemma AddExchange<T(!new)>(F: Field<T>, a: T, b: T, c: T, d: T)
    requires IsField(F)
    ensures F.add(F.add(a, b), F.add(c, d)) == F.add(F.add(a, c), F.add(b, d))
  {
    assert F.AddAssoc(a, b, F.add(c, d)) && F.AddAssoc(b, c, d);
    assert F.AddComm(b, c);
    assert F.AddAssoc(c, b, d) && F.AddAssoc(a, c, F.add(b, d));
  }

  lemma SumZeroIsEqual<T(!new)>(F: Field<T>, a: T, b: T)
    requires IsField(F)
    ensures F.add(a, b) == F.zero <==> a == b
  {
    AddTwice(F, a, b);
    AddZeroLeft(F, b);
    assert F.AddSelf(a);
  }

  lemma MulZero<T(!new)>(F: Field<T>, a: T)
    requires IsField(F)
    ensures F.mul(a, F.zero) == F.zero && F.mul(F.zero, a) == F.zero
  {
    assert F.AddSelf(F.zero);
    assert F.Distributes(a, F.zero, F.zero);
    assert F.AddSelf(F.mul(a, F.zero));
    assert F.MulComm(F.zero, a);
  }

  lemma DistributesLeft<T(!new)>(F: Field<T>, a: T, b: T, c: T)
    requires IsField(F)
    ensures F.mul(F.add(a, b), c) == F.add(F.mul(a, c), F.mul(b, c))
  {
    assert F.MulComm(F.add(a, b), c) && F.MulComm(a, c) && F.MulComm(b, c);
    assert F.Distributes(c, a, b);
  }

  /** Multiplication by a nonzero element can be cancelled. */
  lemma Cancel<T(!new)>(F: Field<T>, a: T, b: T, c: T)
    requires IsField(F)
    requires c != F.zero && F.mul(a, c) == F.mul(b, c)
    ensures a == b
  {
    var i := F.div(F.one, c);
    assert F.Divides(F.one, c);
    assert F.MulComm(i, c);
    assert F.MulAssoc(a, c, i) && F.MulAssoc(b, c, i);
    assert F.MulOne(a) && F.MulOne(b);
  }

  lemma NoZeroDivisors<T(!new)>(F: Field<T>, a: T, b: T)
    requires IsField(F)
    ensures F.mul(a, b) == F.zero <==> a == F.zero || b == F.zero
  {
    MulZero(F, a);
    MulZero(F, b);
    if b != F.zero && F.mul(a, b) == F.zero {
      Cancel(F, a, F.zero, b);
    }
  }
}
