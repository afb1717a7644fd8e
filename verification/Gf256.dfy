/** Integers below 256 as bytes. */
module ByteIndex {
  lemma Next(b: bv8)
    requires b != 255
    ensures (b + 1) as int == b as int + 1
  {
  }

  lemma RoundTrip(b: bv8)
    ensures b as int as bv8 == b
  {
  }

  /** Every integer below 256 is some byte's value. */
  lemma {:induction false} SomeByte(i: nat) returns (b: bv8)
    requires i < 256
    ensures b as int == i
  {
    if i == 0 {
      b := 0;
    } else {
      var a := SomeByte(i - 1);
      Next(a);
      b := a + 1;
    }
  }

  lemma ByteOf(i: nat)
    requires i < 256
    ensures i as bv8 as int == i
  {
    var b := SomeByte(i);
    RoundTrip(b);
  }
}

/** GF(2^8) as src/sss.rs computes it: bytes added by exclusive or, multiplied
    through log/exp tables that are filled with the powers of 3 modulo
    x^8 + x^4 + x^3 + x + 1. */
module Gf256 {
  import opened Fields
  import opened CyclicField

  function Add(a: bv8, b: bv8): bv8 { a ^ b }

  /** Multiplication by x: the top bit t leaves and comes back as t * 0x1B. */
  function XTime(a: bv8): bv8 {
    var t := a >> 7;
    (a << 1) ^ t ^ (t << 1) ^ (t << 3) ^ (t << 4)
  }

  function Bytes(): Space<bv8> { Space(0, Add, XTime) }

  /** The polynomial product, by shift and add. */
  function Product(a: bv8, b: bv8): bv8 { Peasant(Bytes(), a, b as bv16) }

  function Pow3(n: nat): bv8 { Power(Bytes(), n, 1) }

  // ---------- the bytes form a space ----------

  lemma BytesAdd(a: bv8, b: bv8)
    ensures Bytes().AddComm(a, b) && Bytes().AddZero(a) && Bytes().AddSelf(a)
  {
  }

  lemma BytesAreSpace()
    ensures IsSpace(Bytes())
  {
  }

  lemma OneTimes(b: bv16)
    requires b < 256
    ensures Peasant(Bytes(), 1, b) == b as bv8
  {
    BytesAreSpace();
    PeasantByte(Bytes(), 1, b);
  }

  /** Multiplying by the n-th power of 3 is tripling n times. */
  lemma ProductPower(n: nat, b: bv8)
    ensures Product(Pow3(n), b) == Power(Bytes(), n, b)
  {
    BytesAreSpace();
    PeasantPower(Bytes(), n, 1, b as bv16);
    OneTimes(b as bv16);
  }

  lemma PowSum(m: nat, n: nat)
    ensures Pow3(m + n) == Product(Pow3(m), Pow3(n))
  {
    ProductPower(m, Pow3(n));
    PowerAdd(Bytes(), m, n, 1);
  }

  // ---------- 3 has order 255 ----------

  lemma Products1()
    ensures Product(0x03, 0x03) == 0x05 && Product(0x05, 0x05) == 0x11
    ensures Product(0x11, 0x11) == 0x1A && Product(0x1A, 0x1A) == 0x5F
  {
    BytesAreSpace();
    PeasantByte(Bytes(), 0x03, 0x03);
    PeasantByte(Bytes(), 0x05, 0x05);
    PeasantByte(Bytes(), 0x11, 0x11);
    PeasantByte(Bytes(), 0x1A, 0x1A);
  }

  lemma Products2()
    ensures Product(0x5F, 0x03) == 0xE1 && Product(0xE1, 0xE1) == 0x5C
    ensures Product(0x5C, 0xE1) == 0x0C && Product(0x0C, 0x5C) == 0xBD
    ensures Product(0xBD, 0xBD) == 0xBC && Product(0xBC, 0xBD) == 0x01
  {
    BytesAreSpace();
    PeasantByte(Bytes(), 0x5F, 0x03);
    PeasantByte(Bytes(), 0xE1, 0xE1);
    PeasantByte(Bytes(), 0x5C, 0xE1);
    PeasantByte(Bytes(), 0x0C, 0x5C);
    PeasantByte(Bytes(), 0xBD, 0xBD);
    PeasantByte(Bytes(), 0xBC, 0xBD);
  }

  lemma Powers()
    ensures Pow3(16) == 0x5F && Pow3(51) == 0x0C && Pow3(85) == 0xBD && Pow3(255) == 0x01
  {
    Products1();
    Products2();
    assert Pow3(0) == 1;
    assert Pow3(1) == 3;
    PowSum(1, 1); PowSum(2, 2); PowSum(4, 4); PowSum(8, 8);
    PowSum(16, 1); PowSum(17, 17); PowSum(34, 17); PowSum(51, 34); PowSum(85, 85); PowSum(170, 85);
  }

  lemma PowMultiple(d: nat, k: nat)
    requires Pow3(d) == 1
    ensures Pow3(k * d) == 1
  {
    PowerPeriods(Bytes(), d, k, 0, 1);
  }

  lemma ProperDivisor(d: nat)
    requires 0 < d < 255 && 255 % d == 0
    ensures d in {1, 3, 5, 15, 17, 51, 85}
  {
  }

  lemma DivisorIsNoPeriod(d: nat, k: nat)
    requires k * d in {15, 51, 85}
    ensures Pow3(d) != 1
  {
    Powers();
    assert Pow3(16) == Bytes().Triple(Pow3(15));
    assert Bytes().Triple(1) == 3;
    if Pow3(d) == 1 {
      PowMultiple(d, k);
    }
  }

  /** No smaller power of 3 is 1: the least such exponent would divide 15, 51 or 85. */
  lemma {:induction false} NoSmallerPeriod(d: nat)
    requires 0 < d < 255
    ensures Pow3(d) != 1
  {
    var q, r := 255 / d, 255 % d;
    assert q * d + r == 255;
    if r == 0 {
      ProperDivisor(d);
      DivisorIsNoPeriod(d, if d in {17, 51} then 51 / d else if d == 85 then 1 else 15 / d);
    } else {
      NoSmallerPeriod(r);
      if Pow3(d) == 1 {
        PowerPeriods(Bytes(), d, q, r, 1);
        Powers();
      }
    }
  }

  lemma PowNonZero(n: nat)
    requires n < 255
    ensures Pow3(n) != 0
  {
    Powers();
    BytesAreSpace();
    PowerAdd(Bytes(), 255 - n, n, 1);
    PowerZero(Bytes(), 255 - n);
  }

  lemma PowInjective(i: nat, j: nat)
    requires i < j < 255
    ensures Pow3(i) != Pow3(j)
  {
    Powers();
    NoSmallerPeriod(j - i);
    PowerAdd(Bytes(), 255 - i, i, 1);
    PowerAdd(Bytes(), 255 - i, j, 1);
    PowerAdd(Bytes(), j - i, 255, 1);
  }

  // ---------- every nonzero byte is a power of 3 ----------

  ghost function UpTo(n: nat): (s: set<int>)
    ensures forall v :: v in s <==> 1 <= v <= n
  {
    if n == 0 then {} else UpTo(n - 1) + {n}
  }

  lemma {:induction false} UpToSize(n: nat)
    ensures |UpTo(n)| == n
  {
    if n != 0 {
      UpToSize(n - 1);
    }
  }

  /** Pigeonhole: n distinct numbers from 1 to n are all of them. */
  lemma {:induction false} DistinctCover(s: seq<int>, n: nat, v: int)
    requires |s| == n && 1 <= v <= n
    requires forall i :: 0 <= i < n ==> 1 <= s[i] <= n
    requires forall i, j :: 0 <= i < j < n ==> s[i] != s[j]
    ensures v in s
  {
    if v !in s {
      DistinctFit(s, UpTo(n) - {v});
      UpToSize(n);
    }
  }

  lemma {:induction false} DistinctFit(s: seq<int>, S: set<int>)
    requires forall i :: 0 <= i < |s| ==> s[i] in S
    requires forall i, j :: 0 <= i < j < |s| ==> s[i] != s[j]
    ensures |s| <= |S|
  {
    if s != [] {
      DistinctFit(s[1..], S - {s[0]});
    }
  }

  lemma ByteValue(x: bv8, y: bv8)
    ensures x != 0 ==> 1 <= x as int <= 255
    ensures x as int == y as int ==> x == y
  {
  }

  lemma EveryByteIsAPower(x: bv8)
    requires x != 0
    ensures exists i :: 0 <= i < 255 && Pow3(i) == x
  {
    var s := seq(255, i requires 0 <= i < 255 => Pow3(i) as int);
    forall i | 0 <= i < 255 ensures 1 <= s[i] <= 255 {
      PowNonZero(i);
      ByteValue(Pow3(i), 0);
    }
    forall i, j | 0 <= i < j < 255 ensures s[i] != s[j] {
      PowInjective(i, j);
      ByteValue(Pow3(i), Pow3(j));
    }
    ByteValue(x, 0);
    DistinctCover(s, 255, x as int);
    var i :| 0 <= i < 255 && s[i] == x as int;
    ByteValue(Pow3(i), x);
  }

  ghost function Log(x: bv8): (n: nat)
    ensures n < 255 && (x != 0 ==> Pow3(n) == x)
  {
    if x == 0 then 0
    else
      EveryByteIsAPower(x);
      var i :| 0 <= i < 255 && Pow3(i) == x; i
  }

  ghost function Presentation(): Tabled<bv8> { Tabled(Bytes(), 1, 255, x => Log(x)) }

  /** The field of section 4.2 of FIPS 197. */
  ghost function GF(): Field<bv8> { AsField(Presentation()) }

  lemma GFIsField()
    ensures IsTabled(Presentation()) && IsField(GF())
  {
    var G := Presentation();
    BytesAreSpace();
    Powers();
    forall a ensures G.LogInverts(a) { assert G.log(a) == Log(a); }
    TabledIsField(G);
  }

  /** The field's product is the polynomial product modulo x^8 + x^4 + x^3 + x + 1. */
  lemma GFProduct(a: bv8, b: bv8)
    ensures GF().mul(a, b) == Product(a, b)
  {
    GFIsField();
    if a == 0 {
      BytesAreSpace();
      ProductPower(0, b);
      PeasantLinear(Bytes(), 1, 1, b as bv16);
      BytesAdd(Product(1, b), 0);
      BytesAdd(1, 0);
    } else {
      TimesIsPower(Presentation(), a, b);
      ProductPower(Log(a), b);
    }
  }

  // ---------- shift-and-add multiplication on u16 ----------

  function Xor16(a: bv16, b: bv16): bv16 { a ^ b }

  function Double(a: bv16): bv16 {
    var d := a << 1;
    if d & 0x100 != 0 then d ^ 0x11B else d
  }

  function Words(): Space<bv16> { Space(0, Xor16, Double) }

  function Widen(a: bv8): bv16 { a as bv16 }

  method RawMul(a: bv16, b: bv16) returns (r: bv16)
    ensures r == Peasant(Words(), a, b) & 0xFF
  {
    var x, y := a, b;
    r := 0;
    while y > 0
      invariant Owes(Words(), r, x, y) == Owes(Words(), 0, a, b)
      decreases y
    {
      ghost var r0, x0, y0 := r, x, y;
      if y & 1 == 1 {
        r := r ^ x;
      }
      x := x << 1;
      if x & 0x100 != 0 {
        x := x ^ 0x11B;
      }
      y := y >> 1;
      OwedStep(r0, x0, y0, r, x);
    }
    NothingOwed(r, x, a, b);
    r := r & 0xFF;
  }

  lemma Xor16Assoc(a: bv16, b: bv16, c: bv16)
    ensures Xor16(Xor16(a, b), c) == Xor16(a, Xor16(b, c))
  {
  }

  lemma WordsAdd(a: bv16, b: bv16, c: bv16)
    ensures Words().AddAssoc(a, b, c) && Words().AddZero(a)
  {
    Xor16Assoc(a, b, c);
  }

  /** One round of the loop on words is one round of shift-and-add. */
  lemma WordStep(r: bv16, x: bv16, y: bv16)
    ensures Xor16(r, Digit(Words(), x, y)) == if y & 1 == 1 then r ^ x else r
    ensures Double(x) == if (x << 1) & 0x100 != 0 then (x << 1) ^ 0x11B else x << 1
  {
  }

  lemma OwedStep(r: bv16, x: bv16, y: bv16, r': bv16, x': bv16)
    requires y > 0
    requires r' == if y & 1 == 1 then r ^ x else r
    requires x' == if (x << 1) & 0x100 != 0 then (x << 1) ^ 0x11B else x << 1
    ensures Owes(Words(), r', x', y >> 1) == Owes(Words(), r, x, y)
  {
    WordStep(r, x, y);
    OwesNext(Words(), r, x, y);
  }

  lemma NothingOwed(r: bv16, x: bv16, a: bv16, b: bv16)
    requires Owes(Words(), r, x, 0) == Owes(Words(), 0, a, b)
    ensures r == Peasant(Words(), a, b)
  {
    forall x, y, z ensures Words().AddAssoc(x, y, z) { WordsAdd(x, y, z); }
    forall x ensures Words().AddZero(x) { WordsAdd(x, x, x); }
    OwesIsPeasant(Words(), 0, a, b);
    var p := Peasant(Words(), a, b);
    assert Xor16(0, p) == p;
  }

  lemma WidenCarries(a: bv8, b: bv8)
    ensures CarriesAdd(Bytes(), Words(), Widen, a, b)
    ensures CarriesShift(Bytes(), Words(), Widen, a)
  {
  }

  /** On bytes the raw multiplication is the polynomial product. */
  lemma RawMulOnBytes(a: bv8, b: bv8)
    ensures Peasant(Words(), a as bv16, b as bv16) & 0xFF == Product(a, b) as bv16
  {
    forall a, b ensures CarriesAdd(Bytes(), Words(), Widen, a, b) { WidenCarries(a, b); }
    forall a ensures CarriesShift(Bytes(), Words(), Widen, a) { WidenCarries(a, a); }
    PeasantMap(Bytes(), Words(), Widen, a, b as bv16);
    ByteMask(Product(a, b));
  }

  lemma ByteMask(p: bv8)
    ensures Widen(p) & 0xFF == Widen(p)
  {
  }

  // ---------- the log/exp tables ----------

  /** `log` holds u8 values; its entry for 0 is never read. */
  datatype Tables = Tables(exp: seq<bv8>, log: seq<nat>)
  {
    ghost predicate ExpEntry(i: nat)
      requires |exp| == 512
    {
      i < 512 ==> exp[i] == Pow3(i)
    }

    ghost predicate LogEntry(x: bv8)
      requires |log| == 256
    {
      log[x as int] < 255 && (x != 0 ==> Pow3(log[x as int]) == x)
    }

    ghost predicate Valid() {
      && |exp| == 512 && |log| == 256
      && (forall i: nat :: ExpEntry(i))
      && (forall x :: LogEntry(x))
    }
  }

  lemma PowNext(i: nat)
    ensures Pow3(i + 1) as bv16 == Peasant(Words(), Pow3(i) as bv16, 3) & 0xFF
  {
  }

  lemma PowWraps(i: nat)
    ensures Pow3(i + 255) == Pow3(i)
  {
    Powers();
    PowerAdd(Bytes(), i, 255, 1);
  }

  ghost predicate ExpFilled(exp: seq<bv8>, n: nat) {
    n <= |exp| && forall k :: 0 <= k < n ==> exp[k] == Pow3(k)
  }

  ghost predicate LogAt(log: seq<nat>, k: nat) {
    |log| == 256 && log[Pow3(k) as int] == k
  }

  ghost predicate LogFilled(log: seq<nat>, n: nat) {
    && |log| == 256
    && (forall v :: 0 <= v < 256 ==> log[v] < 255)
    && (forall k: nat :: k < n ==> LogAt(log, k))
  }

  lemma LogFillStep(log: seq<nat>, n: nat)
    requires LogFilled(log, n) && n < 255
    ensures LogFilled(log[Pow3(n) as int := n], n + 1)
  {
    var log' := log[Pow3(n) as int := n];
    forall k: nat | k < n + 1 ensures LogAt(log', k) {
      if k < n {
        assert LogAt(log, k);
        PowInjective(k, n);
        ByteValue(Pow3(k), Pow3(n));
      }
    }
  }

  lemma LogFilledFinds(log: seq<nat>, x: bv8)
    requires LogFilled(log, 255)
    ensures log[x as int] < 255 && (x != 0 ==> Pow3(log[x as int]) == x)
  {
    if x != 0 {
      assert LogAt(log, Log(x));
    }
  }

  /** The first loop: the powers of 3 and, under each power, its exponent. */
  method FillPowers(exp: array<bv8>, log: array<nat>)
    requires exp.Length == 512 && log.Length == 256 && forall v :: 0 <= v < 256 ==> log[v] == 0
    modifies exp, log
    ensures ExpFilled(exp[..], 255) && LogFilled(log[..], 255)
  {
    var x: bv16 := 1;
    for i := 0 to 255
      invariant x < 256 && x as bv8 == Pow3(i)
      invariant ExpFilled(exp[..], i)
      invariant LogFilled(log[..], i)
    {
      exp[i] := x as bv8;
      LogFillStep(log[..], i);
      log[x as bv8 as int] := i;
      PowNext(i);
      x := RawMul(x, 3);
    }
  }

  /** The second loop: the powers repeat. */
  method RepeatPowers(exp: array<bv8>)
    requires exp.Length == 512 && ExpFilled(exp[..], 255)
    modifies exp
    ensures ExpFilled(exp[..], 512)
  {
    for i := 255 to 512
      invariant ExpFilled(exp[..], i)
    {
      PowWraps(i - 255);
      exp[i] := exp[i - 255];
    }
  }

  /** Both tables, as GF256Tables::generate fills them. */
  method Generate() returns (t: Tables)
    ensures t.Valid()
  {
    var exp := new bv8[512](_ => 0);
    var log := new nat[256](_ => 0);
    FillPowers(exp, log);
    RepeatPowers(exp);
    t := Tables(exp[..], log[..]);
    forall x ensures t.LogEntry(x) {
      LogFilledFinds(t.log, x);
    }
  }

  function GfAdd(a: bv8, b: bv8): bv8 { a ^ b }

  function GfSub(a: bv8, b: bv8): bv8 { a ^ b }

  function GfMul(t: Tables, a: bv8, b: bv8): bv8
    requires t.Valid()
  {
    if a == 0 || b == 0 then 0
    else
      assert t.LogEntry(a) && t.LogEntry(b);
      t.exp[(t.log[a as int] + t.log[b as int]) % 255]
  }

  datatype SssError = InvalidThreshold | NotEnoughShards | DuplicateX | EmptySecret | DivisionByZero

  datatype Result<T> = Ok(value: T) | Err(error: SssError)

  function GfDiv(t: Tables, a: bv8, b: bv8): Result<bv8>
    requires t.Valid()
  {
    if b == 0 then Err(DivisionByZero)
    else if a == 0 then Ok(0)
    else
      assert t.LogEntry(a) && t.LogEntry(b);
      Ok(t.exp[(t.log[a as int] + 255 - t.log[b as int]) % 255])
  }

  lemma PowModulo(i: nat, j: nat)
    requires i < 255 && j < 255
    ensures Pow3((i + j) % 255) == Product(Pow3(i), Pow3(j))
  {
    PowSum(i, j);
    if i + j >= 255 {
      PowWraps(i + j - 255);
    }
  }

  lemma ZeroProduct(a: bv8, b: bv8)
    requires a == 0 || b == 0
    ensures Product(a, b) == 0
  {
    GFProduct(a, b);
  }

  /** The table product is the polynomial product, for any correctly filled tables. */
  lemma GfMulIsProduct(t: Tables, a: bv8, b: bv8)
    requires t.Valid()
    ensures GfMul(t, a, b) == Product(a, b)
  {
    if a == 0 || b == 0 {
      ZeroProduct(a, b);
    } else {
      assert t.LogEntry(a) && t.LogEntry(b);
      var i, j := t.log[a as int], t.log[b as int];
      PowModulo(i, j);
      assert t.ExpEntry((i + j) % 255);
    }
  }

  /** Division fails exactly on a zero divisor and otherwise undoes the product. */
  lemma GfDivUndoesProduct(t: Tables, a: bv8, b: bv8)
    requires t.Valid()
    ensures GfDiv(t, a, b).Err? <==> b == 0
    ensures b == 0 ==> GfDiv(t, a, b) == Err(DivisionByZero)
    ensures b != 0 ==> Product(GfDiv(t, a, b).value, b) == a
  {
    if b != 0 && a != 0 {
      assert t.LogEntry(a) && t.LogEntry(b);
      var i, j := t.log[a as int], t.log[b as int];
      var k := (i + 255 - j) % 255;
      assert t.ExpEntry(k);
      PowSum(k, j);
      if k + j != i {
        PowWraps(i);
      }
    } else if b != 0 {
      GFProduct(0, b);
    }
  }
}
