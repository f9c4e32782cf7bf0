/**
 Numbers as sequences of 32-bit limbs, least significant first, and what carrying, multiplying and
 shifting limb by limb means for the number.
 */
module Limbs {
  import opened Arith

  const BASE := 0x1_0000_0000

  type Limb = x: int | 0 <= x < BASE

  /** The number a sequence of limbs stands for. */
  function Val(s: seq<Limb>): nat
  {
    if s == [] then 0 else s[0] + BASE * Val(s[1..])
  }

  lemma ValHead(s: seq<Limb>)
    ensures s == [] ==> Val(s) == 0
    ensures s != [] ==> Val(s) == s[0] + BASE * Val(s[1..])
  {
  }

  /** BASE to the power n: one more than the greatest number of n limbs. */
  function Pow(n: nat): (r: nat)
    ensures r > 0
  {
    if n == 0 then 1 else BASE * Pow(n - 1)
  }

  lemma {:induction false} ValBound(s: seq<Limb>)
    ensures Val(s) < Pow(|s|)
  {
    if s != [] {
      ValBound(s[1..]);
    }
  }

  lemma {:induction false} PowSum(a: nat, b: nat)
    ensures Pow(a + b) == Pow(a) * Pow(b)
  {
    if a > 0 {
      PowSum(a - 1, b);
      assert BASE * (Pow(a - 1) * Pow(b)) == (BASE * Pow(a - 1)) * Pow(b);
    }
  }

  lemma Pow2Base()
    ensures Pow2(8) == 0x100 && Pow2(16) == 0x1_0000 && Pow2(32) == BASE
  {
    assert Pow2(2) == 4 && Pow2(4) == 2 * Pow2(3) && Pow2(3) == 2 * Pow2(2);
    Pow2Sum(4, 4);
    Pow2Sum(8, 8);
    Pow2Sum(16, 16);
  }

  lemma {:induction false} PowIsPow2(n: nat)
    ensures Pow(n) == Pow2(32 * n)
  {
    if n > 0 {
      PowIsPow2(n - 1);
      Pow2Sum(32, 32 * (n - 1));
      Pow2Base();
    }
  }

  /** Low limbs and high limbs. */
  lemma {:induction false} ValSplit(s: seq<Limb>, i: nat)
    requires i <= |s|
    ensures Val(s) == Val(s[..i]) + Pow(i) * Val(s[i..])
  {
    hide Val, Pow;
    ValHead(s);
    ValHead(s[..i]);
    PowStart();
    if i == 0 {
      assert s[0..] == s;
    } else {
      PowNext(i - 1);
      ValSplit(s[1..], i - 1);
      assert s[1..][..i - 1] == s[..i][1..] && s[1..][i - 1..] == s[i..];
      SplitStep(s[0], Val(s[..i][1..]), Pow(i - 1), Val(s[i..]));
    }
  }

  lemma PowStart()
    ensures Pow(0) == 1
  {
  }

  lemma SplitStep(x: nat, low: nat, p: nat, high: nat)
    ensures x + BASE * (low + p * high) == (x + BASE * low) + (BASE * p) * high
  {
    assert BASE * (p * high) == (BASE * p) * high;
  }

  /** Equal numbers of equal length have equal limbs. */
  lemma {:induction false} ValUnique(a: seq<Limb>, b: seq<Limb>)
    requires |a| == |b| && Val(a) == Val(b)
    ensures a == b
  {
    if a != [] {
      assert a[0] == Val(a) % BASE && b[0] == Val(b) % BASE;
      ValUnique(a[1..], b[1..]);
      assert a == [a[0]] + a[1..] && b == [b[0]] + b[1..];
    }
  }

  /** A number of the form q * m + v with v below m. */
  lemma ModIs(v: nat, q: nat, m: nat, x: nat)
    requires m > 0 && v < m && x == v + q * m
    ensures x % m == v
  {
    Arith.QuotientOf(x, m, q, v);
  }

  // ---- Adding ----

  /** Limb-wise addition with a carry in. */
  function AddFrom(a: seq<Limb>, b: seq<Limb>, carry: nat): (r: seq<Limb>)
    requires |a| == |b|
    ensures |r| == |a|
  {
    if a == [] then []
    else
      var n := carry + a[0] + b[0];
      [n % BASE] + AddFrom(a[1..], b[1..], n / BASE)
  }

  function AddCarry(a: seq<Limb>, b: seq<Limb>, carry: nat): nat
    requires |a| == |b|
  {
    if a == [] then carry else AddCarry(a[1..], b[1..], (carry + a[0] + b[0]) / BASE)
  }

  lemma {:induction false} AddValue(a: seq<Limb>, b: seq<Limb>, carry: nat)
    requires |a| == |b|
    ensures Val(AddFrom(a, b, carry)) + AddCarry(a, b, carry) * Pow(|a|) == Val(a) + Val(b) + carry
  {
    hide Val, Pow, AddFrom, AddCarry;
    AddStep(a, b, carry);
    ValHead(a);
    ValHead(b);
    PowStart();
    if a != [] {
      var n := carry + a[0] + b[0];
      AddValue(a[1..], b[1..], n / BASE);
      PowNext(|a| - 1);
      ValHead(AddFrom(a, b, carry));
      CarryOut(AddCarry(a, b, carry), Pow(|a| - 1));
    }
  }

  lemma AddStep(a: seq<Limb>, b: seq<Limb>, carry: nat)
    requires |a| == |b|
    ensures a == [] ==> AddFrom(a, b, carry) == [] && AddCarry(a, b, carry) == carry
    ensures a != [] ==> var n := carry + a[0] + b[0];
      && AddFrom(a, b, carry) != [] && AddFrom(a, b, carry)[0] == n % BASE
      && AddFrom(a, b, carry)[1..] == AddFrom(a[1..], b[1..], n / BASE)
      && AddCarry(a, b, carry) == AddCarry(a[1..], b[1..], n / BASE)
  {
  }

  lemma CarryOut(c: nat, p: nat)
    ensures c * (BASE * p) == BASE * (c * p)
  {
  }

  /** Adding limb by limb is adding modulo the range. */
  lemma AddMod(a: seq<Limb>, b: seq<Limb>)
    requires |a| == |b|
    ensures Val(AddFrom(a, b, 0)) == (Val(a) + Val(b)) % Pow(|a|)
  {
    AddValue(a, b, 0);
    ValBound(AddFrom(a, b, 0));
    ModIs(Val(AddFrom(a, b, 0)), AddCarry(a, b, 0), Pow(|a|), Val(a) + Val(b));
  }

  // ---- Negation ----

  function Inverted(a: seq<Limb>): (r: seq<Limb>)
    ensures |r| == |a|
  {
    seq(|a|, i requires 0 <= i < |a| => BASE - 1 - a[i])
  }

  lemma {:induction false} InvertedValue(a: seq<Limb>)
    ensures Val(Inverted(a)) == Pow(|a|) - 1 - Val(a)
  {
    if a != [] {
      InvertedValue(a[1..]);
      assert Inverted(a)[1..] == Inverted(a[1..]);
    }
  }

  /** Increment: carry past limbs that wrap to zero. */
  function Incremented(a: seq<Limb>): (r: seq<Limb>)
    ensures |r| == |a|
  {
    if a == [] then []
    else if a[0] == BASE - 1 then [0] + Incremented(a[1..])
    else [a[0] + 1] + a[1..]
  }

  lemma {:induction false} IncrementedValue(a: seq<Limb>)
    ensures Val(Incremented(a)) == (if Val(a) + 1 == Pow(|a|) then 0 else Val(a) + 1)
  {
    if a != [] {
      ValBound(a[1..]);
      if a[0] == BASE - 1 {
        IncrementedValue(a[1..]);
        assert Incremented(a)[1..] == Incremented(a[1..]);
      } else {
        assert Incremented(a)[1..] == a[1..];
      }
    }
  }

  function Decremented(a: seq<Limb>): (r: seq<Limb>)
    ensures |r| == |a|
  {
    if a == [] then []
    else if a[0] == 0 then [BASE - 1] + Decremented(a[1..])
    else [a[0] - 1] + a[1..]
  }

  lemma {:induction false} DecrementedValue(a: seq<Limb>)
    ensures Val(Decremented(a)) == (if Val(a) == 0 then Pow(|a|) - 1 else Val(a) - 1)
  {
    if a != [] {
      if a[0] == 0 {
        DecrementedValue(a[1..]);
        assert Decremented(a)[1..] == Decremented(a[1..]);
      } else {
        assert Decremented(a)[1..] == a[1..];
      }
    }
  }

  // ---- Comparing ----

  /** The highest limb that differs decides. */
  lemma HighestDecides(a: seq<Limb>, b: seq<Limb>, i: nat)
    requires |a| == |b| && i < |a| && a[i + 1..] == b[i + 1..] && a[i] < b[i]
    ensures Val(a) < Val(b)
  {
    hide Val, Pow;
    ValSplit(a, i);
    ValSplit(b, i);
    ValBound(a[..i]);
    assert a[i..][1..] == a[i + 1..] && b[i..][1..] == b[i + 1..];
    ValHead(a[i..]);
    ValHead(b[i..]);
    Arith.HighPartDecides(Val(a[..i]), Pow(i), Val(a[i..]), Val(b[..i]), Val(b[i..]));
  }

  // ---- Multiplying ----

  /** The product, by name. */
  function Times(x: nat, y: nat): nat { x * y }

  lemma TimesZero(x: nat, y: nat, z: nat)
    ensures Times(0, x) == 0 && Times(y, Times(0, x)) == 0 && Times(0, z) == 0
  {
  }

  /** One row of the schoolbook product: p + x * b with a carry in, for as many limbs as p has. */
  function MulRow(p: seq<Limb>, x: Limb, b: seq<Limb>, carry: nat): (r: seq<Limb>)
    requires |p| <= |b|
    ensures |r| == |p|
  {
    if p == [] then []
    else
      var n := RowSum(carry, p[0], x, b[0]);
      [n % BASE] + MulRow(p[1..], x, b[1..], n / BASE)
  }

  function RowSum(carry: nat, p: nat, x: nat, b: nat): nat { carry + p + x * b }

  lemma RowSumZero(x: nat)
    ensures RowSum(0, 0, x, 0) == 0
  {
  }

  function RowCarry(p: seq<Limb>, x: Limb, b: seq<Limb>, carry: nat): nat
    requires |p| <= |b|
  {
    if p == [] then carry else RowCarry(p[1..], x, b[1..], RowSum(carry, p[0], x, b[0]) / BASE)
  }

  /** The sum of one limb's product, the limb below it and the carry fits in 64 bits, and leaves a
      carry of 32 bits. */
  lemma RowSumFits(carry: nat, p: nat, x: nat, b: nat)
    requires carry < BASE && p < BASE && x < BASE && b < BASE
    ensures RowSum(carry, p, x, b) < BASE * BASE && RowSum(carry, p, x, b) / BASE < BASE
  {
    Arith.MulMonotone(x, BASE - 1, b);
    assert x * b <= (BASE - 1) * b <= (BASE - 1) * (BASE - 1);
  }

  lemma {:induction false} RowValue(p: seq<Limb>, x: Limb, b: seq<Limb>, carry: nat)
    requires |p| <= |b|
    ensures Val(MulRow(p, x, b, carry)) + RowCarry(p, x, b, carry) * Pow(|p|) == Val(p) + x * Val(b[..|p|]) + carry
  {
    if p == [] {
      assert b[..0] == [];
    } else {
      var n := RowSum(carry, p[0], x, b[0]);
      var c := RowCarry(p, x, b, carry);
      RowValue(p[1..], x, b[1..], n / BASE);
      assert MulRow(p, x, b, carry)[1..] == MulRow(p[1..], x, b[1..], n / BASE);
      assert b[..|p|][1..] == b[1..][..|p| - 1];
      RowStep(n, carry, p[0], x, b[0], c, Pow(|p| - 1), Val(MulRow(p[1..], x, b[1..], n / BASE)), Val(p[1..]),
        Val(b[1..][..|p| - 1]));
    }
  }

  lemma RowStep(n: nat, carry: nat, p0: nat, x: nat, b0: nat, c: nat, pow: nat, row: nat, p: nat, b: nat)
    requires n == carry + p0 + x * b0 && row + c * pow == p + x * b + n / BASE
    ensures (n % BASE + BASE * row) + c * (BASE * pow) == (p0 + BASE * p) + x * (b0 + BASE * b) + carry
  {
    assert c * (BASE * pow) == BASE * (c * pow);
    assert x * (b0 + BASE * b) == x * b0 + BASE * (x * b);
  }

  /** The product, row by row, as far as the limbs go. */
  function Rows(p: seq<Limb>, a: seq<Limb>, b: seq<Limb>, j: nat): (r: seq<Limb>)
    requires |p| == |a| == |b| && j <= |a|
    ensures |r| == |p|
    decreases |a| - j
  {
    if j == |a| then p else Rows(p[..j] + MulRow(p[j..], a[j], b, 0), a, b, j + 1)
  }

  lemma {:induction false} RowsValue(p: seq<Limb>, a: seq<Limb>, b: seq<Limb>, j: nat) returns (q: nat)
    requires |p| == |a| == |b| && j <= |a|
    ensures Val(Rows(p, a, b, j)) + Times(q, Pow(|a|)) == Val(p) + Times(Pow(j), Times(Val(a[j..]), Val(b)))
    decreases |a| - j
  {
    hide Val, Pow, MulRow, RowCarry, Rows, Times;
    RowsNext(p, a, b, j);
    if j == |a| {
      q := 0;
      ValHead(a[j..]);
      TimesZero(Val(b), Pow(j), Pow(|a|));
    } else {
      var w := |a|;
      var row, c := MulRow(p[j..], a[j], b, 0), RowCarry(p[j..], a[j], b, 0);
      var p' := p[..j] + row;
      assert p'[..j] == p[..j] && p'[j..] == row;
      ValSplit(p, j);
      ValSplit(p', j);
      ValSplit(b, w - j);
      RowValue(p[j..], a[j], b, 0);
      PowSum(j, w - j);
      PowNext(j);
      var q' := RowsValue(p', a, b, j + 1);
      assert a[j..][1..] == a[j + 1..];
      ValHead(a[j..]);
      q := q' + (Times(a[j], Val(b[w - j..])) + c);
      RowsStep(Val(Rows(p', a, b, j + 1)), q', Pow(w), Val(p[..j]), Pow(j), Val(row), c, Pow(w - j), Val(p[j..]), a[j],
        Val(b[..w - j]), Val(b[w - j..]), Val(a[j + 1..]));
    }
  }

  lemma RowsNext(p: seq<Limb>, a: seq<Limb>, b: seq<Limb>, j: nat)
    requires |p| == |a| == |b| && j <= |a|
    ensures Rows(p, a, b, j) == if j == |a| then p else Rows(p[..j] + MulRow(p[j..], a[j], b, 0), a, b, j + 1)
  {
  }

  lemma PowNext(n: nat)
    ensures Pow(n + 1) == BASE * Pow(n)
  {
  }

  /** The algebra of one row: lo + P * mid is the number so far, x the next limb, bl + R * bh the
      other factor and P * R the range. */
  lemma RowsStep(res: nat, q: nat, range: nat, lo: nat, P: nat, row: nat, c: nat, R: nat, mid: nat, x: nat, bl: nat,
    bh: nat, rest: nat)
    requires range == P * R && row + c * R == mid + x * bl
    requires res + Times(q, range) == (lo + P * row) + Times(BASE * P, Times(rest, bl + R * bh))
    ensures res + Times(q + (Times(x, bh) + c), range) == (lo + P * mid) + Times(P, Times(x + BASE * rest, bl + R * bh))
  {
    RowTimes(P, row, c, R, mid, x, bl);
    FactorTimes(P, R, x, bl, bh);
    FactorRest(P, x, rest, bl + R * bh);
    Distribute3(q, x * bh, c, range);
  }

  lemma RowTimes(P: nat, row: nat, c: nat, R: nat, mid: nat, x: nat, bl: nat)
    requires row + c * R == mid + x * bl
    ensures P * row + c * (P * R) == P * mid + P * (x * bl)
  {
    assert P * (row + c * R) == P * row + P * (c * R);
    assert P * (mid + x * bl) == P * mid + P * (x * bl);
    assert P * (c * R) == c * (P * R);
  }

  lemma FactorTimes(P: nat, R: nat, x: nat, bl: nat, bh: nat)
    ensures P * (x * (bl + R * bh)) == P * (x * bl) + (x * bh) * (P * R)
  {
    assert x * (bl + R * bh) == x * bl + R * (x * bh);
    assert P * (x * bl + R * (x * bh)) == P * (x * bl) + P * (R * (x * bh));
    assert P * (R * (x * bh)) == (x * bh) * (P * R);
  }

  lemma FactorRest(P: nat, x: nat, rest: nat, b: nat)
    ensures P * ((x + BASE * rest) * b) == P * (x * b) + (BASE * P) * (rest * b)
  {
    assert (x + BASE * rest) * b == x * b + BASE * (rest * b);
    assert P * (x * b + BASE * (rest * b)) == P * (x * b) + P * (BASE * (rest * b));
  }

  lemma Distribute3(q: nat, y: nat, c: nat, m: nat)
    ensures (q + (y + c)) * m == q * m + y * m + c * m
  {
  }

  function Zeros(n: nat): (r: seq<Limb>)
    ensures |r| == n
  {
    seq(n, _ => 0)
  }

  lemma {:induction false} ZerosValue(n: nat)
    ensures Val(Zeros(n)) == 0
  {
    if n > 0 {
      assert Zeros(n)[1..] == Zeros(n - 1);
      ZerosValue(n - 1);
    }
  }

  /** Schoolbook multiplication is multiplication modulo the range. */
  lemma MulMod(a: seq<Limb>, b: seq<Limb>)
    requires |a| == |b|
    ensures Val(Rows(Zeros(|a|), a, b, 0)) == Times(Val(a), Val(b)) % Pow(|a|)
  {
    var q := MulExact(a, b);
    hide Val, Pow, Rows, Times;
    var v, m, x := Val(Rows(Zeros(|a|), a, b, 0)), Pow(|a|), Times(Val(a), Val(b));
    ValBound(Rows(Zeros(|a|), a, b, 0));
    ModIs(v, q, m, x);
  }

  lemma MulExact(a: seq<Limb>, b: seq<Limb>) returns (q: nat)
    requires |a| == |b|
    ensures Times(Val(a), Val(b)) == Val(Rows(Zeros(|a|), a, b, 0)) + q * Pow(|a|)
  {
    PowStart();
    hide Val, Pow, Rows;
    q := RowsValue(Zeros(|a|), a, b, 0);
    ZerosValue(|a|);
    assert a[0..] == a;
  }
}
