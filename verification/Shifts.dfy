/** Shifting numbers held as limbs: what the bits moved between limbs amount to. */
module Shifts {
  import opened Arith
  import opened Limbs

  /** Where no bit is set in both, bitwise or is a sum. */
  lemma {:induction false} OrDisjoint(x: nat, y: nat, high: nat, s: nat)
    requires x == high * Pow2(s) && y < Pow2(s)
    ensures Or(x, y) == x + y && Or(y, x) == x + y
  {
    if s > 0 && x > 0 && y > 0 {
      var p := Pow2(s - 1);
      assert high * (2 * p) == 2 * (high * p);
      OrDisjoint(x / 2, y / 2, high, s - 1);
    }
  }

  lemma Pow2Bound(t: nat)
    requires t <= 32
    ensures Pow2(t) * Pow2(32 - t) == BASE && Pow2(t) <= BASE && (t < 32 ==> Pow2(t) < BASE)
  {
    hide Pow2;
    Pow2Sum(t, 32 - t);
    Pow2Base();
    Pow2Low(32 - t);
    Arith.MulMonotone(if t < 32 then 2 else 1, Pow2(32 - t), Pow2(t));
  }

  lemma Pow2Low(n: nat)
    ensures Pow2(n) >= if n > 0 then 2 else 1
  {
  }

  // ---- Left ----

  /** The parts of a limb that a left shift by t bits keeps and passes on. */
  function LeftLow(x: Limb, t: nat): Limb { x * Pow2(t) % BASE }

  function LeftHigh(x: Limb, t: nat): nat
    requires t < 32
  {
    Arith.Div(x, Pow2(32 - t))
  }

  /** Together they are the limb times 2^t, and the low part leaves room for what is passed in. */
  lemma LeftParts(x: Limb, t: nat, carry: nat)
    requires t < 32 && carry < Pow2(t)
    ensures var n := RowSum(carry, 0, Pow2(t), x);
      n % BASE == Or(carry, LeftLow(x, t)) && n / BASE == LeftHigh(x, t) < Pow2(t)
  {
    hide Pow2, Or;
    var p, r := Pow2(t), Pow2(32 - t);
    Pow2Bound(t);
    LeftCore(x, p, r, carry);
    OrDisjoint((x % r) * p, carry, x % r, t);
  }

  /** With p * r the base: x times p, split at the base. */
  lemma LeftCore(x: Limb, p: nat, r: nat, carry: nat)
    requires r > 0 && p * r == BASE && carry < p
    ensures x * p % BASE == (x % r) * p && x / r < p
    ensures RowSum(carry, 0, p, x) / BASE == x / r && RowSum(carry, 0, p, x) % BASE == (x % r) * p + carry
  {
    var q, m := x / r, x % r;
    assert x == q * r + m;
    SplitProduct(x, p, q, r, m);
    RoomBelow(m, r, p, carry);
    Arith.QuotientOf(x * p, BASE, q, m * p);
    assert p * x == x * p;
    Arith.QuotientOf(RowSum(carry, 0, p, x), BASE, q, m * p + carry);
    QuotientBelow(x, r, p);
  }

  lemma RoomBelow(m: nat, r: nat, p: nat, carry: nat)
    requires m < r && carry < p && p * r == BASE
    ensures m * p + carry < BASE
  {
    Arith.MulMonotone(m + 1, r, p);
    assert (m + 1) * p == m * p + p && r * p == p * r;
  }

  lemma SplitProduct(x: nat, p: nat, q: nat, r: nat, m: nat)
    requires x == q * r + m && p * r == BASE
    ensures x * p == q * BASE + m * p
  {
    assert (q * r + m) * p == (q * r) * p + m * p;
    assert (q * r) * p == q * (p * r);
  }

  lemma QuotientBelow(x: Limb, r: nat, p: nat)
    requires r > 0 && p * r == BASE
    ensures x / r < p
  {
    var q := x / r;
    assert q * r <= x;
    if q >= p {
      Arith.MulMonotone(p, q, r);
    }
  }

  /** Limbs shifted left by k limbs and t bits. */
  function ShiftedLeft(a: seq<Limb>, k: nat, t: nat): (r: seq<Limb>)
    requires t < 32
    ensures |r| == |a|
  {
    if k >= |a| then Zeros(|a|)
    else
      Pow2Bound(t);
      Zeros(k) + MulRow(Zeros(|a| - k), Pow2(t), a[..|a| - k], 0)
  }

  lemma {:induction false} ZerosPrefix(k: nat, s: seq<Limb>)
    ensures Val(Zeros(k) + s) == Pow(k) * Val(s)
  {
    hide Val, Pow;
    ValSplit(Zeros(k) + s, k);
    assert (Zeros(k) + s)[..k] == Zeros(k) && (Zeros(k) + s)[k..] == s;
    ZerosValue(k);
  }

  /** Shifting left is multiplying by a power of two modulo the range. */
  lemma ShiftLeftMod(a: seq<Limb>, k: nat, t: nat)
    requires t < 32
    ensures Val(ShiftedLeft(a, k, t)) == Times(Val(a), Pow2(32 * k + t)) % Pow(|a|)
  {
    var q := ShiftLeftExact(a, k, t);
    hide Val, Pow, Times, ShiftedLeft, Pow2;
    ValBound(ShiftedLeft(a, k, t));
    ModIs(Val(ShiftedLeft(a, k, t)), q, Pow(|a|), Times(Val(a), Pow2(32 * k + t)));
  }

  lemma ShiftLeftExact(a: seq<Limb>, k: nat, t: nat) returns (q: nat)
    requires t < 32
    ensures Times(Val(a), Pow2(32 * k + t)) == Val(ShiftedLeft(a, k, t)) + q * Pow(|a|)
  {
    hide Val, Pow, MulRow, RowCarry, Pow2, Times, ShiftedLeft;
    PowIsPow2(k);
    Pow2Sum(32 * k, t);
    if k >= |a| {
      PowSum(|a|, k - |a|);
      q := Val(a) * (Pow(k - |a|) * Pow2(t));
      AllOut(a, k, t);
      Regroup(Val(a), Pow(|a|), Pow(k - |a|), Pow2(t), Pow2(32 * k + t));
    } else {
      q := SomeLeft(a, k, t, Pow2(32 * k + t));
    }
  }

  lemma AllOut(a: seq<Limb>, k: nat, t: nat)
    requires t < 32 && k >= |a|
    ensures Val(ShiftedLeft(a, k, t)) == 0
  {
    ZerosValue(|a|);
  }

  lemma Regroup(v: nat, range: nat, more: nat, x: nat, total: nat)
    requires total == (range * more) * x
    ensures Times(v, total) == (v * (more * x)) * range
  {
    assert total == (more * x) * range;
    assert v * ((more * x) * range) == (v * (more * x)) * range;
  }

  lemma SomeLeft(a: seq<Limb>, k: nat, t: nat, total: nat) returns (q: nat)
    requires t < 32 && k < |a| && total == Pow(k) * Pow2(t)
    ensures Times(Val(a), total) == Val(ShiftedLeft(a, k, t)) + q * Pow(|a|)
  {
    hide Val, Pow, MulRow, RowCarry, Pow2, Times;
    var w := |a|;
    Pow2Bound(t);
    var x, low := Pow2(t), a[..w - k];
    var row, c := MulRow(Zeros(w - k), x, low, 0), RowCarry(Zeros(w - k), x, low, 0);
    RowValue(Zeros(w - k), x, low, 0);
    assert low[..w - k] == low;
    ZerosValue(w - k);
    ZerosPrefix(k, row);
    ValSplit(a, w - k);
    PowSum(k, w - k);
    q := c + Val(a[w - k..]) * x;
    SomeOut(Val(a), Val(low), Val(a[w - k..]), Pow(w - k), Pow(k), x, Val(row), c, total);
  }

  lemma SomeOut(v: nat, low: nat, high: nat, R: nat, P: nat, x: nat, row: nat, c: nat, total: nat)
    requires v == low + R * high && row + c * R == x * low && total == P * x
    ensures Times(v, total) == P * row + (c + high * x) * (P * R)
  {
    assert v * (P * x) == P * (x * low) + (R * high) * (P * x) by {
      assert (low + R * high) * (P * x) == low * (P * x) + (R * high) * (P * x);
      assert low * (P * x) == P * (x * low);
    }
    assert P * (row + c * R) == P * row + P * (c * R);
    assert P * (c * R) == c * (P * R);
    assert (R * high) * (P * x) == (high * x) * (P * R);
    assert (c + high * x) * (P * R) == c * (P * R) + (high * x) * (P * R);
  }

  // ---- Right ----

  /** What a right shift by t bits passes down from a limb: its low bits, moved to the top. */
  function RightHigh(x: Limb, t: nat): Limb
    requires t <= 32
  {
    x * Pow2(32 - t) % BASE
  }

  function RightLow(x: Limb, t: nat): nat
  {
    Arith.Div(x, Pow2(t))
  }

  /** The limb below, shifted, and the bits passed down to it do not overlap. */
  lemma RightParts(below: Limb, x: Limb, t: nat)
    requires t < 32
    ensures RightHigh(x, t) == (x % Pow2(t)) * Pow2(32 - t)
    ensures Or(RightLow(below, t), RightHigh(x, t)) == RightLow(below, t) + RightHigh(x, t)
  {
    hide Pow2, Or, RowSum, Arith.Div;
    Arith.DivIs(below, Pow2(t));
    var p, r := Pow2(t), Pow2(32 - t);
    Pow2Bound(t);
    assert r * p == BASE;
    LeftCore(x, r, p, 0);
    QuotientBelow(below, p, r);
    OrDisjoint((x % p) * r, below / p, x % p, 32 - t);
  }

  /** Limbs shifted right by t bits. */
  function RightBits(s: seq<Limb>, t: nat): (r: seq<nat>)
    requires t < 32
    ensures |r| == |s|
  {
    if s == [] then []
    else [RightLow(s[0], t) + (if |s| > 1 then RightHigh(s[1], t) else 0)] + RightBits(s[1..], t)
  }

  lemma {:induction false} RightBitsAreLimbs(s: seq<Limb>, t: nat)
    requires t < 32
    ensures forall i | 0 <= i < |s| :: RightBits(s, t)[i] < BASE
  {
    hide Pow2, RightLow, RightHigh;
    if s != [] {
      RightBitsAreLimbs(s[1..], t);
      RightSum(s[0], if |s| > 1 then s[1] else 0, t);
      RightSum(s[0], 0, t);
    }
  }

  lemma RightSum(below: Limb, x: Limb, t: nat)
    requires t < 32
    ensures RightLow(below, t) + RightHigh(x, t) < BASE && RightLow(below, t) < BASE
  {
    hide Pow2, Or;
    RightParts(below, x, t);
    Pow2Bound(t);
    QuotientBelow(below, Pow2(t), Pow2(32 - t));
    RoomBelow(x % Pow2(t), Pow2(t), Pow2(32 - t), below / Pow2(t));
  }

  function NatVal(s: seq<nat>): nat
  {
    if s == [] then 0 else s[0] + BASE * NatVal(s[1..])
  }

  lemma {:induction false} NatValIs(s: seq<Limb>)
    ensures NatVal(s) == Val(s)
  {
    if s != [] {
      NatValIs(s[1..]);
    }
  }

  lemma {:induction false} RightBitsValue(s: seq<Limb>, t: nat)
    requires t < 32
    ensures NatVal(RightBits(s, t)) * Pow2(t) + (if s == [] then 0 else s[0] % Pow2(t)) == Val(s)
  {
    if s != [] {
      var p, r := Pow2(t), Pow2(32 - t);
      hide Pow2, RightLow, RightHigh;
      RightBitsValue(s[1..], t);
      assert RightBits(s, t)[1..] == RightBits(s[1..], t);
      Pow2Bound(t);
      var high := if |s| > 1 then s[1] % p else 0;
      assert RightLow(s[0], t) == s[0] / p by {
        RightLowIs(s[0], t);
      }
      if |s| > 1 {
        RightParts(s[0], s[1], t);
      }
      RightStep(s[0], p, r, high, NatVal(RightBits(s[1..], t)), Val(s[1..]));
    }
  }

  lemma RightLowIs(x: Limb, t: nat)
    ensures RightLow(x, t) == x / Pow2(t)
  {
  }

  lemma RightStep(x: nat, p: nat, r: nat, high: nat, rest: nat, v: nat)
    requires p > 0 && p * r == BASE && rest * p + high == v
    ensures ((x / p + high * r) + BASE * rest) * p + x % p == x + BASE * v
  {
    assert x == (x / p) * p + x % p;
    assert ((x / p + high * r) + BASE * rest) * p == (x / p) * p + (high * r) * p + (BASE * rest) * p;
    assert (high * r) * p == high * (p * r);
    assert (BASE * rest) * p == BASE * (rest * p);
    assert high * BASE == BASE * high;
    assert BASE * (rest * p) + BASE * high == BASE * v;
  }

  /** Limbs shifted right by k limbs and t bits. */
  ghost predicate IsShiftedRight(a: seq<Limb>, k: nat, t: nat, r: seq<Limb>)
    requires t < 32
  {
    && |r| == |a|
    && if k >= |a| then r == Zeros(|a|)
       else forall i | 0 <= i < |a| :: r[i] == if i < |a| - k then RightBits(a[k..], t)[i] else 0
  }

  /** Shifting right is dividing by a power of two. */
  lemma ShiftRightDiv(a: seq<Limb>, k: nat, t: nat, r: seq<Limb>)
    requires t < 32 && IsShiftedRight(a, k, t, r)
    ensures Val(r) == Val(a) / Pow2(32 * k + t)
  {
    PowIsPow2(k);
    Pow2Sum(32 * k, t);
    if k >= |a| {
      ZerosValue(|a|);
      ValBound(a);
      PowSum(|a|, k - |a|);
      hide Val, Pow, Pow2;
      BelowPower(Val(a), Pow(|a|), Pow(k - |a|), Pow2(t), Pow2(32 * k + t));
      Arith.QuotientOf(Val(a), Pow2(32 * k + t), 0, Val(a));
    } else {
      RightExact(a, k, t, r);
    }
  }

  lemma BelowPower(v: nat, range: nat, more: nat, x: nat, total: nat)
    requires v < range && more > 0 && x > 0 && total == (range * more) * x
    ensures v < total
  {
    Arith.MulMonotone(1, more, range);
    assert range <= range * more;
    Arith.MulMonotone(1, x, range * more);
    assert range * more <= (range * more) * x;
  }

  lemma RightExact(a: seq<Limb>, k: nat, t: nat, r: seq<Limb>)
    requires t < 32 && k < |a| && IsShiftedRight(a, k, t, r) && Pow2(32 * k + t) == Pow(k) * Pow2(t)
    ensures Val(r) == Val(a) / Pow2(32 * k + t)
  {
    hide Val, Pow, Pow2, NatVal, RightBits;
    var high := a[k..];
    RightBitsValue(high, t);
    RightBitsAreLimbs(high, t);
    var bits: seq<Limb> := RightBits(high, t);
    NatValIs(bits);
    assert r == bits + Zeros(k);
    ZerosSuffix(bits, k);
    ValSplit(a, k);
    ValBound(a[..k]);
    var P, p, m := Pow(k), Pow2(t), high[0] % Pow2(t);
    RightCore(Val(a), Val(a[..k]), P, Val(high), Val(bits), p, m, Pow2(32 * k + t));
  }

  lemma {:induction false} ZerosSuffix(s: seq<Limb>, k: nat)
    ensures Val(s + Zeros(k)) == Val(s)
  {
    hide Val, Pow;
    ValSplit(s + Zeros(k), |s|);
    assert (s + Zeros(k))[..|s|] == s && (s + Zeros(k))[|s|..] == Zeros(k);
    ZerosValue(k);
  }

  lemma RightCore(v: nat, low: nat, P: nat, high: nat, q: nat, p: nat, m: nat, total: nat)
    requires v == low + P * high && high == q * p + m && low < P && m < p && total == P * p && total > 0
    ensures v / total == q
  {
    assert P * (q * p + m) == q * (P * p) + P * m;
    Arith.MulMonotone(m + 1, p, P);
    assert (m + 1) * P == P * m + P && p * P == P * p;
    Arith.QuotientOf(v, total, q, low + P * m);
  }
}
