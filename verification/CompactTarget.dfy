/**
 Compact targets: a 256-bit number as a one-byte size and a 23-bit mantissa, and the expected work a
 target stands for.
 */
module CompactTarget {
  import opened Arith
  import opened Limbs
  import opened Shifts
  import opened BaseUint

  const SIGN := 0x80_0000
  const SIZE_UNIT := 0x100_0000

  /** 256 to the power n. */
  function Bytes(n: nat): nat { Pow2(8 * n) }

  // ---- Decoding ----

  function SizeOf(compact: nat): nat { compact / SIZE_UNIT }

  function WordOf(compact: nat): nat { compact % SIGN }

  predicate SignOf(compact: nat) { compact / SIGN % 2 == 1 }

  /** The mantissa as SetCompact goes on to use it: for small sizes its low bytes are dropped. */
  function Kept(compact: nat): nat
  {
    var size := SizeOf(compact);
    if size <= 3 then Arith.Div(WordOf(compact), Bytes(3 - size)) else WordOf(compact)
  }

  /** The number a compact form stands for, whatever its size. */
  function Exact(compact: nat): nat
  {
    if SizeOf(compact) <= 3 then Kept(compact) else Kept(compact) * Bytes(SizeOf(compact) - 3)
  }

  /** The overflow flag as the code computes it. */
  predicate OverflowFlag(compact: nat)
  {
    var size, word := SizeOf(compact), Kept(compact);
    word != 0 && (size > 34 || (word > 0xff && size > 33) || (word > 0xffff && size > 32))
  }

  lemma BytesNext(n: nat)
    ensures Bytes(n + 1) == 0x100 * Bytes(n)
  {
    Pow2Sum(8, 8 * n);
    Pow2Base();
  }

  lemma BytesSum(a: nat, b: nat)
    ensures Bytes(a + b) == Bytes(a) * Bytes(b)
  {
    Pow2Sum(8 * a, 8 * b);
  }

  lemma SmallBytes()
    ensures Bytes(0) == 1 && Bytes(1) == 0x100 && Bytes(2) == 0x1_0000 && Bytes(3) == 0x100_0000 && Bytes(32) == Pow(8)
  {
    NoBits();
    BytesNext(0);
    BytesNext(1);
    BytesNext(2);
    PowIsPow2(8);
  }

  lemma WordBound(compact: nat)
    ensures Kept(compact) <= WordOf(compact) < SIGN
  {
    var size := SizeOf(compact);
    if size <= 3 {
      QuotientAtMost(WordOf(compact), Bytes(3 - size));
    }
  }

  lemma QuotientAtMost(a: nat, d: nat)
    requires d > 0
    ensures Arith.Div(a, d) <= a
  {
    var q := a / d;
    assert a == q * d + a % d;
    Arith.MulMonotone(1, d, q);
  }

  /** The flag is set exactly when the number does not fit in 256 bits. */
  lemma OverflowExact(compact: nat)
    ensures OverflowFlag(compact) <==> Exact(compact) >= Bytes(32)
  {
    hide Bytes, Kept;
    var size := SizeOf(compact);
    WordBound(compact);
    if size <= 3 {
      ManyBytes(32);
    } else if size <= 35 {
      MiddleSizes(size, Kept(compact));
    } else {
      LargeSizes(size, Kept(compact));
    }
  }

  /** Three bytes or more hold any mantissa. */
  lemma ManyBytes(n: nat)
    requires n >= 3
    ensures Bytes(n) >= 0x100_0000
  {
    hide Bytes;
    SmallBytes();
    BytesSum(3, n - 3);
    PositiveBytes(n - 3);
    Arith.MulMonotone(1, Bytes(n - 3), Bytes(3));
  }

  lemma MiddleSizes(size: nat, word: nat)
    requires 3 < size <= 35 && word < SIGN
    ensures word * Bytes(size - 3) >= Bytes(32) <==>
      word != 0 && (size > 34 || (word > 0xff && size > 33) || (word > 0xffff && size > 32))
  {
    hide Bytes;
    SmallBytes();
    BytesSum(size - 3, 35 - size);
    PositiveBytes(size - 3);
    Compare(word, Bytes(35 - size), Bytes(size - 3));
    if size <= 32 {
      ManyBytes(35 - size);
    }
  }

  lemma LargeSizes(size: nat, word: nat)
    requires size > 35
    ensures word * Bytes(size - 3) >= Bytes(32) <==> word != 0
  {
    hide Bytes;
    BytesSum(32, size - 35);
    PositiveBytes(size - 35);
    PositiveBytes(32);
    Arith.MulMonotone(1, Bytes(size - 35), Bytes(32));
    if word > 0 {
      Arith.MulMonotone(1, word, Bytes(size - 3));
    }
  }

  lemma PositiveBytes(n: nat)
    ensures Bytes(n) > 0
  {
  }

  lemma Compare(x: nat, y: nat, u: nat)
    requires u > 0
    ensures x * u >= u * y <==> x >= y
  {
    if x >= y {
      Arith.MulMonotone(y, x, u);
    } else {
      Arith.MulMonotone(x + 1, y, u);
      assert (x + 1) * u == x * u + u;
    }
  }

  // ---- Encoding ----

  /** The number of bytes up to the highest that is not zero. */
  predicate IsByteLength(x: nat, n: nat)
  {
    x < Bytes(n) && (n > 0 ==> Bytes(n - 1) <= x)
  }

  /** The top three bytes. */
  function TopBytes(x: nat, n: nat): nat
  {
    if n <= 3 then x * Bytes(3 - n) else Arith.Div(x, Bytes(n - 3))
  }

  /** The mantissa and size written: one byte fewer where the top bit would read as a sign. */
  function Mantissa(x: nat, n: nat): nat
  {
    var top := TopBytes(x, n);
    if top >= SIGN then top / 0x100 else top
  }

  function Size(x: nat, n: nat): nat { if TopBytes(x, n) >= SIGN then n + 1 else n }

  function Encoded(x: nat, n: nat, negative: bool): nat
  {
    Size(x, n) * SIZE_UNIT + Mantissa(x, n) + if negative && Mantissa(x, n) != 0 then SIGN else 0
  }

  /** The unit to which a number of this size is rounded down. */
  function Unit(x: nat, n: nat): nat { if Size(x, n) > 3 then Bytes(Size(x, n) - 3) else 1 }

  lemma TopBytesRange(x: nat, n: nat)
    requires IsByteLength(x, n)
    ensures TopBytes(x, n) < Bytes(3) && (n > 0 ==> Bytes(2) <= TopBytes(x, n))
  {
    hide Bytes;
    PositiveBytes(if n <= 3 then 3 - n else n - 3);
    SmallBytes();
    if n <= 3 {
      BytesSum(n, 3 - n);
      Scaled(0, Bytes(3 - n), 0, x, Bytes(n));
      assert x * Bytes(3 - n) == Bytes(3 - n) * x;
      if n > 0 {
        BytesSum(n - 1, 3 - n);
        Arith.MulMonotone(Bytes(n - 1), x, Bytes(3 - n));
      }
    } else {
      BytesSum(3, n - 3);
      BytesSum(2, n - 3);
      QuotientRange(x, Bytes(n - 3), Bytes(2), Bytes(3));
    }
  }

  lemma QuotientRange(x: nat, u: nat, lo: nat, hi: nat)
    requires u > 0 && lo * u <= x < hi * u
    ensures lo <= Arith.Div(x, u) < hi
  {
    var q := x / u;
    assert x == q * u + x % u && x % u < u;
    assert (q + 1) * u == q * u + u;
    if q < lo {
      Arith.MulMonotone(q + 1, lo, u);
    } else if hi <= q {
      Arith.MulMonotone(hi, q, u);
    }
  }

  lemma MantissaRange(x: nat, n: nat)
    requires IsByteLength(x, n)
    ensures Mantissa(x, n) < SIGN && (Size(x, n) > 3 ==> 0x8000 <= Mantissa(x, n))
  {
    hide Bytes, TopBytes;
    TopBytesRange(x, n);
    SmallBytes();
  }

  /** Rounding down to a multiple of the unit. */
  lemma DecodedValue(x: nat, n: nat, negative: bool)
    requires IsByteLength(x, n) && n < 255
    ensures SizeOf(Encoded(x, n, negative)) == Size(x, n) && WordOf(Encoded(x, n, negative)) == Mantissa(x, n)
    ensures SignOf(Encoded(x, n, negative)) == (negative && Mantissa(x, n) != 0)
    ensures Unit(x, n) > 0 && Exact(Encoded(x, n, negative)) == Arith.Div(x, Unit(x, n)) * Unit(x, n)
    ensures Size(x, n) > 3 ==> Mantissa(x, n) == Arith.Div(x, Unit(x, n))
  {
    MantissaRange(x, n);
    FieldsOf(Size(x, n), Mantissa(x, n), negative && Mantissa(x, n) != 0);
    hide Bytes, Mantissa, SizeOf, WordOf, SignOf;
    if Size(x, n) <= 3 {
      SmallDecode(x, n);
      Arith.QuotientOf(x, 1, x, 0);
    } else {
      LargeMantissa(x, n);
    }
  }

  /** Beyond three bytes the mantissa is the number divided by its unit. */
  lemma LargeMantissa(x: nat, n: nat)
    requires IsByteLength(x, n) && Size(x, n) > 3
    ensures Unit(x, n) > 0 && Mantissa(x, n) == Arith.Div(x, Unit(x, n))
  {
    hide Bytes;
    SmallBytes();
    PositiveBytes(Size(x, n) - 3);
    if n > 3 && TopBytes(x, n) >= SIGN {
      BytesNext(n - 3);
      PositiveBytes(n - 3);
      DivTwice(x, Bytes(n - 3), 0x100, Bytes(n - 2));
    }
  }

  lemma FieldsOf(size: nat, m: nat, sign: bool)
    requires m < SIGN
    ensures var c := size * SIZE_UNIT + m + if sign then SIGN else 0;
      SizeOf(c) == size && WordOf(c) == m && SignOf(c) == sign
  {
  }

  lemma DivTwice(x: nat, u: nat, v: nat, uv: nat)
    requires u > 0 && v > 0 && uv == v * u
    ensures uv > 0 && Arith.Div(Arith.Div(x, u), v) == Arith.Div(x, uv)
  {
    var q := x / u;
    assert x == q * u + x % u;
    var p, r := q / v, q % v;
    assert q == p * v + r;
    assert (p * v + r) * u == p * (v * u) + r * u;
    Arith.MulMonotone(r + 1, v, u);
    assert (r + 1) * u == r * u + u;
    Arith.QuotientOf(x, uv, p, r * u + x % u);
  }

  /** Numbers of up to three bytes that keep their size come back whole. */
  lemma SmallDecode(x: nat, n: nat)
    requires IsByteLength(x, n) && Size(x, n) <= 3
    ensures Arith.Div(Mantissa(x, n), Bytes(3 - Size(x, n))) == x
  {
    hide Bytes;
    SmallBytes();
    var s := Size(x, n);
    PositiveBytes(3 - s);
    if s == n + 1 {
      BytesNext(3 - s);
      assert x * (0x100 * Bytes(3 - s)) == 0x100 * (x * Bytes(3 - s));
    }
    Arith.QuotientOf(x * Bytes(3 - s), Bytes(3 - s), x, 0);
  }

  /** Encoding and decoding rounds down to the nearest number that has a compact form. */
  lemma GreatestBelow(x: nat, n: nat, other: nat)
    requires IsByteLength(x, n) && n < 255
    ensures var y := Exact(Encoded(x, n, false)); y <= x && (Exact(other) <= x ==> Exact(other) <= y)
  {
    hide Bytes, Encoded, Mantissa, Exact, SizeOf, WordOf, SignOf;
    DecodedValue(x, n, false);
    MantissaRange(x, n);
    WordBound(other);
    var u, q := Unit(x, n), Arith.Div(x, Unit(x, n));
    RoundsDown(x, u);
    if Size(x, n) > 3 && Exact(other) <= x {
      OtherForm(other, Size(x, n) - 3);
      BelowUnit(x, u, q, Exact(other));
    } else {
      assert Size(x, n) <= 3 ==> q == x by {
        Arith.QuotientOf(x, 1, x, 0);
      }
    }
  }

  lemma RoundsDown(x: nat, u: nat)
    requires u > 0
    ensures Arith.Div(x, u) * u <= x < Arith.Div(x, u) * u + u
  {
  }

  /** A number with a compact form is either a multiple of the unit 256^k, or below 2^15 of them. */
  lemma OtherForm(c: nat, k: nat)
    requires k > 0
    ensures (exists m: nat :: Exact(c) == m * Bytes(k)) || Exact(c) < 0x8000 * Bytes(k)
  {
    hide Bytes, Kept;
    WordBound(c);
    var size, w := SizeOf(c), Kept(c);
    if size <= 3 {
      SmallForm(w, k);
    } else if size - 3 >= k {
      WholeUnits(w, size - 3, k);
    } else {
      BytesNext(k - 1);
      BytesSum(size - 3, k - 1 - (size - 3));
      PositiveBytes(k - 1);
      PositiveBytes(k - 1 - (size - 3));
      SmallerUnit(w, Bytes(size - 3), Bytes(k - 1 - (size - 3)), Bytes(k - 1));
    }
  }

  lemma SmallForm(w: nat, k: nat)
    requires w < SIGN && k > 0
    ensures w < 0x8000 * Bytes(k)
  {
    hide Bytes;
    SmallBytes();
    BytesSum(1, k - 1);
    PositiveBytes(k - 1);
    Arith.MulMonotone(1, Bytes(k - 1), Bytes(1));
  }

  lemma WholeUnits(w: nat, n: nat, k: nat)
    requires k <= n
    ensures exists m: nat :: w * Bytes(n) == m * Bytes(k)
  {
    BytesSum(n - k, k);
    hide Bytes;
    Regrouped(w, Bytes(n - k), Bytes(k));
    assert w * Bytes(n) == (w * Bytes(n - k)) * Bytes(k);
  }

  lemma Regrouped(w: nat, r: nat, u: nat)
    ensures w * (r * u) == (w * r) * u
  {
  }

  lemma SmallerUnit(w: nat, a: nat, r: nat, b: nat)
    requires w < SIGN && r > 0 && b == a * r && b > 0
    ensures w * a < 0x8000 * (0x100 * b)
  {
    Arith.MulMonotone(1, r, a);
    Arith.MulMonotone(a, b, w);
    Arith.MulMonotone(w + 1, SIGN, b);
    assert (w + 1) * b == w * b + b && w * a == a * w && w * b == b * w;
  }

  lemma BelowUnit(x: nat, u: nat, q: nat, v: nat)
    requires u > 0 && q * u <= x < q * u + u && 0x8000 <= q && v <= x
    requires (exists m: nat :: v == m * u) || v < 0x8000 * u
    ensures v <= q * u
  {
    Arith.MulMonotone(0x8000, q, u);
    assert (q + 1) * u == q * u + u;
    if v >= 0x8000 * u {
      var m: nat :| v == m * u;
      if m > q {
        Arith.MulMonotone(q + 1, m, u);
      } else {
        Arith.MulMonotone(m, q, u);
      }
    }
  }

  /** The loss is less than one part in 2^15. */
  lemma SmallLoss(x: nat, n: nat)
    requires IsByteLength(x, n) && n < 255 && x > 0
    ensures (x - Exact(Encoded(x, n, false))) * 0x8000 < x
  {
    hide Bytes, Encoded, Mantissa, Exact, SizeOf, WordOf, SignOf;
    DecodedValue(x, n, false);
    MantissaRange(x, n);
    var u, q := Unit(x, n), Arith.Div(x, Unit(x, n));
    RoundsDown(x, u);
    if Size(x, n) > 3 {
      Arith.MulMonotone(0x8000, q, u);
    } else {
      Arith.QuotientOf(x, 1, x, 0);
    }
  }

  /** Rounding is monotone and settles at once. */
  lemma RoundingStable(x: nat, n: nat, x': nat, n': nat)
    requires IsByteLength(x, n) && IsByteLength(x', n') && n < 255 && n' < 255
    ensures x <= x' ==> Exact(Encoded(x, n, false)) <= Exact(Encoded(x', n', false))
    ensures x' == Exact(Encoded(x, n, false)) ==> Exact(Encoded(x', n', false)) == x'
  {
    hide Exact, Encoded;
    GreatestBelow(x, n, 0);
    GreatestBelow(x', n', Encoded(x, n, false));
  }

  // ---- On limbs ----

  /** SetCompact. */
  method SetCompact(u: Uint, compact: nat) returns (negative: bool, overflow: bool)
    requires u.pn.Length == 8 && compact < BASE
    modifies u.pn
    ensures overflow <==> Exact(compact) >= Bytes(32)
    ensures u.Value() == Exact(compact) % Bytes(32) && (!overflow ==> u.Value() == Exact(compact))
    ensures negative <==> Kept(compact) != 0 && SignOf(compact)
  {
    hide Bytes, Val, Pow, Pow2;
    var size, word := compact / SIZE_UNIT, compact % SIGN;
    WordBound(compact);
    OverflowExact(compact);
    SmallBytes();
    if size <= 3 {
      word := Arith.Div(word, Pow2(8 * (3 - size)));
      BytesIs(3 - size);
      u.Assign(word);
    } else {
      u.Assign(word);
      u.ShiftLeft(8 * (size - 3));
      BytesIs(size - 3);
      TimesIs(word, Pow2(8 * (size - 3)));
    }
    ghost var exact := Exact(compact);
    if exact < Bytes(32) {
      Arith.QuotientOf(exact, Bytes(32), 0, exact);
    }
    negative := word != 0 && compact / SIGN % 2 == 1;
    overflow := word != 0 && (size > 34 || (word > 0xff && size > 33) || (word > 0xffff && size > 32));
  }

  lemma BytesIs(n: nat)
    ensures Bytes(n) == Pow2(8 * n)
  {
  }

  /** GetCompact. */
  method GetCompact(u: Uint, negative: bool) returns (compact: nat, ghost n: nat)
    requires u.pn.Length == 8
    ensures n <= 32 && IsByteLength(u.Value(), n) && compact == Encoded(u.Value(), n, negative) && compact < BASE
  {
    hide Bytes, Val, Pow, Pow2;
    var bits := u.Bits();
    var size := (bits + 7) / 8;
    n := size;
    BitsToBytes(u.Value(), bits, size);
    TopBytesRange(u.Value(), size);
    SmallBytes();
    var top;
    if size <= 3 {
      var low := u.GetLow64();
      LowIsAll(u.Value(), size);
      BytesIs(3 - size);
      top := low * Pow2(8 * (3 - size));
    } else {
      var bn := new Uint.Copy(u);
      bn.ShiftRight(8 * (size - 3));
      BytesIs(size - 3);
      PositiveBytes(size - 3);
      Arith.DivIs(u.Value(), Bytes(size - 3));
      top := bn.GetLow64();
      Arith.QuotientOf(TopBytes(u.Value(), size), BASE * BASE, 0, TopBytes(u.Value(), size));
    }
    assert top == TopBytes(u.Value(), size);
    if top >= SIGN {
      top := top / 0x100;
      size := size + 1;
    }
    assert top < SIGN && size < 256;
    compact := size * SIZE_UNIT + top;
    compact := compact + if negative && top != 0 then SIGN else 0;
  }

  lemma BitsToBytes(x: nat, bits: nat, n: nat)
    requires bits <= 256 && n == (bits + 7) / 8 && x < Pow2(bits) && (bits > 0 ==> Pow2(bits - 1) <= x)
    ensures n <= 32 && IsByteLength(x, n)
  {
    Pow2Grows(bits, 8 * n);
    if n > 0 {
      Pow2Grows(8 * (n - 1), bits - 1);
    }
  }

  lemma LowIsAll(x: nat, n: nat)
    requires IsByteLength(x, n) && n <= 3
    ensures x % (BASE * BASE) == x
  {
    hide Bytes;
    SmallBytes();
    Arith.QuotientOf(x, BASE * BASE, 0, x);
  }

  // ---- Expected work ----

  /** A target that fits is not the very greatest number, so adding one does not wrap. */
  lemma TargetBelowMax(compact: nat)
    requires Exact(compact) < Bytes(32)
    ensures Exact(compact) + 1 < Bytes(32)
  {
    hide Bytes, Kept;
    WordBound(compact);
    BytesNext(31);
    var size := SizeOf(compact);
    if size <= 3 {
      ManyBytes(32);
    } else {
      BytesNext(size - 4);
      Regrouped(Kept(compact), 0x100, Bytes(size - 4));
      HundredFold(Kept(compact), Bytes(size - 4), Bytes(31));
    }
  }

  lemma HundredFold(w: nat, b: nat, top: nat)
    requires (w * 0x100) * b < 0x100 * top
    ensures (w * 0x100) * b + 1 < 0x100 * top
  {
    assert (w * 0x100) * b == 0x100 * (w * b);
  }

  /** The formula for expected work is the whole range divided by the number of hashes that meet the target. */
  lemma WorkFormula(t: nat, range: nat)
    requires t + 1 < range
    ensures Arith.Div(range - 1 - t, t + 1) + 1 == Arith.Div(range, t + 1) <= range
  {
    var d := t + 1;
    var q, r := range / d, range % d;
    assert range == q * d + r;
    Arith.MulMonotone(1, d, range + 1);
    QuotientRange(range, d, 1, range + 1);
    assert (q - 1) * d == q * d - d;
    Arith.QuotientOf(range - d, d, q - 1, r);
  }

  /** The work of a block with these bits, before any multiplier: nothing for a bad target. */
  method BaseProof(compact: nat) returns (proof: Uint)
    requires compact < BASE
    ensures proof.pn.Length == 8
    ensures var t := Exact(compact);
      proof.Value() ==
        if (Kept(compact) != 0 && SignOf(compact)) || t >= Bytes(32) || t == 0 then 0
        else Arith.Div(Bytes(32), t + 1)
  {
    hide Bytes, Val, Pow, Pow2, Exact, Kept, SignOf;
    SmallBytes();
    var target := new Uint(8);
    proof := new Uint(8);
    var negative, overflow := SetCompact(target, compact);
    var zero := new Uint(8);
    var cmp := target.CompareTo(zero);
    if negative || overflow || cmp == 0 {
      return;
    }
    ghost var t, range := target.Value(), Bytes(32);
    TargetBelowMax(compact);
    WorkFormula(t, range);
    WorkFits(t, range);
    proof := target.Complement();
    target.Increment();
    var _ := proof.DivAssign(target);
    proof.Increment();
  }

  lemma WorkFits(t: nat, range: nat)
    requires 0 < t && t + 1 < range
    ensures Arith.Div(range - 1 - t, t + 1) + 1 < range
  {
    QuotientAtMost(range - 1 - t, t + 1);
  }
}
