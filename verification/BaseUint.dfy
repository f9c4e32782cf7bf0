/**
 base_uint: unsigned integers of any whole number of 32-bit limbs, updated in place.  Each operation
 is proved against the integers, for every width.
 */
module BaseUint {
  import opened Arith
  import opened Limbs
  import opened Shifts

  /** Row j of a product is done up to limb i: q is p with those limbs replaced. */
  ghost predicate RowAt(p: seq<Limb>, q: seq<Limb>, j: nat, x: Limb, y: seq<Limb>, i: nat, carry: nat)
  {
    && |q| == |p| == |y| && i + j <= |p| && q[..j] == p[..j] && q[i + j..] == p[i + j..]
    && MulRow(p[j..], x, y, 0) == q[j..j + i] + MulRow(p[j..][i..], x, y[i..], carry)
  }

  lemma RowAtStart(p: seq<Limb>, j: nat, x: Limb, y: seq<Limb>)
    requires j <= |p| == |y|
    ensures RowAt(p, p, j, x, y, 0, 0)
  {
    assert p[j..][0..] == p[j..] && y[0..] == y;
  }

  lemma RowAtNext(p: seq<Limb>, q: seq<Limb>, j: nat, x: Limb, y: seq<Limb>, i: nat, carry: nat, n: nat)
    requires RowAt(p, q, j, x, y, i, carry) && i + j < |p| && carry < BASE && n == RowSum(carry, q[i + j], x, y[i])
    ensures RowAt(p, q[i + j := n % BASE], j, x, y, i + 1, n / BASE)
  {
    hide MulRow, RowSum;
    var q' := q[i + j := n % BASE];
    assert q[i + j] == q[i + j..][0] == p[i + j];
    RowNext(p[j..], x, y, i, carry);
    assert q'[j..j + i + 1] == q[j..j + i] + [n % BASE];
    assert q'[i + j + 1..] == q[i + j..][1..] && p[i + j..][1..] == p[i + j + 1..];
  }

  lemma RowAtEnd(p: seq<Limb>, q: seq<Limb>, j: nat, x: Limb, y: seq<Limb>, i: nat, carry: nat)
    requires RowAt(p, q, j, x, y, i, carry) && i + j == |p|
    ensures q == p[..j] + MulRow(p[j..], x, y, 0)
  {
    assert p[j..][i..] == [] && q[j..j + i] == q[j..];
  }

  class Uint {
    const pn: array<Limb>

    constructor (width: nat)
      ensures fresh(pn) && pn.Length == width && pn[..] == Zeros(width) && Value() == 0
    {
      pn := new Limb[width](_ => 0);
      ZerosValue(width);
    }

    constructor Copy(b: Uint)
      ensures fresh(pn) && pn.Length == b.pn.Length && pn[..] == b.pn[..]
    {
      pn := new Limb[b.pn.Length](i requires 0 <= i < b.pn.Length reads b.pn => b.pn[i]);
    }

    ghost function Value(): nat
      reads pn
    {
      Val(pn[..])
    }

    /** One more than the greatest value. */
    ghost function Range(): nat { Pow(pn.Length) }

    method Clear()
      modifies pn
      ensures pn[..] == Zeros(pn.Length) && Value() == 0
    {
      for i := 0 to pn.Length
        invariant forall j | 0 <= j < i :: pn[j] == 0
      {
        pn[i] := 0;
      }
      ZerosValue(pn.Length);
      assert pn[..] == Zeros(pn.Length);
    }

    /** Assignment of a number of up to 64 bits. */
    method Assign(b: nat)
      requires pn.Length >= 2 && b < BASE * BASE
      modifies pn
      ensures Value() == b
    {
      hide Val;
      Clear();
      ghost var z := pn[..];
      pn[0] := b % BASE;
      pn[1] := b / BASE;
      assert pn[..] == [b % BASE, b / BASE] + Zeros(pn.Length - 2);
      TwoLimbs(pn[..]);
      assert pn[..][2..] == Zeros(pn.Length - 2);
      ZerosValue(pn.Length - 2);
    }

    /** The low 64 bits. */
    method GetLow64() returns (r: nat)
      requires pn.Length >= 2
      ensures r == Value() % (BASE * BASE)
    {
      hide Val;
      r := pn[0] as nat + BASE * (pn[1] as nat);
      TwoLimbs(pn[..]);
      ModIs(r, Val(pn[..][2..]), BASE * BASE, Value());
    }

    method AddAssign(b: Uint)
      requires b.pn.Length == pn.Length
      modifies pn
      ensures Value() == (old(Value()) + old(b.Value())) % Range()
    {
      hide Val, Pow, AddFrom;
      ghost var x, y := pn[..], b.pn[..];
      var carry := 0;
      var i := 0;
      assert x[0..] == x && y[0..] == y;
      while i < pn.Length
        invariant i <= pn.Length && 0 <= carry
        invariant forall k | i <= k < pn.Length :: pn[k] == x[k] && b.pn[k] == y[k]
        invariant AddFrom(x, y, 0) == pn[..i] + AddFrom(x[i..], y[i..], carry)
      {
        AddNext(x, y, i, carry);
        var n := carry + pn[i] + b.pn[i];
        pn[i] := n % BASE;
        carry := n / BASE;
        assert pn[..i + 1] == pn[..i] + [n % BASE];
        i := i + 1;
      }
      assert pn[..pn.Length] == pn[..] == AddFrom(x, y, 0);
      AddMod(x, y);
    }

    method Increment()
      modifies pn
      ensures Value() == if old(Value()) + 1 == Range() then 0 else old(Value()) + 1
    {
      hide Val, Pow;
      ghost var x := pn[..];
      IncrementedValue(x);
      var i := 0;
      while i < pn.Length && pn[i] == BASE - 1
        invariant i <= pn.Length && forall k | i <= k < pn.Length :: pn[k] == x[k]
        invariant forall k | 0 <= k < i :: x[k] == BASE - 1 && pn[k] == 0
      {
        pn[i] := 0;
        i := i + 1;
      }
      if i < pn.Length {
        pn[i] := pn[i] + 1;
      }
      CarryStops(x, pn[..], i);
    }

    method Decrement()
      modifies pn
      ensures Value() == if old(Value()) == 0 then Range() - 1 else old(Value()) - 1
    {
      hide Val, Pow;
      ghost var x := pn[..];
      DecrementedValue(x);
      var i := 0;
      while i < pn.Length && pn[i] == 0
        invariant i <= pn.Length && forall k | i <= k < pn.Length :: pn[k] == x[k]
        invariant forall k | 0 <= k < i :: x[k] == 0 && pn[k] == BASE - 1
      {
        pn[i] := BASE - 1;
        i := i + 1;
      }
      if i < pn.Length {
        pn[i] := pn[i] - 1;
      }
      BorrowStops(x, pn[..], i);
    }

    method Complement() returns (ret: Uint)
      ensures fresh(ret) && fresh(ret.pn) && ret.pn.Length == pn.Length && ret.Value() == Range() - 1 - Value()
    {
      ret := new Uint(pn.Length);
      for i := 0 to pn.Length
        invariant ret.pn.Length == pn.Length && fresh(ret.pn) && forall j | 0 <= j < i :: ret.pn[j] == BASE - 1 - pn[j]
      {
        ret.pn[i] := BASE - 1 - pn[i];
      }
      assert ret.pn[..] == Inverted(pn[..]);
      InvertedValue(pn[..]);
    }

    method Negate() returns (ret: Uint)
      ensures fresh(ret) && fresh(ret.pn) && ret.pn.Length == pn.Length
      ensures ret.Value() == if Value() == 0 then 0 else Range() - Value()
    {
      ValBound(pn[..]);
      ret := Complement();
      ret.Increment();
    }

    method SubAssign(b: Uint)
      requires b.pn.Length == pn.Length
      modifies pn
      ensures Value() == (old(Value()) - old(b.Value())) % Range()
    {
      ValBound(pn[..]);
      ValBound(b.pn[..]);
      var minus := b.Negate();
      Arith.ModNegate(Value(), b.Value(), Range());
      AddAssign(minus);
    }

    method CompareTo(b: Uint) returns (r: int)
      requires b.pn.Length == pn.Length
      ensures r == if Value() < b.Value() then -1 else if Value() > b.Value() then 1 else 0
    {
      hide Val;
      var i := pn.Length - 1;
      while i >= 0
        invariant -1 <= i < pn.Length && forall k | i < k < pn.Length :: pn[k] == b.pn[k]
      {
        if pn[i] < b.pn[i] {
          HighestDecides(pn[..], b.pn[..], i);
          return -1;
        }
        if pn[i] > b.pn[i] {
          HighestDecides(b.pn[..], pn[..], i);
          return 1;
        }
        i := i - 1;
      }
      assert pn[..] == b.pn[..];
      r := 0;
    }

    /** One row: adds x times b at limb j.  Each 64-bit sum is in range.  Only where all limbs are zero
        may the two numbers be the same. */
    method AddRow(x: Limb, b: Uint, j: nat)
      requires b.pn.Length == pn.Length && j <= pn.Length && (b.pn == pn ==> pn[..] == Zeros(pn.Length))
      modifies pn
      ensures pn[..] == old(pn[..j]) + MulRow(old(pn[j..]), x, old(b.pn[..]), 0) && b.pn[..] == old(b.pn[..])
    {
      hide Val, Pow, MulRow, RowSum, RowAt;
      ghost var p, y := pn[..], b.pn[..];
      var carry: nat := 0;
      var i := 0;
      RowSumZero(x);
      RowAtStart(p, j, x, y);
      while i + j < pn.Length
        invariant i + j <= pn.Length && carry < BASE && RowAt(p, pn[..], j, x, y, i, carry)
        invariant b.pn[..] == y && (b.pn == pn ==> carry == 0)
      {
        assert b.pn[i] == y[i];
        RowSumFits(carry, pn[i + j], x, b.pn[i]);
        var n := RowSum(carry, pn[i + j], x, b.pn[i]);
        assert n < 0x1_0000_0000_0000_0000;
        RowAtNext(p, pn[..], j, x, y, i, carry, n);
        ghost var q: seq<Limb> := pn[..];
        pn[i + j] := n % BASE;
        carry := n / BASE;
        assert pn[..] == q[i + j := pn[i + j]];
        i := i + 1;
      }
      RowAtEnd(p, pn[..], j, x, y, i, carry);
    }

    /** Multiplication.  This number is cleared first, so multiplying a number by itself in place
        gives zero; every other product is right. */
    method MulAssign(b: Uint)
      requires b.pn.Length == pn.Length
      modifies pn
      ensures Value() == if b.pn == pn then 0 else Times(old(Value()), old(b.Value())) % Range()
    {
      hide Val, Pow, MulRow, Rows, Times;
      var a := pn[..];
      Clear();
      ghost var y := b.pn[..];
      for j := 0 to pn.Length
        invariant Rows(pn[..], a, y, j) == Rows(Zeros(pn.Length), a, y, 0) && b.pn[..] == y
      {
        RowsNext(pn[..], a, y, j);
        ghost var p := pn[..];
        assert p[..j] == pn[..j] && p[j..] == pn[j..];
        AddRow(a[j], b, j);
      }
      RowsNext(pn[..], a, y, pn.Length);
      MulMod(a, y);
      if b.pn == pn {
        ZerosValue(pn.Length);
      }
    }

    method ShiftLeft(shift: nat)
      modifies pn
      ensures Value() == Times(old(Value()), Pow2(shift)) % Range()
    {
      hide Val, Pow, Times, Or, LeftLow, LeftHigh, Pow2, LeftSoFar;
      var a := pn[..];
      Clear();
      var k, t := shift / 32, shift % 32;
      ghost var w := pn.Length;
      LeftStarts(a, k, t);
      for i := 0 to pn.Length
        invariant forall m: nat | m < w :: pn[m] == LeftSoFar(a, k, t, i, m)
      {
        LeftContinues(a, k, t, i);
        if i + k + 1 < pn.Length && t != 0 {
          pn[i + k + 1] := Or(pn[i + k + 1], LeftHigh(a[i], t));
        }
        if i + k < pn.Length {
          pn[i + k] := Or(pn[i + k], LeftLow(a[i], t));
        }
      }
      LeftEnds(a, k, t, pn[..]);
      ShiftLeftMod(a, k, t);
    }

    method ShiftRight(shift: nat)
      modifies pn
      ensures Value() == old(Value()) / Pow2(shift)
    {
      hide Val, Pow, Or, RightLow, RightHigh, Pow2, RightBits;
      var a := pn[..];
      Clear();
      var k, t := shift / 32, shift % 32;
      ghost var w := pn.Length;
      for i := 0 to pn.Length
        invariant forall m: nat | m < w :: pn[m] == RightSoFar(a, k, t, i, m)
      {
        RightFits(a, i, k, t);
        OrZero(RightLow(a[i], t));
        if i - k - 1 >= 0 && t != 0 {
          pn[i - k - 1] := Or(pn[i - k - 1], RightHigh(a[i], t));
        }
        if i - k >= 0 {
          pn[i - k] := Or(pn[i - k], RightLow(a[i], t));
        }
      }
      RightDigits(a, k, t, pn[..]);
      ShiftRightDiv(a, k, t, pn[..]);
    }

    /** Multiplication by a 32-bit number. */
    method MulAssign32(b: Limb)
      modifies pn
      ensures Value() == Times(b, old(Value())) % Range()
    {
      hide Val, Pow, MulRow, RowSum, Times;
      ghost var y := pn[..];
      var carry: nat := 0;
      var i := 0;
      ghost var z := Zeros(pn.Length);
      assert z[0..] == z && y[0..] == y;
      while i < pn.Length
        invariant i <= pn.Length && carry < BASE && forall k | i <= k < pn.Length :: pn[k] == y[k]
        invariant MulRow(z, b, y, 0) == pn[..i] + MulRow(z[i..], b, y[i..], carry)
      {
        RowNext(z, b, y, i, carry);
        RowSumFits(carry, 0, b, pn[i]);
        var n := RowSum(carry, 0, b, pn[i]);
        ghost var done := pn[..i];
        pn[i] := n % BASE;
        carry := n / BASE;
        assert pn[..i + 1] == done + [n % BASE];
        i := i + 1;
      }
      assert pn[..] == pn[..i] && pn[..i] == MulRow(z, b, y, 0);
      ScaleMod(b, y);
    }

    /** The number of bits up to the highest that is set. */
    method Bits() returns (r: nat)
      ensures r <= 32 * pn.Length && Value() < Pow2(r) && (r > 0 ==> Pow2(r - 1) <= Value())
    {
      hide Val, Pow, Pow2;
      var pos := pn.Length - 1;
      while pos >= 0
        invariant -1 <= pos < pn.Length && forall k | pos < k < pn.Length :: pn[k] == 0
      {
        if pn[pos] != 0 {
          var nbits := TopBit(pn[pos]);
          TopLimb(pn[..], pos, nbits);
          return 32 * pos + nbits + 1;
        }
        pos := pos - 1;
      }
      assert pn[..] == Zeros(pn.Length);
      ZerosValue(pn.Length);
      NoBits();
      r := 0;
    }

    /** Sets one bit, below which all are clear. */
    method SetBit(shift: nat)
      requires shift < 32 * pn.Length && LowClear(pn[..], shift + 1)
      modifies pn
      ensures Value() == old(Value()) + Pow2(shift) && LowClear(pn[..], shift)
    {
      hide Val, Pow, Pow2, Or, LowClear;
      var l, t := shift / 32, shift % 32;
      SetBitFits(pn[..], shift);
      ghost var s := pn[..];
      pn[l] := Or(pn[l], Pow2(t));
      assert pn[..] == s[l := Or(s[l], Pow2(t))];
    }

    /** One round of division: subtract if possible, noting the bit, and halve the divisor. */
    method DivRound(num: Uint, div: Uint, shift: nat, ghost n: nat, ghost d: nat)
      requires num.pn.Length == pn.Length == div.pn.Length && num.pn != pn && div.pn != pn && num.pn != div.pn
      requires shift < 32 * pn.Length && LowClear(pn[..], shift + 1)
      requires DivOk(n, d, Value(), num.Value(), div.Value(), shift)
      modifies pn, num.pn, div.pn
      ensures LowClear(pn[..], shift) && DivOk(n, d, Value(), num.Value(), div.Value(), shift - 1)
    {
      hide Val, Pow, Pow2, LowClear, DivOk;
      ghost var q, x, y := Value(), num.Value(), div.Value();
      ValBound(num.pn[..]);
      ValBound(div.pn[..]);
      var cmp := num.CompareTo(div);
      LowClearLess(pn[..], shift);
      if cmp >= 0 {
        Arith.ModNegate(x, y, Range());
        num.SubAssign(div);
        SetBit(shift);
      }
      NoBits();
      div.ShiftRight(1);
      DivNext(n, d, q, x, y, shift);
    }

    /** Shift-and-subtract division.  False stands for the division-by-zero error. */
    method DivAssign(b: Uint) returns (ok: bool)
      requires b.pn.Length == pn.Length
      modifies pn
      ensures ok <==> old(b.Value()) != 0
      ensures Value() == if ok then Arith.Div(old(Value()), old(b.Value())) else 0
    {
      hide Val, Pow, Pow2, LowClear, DivOk, Times;
      var div := new Uint.Copy(b);
      var num := new Uint.Copy(this);
      ghost var n, d := Value(), b.Value();
      Clear();
      var numBits := num.Bits();
      var divBits := div.Bits();
      NoBits();
      if divBits == 0 {
        return false;
      }
      ok := true;
      DivStart(n, numBits, d, divBits, pn.Length);
      if divBits > numBits {
        return;
      }
      var shift: int := numBits - divBits;
      div.ShiftLeft(shift);
      ClearZeros(pn.Length, shift + 1);
      while shift >= 0
        invariant -1 <= shift < 32 * pn.Length && LowClear(pn[..], shift + 1)
        invariant DivOk(n, d, Value(), num.Value(), div.Value(), shift)
      {
        DivRound(num, div, shift, n, d);
        shift := shift - 1;
      }
      DivDone(n, d, Value(), num.Value(), div.Value());
    }
  }

  /** Three times three in place. */
  method SquareExample() returns (x: Uint)
    ensures fresh(x) && fresh(x.pn) && x.pn.Length == 8 && x.Value() == 0
  {
    x := new Uint(8);
    x.Assign(3);
    x.MulAssign(x);
  }

  // ---- Division ----

  /** The quotient so far and what remains make up the dividend; what remains is less than the next
      bit's worth doubled, and less than the divisor once all bits are done. */
  ghost predicate DivOk(n: nat, d: nat, q: nat, num: nat, div: nat, shift: int)
  {
    && d > 0 && q * d + num == n
    && if shift >= 0 then div == d * Pow2(shift) && num < 2 * div else num < d
  }

  /** All bits below m are clear. */
  ghost predicate LowClear(s: seq<Limb>, m: nat)
  {
    && (forall k: nat | k < |s| && 32 * k + 32 <= m :: s[k] == 0)
    && (m / 32 < |s| ==> exists h: nat :: s[m / 32] == h * Pow2(m % 32))
  }

  lemma ClearZeros(w: nat, m: nat)
    ensures LowClear(Zeros(w), m)
  {
    assert m / 32 < w ==> Zeros(w)[m / 32] == 0 * Pow2(m % 32);
  }

  lemma LowClearLess(s: seq<Limb>, m: nat)
    requires LowClear(s, m + 1)
    ensures LowClear(s, m)
  {
    var l, t := m / 32, m % 32;
    if l < |s| {
      if t == 31 {
        assert s[l] == 0 * Pow2(t);
      } else {
        assert (m + 1) / 32 == l && (m + 1) % 32 == t + 1;
        var h: nat :| s[l] == h * Pow2(t + 1);
        DoubleUp(h, Pow2(t), s[l]);
        assert s[l] == (2 * h) * Pow2(t);
      }
    }
  }

  lemma DoubleUp(h: nat, p: nat, x: nat)
    requires x == h * (2 * p)
    ensures x == (2 * h) * p
  {
  }

  lemma SetBitFits(s: seq<Limb>, shift: nat)
    requires shift < 32 * |s| && LowClear(s, shift + 1)
    ensures var l, t := shift / 32, shift % 32; var y := Or(s[l], Pow2(t));
      0 <= y < BASE && Val(s[l := y]) == Val(s) + Pow2(shift) && LowClear(s[l := y], shift)
  {
    hide Val, Pow, Or, Pow2, LowClear;
    var l, t := shift / 32, shift % 32;
    var h := ClearAbove(s, shift);
    Pow2Next(t);
    OrDisjoint(s[l], Pow2(t), h, t + 1);
    RoomForBit(s[l], h, t);
    var y: Limb := s[l] + Pow2(t);
    BitValue(s, l, t, y);
    BitClear(s, shift, h, y);
  }

  lemma BitValue(s: seq<Limb>, l: nat, t: nat, y: Limb)
    requires l < |s| && y == s[l] + Pow2(t)
    ensures Val(s[l := y]) == Val(s) + Pow2(32 * l + t)
  {
    hide Val, Pow, Pow2;
    ValUpdate(s, l, y);
    PowIsPow2(l);
    Pow2Sum(t, 32 * l);
    var x, p, P := s[l], Pow2(t), Pow(l);
    assert (x + p) * P == x * P + p * P;
  }

  lemma BitClear(s: seq<Limb>, shift: nat, h: nat, y: Limb)
    requires shift < 32 * |s| && LowClear(s, shift + 1)
    requires s[shift / 32] == h * Pow2(shift % 32 + 1) && y == s[shift / 32] + Pow2(shift % 32)
    ensures LowClear(s[shift / 32 := y], shift)
  {
    var l, t := shift / 32, shift % 32;
    Pow2Next(t);
    hide Pow2;
    NextMultiple(h, Pow2(t));
    assert s[l := y][l] == (2 * h + 1) * Pow2(t);
  }

  lemma NextMultiple(h: nat, p: nat)
    ensures h * (2 * p) + p == (2 * h + 1) * p
  {
  }

  lemma ClearAbove(s: seq<Limb>, shift: nat) returns (h: nat)
    requires shift < 32 * |s| && LowClear(s, shift + 1)
    ensures s[shift / 32] == h * Pow2(shift % 32 + 1)
  {
    var l, t := shift / 32, shift % 32;
    if t == 31 {
      h := 0;
    } else {
      assert (shift + 1) / 32 == l && (shift + 1) % 32 == t + 1;
      h :| s[l] == h * Pow2(t + 1);
    }
  }

  /** A limb clear up to bit t has room for it. */
  lemma RoomForBit(x: Limb, h: nat, t: nat)
    requires t < 32 && x == h * Pow2(t + 1)
    ensures x + Pow2(t) < BASE
  {
    hide Pow2;
    Pow2Bound(t + 1);
    Pow2Next(t);
    RoomAbove(x, h, Pow2(t + 1), Pow2(32 - (t + 1)));
  }

  lemma RoomAbove(x: Limb, h: nat, p: nat, r: nat)
    requires x == h * p && p * r == BASE
    ensures x + p <= BASE
  {
    if r <= h {
      Arith.MulMonotone(r, h, p);
    } else {
      Arith.MulMonotone(h + 1, r, p);
      assert (h + 1) * p == h * p + p;
    }
  }

  lemma ValUpdate(s: seq<Limb>, l: nat, y: Limb)
    requires l < |s|
    ensures Val(s[l := y]) + s[l] * Pow(l) == Val(s) + y * Pow(l)
  {
    hide Val, Pow;
    var r := s[l := y];
    ValSplit(s, l);
    ValSplit(r, l);
    assert r[..l] == s[..l] && r[l..][1..] == s[l..][1..];
    ValHead(s[l..]);
    ValHead(r[l..]);
    var P, v := Pow(l), Val(s[l..][1..]);
    assert P * (s[l] + BASE * v) == s[l] * P + P * (BASE * v);
    assert P * (y + BASE * v) == y * P + P * (BASE * v);
  }

  lemma DivNext(n: nat, d: nat, q: nat, x: nat, y: nat, shift: nat)
    requires DivOk(n, d, q, x, y, shift)
    ensures y <= x ==> DivOk(n, d, q + Pow2(shift), x - y, y / Pow2(1), shift - 1)
    ensures x < y ==> DivOk(n, d, q, x, y / Pow2(1), shift - 1)
  {
    hide Pow2;
    NoBits();
    Taken(q, d, Pow2(shift));
    if shift > 0 {
      Halved(d, y, shift);
    }
  }

  lemma Taken(q: nat, d: nat, p: nat)
    ensures (q + p) * d == q * d + d * p
  {
  }

  lemma Halved(d: nat, y: nat, shift: nat)
    requires shift > 0 && y == d * Pow2(shift)
    ensures y / Pow2(1) == d * Pow2(shift - 1) && y == 2 * (d * Pow2(shift - 1))
  {
    Pow2Next(0);
    Pow2Next(shift - 1);
    NoBits();
    hide Pow2;
    var p := Pow2(shift - 1);
    assert d * (2 * p) == 2 * (d * p);
  }

  lemma DivDone(n: nat, d: nat, q: nat, num: nat, div: nat)
    requires DivOk(n, d, q, num, div, -1)
    ensures q == Arith.Div(n, d)
  {
    Arith.QuotientOf(n, d, q, num);
  }

  /** Aligning the divisor with the dividend. */
  lemma DivStart(n: nat, numBits: nat, d: nat, divBits: nat, w: nat)
    requires n < Pow2(numBits) && numBits <= 32 * w && 0 < divBits && Pow2(divBits - 1) <= d < Pow2(divBits)
    ensures d > 0 && (numBits < divBits ==> Arith.Div(n, d) == 0)
    ensures divBits <= numBits ==>
      Times(d, Pow2(numBits - divBits)) % Pow(w) == Times(d, Pow2(numBits - divBits))
      && DivOk(n, d, 0, n, Times(d, Pow2(numBits - divBits)), numBits - divBits)
  {
    PowIsPow2(w);
    hide Pow, Pow2;
    if numBits < divBits {
      Pow2Grows(numBits, divBits - 1);
      Arith.QuotientOf(n, d, 0, n);
    } else {
      var shift := numBits - divBits;
      Pow2Sum(divBits, shift);
      Pow2Sum(divBits - 1, shift);
      Pow2Grows(numBits, 32 * w);
      Aligned(n, d, Pow2(divBits - 1), Pow2(divBits), Pow2(shift), Pow2(numBits), Pow2(numBits - 1));
      assert Pow2(numBits) == 2 * Pow2(numBits - 1) by {
        Pow2Next(numBits - 1);
      }
      Arith.QuotientOf(Times(d, Pow2(shift)), Pow(w), 0, Times(d, Pow2(shift)));
    }
  }

  lemma Aligned(n: nat, d: nat, lo: nat, hi: nat, p: nat, top: nat, half: nat)
    requires lo <= d < hi && p > 0 && hi * p == top && lo * p == half
    ensures Times(d, p) < top && half <= d * p && 0 * d == 0
  {
    Arith.MulMonotone(lo, d, p);
    Arith.MulMonotone(d + 1, hi, p);
    assert (d + 1) * p == d * p + p;
  }

  lemma TwoLimbs(s: seq<Limb>)
    requires |s| >= 2
    ensures Val(s) == (s[0] as nat) + BASE * (s[1] as nat) + (BASE * BASE) * Val(s[2..])
    ensures (s[0] as nat) + BASE * (s[1] as nat) < BASE * BASE
  {
    assert s[1..][1..] == s[2..];
    assert Val(s[1..]) == s[1] + BASE * Val(s[2..]);
  }

  lemma AddNext(x: seq<Limb>, y: seq<Limb>, i: nat, carry: nat)
    requires i < |x| == |y|
    ensures var n := carry + x[i] + y[i];
      AddFrom(x[i..], y[i..], carry) == [n % BASE] + AddFrom(x[i + 1..], y[i + 1..], n / BASE)
  {
    assert x[i..][1..] == x[i + 1..] && y[i..][1..] == y[i + 1..];
  }

  /** The carry runs through the limbs that wrap and stops at the first that does not. */
  lemma {:induction false} CarryStops(x: seq<Limb>, r: seq<Limb>, i: nat)
    requires |r| == |x| && i <= |x| && forall k | 0 <= k < i :: x[k] == BASE - 1 && r[k] == 0
    requires i < |x| ==> x[i] < BASE - 1 && r[i] == x[i] + 1
    requires forall k | i < k < |x| :: r[k] == x[k]
    ensures r == Incremented(x)
  {
    if x != [] && i > 0 {
      CarryStops(x[1..], r[1..], i - 1);
    }
    assert r != [] ==> r == [r[0]] + r[1..];
  }

  lemma {:induction false} BorrowStops(x: seq<Limb>, r: seq<Limb>, i: nat)
    requires |r| == |x| && i <= |x| && forall k | 0 <= k < i :: x[k] == 0 && r[k] == BASE - 1
    requires i < |x| ==> x[i] > 0 && r[i] == x[i] - 1
    requires forall k | i < k < |x| :: r[k] == x[k]
    ensures r == Decremented(x)
  {
    if x != [] && i > 0 {
      BorrowStops(x[1..], r[1..], i - 1);
    }
    assert r != [] ==> r == [r[0]] + r[1..];
  }

  lemma RowNext(p: seq<Limb>, x: Limb, b: seq<Limb>, i: nat, carry: nat)
    requires i < |p| <= |b|
    ensures var n := RowSum(carry, p[i], x, b[i]);
      MulRow(p[i..], x, b[i..], carry) == [n % BASE] + MulRow(p[i + 1..], x, b[i + 1..], n / BASE)
  {
    assert p[i..][1..] == p[i + 1..] && b[i..][1..] == b[i + 1..];
  }

  lemma OrZero(x: nat)
    ensures Or(0, x) == x && Or(x, 0) == x
  {
  }

  /** What limb i of a left shift receives from the limb before. */
  function PassedIn(a: seq<Limb>, i: nat, t: nat): nat
    requires i <= |a| && t < 32
  {
    if i == 0 then 0 else LeftHigh(a[i - 1], t)
  }

  function LeftDigit(a: seq<Limb>, i: nat, t: nat): nat
    requires i < |a| && t < 32
  {
    Or(PassedIn(a, i, t), LeftLow(a[i], t))
  }

  /** Limb m of a left shift once the first i limbs are in. */
  function LeftSoFar(a: seq<Limb>, k: nat, t: nat, i: nat, m: nat): nat
    requires i <= |a| && m < |a| && t < 32
  {
    if m < k || k + i < m then 0
    else if m == k + i then PassedIn(a, i, t)
    else LeftDigit(a, m - k, t)
  }

  lemma LeftStarts(a: seq<Limb>, k: nat, t: nat)
    requires t < 32
    ensures forall m: nat | m < |a| :: LeftSoFar(a, k, t, 0, m) == 0
  {
  }

  lemma LeftContinues(a: seq<Limb>, k: nat, t: nat, i: nat)
    requires t < 32 && i < |a|
    ensures forall m: nat | m < |a| ::
      LeftSoFar(a, k, t, i + 1, m) ==
        (if m == i + k then Or(LeftSoFar(a, k, t, i, m), LeftLow(a[i], t))
         else if m == i + k + 1 && t != 0 then Or(LeftSoFar(a, k, t, i, m), LeftHigh(a[i], t))
         else LeftSoFar(a, k, t, i, m)) < BASE
    ensures i + k + 1 < |a| ==> 0 <= Or(LeftSoFar(a, k, t, i, i + k + 1), LeftHigh(a[i], t)) < BASE
  {
    hide Or, LeftLow, LeftHigh, Pow2;
    OrZero(LeftHigh(a[i], t));
    NoneHigh(a[i], t);
    forall j: nat | j <= i ensures LeftDigit(a, j, t) < BASE && LeftHigh(a[j], t) < BASE {
      LeftFits(a, j, t);
    }
  }

  lemma LeftEnds(a: seq<Limb>, k: nat, t: nat, r: seq<Limb>)
    requires t < 32 && |r| == |a| && forall m: nat | m < |a| :: r[m] == LeftSoFar(a, k, t, |a|, m)
    ensures r == ShiftedLeft(a, k, t)
  {
    hide LeftDigit, ShiftedLeft;
    LeftDigits(a, k, t, r);
  }

  lemma NoneHigh(x: Limb, t: nat)
    ensures t == 0 ==> LeftHigh(x, 0) == 0
  {
    Pow2Base();
    hide Pow2;
    if t == 0 {
      Arith.QuotientOf(x, BASE, 0, x);
    }
  }

  lemma LeftFits(a: seq<Limb>, i: nat, t: nat)
    requires i < |a| && t < 32
    ensures 0 <= LeftDigit(a, i, t) < BASE && LeftHigh(a[i], t) < Pow2(t) <= BASE
  {
    hide Pow2, Or, LeftLow, LeftHigh;
    Pow2Bound(t);
    if i == 0 {
      LeftParts(a[0], t, 0);
    } else {
      LeftParts(a[i - 1], t, 0);
      LeftParts(a[i], t, LeftHigh(a[i - 1], t));
    }
  }

  /** The digits written are those of the shifted number. */
  lemma LeftDigits(a: seq<Limb>, k: nat, t: nat, r: seq<Limb>)
    requires t < 32 && |r| == |a|
    requires forall m | 0 <= m < |a| :: r[m] == if m < k then 0 else LeftDigit(a, m - k, t)
    ensures r == ShiftedLeft(a, k, t)
  {
    hide LeftDigit, MulRow, Pow2;
    if k < |a| {
      var n := |a| - k;
      Pow2Bound(t);
      var row := MulRow(Zeros(n), Pow2(t), a[..n], 0);
      forall m | 0 <= m < n ensures row[m] == LeftDigit(a, m, t) {
        assert a[..n][0..] == a[..n] && Zeros(n)[0..] == Zeros(n);
        RowDigit(a, n, t, 0, m);
      }
      assert r == Zeros(k) + row;
    }
  }

  lemma {:induction false} RowDigit(a: seq<Limb>, n: nat, t: nat, i: nat, m: nat)
    requires t < 32 && n <= |a| && i <= m < n
    ensures Pow2(t) < BASE
    ensures MulRow(Zeros(n)[i..], Pow2(t), a[..n][i..], PassedIn(a, i, t))[m - i] == LeftDigit(a, m, t)
    decreases m - i
  {
    hide Pow2, Or, MulRow, LeftLow, LeftHigh;
    Pow2Bound(t);
    LeftFits(a, i, t);
    if i > 0 {
      LeftFits(a, i - 1, t);
    } else {
      assert PassedIn(a, 0, t) < Pow2(t);
    }
    LeftParts(a[i], t, PassedIn(a, i, t));
    RowNext(Zeros(n), Pow2(t), a[..n], i, PassedIn(a, i, t));
    if i < m {
      RowDigit(a, n, t, i + 1, m);
    }
  }

  /** Limb m of a right shift once the first i limbs are in. */
  function RightSoFar(a: seq<Limb>, k: nat, t: nat, i: nat, m: nat): nat
    requires i <= |a| && t < 32
  {
    if k + m >= i then 0
    else if k + m + 1 == i then RightLow(a[k + m], t)
    else Or(RightLow(a[k + m], t), RightHigh(a[k + m + 1], t))
  }

  lemma RightFits(a: seq<Limb>, i: nat, k: nat, t: nat)
    requires i < |a| && t < 32
    ensures RightLow(a[i], t) < BASE
    ensures i > 0 ==> Or(RightLow(a[i - 1], t), RightHigh(a[i], t)) < BASE
    ensures t == 0 && i > 0 ==> Or(RightLow(a[i - 1], t), RightHigh(a[i], t)) == RightLow(a[i - 1], t)
  {
    hide Pow2, Or, RightLow, RightHigh;
    RightSum(a[i], 0, t);
    if i > 0 {
      RightParts(a[i - 1], a[i], t);
      RightSum(a[i - 1], a[i], t);
      if t == 0 {
        NonePassedDown(a[i]);
      }
    }
  }

  lemma NonePassedDown(x: Limb)
    ensures RightHigh(x, 0) == 0
  {
    Pow2Base();
    hide Pow2;
    Arith.QuotientOf(x * BASE, BASE, x, 0);
  }

  lemma {:induction false} RightDigit(s: seq<Limb>, t: nat, m: nat)
    requires t < 32 && m < |s|
    ensures RightBits(s, t)[m] == RightLow(s[m], t) + if m + 1 < |s| then RightHigh(s[m + 1], t) else 0
  {
    hide RightLow, RightHigh;
    if m > 0 {
      RightDigit(s[1..], t, m - 1);
    }
  }

  lemma RightDigits(a: seq<Limb>, k: nat, t: nat, r: seq<Limb>)
    requires t < 32 && |r| == |a|
    requires forall m: nat | m < |a| :: r[m] == RightSoFar(a, k, t, |a|, m)
    ensures IsShiftedRight(a, k, t, r)
  {
    hide RightLow, RightHigh, Or, RightBits;
    if k < |a| {
      forall m | 0 <= m < |a| - k ensures r[m] == RightBits(a[k..], t)[m] {
        RightDigit(a[k..], t, m);
        if k + m + 1 < |a| {
          RightParts(a[k + m], a[k + m + 1], t);
        }
      }
    }
  }

  /** The highest bit set in a limb. */
  method TopBit(x: Limb) returns (nbits: nat)
    requires x != 0
    ensures nbits < 32 && Pow2(nbits) <= x < Pow2(nbits + 1)
  {
    Pow2Base();
    hide Pow2;
    nbits := 31;
    while nbits > 0
      invariant nbits < 32 && x < Pow2(nbits + 1)
    {
      BitTest(x, nbits);
      if Arith.Div(x, Pow2(nbits)) % 2 == 1 {
        return;
      }
      nbits := nbits - 1;
    }
    NoBits();
  }

  lemma BitTest(x: nat, n: nat)
    requires x < Pow2(n + 1)
    ensures Arith.Div(x, Pow2(n)) % 2 == 1 <==> Pow2(n) <= x
  {
    var p := Pow2(n);
    assert Pow2(n + 1) == 2 * p;
    if p <= x {
      Arith.QuotientOf(x, p, 1, x - p);
    } else {
      Arith.QuotientOf(x, p, 0, x);
    }
  }

  lemma NoBits()
    ensures Pow2(0) == 1
  {
  }

  /** With zeros above it, the top limb gives the number of bits. */
  lemma TopLimb(s: seq<Limb>, pos: nat, nbits: nat)
    requires pos < |s| && (forall k | pos < k < |s| :: s[k] == 0) && Pow2(nbits) <= s[pos] < Pow2(nbits + 1)
    ensures Pow2(32 * pos + nbits) <= Val(s) < Pow2(32 * pos + nbits + 1)
  {
    hide Val, Pow, Pow2;
    ValSplit(s, pos);
    ValBound(s[..pos]);
    assert s[pos..] == [s[pos]] + Zeros(|s| - pos - 1);
    ZerosValue(|s| - pos - 1);
    ValHead(s[pos..]);
    assert s[pos..][1..] == Zeros(|s| - pos - 1);
    PowIsPow2(pos);
    Pow2Sum(32 * pos, nbits);
    Pow2Sum(32 * pos, nbits + 1);
    Scaled(Val(s[..pos]), Pow(pos), Pow2(nbits), s[pos], Pow2(nbits + 1));
  }

  lemma Scaled(low: nat, P: nat, a: nat, x: nat, b: nat)
    requires low < P && a <= x < b
    ensures P * a <= low + P * x < P * b
  {
    Arith.MulMonotone(a, x, P);
    Arith.HighPartDecides(low, P, x, 0, b);
  }

  lemma ScaleMod(b: Limb, y: seq<Limb>)
    ensures Val(MulRow(Zeros(|y|), b, y, 0)) == Times(b, Val(y)) % Pow(|y|)
  {
    hide Val, Pow, MulRow;
    RowValue(Zeros(|y|), b, y, 0);
    ZerosValue(|y|);
    assert y[..|y|] == y;
    ValBound(MulRow(Zeros(|y|), b, y, 0));
    hide Times;
    assert Times(b, Val(y)) == Val(MulRow(Zeros(|y|), b, y, 0)) + RowCarry(Zeros(|y|), b, y, 0) * Pow(|y|) by {
      TimesIs(b, Val(y));
    }
    ModIs(Val(MulRow(Zeros(|y|), b, y, 0)), RowCarry(Zeros(|y|), b, y, 0), Pow(|y|), Times(b, Val(y)));
  }

  lemma TimesIs(x: nat, y: nat)
    ensures Times(x, y) == x * y
  {
  }
}
