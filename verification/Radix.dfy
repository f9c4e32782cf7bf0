/** Numbers in positional notation, most significant digit first, in any base. */
module Radix {
  import Arith

  function Pow(b: nat, n: nat): nat
  {
    if n == 0 then 1 else b * Pow(b, n - 1)
  }

  predicate AreDigits(s: seq<nat>, b: nat)
  {
    forall i | 0 <= i < |s| :: s[i] < b
  }

  function Val(s: seq<nat>, b: nat): nat
  {
    if s == [] then 0 else Val(s[..|s| - 1], b) * b + s[|s| - 1]
  }

  lemma {:induction false} PowPositive(b: nat, n: nat)
    requires b > 0
    ensures Pow(b, n) > 0
  {
    if n > 0 {
      PowPositive(b, n - 1);
      Arith.MulMonotone(1, b, Pow(b, n - 1));
    }
  }

  lemma {:induction false} PowSum(b: nat, m: nat, n: nat)
    ensures Pow(b, m + n) == Pow(b, m) * Pow(b, n)
  {
    if m == 0 {
      assert Pow(b, 0) == 1;
    } else {
      hide Pow;
      PowSum(b, m - 1, n);
      PowNext(b, m);
      PowNext(b, m + n);
      Arith.Reassociate(b, Pow(b, m - 1), Pow(b, n));
    }
  }

  lemma {:induction false} PowProduct(b: nat, m: nat, n: nat)
    ensures Pow(b, m * n) == Pow(Pow(b, m), n)
  {
    if n > 0 {
      PowProduct(b, m, n - 1);
      assert m * n == m + m * (n - 1);
      PowSum(b, m, m * (n - 1));
    } else {
      assert m * 0 == 0;
    }
  }

  lemma {:induction false} PowMonotone(a: nat, b: nat, n: nat)
    requires a <= b
    ensures Pow(a, n) <= Pow(b, n)
  {
    if n > 0 {
      PowMonotone(a, b, n - 1);
      Arith.MulMonotone(Pow(a, n - 1), Pow(b, n - 1), a);
      Arith.MulMonotone(a, b, Pow(b, n - 1));
    }
  }

  lemma PowGrows(b: nat, m: nat, n: nat)
    requires b > 1 && m < n
    ensures Pow(b, m) < Pow(b, n)
  {
    hide Pow;
    PowSum(b, m, n - m);
    PowPositive(b, m);
    PowAtLeast(b, n - m);
    Arith.MulMonotone(2, Pow(b, n - m), Pow(b, m));
  }

  lemma PowAtLeast(b: nat, n: nat)
    requires b > 1 && n > 0
    ensures Pow(b, n) >= 2
  {
    PowPositive(b, n - 1);
    Arith.MulMonotone(b, Pow(b, n), 1);
    Arith.MulMonotone(1, Pow(b, n - 1), b);
  }

  lemma {:induction false} ValBound(s: seq<nat>, b: nat)
    requires AreDigits(s, b)
    ensures Val(s, b) < Pow(b, |s|)
  {
    if s != [] {
      var n := |s| - 1;
      ValBound(s[..n], b);
      var v, p := Val(s[..n], b), Pow(b, n);
      Arith.MulMonotone(v + 1, p, b);
      assert (v + 1) * b == v * b + b && p * b == b * p;
    }
  }

  /** High digits and low digits. */
  lemma {:induction false} ValSplit(s: seq<nat>, b: nat, k: nat)
    requires k <= |s|
    ensures Val(s, b) == Val(s[..k], b) * Pow(b, |s| - k) + Val(s[k..], b)
  {
    hide Val, Pow;
    ValLast(s, b);
    ValLast(s[k..], b);
    PowNext(b, |s| - k);
    if k == |s| {
      assert s[..k] == s;
    } else {
      var n := |s| - 1;
      ValSplit(s[..n], b, k);
      assert s[..n][..k] == s[..k] && s[..n][k..] == s[k..][..n - k];
      HornerSplit(Val(s[..k], b), Pow(b, n - k), Val(s[..n][k..], b), b);
    }
  }

  lemma ValLast(s: seq<nat>, b: nat)
    ensures Val(s, b) == if s == [] then 0 else Val(s[..|s| - 1], b) * b + s[|s| - 1]
  {
  }

  lemma PowNext(b: nat, n: nat)
    ensures Pow(b, n) == if n == 0 then 1 else b * Pow(b, n - 1)
  {
  }

  lemma HornerSplit(hi: nat, p: nat, lo: nat, b: nat)
    ensures (hi * p + lo) * b == hi * (b * p) + lo * b
  {
    assert (hi * p) * b == hi * (b * p);
  }

  lemma {:induction false} ValZeros(s: seq<nat>, b: nat)
    requires forall i | 0 <= i < |s| :: s[i] == 0
    ensures Val(s, b) == 0
  {
    if s != [] {
      ValZeros(s[..|s| - 1], b);
    }
  }

  /** Leading zeros do not count. */
  lemma ValTrim(s: seq<nat>, b: nat, k: nat)
    requires k <= |s| && forall i | 0 <= i < k :: s[i] == 0
    ensures Val(s, b) == Val(s[k..], b)
  {
    hide Val, Pow;
    ValSplit(s, b, k);
    ValZeros(s[..k], b);
  }

  predicate Minimal(s: seq<nat>) { s == [] || s[0] != 0 }

  /** Without leading zeros, a number has only one notation. */
  lemma {:induction false} Unique(s: seq<nat>, t: seq<nat>, b: nat)
    requires b > 1 && AreDigits(s, b) && AreDigits(t, b) && Minimal(s) && Minimal(t) && Val(s, b) == Val(t, b)
    ensures s == t
  {
    if s == [] || t == [] {
      ValPositive(s, b);
      ValPositive(t, b);
    } else {
      var m, n := |s| - 1, |t| - 1;
      LastDigit(s, b);
      LastDigit(t, b);
      Unique(s[..m], t[..n], b);
      assert s == s[..m] + [s[m]] && t == t[..n] + [t[n]];
    }
  }

  lemma LastDigit(s: seq<nat>, b: nat)
    requires b > 1 && s != [] && AreDigits(s, b)
    ensures Val(s, b) % b == s[|s| - 1] && Val(s, b) / b == Val(s[..|s| - 1], b)
  {
    Arith.QuotientOf(Val(s, b), b, Val(s[..|s| - 1], b), s[|s| - 1]);
  }

  lemma {:induction false} ValPositive(s: seq<nat>, b: nat)
    requires b > 1 && Minimal(s)
    ensures s != [] ==> Val(s, b) > 0
  {
    if |s| > 1 {
      ValPositive(s[..|s| - 1], b);
      Arith.MulMonotone(1, b, Val(s[..|s| - 1], b));
    }
  }

  /** The digits of a number. */
  function Digits(n: nat, b: nat): seq<nat>
    requires b > 1
  {
    if n == 0 then []
    else
      Arith.QuotientLess(n, b);
      Digits(Arith.Div(n, b), b) + [n % b]
  }

  lemma {:induction false} DigitsOf(n: nat, b: nat)
    requires b > 1
    ensures AreDigits(Digits(n, b), b) && Minimal(Digits(n, b)) && Val(Digits(n, b), b) == n
  {
    if n > 0 {
      Arith.QuotientLess(n, b);
      Arith.DivMod(n, b);
      var q := Arith.Div(n, b);
      DigitsOf(q, b);
      hide Arith.Div;
      var d := Digits(n, b);
      assert d == Digits(q, b) + [n % b] && d[..|d| - 1] == Digits(q, b);
      assert Digits(q, b) != [] ==> d[0] == Digits(q, b)[0];
      assert Digits(q, b) == [] ==> q == 0;
    }
  }

  lemma DigitsUnique(s: seq<nat>, b: nat)
    requires b > 1 && AreDigits(s, b) && Minimal(s)
    ensures Digits(Val(s, b), b) == s
  {
    DigitsOf(Val(s, b), b);
    Unique(s, Digits(Val(s, b), b), b);
  }
}
