/**
 The heights that skip links lead to, and how many links the search for an ancestor follows: at most
 about a quarter of the square of the number of bits of the height.
 */
module SkipHeights {
  import opened Arith

  /** n & (n - 1): the lowest one bit turned off. */
  function InvertLowestOne(n: nat): (r: nat)
    ensures n > 0 ==> r < n
  {
    if n == 0 then 0 else if n % 2 == 1 then n - 1 else 2 * InvertLowestOne(n / 2)
  }

  function GetSkipHeight(height: nat): (r: nat)
    ensures height > 0 ==> r < height
  {
    if height < 2 then 0
    else if height % 2 == 1 then InvertLowestOne(InvertLowestOne(height - 1)) + 1
    else InvertLowestOne(height)
  }

  /** Whether the search for height t takes the skip link at height h: where that does not overshoot
      or give way to a better one just below. */
  predicate TakesSkip(h: nat, t: nat)
    requires h > 0
  {
    var skip, skipPrev := GetSkipHeight(h), GetSkipHeight(h - 1);
    skip == t || (skip > t && !(skipPrev < skip - 2 && skipPrev >= t))
  }

  function NextHeight(h: nat, t: nat): (r: nat)
    requires h > t
    ensures t <= r < h
  {
    if TakesSkip(h, t) then GetSkipHeight(h) else h - 1
  }

  /** How many links the search follows where every block has its skip link. */
  function Steps(h: nat, t: nat): nat
    requires h >= t
  {
    if h == t then 0 else 1 + Steps(NextHeight(h, t), t)
  }

  lemma StepsNext(h: nat, t: nat)
    requires h > t
    ensures Steps(h, t) == 1 + Steps(NextHeight(h, t), t)
  {
  }

  lemma StepsDone(t: nat)
    ensures Steps(t, t) == 0
  {
  }

  // ---- The lowest one bit ----

  /** The place of the lowest one bit. */
  function Low(n: nat): nat
    requires n > 0
  {
    if n % 2 == 1 then 0 else 1 + Low(n / 2)
  }

  lemma LowDouble(m: nat)
    requires m > 0
    ensures Low(2 * m) == 1 + Low(m) && InvertLowestOne(2 * m) == 2 * InvertLowestOne(m)
  {
  }

  lemma LowOdd(m: nat)
    ensures Low(2 * m + 1) == 0 && InvertLowestOne(2 * m + 1) == 2 * m
  {
  }

  lemma {:induction false} LowCleared(n: nat)
    requires n > 0
    ensures Pow2(Low(n)) <= n && InvertLowestOne(n) == n - Pow2(Low(n))
    ensures InvertLowestOne(n) > 0 ==> Low(InvertLowestOne(n)) > Low(n)
  {
    hide Low, InvertLowestOne, Pow2;
    var m := n / 2;
    Pow2Small();
    if n == 2 * m {
      LowDouble(m);
      LowCleared(m);
      Pow2Next(Low(m));
      if InvertLowestOne(m) > 0 {
        LowDouble(InvertLowestOne(m));
      }
    } else {
      assert n == 2 * m + 1;
      LowOdd(m);
      if m > 0 {
        LowDouble(m);
      }
    }
  }

  /** Below its lowest one bit, taking away a power of two leaves that power as the lowest one bit. */
  lemma {:induction false} LowBelow(n: nat, j: nat)
    requires n > 0 && j < Low(n)
    ensures Pow2(j) < n && Low(n - Pow2(j)) == j
  {
    hide Low, Pow2;
    var m := n / 2;
    Pow2Small();
    EvenLow(n);
    assert n == 2 * m;
    LowDouble(m);
    if j == 0 {
      LowOdd(m - 1);
    } else {
      LowBelow(m, j - 1);
      Pow2Next(j - 1);
      LowDouble(m - Pow2(j - 1));
    }
  }

  lemma {:induction false} LowBound(n: nat, size: nat)
    requires 0 < n < Pow2(size)
    ensures Low(n) < size
  {
    if n % 2 == 0 {
      LowBound(n / 2, size - 1);
    }
  }

  lemma EvenLow(n: nat)
    requires n > 0
    ensures n % 2 == 0 <==> Low(n) >= 1
  {
  }

  /** The two skip heights the search compares, at an even height and just above one. */
  lemma SkipEven(o: nat)
    requires o > 0 && o % 2 == 0
    ensures GetSkipHeight(o) == InvertLowestOne(o)
    ensures GetSkipHeight(o + 1) == InvertLowestOne(InvertLowestOne(o)) + 1
  {
  }

  /** Just above an even height the skip link is taken whenever it does not overshoot. */
  lemma OddTakes(o: nat, t: nat)
    requires o > 0 && o % 2 == 0 && t <= o
    ensures NextHeight(o + 1, t) == var s := InvertLowestOne(InvertLowestOne(o)) + 1; if s >= t then s else o
  {
    SkipEven(o);
  }

  // ---- Close to the target ----

  /** The weight of a level. */
  function Weight(k: nat): nat { k * k + 8 * k }

  lemma WeightGrows(i: nat, j: nat)
    requires i <= j
    ensures Weight(i) <= Weight(j)
  {
    MulMonotone(i, j, i);
    MulMonotone(i, j, j);
  }

  lemma WeightNext(k: nat)
    requires k > 0
    ensures 2 * k + 6 + Weight(k - 1) <= Weight(k)
  {
  }

  /** The search, from x with lowest one bit k, is for a height within 2^k below. */
  predicate Near(x: nat, k: nat, t: nat)
  {
    x > 0 && k >= 1 && Low(x) == k && x - Pow2(k) <= t < x
  }

  /** x - 2^j for j up to k: the even heights the search comes by. */
  lemma Rungs(x: nat, k: nat, t: nat, j: nat)
    requires Near(x, k, t) && 1 <= j < k
    ensures Pow2(j) < x && x - Pow2(j) > 0 && (x - Pow2(j)) % 2 == 0 && Low(x - Pow2(j)) == j
    ensures Pow2(j + 1) == 2 * Pow2(j) && Pow2(j + 1) <= x
    ensures InvertLowestOne(x - Pow2(j)) == x - Pow2(j + 1)
  {
    hide Pow2, Low;
    LowBelow(x, j);
    LowCleared(x - Pow2(j));
    EvenLow(x - Pow2(j));
    Pow2Next(j);
    LowCleared(x);
    Pow2Grows(j + 1, k);
  }

  /** From a height one above a rung, the skip link leads past two rungs, or else ends up no higher
      than the target. */
  lemma RungSkip(x: nat, k: nat, t: nat, j: nat)
    requires Near(x, k, t) && 1 <= j < k && x - Pow2(k) < t
    ensures Pow2(j) < x
    ensures j + 2 <= k ==> Pow2(j + 2) <= x && InvertLowestOne(InvertLowestOne(x - Pow2(j))) == x - Pow2(j + 2)
    ensures j + 1 == k ==> InvertLowestOne(InvertLowestOne(x - Pow2(j))) + 1 <= t
  {
    hide Low, Pow2, InvertLowestOne;
    Rungs(x, k, t, j);
    if j + 2 <= k {
      Rungs(x, k, t, j + 1);
    } else {
      BelowBase(x - Pow2(k));
    }
  }

  lemma BelowBase(base: nat)
    ensures InvertLowestOne(base) <= base
  {
  }

  /** At a rung from which the next one does not overshoot but the one after would, the skip link to
      the next is taken: the one just below leads too far down or hardly down at all. */
  lemma RungTakes(x: nat, k: nat, t: nat, j: nat)
    requires Near(x, k, t) && 1 <= j && j + 2 <= k && Pow2(j + 2) <= x && Pow2(j + 1) <= x && Pow2(j) < x
    requires x - Pow2(j + 2) + 1 < t < x - Pow2(j + 1)
    ensures NextHeight(x - Pow2(j), t) == x - Pow2(j + 1)
  {
    hide Low, InvertLowestOne, Pow2;
    Rungs(x, k, t, j);
    var z := x - Pow2(j);
    SkipEven(z);
    if j >= 3 {
      JustBelow(z, j);
    } else {
      FirstRungs(x, k, t, j);
    }
  }

  /** Just below a rung with a high lowest bit, the skip link leads down by six only. */
  lemma JustBelow(z: nat, j: nat)
    requires z > 0 && Low(z) == j >= 3
    ensures GetSkipHeight(z - 1) == z - 7 && Pow2(j) >= 8
  {
    hide InvertLowestOne, Low;
    Pow2Small();
    Pow2Grows(3, j);
    LowCleared(z);
    LowBelow(z, 1);
    LowBelow(z, 2);
    LowCleared(z - 2);
    LowCleared(z - 4);
    EvenLow(z - 2);
    SkipEven(z - 2);
  }

  lemma Pow2Small()
    ensures Pow2(0) == 1 && Pow2(1) == 2 && Pow2(2) == 4 && Pow2(3) == 8
  {
    Pow2Next(0);
    Pow2Next(1);
    Pow2Next(2);
  }

  lemma FirstRungs(x: nat, k: nat, t: nat, j: nat)
    requires Near(x, k, t) && 1 <= j <= 2 && j + 2 <= k && Pow2(j + 2) <= x && Pow2(j) < x
    requires x - Pow2(j + 2) + 1 < t
    ensures GetSkipHeight(x - Pow2(j) - 1) < t
  {
    hide InvertLowestOne, Low;
    Pow2Small();
    Pow2Next(3);
    Rungs(x, k, t, 2);
    if j == 1 {
      SkipEven(x - 4);
      if k >= 4 {
        Rungs(x, k, t, 3);
      } else {
        LowCleared(x);
        BelowBase(x - 8);
      }
    } else {
      Rungs(x, k, t, 3);
      LowBelow(x - 4, 1);
      LowCleared(x - 6);
      EvenLow(x - 6);
      SkipEven(x - 6);
    }
  }

  /** From one above rung j to the target. */
  lemma {:induction false} OddChain(x: nat, k: nat, t: nat, j: nat)
    requires Near(x, k, t) && 1 <= j < k && Pow2(j) < x && x - Pow2(k) < t < x - Pow2(j) + 1
    ensures 4 * Steps(x - Pow2(j) + 1, t) <= 2 * (k - j) + 4 + Weight(k - 1)
    decreases k, 0, k - j
  {
    hide Low, InvertLowestOne, Pow2, Weight, NextHeight;
    var z := x - Pow2(j);
    Rungs(x, k, t, j);
    RungSkip(x, k, t, j);
    OddTakes(z, t);
    var s := InvertLowestOne(InvertLowestOne(z)) + 1;
    if s > t {
      OneAboveBase(x, k, t, j);
      OddChain(x, k, t, j + 2);
    } else if s < t && t < z {
      RungDown(x, k, t, j);
    }
  }

  lemma OneAboveBase(x: nat, k: nat, t: nat, j: nat)
    requires Near(x, k, t) && 1 <= j < k && Pow2(j) < x && x - Pow2(k) < t
    requires InvertLowestOne(InvertLowestOne(x - Pow2(j))) + 1 > t
    ensures j + 2 < k && Pow2(j + 2) < x
  {
    hide Low, InvertLowestOne, Pow2;
    RungSkip(x, k, t, j);
    LowBelow(x, j + 2);
  }

  /** From rung j, with the rung after next too low, to the target. */
  lemma {:induction false} RungDown(x: nat, k: nat, t: nat, j: nat)
    requires Near(x, k, t) && 1 <= j < k && Pow2(j) < x && x - Pow2(k) < t < x - Pow2(j)
    requires InvertLowestOne(InvertLowestOne(x - Pow2(j))) + 1 < t
    ensures 4 + 4 * Steps(x - Pow2(j), t) <= 2 * (k - j) + 4 + Weight(k - 1)
    decreases k, 0, 0
  {
    hide Low, InvertLowestOne, Pow2, Weight, NextHeight;
    Rungs(x, k, t, j);
    if x - Pow2(j + 1) <= t {
      NearSteps(x - Pow2(j), j, t);
      WeightGrows(j, k - 1);
    } else {
      assert j + 2 <= k;
      RungSkip(x, k, t, j);
      RungTakes(x, k, t, j);
      Rungs(x, k, t, j + 1);
      NearSteps(x - Pow2(j + 1), j + 1, t);
      WeightGrows(j + 1, k - 1);
    }
  }

  lemma {:induction false} NearSteps(x: nat, k: nat, t: nat)
    requires Near(x, k, t)
    ensures 4 * Steps(x, t) <= Weight(k)
    decreases k, 1, 0
  {
    hide Low, InvertLowestOne, Pow2, Weight;
    EvenLow(x);
    SkipEven(x);
    LowCleared(x);
    WeightNext(k);
    Pow2Small();
    if x - Pow2(k) < t < x - 1 {
      if k == 1 {
        assert false;
      }
      Rungs(x, k, t, 1);
      OddChain(x, k, t, 1);
    }
  }

  // ---- From anywhere ----

  /** Where the skip link of an even height is passed by, a better one starts just below. */
  lemma EvenPasses(h: nat, t: nat)
    requires h > 0 && h % 2 == 0 && t < InvertLowestOne(h) && !TakesSkip(h, t)
    ensures Low(h) <= 2
    ensures var g := InvertLowestOne(h);
      GetSkipHeight(h - 1) == 1 + (if Low(h) == 1 then InvertLowestOne(InvertLowestOne(g)) else InvertLowestOne(g))
    ensures t <= GetSkipHeight(h - 1) && h - 2 > 0
  {
    hide Low, InvertLowestOne;
    EvenLow(h);
    SkipEven(h);
    LowCleared(h);
    Pow2Small();
    if Low(h) >= 3 {
      JustBelow(h, Low(h));
    } else if Low(h) == 2 {
      LowBelow(h, 1);
      LowCleared(h - 2);
      SkipEven(h - 2);
    } else {
      SkipEven(h - 2);
    }
  }

  /** Clearing the two lowest one bits. */
  lemma LowClearedTwice(n: nat)
    requires n > 0
    ensures var r := InvertLowestOne(InvertLowestOne(n)); r <= n && (r > 0 ==> Low(r) >= Low(n) + 2 && r < n)
  {
    hide Low, InvertLowestOne, Pow2;
    LowCleared(n);
    BelowBase(InvertLowestOne(n));
    if InvertLowestOne(n) > 0 {
      LowCleared(InvertLowestOne(n));
    }
  }

  /** From one above an even height. */
  lemma {:induction false} OddSteps(o: nat, t: nat, size: nat)
    requires 0 < o < Pow2(size) && o % 2 == 0 && t <= o
    ensures Low(o) < size && 4 * Steps(o + 1, t) <= 6 * (size - Low(o)) + 4 + Weight(size - 1)
    decreases o, 1
  {
    hide Low, InvertLowestOne, Pow2, Weight, NextHeight;
    LowBound(o, size);
    EvenLow(o);
    OddTakes(o, t);
    LowClearedTwice(o);
    var r := InvertLowestOne(InvertLowestOne(o));
    if r + 1 >= t {
      if r > 0 {
        EvenLow(r);
        if t <= r {
          OddSteps(r, t, size);
        }
      } else {
        FromOne(t);
      }
    } else if t < o {
      EvenSteps(o, t, size);
    }
  }

  lemma FromOne(t: nat)
    requires t <= 1
    ensures Steps(1, t) <= 1
  {
  }

  /** From an even height. */
  lemma {:induction false} EvenSteps(h: nat, t: nat, size: nat)
    requires 0 < h < Pow2(size) && h % 2 == 0 && t < h
    ensures Low(h) < size && 4 * Steps(h, t) <= 6 * (size - Low(h)) + Weight(size - 1)
    decreases h, 0
  {
    hide Low, InvertLowestOne, Pow2, Weight, TakesSkip, GetSkipHeight;
    LowBound(h, size);
    EvenLow(h);
    SkipEven(h);
    LowCleared(h);
    var g := InvertLowestOne(h);
    if g <= t {
      NearSteps(h, Low(h), t);
      WeightGrows(Low(h), size - 1);
    } else if TakesSkip(h, t) {
      EvenLow(g);
      EvenSteps(g, t, size);
    } else {
      PassedSteps(h, t, size);
    }
  }

  /** Two links, the parent's skip link being the second. */
  lemma {:induction false} PassedSteps(h: nat, t: nat, size: nat)
    requires 0 < h < Pow2(size) && h % 2 == 0 && t < InvertLowestOne(h) && !TakesSkip(h, t) && Low(h) < size
    ensures 4 * Steps(h, t) <= 6 * (size - Low(h)) + Weight(size - 1)
    decreases h, 0, 0
  {
    hide Low, InvertLowestOne, Pow2, Weight, TakesSkip, GetSkipHeight;
    EvenPasses(h, t);
    var s := GetSkipHeight(h - 1);
    SkipEven(h - 2);
    OddTakes(h - 2, t);
    LowCleared(h);
    var g := InvertLowestOne(h);
    LowBound(g, size);
    LowCleared(g);
    LowClearedTwice(g);
    var u := s - 1;
    assert 4 * Steps(h, t) == 8 + 4 * Steps(s, t);
    if u == 0 {
      FromOne(t);
    } else if t <= u {
      EvenLow(u);
      OddSteps(u, t, size);
    }
  }

  /** A search from any height of `size` bits, for any height below, follows at most
      (n * n + 14 * n + 4) / 4 links, where n is size - 1. */
  lemma SearchIsShort(h: nat, t: nat, size: nat)
    requires size > 0 && t <= h < Pow2(size)
    ensures 4 * Steps(h, t) <= (size - 1) * (size - 1) + 14 * (size - 1) + 4
  {
    hide Pow2;
    if t == h {
    } else if h == 1 {
      FromOne(t);
    } else if h % 2 == 0 {
      EvenLow(h);
      EvenSteps(h, t, size);
    } else {
      EvenLow(h - 1);
      OddSteps(h - 1, t, size);
    }
  }
}
