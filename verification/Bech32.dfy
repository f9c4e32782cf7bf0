/**
 Bech32 (BIP 173, section "Bech32"): a checksummed text form for 5-bit data under a readable prefix.
 */
module Bech32 {

  type Symbol = bv5

  // ---- The checksum register ----

  function Xor(a: bv32, b: bv32): bv32 { a ^ b }

  /** A generator, if its bit is set. */
  function Gate(c: bv32, bit: bv32, generator: bv32): bv32
  {
    if IsSet(c, bit) then generator else 0
  }

  predicate IsSet(c: bv32, bit: bv32) { c & bit != 0 }

  /** What the five bits shifted out of the register feed back into it. */
  function Feedback(c: bv32): bv32
  {
    Xor(Xor(Xor(Xor(
      Gate(c, 0x200_0000, 0x3b6a57b2), Gate(c, 0x400_0000, 0x26508e6d)), Gate(c, 0x800_0000, 0x1ea119fa)),
      Gate(c, 0x1000_0000, 0x3d4233dd)), Gate(c, 0x2000_0000, 0x2a1462b3))
  }

  /** The register moved up by one symbol, without what falls out. */
  function Shifted(c: bv32): bv32 { (c & 0x1ff_ffff) << 5 }

  function Wide(v: Symbol): bv32 { v as bv32 }

  /** Symbols are added bit by bit too. */
  function Plus(v: Symbol, w: Symbol): Symbol { v ^ w }

  /** One symbol into the register. */
  function Step(c: bv32, v: Symbol): bv32
  {
    Xor(Xor(Shifted(c), Wide(v)), Feedback(c))
  }

  lemma ShiftedLinear(a: bv32, b: bv32)
    ensures Shifted(Xor(a, b)) == Xor(Shifted(a), Shifted(b))
  {
  }

  lemma WideLinear(v: Symbol, w: Symbol)
    ensures Wide(Plus(v, w)) == Xor(Wide(v), Wide(w))
  {
  }

  lemma XorAssoc(a: bv32, b: bv32, c: bv32)
    ensures Xor(Xor(a, b), c) == Xor(a, Xor(b, c))
  {
  }

  lemma XorComm(a: bv32, b: bv32)
    ensures Xor(a, b) == Xor(b, a)
  {
  }

  lemma XorSwap(a: bv32, b: bv32, v: bv32, w: bv32)
    ensures Xor(Xor(a, b), Xor(v, w)) == Xor(Xor(a, v), Xor(b, w))
  {
    hide Xor;
    XorAssoc(a, b, Xor(v, w));
    XorAssoc(b, v, w);
    XorComm(b, v);
    XorAssoc(v, b, w);
    XorAssoc(a, v, Xor(b, w));
  }

  lemma GateLinear(a: bv32, b: bv32, bit: bv32, g: bv32)
    requires bit == 0x200_0000 || bit == 0x400_0000 || bit == 0x800_0000 || bit == 0x1000_0000 || bit == 0x2000_0000
    ensures Gate(Xor(a, b), bit, g) == Xor(Gate(a, bit, g), Gate(b, bit, g))
  {
    hide Xor, IsSet;
    OneBitXor(a, b, bit);
    XorZero(g);
  }

  lemma OneBitXor(a: bv32, b: bv32, bit: bv32)
    requires bit == 0x200_0000 || bit == 0x400_0000 || bit == 0x800_0000 || bit == 0x1000_0000 || bit == 0x2000_0000
    ensures IsSet(Xor(a, b), bit) == (IsSet(a, bit) != IsSet(b, bit))
  {
  }

  lemma XorZero(g: bv32)
    ensures Xor(g, 0) == g && Xor(0, g) == g && Xor(g, g) == 0 && Xor(0, 0) == 0
  {
  }

  lemma FeedbackLinear(a: bv32, b: bv32)
    ensures Feedback(Xor(a, b)) == Xor(Feedback(a), Feedback(b))
  {
    hide Gate, Xor;
    GateLinear(a, b, 0x200_0000, 0x3b6a57b2);
    GateLinear(a, b, 0x400_0000, 0x26508e6d);
    GateLinear(a, b, 0x800_0000, 0x1ea119fa);
    GateLinear(a, b, 0x1000_0000, 0x3d4233dd);
    GateLinear(a, b, 0x2000_0000, 0x2a1462b3);
    var a1, a2, a3 := Gate(a, 0x200_0000, 0x3b6a57b2), Gate(a, 0x400_0000, 0x26508e6d), Gate(a, 0x800_0000, 0x1ea119fa);
    var b1, b2, b3 := Gate(b, 0x200_0000, 0x3b6a57b2), Gate(b, 0x400_0000, 0x26508e6d), Gate(b, 0x800_0000, 0x1ea119fa);
    var a4, a5 := Gate(a, 0x1000_0000, 0x3d4233dd), Gate(a, 0x2000_0000, 0x2a1462b3);
    var b4, b5 := Gate(b, 0x1000_0000, 0x3d4233dd), Gate(b, 0x2000_0000, 0x2a1462b3);
    XorSwap(a1, b1, a2, b2);
    XorSwap(Xor(a1, a2), Xor(b1, b2), a3, b3);
    XorSwap(Xor(Xor(a1, a2), a3), Xor(Xor(b1, b2), b3), a4, b4);
    XorSwap(Xor(Xor(Xor(a1, a2), a3), a4), Xor(Xor(Xor(b1, b2), b3), b4), a5, b5);
  }

  /** The register is linear over exclusive or. */
  lemma StepLinear(a: bv32, b: bv32, v: Symbol, w: Symbol)
    ensures Step(Xor(a, b), Plus(v, w)) == Xor(Step(a, v), Step(b, w))
  {
    hide Feedback, Shifted, Wide, Xor, Plus;
    FeedbackLinear(a, b);
    ShiftedLinear(a, b);
    WideLinear(v, w);
    XorSwap(Shifted(a), Shifted(b), Wide(v), Wide(w));
    XorSwap(Xor(Shifted(a), Wide(v)), Xor(Shifted(b), Wide(w)), Feedback(a), Feedback(b));
  }

  /** No state but zero is taken to zero. */
  lemma StepKernel(c: bv32)
    requires Fits(c, 6) && Step(c, 0) == 0
    ensures c == 0
  {
  }

  lemma StepBound(c: bv32, v: Symbol)
    requires Fits(c, 6)
    ensures Fits(Step(c, v), 6)
  {
  }

  // ---- Words ----

  /** The register after a word, from a given state. */
  function PolyFrom(c: bv32, v: seq<Symbol>): bv32
  {
    if v == [] then c else Step(PolyFrom(c, v[..|v| - 1]), v[|v| - 1])
  }

  function PolyMod(v: seq<Symbol>): bv32 { PolyFrom(1, v) }

  function Zip(v: seq<Symbol>, w: seq<Symbol>): (r: seq<Symbol>)
    requires |v| == |w|
    ensures |r| == |v|
  {
    seq(|v|, i requires 0 <= i < |v| => Plus(v[i], w[i]))
  }

  lemma {:induction false} PolyLinear(c: bv32, d: bv32, v: seq<Symbol>, w: seq<Symbol>)
    requires |v| == |w|
    ensures PolyFrom(Xor(c, d), Zip(v, w)) == Xor(PolyFrom(c, v), PolyFrom(d, w))
  {
    hide Xor, Step, Plus;
    if v != [] {
      var n := |v| - 1;
      assert Zip(v, w)[..n] == Zip(v[..n], w[..n]);
      PolyLinear(c, d, v[..n], w[..n]);
      StepLinear(PolyFrom(c, v[..n]), PolyFrom(d, w[..n]), v[n], w[n]);
    }
  }

  lemma {:induction false} PolyBound(c: bv32, v: seq<Symbol>)
    requires Fits(c, 6)
    ensures Fits(PolyFrom(c, v), 6)
  {
    hide Step, Fits;
    if v != [] {
      PolyBound(c, v[..|v| - 1]);
      StepBound(PolyFrom(c, v[..|v| - 1]), v[|v| - 1]);
    }
  }

  lemma {:induction false} PolySplit(c: bv32, v: seq<Symbol>, w: seq<Symbol>)
    ensures PolyFrom(c, v + w) == PolyFrom(PolyFrom(c, v), w)
  {
    hide Step;
    if w == [] {
      assert v + w == v;
    } else {
      assert (v + w)[..|v + w| - 1] == v + w[..|w| - 1];
      PolySplit(c, v, w[..|w| - 1]);
    }
  }

  function Zeros(n: nat): (r: seq<Symbol>)
    ensures |r| == n
  {
    seq(n, _ => 0)
  }

  /** A state other than zero never runs down to zero. */
  lemma {:induction false} NeverZero(c: bv32, n: nat)
    requires c != 0 && Fits(c, 6)
    ensures PolyFrom(c, Zeros(n)) != 0
  {
    hide Step, Fits;
    if n > 0 {
      assert Zeros(n)[..n - 1] == Zeros(n - 1);
      NeverZero(c, n - 1);
      PolyBound(c, Zeros(n - 1));
      if Step(PolyFrom(c, Zeros(n - 1)), 0) == 0 {
        StepKernel(PolyFrom(c, Zeros(n - 1)));
      }
    }
  }

  lemma FromZero(n: nat)
    ensures PolyFrom(0, Zeros(n)) == 0
  {
    if n > 0 {
      assert Zeros(n)[..n - 1] == Zeros(n - 1);
      FromZero(n - 1);
    }
  }

  lemma PlusBack(x: Symbol, y: Symbol)
    ensures Plus(y, Plus(x, y)) == x && (Plus(x, y) == 0 ==> x == y) && Plus(y, 0) == y && Plus(0, y) == y
  {
  }

  lemma XorCancel(a: bv32, b: bv32)
    requires b != 0
    ensures Xor(a, b) != a
  {
  }

  // ---- Six symbols and the register ----

  /** The lowest symbol of the register, and the rest. */
  function LowSymbol(c: bv32): Symbol { (c & 31) as bv5 }

  function Rest(c: bv32): bv32 { c >> 5 }

  /** The register holds at most n symbols. */
  predicate Fits(c: bv32, n: nat)
    requires n <= 6
  {
    if n == 0 then c < 1 else if n == 1 then c < 0x20 else if n == 2 then c < 0x400 else if n == 3 then c < 0x8000
    else if n == 4 then c < 0x10_0000 else if n == 5 then c < 0x200_0000 else c < 0x4000_0000
  }

  /** While the top symbol is clear nothing is fed back, so a step can be read off the register. */
  lemma StepBack(c: bv32, v: Symbol)
    requires Fits(c, 5)
    ensures LowSymbol(Step(c, v)) == v && Rest(Step(c, v)) == c
  {
  }

  lemma StepForward(m: bv32)
    requires Fits(m, 6)
    ensures Step(Rest(m), LowSymbol(m)) == m
  {
    assert Rest(m) < 0x200_0000;
    assert Feedback(Rest(m)) == 0;
  }

  /** The n lowest symbols of the register, highest first. */
  function Groups(m: bv32, n: nat): (r: seq<Symbol>)
    ensures |r| == n
    decreases n
  {
    if n == 0 then [] else Groups(Rest(m), n - 1) + [LowSymbol(m)]
  }

  lemma FitsStep(c: bv32, v: Symbol, n: nat)
    requires 0 < n <= 6 && Fits(c, n - 1)
    ensures Fits(Step(c, v), n) && Fits(c, 5)
  {
    SmallStep(c, v);
    hide Step;
  }

  lemma SmallStep(c: bv32, v: Symbol)
    ensures c < 1 ==> Step(c, v) < 0x20
    ensures c < 0x20 ==> Step(c, v) < 0x400
    ensures c < 0x400 ==> Step(c, v) < 0x8000
    ensures c < 0x8000 ==> Step(c, v) < 0x10_0000
    ensures c < 0x10_0000 ==> Step(c, v) < 0x200_0000
    ensures c < 0x200_0000 ==> Step(c, v) < 0x4000_0000
  {
  }

  lemma FitsZero(m: bv32)
    ensures Fits(m, 0) <==> m == 0
  {
  }

  lemma FitsRest(m: bv32, n: nat)
    requires 0 < n <= 6 && Fits(m, n)
    ensures Fits(Rest(m), n - 1) && Fits(m, 6)
  {
    SmallRest(m);
    hide Rest;
  }

  lemma SmallRest(m: bv32)
    ensures m < 0x20 ==> Rest(m) < 1
    ensures m < 0x400 ==> Rest(m) < 0x20
    ensures m < 0x8000 ==> Rest(m) < 0x400
    ensures m < 0x10_0000 ==> Rest(m) < 0x8000
    ensures m < 0x200_0000 ==> Rest(m) < 0x10_0000
    ensures m < 0x4000_0000 ==> Rest(m) < 0x200_0000
  {
  }

  lemma {:induction false} FitsPoly(r: seq<Symbol>)
    requires |r| <= 6
    ensures Fits(PolyFrom(0, r), |r|)
  {
    hide Step, Fits;
    if r == [] {
      FitsZero(0);
    } else {
      FitsPoly(r[..|r| - 1]);
      FitsStep(PolyFrom(0, r[..|r| - 1]), r[|r| - 1], |r|);
    }
  }

  /** Up to six symbols fed into an empty register stay there as they are. */
  lemma {:induction false} GroupsOf(r: seq<Symbol>)
    requires |r| <= 6
    ensures Groups(PolyFrom(0, r), |r|) == r
  {
    hide Step, LowSymbol, Rest, Fits;
    if r != [] {
      var n := |r| - 1;
      var c := PolyFrom(0, r[..n]);
      GroupsOf(r[..n]);
      FitsPoly(r[..n]);
      FitsStep(c, r[n], n + 1);
      StepBack(c, r[n]);
      SplitLast(r);
    }
  }

  lemma SplitLast(r: seq<Symbol>)
    requires r != []
    ensures r == r[..|r| - 1] + [r[|r| - 1]]
  {
  }

  /** And any thirty bits come from six symbols. */
  lemma {:induction false} FromGroups(m: bv32, n: nat)
    requires n <= 6 && Fits(m, n)
    ensures PolyFrom(0, Groups(m, n)) == m
    decreases n
  {
    hide Step, LowSymbol, Rest, Fits;
    if n == 0 {
      FitsZero(m);
    } else {
      FitsRest(m, n);
      FromGroups(Rest(m), n - 1);
      StepForward(m);
      var g := Groups(m, n);
      assert g[..n - 1] == Groups(Rest(m), n - 1) && g[n - 1] == LowSymbol(m);
    }
  }

  // ---- Checksums ----

  /** The checksum of a word: what makes its register end at one. */
  function Checksum(word: seq<Symbol>): (r: seq<Symbol>)
    ensures |r| == 6
  {
    Groups(Xor(PolyMod(word + Zeros(6)), 1), 6)
  }

  /** Six symbols complete a word to a valid one exactly when they are its checksum. */
  lemma ChecksumUnique(word: seq<Symbol>, check: seq<Symbol>)
    requires |check| == 6
    ensures PolyMod(word + check) == 1 <==> check == Checksum(word)
  {
    hide Step, Xor, Plus, PolyFrom, Groups, Fits;
    var c := PolyMod(word);
    var z := PolyFrom(c, Zeros(6));
    PolySplit(1, word, check);
    PolySplit(1, word, Zeros(6));
    ZipZeros(check);
    PolyLinear(c, 0, Zeros(6), check);
    XorZero(c);
    var mod := Xor(z, 1);
    FitsSmall();
    PolyBound(1, word);
    PolyBound(c, Zeros(6));
    XorBound(z);
    XorMoves(z, PolyFrom(0, check));
    GroupsOf(check);
    FromGroups(mod, 6);
  }

  lemma ZipZeros(v: seq<Symbol>)
    ensures Zip(Zeros(|v|), v) == v
  {
    hide Plus;
    forall k | 0 <= k < |v| ensures Plus(0, v[k]) == v[k] {
      PlusBack(0, v[k]);
    }
  }

  lemma FitsSmall()
    ensures Fits(1, 6) && Fits(0, 6)
  {
  }

  lemma XorBound(z: bv32)
    requires Fits(z, 6)
    ensures Fits(Xor(z, 1), 6)
  {
  }

  lemma XorMoves(z: bv32, p: bv32)
    ensures Xor(z, p) == 1 <==> p == Xor(z, 1)
  {
    hide Xor;
    XorTwice(z, p);
    XorTwice(z, 1);
  }

  lemma XorTwice(z: bv32, p: bv32)
    ensures Xor(z, Xor(z, p)) == p
  {
    hide Xor;
    XorAssoc(z, z, p);
    XorZero(z);
    XorZero(p);
  }

  // ---- Errors ----

  /** A word of zeros but for a burst. */
  function Burst(n: nat, i: nat, d: seq<Symbol>): (e: seq<Symbol>)
    requires i + |d| <= n
    ensures |e| == n
  {
    Zeros(i) + d + Zeros(n - i - |d|)
  }

  lemma BurstSeen(n: nat, i: nat, d: seq<Symbol>)
    requires i + |d| <= n && |d| <= 6 && d != Zeros(|d|)
    ensures PolyFrom(0, Burst(n, i, d)) != 0
  {
    hide Step, PolyFrom, Groups, Fits;
    FitsSmall();
    PolySplit(0, Zeros(i) + d, Zeros(n - i - |d|));
    PolySplit(0, Zeros(i), d);
    FromZero(i);
    FromZero(|d|);
    GroupsOf(d);
    GroupsOf(Zeros(|d|));
    PolyBound(0, d);
    NeverZero(PolyFrom(0, d), n - i - |d|);
  }

  /** Any change to a word within six symbols in a row, one symbol in particular, changes the end
      state of the register: it is never mistaken for a valid word. */
  lemma BurstDetected(v: seq<Symbol>, w: seq<Symbol>, i: nat, j: nat)
    requires |v| == |w| && i <= j <= |v| && j - i <= 6 && v != w && v[..i] == w[..i] && v[j..] == w[j..]
    ensures PolyMod(v) != PolyMod(w)
  {
    hide Step, Xor, PolyFrom, Plus;
    var d := Zip(v[i..j], w[i..j]);
    var e := Burst(|v|, i, d);
    DifferenceWord(v, w, i, j);
    PolyLinear(1, 0, v, e);
    XorZero(1);
    BurstSeen(|v|, i, d);
    XorCancel(PolyMod(v), PolyFrom(0, e));
  }

  lemma DifferenceWord(v: seq<Symbol>, w: seq<Symbol>, i: nat, j: nat)
    requires |v| == |w| && i <= j <= |v| && v != w && v[..i] == w[..i] && v[j..] == w[j..]
    ensures var d := Zip(v[i..j], w[i..j]); d != Zeros(|d|) && w == Zip(v, Burst(|v|, i, d))
  {
    hide Plus;
    var d := Zip(v[i..j], w[i..j]);
    var e := Burst(|v|, i, d);
    forall k | 0 <= k < |v| && !(i <= k < j) ensures v[k] == w[k] {
      if k < i {
        assert v[k] == v[..i][k] && w[k] == w[..i][k];
      } else {
        assert v[k] == v[j..][k - j] && w[k] == w[j..][k - j];
      }
    }
    forall k | i <= k < j ensures d[k - i] == Plus(v[k], w[k]) == e[k] {
      assert v[i..j][k - i] == v[k] && w[i..j][k - i] == w[k];
    }
    var k :| 0 <= k < |v| && v[k] != w[k];
    PlusBack(v[k], w[k]);
    assert d[k - i] != 0;
    forall k | 0 <= k < |v| ensures w[k] == Plus(v[k], e[k]) {
      PlusBack(w[k], v[k]);
      PlusSwap(v[k], w[k]);
    }
  }

  lemma PlusSwap(v: Symbol, w: Symbol)
    ensures Plus(v, w) == Plus(w, v)
  {
  }

  // ---- Two errors apart ----

  /** Six symbols at once, each multiplied by x in the field of 32 elements, where x^5 is x^3 + 1: the
      four low bits of each move up, its top bit turns into the two bits of x^3 + 1. */
  function Double(c: bv32): bv32
  {
    Xor(Xor(MovedUp(c), TopToFirst(c)), TopToFourth(c))
  }

  function MovedUp(c: bv32): bv32 { (c & 0x1ef7_bdef) << 1 }

  function TopToFirst(c: bv32): bv32 { (c & 0x2108_4210) >> 4 }

  function TopToFourth(c: bv32): bv32 { (c & 0x2108_4210) >> 1 }

  lemma MovedUpLinear(a: bv32, b: bv32)
    ensures MovedUp(Xor(a, b)) == Xor(MovedUp(a), MovedUp(b))
  {
  }

  lemma TopToFirstLinear(a: bv32, b: bv32)
    ensures TopToFirst(Xor(a, b)) == Xor(TopToFirst(a), TopToFirst(b))
  {
  }

  lemma TopToFourthLinear(a: bv32, b: bv32)
    ensures TopToFourth(Xor(a, b)) == Xor(TopToFourth(a), TopToFourth(b))
  {
  }

  lemma DoubleLinear(a: bv32, b: bv32)
    ensures Double(Xor(a, b)) == Xor(Double(a), Double(b))
  {
    hide Xor, MovedUp, TopToFirst, TopToFourth;
    MovedUpLinear(a, b);
    TopToFirstLinear(a, b);
    TopToFourthLinear(a, b);
    XorSwap(MovedUp(a), MovedUp(b), TopToFirst(a), TopToFirst(b));
    XorSwap(Xor(MovedUp(a), TopToFirst(a)), Xor(MovedUp(b), TopToFirst(b)), TopToFourth(a), TopToFourth(b));
  }

  lemma DoubleShifted(c: bv32)
    ensures Shifted(Double(c)) == Double(Shifted(c))
  {
  }

  /** The feedback of the five top bits, lowest first. */
  function FeedbackOf(a: bool, b: bool, c: bool, d: bool, e: bool): bv32
  {
    Xor(Xor(Xor(Xor(if a then 0x3b6a57b2 else 0, if b then 0x26508e6d else 0), if c then 0x1ea119fa else 0),
      if d then 0x3d4233dd else 0), if e then 0x2a1462b3 else 0)
  }

  lemma FeedbackIs(c: bv32)
    ensures Feedback(c) ==
      FeedbackOf(IsSet(c, 0x200_0000), IsSet(c, 0x400_0000), IsSet(c, 0x800_0000),
        IsSet(c, 0x1000_0000), IsSet(c, 0x2000_0000))
  {
    hide IsSet, Xor;
  }

  /** Each generator is the one before multiplied by x. */
  lemma GeneratorsDouble(a: bool, b: bool, c: bool, d: bool, e: bool)
    ensures FeedbackOf(e, a, b, c != e, d) == Double(FeedbackOf(a, b, c, d, e))
  {
    hide FeedbackOf, Double;
    LastGenerator(a, b, c, d);
    FirstGenerators(a, b, c, d);
  }

  lemma LastGenerator(a: bool, b: bool, c: bool, d: bool)
    ensures FeedbackOf(true, a, b, !c, d) == Double(FeedbackOf(a, b, c, d, true))
  {
  }

  lemma FirstGenerators(a: bool, b: bool, c: bool, d: bool)
    ensures FeedbackOf(false, a, b, c, d) == Double(FeedbackOf(a, b, c, d, false))
  {
  }

  lemma TopDoubles(c: bv32)
    ensures IsSet(Double(c), 0x200_0000) == IsSet(c, 0x2000_0000)
    ensures IsSet(Double(c), 0x400_0000) == IsSet(c, 0x200_0000)
    ensures IsSet(Double(c), 0x800_0000) == IsSet(c, 0x400_0000)
    ensures IsSet(Double(c), 0x1000_0000) == (IsSet(c, 0x800_0000) != IsSet(c, 0x2000_0000))
    ensures IsSet(Double(c), 0x2000_0000) == IsSet(c, 0x1000_0000)
  {
  }

  lemma DoubleFeedback(c: bv32)
    ensures Feedback(Double(c)) == Double(Feedback(c))
  {
    hide Feedback, FeedbackOf, Double, IsSet;
    FeedbackIs(c);
    FeedbackIs(Double(c));
    TopDoubles(c);
    GeneratorsDouble(IsSet(c, 0x200_0000), IsSet(c, 0x400_0000), IsSet(c, 0x800_0000),
      IsSet(c, 0x1000_0000), IsSet(c, 0x2000_0000));
  }

  lemma StepZero(c: bv32)
    ensures Step(c, 0) == Xor(Shifted(c), Feedback(c))
  {
  }

  /** The generators are the multiples of the first: so the register is linear over the field. */
  lemma DoubleStep(c: bv32)
    ensures Step(Double(c), 0) == Double(Step(c, 0))
  {
    hide Step, Shifted, Feedback, Double, Xor;
    StepZero(c);
    StepZero(Double(c));
    DoubleShifted(c);
    DoubleFeedback(c);
    DoubleLinear(Shifted(c), Feedback(c));
  }

  predicate Has(e: Symbol, bit: Symbol) { e & bit != 0 }

  /** The bits of a symbol, lowest first. */
  function BitsOf(e: Symbol): seq<bool> { [Has(e, 1), Has(e, 2), Has(e, 4), Has(e, 8), Has(e, 16)] }

  /** Six symbols, each multiplied by the one with these bits. */
  function Scale(e: seq<bool>, c: bv32): bv32
  {
    if e == [] then 0 else Xor(Pick(e[0], c), Double(Scale(e[1..], c)))
  }

  function Pick(b: bool, c: bv32): bv32 { if b then c else 0 }

  /** The same on one symbol. */
  function ScaleSymbol(e: seq<bool>, v: Symbol): Symbol
  {
    if e == [] then 0 else Plus(PickSymbol(e[0], v), DoubleSymbol(ScaleSymbol(e[1..], v)))
  }

  function PickSymbol(b: bool, v: Symbol): Symbol { if b then v else 0 }

  function DoubleSymbol(v: Symbol): Symbol { Plus(v << 1, if Has(v, 16) then 9 else 0) }

  lemma ScaleNext(b: bool, e: seq<bool>, x: bv32, v: Symbol)
    ensures Scale([b] + e, x) == Xor(Pick(b, x), Double(Scale(e, x))) && Scale([], x) == 0
    ensures ScaleSymbol([b] + e, v) == Plus(PickSymbol(b, v), DoubleSymbol(ScaleSymbol(e, v)))
      && ScaleSymbol([], v) == 0
  {
    assert ([b] + e)[1..] == e;
  }

  /** All five bits in turn. */
  lemma ScaleFive(a: bool, b: bool, c: bool, d: bool, e: bool, x: bv32, v: Symbol)
    ensures Scale([a, b, c, d, e], x) ==
      Xor(Pick(a, x), Double(Xor(Pick(b, x), Double(Xor(Pick(c, x), Double(Xor(Pick(d, x),
        Double(Xor(Pick(e, x), Double(0))))))))))
    ensures ScaleSymbol([a, b, c, d, e], v) ==
      Plus(PickSymbol(a, v), DoubleSymbol(Plus(PickSymbol(b, v), DoubleSymbol(Plus(PickSymbol(c, v),
        DoubleSymbol(Plus(PickSymbol(d, v), DoubleSymbol(Plus(PickSymbol(e, v), DoubleSymbol(0))))))))))
  {
    hide Xor, Pick, Double, Plus, PickSymbol, DoubleSymbol, Scale, ScaleSymbol;
    ScaleNext(e, [], x, v);
    ScaleNext(d, [e], x, v);
    ScaleNext(c, [d, e], x, v);
    ScaleNext(b, [c, d, e], x, v);
    ScaleNext(a, [b, c, d, e], x, v);
    assert [e] + [] == [e] && [d] + [e] == [d, e] && [c] + [d, e] == [c, d, e];
    assert [b] + [c, d, e] == [b, c, d, e] && [a] + [b, c, d, e] == [a, b, c, d, e];
  }

  lemma ScaleOne(e: Symbol)
    ensures Scale(BitsOf(e), 1) == Wide(e)
  {
    hide Scale, ScaleSymbol;
    ScaleFive(Has(e, 1), Has(e, 2), Has(e, 4), Has(e, 8), Has(e, 16), 1, 1);
  }

  /** There are no zero divisors. */
  lemma NoZeroDivisors(e: Symbol, v: Symbol)
    requires e != 0 && v != 0
    ensures ScaleSymbol(BitsOf(e), v) != 0
  {
    hide Scale, ScaleSymbol, Double;
    ScaleFive(Has(e, 1), Has(e, 2), Has(e, 4), Has(e, 8), Has(e, 16), 1, v);
  }

  lemma LowPick(b: bool, c: bv32)
    ensures LowSymbol(Pick(b, c)) == PickSymbol(b, LowSymbol(c)) && Rest(Pick(b, c)) == Pick(b, Rest(c))
    ensures Fits(c, 6) ==> Fits(Pick(b, c), 6)
  {
  }

  lemma LowXor(a: bv32, b: bv32)
    ensures LowSymbol(Xor(a, b)) == Plus(LowSymbol(a), LowSymbol(b))
  {
  }

  lemma RestXor(a: bv32, b: bv32)
    ensures Rest(Xor(a, b)) == Xor(Rest(a), Rest(b))
  {
  }

  lemma FitsXor(a: bv32, b: bv32)
    requires Fits(a, 6) && Fits(b, 6)
    ensures Fits(Xor(a, b), 6)
  {
  }

  lemma DoubleParts(c: bv32)
    requires Fits(c, 6)
    ensures LowSymbol(Double(c)) == DoubleSymbol(LowSymbol(c)) && Rest(Double(c)) == Double(Rest(c))
      && Fits(Double(c), 6)
  {
  }

  /** Scaling works symbol by symbol. */
  lemma {:induction false} ScaleParts(e: seq<bool>, c: bv32)
    requires Fits(c, 6)
    ensures LowSymbol(Scale(e, c)) == ScaleSymbol(e, LowSymbol(c)) && Rest(Scale(e, c)) == Scale(e, Rest(c))
    ensures Fits(Scale(e, c), 6)
  {
    hide Double, DoubleSymbol, Pick, PickSymbol, Plus, Xor, LowSymbol, Rest, Fits;
    if e == [] {
      SomeSymbol(0);
      FitsSmall();
    } else {
      ScaleParts(e[1..], c);
      DoubleParts(Scale(e[1..], c));
      LowPick(e[0], c);
      LowXor(Pick(e[0], c), Double(Scale(e[1..], c)));
      RestXor(Pick(e[0], c), Double(Scale(e[1..], c)));
      FitsXor(Pick(e[0], c), Double(Scale(e[1..], c)));
    }
  }

  lemma SomeSymbol(c: bv32)
    ensures c != 0 ==> LowSymbol(c) != 0 || Rest(c) != 0
    ensures LowSymbol(0) == 0 && Rest(0) == 0
  {
  }

  lemma {:induction false} ScaleNonzero(e: Symbol, c: bv32, n: nat)
    requires e != 0 && c != 0 && n <= 6 && Fits(c, n) && Fits(c, 6)
    ensures Scale(BitsOf(e), c) != 0
    decreases n
  {
    hide Scale, Fits, LowSymbol, Rest, ScaleSymbol, BitsOf;
    FitsZero(c);
    SomeSymbol(c);
    ScaleParts(BitsOf(e), c);
    if LowSymbol(c) != 0 {
      NoZeroDivisors(e, LowSymbol(c));
    } else {
      FitsRest(c, n);
      FitsRest(c, 6);
      FitsMore(Rest(c));
      ScaleNonzero(e, Rest(c), n - 1);
    }
  }

  lemma FitsMore(c: bv32)
    requires Fits(c, 5)
    ensures Fits(c, 6)
  {
  }

  lemma HighRest(c: bv32)
    ensures 32 <= c <==> Rest(c) != 0
  {
  }

  lemma ScaleHigh(e: Symbol, c: bv32)
    requires e != 0 && 32 <= c && Fits(c, 6)
    ensures 32 <= Scale(BitsOf(e), c)
  {
    hide Scale, Fits, LowSymbol, Rest, BitsOf;
    HighRest(c);
    FitsRest(c, 6);
    FitsMore(Rest(c));
    ScaleNonzero(e, Rest(c), 5);
    ScaleParts(BitsOf(e), c);
    HighRest(Scale(BitsOf(e), c));
  }

  lemma StepPick(b: bool, c: bv32)
    ensures Step(Pick(b, c), 0) == Pick(b, Step(c, 0)) && Step(0, 0) == 0 && Plus(0, 0) == 0
  {
    assert Step(0, 0) == 0;
    hide Step;
  }

  lemma {:induction false} ScaleStep(e: seq<bool>, c: bv32)
    ensures Step(Scale(e, c), 0) == Scale(e, Step(c, 0))
  {
    hide Step, Double, Xor, Pick, Plus;
    if e == [] {
      StepPick(false, c);
    } else {
      var rest := Scale(e[1..], c);
      ScaleStep(e[1..], c);
      DoubleStep(rest);
      StepPick(e[0], c);
      StepLinear(Pick(e[0], c), Double(rest), 0, 0);
    }
  }

  lemma ZerosNext(c: bv32, n: nat)
    ensures PolyFrom(c, Zeros(n + 1)) == Step(PolyFrom(c, Zeros(n)), 0)
  {
    assert Zeros(n + 1)[..n] == Zeros(n);
  }

  lemma {:induction false} ScaleRun(e: Symbol, n: nat)
    ensures PolyFrom(Wide(e), Zeros(n)) == Scale(BitsOf(e), PolyFrom(1, Zeros(n)))
  {
    hide Step, Scale, Wide, BitsOf;
    if n == 0 {
      ScaleOne(e);
    } else {
      ScaleRun(e, n - 1);
      ZerosNext(Wide(e), n - 1);
      ZerosNext(1, n - 1);
      ScaleStep(BitsOf(e), PolyFrom(1, Zeros(n - 1)));
    }
  }

  /** After n zeros the register holds c, and up to that it never held a single symbol. */
  ghost predicate RunsTo(n: nat, c: bv32)
  {
    PolyFrom(1, Zeros(n)) == c && forall i: nat | 0 < i <= n :: PolyFrom(1, Zeros(i)) >= 32
  }

  lemma RunsNext(n: nat, c: bv32, d: bv32)
    requires RunsTo(n, c) && Step(c, 0) == d >= 32
    ensures RunsTo(n + 1, d)
  {
    hide Step, PolyFrom;
    ZerosNext(1, n);
  }

  lemma RunsFour(n: nat, c: bv32, c1: bv32, c2: bv32, c3: bv32, c4: bv32)
    requires RunsTo(n, c) && Step(c, 0) == c1 >= 32 && Step(c1, 0) == c2 >= 32 && Step(c2, 0) == c3 >= 32
      && Step(c3, 0) == c4 >= 32
    ensures RunsTo(n + 4, c4)
  {
    hide Step, RunsTo;
    RunsNext(n, c, c1);
    RunsNext(n + 1, c1, c2);
    RunsNext(n + 2, c2, c3);
    RunsNext(n + 3, c3, c4);
  }

  lemma RunsTo24()
    ensures RunsTo(24, 0x3c1fc3a8)
  {
    hide RunsTo;
    RunsStart();
    RunsFour(0, 0x1, 0x20, 0x400, 0x8000, 0x100000);
    RunsFour(4, 0x100000, 0x2000000, 0x3b6a57b2, 0x1fd7e966, 0x424df38);
    RunsFour(8, 0x424df38, 0x22cb696d, 0x81318a1, 0x1cc20dda, 0x1df21f0a);
    RunsFour(12, 0x1df21f0a, 0x3bf0450a, 0xc95be66, 0x2a465b57, 0x714461b);
    RunsFour(16, 0x714461b, 0x3fb21abf, 0x228ec6ab, 0xa6e061, 0x14dc0c20);
    RunsFour(20, 0x14dc0c20, 0x9339b0, 0x12673600, 0xacea46f, 0x3c1fc3a8);
  }

  lemma RunsTo48()
    ensures RunsTo(48, 0x20d4cef0)
  {
    hide RunsTo;
    RunsTo24();
    RunsFour(24, 0x3c1fc3a8, 0x2c5fb3f9, 0x19138a04, 0x1926aa7, 0x324d54e0);
    RunsFour(28, 0x324d54e0, 0x25969adc, 0x3e97b75e, 0x63b7a8b, 0x1a5588bf);
    RunsFour(32, 0x1a5588bf, 0x12386a75, 0x1252acf, 0x24a559e0, 0x18efd0de);
    RunsFour(36, 0x18efd0de, 0x3e1931e7, 0x17ebadab, 0x1d0d5f62, 0x2418480a);
    RunsFour(40, 0x2418480a, 0xf4ded9e, 0x2a2673e5, 0xb11505b, 0x7e14528);
    RunsFour(44, 0x7e14528, 0x21127cdf, 0x85bf953, 0x15de339a, 0x20d4cef0);
  }

  lemma RunsTo72()
    ensures RunsTo(72, 0x3ad4dafa)
  {
    hide RunsTo;
    RunsTo48();
    RunsFour(48, 0x20d4cef0, 0x308dbcb3, 0x6e1c70e, 0x102381f, 0x204703e0);
    RunsFour(52, 0x204703e0, 0x22f41eb3, 0xffde361, 0x3c27ac05, 0x2b524659);
    RunsFour(56, 0x2b524659, 0x2597e7db, 0x3eb817be, 0x3cf668b, 0x28686d2);
    RunsFour(60, 0x28686d2, 0x2bba8df2, 0x388e92bb, 0x18251ff4, 0x2740d4a7);
    RunsFour(64, 0x2740d4a7, 0x1f342f8c, 0x185c0278, 0x28636527, 0x38d9dfa9);
    RunsFour(68, 0x38d9dfa9, 0x12ccbdb4, 0x1fbfd2ef, 0x923ae18, 0x3ad4dafa);
  }

  lemma RunsTo88()
    ensures RunsTo(88, 0x145b223e)
  {
    hide RunsTo;
    RunsTo72();
    RunsFour(72, 0x3ad4dafa, 0x28064066, 0x347d7789, 0x3ea82e23, 0x1c8552b);
    RunsFour(76, 0x1c8552b, 0x390aa560, 0x28a3e494, 0x20c9e9c9, 0x33295b93);
    RunsFour(80, 0x33295b93, 0x91774bc, 0x3c4f8e7a, 0x265609b9, 0x3def8c4c);
    RunsFour(84, 0x3def8c4c, 0x12564f79, 0xce18b4f, 0x24c0fe77, 0x145b223e);
  }

  lemma RunsStart()
    ensures RunsTo(0, 1)
  {
  }

  /** A word of zeros but for two symbols. */
  function Pair(n: nat, i: nat, d: Symbol, j: nat, e: Symbol): (r: seq<Symbol>)
    requires i < j < n
    ensures |r| == n && forall k | 0 <= k < n :: r[k] == if k == i then d else if k == j then e else 0
  {
    Zeros(i) + [d] + Zeros(j - i - 1) + [e] + Zeros(n - j - 1)
  }

  lemma OneSymbol(c: bv32, v: Symbol)
    ensures PolyFrom(c, [v]) == Step(c, v)
  {
    assert [v][..0] == [];
  }

  lemma StepApart(c: bv32, e: Symbol)
    requires Step(c, 0) >= 32
    ensures Step(c, e) != 0 && Step(0, e) == Wide(e)
  {
    hide Feedback, Shifted;
    assert Step(c, e) == Xor(Step(c, 0), Wide(e));
    FeedbackZero();
  }

  lemma FeedbackZero()
    ensures Feedback(0) == 0 && Shifted(0) == 0
  {
  }

  lemma PairSeen(n: nat, i: nat, d: Symbol, j: nat, e: Symbol)
    requires i < j < n && j - i <= 88 && d != 0
    ensures PolyFrom(0, Pair(n, i, d, j, e)) != 0
  {
    hide Step, PolyFrom, Fits, Scale, Wide;
    var head := Zeros(i) + [d] + Zeros(j - i - 1) + [e];
    PolySplit(0, head, Zeros(n - j - 1));
    PolySplit(0, Zeros(i) + [d] + Zeros(j - i - 1), [e]);
    PolySplit(0, Zeros(i) + [d], Zeros(j - i - 1));
    PolySplit(0, Zeros(i), [d]);
    FromZero(i);
    OneSymbol(0, d);
    var c := PolyFrom(Wide(d), Zeros(j - i - 1));
    OneSymbol(c, e);
    ZerosNext(Wide(d), j - i - 1);
    ScaleRun(d, j - i);
    RunsTo88();
    FitsSmall();
    PolyBound(1, Zeros(j - i));
    ScaleHigh(d, PolyFrom(1, Zeros(j - i)));
    StepApart(c, e);
    StepApart(c, d);
    PolyBound(0, head);
    NeverZero(PolyFrom(0, head), n - j - 1);
  }

  /** Any change to one or two symbols, up to 88 symbols apart, changes the end state of the
      register. */
  lemma PairDetected(v: seq<Symbol>, w: seq<Symbol>, i: nat, j: nat)
    requires |v| == |w| && i < j < |v| && j - i <= 88 && v != w
    requires forall k | 0 <= k < |v| && k != i && k != j :: v[k] == w[k]
    ensures PolyMod(v) != PolyMod(w)
  {
    hide Step, Xor, PolyFrom, Plus;
    if v[i] == w[i] {
      assert v[..j] == w[..j] && v[j + 1..] == w[j + 1..];
      BurstDetected(v, w, j, j + 1);
      return;
    }
    var e := Pair(|v|, i, Plus(v[i], w[i]), j, Plus(v[j], w[j]));
    forall k | 0 <= k < |v| ensures w[k] == Plus(v[k], e[k]) {
      PlusBack(w[k], v[k]);
      PlusSwap(v[k], w[k]);
    }
    assert w == Zip(v, e);
    PolyLinear(1, 0, v, e);
    XorZero(1);
    PlusBack(v[i], w[i]);
    PairSeen(|v|, i, Plus(v[i], w[i]), j, Plus(v[j], w[j]));
    XorCancel(PolyMod(v), PolyFrom(0, e));
  }
}
