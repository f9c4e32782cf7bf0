/**
 Base58: byte strings as text over 58 characters, leading zero bytes as leading ones.
 */
module Base58 {
  import Arith
  import opened Radix
  import opened Wrappers

  type Byte = x: int | 0 <= x < 256

  predicate IsSpace(c: char) { c == ' ' || '\t' <= c <= '\r' }

  // ---- Room in the buffers ----

  /** 58^11 exceeds 256^8, so 138 digits do for 100 bytes. */
  lemma EncodingRoom(n: nat)
    ensures Pow(256, n) < Pow(58, n * 138 / 100 + 1)
  {
    var size := n * 138 / 100 + 1;
    hide Pow;
    Constants();
    RoomBy(256, 8, 58, 11, n, size, 8 * n, 8 * size, 11 * n);
  }

  /** 256^52 exceeds 58^71, so 733 bytes do for 1000 digits. */
  lemma DecodingRoom(n: nat)
    ensures Pow(58, n) < Pow(256, n * 733 / 1000 + 1)
  {
    var size := n * 733 / 1000 + 1;
    hide Pow;
    Constants();
    RoomBy(58, 71, 256, 52, n, size, 71 * n, 71 * size, 52 * n);
  }

  /** If a^p < b^q and p * size > q * n then a^n < b^size. */
  lemma RoomBy(a: nat, p: nat, b: nat, q: nat, n: nat, size: nat, pn: nat, ps: nat, qn: nat)
    requires a > 1 && b > 1 && Pow(a, p) <= Pow(b, q) && pn == p * n && ps == p * size && qn == q * n && ps > qn
    ensures Pow(a, n) < Pow(b, size)
  {
    hide Pow;
    if Pow(b, size) <= Pow(a, n) {
      PowMonotone(Pow(b, size), Pow(a, n), p);
      PowPower(b, size, p, ps);
      PowPower(a, n, p, pn);
      PowPower(a, p, n, pn);
      PowMonotone(Pow(a, p), Pow(b, q), n);
      PowPower(b, q, n, qn);
      PowGrows(b, qn, ps);
    }
  }

  lemma PowPower(b: nat, m: nat, n: nat, k: nat)
    requires k == m * n || k == n * m
    ensures Pow(Pow(b, m), n) == Pow(b, k)
  {
    hide Pow;
    assert m * n == n * m;
    PowProduct(b, m, n);
  }

  lemma Double(b: nat, n: nat, x: nat)
    requires Pow(b, n) == x
    ensures Pow(b, 2 * n) == x * x
  {
    PowSum(b, n, n);
  }

  lemma Constants()
    ensures Pow(256, 8) <= Pow(58, 11) && Pow(58, 71) <= Pow(256, 52)
  {
    assert Pow(58, 1) == 58 * Pow(58, 0) == 58 && Pow(256, 1) == 256 * Pow(256, 0) == 256;
    hide Pow;
    Double(58, 1, 58);
    Double(58, 2, 3364);
    Double(58, 4, 11316496);
    Double(58, 8, 128063081718016);
    Double(58, 16, 16400152899115243850138976256);
    Double(58, 32, 268965015114358137726910587140455987105619365599731777536);
    PowSum(58, 8, 2);
    PowSum(58, 10, 1);
    PowSum(58, 64, 4);
    PowSum(58, 68, 2);
    PowSum(58, 70, 1);
    Double(256, 1, 256);
    Double(256, 2, 65536);
    Double(256, 4, 4294967296);
    Double(256, 8, 18446744073709551616);
    Double(256, 16, 340282366920938463463374607431768211456);
    PowSum(256, 32, 16);
    PowSum(256, 48, 4);
  }

  // ---- Characters ----

  /** The alphabet in order: digits, capitals and small letters without 0, O, I and l. */
  function CharOf(d: nat): char
    requires d < 58
  {
    if d < 9 then ('1' as int + d) as char
    else if d < 17 then ('A' as int + (d - 9)) as char
    else if d < 22 then ('J' as int + (d - 17)) as char
    else if d < 33 then ('P' as int + (d - 22)) as char
    else if d < 44 then ('a' as int + (d - 33)) as char
    else ('m' as int + (d - 44)) as char
  }

  /** The place of a character in the alphabet, or 58. */
  function DigitOf(c: char): (d: nat)
    ensures d <= 58 && (d < 58 ==> CharOf(d) == c)
  {
    if '1' <= c <= '9' then c as int - '1' as int
    else if 'A' <= c <= 'H' then c as int - 'A' as int + 9
    else if 'J' <= c <= 'N' then c as int - 'J' as int + 17
    else if 'P' <= c <= 'Z' then c as int - 'P' as int + 22
    else if 'a' <= c <= 'k' then c as int - 'a' as int + 33
    else if 'm' <= c <= 'z' then c as int - 'm' as int + 44
    else 58
  }

  lemma CharRoundTrip(d: nat)
    requires d < 58
    ensures DigitOf(CharOf(d)) == d && !IsSpace(CharOf(d)) && (CharOf(d) == '1' <==> d == 0)
  {
  }

  function Text(d: seq<nat>): (r: string)
    requires AreDigits(d, 58)
    ensures |r| == |d| && forall i | 0 <= i < |d| :: r[i] == CharOf(d[i])
  {
    seq(|d|, i requires 0 <= i < |d| => CharOf(d[i]))
  }

  predicate AllIn(s: string) { forall i | 0 <= i < |s| :: DigitOf(s[i]) < 58 }

  function Values(s: string): (r: seq<nat>)
    requires AllIn(s)
    ensures |r| == |s| && AreDigits(r, 58)
  {
    seq(|s|, i requires 0 <= i < |s| => DigitOf(s[i]))
  }

  lemma TextValues(d: seq<nat>)
    requires AreDigits(d, 58)
    ensures AllIn(Text(d)) && Values(Text(d)) == d && forall i | 0 <= i < |d| :: !IsSpace(Text(d)[i])
  {
    hide CharOf, DigitOf, IsSpace;
    forall i | 0 <= i < |d| ensures DigitOf(Text(d)[i]) == d[i] && !IsSpace(Text(d)[i]) {
      CharRoundTrip(d[i]);
    }
  }

  lemma ValuesText(s: string)
    requires AllIn(s)
    ensures Text(Values(s)) == s
  {
    hide CharOf, DigitOf;
  }

  // ---- Meaning ----

  /** How many zeros a sequence starts with. */
  function Leading(s: seq<nat>): (z: nat)
    ensures z <= |s| && (forall i | 0 <= i < z :: s[i] == 0) && (z < |s| ==> s[z] != 0)
  {
    if s == [] || s[0] != 0 then 0 else 1 + Leading(s[1..])
  }

  function Zeros(n: nat): (r: seq<nat>)
    ensures |r| == n
  {
    seq(n, _ => 0)
  }

  /** The same number in another base, zero for leading zero. */
  function Rebased(s: seq<nat>, a: nat, b: nat): seq<nat>
    requires b > 1
  {
    var z := Leading(s);
    Zeros(z) + Digits(Val(s[z..], a), b)
  }

  lemma RebasedDigits(s: seq<nat>, a: nat, b: nat)
    requires b > 1
    ensures AreDigits(Rebased(s, a, b), b)
  {
    DigitsOf(Val(s[Leading(s)..], a), b);
  }

  lemma LeadingIs(z: nat, t: seq<nat>)
    requires Minimal(t)
    ensures Leading(Zeros(z) + t) == z
  {
    var s := Zeros(z) + t;
    assert forall i | 0 <= i < z :: s[i] == 0;
    assert t != [] ==> s[z] == t[0];
  }

  /** Changing base and changing back gives the same digits. */
  lemma RebasedBack(s: seq<nat>, a: nat, b: nat)
    requires a > 1 && b > 1 && AreDigits(s, a)
    ensures Rebased(Rebased(s, a, b), b, a) == s
  {
    hide Digits, Val;
    var z := Leading(s);
    var n := Val(s[z..], a);
    DigitsOf(n, b);
    LeadingIs(z, Digits(n, b));
    assert Rebased(s, a, b)[z..] == Digits(n, b);
    DigitsUnique(s[z..], a);
    assert Zeros(z) + s[z..] == s;
  }

  function Encoded(v: seq<Byte>): string
  {
    RebasedDigits(v, 256, 58);
    Text(Rebased(v, 256, 58))
  }

  /** The number of characters up to the first that is (or is not) white space. */
  function Run(s: string, space: bool): (n: nat)
    ensures n <= |s| && (forall i | 0 <= i < n :: IsSpace(s[i]) == space) && (n < |s| ==> IsSpace(s[n]) != space)
  {
    if s == [] || IsSpace(s[0]) != space then 0 else 1 + Run(s[1..], space)
  }

  /** The word between leading and trailing white space, if there is nothing else. */
  function Word(s: string): Option<string>
  {
    var t := s[Run(s, true)..];
    var n := Run(t, false);
    if Run(t[n..], true) == |t[n..]| then Some(t[..n]) else None
  }

  function Decoded(s: string): Option<seq<nat>>
  {
    match Word(s)
    case None => None
    case Some(w) => if AllIn(w) then Some(Rebased(Values(w), 58, 256)) else None
  }

  lemma WordOfWord(w: string)
    requires forall i | 0 <= i < |w| :: !IsSpace(w[i])
    ensures Word(w) == Some(w)
  {
    hide IsSpace;
    assert Run(w, true) == 0;
    assert w[0..] == w;
    assert Run(w, false) == |w|;
    assert w[|w|..] == [] && w[..|w|] == w;
  }

  /** Decoding undoes encoding. */
  lemma DecodeEncoded(v: seq<Byte>)
    ensures Decoded(Encoded(v)) == Some(v)
  {
    hide Rebased, Text, Values, AllIn, Run, Word, IsSpace;
    RebasedDigits(v, 256, 58);
    TextValues(Rebased(v, 256, 58));
    WordOfWord(Encoded(v));
    assert AreDigits(v, 256);
    RebasedBack(v, 256, 58);
  }

  /** Whatever decodes is, apart from white space around it, the encoding of what it decodes to. */
  lemma EncodeDecoded(s: string, v: seq<Byte>)
    requires Decoded(s) == Some(v)
    ensures Word(s) == Some(Encoded(v))
  {
    hide Rebased, Text, Values, AllIn, Run, Word;
    var w := Word(s).value;
    RebasedBack(Values(w), 58, 256);
    ValuesText(w);
  }

  // ---- Converting in place ----

  predicate HighZero(b: seq<nat>, length: nat)
  {
    forall k | 0 <= k < |b| - length :: b[k] == 0
  }

  function Horner(mult: nat, v: nat, digit: nat): nat { mult * v + digit }

  /** What is done, v, and what is carried at p make up the new number's low part. */
  predicate Balanced(v: nat, carry: nat, p: nat, mult: nat, before: nat, digit: nat)
  {
    v + carry * p == mult * before + digit
  }

  /** Multiplies the number in the buffer by `mult` and adds a digit, working up from the last digit.
      Beyond `length` digits there are only zeros, so the work may stop once nothing is carried.  The
      buffer never overflows. */
  method MulAdd(b: array<nat>, base: nat, mult: nat, digit: nat, length: nat) returns (i: nat)
    requires base > 1 && length <= b.Length && AreDigits(b[..], base) && HighZero(b[..], length)
    requires Horner(mult, Val(b[..], base), digit) < Pow(base, b.Length)
    modifies b
    ensures i <= b.Length && AreDigits(b[..], base) && HighZero(b[..], i)
    ensures Val(b[..], base) == Horner(mult, old(Val(b[..], base)), digit)
  {
    hide Val, Pow, Balanced, Horner, Arith.Div;
    ghost var s, n := b[..], b.Length;
    var carry := digit;
    i := 0;
    StartCarry(s, base, mult, digit);
    while (carry != 0 || i < length) && i < b.Length
      invariant i <= n == b.Length && AreDigits(b[..], base)
      invariant forall k | 0 <= k < n - i :: b[k] == s[k]
      invariant Balanced(Val(b[n - i..], base), carry, Pow(base, i), mult, Val(s[n - i..], base), digit)
    {
      var k := b.Length - 1 - i;
      ghost var done := b[n - i..];
      var sum := Horner(mult, b[k], carry);
      Arith.DivMod(sum, base);
      b[k] := sum % base;
      CarryStep(done, carry, sum, base, mult, s[k], s[k + 1..], digit);
      carry := Arith.Div(sum, base);
      assert b[k..] == [sum % base] + done && s[k..] == [s[k]] + s[k + 1..];
      i := i + 1;
    }
    EndCarry(s, b[..], base, mult, digit, i, carry);
    assert carry == 0;
  }

  lemma FirstDigit(x: nat, t: seq<nat>, base: nat)
    ensures Val([x] + t, base) == x * Pow(base, |t|) + Val(t, base)
  {
    ValSplit([x] + t, base, 1);
    assert ([x] + t)[..1] == [x] && ([x] + t)[1..] == t && [x][..0] == [];
  }

  lemma CarryStep(done: seq<nat>, carry: nat, sum: nat, base: nat, mult: nat, x: nat, rest: seq<nat>, digit: nat)
    requires base > 1 && |done| == |rest| && sum == Horner(mult, x, carry)
    requires Balanced(Val(done, base), carry, Pow(base, |done|), mult, Val(rest, base), digit)
    ensures Balanced(Val([sum % base] + done, base), Arith.Div(sum, base), Pow(base, |done| + 1), mult,
      Val([x] + rest, base), digit)
  {
    hide Val, Pow, Balanced, Horner;
    FirstDigit(sum % base, done, base);
    FirstDigit(x, rest, base);
    PowNext(base, |done| + 1);
    CarryAlgebra(Val(done, base), carry, Pow(base, |done|), sum, base, mult, x, Val(rest, base), digit);
  }

  lemma CarryAlgebra(v: nat, carry: nat, p: nat, sum: nat, base: nat, mult: nat, x: nat, before: nat, digit: nat)
    requires base > 1 && sum == Horner(mult, x, carry) && Balanced(v, carry, p, mult, before, digit)
    ensures Balanced((sum % base) * p + v, Arith.Div(sum, base), base * p, mult, x * p + before, digit)
  {
    Arith.DivMod(sum, base);
    hide Arith.Div;
    var d, q := sum % base, Arith.Div(sum, base);
    assert (mult * x + carry) * p == (mult * x) * p + carry * p;
    assert (q * base + d) * p == q * (base * p) + d * p by {
      assert (q * base) * p == q * (base * p);
    }
    assert mult * (x * p + before) == (mult * x) * p + mult * before;
  }

  lemma StartCarry(s: seq<nat>, base: nat, mult: nat, digit: nat)
    ensures Balanced(Val(s[|s|..], base), digit, Pow(base, 0), mult, Val(s[|s|..], base), digit)
  {
    assert s[|s|..] == [];
  }

  lemma EndCarry(s: seq<nat>, b: seq<nat>, base: nat, mult: nat, digit: nat, i: nat, carry: nat)
    requires base > 1 && |b| == |s| && i <= |s| && AreDigits(b, base)
    requires Horner(mult, Val(s, base), digit) < Pow(base, |s|)
    requires Balanced(Val(b[|s| - i..], base), carry, Pow(base, i), mult, Val(s[|s| - i..], base), digit)
    requires forall k | 0 <= k < |s| - i :: b[k] == s[k]
    requires i == |s| || (carry == 0 && HighZero(s, i))
    ensures carry == 0 && HighZero(b, i) && Val(b, base) == Horner(mult, Val(s, base), digit)
  {
    hide Val, Pow, Horner, Balanced;
    var n := |s|;
    if i == n {
      assert b[0..] == b && s[0..] == s;
      NothingCarried(Val(b, base), carry, Pow(base, n), mult, Val(s, base), digit);
    } else {
      ValTrim(b, base, n - i);
      ValTrim(s, base, n - i);
      BalancedEnd(Val(b, base), Pow(base, i), mult, Val(s, base), digit);
    }
  }

  lemma BalancedEnd(v: nat, p: nat, mult: nat, before: nat, digit: nat)
    requires Balanced(v, 0, p, mult, before, digit)
    ensures v == Horner(mult, before, digit)
  {
  }

  lemma NothingCarried(v: nat, carry: nat, p: nat, mult: nat, before: nat, digit: nat)
    requires Balanced(v, carry, p, mult, before, digit) && Horner(mult, before, digit) < p
    ensures carry == 0 && v == Horner(mult, before, digit)
  {
    if carry > 0 {
      Arith.MulMonotone(1, carry, p);
    }
  }

  /** Converts digits in one base to another in a buffer known to be large enough. */
  method Convert(input: seq<nat>, mult: nat, base: nat, size: nat) returns (digits: seq<nat>)
    requires base > 1 && mult > 1 && AreDigits(input, mult) && Pow(mult, |input|) <= Pow(base, size)
    ensures digits == Digits(Val(input, mult), base)
  {
    hide Val, Pow, Digits;
    var b := new nat[size](_ => 0);
    var length: nat := 0;
    ValZeros(b[..], base);
    ValZeros([], mult);
    assert input[..0] == [];
    for k := 0 to |input|
      invariant length <= size && AreDigits(b[..], base) && HighZero(b[..], length)
      invariant Val(b[..], base) == Val(input[..k], mult)
    {
      assert input[..k + 1][..k] == input[..k];
      ValLast(input[..k + 1], mult);
      ValBound(input[..k + 1], mult);
      PowUpTo(mult, k + 1, |input|);
      assert Val(input[..k + 1], mult) == Horner(mult, Val(input[..k], mult), input[k]);
      length := MulAdd(b, base, mult, input[k], length);
    }
    assert input[..|input|] == input;
    digits := Trimmed(b, base, length);
  }

  /** The digits in the buffer from the first that is not zero. */
  method Trimmed(b: array<nat>, base: nat, length: nat) returns (digits: seq<nat>)
    requires base > 1 && length <= b.Length && AreDigits(b[..], base) && HighZero(b[..], length)
    ensures digits == Digits(Val(b[..], base), base)
  {
    hide Val, Digits;
    var it := b.Length - length;
    while it < b.Length && b[it] == 0
      invariant 0 <= it <= b.Length && forall k | 0 <= k < it :: b[k] == 0
    {
      it := it + 1;
    }
    digits := b[it..];
    ValTrim(b[..], base, it);
    assert b[..][it..] == digits;
    DigitsUnique(digits, base);
  }

  lemma PowUpTo(b: nat, m: nat, n: nat)
    requires b > 1 && m <= n
    ensures Pow(b, m) <= Pow(b, n)
  {
    if m < n {
      PowGrows(b, m, n);
    }
  }

  method EncodeBase58(v: seq<Byte>) returns (r: string)
    ensures r == Encoded(v)
  {
    hide Digits, Val, Text, Pow;
    var zeroes := 0;
    while zeroes < |v| && v[zeroes] == 0
      invariant zeroes <= |v| && forall i | 0 <= i < zeroes :: v[i] == 0
    {
      zeroes := zeroes + 1;
    }
    var rest: seq<nat> := v[zeroes..];
    assert zeroes == Leading(v);
    EncodingRoom(|rest|);
    var digits := Convert(rest, 256, 58, |rest| * 138 / 100 + 1);
    RebasedDigits(v, 256, 58);
    DigitsOf(Val(rest, 256), 58);
    r := seq(zeroes, _ => '1') + Text(digits);
    TextOf(zeroes, digits, r);
  }

  lemma TextOf(z: nat, d: seq<nat>, r: string)
    requires AreDigits(d, 58) && |r| == z + |d| && (forall i | 0 <= i < z :: r[i] == '1')
    requires forall i | 0 <= i < |d| :: r[z + i] == CharOf(d[i])
    ensures AreDigits(Zeros(z) + d, 58) && r == Text(Zeros(z) + d)
  {
    hide CharOf;
    CharRoundTrip(0);
    var t := Zeros(z) + d;
    forall i | 0 <= i < |t| ensures r[i] == CharOf(t[i]) {
      assert i >= z ==> r[z + (i - z)] == CharOf(d[i - z]);
    }
  }

  /** Converts the characters from position z up to white space or the end of the string, one at a
      time, and fails at the first that is not in the alphabet.  The buffer is sized by what is left of
      the string, white space and all; whatever the characters, nothing is carried out of it. */
  method ConvertWord(t: string, z: nat) returns (ok: bool, q: nat, bytes: seq<nat>)
    requires z <= |t|
    ensures z <= q <= |t| && (forall k | z <= k < q :: !IsSpace(t[k])) && AllIn(t[z..q])
    ensures ok ==> (q < |t| ==> IsSpace(t[q])) && bytes == Digits(Val(Values(t[z..q]), 58), 256)
    ensures !ok ==> q < |t| && !IsSpace(t[q]) && DigitOf(t[q]) == 58
  {
    hide Val, Pow, Digits, DigitOf, IsSpace, Values, HighZero, AllIn, AreDigits, Horner;
    var size := (|t| - z) * 733 / 1000 + 1;
    var b := new nat[size](_ => 0);
    var length: nat := 0;
    q := z;
    StartsEmpty(b[..]);
    assert t[z..z] == [];
    while q < |t| && !IsSpace(t[q])
      invariant z <= q <= |t| && (forall k | z <= k < q :: !IsSpace(t[k])) && AllIn(t[z..q])
      invariant length <= b.Length && AreDigits(b[..], 256) && HighZero(b[..], length)
      invariant Val(b[..], 256) == Val(Values(t[z..q]), 58)
    {
      var digit := DigitOf(t[q]);
      if digit == 58 {
        return false, q, [];
      }
      assert t[z..q + 1] == t[z..q] + [t[q]];
      NextDigit(t[z..q], t[q], |t| - z);
      length := MulAdd(b, 256, 58, digit, length);
      q := q + 1;
    }
    bytes := Trimmed(b, 256, length);
    ok := true;
  }

  lemma StartsEmpty(b: seq<nat>)
    requires forall k | 0 <= k < |b| :: b[k] == 0
    ensures AllIn([]) && AreDigits(b, 256) && HighZero(b, 0) && Val(b, 256) == Val(Values([]), 58)
  {
    ValZeros(b, 256);
    ValZeros(Values([]), 58);
  }

  /** One more character, and why there is room for it. */
  lemma NextDigit(w: string, c: char, left: nat)
    requires AllIn(w) && DigitOf(c) < 58 && |w| < left
    ensures AllIn(w + [c]) && Val(Values(w + [c]), 58) == Horner(58, Val(Values(w), 58), DigitOf(c))
    ensures Horner(58, Val(Values(w), 58), DigitOf(c)) < Pow(256, left * 733 / 1000 + 1)
  {
    hide Val, Pow, DigitOf;
    var d := Values(w + [c]);
    assert d[..|w|] == Values(w);
    ValLast(d, 58);
    ValBound(d, 58);
    DecodingRoom(left);
    PowUpTo(58, |d|, left);
  }

  /** Takes a string as C does, up to but not including its terminator. */
  method DecodeBase58(s: string) returns (r: Option<seq<nat>>)
    ensures r == Decoded(s)
  {
    hide Digits, Val, Pow, DigitOf, Rebased, IsSpace, Values, AllIn, Decoded;
    var p := 0;
    while p < |s| && IsSpace(s[p])
      invariant p <= |s| && forall i | 0 <= i < p :: IsSpace(s[i])
    {
      p := p + 1;
    }
    var t := s[p..];
    var zeroes := 0;
    while zeroes < |t| && t[zeroes] == '1'
      invariant zeroes <= |t| && forall i | 0 <= i < zeroes :: t[i] == '1'
    {
      zeroes := zeroes + 1;
    }
    var ok, q, bytes := ConvertWord(t, zeroes);
    if !ok {
      BadCharacter(s, p, zeroes, q);
      return None;
    }
    var e := q;
    while e < |t| && IsSpace(t[e])
      invariant q <= e <= |t| && forall i | q <= i < e :: IsSpace(t[i])
    {
      e := e + 1;
    }
    if e != |t| {
      SecondWord(s, p, zeroes, q, e);
      return None;
    }
    OneWord(s, p, zeroes, q, bytes);
    r := Some(Zeros(zeroes) + bytes);
  }

  /** Where the word of a string begins, and what it begins with. */
  predicate Begins(s: string, p: nat, z: nat, q: nat)
  {
    && p <= |s| && (forall i | 0 <= i < p :: IsSpace(s[i]))
    && z <= q <= |s| - p && (forall i | 0 <= i < z :: s[p..][i] == '1')
    && (forall i | z <= i < q :: !IsSpace(s[p..][i]))
  }

  lemma WordStarts(s: string, p: nat, z: nat, q: nat)
    requires Begins(s, p, z, q) && (p < |s| ==> !IsSpace(s[p]))
    ensures Run(s, true) == p && q <= Run(s[p..], false)
    ensures q < |s| - p && IsSpace(s[p..][q]) ==> Run(s[p..], false) == q
    ensures q == |s| - p ==> Run(s[p..], false) == q
  {
    RunIs(s, true, p);
    assert !IsSpace('1');
    hide IsSpace;
    var t := s[p..];
    assert forall i | 0 <= i < q :: !IsSpace(t[i]);
    if q == |t| || IsSpace(t[q]) {
      RunIs(t, false, q);
    }
  }

  lemma BadCharacter(s: string, p: nat, z: nat, q: nat)
    requires Begins(s, p, z, q) && (p < |s| ==> !IsSpace(s[p]))
    requires q < |s| - p && !IsSpace(s[p..][q]) && DigitOf(s[p..][q]) == 58
    ensures Decoded(s) == None
  {
    hide IsSpace, Rebased, DigitOf, Begins;
    WordStarts(s, p, z, q);
    var t := s[p..];
    var n := Run(t, false);
    assert q < n;
    assert t[..n][q] == t[q];
    assert !AllIn(t[..n]);
  }

  lemma SecondWord(s: string, p: nat, z: nat, q: nat, e: nat)
    requires Begins(s, p, z, q) && (p < |s| ==> !IsSpace(s[p]))
    requires q <= e < |s| - p && (forall i | q <= i < e :: IsSpace(s[p..][i])) && !IsSpace(s[p..][e])
    requires IsSpace(s[p..][q])
    ensures Decoded(s) == None
  {
    hide IsSpace, Rebased, Begins;
    WordStarts(s, p, z, q);
    RunIs(s[p..][q..], true, e - q);
  }

  lemma OneWord(s: string, p: nat, z: nat, q: nat, bytes: seq<nat>)
    requires Begins(s, p, z, q) && (p < |s| ==> !IsSpace(s[p]))
    requires (q < |s| - p ==> IsSpace(s[p..][q])) && forall i | q <= i < |s| - p :: IsSpace(s[p..][i])
    requires z < q ==> s[p..][z] != '1'
    requires AllIn(s[p..][z..q]) && bytes == Digits(Val(Values(s[p..][z..q]), 58), 256)
    ensures Decoded(s) == Some(Zeros(z) + bytes)
  {
    hide IsSpace, Rebased, Val, Digits, DigitOf, CharOf;
    WordStarts(s, p, z, q);
    var t := s[p..];
    RunIs(t[q..], true, |t| - q);
    var w := t[..q];
    assert Word(s) == Some(w);
    OnesAreZeros();
    forall i | 0 <= i < q ensures DigitOf(w[i]) < 58 && (i < z ==> DigitOf(w[i]) == 0) {
      assert i >= z ==> w[i] == t[z..q][i - z];
    }
    assert AllIn(w);
    var digits := Values(w);
    assert digits[z..] == Values(t[z..q]);
    RebasedIs(digits, z, 58, 256, bytes);
  }

  lemma OnesAreZeros()
    ensures DigitOf('1') == 0 && forall c: char | DigitOf(c) == 0 :: c == '1'
  {
  }

  lemma RebasedIs(s: seq<nat>, z: nat, a: nat, b: nat, d: seq<nat>)
    requires b > 1 && z <= |s| && (forall i | 0 <= i < z :: s[i] == 0) && (z < |s| ==> s[z] != 0)
    requires d == Digits(Val(s[z..], a), b)
    ensures Rebased(s, a, b) == Zeros(z) + d
  {
    hide Digits, Val;
  }

  lemma RunIs(s: string, space: bool, n: nat)
    requires n <= |s| && (forall i | 0 <= i < n :: IsSpace(s[i]) == space) && (n < |s| ==> IsSpace(s[n]) != space)
    ensures Run(s, space) == n
  {
    hide IsSpace;
  }
}
