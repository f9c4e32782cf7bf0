/**
 Bech32 strings: a human-readable part, a separator and the data with its checksum.
 */
module Bech32Text {
  import opened Bech32
  import opened Wrappers

  // ---- Characters ----

  /** The character set, in two halves. */
  function CharOf(v: Symbol): char { if v < 16 then LowChar(v) else HighChar(v) }

  function LowChar(v: Symbol): char
  {
    if v == 0 then 'q' else if v == 1 then 'p' else if v == 2 then 'z' else if v == 3 then 'r'
    else if v == 4 then 'y' else if v == 5 then '9' else if v == 6 then 'x' else if v == 7 then '8'
    else if v == 8 then 'g' else if v == 9 then 'f' else if v == 10 then '2' else if v == 11 then 't'
    else if v == 12 then 'v' else if v == 13 then 'd' else if v == 14 then 'w' else '0'
  }

  function HighChar(v: Symbol): char
  {
    if v == 16 then 's' else if v == 17 then '3' else if v == 18 then 'j' else if v == 19 then 'n'
    else if v == 20 then '5' else if v == 21 then '4' else if v == 22 then 'k' else if v == 23 then 'h'
    else if v == 24 then 'c' else if v == 25 then 'e' else if v == 26 then '6' else if v == 27 then 'm'
    else if v == 28 then 'u' else if v == 29 then 'a' else if v == 30 then '7' else 'l'
  }

  predicate IsUpper(c: char) { 'A' <= c <= 'Z' }

  predicate IsLower(c: char) { 'a' <= c <= 'z' }

  function LowerCase(c: char): char
  {
    if IsUpper(c) then (c as int - 'A' as int + 'a' as int) as char else c
  }

  /** The symbol of a small letter or digit. */
  function SymbolOf(c: char): Option<Symbol> { if LowSymbolOf(c).Some? then LowSymbolOf(c) else HighSymbolOf(c) }

  function LowSymbolOf(c: char): Option<Symbol>
  {
    if c == 'q' then Some(0) else if c == 'p' then Some(1) else if c == 'z' then Some(2)
    else if c == 'r' then Some(3) else if c == 'y' then Some(4) else if c == '9' then Some(5)
    else if c == 'x' then Some(6) else if c == '8' then Some(7) else if c == 'g' then Some(8)
    else if c == 'f' then Some(9) else if c == '2' then Some(10) else if c == 't' then Some(11)
    else if c == 'v' then Some(12) else if c == 'd' then Some(13) else if c == 'w' then Some(14)
    else if c == '0' then Some(15) else None
  }

  function HighSymbolOf(c: char): Option<Symbol>
  {
    if c == 's' then Some(16) else if c == '3' then Some(17) else if c == 'j' then Some(18)
    else if c == 'n' then Some(19) else if c == '5' then Some(20) else if c == '4' then Some(21)
    else if c == 'k' then Some(22) else if c == 'h' then Some(23) else if c == 'c' then Some(24)
    else if c == 'e' then Some(25) else if c == '6' then Some(26) else if c == 'm' then Some(27)
    else if c == 'u' then Some(28) else if c == 'a' then Some(29) else if c == '7' then Some(30)
    else if c == 'l' then Some(31) else None
  }

  /** The reverse table, which reads capital letters like small ones. */
  function Rev(c: char): Option<Symbol> { SymbolOf(LowerCase(c)) }

  lemma CharIsPlain(v: Symbol)
    ensures CharOf(v) != '1' && !IsUpper(CharOf(v)) && 33 <= CharOf(v) as int <= 126
  {
  }

  lemma LowCharSymbol(v: Symbol)
    requires v < 16
    ensures LowSymbolOf(LowChar(v)) == Some(v)
  {
  }

  lemma HighCharSymbol(v: Symbol)
    requires v >= 16
    ensures HighSymbolOf(HighChar(v)) == Some(v)
  {
  }

  lemma HighCharNotLow(v: Symbol)
    ensures LowSymbolOf(HighChar(v)) == None
  {
  }

  lemma CharSymbol(v: Symbol)
    ensures SymbolOf(CharOf(v)) == Some(v)
  {
    hide LowChar, HighChar, LowSymbolOf, HighSymbolOf;
    if v < 16 {
      LowCharSymbol(v);
    } else {
      HighCharSymbol(v);
      HighCharNotLow(v);
    }
  }

  lemma LowSymbolChar(c: char)
    ensures LowSymbolOf(c).Some? ==> LowSymbolOf(c).value < 16 && LowChar(LowSymbolOf(c).value) == c
  {
  }

  lemma HighSymbolChar(c: char)
    ensures HighSymbolOf(c).Some? ==> HighSymbolOf(c).value >= 16 && HighChar(HighSymbolOf(c).value) == c
  {
  }

  lemma SymbolChar(c: char)
    ensures SymbolOf(c).Some? ==> CharOf(SymbolOf(c).value) == c
  {
    hide LowChar, HighChar, LowSymbolOf, HighSymbolOf;
    LowSymbolChar(c);
    HighSymbolChar(c);
  }

  lemma CharBack(v: Symbol)
    ensures Rev(CharOf(v)) == Some(v) && CharOf(v) != '1' && !IsUpper(CharOf(v)) && 33 <= CharOf(v) as int <= 126
  {
    hide CharOf, SymbolOf;
    CharIsPlain(v);
    CharSymbol(v);
  }

  lemma SymbolBack(c: char)
    ensures Rev(c).Some? ==> CharOf(Rev(c).value) == LowerCase(c) && c != '1'
  {
    hide CharOf, SymbolOf;
    SymbolChar(LowerCase(c));
    if Rev(c).Some? {
      CharIsPlain(Rev(c).value);
    }
  }

  lemma LowerIsLower(c: char)
    ensures LowerCase(LowerCase(c)) == LowerCase(c) && !IsUpper(LowerCase(c)) && (LowerCase(c) == '1' <==> c == '1')
  {
  }

  // ---- Strings ----

  function ToSymbol(n: int): Symbol
    requires 0 <= n < 32
  {
    n as bv5
  }

  function HighBits(c: char): Symbol { ToSymbol(c as int / 32 % 8) }

  function LowBits(c: char): Symbol { ToSymbol(c as int % 32) }

  /** ExpandHRP: the high bits of every character, a zero, and the low bits. */
  function Expanded(hrp: string): (r: seq<Symbol>)
    ensures |r| == 2 * |hrp| + 1
  {
    seq(|hrp|, i requires 0 <= i < |hrp| => HighBits(hrp[i])) + [0]
      + seq(|hrp|, i requires 0 <= i < |hrp| => LowBits(hrp[i]))
  }

  predicate Verifies(hrp: string, values: seq<Symbol>)
  {
    PolyMod(Expanded(hrp) + values) == 1
  }

  function Text(v: seq<Symbol>): (r: string)
    ensures |r| == |v|
  {
    seq(|v|, i requires 0 <= i < |v| => CharOf(v[i]))
  }

  function Encoded(hrp: string, values: seq<Symbol>): string
  {
    hrp + "1" + Text(values + Checksum(Expanded(hrp) + values))
  }

  /** The place of the last separator, or -1. */
  function LastOne(s: string): (p: int)
    ensures -1 <= p < |s| && (p >= 0 ==> s[p] == '1') && forall i | p < i < |s| :: s[i] != '1'
  {
    if s == [] then -1 else if s[|s| - 1] == '1' then |s| - 1 else LastOne(s[..|s| - 1])
  }

  predicate Printable(s: string) { forall i | 0 <= i < |s| :: 33 <= s[i] as int <= 126 }

  predicate HasUpper(s: string) { exists i :: 0 <= i < |s| && IsUpper(s[i]) }

  predicate HasLower(s: string) { exists i :: 0 <= i < |s| && IsLower(s[i]) }

  /** The form a string must have before its characters are looked up. */
  predicate WellFormed(s: string)
  {
    Printable(s) && !(HasLower(s) && HasUpper(s)) && |s| <= 90 && 0 < LastOne(s) && LastOne(s) + 7 <= |s|
  }

  predicate AllSymbols(s: string) { forall i | 0 <= i < |s| :: Rev(s[i]).Some? }

  function Symbols(s: string): (r: seq<Symbol>)
    requires AllSymbols(s)
    ensures |r| == |s|
  {
    seq(|s|, i requires 0 <= i < |s| => Rev(s[i]).value)
  }

  function Lowered(s: string): (r: string)
    ensures |r| == |s|
  {
    seq(|s|, i requires 0 <= i < |s| => LowerCase(s[i]))
  }

  function Decoded(s: string): Option<(string, seq<Symbol>)>
  {
    if !WellFormed(s) then None
    else
      var pos := LastOne(s);
      var tail := s[pos + 1..];
      if !AllSymbols(tail) then None
      else
        var hrp, values := Lowered(s[..pos]), Symbols(tail);
        if Verifies(hrp, values) then Some((hrp, values[..|values| - 6])) else None
  }

  // ---- The two undo each other ----

  lemma TextSymbols(v: seq<Symbol>)
    ensures AllSymbols(Text(v)) && Symbols(Text(v)) == v
    ensures forall i | 0 <= i < |v| :: Text(v)[i] != '1' && !IsUpper(Text(v)[i]) && 33 <= Text(v)[i] as int <= 126
  {
    hide CharOf, Rev, IsUpper;
    forall i | 0 <= i < |v|
      ensures Rev(Text(v)[i]) == Some(v[i]) && Text(v)[i] != '1' && !IsUpper(Text(v)[i])
        && 33 <= Text(v)[i] as int <= 126
    {
      CharBack(v[i]);
    }
  }

  lemma SymbolsText(s: string)
    requires AllSymbols(s)
    ensures Text(Symbols(s)) == Lowered(s) && forall i | 0 <= i < |s| :: s[i] != '1'
  {
    hide CharOf, Rev, LowerCase;
    forall i | 0 <= i < |s| ensures CharOf(Rev(s[i]).value) == LowerCase(s[i]) && s[i] != '1' {
      SymbolBack(s[i]);
    }
  }

  /** The checksum always verifies, and no other six symbols do. */
  lemma ChecksumVerifies(hrp: string, values: seq<Symbol>, check: seq<Symbol>)
    requires |check| == 6
    ensures Verifies(hrp, values + check) <==> check == Checksum(Expanded(hrp) + values)
  {
    hide PolyMod, Expanded, Checksum;
    ChecksumUnique(Expanded(hrp) + values, check);
    assert Expanded(hrp) + (values + check) == Expanded(hrp) + values + check;
  }

  /** Data changed within six symbols in a row no longer verifies. */
  lemma ErrorRejected(hrp: string, values: seq<Symbol>, changed: seq<Symbol>, i: nat, j: nat)
    requires Verifies(hrp, values) && |changed| == |values| && i <= j <= |values| && j - i <= 6
    requires changed != values && changed[..i] == values[..i] && changed[j..] == values[j..]
    ensures !Verifies(hrp, changed)
  {
    hide PolyMod, Expanded;
    var h := Expanded(hrp);
    var v, w := h + values, h + changed;
    assert v[..|h| + i] == h + values[..i] && w[..|h| + i] == h + changed[..i];
    assert v[|h| + j..] == values[j..] && w[|h| + j..] == changed[j..];
    assert v[|h|..] == values && w[|h|..] == changed;
    BurstDetected(v, w, |h| + i, |h| + j);
  }

  /** Neither does data changed in one or two symbols anywhere, for as much data as a string of 90
      characters has room for. */
  lemma TwoErrorsRejected(hrp: string, values: seq<Symbol>, changed: seq<Symbol>, i: nat, j: nat)
    requires Verifies(hrp, values) && |changed| == |values| <= 88 && i < j < |values|
    requires changed != values && forall k | 0 <= k < |values| && k != i && k != j :: changed[k] == values[k]
    ensures !Verifies(hrp, changed)
  {
    hide PolyMod, Expanded;
    var h := Expanded(hrp);
    assert (h + values)[|h|..] == values && (h + changed)[|h|..] == changed;
    PairDetected(h + values, h + changed, |h| + i, |h| + j);
  }

  /** Neither does a prefix changed in one character. */
  lemma PrefixErrorRejected(hrp: string, changed: string, values: seq<Symbol>, i: nat)
    requires Verifies(hrp, values) && |changed| == |hrp| <= 87 && i < |hrp|
    requires hrp[i] != changed[i] && hrp[i] as int < 256 && changed[i] as int < 256
    requires forall k | 0 <= k < |hrp| && k != i :: changed[k] == hrp[k]
    ensures !Verifies(changed, values)
  {
    hide PolyMod, HighBits, LowBits;
    var v, w := Expanded(hrp) + values, Expanded(changed) + values;
    var j := |hrp| + 1 + i;
    CharParts(hrp[i], changed[i]);
    assert v[i] == HighBits(hrp[i]) && w[i] == HighBits(changed[i]);
    assert v[j] == LowBits(hrp[i]) && w[j] == LowBits(changed[i]);
    PairDetected(v, w, i, j);
  }

  lemma ToSymbolOnce(m: int, n: int)
    requires 0 <= m < 32 && 0 <= n < 32 && ToSymbol(m) == ToSymbol(n)
    ensures m == n
  {
    hide ToSymbol;
    ToSymbolBack(m);
    ToSymbolBack(n);
  }

  lemma ToSymbolBack(n: int)
    requires 0 <= n < 32
    ensures ToSymbol(n) as int == n
  {
  }

  /** The two parts of a character determine it. */
  lemma CharParts(a: char, b: char)
    requires a != b && a as int < 256 && b as int < 256
    ensures HighBits(a) != HighBits(b) || LowBits(a) != LowBits(b)
  {
    hide ToSymbol;
    var x, y := a as int, b as int;
    assert x == 32 * (x / 32 % 8) + x % 32 && y == 32 * (y / 32 % 8) + y % 32;
    if HighBits(a) == HighBits(b) && LowBits(a) == LowBits(b) {
      ToSymbolOnce(x / 32 % 8, y / 32 % 8);
      ToSymbolOnce(x % 32, y % 32);
    }
  }

  /** A readable part that Encode and Decode agree on: not empty, printable, without capitals. */
  predicate GoodPrefix(hrp: string) { hrp != [] && Printable(hrp) && !HasUpper(hrp) }

  /** Decoding undoes encoding exactly for good prefixes and as much data as fits. */
  lemma DecodeEncoded(hrp: string, values: seq<Symbol>)
    ensures Decoded(Encoded(hrp, values)) == Some((hrp, values)) <==>
      GoodPrefix(hrp) && |hrp| + 1 + |values| + 6 <= 90
  {
    hide Checksum, Expanded, Text, Symbols, Verifies, AllSymbols, IsUpper, IsLower, WellFormed, Lowered;
    var check := Checksum(Expanded(hrp) + values);
    var all := values + check;
    var text := Text(all);
    var s := Encoded(hrp, values);
    TextSymbols(all);
    EncodedSplits(hrp, text, s);
    if GoodPrefix(hrp) && |s| <= 90 {
      EncodedShape(hrp, text, s);
      LoweredSame(hrp);
      ChecksumVerifies(hrp, values, check);
      assert all[..|all| - 6] == values;
    } else if WellFormed(s) {
      EncodedGood(hrp, text, s);
    }
  }

  lemma EncodedSplits(hrp: string, text: string, s: string)
    requires s == hrp + "1" + text && forall i | 0 <= i < |text| :: text[i] != '1'
    ensures LastOne(s) == |hrp| && s[|hrp| + 1..] == text && s[..|hrp|] == hrp && |s| == |hrp| + 1 + |text|
  {
    assert s[|hrp|] == '1' && forall i | |hrp| < i < |s| :: s[i] == text[i - |hrp| - 1];
  }

  /** Only a good prefix comes through. */
  lemma EncodedGood(hrp: string, text: string, s: string)
    requires s == hrp + "1" + text && WellFormed(s) && LastOne(s) == |hrp|
    ensures |s| <= 90 && (Lowered(hrp) == hrp ==> GoodPrefix(hrp))
  {
    hide IsLower;
    assert forall i | 0 <= i < |hrp| :: s[i] == hrp[i];
    if Lowered(hrp) == hrp {
      forall i | 0 <= i < |hrp| ensures !IsUpper(hrp[i]) {
        LowerIsLower(hrp[i]);
        assert hrp[i] == Lowered(hrp)[i];
      }
    }
  }

  lemma EncodedShape(hrp: string, text: string, s: string)
    requires GoodPrefix(hrp) && s == hrp + "1" + text && 6 <= |text| && |s| <= 90
    requires forall i | 0 <= i < |text| :: text[i] != '1' && !IsUpper(text[i]) && 33 <= text[i] as int <= 126
    ensures WellFormed(s) && LastOne(s) == |hrp|
  {
    hide IsUpper, IsLower;
    assert s[|hrp|] == '1' && forall i | |hrp| < i < |s| :: s[i] == text[i - |hrp| - 1];
    PlainOne();
    forall i | 0 <= i < |s| ensures 33 <= s[i] as int <= 126 && !IsUpper(s[i]) {
      assert i < |hrp| ==> s[i] == hrp[i];
    }
  }

  lemma PlainOne()
    ensures !IsUpper('1')
  {
  }

  lemma LoweredSame(hrp: string)
    requires !HasUpper(hrp)
    ensures Lowered(hrp) == hrp
  {
    hide IsUpper;
  }

  /** Whatever decodes is, up to capitals, the encoding of what it decodes to. */
  lemma EncodeDecoded(s: string)
    requires Decoded(s).Some?
    ensures Encoded(Decoded(s).value.0, Decoded(s).value.1) == Lowered(s)
  {
    hide Checksum, Expanded, Verifies, WellFormed, LowerCase, CharOf, Rev;
    assert WellFormed(s);
    var pos := LastOne(s);
    SixAfter(s);
    var tail, hrp := s[pos + 1..], Lowered(s[..pos]);
    var values := Symbols(tail);
    var data, check := values[..|values| - 6], values[|values| - 6..];
    assert values == data + check;
    ChecksumVerifies(hrp, data, check);
    SymbolsText(tail);
    LowerIsLower('1');
    assert Lowered(s) == Lowered(s[..pos]) + "1" + Lowered(tail) by {
      OneIsOne();
      assert s == s[..pos] + "1" + tail;
    }
  }

  lemma OneIsOne()
    ensures LowerCase('1') == '1'
  {
  }

  // ---- As the code runs ----

  /** PolyMod: shift in a symbol, then add the generators of the bits shifted out one by one. */
  method ComputePolyMod(v: seq<Symbol>) returns (c: bv32)
    ensures c == PolyMod(v)
  {
    c := 1;
    for i := 0 to |v|
      invariant c == PolyFrom(1, v[..i])
    {
      assert v[..i + 1][..i] == v[..i];
      c := ComputeStep(c, v[i]);
    }
    assert v[..|v|] == v;
  }

  method ComputeStep(c0: bv32, v: Symbol) returns (c: bv32)
    ensures c == Step(c0, v)
  {
    hide Xor, Shifted, Wide, IsSet;
    var top := c0 >> 25;
    TopBits(c0, top);
    c := Xor(Shifted(c0), Wide(v));
    ghost var x := c;
    XorZero(x);
    if IsSet(top, 1) {
      c := Xor(c, 0x3b6a57b2);
    }
    ghost var x1 := c;
    XorZero(x1);
    if IsSet(top, 2) {
      c := Xor(c, 0x26508e6d);
    }
    ghost var x2 := c;
    XorZero(x2);
    if IsSet(top, 4) {
      c := Xor(c, 0x1ea119fa);
    }
    ghost var x3 := c;
    XorZero(x3);
    if IsSet(top, 8) {
      c := Xor(c, 0x3d4233dd);
    }
    ghost var x4 := c;
    XorZero(x4);
    if IsSet(top, 16) {
      c := Xor(c, 0x2a1462b3);
    }
    GatesInTurn(x, Gate(c0, 0x200_0000, 0x3b6a57b2), Gate(c0, 0x400_0000, 0x26508e6d), Gate(c0, 0x800_0000, 0x1ea119fa),
      Gate(c0, 0x1000_0000, 0x3d4233dd), Gate(c0, 0x2000_0000, 0x2a1462b3));
  }

  lemma TopBits(c: bv32, top: bv32)
    requires top == c >> 25
    ensures IsSet(top, 1) == IsSet(c, 0x200_0000) && IsSet(top, 2) == IsSet(c, 0x400_0000)
    ensures IsSet(top, 4) == IsSet(c, 0x800_0000) && IsSet(top, 8) == IsSet(c, 0x1000_0000)
    ensures IsSet(top, 16) == IsSet(c, 0x2000_0000)
  {
  }

  lemma GatesInTurn(x: bv32, a: bv32, b: bv32, c: bv32, d: bv32, e: bv32)
    ensures Xor(Xor(Xor(Xor(Xor(x, a), b), c), d), e) == Xor(x, Xor(Xor(Xor(Xor(a, b), c), d), e))
  {
    hide Xor;
    XorAssoc(x, a, b);
    XorAssoc(x, Xor(a, b), c);
    XorAssoc(x, Xor(Xor(a, b), c), d);
    XorAssoc(x, Xor(Xor(Xor(a, b), c), d), e);
  }

  method ExpandHRP(hrp: string) returns (r: seq<Symbol>)
    ensures r == Expanded(hrp)
  {
    hide HighBits, LowBits;
    r := Zeros(2 * |hrp| + 1);
    for i := 0 to |hrp|
      invariant |r| == 2 * |hrp| + 1
      invariant forall k | 0 <= k < i :: r[k] == HighBits(hrp[k]) && r[k + |hrp| + 1] == LowBits(hrp[k])
      invariant r[|hrp|] == 0
    {
      r := r[i := HighBits(hrp[i])];
      r := r[i + |hrp| + 1 := LowBits(hrp[i])];
    }
    forall k | 0 <= k < |r| ensures r[k] == Expanded(hrp)[k] {
      if k > |hrp| {
        assert r[(k - |hrp| - 1) + |hrp| + 1] == LowBits(hrp[k - |hrp| - 1]);
      }
    }
  }

  /** The checksum's symbols are cut from the register, highest first. */
  method CreateChecksum(hrp: string, values: seq<Symbol>) returns (r: seq<Symbol>)
    ensures r == Checksum(Expanded(hrp) + values)
  {
    hide PolyMod, Expanded, Groups;
    var enc := ExpandHRP(hrp);
    enc := enc + values + Zeros(6);
    var poly := ComputePolyMod(enc);
    var mod := Xor(poly, 1);
    r := [];
    for i := 0 to 6
      invariant r == Groups(Dropped(mod, 6 - i), i)
    {
      GroupsNext(mod, i);
      r := r + [LowSymbol(Dropped(mod, 5 - i))];
    }
  }

  /** The register without its n lowest symbols: shifted right by 5 * n bits. */
  function Dropped(m: bv32, n: nat): bv32
    requires n <= 6
  {
    if n == 0 then m else if n == 1 then m >> 5 else if n == 2 then m >> 10 else if n == 3 then m >> 15
    else if n == 4 then m >> 20 else if n == 5 then m >> 25 else m >> 30
  }

  lemma GroupsNext(m: bv32, i: nat)
    requires i < 6
    ensures Groups(Dropped(m, 5 - i), i + 1) == Groups(Dropped(m, 6 - i), i) + [LowSymbol(Dropped(m, 5 - i))]
  {
    DroppedNext(m, 5 - i);
  }

  lemma DroppedNext(m: bv32, n: nat)
    requires n < 6
    ensures Rest(Dropped(m, n)) == Dropped(m, n + 1)
  {
    hide Rest;
    RestChain(m);
  }

  lemma RestChain(m: bv32)
    ensures Rest(m) == m >> 5 && Rest(m >> 5) == m >> 10 && Rest(m >> 10) == m >> 15
    ensures Rest(m >> 15) == m >> 20 && Rest(m >> 20) == m >> 25 && Rest(m >> 25) == m >> 30
  {
  }

  method Encode(hrp: string, values: seq<Symbol>) returns (r: string)
    ensures r == Encoded(hrp, values)
  {
    hide CharOf, Checksum, Expanded;
    var checksum := CreateChecksum(hrp, values);
    var combined := values + checksum;
    r := hrp + "1";
    for i := 0 to |combined|
      invariant r == hrp + "1" + Text(combined)[..i]
    {
      r := r + [CharOf(combined[i])];
    }
  }

  method Decode(s: string) returns (r: Option<(string, seq<Symbol>)>)
    ensures r == Decoded(s)
  {
    hide Rev, PolyMod, Expanded, LowerCase, IsUpper, IsLower;
    var lower, upper := false, false;
    for i := 0 to |s|
      invariant forall k | 0 <= k < i :: 33 <= s[k] as int <= 126
      invariant lower == HasLower(s[..i]) && upper == HasUpper(s[..i])
    {
      if (s[i] as int) < 33 || (s[i] as int) > 126 {
        return None;
      }
      HasNext(s, i);
      if IsLower(s[i]) {
        lower := true;
      }
      if IsUpper(s[i]) {
        upper := true;
      }
    }
    assert s[..|s|] == s;
    if lower && upper {
      return None;
    }
    var pos := FindLastOne(s);
    if |s| > 90 || pos == -1 || pos == 0 || pos + 7 > |s| {
      return None;
    }
    var tail := s[pos + 1..];
    r := Finish(s, pos, tail);
  }

  lemma HasNext(s: string, i: nat)
    requires i < |s|
    ensures HasLower(s[..i + 1]) == (HasLower(s[..i]) || IsLower(s[i]))
    ensures HasUpper(s[..i + 1]) == (HasUpper(s[..i]) || IsUpper(s[i]))
  {
    hide IsUpper, IsLower;
    var t := s[..i + 1];
    assert t[i] == s[i] && forall k | 0 <= k < i :: t[k] == s[..i][k];
  }

  method FindLastOne(s: string) returns (p: int)
    ensures p == LastOne(s)
  {
    p := |s| - 1;
    while p >= 0 && s[p] != '1'
      invariant -1 <= p < |s| && forall i | p < i < |s| :: s[i] != '1'
    {
      p := p - 1;
    }
  }

  /** The part of Decode after the form is known to be right. */
  method Finish(s: string, pos: nat, tail: string) returns (r: Option<(string, seq<Symbol>)>)
    requires WellFormed(s) && pos == LastOne(s) && tail == s[pos + 1..]
    ensures r == Decoded(s)
  {
    hide Rev, PolyMod, Expanded, LowerCase, WellFormed;
    SixAfter(s);
    var values := [];
    for i := 0 to |tail|
      invariant |values| == i && forall k | 0 <= k < i :: Rev(tail[k]) == Some(values[k])
    {
      var rev := Rev(tail[i]);
      if rev == None {
        return None;
      }
      values := values + [rev.value];
    }
    assert values == Symbols(tail);
    var hrp := "";
    for i := 0 to pos
      invariant hrp == Lowered(s[..pos])[..i]
    {
      hrp := hrp + [LowerCase(s[i])];
    }
    assert hrp == Lowered(s[..pos]);
    var expanded := ExpandHRP(hrp);
    var poly := ComputePolyMod(expanded + values);
    if poly != 1 {
      return None;
    }
    r := Some((hrp, values[..|values| - 6]));
  }

  lemma SixAfter(s: string)
    requires WellFormed(s)
    ensures 0 < LastOne(s) && LastOne(s) + 7 <= |s|
  {
  }
}
