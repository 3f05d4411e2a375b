/** Hashing (common/hashing.h, common/hashing.cpp): which bytes are read, where codes cannot collide, and
    that what is read enters the code.

    A machine word is a natural below 2^64, an array of bytes a sequence. */
module Hashing {
  import opened Bits
  import Probe

  const WORD_VALUES: nat := 0x1_0000_0000_0000_0000

  type Word = w: nat | w < WORD_VALUES

  const MUL_CONSTANT: Word := 0x79d5_f9e0_de1e_8cf5

  const RANDOM: seq<Word> :=
    [0x243f_6a88_85a3_08d3, 0x1319_8a2e_0370_7344, 0xa409_3822_299f_31d0, 0x082e_fa98_ec4e_6c89,
     0x4528_21e6_38d0_1377, 0xbe54_66cf_34e9_0c6c, 0xc0ac_29b7_c97c_50dd, 0x3f84_d5b5_b547_0917]

  // --- Powers and digits ---

  function Power(b: nat, n: nat): nat {
    if n == 0 then 1 else b * Power(b, n - 1)
  }

  lemma {:induction false} PowerPositive(b: nat, n: nat)
    requires b > 0
    ensures Power(b, n) > 0
  {
    if n == 0 {
    } else {
      PowerPositive(b, n - 1);
      ProductPositive(b, Power(b, n - 1));
    }
  }

  lemma ProductPositive(a: nat, b: nat)
    requires a > 0 && b > 0
    ensures a * b > 0
  {}

  lemma {:induction false} PowerAdd(b: nat, m: nat, n: nat)
    ensures Power(b, m + n) == Power(b, m) * Power(b, n)
  {
    if m == 0 {
    } else {
      PowerAdd(b, m - 1, n);
      TimesTimes(b, Power(b, m - 1), Power(b, n));
    }
  }

  lemma TimesTimes(a: nat, b: nat, c: nat)
    ensures a * (b * c) == (a * b) * c
  {}

  lemma PowerSum(b: nat, m: nat, n: nat, p: nat, q: nat)
    requires Power(b, m) == p && Power(b, n) == q
    ensures Power(b, m + n) == p * q
  {
    hide Power;
    PowerAdd(b, m, n);
  }

  lemma PowersOf256()
    ensures Power(256, 1) == 0x100 && Power(256, 2) == 0x1_0000
    ensures Power(256, 4) == 0x1_0000_0000 && Power(256, 8) == WORD_VALUES
  {}

  lemma PowersOf2()
    ensures Power(2, 8) == 0x100 && Power(2, 16) == 0x1_0000 && Power(2, 24) == 0x100_0000
    ensures Power(2, 32) == 0x1_0000_0000 && Power(2, 64) == WORD_VALUES
  {
    assert Power(2, 2) == 4;
    hide Power;
    PowerSum(2, 2, 2, 4, 4);
    PowerSum(2, 4, 4, 0x10, 0x10);
    PowerSum(2, 8, 8, 0x100, 0x100);
    PowerSum(2, 16, 8, 0x1_0000, 0x100);
    PowerSum(2, 16, 16, 0x1_0000, 0x1_0000);
    PowerSum(2, 32, 32, 0x1_0000_0000, 0x1_0000_0000);
  }

  lemma {:induction false} PowersOf2ArePow2(n: nat)
    ensures IsPow2(Power(2, n))
  {
    if n == 0 {
    } else {
      PowersOf2ArePow2(n - 1);
    }
  }

  lemma WordsArePow2()
    ensures IsPow2(WORD_VALUES)
  {
    PowersOf2();
    PowersOf2ArePow2(64);
  }

  // The value of bytes in memory, lowest first.
  function LittleEndian(s: seq<Byte>): nat {
    if s == [] then 0 else s[0] + 256 * LittleEndian(s[1..])
  }

  lemma {:induction false} LittleEndianBound(s: seq<Byte>)
    ensures LittleEndian(s) < Power(256, |s|)
  {
    if s == [] {
    } else {
      LittleEndianBound(s[1..]);
    }
  }

  lemma {:induction false} LittleEndianIsLossless(s: seq<Byte>, t: seq<Byte>)
    requires |s| == |t| && LittleEndian(s) == LittleEndian(t)
    ensures s == t
  {
    if s != [] {
      DivModUnique(LittleEndian(s), 256, LittleEndian(s[1..]), s[0]);
      DivModUnique(LittleEndian(t), 256, LittleEndian(t[1..]), t[0]);
      LittleEndianIsLossless(s[1..], t[1..]);
      assert s == [s[0]] + s[1..] && t == [t[0]] + t[1..];
    } else {
      assert t == [];
    }
  }

  // Or-ing a value into cleared low bits adds it.
  lemma {:induction false} OrDisjoint(a: nat, m: nat, b: nat)
    requires IsPow2(m) && b < m
    ensures Or(a * m, b) == a * m + b && Or(b, a * m) == a * m + b
  {
    if m <= 1 {
    } else {
      HalveProduct(m, m / 2, a, a * m);
      OrDisjoint(a, m / 2, b / 2);
    }
  }

  lemma ShiftsArePow2()
    ensures IsPow2(0x100) && IsPow2(0x1_0000) && IsPow2(0x100_0000) && IsPow2(0x1_0000_0000)
  {
    hide Power, IsPow2;
    PowersOf2();
    PowersOf2ArePow2(8);
    PowersOf2ArePow2(16);
    PowersOf2ArePow2(24);
    PowersOf2ArePow2(32);
  }

  lemma {:induction false} XorBound(a: nat, b: nat, m: nat)
    requires IsPow2(m) && a < m && b < m
    ensures Xor(a, b) < m
  {
    if m == 1 || a == 0 || b == 0 {
    } else {
      XorBound(a / 2, b / 2, m / 2);
    }
  }

  function XorWord(a: Word, b: Word): (r: Word)
    ensures r == Xor(a, b)
  {
    WordsArePow2();
    XorBound(a, b, WORD_VALUES);
    Xor(a, b)
  }

  // --- Reads ---

  // A read of n bytes starting at a position; it is an error to read outside the data.
  function Load(data: seq<Byte>, at: int, n: nat): (r: nat)
    requires 0 <= at && at + n <= |data|
    ensures n == 8 ==> r < WORD_VALUES
  {
    LittleEndianBound(data[at..at + n]);
    PowersOf256();
    LittleEndian(data[at..at + n])
  }

  // ReadSmall: a value of 1 to 8 bytes, with overlapping reads for 6 and 7.
  function ReadSmall(v: seq<Byte>): nat
    requires 1 <= |v| <= 8
  {
    match |v|
    case 1 => Load(v, 0, 1)
    case 2 => Load(v, 0, 2)
    case 3 => Or(Load(v, 0, 2), Load(v, 2, 1) * 0x1_0000)
    case 4 => Load(v, 0, 4)
    case 5 => Or(Load(v, 0, 4), Load(v, 4, 1) * 0x1_0000_0000)
    case 8 => Load(v, 0, 8)
    case _ => Or(Load(v, 0, 4), Load(v, |v| - 4, 4) * 0x1_0000_0000)
  }

  // Read1To3, with the size in the fourth byte.
  function ReadTiny(v: seq<Byte>): nat
    requires 1 <= |v| <= 3
  {
    var byte0: nat, byte1: nat, byte2: nat := v[0], v[|v| - 1], v[|v| / 2];
    Or(Or(Or(byte0 * 0x100, byte1 * 0x1_0000), byte2), |v| * 0x100_0000)
  }

  // --- Mixing ---

  // The lowest digit of a word, and the others.
  function Low(b: nat, w: nat): nat
    requires b > 0
  {
    w % b
  }

  function High(b: nat, w: nat): nat
    requires b > 0
  {
    w / b
  }

  // The digits of a word in reverse: byte swapping with 8 digits of 256, bit reversal with 64 of 2.
  function Reverse(b: nat, n: nat, w: nat): nat
    requires b > 0
  {
    if n == 0 then 0 else Low(b, w) * Power(b, n - 1) + Reverse(b, n - 1, High(b, w))
  }

  lemma {:induction false} ReverseBound(b: nat, n: nat, w: nat)
    requires b > 0
    ensures Reverse(b, n, w) < Power(b, n)
  {
    if n == 0 {
    } else {
      ReverseBound(b, n - 1, High(b, w));
      DigitBound(Low(b, w), b, Power(b, n - 1), Reverse(b, n - 1, High(b, w)));
    }
  }

  lemma DigitBound(d: nat, b: nat, p: nat, r: nat)
    requires d < b && r < p
    ensures d * p + r < b * p
  {
    MulAtLeast(b - d, p);
    assert (b - d) * p == b * p - d * p;
  }

  lemma TopDigit(b: nat, n: nat, w: nat)
    requires b > 0 && n > 0 && w < Power(b, n)
    ensures var p := Power(b, n - 1); var r := Reverse(b, n, w);
            p > 0 && High(p, r) == Low(b, w) && Low(p, r) == Reverse(b, n - 1, High(b, w)) && High(b, w) < p
  {
    var p := Power(b, n - 1);
    PowerPositive(b, n - 1);
    ReverseBound(b, n - 1, High(b, w));
    DivModUnique(Reverse(b, n, w), p, Low(b, w), Reverse(b, n - 1, High(b, w)));
    QuotientBound(w, b, p);
  }

  lemma {:induction false} ReverseIsLossless(b: nat, n: nat, x: nat, y: nat)
    requires b > 0 && x < Power(b, n) && y < Power(b, n) && Reverse(b, n, x) == Reverse(b, n, y)
    ensures x == y
  {
    if n == 0 {
      assert Power(b, 0) == 1;
    } else {
      hide Reverse, Power, High, Low;
      TopDigit(b, n, x);
      TopDigit(b, n, y);
      ReverseIsLossless(b, n - 1, High(b, x), High(b, y));
      SameDivMod(x, y, b);
    }
  }

  // The i-th digit from below.
  function Digit(b: nat, w: nat, i: nat): nat
    requires b > 0
  {
    PowerPositive(b, i);
    (w / Power(b, i)) % b
  }

  lemma DivSum(k: nat, m: nat, r: nat)
    requires m > 0
    ensures (k * m + r) / m == k + r / m
  {
    DivModUnique(k * m + r, m, k + r / m, r % m);
  }

  lemma DivTwice(w: nat, b: nat, p: nat)
    requires b > 0 && p > 0
    ensures b * p > 0 && (w / b) / p == w / (b * p)
  {
    var q, r := w / b / p, (w / b) % p;
    ProductPositive(b, p);
    assert w / b == p * q + r;
    TwoDivisions(w, b, p, b * p, w / b, w % b, q, r);
    DivModUnique(w, b * p, q, b * r + w % b);
  }

  lemma TwoDivisions(w: nat, b: nat, p: nat, c: nat, u: nat, s: nat, q: nat, r: nat)
    requires w == b * u + s && u == p * q + r && s < b && r < p && c == b * p
    ensures w == q * c + (b * r + s) && b * r + s < c
  {
    DigitBound(r, p, b, s);
    TimesTimes(b, p, q);
    assert b * u == b * (p * q) + b * r;
  }

  lemma UpperDigit(b: nat, d: nat, p: nat, q: nat, r: nat)
    requires b > 0 && p > 0
    ensures ((d * (p * (b * q)) + r) / p) % b == (r / p) % b
  {
    TimesTimes(d, p, b * q);
    var k := d * (b * q);
    assert d * (p * (b * q)) == k * p;
    DivSum(k, p, r);
    assert k == (d * q) * b;
    DivModUnique(k + r / p, b, d * q + r / p / b, (r / p) % b);
  }

  // Reversing puts each digit at the mirrored place.
  lemma {:induction false} ReverseDigit(b: nat, n: nat, w: nat, i: nat)
    requires b > 0 && i < n
    ensures Digit(b, Reverse(b, n, w), i) == Digit(b, w, n - 1 - i)
    decreases n
  {
    PowerPositive(b, n - 1);
    if i == n - 1 {
      LastDigit(b, n, w);
    } else {
      hide Reverse, Power, Digit, Low, High;
      ReverseDigit(b, n - 1, High(b, w), i);
      LowerDigit(b, n, w, i);
      HigherDigit(b, w, n - 2 - i);
    }
  }

  lemma LastDigit(b: nat, n: nat, w: nat)
    requires b > 0 && n > 0
    ensures Digit(b, Reverse(b, n, w), n - 1) == Digit(b, w, 0)
  {
    var p, rest := Power(b, n - 1), Reverse(b, n - 1, High(b, w));
    assert Reverse(b, n, w) == Low(b, w) * p + rest;
    assert Digit(b, w, 0) == Low(b, w) by { assert Power(b, 0) == 1; }
    hide Reverse, Power;
    PowerPositive(b, n - 1);
    ReverseBound(b, n - 1, High(b, w));
    DivModUnique(Reverse(b, n, w), p, Low(b, w), rest);
    SmallMod(Low(b, w), b);
  }

  lemma SmallMod(d: nat, b: nat)
    requires d < b
    ensures d % b == d
  {}

  lemma LowerDigit(b: nat, n: nat, w: nat, i: nat)
    requires b > 0 && i < n - 1
    ensures Digit(b, Reverse(b, n, w), i) == Digit(b, Reverse(b, n - 1, High(b, w)), i)
  {
    PowerAdd(b, i, n - 1 - i);
    PowerPositive(b, i);
    UpperDigit(b, Low(b, w), Power(b, i), Power(b, n - 2 - i), Reverse(b, n - 1, High(b, w)));
  }

  lemma HigherDigit(b: nat, w: nat, i: nat)
    requires b > 0
    ensures Digit(b, High(b, w), i) == Digit(b, w, i + 1)
  {
    PowerPositive(b, i);
    DivTwice(w, b, Power(b, i));
  }

  lemma SameDivMod(x: nat, y: nat, b: nat)
    requires b > 0 && High(b, x) == High(b, y) && Low(b, x) == Low(b, y)
    ensures x == y
  {}

  lemma QuotientBound(x: nat, b: nat, p: nat)
    requires b > 0 && x < b * p
    ensures x / b < p
  {}

  // How the platform reverses a word.
  datatype Reversal = ByteSwap | BitReverse

  function Reversed(how: Reversal, w: nat): (r: Word) {
    PowersOf256();
    PowersOf2();
    ReverseBound(256, 8, w);
    ReverseBound(2, 64, w);
    if how == ByteSwap then Reverse(256, 8, w) else Reverse(2, 64, w)
  }

  // The bytes of the word, or its bits, come out in the opposite order.
  lemma ReversedDigits(w: Word)
    ensures forall i :: 0 <= i < 8 ==> Digit(256, Reversed(ByteSwap, w), i) == Digit(256, w, 7 - i)
    ensures forall i :: 0 <= i < 64 ==> Digit(2, Reversed(BitReverse, w), i) == Digit(2, w, 63 - i)
  {
    hide Digit, Reverse;
    forall i | 0 <= i < 8 ensures Digit(256, Reversed(ByteSwap, w), i) == Digit(256, w, 7 - i) {
      ReverseDigit(256, 8, w, i);
    }
    forall i | 0 <= i < 64 ensures Digit(2, Reversed(BitReverse, w), i) == Digit(2, w, 63 - i) {
      ReverseDigit(2, 64, w, i);
    }
  }

  function WeakMix(how: Reversal, w: Word): Word {
    Reversed(how, (w * MUL_CONSTANT) % WORD_VALUES)
  }

  lemma OddMultiplierIsLossless(a: nat, x: Word, y: Word)
    requires a % 2 == 1 && x <= y && (x * a) % WORD_VALUES == (y * a) % WORD_VALUES
    ensures x == y
  {
    var k := (y * a) / WORD_VALUES - (x * a) / WORD_VALUES;
    WordsArePow2();
    assert a * (y - x) == y * a - x * a;
    assert y * a - x * a == WORD_VALUES * k;
    if k >= 0 {
      var c := Probe.OddFactorCancels(a, y - x, WORD_VALUES, k);
    } else {
      ProductSign(a, y - x);
    }
  }

  lemma ProductSign(a: nat, b: nat)
    ensures a * b >= 0
  {}

  // Different words never mix to the same word.
  lemma WeakMixIsLossless(how: Reversal, x: Word, y: Word)
    requires WeakMix(how, x) == WeakMix(how, y)
    ensures x == y
  {
    PowersOf256();
    PowersOf2();
    var p, q := (x * MUL_CONSTANT) % WORD_VALUES, (y * MUL_CONSTANT) % WORD_VALUES;
    if how == ByteSwap { ReverseIsLossless(256, 8, p, q); } else { ReverseIsLossless(2, 64, p, q); }
    if x <= y { OddMultiplierIsLossless(MUL_CONSTANT, x, y); } else { OddMultiplierIsLossless(MUL_CONSTANT, y, x); }
  }

  // --- Lossless reads ---

  lemma LoadBound(data: seq<Byte>, at: int, n: nat)
    requires 0 <= at && at + n <= |data|
    ensures Load(data, at, n) < Power(256, n)
  {
    LittleEndianBound(data[at..at + n]);
  }

  // Two adjoining or overlapping loads side by side in a word.
  function Joined(v: seq<Byte>, n: nat, at: nat, k: nat, m: nat): nat
    requires n <= |v| && at + k <= |v|
  {
    Or(Load(v, 0, n), Load(v, at, k) * m)
  }

  lemma JoinedIsLossless(x: seq<Byte>, y: seq<Byte>, n: nat, at: nat, k: nat, m: nat)
    requires |x| == |y| == at + k && at <= n <= |x| && IsPow2(m) && m == Power(256, n)
    requires Joined(x, n, at, k, m) == Joined(y, n, at, k, m)
    ensures x == y
  {
    hide Power;
    LoadBound(x, 0, n);
    LoadBound(y, 0, n);
    OrDisjoint(Load(x, at, k), m, Load(x, 0, n));
    OrDisjoint(Load(y, at, k), m, Load(y, 0, n));
    DivModUnique(Joined(x, n, at, k, m), m, Load(x, at, k), Load(x, 0, n));
    DivModUnique(Joined(y, n, at, k, m), m, Load(y, at, k), Load(y, 0, n));
    LittleEndianIsLossless(x[0..n], y[0..n]);
    LittleEndianIsLossless(x[at..at + k], y[at..at + k]);
    forall i | 0 <= i < |x| ensures x[i] == y[i] {
      if i < n {
        assert x[i] == x[0..n][i] && y[i] == y[0..n][i];
      } else {
        assert x[i] == x[at..at + k][i - at] && y[i] == y[at..at + k][i - at];
      }
    }
  }

  lemma ReadSmallIsLossless(x: seq<Byte>, y: seq<Byte>)
    requires 1 <= |x| <= 8 && |x| == |y| && ReadSmall(x) == ReadSmall(y)
    ensures x == y
  {
    ShiftsArePow2();
    PowersOf256();
    if |x| == 3 {
      assert ReadSmall(x) == Joined(x, 2, 2, 1, 0x1_0000) && ReadSmall(y) == Joined(y, 2, 2, 1, 0x1_0000);
      JoinedIsLossless(x, y, 2, 2, 1, 0x1_0000);
    } else if |x| == 5 {
      assert ReadSmall(x) == Joined(x, 4, 4, 1, 0x1_0000_0000) && ReadSmall(y) == Joined(y, 4, 4, 1, 0x1_0000_0000);
      JoinedIsLossless(x, y, 4, 4, 1, 0x1_0000_0000);
    } else if 6 <= |x| <= 7 {
      assert ReadSmall(x) == Joined(x, 4, |x| - 4, 4, 0x1_0000_0000);
      assert ReadSmall(y) == Joined(y, 4, |y| - 4, 4, 0x1_0000_0000);
      JoinedIsLossless(x, y, 4, |x| - 4, 4, 0x1_0000_0000);
    } else {
      assert x[0..|x|] == x && y[0..|y|] == y;
      LittleEndianIsLossless(x, y);
    }
  }

  lemma {:induction false} LittleEndianOfTwo(s: seq<Byte>, t: seq<Byte>)
    ensures LittleEndian(s + t) == LittleEndian(s) + Power(256, |s|) * LittleEndian(t)
  {
    if s == [] {
      assert s + t == t;
    } else {
      LittleEndianOfTwo(s[1..], t);
      assert (s + t)[1..] == s[1..] + t;
      TimesTimes(256, Power(256, |s| - 1), LittleEndian(t));
    }
  }

  // A small value is read as the number its bytes make, lowest first; of six or seven bytes the middle
  // ones are read twice.
  lemma ReadSmallValue(v: seq<Byte>)
    requires 1 <= |v| <= 8
    ensures |v| != 6 && |v| != 7 ==> ReadSmall(v) == LittleEndian(v)
    ensures |v| >= 6 && |v| != 8 ==> ReadSmall(v) == LittleEndian(v[..4] + v[|v| - 4..])
  {
    ShiftsArePow2();
    PowersOf256();
    hide Or, Power, IsPow2, LittleEndian;
    var n := |v|;
    if n == 3 {
      JoinedValue(v, 2, 2, 1, 0x1_0000);
      assert v[0..2] + v[2..2 + 1] == v;
    } else if n == 5 {
      JoinedValue(v, 4, 4, 1, 0x1_0000_0000);
      assert v[0..4] + v[4..4 + 1] == v;
    } else if 6 <= n <= 7 {
      JoinedValue(v, 4, n - 4, 4, 0x1_0000_0000);
      assert v[0..4] == v[..4] && v[n - 4..n - 4 + 4] == v[n - 4..];
    } else {
      assert v[0..n] == v;
    }
  }

  lemma JoinedValue(v: seq<Byte>, n: nat, at: nat, k: nat, m: nat)
    requires n <= |v| && at + k <= |v| && IsPow2(m) && m == Power(256, n)
    ensures Joined(v, n, at, k, m) == LittleEndian(v[0..n] + v[at..at + k])
  {
    hide Power, IsPow2, LittleEndian, Or;
    LoadBound(v, 0, n);
    OrDisjoint(Load(v, at, k), m, Load(v, 0, n));
    LittleEndianOfTwo(v[0..n], v[at..at + k]);
    Commute(LittleEndian(v[at..at + k]), m);
  }

  lemma Commute(a: nat, b: nat)
    ensures a * b == b * a
  {}

  lemma ReadSmallFits(v: seq<Byte>)
    requires 1 <= |v| <= 8
    ensures ReadSmall(v) < WORD_VALUES
  {
    hide Or, LittleEndian;
    ShiftsArePow2();
    PowersOf256();
    if |v| == 3 {
      LoadBound(v, 0, 2);
      LoadBound(v, 2, 1);
      OrDisjoint(Load(v, 2, 1), 0x1_0000, Load(v, 0, 2));
    } else if |v| == 5 {
      LoadBound(v, 0, 4);
      LoadBound(v, 4, 1);
      OrDisjoint(Load(v, 4, 1), 0x1_0000_0000, Load(v, 0, 4));
    } else if 6 <= |v| <= 7 {
      LoadBound(v, 0, 4);
      LoadBound(v, |v| - 4, 4);
      OrDisjoint(Load(v, |v| - 4, 4), 0x1_0000_0000, Load(v, 0, 4));
    } else {
      LoadBound(v, 0, |v|);
    }
  }

  // The four bytes of a tiny read: the middle byte, the first, the last, and the size.
  lemma TinyBytes(v: seq<Byte>)
    requires 1 <= |v| <= 3
    ensures ReadTiny(v) == v[|v| / 2] + 0x100 * v[0] + 0x1_0000 * v[|v| - 1] + 0x100_0000 * |v|
  {
    hide Or, IsPow2;
    ShiftsArePow2();
    var byte0: nat, byte1: nat, byte2: nat := v[0], v[|v| - 1], v[|v| / 2];
    OrDisjoint(byte1, 0x1_0000, byte0 * 0x100);
    OrDisjoint(byte0 + 0x100 * byte1, 0x100, byte2);
    OrDisjoint(|v|, 0x100_0000, byte2 + 0x100 * byte0 + 0x1_0000 * byte1);
  }

  lemma ReadTinyIsLossless(x: seq<Byte>, y: seq<Byte>)
    requires 1 <= |x| <= 3 && 1 <= |y| <= 3 && ReadTiny(x) == ReadTiny(y)
    ensures x == y
  {
    hide Or, ReadTiny;
    TinyBytes(x);
    TinyBytes(y);
    assert |x| == |y|;
    forall i | 0 <= i < |x| ensures x[i] == y[i] {
      assert i == 0 || i == |x| - 1 || i == |x| / 2;
    }
  }

  // --- The hasher ---

  lemma ProductFits(a: Word, b: Word)
    ensures a * b / WORD_VALUES < WORD_VALUES
  {
    MulAtLeast(WORD_VALUES - b, a + 1);
    assert WORD_VALUES * (a + 1) - b * (a + 1) == (WORD_VALUES - b) * (a + 1);
    QuotientBound(a * b, WORD_VALUES, WORD_VALUES);
  }

  // The two halves of the 128-bit product.
  function Mix(a: Word, b: Word): Word {
    ProductFits(a, b);
    XorWord((a * b) % WORD_VALUES, a * b / WORD_VALUES)
  }

  // Whatever the product, its low half is combined with its high half.
  lemma MixOfHalves(a: Word, b: Word, low: Word, high: Word)
    requires a * b == high * WORD_VALUES + low
    ensures Mix(a, b) == Xor(low, high)
  {
    DivModUnique(a * b, WORD_VALUES, high, low);
  }

  // --- The codes ---

  // HashRaw for a value of at most 8 bytes: the code from a fresh hasher with this seed.
  function SmallCode(how: Reversal, seed: Word, value: seq<Byte>): Word
    requires 1 <= |value| <= 8
  {
    ReadSmallFits(value);
    WeakMix(how, XorWord(seed, ReadSmall(value)))
  }

  // HashSizedBytes for 1 to 3 bytes.
  function TinyCode(how: Reversal, bytes: seq<Byte>): Word
    requires 1 <= |bytes| <= 3
  {
    TinyBytes(bytes);
    WeakMix(how, ReadTiny(bytes))
  }

  // With one seed, different values of one small type have different codes.
  lemma SmallCodesDiffer(how: Reversal, seed: Word, x: seq<Byte>, y: seq<Byte>)
    requires 1 <= |x| <= 8 && |x| == |y|
    ensures SmallCode(how, seed, x) == SmallCode(how, seed, y) <==> x == y
  {
    hide WeakMix, ReadSmall;
    if SmallCode(how, seed, x) == SmallCode(how, seed, y) {
      ReadSmallFits(x);
      ReadSmallFits(y);
      WeakMixIsLossless(how, XorWord(seed, ReadSmall(x)), XorWord(seed, ReadSmall(y)));
      XorInvolution(seed, ReadSmall(x));
      XorInvolution(seed, ReadSmall(y));
      ReadSmallIsLossless(x, y);
    }
  }

  // Different strings of 1 to 3 bytes have different codes, whatever their lengths.
  lemma TinyCodesDiffer(how: Reversal, x: seq<Byte>, y: seq<Byte>)
    requires 1 <= |x| <= 3 && 1 <= |y| <= 3
    ensures TinyCode(how, x) == TinyCode(how, y) <==> x == y
  {
    hide WeakMix, ReadTiny;
    if TinyCode(how, x) == TinyCode(how, y) {
      TinyBytes(x);
      TinyBytes(y);
      WeakMixIsLossless(how, ReadTiny(x), ReadTiny(y));
      ReadTinyIsLossless(x, y);
    }
  }

  // --- The hasher ---

  function Range(lo: int, hi: int): (s: set<int>)
    ensures forall i :: i in s <==> lo <= i < hi
    decreases hi - lo
  {
    if lo >= hi then {} else {lo} + Range(lo + 1, hi)
  }

  // Eight bytes of the random data from any byte offset.
  function RandomBytes(): (r: seq<Byte>)
    ensures |r| == 64
  {
    seq(64, i requires 0 <= i < 64 => Digit(256, RANDOM[i / 8], i % 8))
  }

  lemma {:induction false} LittleEndianOfDigits(w: nat, s: seq<Byte>)
    requires w < Power(256, |s|) && forall i :: 0 <= i < |s| ==> s[i] == Digit(256, w, i)
    ensures LittleEndian(s) == w
  {
    if s == [] {
    } else {
      forall i | 0 <= i < |s| - 1 ensures s[1..][i] == Digit(256, w / 256, i) {
        HigherDigit(256, w, i);
      }
      QuotientBound(w, 256, Power(256, |s| - 1));
      LittleEndianOfDigits(w / 256, s[1..]);
    }
  }

  // Sampling at a multiple of eight gives a word of the random data.
  lemma SampleAligned(k: nat)
    requires k < 7
    ensures SampleRandom(8 * k) == RANDOM[k]
  {
    hide Digit;
    PowersOf256();
    LittleEndianOfDigits(RANDOM[k], RandomBytes()[8 * k..8 * k + 8]);
  }

  function Mix32(bytes: seq<Byte>, at: int, buffer: Word, random0: Word, random1: Word): Word
    requires 0 <= at && at + 32 <= |bytes|
  {
    XorWord(Mix(XorWord(Load(bytes, at, 8), random0), XorWord(Load(bytes, at + 8, 8), buffer)),
            Mix(XorWord(Load(bytes, at + 16, 8), random1), XorWord(Load(bytes, at + 24, 8), buffer)))
  }

  // What is left to hash, from a position with two running buffers.
  function LargeFrom(bytes: seq<Byte>, at: int, buffer0: Word, buffer1: Word): Word
    requires 0 <= at < |bytes| && 32 < |bytes|
    decreases |bytes| - at
  {
    var size := |bytes|;
    if at < size - 64 then
      LargeFrom(bytes, at + 64, Mix32(bytes, at, buffer0, RANDOM[4], RANDOM[5]),
                Mix32(bytes, at + 32, buffer1, RANDOM[6], RANDOM[7]))
    else if at < size - 32 then
      LargeTail(bytes, at + 32, Mix32(bytes, at, buffer0, RANDOM[4], RANDOM[5]), buffer1)
    else LargeTail(bytes, at, buffer0, buffer1)
  }

  function LargeTail(bytes: seq<Byte>, at: int, buffer0: Word, buffer1: Word): Word
    requires 32 < |bytes|
  {
    var size := |bytes|;
    var last := if at < size - 16 then Mix32(bytes, size - 32, buffer1, RANDOM[6], RANDOM[7])
                else Mix(XorWord(Load(bytes, size - 16, 8), RANDOM[6]), XorWord(Load(bytes, size - 8, 8), buffer1));
    XorWord(buffer0, last)
  }

  function LargeCode(b: Word, bytes: seq<Byte>): Word
    requires 32 < |bytes| < WORD_VALUES
  {
    Mix(XorWord(|bytes|, LargeFrom(bytes, 0, XorWord(b, RANDOM[0]), XorWord(b, RANDOM[2]))), MUL_CONSTANT)
  }

  // Two overlapping 4-byte reads, the first one in the high half.
  function Read4To8(bytes: seq<Byte>): nat
    requires 4 <= |bytes| <= 8
  {
    Or(Load(bytes, 0, 4) * 0x1_0000_0000, Load(bytes, |bytes| - 4, 4))
  }

  lemma Read4To8Fits(bytes: seq<Byte>)
    requires 4 <= |bytes| <= 8
    ensures Read4To8(bytes) < WORD_VALUES
  {
    hide Or, LittleEndian;
    ShiftsArePow2();
    PowersOf256();
    LoadBound(bytes, 0, 4);
    LoadBound(bytes, |bytes| - 4, 4);
    OrDisjoint(Load(bytes, 0, 4), 0x1_0000_0000, Load(bytes, |bytes| - 4, 4));
  }

  function SampleRandom(offset: nat): Word
    requires offset < 56
  {
    Load(RandomBytes(), offset, 8)
  }

  // HashSizedBytes: what a buffer becomes by hashing bytes of any size.
  function SizedCode(how: Reversal, b: Word, bytes: seq<Byte>): Word
    requires |bytes| < WORD_VALUES
  {
    var size := |bytes|;
    if size == 0 then XorWord(b, RANDOM[0])
    else if size <= 3 then TinyCode(how, bytes)
    else if size <= 8 then Read4To8Fits(bytes); Mix(XorWord(Read4To8(bytes), b), RANDOM[size - 1])
    else if size <= 16 then
      Mix(XorWord(Load(bytes, 0, 8), SampleRandom(size)), XorWord(Load(bytes, size - 8, 8), b))
    else if size <= 32 then
      var seeded := XorWord(b, SampleRandom(size));
      XorWord(Mix(XorWord(Load(bytes, 0, 8), RANDOM[1]), XorWord(Load(bytes, 8, 8), seeded)),
              Mix(XorWord(Load(bytes, size - 16, 8), RANDOM[3]), XorWord(Load(bytes, size - 8, 8), seeded)))
    else LargeCode(b, bytes)
  }

  // --- What enters a code ---

  // A step of the computation where different inputs may give the same result, with its inputs.
  datatype Node = Mixed(a: Word, b: Word) | Xored(a: Word, b: Word)

  function Result(n: Node): Word {
    match n
    case Mixed(a, b) => Mix(a, b)
    case Xored(a, b) => XorWord(a, b)
  }

  function ChunkNodes(bytes: seq<Byte>, at: int, acc: Word, random0: Word, random1: Word): (nodes: seq<Node>)
    requires 0 <= at && at + 32 <= |bytes|
    ensures |nodes| == 5
  {
    var a: Word, b: Word := Load(bytes, at, 8), Load(bytes, at + 8, 8);
    var c: Word, d: Word := Load(bytes, at + 16, 8), Load(bytes, at + 24, 8);
    var m0, m1 := Mixed(XorWord(a, random0), XorWord(b, acc)), Mixed(XorWord(c, random1), XorWord(d, acc));
    [Xored(b, acc), m0, Xored(d, acc), m1, Xored(Result(m0), Result(m1))]
  }

  function TailNodes(bytes: seq<Byte>, at: int, buffer0: Word, buffer1: Word): seq<Node>
    requires 32 < |bytes|
  {
    var size := |bytes|;
    if at < size - 16 then
      var last := ChunkNodes(bytes, size - 32, buffer1, RANDOM[6], RANDOM[7]);
      last + [Xored(buffer0, Result(last[4]))]
    else
      var c: Word, d: Word := Load(bytes, size - 16, 8), Load(bytes, size - 8, 8);
      var last := Mixed(XorWord(c, RANDOM[6]), XorWord(d, buffer1));
      [Xored(d, buffer1), last, Xored(buffer0, Result(last))]
  }

  function LargeNodes(bytes: seq<Byte>, at: int, buffer0: Word, buffer1: Word): seq<Node>
    requires 0 <= at < |bytes| && 32 < |bytes|
    decreases |bytes| - at
  {
    var size := |bytes|;
    if at < size - 64 then
      var chunk0 := ChunkNodes(bytes, at, buffer0, RANDOM[4], RANDOM[5]);
      var chunk1 := ChunkNodes(bytes, at + 32, buffer1, RANDOM[6], RANDOM[7]);
      chunk0 + (chunk1 + LargeNodes(bytes, at + 64, Result(chunk0[4]), Result(chunk1[4])))
    else if at < size - 32 then
      var chunk0 := ChunkNodes(bytes, at, buffer0, RANDOM[4], RANDOM[5]);
      chunk0 + TailNodes(bytes, at + 32, Result(chunk0[4]), buffer1)
    else TailNodes(bytes, at, buffer0, buffer1)
  }

  // The steps by which HashSizedBytes gets the code of more than three bytes.
  function Nodes(b: Word, bytes: seq<Byte>): seq<Node>
    requires |bytes| < WORD_VALUES
  {
    var size := |bytes|;
    if size <= 3 then []
    else if size <= 8 then
      Read4To8Fits(bytes);
      var data: Word := Read4To8(bytes);
      [Xored(data, b), Mixed(XorWord(data, b), RANDOM[size - 1])]
    else if size <= 16 then
      var low: Word, high: Word := Load(bytes, 0, 8), Load(bytes, size - 8, 8);
      [Xored(low, SampleRandom(size)), Xored(high, b), Mixed(XorWord(low, SampleRandom(size)), XorWord(high, b))]
    else if size <= 32 then
      var seeded := XorWord(b, SampleRandom(size));
      var a: Word, b: Word := Load(bytes, 0, 8), Load(bytes, 8, 8);
      var c: Word, d: Word := Load(bytes, size - 16, 8), Load(bytes, size - 8, 8);
      var m0, m1 := Mixed(XorWord(a, RANDOM[1]), XorWord(b, seeded)), Mixed(XorWord(c, RANDOM[3]), XorWord(d, seeded));
      [Xored(b, seeded), m0, m1, Xored(Result(m0), Result(m1))]
    else
      var nodes := LargeNodes(bytes, 0, XorWord(b, RANDOM[0]), XorWord(b, RANDOM[2]));
      LargeResult(bytes, 0, XorWord(b, RANDOM[0]), XorWord(b, RANDOM[2]));
      var hashed := Result(nodes[|nodes| - 1]);
      nodes + [Xored(size, hashed), Mixed(XorWord(size, hashed), MUL_CONSTANT)]
  }

  // No step of two computations gives one result for different inputs.
  ghost predicate NeverMeet(s: seq<Node>, t: seq<Node>) {
    && |s| == |t|
    && forall k :: 0 <= k < |s| && Result(s[k]) == Result(t[k]) ==> s[k] == t[k]
  }

  lemma MeetInParts(a: seq<Node>, b: seq<Node>, a': seq<Node>, b': seq<Node>)
    requires NeverMeet(a + b, a' + b') && |a| == |a'|
    ensures NeverMeet(a, a') && NeverMeet(b, b')
  {
    hide Result;
    forall k | 0 <= k < |a| && Result(a[k]) == Result(a'[k]) ensures a[k] == a'[k] {
      assert (a + b)[k] == a[k] && (a' + b')[k] == a'[k];
    }
    forall k | 0 <= k < |b| && Result(b[k]) == Result(b'[k]) ensures b[k] == b'[k] {
      assert (a + b)[|a| + k] == b[k] && (a' + b')[|a| + k] == b'[k];
    }
  }

  lemma SameXor(a: Word, b: Word, c: Word)
    requires XorWord(a, c) == XorWord(b, c)
    ensures a == b
  {
    XorCommutes(a, c);
    XorCommutes(b, c);
    XorInvolution(c, a);
    XorInvolution(c, b);
  }

  lemma {:induction false} XorCommutes(a: nat, b: nat)
    ensures Xor(a, b) == Xor(b, a)
  {
    if a == 0 || b == 0 {
    } else {
      XorCommutes(a / 2, b / 2);
    }
  }

  lemma SameLoad(x: seq<Byte>, y: seq<Byte>, at: int, n: nat)
    requires 0 <= at && at + n <= |x| == |y| && Load(x, at, n) == Load(y, at, n)
    ensures forall i :: at <= i < at + n ==> x[i] == y[i]
  {
    LittleEndianIsLossless(x[at..at + n], y[at..at + n]);
    forall i | at <= i < at + n ensures x[i] == y[i] {
      assert x[i] == x[at..at + n][i - at] && y[i] == y[at..at + n][i - at];
    }
  }

  ghost predicate Agree(x: seq<Byte>, y: seq<Byte>, from: int, to: int)
    requires 0 <= from && to <= |x| == |y|
  {
    forall i :: from <= i < to ==> x[i] == y[i]
  }

  lemma ChunkResult(bytes: seq<Byte>, at: int, acc: Word, random0: Word, random1: Word)
    requires 0 <= at && at + 32 <= |bytes|
    ensures Result(ChunkNodes(bytes, at, acc, random0, random1)[4]) == Mix32(bytes, at, acc, random0, random1)
  {
    hide Mix, XorWord, Load;
  }

  // Chunks with one result agree, unless two steps met.
  lemma ChunkDecides(x: seq<Byte>, y: seq<Byte>, at: int, acc: Word, acc': Word, random0: Word, random1: Word)
    requires 0 <= at && at + 32 <= |x| == |y|
    requires NeverMeet(ChunkNodes(x, at, acc, random0, random1), ChunkNodes(y, at, acc', random0, random1))
    requires Mix32(x, at, acc, random0, random1) == Mix32(y, at, acc', random0, random1)
    ensures acc == acc' && Agree(x, y, at, at + 32)
  {
    hide Mix, XorWord, Load, Mix32;
    ChunkResult(x, at, acc, random0, random1);
    ChunkResult(y, at, acc', random0, random1);
    var s, t := ChunkNodes(x, at, acc, random0, random1), ChunkNodes(y, at, acc', random0, random1);
    assert s[4] == t[4];
    assert s[3] == t[3] && s[1] == t[1];
    assert s[2] == t[2] && s[0] == t[0];
    SameXor(Load(x, at, 8), Load(y, at, 8), random0);
    SameXor(Load(x, at + 16, 8), Load(y, at + 16, 8), random1);
    SameLoad(x, y, at, 8);
    SameLoad(x, y, at + 8, 8);
    SameLoad(x, y, at + 16, 8);
    SameLoad(x, y, at + 24, 8);
  }

  lemma TailDecides(x: seq<Byte>, y: seq<Byte>, at: int, b0: Word, b1: Word, b0': Word, b1': Word)
    requires 32 < |x| == |y| && |x| - 32 <= at
    requires NeverMeet(TailNodes(x, at, b0, b1), TailNodes(y, at, b0', b1'))
    requires LargeTail(x, at, b0, b1) == LargeTail(y, at, b0', b1')
    ensures b0 == b0' && b1 == b1' && Agree(x, y, at, |x|)
  {
    hide Mix, XorWord, Load, Mix32, ChunkNodes;
    var size := |x|;
    var s, t := TailNodes(x, at, b0, b1), TailNodes(y, at, b0', b1');
    if at < size - 16 {
      ChunkResult(x, size - 32, b1, RANDOM[6], RANDOM[7]);
      ChunkResult(y, size - 32, b1', RANDOM[6], RANDOM[7]);
      assert s[5] == t[5];
      MeetInParts(s[..5], s[5..], t[..5], t[5..]);
      ChunkDecides(x, y, size - 32, b1, b1', RANDOM[6], RANDOM[7]);
    } else {
      assert s[2] == t[2];
      assert s[1] == t[1];
      assert s[0] == t[0];
      SameXor(Load(x, size - 16, 8), Load(y, size - 16, 8), RANDOM[6]);
      SameLoad(x, y, size - 16, 8);
      SameLoad(x, y, size - 8, 8);
    }
  }

  lemma {:induction false} LargeDecides(x: seq<Byte>, y: seq<Byte>, at: int, b0: Word, b1: Word, b0': Word, b1': Word)
    requires 0 <= at < |x| && 32 < |x| == |y|
    requires NeverMeet(LargeNodes(x, at, b0, b1), LargeNodes(y, at, b0', b1'))
    requires LargeFrom(x, at, b0, b1) == LargeFrom(y, at, b0', b1')
    ensures b0 == b0' && b1 == b1' && Agree(x, y, at, |x|)
    decreases |x| - at
  {
    hide Mix, XorWord, Load, Mix32, ChunkNodes, TailNodes, LargeTail, NeverMeet;
    var size := |x|;
    if at < size - 64 {
      var p0, q0 := ChunkNodes(x, at, b0, RANDOM[4], RANDOM[5]), ChunkNodes(y, at, b0', RANDOM[4], RANDOM[5]);
      var p1, q1 := ChunkNodes(x, at + 32, b1, RANDOM[6], RANDOM[7]), ChunkNodes(y, at + 32, b1', RANDOM[6], RANDOM[7]);
      var p := LargeNodes(x, at + 64, Result(p0[4]), Result(p1[4]));
      var q := LargeNodes(y, at + 64, Result(q0[4]), Result(q1[4]));
      ChunkResult(x, at, b0, RANDOM[4], RANDOM[5]);
      ChunkResult(y, at, b0', RANDOM[4], RANDOM[5]);
      ChunkResult(x, at + 32, b1, RANDOM[6], RANDOM[7]);
      ChunkResult(y, at + 32, b1', RANDOM[6], RANDOM[7]);
      MeetInParts(p0, p1 + p, q0, q1 + q);
      MeetInParts(p1, p, q1, q);
      LargeDecides(x, y, at + 64, Result(p0[4]), Result(p1[4]), Result(q0[4]), Result(q1[4]));
      ChunkDecides(x, y, at, b0, b0', RANDOM[4], RANDOM[5]);
      ChunkDecides(x, y, at + 32, b1, b1', RANDOM[6], RANDOM[7]);
    } else if at < size - 32 {
      var p0, q0 := ChunkNodes(x, at, b0, RANDOM[4], RANDOM[5]), ChunkNodes(y, at, b0', RANDOM[4], RANDOM[5]);
      ChunkResult(x, at, b0, RANDOM[4], RANDOM[5]);
      ChunkResult(y, at, b0', RANDOM[4], RANDOM[5]);
      MeetInParts(p0, TailNodes(x, at + 32, Result(p0[4]), b1), q0, TailNodes(y, at + 32, Result(q0[4]), b1'));
      TailDecides(x, y, at + 32, Result(p0[4]), b1, Result(q0[4]), b1');
      ChunkDecides(x, y, at, b0, b0', RANDOM[4], RANDOM[5]);
    } else {
      TailDecides(x, y, at, b0, b1, b0', b1');
    }
  }

  // The last of the steps gives what is left to hash.
  lemma TailResult(bytes: seq<Byte>, at: int, b0: Word, b1: Word)
    requires 32 < |bytes|
    ensures var nodes := TailNodes(bytes, at, b0, b1);
            |nodes| == (if at < |bytes| - 16 then 6 else 3) && LargeTail(bytes, at, b0, b1) == Result(nodes[|nodes| - 1])
  {
    hide Mix, XorWord, Load, Mix32, ChunkNodes;
    if at < |bytes| - 16 { ChunkResult(bytes, |bytes| - 32, b1, RANDOM[6], RANDOM[7]); }
  }

  function NodeCount(size: int, at: int): nat
    decreases size - at
  {
    if at < size - 64 then 10 + NodeCount(size, at + 64)
    else if at < size - 32 then 5 + (if at + 32 < size - 16 then 6 else 3)
    else if at < size - 16 then 6 else 3
  }

  lemma {:induction false} LargeResult(bytes: seq<Byte>, at: int, b0: Word, b1: Word)
    requires 0 <= at < |bytes| && 32 < |bytes|
    ensures var nodes := LargeNodes(bytes, at, b0, b1);
            && |nodes| == NodeCount(|bytes|, at) > 0
            && LargeFrom(bytes, at, b0, b1) == Result(nodes[|nodes| - 1])
    decreases |bytes| - at
  {
    hide Mix, XorWord, Load, Mix32, ChunkNodes, TailNodes, LargeTail, Result;
    var size := |bytes|;
    if at < size - 64 {
      var p0, p1 := ChunkNodes(bytes, at, b0, RANDOM[4], RANDOM[5]), ChunkNodes(bytes, at + 32, b1, RANDOM[6], RANDOM[7]);
      ChunkResult(bytes, at, b0, RANDOM[4], RANDOM[5]);
      ChunkResult(bytes, at + 32, b1, RANDOM[6], RANDOM[7]);
      LargeResult(bytes, at + 64, Result(p0[4]), Result(p1[4]));
    } else if at < size - 32 {
      var p0 := ChunkNodes(bytes, at, b0, RANDOM[4], RANDOM[5]);
      ChunkResult(bytes, at, b0, RANDOM[4], RANDOM[5]);
      TailResult(bytes, at + 32, Result(p0[4]), b1);
    } else {
      TailResult(bytes, at, b0, b1);
    }
  }

  // The code is the result of the last step, and the number of steps depends on the length alone.
  lemma NodesGiveCode(how: Reversal, b: Word, bytes: seq<Byte>)
    requires 3 < |bytes| < WORD_VALUES
    ensures var nodes := Nodes(b, bytes);
            && |nodes| == (if |bytes| <= 8 then 2 else if |bytes| <= 16 then 3 else if |bytes| <= 32 then 4
                           else NodeCount(|bytes|, 0) + 2)
            && SizedCode(how, b, bytes) == Result(nodes[|nodes| - 1])
  {
    hide Mix, XorWord, Load, LargeNodes, LargeFrom, Read4To8, RandomBytes, NodeCount;
    if |bytes| > 32 { LargeResult(bytes, 0, XorWord(b, RANDOM[0]), XorWord(b, RANDOM[2])); }
  }

  // Four to eight bytes are read as the last four, and above them the first four.
  lemma Read4To8Value(bytes: seq<Byte>)
    requires 4 <= |bytes| <= 8
    ensures Read4To8(bytes) == LittleEndian(bytes[|bytes| - 4..] + bytes[..4])
  {
    ShiftsArePow2();
    PowersOf256();
    hide Or, Power, IsPow2;
    var n := |bytes|;
    LoadBound(bytes, n - 4, 4);
    OrDisjoint(Load(bytes, 0, 4), 0x1_0000_0000, Load(bytes, n - 4, 4));
    LittleEndianOfTwo(bytes[n - 4..n - 4 + 4], bytes[0..4]);
    assert bytes[n - 4..n - 4 + 4] == bytes[n - 4..] && bytes[0..4] == bytes[..4];
  }

  lemma Read4To8IsLossless(x: seq<Byte>, y: seq<Byte>)
    requires 4 <= |x| <= 8 && |x| == |y| && Read4To8(x) == Read4To8(y)
    ensures x == y
  {
    hide Or, LittleEndian;
    ShiftsArePow2();
    PowersOf256();
    var n := |x|;
    LoadBound(x, n - 4, 4);
    LoadBound(y, n - 4, 4);
    OrDisjoint(Load(x, 0, 4), 0x1_0000_0000, Load(x, n - 4, 4));
    OrDisjoint(Load(y, 0, 4), 0x1_0000_0000, Load(y, n - 4, 4));
    DivModUnique(Read4To8(x), 0x1_0000_0000, Load(x, 0, 4), Load(x, n - 4, 4));
    DivModUnique(Read4To8(y), 0x1_0000_0000, Load(y, 0, 4), Load(y, n - 4, 4));
    SameLoad(x, y, 0, 4);
    SameLoad(x, y, n - 4, 4);
  }

  // Without such a meeting, one code means one seed and one string.
  lemma NodesDecide(how: Reversal, b: Word, x: seq<Byte>, b': Word, y: seq<Byte>)
    requires 3 < |x| == |y| < WORD_VALUES
    requires NeverMeet(Nodes(b, x), Nodes(b', y)) && SizedCode(how, b, x) == SizedCode(how, b', y)
    ensures x == y && b == b'
  {
    hide Mix, XorWord, Load, LargeNodes, LargeFrom, Read4To8, RandomBytes, NodeCount, SizedCode;
    var n := |x|;
    var s, t := Nodes(b, x), Nodes(b', y);
    NodesGiveCode(how, b, x);
    NodesGiveCode(how, b', y);
    assert s[|s| - 1] == t[|t| - 1];
    if n <= 8 {
      assert s[0] == t[0];
      Read4To8IsLossless(x, y);
    } else if n <= 16 {
      assert s[0] == t[0] && s[1] == t[1];
      SameLoad(x, y, 0, 8);
      SameLoad(x, y, n - 8, 8);
    } else if n <= 32 {
      MediumDecides(b, x, b', y);
    } else {
      var p, q := LargeNodes(x, 0, XorWord(b, RANDOM[0]), XorWord(b, RANDOM[2])),
                  LargeNodes(y, 0, XorWord(b', RANDOM[0]), XorWord(b', RANDOM[2]));
      LargeResult(x, 0, XorWord(b, RANDOM[0]), XorWord(b, RANDOM[2]));
      LargeResult(y, 0, XorWord(b', RANDOM[0]), XorWord(b', RANDOM[2]));
      assert s[|p|] == t[|q|];
      MeetInParts(p, s[|p|..], q, t[|q|..]);
      LargeDecides(x, y, 0, XorWord(b, RANDOM[0]), XorWord(b, RANDOM[2]), XorWord(b', RANDOM[0]), XorWord(b', RANDOM[2]));
      SameXor(b, b', RANDOM[0]);
    }
  }

  lemma SameXorRight(c: Word, a: Word, b: Word)
    requires XorWord(c, a) == XorWord(c, b)
    ensures a == b
  {
    XorInvolution(c, a);
    XorInvolution(c, b);
  }

  lemma MediumDecides(b: Word, x: seq<Byte>, b': Word, y: seq<Byte>)
    requires 16 < |x| == |y| <= 32 && NeverMeet(Nodes(b, x), Nodes(b', y)) && Nodes(b, x)[3] == Nodes(b', y)[3]
    ensures x == y && b == b'
  {
    hide Mix, XorWord, Load, RandomBytes, SampleRandom;
    var n := |x|;
    var s, t := Nodes(b, x), Nodes(b', y);
    var seeded := XorWord(b, SampleRandom(n));
    assert s[1] == t[1] && s[2] == t[2];
    assert s[0] == t[0];
    SameXor(b, b', SampleRandom(n));
    SameXor(Load(x, 0, 8), Load(y, 0, 8), RANDOM[1]);
    SameXor(Load(x, n - 16, 8), Load(y, n - 16, 8), RANDOM[3]);
    SameXor(Load(x, n - 8, 8), Load(y, n - 8, 8), seeded);
    SameLoad(x, y, 0, 8);
    SameLoad(x, y, 8, 8);
    SameLoad(x, y, n - 16, 8);
    SameLoad(x, y, n - 8, 8);
  }

  // What is read enters the code: two seeds and strings of one length get one code only where a step
  // gives one result for different inputs. Up to three bytes the string alone decides; the seed does
  // not enter, unless the string is empty.
  lemma EqualCodesMeet(how: Reversal, b: Word, x: seq<Byte>, b': Word, y: seq<Byte>)
    requires |x| == |y| < WORD_VALUES && (x != y || b != b') && SizedCode(how, b, x) == SizedCode(how, b', y)
    ensures 1 <= |x| <= 3 ==> x == y
    ensures |x| > 3 ==>
              && |Nodes(b, x)| == |Nodes(b', y)|
              && exists k :: 0 <= k < |Nodes(b, x)|
                   && Nodes(b, x)[k] != Nodes(b', y)[k] && Result(Nodes(b, x)[k]) == Result(Nodes(b', y)[k])
    ensures |x| > 0
  {
    hide Nodes, Result, LargeFrom, NodeCount, Mix, WeakMix, XorWord;
    if |x| == 0 {
      SameXor(b, b', RANDOM[0]);
    } else if |x| <= 3 {
      TinyCodesDiffer(how, x, y);
    } else {
      NodesGiveCode(how, b, x);
      NodesGiveCode(how, b', y);
      if NeverMeet(Nodes(b, x), Nodes(b', y)) { NodesDecide(how, b, x, b', y); }
    }
  }

  lemma LargeCodesMeet(how: Reversal, b: Word, x: seq<Byte>, y: seq<Byte>)
    requires 32 < |x| == |y| < WORD_VALUES && x != y && LargeCode(b, x) == LargeCode(b, y)
    ensures !NeverMeet(Nodes(b, x), Nodes(b, y))
  {
    hide Nodes, Result, LargeCode;
    EqualCodesMeet(how, b, x, b, y);
  }

  // Of the strings of at most three bytes exactly the empty one has a code that depends on the seed.
  lemma ShortSeeds(how: Reversal, x: seq<Byte>)
    requires |x| <= 3
    ensures (forall b: Word, c: Word :: SizedCode(how, b, x) == SizedCode(how, c, x)) <==> x != []
  {
    if x == [] {
      if SizedCode(how, 0, x) == SizedCode(how, 1, x) { SameXor(0, 1, RANDOM[0]); }
    }
  }

  // --- The length enters the code ---

  // The bytes of the random data from the tenth on, as far as sampling a size starts in them.
  const SAMPLED: seq<Byte> :=
    [0x73, 0x70, 0x03, 0x2e, 0x8a, 0x19, 0x13, 0xd0, 0x31, 0x9f, 0x29, 0x22, 0x38,
     0x09, 0xa4, 0x89, 0x6c, 0x4e, 0xec, 0x98, 0xfa, 0x2e, 0x08, 0x77, 0x13]

  lemma SecondWord()
    ensures Digit(256, 0x1319_8a2e_0370_7344, 1) == 0x73 && Digit(256, 0x1319_8a2e_0370_7344, 2) == 0x70
    ensures Digit(256, 0x1319_8a2e_0370_7344, 3) == 0x03 && Digit(256, 0x1319_8a2e_0370_7344, 4) == 0x2e
    ensures Digit(256, 0x1319_8a2e_0370_7344, 5) == 0x8a && Digit(256, 0x1319_8a2e_0370_7344, 6) == 0x19
    ensures Digit(256, 0x1319_8a2e_0370_7344, 7) == 0x13
  {
    PowerValues();
    hide Power;
  }

  lemma ThirdWord()
    ensures Digit(256, 0xa409_3822_299f_31d0, 0) == 0xd0 && Digit(256, 0xa409_3822_299f_31d0, 1) == 0x31
    ensures Digit(256, 0xa409_3822_299f_31d0, 2) == 0x9f && Digit(256, 0xa409_3822_299f_31d0, 3) == 0x29
    ensures Digit(256, 0xa409_3822_299f_31d0, 4) == 0x22 && Digit(256, 0xa409_3822_299f_31d0, 5) == 0x38
    ensures Digit(256, 0xa409_3822_299f_31d0, 6) == 0x09 && Digit(256, 0xa409_3822_299f_31d0, 7) == 0xa4
  {
    PowerValues();
    hide Power;
  }

  lemma FourthWord()
    ensures Digit(256, 0x082e_fa98_ec4e_6c89, 0) == 0x89 && Digit(256, 0x082e_fa98_ec4e_6c89, 1) == 0x6c
    ensures Digit(256, 0x082e_fa98_ec4e_6c89, 2) == 0x4e && Digit(256, 0x082e_fa98_ec4e_6c89, 3) == 0xec
    ensures Digit(256, 0x082e_fa98_ec4e_6c89, 4) == 0x98 && Digit(256, 0x082e_fa98_ec4e_6c89, 5) == 0xfa
    ensures Digit(256, 0x082e_fa98_ec4e_6c89, 6) == 0x2e && Digit(256, 0x082e_fa98_ec4e_6c89, 7) == 0x08
  {
    PowerValues();
    hide Power;
  }

  lemma FifthWord()
    ensures Digit(256, 0x4528_21e6_38d0_1377, 0) == 0x77 && Digit(256, 0x4528_21e6_38d0_1377, 1) == 0x13
  {
    PowerValues();
    hide Power;
  }

  lemma SampledBytes(i: nat)
    requires 9 <= i < 34
    ensures RandomBytes()[i] == SAMPLED[i - 9]
  {
    hide Digit;
    if i < 16 {
      SecondWord();
    } else if i < 24 {
      ThirdWord();
    } else if i < 32 {
      FourthWord();
    } else {
      FifthWord();
    }
  }

  lemma PowerValues()
    ensures Power(256, 0) == 1 && Power(256, 1) == 0x100 && Power(256, 2) == 0x1_0000 && Power(256, 3) == 0x100_0000
    ensures Power(256, 4) == 0x1_0000_0000 && Power(256, 5) == 0x100_0000_0000
    ensures Power(256, 6) == 0x1_0000_0000_0000 && Power(256, 7) == 0x100_0000_0000_0000
  {
    assert Power(256, 3) == 256 * Power(256, 2);
    assert Power(256, 4) == 256 * Power(256, 3);
    assert Power(256, 5) == 256 * Power(256, 4);
    assert Power(256, 6) == 256 * Power(256, 5);
    assert Power(256, 7) == 256 * Power(256, 6);
  }

  // Each size from 9 to 32 samples its own word.
  lemma SampleIsOfSize(n: nat, m: nat)
    requires 9 <= n <= 32 && 9 <= m <= 32 && SampleRandom(n) == SampleRandom(m)
    ensures n == m
  {
    hide RandomBytes, SampleRandom, SAMPLED;
    SampleStarts(n, m);
    SampledBytes(n);
    SampledBytes(n + 1);
    SampledBytes(m);
    SampledBytes(m + 1);
    TwoBytesDiffer(n - 9, m - 9);
  }

  lemma SampleStarts(n: nat, m: nat)
    requires n < 56 && m < 56 && SampleRandom(n) == SampleRandom(m)
    ensures RandomBytes()[n] == RandomBytes()[m] && RandomBytes()[n + 1] == RandomBytes()[m + 1]
  {
    hide RandomBytes, LittleEndian;
    var r := RandomBytes();
    LittleEndianIsLossless(r[n..n + 8], r[m..m + 8]);
    assert r[n..n + 8][0] == r[n] && r[n..n + 8][1] == r[n + 1];
    assert r[m..m + 8][0] == r[m] && r[m..m + 8][1] == r[m + 1];
  }

  lemma TwoBytesDiffer(i: nat, j: nat)
    requires i < 24 && j < 24 && SAMPLED[i] == SAMPLED[j] && SAMPLED[i + 1] == SAMPLED[j + 1]
    ensures i == j
  {}

  // Lengths that hash in the same way.
  predicate SameWay(m: nat, n: nat) {
    (4 <= m <= 8 && 4 <= n <= 8) || (9 <= m <= 16 && 9 <= n <= 16) || (17 <= m <= 32 && 17 <= n <= 32) || (m > 32 && n > 32)
  }

  // Strings of two lengths that hash in the same way get one code only where two steps meet.
  lemma LengthsMeet(how: Reversal, b: Word, x: seq<Byte>, y: seq<Byte>)
    requires |x| < WORD_VALUES && |y| < WORD_VALUES && |x| != |y| && SameWay(|x|, |y|)
    requires SizedCode(how, b, x) == SizedCode(how, b, y)
    ensures exists i, j :: 0 <= i < |Nodes(b, x)| && 0 <= j < |Nodes(b, y)|
              && Nodes(b, x)[i] != Nodes(b, y)[j] && Result(Nodes(b, x)[i]) == Result(Nodes(b, y)[j])
  {
    hide Mix, XorWord, Load, LargeNodes, LargeFrom, Read4To8, RandomBytes, SampleRandom, NodeCount, SizedCode;
    var s, t := Nodes(b, x), Nodes(b, y);
    NodesGiveCode(how, b, x);
    NodesGiveCode(how, b, y);
    var i, j := |s| - 1, |t| - 1;
    if s[i] == t[j] {
      if |x| > 32 {
        assert s[i - 1] != t[j - 1] && Result(s[i - 1]) == Result(t[j - 1]);
      } else if |x| > 16 {
        MediumLengthsMeet(b, x, y);
      } else if |x| > 8 {
        if SampleRandom(|x|) == SampleRandom(|y|) { SampleIsOfSize(|x|, |y|); }
        assert s[0] != t[0] && Result(s[0]) == Result(t[0]);
      } else {
        assert false;
      }
    }
  }

  lemma MediumLengthsMeet(b: Word, x: seq<Byte>, y: seq<Byte>)
    requires 17 <= |x| <= 32 && 17 <= |y| <= 32 && |x| != |y| && Nodes(b, x)[3] == Nodes(b, y)[3]
    ensures exists i, j :: 0 <= i < |Nodes(b, x)| && 0 <= j < |Nodes(b, y)|
              && Nodes(b, x)[i] != Nodes(b, y)[j] && Result(Nodes(b, x)[i]) == Result(Nodes(b, y)[j])
  {
    hide Mix, XorWord, Load, RandomBytes, SampleRandom;
    var s, t := Nodes(b, x), Nodes(b, y);
    assert Result(s[1]) == Result(t[1]);
    if s[1] == t[1] {
      if XorWord(b, SampleRandom(|x|)) == XorWord(b, SampleRandom(|y|)) {
        SameXorRight(b, SampleRandom(|x|), SampleRandom(|y|));
        SampleIsOfSize(|x|, |y|);
      }
      assert s[0] != t[0] && Result(s[0]) == Result(t[0]);
    }
  }

  // The steps alone determine the seed and the string.
  lemma NodesAreLossless(how: Reversal, b: Word, x: seq<Byte>, b': Word, y: seq<Byte>)
    requires 3 < |x| == |y| < WORD_VALUES && Nodes(b, x) == Nodes(b', y)
    ensures x == y && b == b'
  {
    hide Nodes, Result, SizedCode;
    NodesGiveCode(how, b, x);
    NodesGiveCode(how, b', y);
    NodesDecide(how, b, x, b', y);
  }

  class Hasher {
    const how: Reversal
    var buffer: Word
    ghost var touched: set<int>  // positions of the input read so far

    constructor (how: Reversal, seed: Word)
      ensures this.how == how && buffer == seed && touched == {}
    {
      this.how, buffer, touched := how, seed, {};
    }

    // The only way to the input: a read of some bytes, which must lie inside it.
    method Read(bytes: seq<Byte>, at: int, n: nat) returns (r: nat)
      requires 0 <= at && at + n <= |bytes|
      modifies `touched
      ensures r == Load(bytes, at, n) && touched == old(touched) + Range(at, at + n)
    {
      r := Load(bytes, at, n);
      touched := touched + Range(at, at + n);
    }

    method MixChunk(bytes: seq<Byte>, at: int, acc: Word, random0: Word, random1: Word) returns (r: Word)
      requires 0 <= at && at + 32 <= |bytes|
      modifies `touched
      ensures r == Mix32(bytes, at, acc, random0, random1) && touched == old(touched) + Range(at, at + 32)
    {
      hide Mix, XorWord, LittleEndian, Range;
      var a: Word := Read(bytes, at, 8);
      var b: Word := Read(bytes, at + 8, 8);
      var c: Word := Read(bytes, at + 16, 8);
      var d: Word := Read(bytes, at + 24, 8);
      var m0 := Mix(XorWord(a, random0), XorWord(b, acc));
      var m1 := Mix(XorWord(c, random1), XorWord(d, acc));
      r := XorWord(m0, m1);
    }

    method HashDense(data: Word)
      modifies `buffer
      ensures buffer == Mix(XorWord(data, old(buffer)), MUL_CONSTANT)
    {
      buffer := Mix(XorWord(data, buffer), MUL_CONSTANT);
    }

    // Two 32-byte chunks at a time, then what is left; the last reads may overlap earlier ones.
    method HashSizedBytesLarge(bytes: seq<Byte>)
      requires 32 < |bytes| < WORD_VALUES
      modifies this
      ensures touched == old(touched) + Range(0, |bytes|)
      ensures buffer == LargeCode(old(buffer), bytes)
      ensures forall other: seq<Byte> ::
                |other| == |bytes| && other != bytes && LargeCode(old(buffer), other) == buffer ==>
                  !NeverMeet(Nodes(old(buffer), bytes), Nodes(old(buffer), other))
    {
      hide Mix, Mix32, XorWord, LittleEndian, Range, Nodes, NeverMeet;
      ghost var seed := buffer;
      var at, size := 0, |bytes|;
      var buffer0 := XorWord(buffer, RANDOM[0]);
      var buffer1 := XorWord(buffer, RANDOM[2]);
      ghost var whole := LargeFrom(bytes, 0, buffer0, buffer1);
      while at < size - 64
        invariant 0 <= at < size && touched == old(touched) + Range(0, at) && buffer == old(buffer)
        invariant whole == LargeFrom(bytes, at, buffer0, buffer1)
      {
        buffer0 := MixChunk(bytes, at, buffer0, RANDOM[4], RANDOM[5]);
        buffer1 := MixChunk(bytes, at + 32, buffer1, RANDOM[6], RANDOM[7]);
        at := at + 64;
      }
      if at < size - 32 {
        buffer0 := MixChunk(bytes, at, buffer0, RANDOM[4], RANDOM[5]);
        at := at + 32;
      }
      assert touched == old(touched) + Range(0, at) && whole == LargeTail(bytes, at, buffer0, buffer1);
      if at < size - 16 {
        buffer1 := MixChunk(bytes, size - 32, buffer1, RANDOM[6], RANDOM[7]);
      } else {
        var a: Word := Read(bytes, size - 16, 8);
        var b: Word := Read(bytes, size - 8, 8);
        buffer1 := Mix(XorWord(a, RANDOM[6]), XorWord(b, buffer1));
      }
      buffer := XorWord(buffer0, buffer1);
      HashDense(size);
      forall other: seq<Byte> | |other| == size && other != bytes && LargeCode(seed, other) == buffer
        ensures !NeverMeet(Nodes(seed, bytes), Nodes(seed, other))
      {
        LargeCodesMeet(how, seed, bytes, other);
      }
    }

    // Every size: all reads lie inside the input, and together they cover it.
    method HashSizedBytes(bytes: seq<Byte>)
      requires |bytes| < WORD_VALUES
      modifies this
      ensures touched == old(touched) + Range(0, |bytes|)
      ensures buffer == SizedCode(how, old(buffer), bytes)
    {
      hide Mix, XorWord, LargeFrom, Or, LittleEndian, Reversed, RandomBytes, WeakMix, Range;
      var size := |bytes|;
      if size <= 8 {
        if size >= 4 {
          var low := Read(bytes, 0, 4);
          var high := Read(bytes, size - 4, 4);
          Read4To8Fits(bytes);
          buffer := Mix(XorWord(Or(low * 0x1_0000_0000, high), buffer), RANDOM[size - 1]);
          return;
        }
        if size == 0 {
          buffer := XorWord(buffer, RANDOM[0]);
        } else {
          var byte0 := Read(bytes, 0, 1);
          var byte1 := Read(bytes, size - 1, 1);
          var byte2 := Read(bytes, size / 2, 1);
          TinyBytes(bytes);
          OneByte(bytes, 0);
          OneByte(bytes, size - 1);
          OneByte(bytes, size / 2);
          buffer := WeakMix(how, Or(Or(Or(byte0 * 0x100, byte1 * 0x1_0000), byte2), size * 0x100_0000));
        }
        return;
      }
      if size <= 16 {
        var low: Word := Read(bytes, 0, 8);
        var high: Word := Read(bytes, size - 8, 8);
        buffer := Mix(XorWord(low, SampleRandom(size)), XorWord(high, buffer));
        return;
      }
      if size <= 32 {
        buffer := XorWord(buffer, SampleRandom(size));
        var a: Word := Read(bytes, 0, 8);
        var b: Word := Read(bytes, 8, 8);
        var c: Word := Read(bytes, size - 16, 8);
        var d: Word := Read(bytes, size - 8, 8);
        var m0 := Mix(XorWord(a, RANDOM[1]), XorWord(b, buffer));
        var m1 := Mix(XorWord(c, RANDOM[3]), XorWord(d, buffer));
        buffer := XorWord(m0, m1);
        return;
      }
      HashSizedBytesLarge(bytes);
    }

    // A value of one small type. From a given state of the hasher its code is its own: no other
    // value of the type leaves the same buffer.
    method HashRawSmall(value: seq<Byte>)
      requires 1 <= |value| <= 8
      modifies `buffer
      ensures buffer == SmallCode(how, old(buffer), value)
      ensures forall other: seq<Byte> :: |other| == |value| && other != value ==> SmallCode(how, old(buffer), other) != buffer
    {
      hide WeakMix, ReadSmall;
      ReadSmallFits(value);
      ghost var seed := buffer;
      buffer := WeakMix(how, XorWord(buffer, ReadSmall(value)));
      forall other: seq<Byte> | |other| == |value| && other != value ensures SmallCode(how, seed, other) != buffer {
        SmallCodesDiffer(how, seed, other, value);
      }
    }
  }

  lemma OneByte(bytes: seq<Byte>, at: int)
    requires 0 <= at < |bytes|
    ensures Load(bytes, at, 1) == bytes[at]
  {
    var s := bytes[at..at + 1];
    assert s == [bytes[at]] && s[1..] == [];
    assert LittleEndian(s) == s[0] + 256 * LittleEndian(s[1..]);
  }
}
