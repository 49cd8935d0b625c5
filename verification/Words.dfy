/** Machine words as naturals, with the bitwise operations defined bit by bit. */
module Words {

  type Byte = b: nat | b < 256

  function Power(n: nat): (p: nat)
    ensures p >= 1
  {
    if n == 0 then 1 else 2 * Power(n - 1)
  }

  const WORD: nat := 0x1_0000_0000

  type Word = w: nat | w < WORD

  const INT_MAX: int := 0x7FFF_FFFF

  /** The low 32 bits of x. */
  function Low32(x: int): Word {
    x % WORD
  }

  /** The int that the low 32 bits of x stand for. */
  function Int32(x: int): (r: int)
    ensures -INT_MAX - 1 <= r <= INT_MAX
    ensures r % WORD == x % WORD
  {
    if x % WORD <= INT_MAX then x % WORD else x % WORD - WORD
  }

  lemma PowerWord()
    ensures Power(8) == 256 && Power(32) == WORD
  {
    assert Power(8) == 256;
    assert Power(16) == 0x1_0000;
    assert Power(24) == 0x100_0000;
  }

  lemma {:induction false} PowerAdds(m: nat, n: nat)
    ensures Power(m + n) == Power(m) * Power(n)
  {
    if m > 0 {
      PowerAdds(m - 1, n);
      assert 2 * (Power(m - 1) * Power(n)) == (2 * Power(m - 1)) * Power(n);
    }
  }

  lemma QuotientUnique(x: nat, n: nat, q: nat, r: nat)
    requires n > 0 && x == q * n + r && r < n
    ensures x / n == q && x % n == r
  {
    assert (q - x / n) * n == q * n - x / n * n == x % n - r;
    SmallMultiple(q - x / n, n);
  }

  lemma SmallMultiple(k: int, n: int)
    requires -n < k * n < n
    ensures k == 0
  {
    assert k >= 1 ==> k * n >= n;
    assert k <= -1 ==> k * n <= -n;
  }

  lemma Monotone(a: nat, b: nat, g: nat)
    requires a <= b
    ensures a * g <= b * g
  {
  }

  lemma Regroup(a: nat, b: nat, c: nat)
    ensures a * (b * c) == (a * b) * c
  {
  }

  lemma FactorLess(a: nat, b: nat, n: nat)
    requires a * n < b * n
    ensures a < b
  {
    if a >= b {
      Monotone(b, a, n);
    }
  }

  lemma DivBelow(lo: nat, q: nat, d: nat)
    requires d > 0 && lo < q * d
    ensures lo / d < q
  {
    var x := lo / d;
    assert x * d <= lo;
    if x >= q {
      Monotone(q, x, d);
    }
  }

  /** Bitwise exclusive or. */
  function Xor(a: nat, b: nat): nat
    decreases a + b
  {
    if a == 0 then b
    else if b == 0 then a
    else 2 * Xor(a / 2, b / 2) + (a + b) % 2
  }

  function XorIf(flag: bool, x: nat, p: nat): nat {
    if flag then Xor(x, p) else x
  }

  // ---------- Exclusive or ----------

  lemma XorHalves(a: nat, b: nat)
    ensures Xor(a, b) / 2 == Xor(a / 2, b / 2)
    ensures Xor(a, b) % 2 == (a + b) % 2
  {
  }

  lemma {:induction false} XorCommutes(a: nat, b: nat)
    ensures Xor(a, b) == Xor(b, a)
    decreases a + b
  {
    if a != 0 && b != 0 {
      XorCommutes(a / 2, b / 2);
    }
  }

  lemma Parity(a: nat, b: nat, c: nat, ab: nat, bc: nat)
    requires ab % 2 == (a + b) % 2 && bc % 2 == (b + c) % 2
    ensures (ab + c) % 2 == (a + bc) % 2
  {
  }

  lemma SameHalves(x: nat, y: nat)
    requires x / 2 == y / 2 && x % 2 == y % 2
    ensures x == y
  {
  }

  lemma {:induction false} XorAssociates(a: nat, b: nat, c: nat)
    ensures Xor(Xor(a, b), c) == Xor(a, Xor(b, c))
    decreases a + b + c
  {
    if a != 0 && b != 0 && c != 0 {
      var ab, bc := Xor(a, b), Xor(b, c);
      XorHalves(a, b);
      XorHalves(b, c);
      Parity(a, b, c, ab, bc);
      XorAssociatesStep(a, b, c, ab, bc);
    }
  }

  lemma XorAssociatesStep(a: nat, b: nat, c: nat, ab: nat, bc: nat)
    requires a != 0 && b != 0 && c != 0
    requires ab == Xor(a, b) && bc == Xor(b, c)
    requires ab / 2 == Xor(a / 2, b / 2) && bc / 2 == Xor(b / 2, c / 2) && (ab + c) % 2 == (a + bc) % 2
    ensures Xor(ab, c) == Xor(a, bc)
    decreases a + b + c, 0
  {
    XorHalves(ab, c);
    XorHalves(a, bc);
    assert Xor(ab, c) / 2 == Xor(a, bc) / 2 by { XorAssociates(a / 2, b / 2, c / 2); }
    SameHalves(Xor(ab, c), Xor(a, bc));
  }

  lemma {:induction false} XorSelf(a: nat)
    ensures Xor(a, a) == 0
  {
    if a != 0 {
      XorSelf(a / 2);
    }
  }

  lemma XorZero(b: nat)
    ensures Xor(0, b) == b == Xor(b, 0)
  {
  }

  lemma XorCancels(a: nat, b: nat)
    ensures Xor(a, Xor(a, b)) == b
  {
    XorAssociates(a, a, b);
    XorSelf(a);
    XorZero(b);
  }

  /** (a ^ p) ^ b, a ^ (b ^ p) and (a ^ p) ^ (b ^ p) regrouped. */
  lemma XorRegroup(a: nat, b: nat, p: nat)
    ensures Xor(Xor(a, p), b) == Xor(Xor(a, b), p)
    ensures Xor(a, Xor(b, p)) == Xor(Xor(a, b), p)
    ensures Xor(Xor(a, p), Xor(b, p)) == Xor(a, b)
  {
    XorAssociates(a, p, b);
    XorCommutes(p, b);
    XorAssociates(a, b, p);
    XorAssociates(Xor(a, p), b, p);
    XorAssociates(Xor(a, b), p, p);
    XorSelf(p);
  }

  /** Exclusive or stays within any power of two that bounds its operands: no word outgrows 32 bits. */
  lemma {:induction false} XorBounded(a: nat, b: nat, bits: nat)
    requires a < Power(bits) && b < Power(bits)
    ensures Xor(a, b) < Power(bits)
    decreases bits
  {
    if bits > 0 && a != 0 && b != 0 {
      XorBounded(a / 2, b / 2, bits - 1);
    }
  }

  // ---------- Exclusive or of given words, byte by byte ----------

  /** The number an eight-bit vector stands for. */
  function Num(b: bv8): Byte {
    b as nat
  }

  lemma NumHalves(a: bv8)
    ensures Num(a) / 2 == Num(a >> 1) && Num(a) % 2 == Num(a & 1)
  {
  }

  lemma NumLowBit(a: bv8, b: bv8)
    ensures Num((a & 1) ^ (b & 1)) == (Num(a & 1) + Num(b & 1)) % 2
  {
    assert (a & 1 == 0 || a & 1 == 1) && (b & 1 == 0 || b & 1 == 1);
  }

  lemma NumXorHalf(a: bv8, b: bv8)
    ensures Num(a ^ b) / 2 == Num((a >> 1) ^ (b >> 1))
  {
    hide Num;
    NumHalves(a ^ b);
    assert (a ^ b) >> 1 == (a >> 1) ^ (b >> 1);
  }

  lemma NumXorLow(a: bv8, b: bv8)
    ensures Num(a ^ b) % 2 == (Num(a) + Num(b)) % 2
  {
    hide Num;
    assert (a ^ b) & 1 == (a & 1) ^ (b & 1);
    NumHalves(a);
    NumHalves(b);
    NumHalves(a ^ b);
    NumLowBit(a, b);
    SumParity(Num(a), Num(b), Num(a & 1), Num(b & 1));
  }

  lemma SumParity(a: nat, b: nat, x: nat, y: nat)
    requires x == a % 2 && y == b % 2
    ensures (a + b) % 2 == (x + y) % 2
  {
  }

  lemma XorFromHalves(a: nat, b: nat, r: nat)
    requires r / 2 == Xor(a / 2, b / 2) && r % 2 == (a + b) % 2
    ensures Xor(a, b) == r
  {
    XorHalves(a, b);
    SameHalves(Xor(a, b), r);
  }

  /** On bytes the definition is the machine's operation. */
  lemma {:induction false} XorIsBitwise(a: bv8, b: bv8)
    ensures Xor(Num(a), Num(b)) == Num(a ^ b)
    decreases Num(a) + Num(b)
  {
    NumPositive(a, b);
    hide Num, Xor;
    if a == 0 && b == 0 {
      XorSelf(0);
    } else {
      NumHalves(a);
      NumHalves(b);
      NumXorHalf(a, b);
      NumXorLow(a, b);
      XorIsBitwise(a >> 1, b >> 1);
      XorFromHalves(Num(a), Num(b), Num(a ^ b));
    }
  }

  lemma NumPositive(a: bv8, b: bv8)
    ensures Num(a) + Num(b) == 0 <==> a == 0 && b == 0
    ensures Num(0 ^ 0) == 0
  {
  }

  lemma XorDouble(a: nat, b: nat, x: nat, y: nat)
    requires x < 2 && y < 2
    ensures Xor(2 * a + x, 2 * b + y) == 2 * Xor(a, b) + (x + y) % 2
  {
    hide Xor;
    var l, r := 2 * a + x, 2 * b + y;
    assert l / 2 == a && r / 2 == b && l % 2 == x && r % 2 == y;
    XorHalves(l, r);
    SumParity(l, r, x, y);
  }

  /** a with p places for x below it. */
  function Beside(a: nat, p: nat, x: nat): nat {
    a * p + x
  }

  lemma BesideHalves(a: nat, p: nat, x: nat)
    ensures Beside(a, 2 * p, x) == 2 * Beside(a, p, x / 2) + x % 2
  {
    var m := a * p;
    assert a * (2 * p) == 2 * m;
  }

  lemma XorBesideStep(a: nat, b: nat, x: nat, y: nat, p: nat)
    requires Xor(Beside(a, p, x / 2), Beside(b, p, y / 2)) == Beside(Xor(a, b), p, Xor(x / 2, y / 2))
    ensures Xor(Beside(a, 2 * p, x), Beside(b, 2 * p, y)) == Beside(Xor(a, b), 2 * p, Xor(x, y))
  {
    hide Xor, Beside;
    BesideHalves(a, p, x);
    BesideHalves(b, p, y);
    BesideHalves(Xor(a, b), p, Xor(x, y));
    XorDouble(Beside(a, p, x / 2), Beside(b, p, y / 2), x % 2, y % 2);
    XorHalves(x, y);
    SumParity(x, y, x % 2, y % 2);
  }

  /** Numbers side by side keep apart. */
  lemma {:induction false} XorBeside(a: nat, b: nat, x: nat, y: nat, n: nat)
    requires x < Power(n) && y < Power(n)
    ensures Xor(Beside(a, Power(n), x), Beside(b, Power(n), y)) == Beside(Xor(a, b), Power(n), Xor(x, y))
    decreases n
  {
    hide Xor;
    if n == 0 {
      assert Power(0) == 1;
      XorSelf(0);
    } else {
      hide Beside;
      XorBeside(a, b, x / 2, y / 2, n - 1);
      XorBesideStep(a, b, x, y, Power(n - 1));
    }
  }

  /** The word with these bytes, highest first. */
  function WordOf(b3: bv8, b2: bv8, b1: bv8, b0: bv8): nat {
    0x100 * (0x100 * (0x100 * Num(b3) + Num(b2)) + Num(b1)) + Num(b0)
  }

  lemma XorNextByte(a: nat, b: nat, x: bv8, y: bv8)
    ensures Xor(0x100 * a + Num(x), 0x100 * b + Num(y)) == 0x100 * Xor(a, b) + Num(x ^ y)
  {
    PowerWord();
    hide Xor, Power, Num;
    XorIsBitwise(x, y);
    XorBeside(a, b, Num(x), Num(y), 8);
  }

  lemma XorBytes(a3: bv8, a2: bv8, a1: bv8, a0: bv8, b3: bv8, b2: bv8, b1: bv8, b0: bv8)
    ensures Xor(WordOf(a3, a2, a1, a0), WordOf(b3, b2, b1, b0)) == WordOf(a3 ^ b3, a2 ^ b2, a1 ^ b1, a0 ^ b0)
  {
    hide Num, Xor;
    var a, b := 0x100 * Num(a3) + Num(a2), 0x100 * Num(b3) + Num(b2);
    XorIsBitwise(a3, b3);
    XorNextByte(Num(a3), Num(b3), a2, b2);
    XorNextByte(a, b, a1, b1);
    XorNextByte(0x100 * a + Num(a1), 0x100 * b + Num(b1), a0, b0);
  }
  // ---------- Single bits ----------

  predicate Bit(w: nat, k: nat) {
    if k == 0 then w % 2 == 1 else Bit(w / 2, k - 1)
  }

  /** w | (1 << k) */
  function SetBit(w: nat, k: nat): nat {
    if k == 0 then (if w % 2 == 1 then w else w + 1) else 2 * SetBit(w / 2, k - 1) + w % 2
  }

  /** w & ~(1 << k) */
  function ClearBit(w: nat, k: nat): nat {
    if k == 0 then (if w % 2 == 1 then w - 1 else w) else 2 * ClearBit(w / 2, k - 1) + w % 2
  }

  lemma {:induction false} SetBitBits(w: nat, k: nat, j: nat)
    ensures Bit(SetBit(w, k), j) <==> j == k || Bit(w, j)
    decreases k + j
  {
    if k > 0 && j > 0 {
      SetBitBits(w / 2, k - 1, j - 1);
    }
  }

  lemma {:induction false} ClearBitBits(w: nat, k: nat, j: nat)
    ensures Bit(ClearBit(w, k), j) <==> j != k && Bit(w, j)
    decreases k + j
  {
    if k > 0 && j > 0 {
      ClearBitBits(w / 2, k - 1, j - 1);
    }
  }

  lemma {:induction false} SetClearBounded(w: nat, k: nat, bits: nat)
    requires k < bits && w < Power(bits)
    ensures SetBit(w, k) < Power(bits) && ClearBit(w, k) < Power(bits)
  {
    if k > 0 {
      SetClearBounded(w / 2, k - 1, bits - 1);
    }
  }

  lemma {:induction false} AllOnesBit(bits: nat, k: nat)
    requires k < bits
    ensures Bit(Power(bits) - 1, k)
  {
    var p := Power(bits - 1);
    var w := Power(bits) - 1;
    assert w == 2 * p - 1 && w / 2 == p - 1 && w % 2 == 1;
    if k > 0 {
      AllOnesBit(bits - 1, k - 1);
    }
  }

  lemma {:induction false} AllBitsSet(w: nat, bits: nat)
    requires w < Power(bits)
    requires forall k :: 0 <= k < bits ==> Bit(w, k)
    ensures w == Power(bits) - 1
  {
    if bits > 0 {
      assert Bit(w, 0);
      forall k | 0 <= k < bits - 1 ensures Bit(w / 2, k) {
        assert Bit(w, k + 1);
      }
      AllBitsSet(w / 2, bits - 1);
    }
  }

  /** The all-ones word is the only one with every bit set. */
  lemma AllOnes(w: nat, bits: nat)
    requires w < Power(bits)
    ensures w == Power(bits) - 1 ==> forall k :: 0 <= k < bits ==> Bit(w, k)
    ensures w != Power(bits) - 1 ==> exists k :: 0 <= k < bits && !Bit(w, k)
  {
    forall k | w == Power(bits) - 1 && 0 <= k < bits ensures Bit(w, k) {
      AllOnesBit(bits, k);
    }
    if forall k :: 0 <= k < bits ==> Bit(w, k) {
      AllBitsSet(w, bits);
    }
  }

  lemma ShiftedBit(w: nat, k: nat)
    ensures Bit(Shifted(w, k), 0) == Bit(w, k) && Shifted(w, k + 1) == Shifted(w, k) / 2
  {
    if k > 0 {
      ShiftedBit(w / 2, k - 1);
    }
  }

  /** w >> k */
  function Shifted(w: nat, k: nat): nat {
    if k == 0 then w else Shifted(w / 2, k - 1)
  }
}
