/** The rule hash: slicing-by-4 CRC-32 proved equal to the serial shift register
    (reflected CRC-32, section 8 of RFC 1952).

    `& 0xff` is written `% 256` and `>> 8` is written `/ 256`. */
module Crc32 {

  import opened Words

  const POLY: nat := 0xEDB8_8320
  const ALL_ONES: nat := 0xFFFF_FFFF

  // ---------- Reference: a register clocked once per message bit ----------

  function BitStep(crc: nat, bit: bool): nat {
    XorIf((crc % 2 == 1) != bit, crc / 2, POLY)
  }

  function Serial(crc: nat, bits: seq<bool>): nat
    decreases |bits|
  {
    if bits == [] then crc else Serial(BitStep(crc, bits[0]), bits[1..])
  }

  /** The n low bits of x, lowest first. */
  function LowBits(x: nat, n: nat): (bits: seq<bool>)
    ensures |bits| == n
    decreases n, x
  {
    if n == 0 then [] else [x % 2 == 1] + LowBits(x / 2, n - 1)
  }

  /** The bits of a message in transmission order: bytes in order, low bit first. */
  function MessageBits(data: seq<Byte>): seq<bool> {
    if data == [] then [] else LowBits(data[0], 8) + MessageBits(data[1..])
  }

  /** CRC-32 of a message, one bit at a time. */
  function Crc(data: seq<Byte>): nat {
    Xor(Serial(ALL_ONES, MessageBits(data)), ALL_ONES)
  }

  // ---------- The tables ----------

  function Clock(n: nat, x: nat): nat
    decreases n, x
  {
    if n == 0 then x else Clock(n - 1, BitStep(x, false))
  }

  /** Entry i of table k: the remainder of one byte for k == 0, then
      T[k][i] = (T[k-1][i] >> 8) ^ T[0][T[k-1][i] & 0xff]. */
  function Table(k: nat, i: nat): nat
    decreases k, i
  {
    if k == 0 then Clock(8, i) else NextEntry(Table(k - 1, i))
  }

  function NextEntry(t: nat): nat {
    Xor(t / 256, Clock(8, t % 256))
  }

  // ---------- The register is linear ----------

  lemma XorIfRegroup(h: nat, g: nat, p: nat, a: bool, b: bool)
    ensures Xor(XorIf(a, h, p), XorIf(b, g, p)) == XorIf(a != b, Xor(h, g), p)
  {
    XorRegroup(h, g, p);
  }

  lemma OddSum(a: nat, b: nat)
    ensures ((a + b) % 2 == 1) == ((a % 2 == 1) != (b % 2 == 1))
  {
  }

  lemma StepLinear(a: nat, b: nat)
    ensures BitStep(Xor(a, b), false) == Xor(BitStep(a, false), BitStep(b, false))
  {
    var h := Xor(a / 2, b / 2);
    assert Xor(a, b) / 2 == h && Xor(a, b) % 2 == (a + b) % 2 by { XorHalves(a, b); }
    OddSum(a, b);
    XorIfRegroup(a / 2, b / 2, POLY, a % 2 == 1, b % 2 == 1);
  }

  lemma StepFeeds(crc: nat, x: nat)
    ensures BitStep(Xor(crc, x), false) == Xor(BitStep(crc, x % 2 == 1), x / 2)
  {
    var h := Xor(crc / 2, x / 2);
    assert Xor(crc, x) / 2 == h && Xor(crc, x) % 2 == (crc + x) % 2 by { XorHalves(crc, x); }
    OddSum(crc, x);
    XorIfRegroup(crc / 2, x / 2, POLY, (crc % 2 == 1) != (x % 2 == 1), false);
  }

  lemma {:induction false} ClockLinear(n: nat, x: nat, y: nat)
    ensures Clock(n, Xor(x, y)) == Xor(Clock(n, x), Clock(n, y))
    decreases n
  {
    if n > 0 {
      StepLinear(x, y);
      ClockLinear(n - 1, BitStep(x, false), BitStep(y, false));
    }
  }

  lemma {:induction false} ClockAdds(m: nat, n: nat, x: nat)
    ensures Clock(m + n, x) == Clock(n, Clock(m, x))
    decreases m
  {
    if m > 0 {
      ClockAdds(m - 1, n, BitStep(x, false));
    }
  }

  lemma {:induction false} SerialConcat(crc: nat, a: seq<bool>, b: seq<bool>)
    ensures Serial(crc, a + b) == Serial(Serial(crc, a), b)
    decreases |a|
  {
    if a == [] {
      assert a + b == b;
    } else {
      assert (a + b)[1..] == a[1..] + b;
      SerialConcat(BitStep(crc, a[0]), a[1..], b);
    }
  }

  function Drop(x: nat, n: nat): nat
    decreases n, x
  {
    if n == 0 then x else Drop(x / 2, n - 1)
  }

  /** Clocking crc ^ x n times feeds the n low bits of x serially; the other bits of x move down. */
  lemma {:induction false} Feed(crc: nat, x: nat, n: nat)
    ensures Clock(n, Xor(crc, x)) == Xor(Serial(crc, LowBits(x, n)), Drop(x, n))
    decreases n
  {
    if n > 0 {
      StepFeeds(crc, x);
      Feed(BitStep(crc, x % 2 == 1), x / 2, n - 1);
      assert LowBits(x, n)[1..] == LowBits(x / 2, n - 1);
    }
  }

  // ---------- Bytes leave the register through the tables ----------

  lemma DropByte(x: nat)
    ensures Drop(x, 8) == x / 256
  {
    var x2, x4, x6 := x / 2 / 2, x / 2 / 2 / 2 / 2, x / 2 / 2 / 2 / 2 / 2 / 2;
    assert Drop(x, 8) == Drop(x / 2, 7) == Drop(x2, 6);
    assert Drop(x2, 6) == Drop(x2 / 2, 5) == Drop(x4, 4);
    assert Drop(x4, 4) == Drop(x4 / 2, 3) == Drop(x6, 2);
    assert Drop(x6, 2) == Drop(x6 / 2, 1) == x6 / 2 / 2;
  }

  lemma {:induction false} SameLowBits(x: nat, k: nat, n: nat)
    ensures LowBits(x + Power(n) * k, n) == LowBits(x, n)
    decreases n
  {
    if n > 0 {
      var p := Power(n - 1) * k;
      assert Power(n) * k == 2 * p;
      SameLowBits(x / 2, k, n - 1);
      assert (x + 2 * p) / 2 == x / 2 + p && (x + 2 * p) % 2 == x % 2;
    }
  }

  lemma LowByteBits(x: nat)
    ensures LowBits(x % 256, 8) == LowBits(x, 8)
  {
    PowerWord();
    SameLowBits(x % 256, x / 256, 8);
    assert x == x % 256 + 256 * (x / 256);
  }

  /** One byte passes through table 0, the rest of the register moves down. */
  lemma ClockByte(x: nat)
    ensures Clock(8, x) == NextEntry(x)
    ensures Clock(8, x) == Xor(Clock(8, x % 256), x / 256)
  {
    var fed := Serial(0, LowBits(x, 8));
    Feed(0, x, 8);
    DropByte(x);
    Feed(0, x % 256, 8);
    DropByte(x % 256);
    LowByteBits(x);
    XorCommutes(fed, x / 256);
    XorCommutes(fed, 0);
  }

  /** The table recurrence amounts to clocking k+1 whole bytes. */
  lemma {:induction false} TableIsClock(k: nat, i: nat)
    ensures Table(k, i) == Clock(8 * k + 8, i)
    decreases k
  {
    if k > 0 {
      TableIsClock(k - 1, i);
      ClockByte(Table(k - 1, i));
      ClockAdds(8 * k, 8, i);
    }
  }

  /** The lowest byte of the register goes through table k while the rest takes k more bytes. */
  lemma Slice(k: nat, x: nat, rest: nat)
    requires rest == Clock(8 * k, x / 256)
    ensures Xor(Table(k, x % 256), rest) == Clock(8 * k + 8, x)
  {
    var n, head := 8 * k, Clock(8, x % 256);
    ClockAdds(8, n, x);
    ClockByte(x);
    ClockLinear(n, head, x / 256);
    ClockAdds(8, n, x % 256);
    TableIsClock(k, x % 256);
  }

  // ---------- The two loop bodies ----------

  /** One byte through table 0. */
  function ByteUpdate(crc: nat, b: Byte): nat {
    Xor(Table(0, Xor(crc, b) % 256), crc / 256)
  }

  /** Little-endian load of four bytes. */
  function LoadWord(b0: Byte, b1: Byte, b2: Byte, b3: Byte): nat {
    b0 + 0x100 * b1 + 0x1_0000 * b2 + 0x100_0000 * b3
  }

  /** Four bytes through the four tables. */
  function WordUpdate(crc: nat, word: nat): nat {
    var d1 := Xor(word, crc);
    Xor(Xor(Xor(Table(0, d1 / 0x100_0000 % 256), Table(1, d1 / 0x1_0000 % 256)), Table(2, d1 / 0x100 % 256)),
        Table(3, d1 % 256))
  }

  /** Clocking out the low byte of x leaves a register that has consumed that byte. */
  lemma FeedByte(crc: nat, x: nat, n: nat, after: nat)
    requires after == Serial(crc, LowBits(x % 256, 8))
    ensures Clock(n + 8, Xor(crc, x)) == Clock(n, Xor(after, x / 256))
  {
    LowByteBits(x);
    DropByte(x);
    Feed(crc, x, 8);
    ClockAdds(8, n, Xor(crc, x));
  }

  lemma FeedLastByte(crc: nat, b: Byte)
    ensures Clock(8, Xor(crc, b)) == Serial(crc, LowBits(b, 8))
  {
    Feed(crc, b, 8);
    DropByte(b);
    XorCommutes(Serial(crc, LowBits(b, 8)), 0);
  }

  lemma ByteUpdateIsSerial(crc: nat, b: Byte)
    ensures ByteUpdate(crc, b) == Serial(crc, LowBits(b, 8))
  {
    XorHighByte(crc, b);
    ClockByte(Xor(crc, b));
    FeedLastByte(crc, b);
  }

  /** A byte only touches the low eight bits. */
  lemma XorHighByte(crc: nat, b: Byte)
    ensures Xor(crc, b) / 256 == crc / 256
  {
    XorDrop(crc, b, 8);
    DropByte(crc);
    DropByte(b);
    DropByte(Xor(crc, b));
    XorCommutes(crc / 256, 0);
  }

  lemma {:induction false} XorDrop(a: nat, b: nat, n: nat)
    ensures Drop(Xor(a, b), n) == Xor(Drop(a, n), Drop(b, n))
    decreases n
  {
    if n > 0 {
      XorHalves(a, b);
      XorDrop(a / 2, b / 2, n - 1);
    }
  }

  lemma XorFour(t0: nat, t1: nat, t2: nat, t3: nat)
    ensures Xor(Xor(Xor(t0, t1), t2), t3) == Xor(t3, Xor(t2, Xor(t1, t0)))
  {
    XorCommutes(t0, t1);
    XorCommutes(Xor(t1, t0), t2);
    XorCommutes(Xor(t2, Xor(t1, t0)), t3);
  }

  lemma WordUpdateIsClock(crc: nat, word: nat)
    requires crc < WORD && word < WORD
    ensures WordUpdate(crc, word) == Clock(32, Xor(crc, word))
  {
    var d := Xor(crc, word);
    XorCommutes(crc, word);
    PowerWord();
    XorBounded(crc, word, 32);
    var d1, d2, d3 := d / 0x100, d / 0x1_0000, d / 0x100_0000;
    assert d2 == d1 / 256 && d3 == d2 / 256 && d3 / 256 == 0;
    FourSlices(d, d1, d2, d3);
    XorFour(Table(0, d3 % 256), Table(1, d2 % 256), Table(2, d1 % 256), Table(3, d % 256));
  }

  lemma FourSlices(d: nat, d1: nat, d2: nat, d3: nat)
    requires d1 == d / 256 && d2 == d1 / 256 && d3 == d2 / 256 && d3 / 256 == 0
    ensures Xor(Table(3, d % 256), Xor(Table(2, d1 % 256), Xor(Table(1, d2 % 256), Table(0, d3 % 256)))) == Clock(32, d)
  {
    assert Clock(0, d3 / 256) == 0;
    hide Clock, Table;
    var c0 := Table(0, d3 % 256);
    var c1 := Xor(Table(1, d2 % 256), c0);
    var c2 := Xor(Table(2, d1 % 256), c1);
    assert c0 == Clock(8, d3) by {
      Slice(0, d3, 0);
      XorCommutes(c0, 0);
    }
    assert c1 == Clock(16, d2) by { Slice(1, d2, c0); }
    assert c2 == Clock(24, d1) by { Slice(2, d1, c1); }
    Slice(3, d, c2);
  }

  lemma ClockWordIsSerial(crc: nat, b0: Byte, b1: Byte, b2: Byte, b3: Byte)
    ensures Clock(32, Xor(crc, LoadWord(b0, b1, b2, b3))) == Serial(crc, MessageBits([b0, b1, b2, b3]))
  {
    hide Clock, Xor, Serial, LowBits, MessageBits;
    var c1 := Serial(crc, LowBits(b0, 8));
    var c2 := Serial(c1, LowBits(b1, 8));
    var c3 := Serial(c2, LowBits(b2, 8));
    var c4 := Serial(c3, LowBits(b3, 8));
    var w, w1, w2 := LoadWord(b0, b1, b2, b3), b1 + 0x100 * b2 + 0x1_0000 * b3, b2 + 0x100 * b3;
    assert w % 256 == b0 && w / 256 == w1 && w1 % 256 == b1 && w1 / 256 == w2 && w2 % 256 == b2 && w2 / 256 == b3;
    assert Clock(32, Xor(crc, w)) == Clock(24, Xor(c1, w1)) by { FeedByte(crc, w, 24, c1); }
    assert Clock(24, Xor(c1, w1)) == Clock(16, Xor(c2, w2)) by { FeedByte(c1, w1, 16, c2); }
    assert Clock(16, Xor(c2, w2)) == Clock(8, Xor(c3, b3)) by { FeedByte(c2, w2, 8, c3); }
    FeedLastByte(c3, b3);
    FourBytes(crc, b0, b1, b2, b3);
  }

  lemma FourBytes(crc: nat, b0: Byte, b1: Byte, b2: Byte, b3: Byte)
    ensures Serial(crc, MessageBits([b0, b1, b2, b3]))
         == Serial(Serial(Serial(Serial(crc, LowBits(b0, 8)), LowBits(b1, 8)), LowBits(b2, 8)), LowBits(b3, 8))
  {
    var c1 := Serial(crc, LowBits(b0, 8));
    var c2 := Serial(c1, LowBits(b1, 8));
    MessageStep(crc, [b0, b1, b2, b3], b0, [b1, b2, b3]);
    MessageStep(c1, [b1, b2, b3], b1, [b2, b3]);
    MessageStep(c2, [b2, b3], b2, [b3]);
    MessageStep(Serial(c2, LowBits(b2, 8)), [b3], b3, []);
  }

  lemma MessageStep(crc: nat, data: seq<Byte>, first: Byte, rest: seq<Byte>)
    requires data == [first] + rest
    ensures Serial(crc, MessageBits(data)) == Serial(Serial(crc, LowBits(first, 8)), MessageBits(rest))
  {
    assert data[1..] == rest;
    SerialConcat(crc, LowBits(first, 8), MessageBits(rest));
  }

  lemma {:induction false} MessageBitsConcat(a: seq<Byte>, b: seq<Byte>)
    ensures MessageBits(a + b) == MessageBits(a) + MessageBits(b)
  {
    if a == [] {
      assert a + b == b;
    } else {
      assert (a + b)[1..] == a[1..] + b;
      MessageBitsConcat(a[1..], b);
    }
  }

  lemma AppendWord(data: seq<Byte>, pos: nat, crc: nat)
    requires pos + 4 <= |data| && crc < WORD
    requires crc == Serial(ALL_ONES, MessageBits(data[..pos]))
    ensures WordUpdate(crc, LoadWord(data[pos], data[pos + 1], data[pos + 2], data[pos + 3]))
         == Serial(ALL_ONES, MessageBits(data[..pos + 4]))
  {
    hide Clock, Serial, MessageBits, WordUpdate;
    var four := [data[pos], data[pos + 1], data[pos + 2], data[pos + 3]];
    assert data[..pos + 4] == data[..pos] + four;
    MessageBitsConcat(data[..pos], four);
    SerialConcat(ALL_ONES, MessageBits(data[..pos]), MessageBits(four));
    ClockWordIsSerial(crc, four[0], four[1], four[2], four[3]);
    WordUpdateIsClock(crc, LoadWord(four[0], four[1], four[2], four[3]));
  }

  lemma AppendByte(data: seq<Byte>, pos: nat, crc: nat)
    requires pos < |data|
    requires crc == Serial(ALL_ONES, MessageBits(data[..pos]))
    ensures ByteUpdate(crc, data[pos]) == Serial(ALL_ONES, MessageBits(data[..pos + 1]))
  {
    assert data[..pos + 1] == data[..pos] + [data[pos]];
    MessageBitsConcat(data[..pos], [data[pos]]);
    SerialConcat(ALL_ONES, MessageBits(data[..pos]), MessageBits([data[pos]]));
    MessageStep(crc, [data[pos]], data[pos], []);
    ByteUpdateIsSerial(crc, data[pos]);
  }

  /** The register never outgrows 32 bits. */
  lemma {:induction false} SerialBounded(crc: nat, bits: seq<bool>)
    requires crc < WORD
    ensures Serial(crc, bits) < WORD
    decreases |bits|
  {
    if bits != [] {
      PowerWord();
      XorBounded(crc / 2, POLY, 32);
      SerialBounded(BitStep(crc, bits[0]), bits[1..]);
    }
  }

  /** The checksum routine: whole words through four tables, then single bytes. */
  method Generate(data: seq<Byte>) returns (crc: nat)
    ensures crc == Crc(data) < WORD
  {
    crc := ALL_ONES;
    var pos, left := 0, |data|;
    while left >= 4
      invariant pos + left == |data| && 0 <= left
      invariant crc == Serial(ALL_ONES, MessageBits(data[..pos]))
    {
      SerialBounded(ALL_ONES, MessageBits(data[..pos]));
      AppendWord(data, pos, crc);
      crc := WordUpdate(crc, LoadWord(data[pos], data[pos + 1], data[pos + 2], data[pos + 3]));
      pos, left := pos + 4, left - 4;
    }
    while left > 0
      invariant pos + left == |data| && 0 <= left
      invariant crc == Serial(ALL_ONES, MessageBits(data[..pos]))
    {
      AppendByte(data, pos, crc);
      crc := ByteUpdate(crc, data[pos]);
      pos, left := pos + 1, left - 1;
    }
    assert data[..pos] == data;
    SerialBounded(ALL_ONES, MessageBits(data));
    PowerWord();
    XorBounded(crc, ALL_ONES, 32);
    crc := Xor(crc, ALL_ONES);
  }

  /** Every entry is the exclusive or of the entries of its bits. */
  lemma TableLinear(k: nat, i: nat, j: nat)
    ensures Table(k, Xor(i, j)) == Xor(Table(k, i), Table(k, j))
  {
    TableIsClock(k, i);
    TableIsClock(k, j);
    TableIsClock(k, Xor(i, j));
    ClockLinear(8 * k + 8, i, j);
  }

  lemma Clocked(m: nat, x: nat, y: nat)
    requires BitStep(Clock(m, x), false) == y
    ensures Clock(m + 1, x) == y
  {
    ClockAdds(m, 1, x);
    assert Clock(1, Clock(m, x)) == Clock(0, y) == y;
  }

  /** The polynomial clocked up to seven times. */
  lemma PolyClocked()
    ensures Clock(0, POLY) == 0xEDB8_8320 && Clock(1, POLY) == 0x76DC_4190
    ensures Clock(2, POLY) == 0x3B6E_20C8 && Clock(3, POLY) == 0x1DB7_1064
    ensures Clock(4, POLY) == 0x0EDB_8832 && Clock(5, POLY) == 0x076D_C419
  {
    var p: nat := POLY;
    assert Clock(0, p) == p;
    hide Clock, Xor;
    Clocked(0, p, 0x76DC_4190);
    Clocked(1, p, 0x3B6E_20C8);
    Clocked(2, p, 0x1DB7_1064);
    Clocked(3, p, 0x0EDB_8832);
    Clocked(4, p, 0x076D_C419);
  }

  lemma PolyClockedOn()
    ensures Clock(6, POLY) == Xor(0x03B6_E20C, 0xEDB8_8320)
    ensures Clock(7, POLY) == Xor(0x01DB_7106, 0x76DC_4190)
  {
    var p: nat := POLY;
    hide Clock, Xor;
    PolyClocked();
    Clocked(5, p, Xor(0x03B6_E20C, p));
    XorHalves(0x03B6_E20C, p);
    Clocked(6, p, Xor(0x01DB_7106, 0x76DC_4190));
  }

  /** A single bit of the byte reaches the low end after j clocks. */
  lemma {:induction false} BitFalls(j: nat, n: nat)
    ensures Clock(j + 1 + n, Power(j)) == Clock(n, POLY)
    decreases j
  {
    if j == 0 {
      assert BitStep(1, false) == POLY by { assert Xor(0, POLY) == POLY; }
    } else {
      assert Power(j) % 2 == 0 && Power(j) / 2 == Power(j - 1);
      assert BitStep(Power(j), false) == Power(j - 1);
      BitFalls(j - 1, n);
    }
  }

  /** The array's entries of table 0 at the powers of two: they fix the generator polynomial and the bit
      order, and the entries of all bytes are their sums. */
  lemma TableLiterals()
    ensures Table(0, 128) == 0xEDB8_8320 && Table(0, 64) == 0x76DC_4190
    ensures Table(0, 32) == 0x3B6E_20C8 && Table(0, 16) == 0x1DB7_1064
    ensures Table(0, 8) == 0x0EDB_8832 && Table(0, 4) == 0x076D_C419
    ensures Table(0, 2) == 0xEE0E_612C && Table(0, 1) == 0x7707_3096
  {
    assert Power(0) == 1 && Power(1) == 2 && Power(2) == 4 && Power(3) == 8;
    assert Power(4) == 16 && Power(5) == 32 && Power(6) == 64 && Power(7) == 128;
    hide Clock, Power, Xor;
    PolyClocked();
    PolyClockedOn();
    BitFalls(7, 0);
    BitFalls(6, 1);
    BitFalls(5, 2);
    BitFalls(4, 3);
    BitFalls(3, 4);
    BitFalls(2, 5);
    BitFalls(1, 6);
    BitFalls(0, 7);
    TableIsClock(0, 1);
    XorBytes(0x03, 0xB6, 0xE2, 0x0C, 0xED, 0xB8, 0x83, 0x20);
    XorBytes(0x01, 0xDB, 0x71, 0x06, 0x76, 0xDC, 0x41, 0x90);
  }

  // ---------- A value, and a message with its checksum ----------

  lemma AddPoly(b3: bv8, b2: bv8, b1: bv8, b0: bv8)
    ensures Xor(WordOf(b3, b2, b1, b0), 0xEDB8_8320) == WordOf(b3 ^ 0xED, b2 ^ 0xB8, b1 ^ 0x83, b0 ^ 0x20)
  {
    assert WordOf(0xED, 0xB8, 0x83, 0x20) == 0xEDB8_8320;
    hide Xor, WordOf;
    XorBytes(b3, b2, b1, b0, 0xED, 0xB8, 0x83, 0x20);
  }

  lemma ClockNone(x: nat)
    ensures Clock(0, x) == x
  {
  }

  lemma OnesClocked4()
    ensures Clock(4, 0xFFFF_FFFF) == 0xB242_0DE3
  {
    hide Clock, Xor;
    ClockNone(0xFFFF_FFFF);
    AddPoly(0x7F, 0xFF, 0xFF, 0xFF);
    Clocked(0, 0xFFFF_FFFF, 0x9247_7CDF);
    AddPoly(0x49, 0x23, 0xBE, 0x6F);
    Clocked(1, 0xFFFF_FFFF, 0xA49B_3D4F);
    AddPoly(0x52, 0x4D, 0x9E, 0xA7);
    Clocked(2, 0xFFFF_FFFF, 0xBFF5_1D87);
    AddPoly(0x5F, 0xFA, 0x8E, 0xC3);
    Clocked(3, 0xFFFF_FFFF, 0xB242_0DE3);
  }

  lemma OnesClocked8()
    requires Clock(4, 0xFFFF_FFFF) == 0xB242_0DE3
    ensures Clock(8, 0xFFFF_FFFF) == 0x2DFD_1072
  {
    hide Clock, Xor;
    AddPoly(0x59, 0x21, 0x06, 0xF1);
    Clocked(4, 0xFFFF_FFFF, 0xB499_85D1);
    AddPoly(0x5A, 0x4C, 0xC2, 0xE8);
    Clocked(5, 0xFFFF_FFFF, 0xB7F4_41C8);
    Clocked(6, 0xFFFF_FFFF, 0x5BFA_20E4);
    Clocked(7, 0xFFFF_FFFF, 0x2DFD_1072);
  }

  lemma OnesClocked16()
    requires Clock(8, 0xFFFF_FFFF) == 0x2DFD_1072
    ensures Clock(16, 0xFFFF_FFFF) == 0xBE26_ED00
  {
    hide Clock, Xor;
    Clocked(8, 0xFFFF_FFFF, 0x16FE_8839);
    AddPoly(0x0B, 0x7F, 0x44, 0x1C);
    Clocked(9, 0xFFFF_FFFF, 0xE6C7_C73C);
    Clocked(10, 0xFFFF_FFFF, 0x7363_E39E);
    Clocked(11, 0xFFFF_FFFF, 0x39B1_F1CF);
    AddPoly(0x1C, 0xD8, 0xF8, 0xE7);
    Clocked(12, 0xFFFF_FFFF, 0xF160_7BC7);
    AddPoly(0x78, 0xB0, 0x3D, 0xE3);
    Clocked(13, 0xFFFF_FFFF, 0x9508_BEC3);
    AddPoly(0x4A, 0x84, 0x5F, 0x61);
    Clocked(14, 0xFFFF_FFFF, 0xA73C_DC41);
    AddPoly(0x53, 0x9E, 0x6E, 0x20);
    Clocked(15, 0xFFFF_FFFF, 0xBE26_ED00);
  }

  lemma OnesClocked24()
    requires Clock(16, 0xFFFF_FFFF) == 0xBE26_ED00
    ensures Clock(24, 0xFFFF_FFFF) == 0x00BE_26ED
  {
    hide Clock, Xor;
    Clocked(16, 0xFFFF_FFFF, 0x5F13_7680);
    Clocked(17, 0xFFFF_FFFF, 0x2F89_BB40);
    Clocked(18, 0xFFFF_FFFF, 0x17C4_DDA0);
    Clocked(19, 0xFFFF_FFFF, 0x0BE2_6ED0);
    Clocked(20, 0xFFFF_FFFF, 0x05F1_3768);
    Clocked(21, 0xFFFF_FFFF, 0x02F8_9BB4);
    Clocked(22, 0xFFFF_FFFF, 0x017C_4DDA);
    Clocked(23, 0xFFFF_FFFF, 0x00BE_26ED);
  }

  lemma OnesClocked32()
    requires Clock(24, 0xFFFF_FFFF) == 0x00BE_26ED
    ensures Clock(32, 0xFFFF_FFFF) == 0xDEBB_20E3
  {
    hide Clock, Xor;
    AddPoly(0x00, 0x5F, 0x13, 0x76);
    Clocked(24, 0xFFFF_FFFF, 0xEDE7_9056);
    Clocked(25, 0xFFFF_FFFF, 0x76F3_C82B);
    AddPoly(0x3B, 0x79, 0xE4, 0x15);
    Clocked(26, 0xFFFF_FFFF, 0xD6C1_6735);
    AddPoly(0x6B, 0x60, 0xB3, 0x9A);
    Clocked(27, 0xFFFF_FFFF, 0x86D8_30BA);
    Clocked(28, 0xFFFF_FFFF, 0x436C_185D);
    AddPoly(0x21, 0xB6, 0x0C, 0x2E);
    Clocked(29, 0xFFFF_FFFF, 0xCC0E_8F0E);
    Clocked(30, 0xFFFF_FFFF, 0x6607_4787);
    AddPoly(0x33, 0x03, 0xA3, 0xC3);
    Clocked(31, 0xFFFF_FFFF, 0xDEBB_20E3);
  }

  /** The register of all ones clocked for a word, inverted. */
  lemma OnesClocked()
    ensures Xor(Clock(32, 0xFFFF_FFFF), 0xFFFF_FFFF) == 0x2144_DF1C
  {
    hide Clock, Xor;
    OnesClocked4();
    OnesClocked8();
    OnesClocked16();
    OnesClocked24();
    OnesClocked32();
    XorBytes(0xDE, 0xBB, 0x20, 0xE3, 0xFF, 0xFF, 0xFF, 0xFF);
  }

  lemma FourBytesCrc(b0: Byte, b1: Byte, b2: Byte, b3: Byte)
    ensures Crc([b0, b1, b2, b3]) == Xor(Clock(32, Xor(ALL_ONES, LoadWord(b0, b1, b2, b3))), ALL_ONES)
  {
    hide Clock, Xor, Serial, MessageBits, LoadWord;
    ClockWordIsSerial(ALL_ONES, b0, b1, b2, b3);
  }

  lemma ZerosCrc(zero: Byte, ones: nat)
    requires zero == 0 && ones == ALL_ONES
    ensures Crc([zero, zero, zero, zero]) == Xor(Clock(32, ones), ones)
  {
    hide Crc, Clock, Xor;
    assert LoadWord(zero, zero, zero, zero) == 0;
    hide LoadWord;
    FourBytesCrc(zero, zero, zero, zero);
    XorZero(ones);
  }

  /** The checksum of four zero bytes. */
  lemma FourZeros()
    ensures Crc([0, 0, 0, 0]) == 0x2144_DF1C
  {
    hide Crc, Clock, Xor;
    ZerosCrc(0, ALL_ONES);
    OnesClocked();
  }

  /** A word as four bytes, low byte first. */
  function LowFirst(w: Word): seq<Byte> {
    [w % 0x100, w / 0x100 % 0x100, w / 0x1_0000 % 0x100, w / 0x100_0000]
  }

  lemma LowFirstLoads(w: Word)
    ensures var b := LowFirst(w); LoadWord(b[0], b[1], b[2], b[3]) == w
  {
    var w1 := w / 0x100;
    var w2 := w1 / 0x100;
    assert w2 == w / 0x1_0000 && w2 / 0x100 == w / 0x100_0000;
  }

  /** The receiver's check: a message followed by its checksum, low byte first, has the checksum of four zero
      bytes, whatever the message is. */
  lemma ChecksumOfChecked(data: seq<Byte>)
    ensures Crc(data) < WORD
    ensures Crc(data + LowFirst(Crc(data))) == 0x2144_DF1C
  {
    var r := Serial(ALL_ONES, MessageBits(data));
    PowerWord();
    SerialBounded(ALL_ONES, MessageBits(data));
    XorBounded(r, ALL_ONES, 32);
    var c: Word := Crc(data);
    var b := LowFirst(c);
    LowFirstLoads(c);
    hide Clock, Xor, Serial, MessageBits, LoadWord, LowFirst;
    assert b == [b[0], b[1], b[2], b[3]];
    MessageBitsConcat(data, b);
    SerialConcat(ALL_ONES, MessageBits(data), MessageBits(b));
    ClockWordIsSerial(r, b[0], b[1], b[2], b[3]);
    XorCancels(r, ALL_ONES);
    OnesClocked();
  }
}
