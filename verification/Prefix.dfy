/** Address prefixes as the classifier sees them: a length over 32-bit words, split into one length
    per word, against the prefix of the whole address. */
module Prefix {
  import opened Words

  /** A byte string read in network order. */
  function Number(bytes: seq<Byte>): nat {
    if bytes == [] then 0 else Number(bytes[..|bytes| - 1]) * 256 + bytes[|bytes| - 1]
  }

  /** The i-th 32-bit word of a byte string in network order. */
  function WordAt(bytes: seq<Byte>, i: nat): Word
    requires 4 * i + 4 <= |bytes|
  {
    NumberBounded(bytes[4 * i..4 * i + 4]);
    PowerWord();
    Number(bytes[4 * i..4 * i + 4])
  }

  lemma {:induction false} NumberBounded(bytes: seq<Byte>)
    ensures Number(bytes) < Power(8 * |bytes|)
  {
    if bytes != [] {
      NumberBounded(bytes[..|bytes| - 1]);
      PowerAdds(8 * (|bytes| - 1), 8);
      PowerWord();
    }
  }

  /** The address a sequence of words stands for, most significant word first. */
  function NumberOf(words: seq<Word>): nat {
    if words == [] then 0 else Joined(words[0], 32 * (|words| - 1), NumberOf(words[1..]))
  }

  /** x << k */
  function Raised(x: nat, k: nat): nat {
    if k == 0 then x else 2 * Raised(x, k - 1)
  }

  lemma {:induction false} RaisedIs(x: nat, k: nat)
    ensures Raised(x, k) == x * Power(k)
    decreases k
  {
    if k > 0 {
      RaisedIs(x, k - 1);
      assert 2 * (x * Power(k - 1)) == x * (2 * Power(k - 1));
    }
  }

  /** A number with a number of at most k bits to its right. */
  function Joined(high: nat, k: nat, low: nat): nat {
    Raised(high, k) + low
  }

  lemma JoinedIs(high: nat, k: nat, low: nat)
    ensures Joined(high, k, low) == high * Power(k) + low
  {
    RaisedIs(high, k);
  }

  /** The leftmost n of width bits agree (section 2.3 of RFC 4291). */
  predicate InPrefix(address: nat, prefix: nat, width: nat, n: nat)
    requires n <= width
  {
    Shifted(address, width - n) == Shifted(prefix, width - n)
  }

  /** A mask field of 32 bits: the input agrees with the value in its len leading bits. */
  predicate MaskMatches(value: Word, len: nat, input: Word)
    requires len <= 32
  {
    Shifted(input, 32 - len) == Shifted(value, 32 - len)
  }

  /** The share of a prefix length n that falls to word i. */
  function MaskLen(n: nat, i: nat): (len: nat)
    ensures len <= 32
  {
    if n <= 32 * i then 0 else if n >= 32 * (i + 1) then 32 else n - 32 * i
  }

  /** Shifting right divides by a power of two. */
  lemma {:induction false} ShiftedIs(x: nat, k: nat)
    ensures Shifted(x, k) == x / Power(k)
    decreases k
  {
    if k == 0 {
      assert Power(0) == 1;
    } else {
      ShiftedIs(x / 2, k - 1);
      HalfThenDivide(x, Power(k - 1));
    }
  }

  lemma HalfThenDivide(x: nat, d: nat)
    requires d > 0
    ensures x / 2 / d == x / (2 * d)
  {
    var q, r := x / 2 / d, x / 2 % d;
    assert x / 2 == q * d + r && x == q * (2 * d) + (2 * r + x % 2);
    QuotientUnique(x, 2 * d, q, 2 * r + x % 2);
  }

  ghost predicate WordsMatch(value: seq<Word>, n: nat, input: seq<Word>)
    requires |value| == |input|
  {
    forall i :: 0 <= i < |value| ==> MaskMatches(value[i], MaskLen(n, i), input[i])
  }

  // ---------- Arithmetic ----------

  lemma DivAdd(a: nat, d: nat, lo: nat)
    requires d > 0
    ensures (a * d + lo) / d == a + lo / d
  {
    var x, y := lo / d, lo % d;
    assert (a + x) * d + y == a * d + lo;
    QuotientUnique(a * d + lo, d, a + x, y);
  }

  /** Dropping the low bits below d from hi * (q * d) + lo. */
  lemma DropLow(hi: nat, q: nat, d: nat, lo: nat)
    requires d > 0 && lo < q * d
    ensures (hi * (q * d) + lo) / d == hi * q + lo / d && lo / d < q
  {
    Regroup(hi, q, d);
    DivAdd(hi * q, d, lo);
    DivBelow(lo, q, d);
  }

  lemma SameParts(hi: nat, hi': nat, q: nat, lo: nat, lo': nat)
    requires lo < q && lo' < q
    ensures hi * q + lo == hi' * q + lo' <==> hi == hi' && lo == lo'
  {
    if hi * q + lo == hi' * q + lo' {
      QuotientUnique(hi * q + lo, q, hi, lo);
      QuotientUnique(hi * q + lo, q, hi', lo');
    }
  }

  lemma {:induction false} NumberOfBounded(words: seq<Word>)
    ensures NumberOf(words) < Power(32 * |words|)
  {
    if words != [] {
      NumberOfBounded(words[1..]);
      var rest := 32 * (|words| - 1);
      PowerAdds(32, rest);
      PowerWord();
      JoinedIs(words[0], rest, NumberOf(words[1..]));
      hide Power, Joined;
      assert 32 * |words| == 32 + rest;
      Fits(words[0], NumberOf(words[1..]), Power(rest));
    }
  }

  lemma Fits(w: Word, rest: nat, p: nat)
    requires rest < p
    ensures w * p + rest < WORD * p
  {
    var w1: nat := w;
    Monotone(w1 + 1, WORD, p);
  }

  // ---------- The split keeps the meaning ----------

  /** The prefix ends inside the first word: the rest does not matter. */
  lemma PrefixInHead(w: Word, r: nat, v: Word, s: nat, k: nat, n: nat)
    requires r < Power(k) && s < Power(k) && n <= 32
    ensures InPrefix(Joined(w, k, r), Joined(v, k, s), 32 + k, n) <==> MaskMatches(v, n, w)
  {
    hide Power;
    var d := Power(32 - n);
    PowerAdds(32 - n, k);
    assert 32 + k - n == 32 - n + k;
    JoinedIs(w, k, r);
    JoinedIs(v, k, s);
    ShiftedIs(Joined(w, k, r), 32 + k - n);
    ShiftedIs(Joined(v, k, s), 32 + k - n);
    ShiftedIs(w, 32 - n);
    ShiftedIs(v, 32 - n);
    hide Shifted, Joined;
    DropBoth(w, r, Power(k), d);
    DropBoth(v, s, Power(k), d);
  }

  lemma DropBoth(w: nat, r: nat, p: nat, d: nat)
    requires d > 0 && r < p
    ensures (w * p + r) / (d * p) == w / d
  {
    var q, m := w / d, w % d;
    assert w == q * d + m;
    assert w * p + r == q * (d * p) + (m * p + r);
    assert m * p + r < m * p + p == (m + 1) * p <= d * p;
    QuotientUnique(w * p + r, d * p, q, m * p + r);
  }

  /** The prefix goes beyond the first word: that word agrees entirely and the rest has the rest. */
  lemma PrefixBeyondHead(w: Word, r: nat, v: Word, s: nat, k: nat, n: nat)
    requires r < Power(k) && s < Power(k) && n <= k
    ensures InPrefix(Joined(w, k, r), Joined(v, k, s), 32 + k, 32 + n) <==> w == v && InPrefix(r, s, k, n)
  {
    var d, q := Power(k - n), Power(n);
    hide Power;
    PowerAdds(n, k - n);
    assert 32 + k - (32 + n) == k - n && n + (k - n) == k;
    JoinedIs(w, k, r);
    JoinedIs(v, k, s);
    ShiftedIs(Joined(w, k, r), k - n);
    ShiftedIs(Joined(v, k, s), k - n);
    ShiftedIs(r, k - n);
    ShiftedIs(s, k - n);
    hide Shifted, Joined;
    DropLowSame(w, r, v, s, q, d);
  }

  lemma DropLowSame(w: nat, r: nat, v: nat, s: nat, q: nat, d: nat)
    requires d > 0 && r < q * d && s < q * d
    ensures (w * (q * d) + r) / d == (v * (q * d) + s) / d <==> w == v && r / d == s / d
  {
    DropLow(w, q, d, r);
    DropLow(v, q, d, s);
    SameParts(w, v, q, r / d, s / d);
  }

  lemma WholeWord(w: Word, v: Word)
    ensures MaskMatches(v, 32, w) <==> w == v
  {
    assert Power(0) == 1;
  }

  lemma PrefixOfHead(value: seq<Word>, n: nat, input: seq<Word>)
    requires |value| == |input| > 0 && n <= 32
    ensures InPrefix(NumberOf(input), NumberOf(value), 32 * |value|, n) <==> MaskMatches(value[0], n, input[0])
  {
    NumberOfBounded(input[1..]);
    NumberOfBounded(value[1..]);
    hide Joined, InPrefix, MaskMatches;
    PrefixInHead(input[0], NumberOf(input[1..]), value[0], NumberOf(value[1..]), 32 * (|value| - 1), n);
  }

  lemma PrefixOfMore(value: seq<Word>, n: nat, input: seq<Word>)
    requires |value| == |input| > 0 && 32 <= n <= 32 * |value|
    ensures InPrefix(NumberOf(input), NumberOf(value), 32 * |value|, n) <==>
            input[0] == value[0] && InPrefix(NumberOf(input[1..]), NumberOf(value[1..]), 32 * (|value| - 1), n - 32)
  {
    NumberOfBounded(input[1..]);
    NumberOfBounded(value[1..]);
    hide Joined, InPrefix;
    PrefixBeyondHead(input[0], NumberOf(input[1..]), value[0], NumberOf(value[1..]), 32 * (|value| - 1), n - 32);
  }

  /** Matching word by word with the split lengths is matching the prefix of the whole address, for
      every number of words and every prefix length. */
  lemma {:induction false} SplitKeepsPrefix(value: seq<Word>, n: nat, input: seq<Word>)
    requires |value| == |input| && n <= 32 * |value|
    ensures WordsMatch(value, n, input) <==> InPrefix(NumberOf(input), NumberOf(value), 32 * |value|, n)
    decreases |value|
  {
    if value == [] {
      assert Power(0) == 1;
    } else {
      var m := if n <= 32 then 0 else n - 32;
      SplitKeepsPrefix(value[1..], m, input[1..]);
      WordsMatchStep(value, n, input);
      WholeWord(input[0], value[0]);
      NumberOfBounded(input[1..]);
      NumberOfBounded(value[1..]);
      hide Power, InPrefix, MaskMatches, WordsMatch, NumberOf;
      if n <= 32 {
        PrefixOfHead(value, n, input);
        WholeSpace(NumberOf(input[1..]), NumberOf(value[1..]), 32 * (|value| - 1));
      } else {
        PrefixOfMore(value, n, input);
      }
    }
  }

  /** A prefix of length 0 holds every address. */
  lemma WholeSpace(r: nat, s: nat, k: nat)
    requires r < Power(k) && s < Power(k)
    ensures InPrefix(r, s, k, 0)
  {
    ShiftedIs(r, k);
    ShiftedIs(s, k);
    hide Power, Shifted;
    QuotientUnique(r, Power(k), 0, r);
    QuotientUnique(s, Power(k), 0, s);
  }

  lemma WordsMatchStep(value: seq<Word>, n: nat, input: seq<Word>)
    requires |value| == |input| > 0
    ensures WordsMatch(value, n, input) <==>
            MaskMatches(value[0], MaskLen(n, 0), input[0])
            && WordsMatch(value[1..], if n <= 32 then 0 else n - 32, input[1..])
  {
    var m := if n <= 32 then 0 else n - 32;
    forall i | 0 <= i < |value| - 1
      ensures MaskMatches(value[i + 1], MaskLen(n, i + 1), input[i + 1])
         <==> MaskMatches(value[1..][i], MaskLen(m, i), input[1..][i])
    {
    }
    if WordsMatch(value[1..], m, input[1..]) {
      forall i | 0 < i < |value|
        ensures MaskMatches(value[i], MaskLen(n, i), input[i])
           <==> MaskMatches(value[1..][i - 1], MaskLen(m, i - 1), input[1..][i - 1])
      {
      }
    }
  }

  // ---------- Bytes and words ----------

  lemma {:induction false} NumberConcat(a: seq<Byte>, b: seq<Byte>)
    ensures Number(a + b) == Joined(Number(a), 8 * |b|, Number(b))
    decreases |b|
  {
    if b == [] {
      assert a + b == a;
      JoinedIs(Number(a), 0, 0);
      assert Power(0) == 1;
    } else {
      hide Power, Joined;
      JoinedIs(Number(a), 8 * |b|, Number(b));
      JoinedIs(Number(a), 8 * |b| - 8, Number(b[..|b| - 1]));
      var front, n := b[..|b| - 1], 8 * (|b| - 1);
      assert (a + b)[..|a + b| - 1] == a + front;
      NumberConcat(a, front);
      PowerAdds(n, 8);
      PowerWord();
      assert 8 * |b| == n + 8;
      Regroup(Number(a), Power(n), 256);
    }
  }

  lemma JoinedTwice(high: nat, k: nat, mid: nat, j: nat, low: nat)
    ensures Joined(high, k + j, Joined(mid, j, low)) == Joined(Joined(high, k, mid), j, low)
  {
    JoinedIs(mid, j, low);
    JoinedIs(high, k + j, Joined(mid, j, low));
    JoinedIs(high, k, mid);
    JoinedIs(Joined(high, k, mid), j, low);
    hide Power, Joined;
    PowerAdds(k, j);
    Regroup(high, Power(k), Power(j));
  }

  lemma {:induction false} NumberOfAppend(words: seq<Word>, w: Word)
    ensures NumberOf(words + [w]) == Joined(NumberOf(words), 32, w)
  {
    if words == [] {
      JoinedIs(0, 32, w);
      assert ([] + [w])[1..] == [];
    } else {
      hide Joined;
      NumberOfAppend(words[1..], w);
      assert (words + [w])[1..] == words[1..] + [w];
      JoinedTwice(words[0], 32 * (|words| - 1), NumberOf(words[1..]), 32, w);
    }
  }

  ghost function WordsOf(bytes: seq<Byte>, k: nat): (words: seq<Word>)
    requires |bytes| == 4 * k
    ensures |words| == k
  {
    seq(k, i requires 0 <= i < k => WordAt(bytes, i))
  }

  lemma LastWord(bytes: seq<Byte>, k: nat)
    requires |bytes| == 4 * k + 4
    ensures WordsOf(bytes, k + 1) == WordsOf(bytes[..4 * k], k) + [WordAt(bytes, k)]
  {
    hide Number;
    var front := bytes[..4 * k];
    forall i | 0 <= i < k ensures WordsOf(bytes, k + 1)[i] == WordsOf(front, k)[i] {
      assert bytes[4 * i..4 * i + 4] == front[4 * i..4 * i + 4];
    }
  }

  /** Reading an address word by word in network order gives the number its bytes give. */
  lemma {:induction false} WordsAreBytes(bytes: seq<Byte>, k: nat)
    requires |bytes| == 4 * k
    ensures NumberOf(WordsOf(bytes, k)) == Number(bytes)
    decreases k
  {
    if k > 0 {
      var n := 4 * (k - 1);
      var front, last := bytes[..n], bytes[n..n + 4];
      WordsAreBytes(front, k - 1);
      LastWord(bytes, k - 1);
      hide Joined, Number, NumberOf, WordsOf;
      NumberOfAppend(WordsOf(front, k - 1), WordAt(bytes, k - 1));
      assert bytes == front + last;
      NumberConcat(front, last);
      assert WordAt(bytes, k - 1) == Number(last) && 8 * |last| == 32;
    }
  }

  // ---------- Prefixes bit by bit ----------

  /** Bit i of an address in the order it is sent: from the high bit of the first byte on. */
  predicate AddressBit(bytes: seq<Byte>, i: nat)
    requires i < 8 * |bytes|
  {
    Bit(bytes[i / 8], 7 - i % 8)
  }

  /** The first n bits of two addresses are the same. */
  ghost predicate SameBits(a: seq<Byte>, b: seq<Byte>, n: nat)
    requires |a| == |b| && n <= 8 * |a|
  {
    forall i :: 0 <= i < n ==> AddressBit(a, i) == AddressBit(b, i)
  }

  lemma {:induction false} BitOfJoined(high: nat, j: nat, low: nat, k: nat)
    requires low < Power(j)
    ensures Bit(high * Power(j) + low, k) == if k < j then Bit(low, k) else Bit(high, k - j)
    decreases j, k
  {
    if j > 0 {
      var p := Power(j - 1);
      assert high * Power(j) == 2 * (high * p);
      if k > 0 {
        BitOfJoined(high, j - 1, low / 2, k - 1);
        assert (high * Power(j) + low) / 2 == high * p + low / 2;
      }
    }
  }

  lemma {:induction false} BitOfNumber(bytes: seq<Byte>, i: nat)
    requires i < 8 * |bytes|
    ensures Bit(Number(bytes), 8 * |bytes| - 1 - i) == AddressBit(bytes, i)
    decreases |bytes|
  {
    var n := |bytes| - 1;
    PowerWord();
    hide Power, Bit;
    BitOfJoined(Number(bytes[..n]), 8, bytes[n], 8 * |bytes| - 1 - i);
    if i < 8 * n {
      BitOfNumber(bytes[..n], i);
    }
  }

  /** One more bit of prefix. */
  lemma LongerPrefix(x: nat, y: nat, width: nat, n: nat)
    requires n < width
    ensures InPrefix(x, y, width, n + 1) <==>
            InPrefix(x, y, width, n) && Bit(x, width - n - 1) == Bit(y, width - n - 1)
  {
    var k := width - n - 1;
    ShiftedBit(x, k);
    ShiftedBit(y, k);
    assert Bit(Shifted(x, k), 0) == (Shifted(x, k) % 2 == 1) && Bit(Shifted(y, k), 0) == (Shifted(y, k) % 2 == 1);
    hide Bit, Shifted;
    assert k + 1 == width - n;
    if Shifted(x, k + 1) == Shifted(y, k + 1) && Bit(x, k) == Bit(y, k) {
      SameHalves(Shifted(x, k), Shifted(y, k));
    }
  }

  /** Being in a prefix is sharing its first n bits. */
  lemma {:induction false} PrefixIsBits(a: seq<Byte>, b: seq<Byte>, n: nat)
    requires |a| == |b| && n <= 8 * |a|
    ensures InPrefix(Number(a), Number(b), 8 * |a|, n) <==> SameBits(a, b, n)
  {
    if n == 0 {
      NumberBounded(a);
      NumberBounded(b);
      WholeSpace(Number(a), Number(b), 8 * |a|);
    } else {
      hide InPrefix, Number, Bit, AddressBit;
      PrefixIsBits(a, b, n - 1);
      LongerPrefix(Number(a), Number(b), 8 * |a|, n - 1);
      BitOfNumber(a, n - 1);
      BitOfNumber(b, n - 1);
    }
  }
}
