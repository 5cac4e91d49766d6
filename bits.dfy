/**
 * Unsigned 32-bit machine words and bit strings.
 *
 * The codec packs codes into `unsigned int` accumulators (`WORD`, 32 bits).
 * A word is modelled as a natural number below 2^32 and the C operators the
 * channel uses (`<<` truncated to 32 bits, `>>`, `|`, `&`) are written out
 * arithmetically, so that no reasoning has to cross between bit-vectors and
 * integers.  A stream of bits is a `seq<bool>`, most significant bit first.
 */
module Bits {

  /** Number of bits in a WORD (`8 * sizeof(WORD)`). */
  const WSIZE: nat := 32

  /** 2^WSIZE: one more than the largest WORD. */
  const WORD_LIMIT: nat := 0x1_0000_0000

  type Word = x: nat | x < 0x1_0000_0000

  function Pow2(n: nat): (r: nat)
    ensures r >= 1
  {
    if n == 0 then 1 else 2 * Pow2(n - 1)
  }

  lemma {:induction false} Pow2Add(a: nat, b: nat)
    ensures Pow2(a + b) == Pow2(a) * Pow2(b)
  {
    if a > 0 {
      Pow2Add(a - 1, b);
      assert Pow2(a + b) == 2 * Pow2(a - 1 + b);
    }
  }

  lemma Pow2Word()
    ensures Pow2(WSIZE) == WORD_LIMIT
  {
    assert Pow2(8) == 256;
    Pow2Add(8, 8);
    Pow2Add(16, 16);
  }

  lemma {:induction false} Pow2Monotone(a: nat, b: nat)
    requires a <= b
    ensures Pow2(a) <= Pow2(b)
  {
    Pow2Add(a, b - a);
    MulGe(Pow2(b - a), Pow2(a));
  }

  lemma Pow2Bound(n: nat)
    requires n <= WSIZE
    ensures Pow2(n) <= WORD_LIMIT
  {
    Pow2Monotone(n, WSIZE);
    Pow2Word();
  }

  /** v shifted up by k bits, written without a product so that proofs about it stay linear. */
  function Scaled(v: nat, k: nat): nat
  {
    if k == 0 then v else 2 * Scaled(v, k - 1)
  }

  lemma {:induction false} ScaledMul(v: nat, k: nat)
    ensures Scaled(v, k) == v * Pow2(k)
  {
    if k > 0 {
      ScaledMul(v, k - 1);
      assert v * Pow2(k) == 2 * (v * Pow2(k - 1));
    }
  }

  lemma {:induction false} ScaledZero(k: nat)
    ensures Scaled(0, k) == 0
  {
    if k > 0 {
      ScaledZero(k - 1);
    }
  }

  /** The bits of v above its b lowest. */
  function Hi(v: nat, b: nat): nat
  {
    DivFacts(v, Pow2(b));
    v / Pow2(b)
  }

  /** The b lowest bits of v. */
  function Lo(v: nat, b: nat): nat
  {
    DivFacts(v, Pow2(b));
    v % Pow2(b)
  }

  lemma DivFacts(x: int, m: int)
    requires x >= 0 && m >= 1
    ensures 0 <= x / m <= x && 0 <= x % m < m
  {
    if x / m > x {
      MulGe(m, x / m);
    }
  }

  lemma MulGe(a: int, m: int)
    requires a >= 1 && m >= 0
    ensures a * m >= m
  {}

  lemma MulLe(a: int, b: int, m: int)
    requires 0 <= a <= b && m >= 0
    ensures a * m <= b * m
  {}

  /** Euclidean division recovers quotient and remainder. */
  lemma DivMod(q: int, r: int, m: int)
    requires 0 <= r < m
    ensures (q * m + r) / m == q && (q * m + r) % m == r
  {
    var x := q * m + r;
    var q', r' := x / m, x % m;
    assert x == q' * m + r';
    assert (q - q') * m == r' - r;
    if q > q' {
      MulGe(q - q', m);
    } else if q < q' {
      MulGe(q' - q, m);
    }
  }

  /** Dividing or reducing by a product in two steps. */
  lemma DivDiv(x: nat, m: nat, n: nat)
    requires m > 0 && n > 0
    ensures x / m / n == x / (m * n)
    ensures (x % (m * n)) / m == (x / m) % n
    ensures (x % (m * n)) % m == x % m
  {
    var q, r := x / m, x % m;
    var a, b := q / n, q % n;
    assert x == (a * n + b) * m + r;
    assert x == a * (m * n) + (b * m + r);
    MulLe(b, n - 1, m);
    assert b * m + r < m * n;
    DivMod(a, b * m + r, m * n);
    DivMod(b, r, m);
  }

  lemma MulModGeneric(c: nat, P: nat, E: nat)
    requires P > 0 && E > 0
    ensures (c * P) % (E * P) == (c % E) * P
  {
    var q, r := c / E, c % E;
    assert c == q * E + r;
    assert c * P == q * (E * P) + r * P;
    MulLe(r, E - 1, P);
    DivMod(q, r * P, E * P);
  }

  /** Shifting left by m bits and keeping m + e bits keeps the low e bits of c. */
  lemma MulMod(c: nat, m: nat, e: nat)
    ensures (c * Pow2(m)) % Pow2(m + e) == (c % Pow2(e)) * Pow2(m)
  {
    Pow2Add(e, m);
    MulModGeneric(c, Pow2(m), Pow2(e));
  }

  /** Keeping the u low bits of the k low bits keeps the u low bits. */
  lemma LoLo(v: nat, u: nat, k: nat)
    requires u <= k
    ensures Lo(Lo(v, k), u) == Lo(v, u)
  {
    Pow2Add(u, k - u);
    DivDiv(v, Pow2(u), Pow2(k - u));
  }

  lemma MulModAt(c: nat, m: nat, e: nat, n: nat)
    requires n == m + e
    ensures (c * Pow2(m)) % Pow2(n) == Lo(c, e) * Pow2(m)
  {
    MulMod(c, m, e);
  }

  // ---------------------------------------------------------------------------
  // Bit strings

  /** The n low-order bits of v, most significant first. */
  function NatBits(v: nat, n: nat): (r: seq<bool>)
    ensures |r| == n
  {
    if n == 0 then [] else NatBits(v / 2, n - 1) + [v % 2 == 1]
  }

  /** The number a bit string denotes, most significant bit first. */
  function BitsVal(bs: seq<bool>): nat
  {
    if bs == [] then 0 else 2 * BitsVal(bs[..|bs| - 1]) + (if bs[|bs| - 1] then 1 else 0)
  }

  function Zeros(n: nat): (r: seq<bool>)
    ensures |r| == n
  {
    seq(n, _ => false)
  }

  lemma {:induction false} BitsValAppend(a: seq<bool>, b: seq<bool>)
    ensures BitsVal(a + b) == BitsVal(a) * Pow2(|b|) + BitsVal(b)
  {
    if b == [] {
      assert a + b == a;
    } else {
      var b' := b[..|b| - 1];
      var bit := if b[|b| - 1] then 1 else 0;
      assert (a + b)[..|a + b| - 1] == a + b';
      BitsValAppend(a, b');
      Distribute(BitsVal(a), Pow2(|b'|), BitsVal(b'), 2);
    }
  }

  /** Concatenation regrouped to the right. */
  lemma Assoc<T>(a: seq<T>, b: seq<T>, t: seq<T>)
    ensures a + b + t == a + (b + t)
  {
  }

  /** Multiplying a sum through: (V * W + c) * P == V * (W * P) + c * P. */
  lemma Distribute(V: int, W: int, c: int, P: int)
    ensures (V * W + c) * P == V * (W * P) + c * P
  {}

  lemma {:induction false} BitsValBound(bs: seq<bool>)
    ensures BitsVal(bs) < Pow2(|bs|)
  {
    if bs != [] {
      BitsValBound(bs[..|bs| - 1]);
    }
  }

  lemma {:induction false} NatBitsVal(v: nat, n: nat)
    ensures BitsVal(NatBits(v, n)) == v % Pow2(n)
  {
    if n > 0 {
      var bs := NatBits(v, n);
      assert bs[..n - 1] == NatBits(v / 2, n - 1);
      NatBitsVal(v / 2, n - 1);
      DivDiv(v, 2, Pow2(n - 1));
      var y := v % Pow2(n);
      assert y == 2 * (y / 2) + y % 2;
    }
  }

  /** A bit string is the NatBits of its own value: a string is determined by its value and length. */
  lemma {:induction false} BitsValNatBits(bs: seq<bool>)
    ensures NatBits(BitsVal(bs), |bs|) == bs
  {
    if bs != [] {
      var bs' := bs[..|bs| - 1];
      var bit := if bs[|bs| - 1] then 1 else 0;
      DivMod(BitsVal(bs'), bit, 2);
      BitsValNatBits(bs');
    }
  }

  lemma NatBitsMod(v: nat, n: nat)
    ensures NatBits(v, n) == NatBits(v % Pow2(n), n)
  {
    BitsValNatBits(NatBits(v, n));
    NatBitsVal(v, n);
  }

  /** The a + b low bits of v are its a bits above position b followed by its b lowest bits. */
  lemma NatBitsSplitAt(v: nat, n: nat, a: nat, b: nat)
    requires n == a + b
    ensures NatBits(v, n) == NatBits(Hi(v, b), a) + NatBits(Lo(v, b), b)
  {
    var A, B := Pow2(a), Pow2(b);
    var hi, lo := NatBits(Hi(v, b), a), NatBits(Lo(v, b), b);
    assert Hi(v, b) == v / B && Lo(v, b) == v % B;
    assert BitsVal(hi + lo) == v % Pow2(n) by {
      assert BitsVal(hi + lo) == BitsVal(hi) * B + BitsVal(lo) by { BitsValAppend(hi, lo); }
      assert BitsVal(hi) == (v / B) % A by { NatBitsVal(Hi(v, b), a); }
      assert BitsVal(lo) == (v % B) % B by { NatBitsVal(Lo(v, b), b); }
      assert Pow2(n) == B * A by { Pow2Add(b, a); }
      SplitValue(v, B, A);
    }
    BitsValNatBits(hi + lo);
    NatBitsMod(v, n);
  }

  lemma SplitValue(v: nat, B: nat, A: nat)
    requires A > 0 && B > 0
    ensures ((v / B) % A) * B + (v % B) % B == v % (B * A)
  {
    DivDiv(v, B, A);
    DivDiv(v, B, 1);
    var y := v % (B * A);
    assert y == (y / B) * B + y % B;
  }

  /** Values below 2^n survive a round trip through an n-bit string. */
  lemma NatBitsRoundTrip(v: nat, n: nat)
    requires v < Pow2(n)
    ensures BitsVal(NatBits(v, n)) == v
  {
    NatBitsVal(v, n);
  }

  lemma NatBitsZero(n: nat)
    ensures NatBits(0, n) == Zeros(n)
  {
    BitsValNatBits(Zeros(n));
    ZerosVal(n);
  }

  lemma {:induction false} ZerosVal(n: nat)
    ensures BitsVal(Zeros(n)) == 0
  {
    if n > 0 {
      assert Zeros(n)[..n - 1] == Zeros(n - 1);
      ZerosVal(n - 1);
    }
  }

  // ---------------------------------------------------------------------------
  // The C operators on WORD

  /** C `x | y` on unsigned values. */
  function BitOr(x: nat, y: nat): nat
    decreases x + y
  {
    if x == 0 then y
    else if y == 0 then x
    else 2 * BitOr(x / 2, y / 2) + (if x % 2 == 1 || y % 2 == 1 then 1 else 0)
  }

  /** C `x & y` on unsigned values. */
  function BitAnd(x: nat, y: nat): nat
    decreases x + y
  {
    if x == 0 || y == 0 then 0
    else 2 * BitAnd(x / 2, y / 2) + (if x % 2 == 1 && y % 2 == 1 then 1 else 0)
  }

  /** C `x << k` on a WORD: bits shifted past bit 31 are lost.  Shifts of 32 or more are undefined in C. */
  function Shl(x: Word, k: nat): Word
    requires k < WSIZE
  {
    (x * Pow2(k)) % WORD_LIMIT
  }

  /** C `x >> k` on a WORD. */
  function Shr(x: Word, k: nat): (r: Word)
    requires k < WSIZE
    ensures r <= x
    ensures r * Pow2(k) <= x < r * Pow2(k) + Pow2(k)
  {
    DivFacts(x, Pow2(k));
    x / Pow2(k)
  }

  /** Or-ing a value into zero low-order bits is addition. */
  lemma {:induction false} OrDisjoint(a: nat, b: nat, k: nat)
    requires b < Pow2(k)
    ensures BitOr(a * Pow2(k), b) == a * Pow2(k) + b
  {
    var x := a * Pow2(k);
    if k > 0 && x != 0 && b != 0 {
      assert x == (a * Pow2(k - 1)) * 2;
      DivMod(a * Pow2(k - 1), 0, 2);
      DivMod(b / 2, b % 2, 2);
      OrDisjoint(a, b / 2, k - 1);
    }
  }

  /** Masking with `(1 << k) - 1` keeps the k low-order bits. */
  lemma {:induction false} AndLowMask(x: nat, k: nat)
    ensures BitAnd(x, Pow2(k) - 1) == x % Pow2(k)
    decreases k, 1
  {
    if k > 0 && x != 0 {
      AndLowStep(x, k);
    } else if k == 0 {
      assert Pow2(k) - 1 == 0 && x % Pow2(k) == 0;
    } else {
      assert BitAnd(x, Pow2(k) - 1) == 0 && x % Pow2(k) == 0;
    }
  }

  /** The inductive step of `AndLowMask`: the low bit of x, then its upper bits masked one bit narrower. */
  lemma {:induction false} AndLowStep(x: nat, k: nat)
    requires k > 0 && x != 0
    ensures BitAnd(x, Pow2(k) - 1) == x % Pow2(k)
    decreases k, 0
  {
    var P, pk := Pow2(k - 1), Pow2(k);
    assert pk == 2 * P;
    MaskHalf(P, pk - 1);
    BitAndOdd(x, pk - 1);
    AndLowMask(x / 2, k - 1);
    AndLowLink(x, P, pk, BitAnd(x, pk - 1), BitAnd(x / 2, P - 1));
  }

  /** The arithmetic of one step of `AndLowMask`, on plain values. */
  lemma AndLowLink(x: nat, P: nat, pk: nat, whole: int, inner: int)
    requires P >= 1 && pk == 2 * P
    requires whole == 2 * inner + x % 2 && inner == (x / 2) % P
    ensures whole == x % pk
  {
    RecombineLow(x, P);
  }

  /** A mask 2P - 1 is odd and halves to P - 1. */
  lemma MaskHalf(P: nat, m: int)
    requires P >= 1 && m == 2 * P - 1
    ensures m / 2 == P - 1 && m % 2 == 1
  {
    assert m == (P - 1) * 2 + 1;
    DivMod(P - 1, 1, 2);
  }

  /** One step of `BitAnd` against an odd mask: the low bit of x is kept. */
  lemma BitAndOdd(x: nat, m: nat)
    requires x != 0 && m % 2 == 1
    ensures BitAnd(x, m) == 2 * BitAnd(x / 2, m / 2) + x % 2
  {
  }

  lemma RecombineLow(x: nat, P: nat)
    requires P >= 1
    ensures 2 * ((x / 2) % P) + x % 2 == x % (2 * P)
  {
    DivDiv(x, 2, P);
    var y := x % (2 * P);
    assert y == 2 * (y / 2) + y % 2;
  }

  // ---------------------------------------------------------------------------
  // Streams of words

  /** The bits of a word stream, each word most significant bit first. */
  function WordsBits(ws: seq<Word>): (r: seq<bool>)
    ensures |r| == WSIZE * |ws|
  {
    if ws == [] then [] else NatBits(ws[0], WSIZE) + WordsBits(ws[1..])
  }

  lemma {:induction false} WordsBitsAppend(a: seq<Word>, b: seq<Word>)
    ensures WordsBits(a + b) == WordsBits(a) + WordsBits(b)
  {
    if a == [] {
      assert a + b == b;
    } else {
      assert (a + b)[1..] == a[1..] + b;
      WordsBitsAppend(a[1..], b);
    }
  }
}
