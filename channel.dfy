/**
 * main.c `send` and `receive`: codes of varying width packed into a stream
 * of WORDs, most significant bit first.
 *
 * The static variables of each function become the fields of a class; the
 * file becomes the sequence of words written (`BitWriter.out`) or the
 * sequence of words still to be read (`BitReader.input` from `pos` on).
 * The writer is specified by the bits it has accepted (`Sent`), the reader
 * by the bits it has not yet delivered (`Remaining`).
 */
module Channel {
  import opened Bits

  lemma DivBound(c: nat, A: nat, B: nat)
    requires B > 0 && c < A * B
    ensures c / B < A
  {
    if c / B >= A {
      MulLe(A, c / B, B);
    }
  }

  lemma MulAddBound(a: nat, A: nat, b: nat, B: nat)
    requires a < A && b < B
    ensures a * B + b < A * B
  {
    MulLe(a, A - 1, B);
  }

  lemma ShiftedLow(A: int, lo: int, U: int, R: int)
    requires A >= 0 && U >= 1 && 0 <= lo < R
    ensures (A * R + lo) % (U * R) == (A % U) * R + lo
  {
    var q, a := A / U, A % U;
    assert A * R + lo == q * (U * R) + (a * R + lo) by {
      assert A == q * U + a;
      Distribute(q, U, a, R);
    }
    MulAddBound(a, U, lo, R);
    DivMod(q, a * R + lo, U * R);
  }

  lemma LowBitsOfShifted(A: nat, lo: nat, u: nat, r: nat, n: nat)
    requires lo < Pow2(r) && n == u + r
    ensures (A * Pow2(r) + lo) % Pow2(n) == Lo(A, u) * Pow2(r) + lo
  {
    Pow2Add(u, r);
    ShiftedLow(A, lo, Pow2(u), Pow2(r));
  }

  // ---------------------------------------------------------------------------
  // send

  lemma ProductFits(c: int, W: int, P: int, N: int, L: int)
    requires 0 <= c < W && P > 0 && N == W * P <= L
    ensures 0 <= c * P < N && (c * P) % L == c * P
  {
    MulAddBound(c, W, 0, P);
  }

  /** A w-bit code shifted up by s within a word, with no bits lost. */
  lemma ShlFits(c: Word, w: nat, s: nat, n: nat)
    requires c < Pow2(w) && n == w + s <= WSIZE && s < WSIZE
    ensures Shl(c, s) == c * Pow2(s) < Pow2(n)
  {
    Pow2Add(w, s);
    Pow2Bound(n);
    ProductFits(c, Pow2(w), Pow2(s), Pow2(n), WORD_LIMIT);
  }

  /** Bits placed at the top of a word, above s zero bits, fit in the word. */
  lemma TopFits(p: seq<bool>, s: nat)
    requires |p| + s == WSIZE
    ensures BitsVal(p) * Pow2(s) < WORD_LIMIT
  {
    BitsValBound(p);
    Pow2Add(|p|, s);
    Pow2Word();
    MulAddBound(BitsVal(p), Pow2(|p|), 0, Pow2(s));
  }

  /** Appending a w-bit code to p, scaled by 2^s. */
  lemma AppendScaled(p: seq<bool>, c: nat, w: nat, s: nat, n: nat)
    requires c < Pow2(w) && n == w + s
    ensures BitsVal(p + NatBits(c, w)) * Pow2(s) == BitsVal(p) * Pow2(n) + c * Pow2(s)
  {
    assert BitsVal(p + NatBits(c, w)) == BitsVal(p) * Pow2(w) + c by {
      BitsValAppend(p, NatBits(c, w));
      NatBitsRoundTrip(c, w);
    }
    Pow2Add(w, s);
    Distribute(BitsVal(p), Pow2(w), c, Pow2(s));
  }

  /** `buf |= cd << (bits_free - bit_width)` when the code fits below the pending bits. */
  lemma PackBelow(p: seq<bool>, bf: nat, c: Word, w: nat, buf: Word)
    requires 1 <= w < bf <= WSIZE && |p| == WSIZE - bf && c < Pow2(w)
    requires buf == Scaled(BitsVal(p), bf)
    ensures BitOr(buf, Shl(c, bf - w)) == Scaled(BitsVal(p + NatBits(c, w)), bf - w) < WORD_LIMIT
  {
    var s := bf - w;
    ScaledMul(BitsVal(p), bf);
    ScaledMul(BitsVal(p + NatBits(c, w)), s);
    ShlFits(c, w, s, bf);
    OrDisjoint(BitsVal(p), c * Pow2(s), bf);
    AppendScaled(p, c, w, s, bf);
    TopFits(p + NatBits(c, w), s);
  }

  /** Pending bits p, followed by the bf bits of lo, make up a full word. */
  lemma WordOfTop(p: seq<bool>, bf: nat, lo: nat, x: nat)
    requires 1 <= bf <= WSIZE && |p| == WSIZE - bf && lo < Pow2(bf)
    requires x == Scaled(BitsVal(p), bf) + lo
    ensures x < WORD_LIMIT && NatBits(x, WSIZE) == p + NatBits(lo, bf)
  {
    var V, B := BitsVal(p), Pow2(bf);
    assert x == V * B + lo by { ScaledMul(V, bf); }
    assert x < WORD_LIMIT by {
      BitsValBound(p);
      Pow2Add(WSIZE - bf, bf);
      Pow2Word();
      MulAddBound(V, Pow2(WSIZE - bf), lo, B);
    }
    assert Hi(x, bf) == V && Lo(x, bf) == lo by { DivMod(V, lo, B); }
    var top := NatBits(V, WSIZE - bf);
    assert top == p by { BitsValNatBits(p); }
    calc {
      NatBits(x, WSIZE);
    == { NatBitsSplitAt(x, WSIZE, WSIZE - bf, bf); }
      top + NatBits(lo, bf);
    ==
      p + NatBits(lo, bf);
    }
  }

  /** A w-bit code is its high bf bits followed by its low r bits. */
  lemma CodeSplit(c: Word, bf: nat, r: nat, w: nat)
    requires w == bf + r && r < WSIZE && c < Pow2(w)
    ensures Shr(c, r) < Pow2(bf)
    ensures NatBits(c, w) == NatBits(Shr(c, r), bf) + NatBits(Lo(c, r), r)
  {
    Pow2Add(bf, r);
    DivBound(c, Pow2(bf), Pow2(r));
    NatBitsSplitAt(c, w, bf, r);
  }

  /** The word written when the code fills the pending bits: its bits, and what is left over. */
  lemma PackSpill(p: seq<bool>, bf: nat, c: Word, w: nat, buf: Word)
    requires 1 <= bf <= w <= WSIZE && |p| == WSIZE - bf && c < Pow2(w)
    requires buf == Scaled(BitsVal(p), bf)
    ensures BitOr(buf, Shr(c, w - bf)) < WORD_LIMIT
    ensures NatBits(BitOr(buf, Shr(c, w - bf)), WSIZE) + NatBits(Lo(c, w - bf), w - bf) == p + NatBits(c, w)
  {
    var r := w - bf;
    CodeSplit(c, bf, r, w);
    var lo := Shr(c, r);
    var word := BitOr(buf, lo);
    assert word == buf + lo by {
      ScaledMul(BitsVal(p), bf);
      OrDisjoint(BitsVal(p), lo, bf);
    }
    WordOfTop(p, bf, lo, word);
    var hi, rest := NatBits(lo, bf), NatBits(Lo(c, r), r);
    assert NatBits(word, WSIZE) == p + hi;
    assert NatBits(c, w) == hi + rest;
    assert (p + hi) + rest == p + (hi + rest);
  }

  /** What `buf` becomes after a word is written: the low r bits of the code, at the top. */
  lemma SpillShift(c: Word, r: nat)
    requires r < WSIZE
    ensures (if r == 0 then 0 else Shl(c, WSIZE - r)) == Scaled(BitsVal(NatBits(Lo(c, r), r)), WSIZE - r)
  {
    ScaledMul(BitsVal(NatBits(Lo(c, r), r)), WSIZE - r);
    if r == 0 {
      assert NatBits(Lo(c, r), r) == [];
    } else {
      MulModAt(c, WSIZE - r, r, WSIZE);
      Pow2Word();
      NatBitsRoundTrip(Lo(c, r), r);
    }
  }

  lemma WordsSnoc(ws: seq<Word>, x: Word)
    ensures WordsBits(ws + [x]) == WordsBits(ws) + NatBits(x, WSIZE)
  {
    WordsBitsAppend(ws, [x]);
    assert WordsBits([x]) == NatBits(x, WSIZE) + WordsBits([]);
  }

  /** A writer's buffer holds its pending bits at the top, above bf free bits. */
  ghost predicate Holds(buf: int, bf: int, p: seq<bool>)
  {
    1 <= bf <= WSIZE && |p| == WSIZE - bf && buf == Scaled(BitsVal(p), bf)
  }

  /** The state after a spill: the word written, and the code's low bits in the new buffer. */
  lemma SpillState(ws: seq<Word>, p: seq<bool>, bf: int, c: Word, w: int, buf: Word)
    requires Holds(buf, bf, p) && bf <= w <= WSIZE && c < Pow2(w)
    ensures var r := w - bf;
      && Shr(c, r) == Hi(c, r)
      && BitOr(buf, Hi(c, r)) < WORD_LIMIT
      && Holds(if r == 0 then 0 else Shl(c, WSIZE - r), WSIZE - r, NatBits(Lo(c, r), r))
      && WordsBits(ws + [BitOr(buf, Hi(c, r))]) + NatBits(Lo(c, r), r) == WordsBits(ws) + p + NatBits(c, w)
  {
    var r := w - bf;
    PackSpill(p, bf, c, w, buf);
    SpillShift(c, r);
    var word := BitOr(buf, Hi(c, r));
    WordsSnoc(ws, word);
    Assoc(WordsBits(ws), NatBits(word, WSIZE), NatBits(Lo(c, r), r));
    Assoc(WordsBits(ws), p, NatBits(c, w));
  }

  class BitWriter {
    /** The words written to the file so far. */
    var out: seq<Word>
    var buf: Word
    var bitsFree: int
    /** The bits accepted but not yet written: the top of `buf`. */
    ghost var pending: seq<bool>

    ghost predicate Valid()
      reads this
    {
      Holds(buf, bitsFree, pending)
    }

    /** Every bit accepted so far, in order. */
    ghost function Sent(): seq<bool>
      reads this
    {
      WordsBits(out) + pending
    }

    /** `bits_free = WSIZE`, `buf = 0`, nothing written. */
    constructor ()
      ensures Valid() && out == [] && pending == [] && bitsFree == WSIZE && buf == 0
      ensures Sent() == []
    {
      out, buf, bitsFree, pending := [], 0, WSIZE, [];
      assert BitsVal([]) == 0;
      ScaledZero(WSIZE);
    }

    /**
     * `send(cd, bit_width)`: append the bit_width low bits of cd, writing a
     * word whenever one fills up.  `cd < 0` flushes: the pending bits are
     * written out as one word padded with zero bits (a zero word when none
     * are pending).
     */
    method Send(cd: int, bitWidth: int)
      requires Valid()
      requires cd >= 0 ==> 1 <= bitWidth < WSIZE && cd < Pow2(bitWidth)
      modifies this
      ensures Valid()
      ensures |out| >= |old(out)| && out[..|old(out)|] == old(out)
      ensures cd >= 0 ==> Sent() == old(Sent()) + NatBits(cd, bitWidth)
      ensures cd >= 0 ==> |out| == |old(out)| + (if old(bitsFree) > bitWidth then 0 else 1)
      ensures cd < 0 ==>
        && pending == [] && bitsFree == WSIZE && buf == 0 && |out| == |old(out)| + 1
        && WordsBits(out) == old(Sent()) + Zeros(old(bitsFree))
    {
      var w: int := bitWidth;
      if cd < 0 {
        w := bitsFree;
      } else {
        Pow2Monotone(w, WSIZE);
        Pow2Word();
      }
      var c: Word := if cd < 0 then 0 else cd;
      if bitsFree > w {
        Pack(c, w);
      } else {
        var word := Spill(c, w);
        if cd < 0 {
          NatBitsZero(w);
          assert BitsVal(pending) == 0;
          ScaledZero(WSIZE);
        }
      }
    }

    /** The code fits below the pending bits: `buf |= cd << (bits_free - bit_width)`. */
    method Pack(c: Word, w: int)
      requires Valid() && 1 <= w < bitsFree && c < Pow2(w)
      modifies this
      ensures Valid() && out == old(out) && bitsFree == old(bitsFree) - w
      ensures pending == old(pending) + NatBits(c, w)
    {
      PackBelow(pending, bitsFree, c, w, buf);
      var buf' := BitOr(buf, Shl(c, bitsFree - w));
      var bf' := bitsFree - w;
      ghost var p' := pending + NatBits(c, w);
      assert Holds(buf', bf', p');
      buf, bitsFree, pending := buf', bf', p';
    }

    /**
     * The code fills the word: its high bits complete the word, which is
     * written, and its w - bits_free low bits start the next one.
     */
    method Spill(c: Word, w: int) returns (word: Word)
      requires Valid() && bitsFree <= w <= WSIZE && c < Pow2(w)
      modifies this
      ensures Valid() && out == old(out) + [word]
      ensures bitsFree == WSIZE - (w - old(bitsFree)) && pending == NatBits(Lo(c, w - old(bitsFree)), w - old(bitsFree))
      ensures WordsBits(out) + pending == old(WordsBits(out) + pending) + NatBits(c, w)
    {
      var r := w - bitsFree;
      SpillState(out, pending, bitsFree, c, w, buf);
      word := BitOr(buf, Shr(c, r));
      var rest: Word := if r == 0 then 0 else Shl(c, WSIZE - r);
      ghost var left := NatBits(Lo(c, r), r);
      var bf' := WSIZE - r;
      assert Holds(rest, bf', left);
      out, buf, bitsFree, pending := out + [word], rest, bf', left;
    }
  }

  // ---------------------------------------------------------------------------
  // receive

  /** `buf >> (bits_used - bit_width)` masked: the next bit_width of the bits_used unread ones. */
  lemma TakeLow(b: Word, u: nat, w: nat)
    requires w <= u < WSIZE
    ensures BitAnd(Shr(b, u - w), Pow2(w) - 1) == BitsVal(NatBits(b, u)[..w])
    ensures NatBits(b, u)[w..] == NatBits(b, u - w)
  {
    NatBitsSplitAt(b, u, w, u - w);
    NatBitsVal(Hi(b, u - w), w);
    AndLowMask(Shr(b, u - w), w);
    NatBitsMod(b, u - w);
  }

  /** The top r bits of a fresh word, and the rest. */
  lemma TakeSpillParts(nxt: Word, r: nat)
    requires 1 <= r < WSIZE
    ensures Shr(nxt, WSIZE - r) < Pow2(r)
    ensures NatBits(nxt, WSIZE) == NatBits(Shr(nxt, WSIZE - r), r) + NatBits(nxt, WSIZE - r)
  {
    Pow2Add(r, WSIZE - r);
    Pow2Word();
    DivBound(nxt, Pow2(r), Pow2(WSIZE - r));
    NatBitsSplitAt(nxt, WSIZE, r, WSIZE - r);
    NatBitsMod(nxt, WSIZE - r);
  }

  /** The value of the else branch of `receive`, as a number. */
  lemma TakeSpillValue(b: Word, u: nat, lo: nat, r: nat, w: nat)
    requires 1 <= r && w == u + r && w <= 30 && lo < Pow2(r)
    ensures BitAnd(BitOr(Shl(b, r), lo), Pow2(w) - 1) == Lo(b, u) * Pow2(r) + lo
  {
    var A, R := Lo(b, WSIZE - r), Pow2(r);
    assert Shl(b, r) == A * R by {
      MulModAt(b, r, WSIZE - r, WSIZE);
      Pow2Word();
    }
    assert BitOr(A * R, lo) == A * R + lo by { OrDisjoint(A, lo, r); }
    assert BitAnd(A * R + lo, Pow2(w) - 1) == (A * R + lo) % Pow2(w) by { AndLowMask(A * R + lo, w); }
    assert (A * R + lo) % Pow2(w) == Lo(A, u) * R + lo by { LowBitsOfShifted(A, lo, u, r, w); }
    assert Lo(A, u) == Lo(b, u) by { LoLo(b, u, WSIZE - r); }
  }

  /**
   * The else branch of `receive`: the bits_used unread bits of the old
   * word shifted up, or-ed with the top of the next word, masked.
   */
  lemma TakeSpill(b: Word, u: nat, nxt: Word, w: nat)
    requires u < w <= 30
    ensures BitAnd(BitOr(Shl(b, w - u), Shr(nxt, WSIZE - (w - u))), Pow2(w) - 1)
         == BitsVal((NatBits(b, u) + NatBits(nxt, WSIZE))[..w])
    ensures (NatBits(b, u) + NatBits(nxt, WSIZE))[w..] == NatBits(nxt, WSIZE - (w - u))
  {
    var r := w - u;
    var lo := Shr(nxt, WSIZE - r);
    TakeSpillParts(nxt, r);
    TakeSpillValue(b, u, lo, r, w);
    var hi := NatBits(b, u);
    assert (hi + NatBits(nxt, WSIZE))[..w] == hi + NatBits(lo, r);
    assert (hi + NatBits(nxt, WSIZE))[w..] == NatBits(nxt, WSIZE - r);
    BitsValAppend(hi, NatBits(lo, r));
    NatBitsVal(b, u);
    NatBitsRoundTrip(lo, r);
  }

  /** The unread words from position i on: the word at i, then the rest. */
  lemma WordsFrom(ws: seq<Word>, i: nat)
    requires i < |ws|
    ensures WordsBits(ws[i..]) == NatBits(ws[i], WSIZE) + WordsBits(ws[i + 1..])
  {
    assert ws[i..] == [ws[i]] + ws[i + 1..];
  }

  /** The else branch of `receive` on the whole of the unread bits. */
  lemma RefillState(b: Word, u: nat, nxt: Word, later: seq<bool>, w: nat)
    requires u < w <= 30
    ensures var R := NatBits(b, u) + (NatBits(nxt, WSIZE) + later);
      && |R| >= w
      && BitAnd(BitOr(Shl(b, w - u), Shr(nxt, WSIZE - (w - u))), Pow2(w) - 1) == BitsVal(R[..w])
      && R[w..] == NatBits(nxt, WSIZE - (w - u)) + later
  {
    var head := NatBits(b, u) + NatBits(nxt, WSIZE);
    var R := NatBits(b, u) + (NatBits(nxt, WSIZE) + later);
    TakeSpill(b, u, nxt, w);
    assert R == head + later;
    assert R[..w] == head[..w];
    assert R[w..] == head[w..] + later;
  }

  class BitReader {
    /** The file's words. */
    const input: seq<Word>
    /** How many of them have been read. */
    var pos: nat
    var buf: Word
    var bitsUsed: int

    ghost predicate Valid()
      reads this
    {
      0 <= bitsUsed < WSIZE && pos <= |input|
    }

    /** The bits not yet delivered: the low bits_used bits of `buf`, then the unread words. */
    ghost function Remaining(): seq<bool>
      reads this
      requires Valid()
    {
      NatBits(buf, bitsUsed) + WordsBits(input[pos..])
    }

    /** `bits_used = 0`, `buf` zero-initialised, reading from the start of the file. */
    constructor (input: seq<Word>)
      ensures Valid() && this.input == input && pos == 0 && bitsUsed == 0 && buf == 0
      ensures Remaining() == WordsBits(input)
    {
      this.input := input;
      pos, buf, bitsUsed := 0, 0, 0;
      assert input[0..] == input;
    }

    /**
     * `receive(bit_width)`: the next bit_width bits as a number, reading a
     * word from the file when the buffered bits run short; -1 when the file
     * ends first.
     */
    method Receive(bitWidth: int) returns (cd: int)
      requires Valid() && 1 <= bitWidth <= 30
      modifies this
      ensures Valid()
      ensures cd == -1 <==> |old(Remaining())| < bitWidth
      ensures cd == -1 ==> unchanged(this)
      ensures cd != -1 ==>
        && 0 <= cd < Pow2(bitWidth)
        && cd == BitsVal(old(Remaining())[..bitWidth])
        && Remaining() == old(Remaining())[bitWidth..]
    {
      if bitsUsed >= bitWidth {
        cd := TakeBuffered(bitWidth);
      } else if pos == |input| {
        cd := -1;
      } else {
        cd := TakeRefilled(bitWidth);
      }
    }

    /** Enough bits are buffered: `(buf >> (bits_used - bit_width)) & mask`. */
    method TakeBuffered(w: int) returns (cd: int)
      requires Valid() && 1 <= w <= bitsUsed
      modifies this
      ensures Valid() && pos == old(pos) && |old(Remaining())| >= w
      ensures 0 <= cd < Pow2(w)
      ensures cd == BitsVal(old(Remaining())[..w]) && Remaining() == old(Remaining())[w..]
    {
      ghost var R := Remaining();
      ghost var rest := WordsBits(input[pos..]);
      var x := Shr(buf, bitsUsed - w);
      TakeLow(buf, bitsUsed, w);
      assert R[..w] == NatBits(buf, bitsUsed)[..w];
      assert R[w..] == NatBits(buf, bitsUsed)[w..] + rest;
      bitsUsed := bitsUsed - w;
      cd := BitAnd(x, Pow2(w) - 1);
      BitsValBound(R[..w]);
    }

    /**
     * Too few bits are buffered: they are the high bits of the code, and the
     * next word of the file supplies the rest and becomes the buffer.
     */
    method TakeRefilled(w: int) returns (cd: int)
      requires Valid() && bitsUsed < w <= 30 && pos < |input|
      modifies this
      ensures Valid() && pos == old(pos) + 1 && |old(Remaining())| >= w
      ensures 0 <= cd < Pow2(w)
      ensures cd == BitsVal(old(Remaining())[..w]) && Remaining() == old(Remaining())[w..]
    {
      ghost var R := Remaining();
      var nxt := input[pos];
      ghost var later := WordsBits(input[pos + 1..]);
      WordsFrom(input, pos);
      RefillState(buf, bitsUsed, nxt, later, w);
      var y := BitOr(Shl(buf, w - bitsUsed), Shr(nxt, WSIZE - (w - bitsUsed)));
      cd := BitAnd(y, Pow2(w) - 1);
      var u' := WSIZE - (w - bitsUsed);
      buf, pos, bitsUsed := nxt, pos + 1, u';
      BitsValBound(R[..w]);
    }
  }
}
