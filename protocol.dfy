/**
 * The width protocol of main.c as values.
 *
 * `compress` puts every reported code on the wire as `cd + 2`, so that the
 * values 0 and 1 are free for the control symbols DEC_WIDTH and INC_WIDTH.
 * Before a value that does not fit the current width it sends INC_WIDTH at
 * that width and widens by one bit, as often as needed; after a reset of the
 * table it narrows back to 8 bits with one DEC_WIDTH per bit.  `AllSyms`
 * lists the symbols `compress` sends, each with the width it is sent at, and
 * `CompressBits` is the bit string of the file it writes.  `Run` is what
 * `decompress` does with a bit string.  The theorem `RoundTrip` says that
 * `Run` of `CompressBits(s)` yields `s`.
 */
module Protocol {
  import opened Bits
  import opened LzwModel

  /** Control symbols (main.c). */
  const DEC_WIDTH: nat := 0
  const INC_WIDTH: nat := 1
  /** The width both ends start at, and that a reset returns to. */
  const MIN_WIDTH: nat := 8
  /** The widest width `receive` is modelled at: `1 << bit_width` must stay below 2^31. */
  const MAX_READ: nat := 30

  datatype Option<T> = None | Some(value: T)

  /** One call `send(value, width)`. */
  datatype Sym = Sym(value: nat, width: nat)

  /** Reports `compress` can put on the wire: ready codes, EMPTY included. */
  predicate Sendable(rs: seq<Report>)
  {
    forall i :: 0 <= i < |rs| ==> rs[i].Ready? && rs[i].cd >= EMPTY
  }

  lemma EncodeSendable(st: EncState, s: seq<Byte>)
    requires EncOk(st)
    ensures Sendable(EncodeFrom(st, s))
  {
    var rs := EncodeFrom(st, s);
    EncodeFromCodes(st, s);
    forall i | 0 <= i < |rs| ensures rs[i].Ready? && rs[i].cd >= EMPTY {
      assert rs[i].Ready? && (if st.cur == EMPTY && s == [] then EMPTY else 0) <= rs[i].cd;
    }
  }

  // ---------------------------------------------------------------------------
  // Sending side

  /** The width `compress` has reached when `v` first fits, starting from `w`. */
  function WidthFor(v: nat, w: nat): (r: nat)
    ensures r >= w && v < Pow2(r)
    ensures v < Pow2(w) ==> r == w
    decreases v - Pow2(w)
  {
    if v < Pow2(w) then w else WidthFor(v, w + 1)
  }

  /** No narrower width from `w` on holds `v`: the width reached is the least one that does. */
  lemma {:induction false} WidthForLeast(v: nat, w: nat)
    ensures WidthFor(v, w) > w ==> Pow2(WidthFor(v, w) - 1) <= v
    decreases v - Pow2(w)
  {
    if v >= Pow2(w) {
      WidthForLeast(v, w + 1);
    }
  }

  /** A value below 2^m never widens past m. */
  lemma {:induction false} WidthForBound(v: nat, w: nat, m: nat)
    requires v < Pow2(m) && w <= m
    ensures WidthFor(v, w) <= m
    decreases m - w
  {
    if v >= Pow2(w) {
      if w == m {
        assert false;
      }
      WidthForBound(v, w + 1, m);
    }
  }

  /** `while (cd >= next_width)`: one INC_WIDTH at each width that `v` does not fit. */
  function Incs(v: nat, w: nat): seq<Sym>
    decreases v - Pow2(w)
  {
    if v < Pow2(w) then [] else [Sym(INC_WIDTH, w)] + Incs(v, w + 1)
  }

  /** `while (bit_width > 8)` after a reset: one DEC_WIDTH at each width above 8. */
  function Decs(w: nat): seq<Sym>
  {
    if w <= MIN_WIDTH then [] else [Sym(DEC_WIDTH, w)] + Decs(w - 1)
  }

  /** The value a report puts on the wire. */
  function Wire(r: Report): nat
    requires r.Ready? && r.cd >= EMPTY
  {
    r.cd + 2
  }

  /** What the body of `if (flag = code(c, &cd))` sends for one report at width `w`. */
  function Emit(r: Report, w: nat): seq<Sym>
    requires r.Ready? && r.cd >= EMPTY
  {
    var v := Wire(r);
    var w' := WidthFor(v, w);
    Incs(v, w) + [Sym(v, w')] + (if r.reset then Decs(w') else [])
  }

  /** The width after `Emit`. */
  function After(r: Report, w: nat): (w': nat)
    requires r.Ready? && r.cd >= EMPTY
  {
    var w1 := WidthFor(Wire(r), w);
    if r.reset && w1 > MIN_WIDTH then MIN_WIDTH else w1
  }

  /** All symbols sent for the reports `rs`, starting at width `w`. */
  function AllSyms(rs: seq<Report>, w: nat): seq<Sym>
    requires Sendable(rs)
    decreases |rs|
  {
    if rs == [] then [] else Emit(rs[0], w) + AllSyms(rs[1..], After(rs[0], w))
  }

  /** The width after all of `rs`. */
  function WidthAfter(rs: seq<Report>, w: nat): nat
    requires Sendable(rs)
    decreases |rs|
  {
    if rs == [] then w else WidthAfter(rs[1..], After(rs[0], w))
  }

  /** The bits of a symbol list: each value in its width, most significant bit first. */
  function SymBits(syms: seq<Sym>): seq<bool>
    decreases |syms|
  {
    if syms == [] then [] else NatBits(syms[0].value, syms[0].width) + SymBits(syms[1..])
  }

  lemma {:induction false} SymBitsAppend(a: seq<Sym>, b: seq<Sym>)
    ensures SymBits(a + b) == SymBits(a) + SymBits(b)
    decreases |a|
  {
    if a == [] {
      assert a + b == b;
    } else {
      assert (a + b)[1..] == a[1..] + b;
      SymBitsAppend(a[1..], b);
    }
  }

  lemma SymBitsOne(x: Sym)
    ensures SymBits([x]) == NatBits(x.value, x.width)
  {
    assert SymBits([x]) == NatBits(x.value, x.width) + SymBits([]);
  }

  lemma SymBitsFront(x: Sym, rest: seq<Sym>)
    ensures SymBits([x] + rest) == NatBits(x.value, x.width) + SymBits(rest)
  {
    assert ([x] + rest)[0] == x && ([x] + rest)[1..] == rest;
  }

  lemma SymBitsCons(x: Sym, rest: seq<Sym>, T: seq<bool>)
    ensures SymBits([x] + rest) + T == NatBits(x.value, x.width) + (SymBits(rest) + T)
  {
    SymBitsFront(x, rest);
    Assoc(NatBits(x.value, x.width), SymBits(rest), T);
  }

  lemma SymBits3(a: seq<Sym>, b: seq<Sym>, c: seq<Sym>)
    ensures SymBits(a + b + c) == SymBits(a) + SymBits(b) + SymBits(c)
  {
    SymBitsAppend(a + b, c);
    SymBitsAppend(a, b);
  }


  /** The flush: zero bits up to the next word boundary, a whole word when none is pending. */
  function Padded(bits: seq<bool>): (r: seq<bool>)
    ensures |r| % WSIZE == 0
    ensures |bits| < |r| <= |bits| + WSIZE
    ensures r[..|bits|] == bits && r[|bits|..] == Zeros(|r| - |bits|)
  {
    var pad := WSIZE - |bits| % WSIZE;
    var r := bits + Zeros(pad);
    assert |r| == (|bits| / WSIZE + 1) * WSIZE by {
      assert |bits| == |bits| / WSIZE * WSIZE + |bits| % WSIZE;
    }
    r
  }

  /** With `bf` bits free in the last partial word, the flush pads exactly `bf` zero bits. */
  lemma PadLength(words: nat, bf: nat, n: nat)
    requires 1 <= bf <= WSIZE && n == WSIZE * words + (WSIZE - bf)
    ensures WSIZE - n % WSIZE == bf
  {
    if bf == WSIZE {
      DivMod(words, 0, WSIZE);
      assert n == words * WSIZE + 0;
    } else {
      DivMod(words, WSIZE - bf, WSIZE);
      assert n == words * WSIZE + (WSIZE - bf);
    }
  }

  /** The bits of the file `compress(s)` writes. */
  function CompressBits(s: seq<Byte>): (r: seq<bool>)
    ensures |r| % WSIZE == 0 && |r| >= WSIZE
  {
    EncodeSendable(EncInit(), s);
    Padded(SymBits(AllSyms(Encode(s), MIN_WIDTH)))
  }

  /** A width `compress` may be at: never below 8, and codes below TABSIZE keep it within 13 bits. */
  predicate InRange(w: nat)
  {
    MIN_WIDTH <= w <= 13
  }

  /** A code below TABSIZE, shifted by 2, widens from an in-range width to at most 13 bits. */
  lemma CodeFits(cd: int, w: nat)
    requires EMPTY <= cd < TABSIZE && InRange(w)
    ensures InRange(WidthFor(cd + 2, w))
  {
    assert Pow2(13) == 8192;
    WidthForBound(cd + 2, w, 13);
  }

  lemma WireFits(r: Report, w: nat)
    requires r.Ready? && EMPTY <= r.cd < TABSIZE && InRange(w)
    ensures InRange(WidthFor(Wire(r), w)) && InRange(After(r, w))
  {
    assert Pow2(13) == 8192;
    WidthForBound(Wire(r), w, 13);
  }

  lemma CodesSendable(rs: seq<Report>, allowEmpty: bool)
    requires CodesBelowTab(rs, allowEmpty)
    ensures CodesBelowTab(rs, true) && Sendable(rs)
  {
    forall i | 0 <= i < |rs| ensures rs[i].Ready? && EMPTY <= rs[i].cd < TABSIZE {
      assert rs[i].Ready? && (if allowEmpty then EMPTY else 0) <= rs[i].cd < TABSIZE;
    }
  }

  lemma CodesTail(rs: seq<Report>, allowEmpty: bool)
    requires CodesBelowTab(rs, allowEmpty) && rs != []
    ensures CodesBelowTab(rs[1..], allowEmpty)
  {
    var rest := rs[1..];
    forall i | 0 <= i < |rest| ensures rest[i].Ready? && (if allowEmpty then EMPTY else 0) <= rest[i].cd < TABSIZE {
      assert rest[i] == rs[i + 1];
    }
  }

  /** The width `compress` ends at stays within 8..13. */
  lemma {:induction false} WidthAfterRange(rs: seq<Report>, w: nat)
    requires CodesBelowTab(rs, true) && InRange(w)
    ensures Sendable(rs)
    ensures InRange(WidthAfter(rs, w))
    decreases |rs|
  {
    CodesSendable(rs, true);
    if rs != [] {
      WireFits(rs[0], w);
      CodesTail(rs, true);
      WidthAfterRange(rs[1..], After(rs[0], w));
    }
  }

  /** Every symbol `compress` sends fits its width, and the width stays within 8..13. */
  lemma {:induction false} AllSymsFit(rs: seq<Report>, w: nat)
    requires CodesBelowTab(rs, true) && InRange(w)
    ensures Sendable(rs)
    ensures forall i :: 0 <= i < |AllSyms(rs, w)| ==>
      InRange(AllSyms(rs, w)[i].width) && AllSyms(rs, w)[i].value < Pow2(AllSyms(rs, w)[i].width)
    decreases |rs|
  {
    CodesSendable(rs, true);
    if rs != [] {
      var r := rs[0];
      WireFits(r, w);
      CodesTail(rs, true);
      AllSymsFit(rs[1..], After(r, w));
      EmitFits(r, w);
    }
  }

  lemma EmitFits(r: Report, w: nat)
    requires r.Ready? && EMPTY <= r.cd < TABSIZE && InRange(w)
    ensures forall i :: 0 <= i < |Emit(r, w)| ==>
      InRange(Emit(r, w)[i].width) && Emit(r, w)[i].value < Pow2(Emit(r, w)[i].width)
  {
    var v := Wire(r);
    var w' := WidthFor(v, w);
    WireFits(r, w);
    IncsFit(v, w, w');
    DecsFit(w');
  }

  lemma {:induction false} IncsFit(v: nat, w: nat, m: nat)
    requires 1 <= w && WidthFor(v, w) <= m
    ensures |Incs(v, w)| == WidthFor(v, w) - w
    ensures forall i :: 0 <= i < |Incs(v, w)| ==>
      Incs(v, w)[i] == Sym(INC_WIDTH, w + i) && w + i < m
    decreases v - Pow2(w)
  {
    if v >= Pow2(w) {
      IncsFit(v, w + 1, m);
      var t := Incs(v, w + 1);
      forall i | 0 <= i < |Incs(v, w)| ensures Incs(v, w)[i] == Sym(INC_WIDTH, w + i) && w + i < m {
        if i > 0 {
          assert Incs(v, w)[i] == t[i - 1];
        }
      }
    }
  }

  lemma {:induction false} DecsFit(w: nat)
    ensures forall i :: 0 <= i < |Decs(w)| ==> w - i > MIN_WIDTH && Decs(w)[i] == Sym(DEC_WIDTH, w - i)
    ensures |Decs(w)| == if w > MIN_WIDTH then w - MIN_WIDTH else 0
  {
    if w > MIN_WIDTH {
      DecsFit(w - 1);
      var t := Decs(w - 1);
      assert Decs(w) == [Sym(DEC_WIDTH, w)] + t;
      forall i | 0 <= i < |Decs(w)| ensures w - i > MIN_WIDTH && Decs(w)[i] == Sym(DEC_WIDTH, w - i) {
        if i > 0 {
          assert Decs(w)[i] == t[i - 1];
        }
      }
    } else {
      assert Decs(w) == [];
    }
  }

  // ---------------------------------------------------------------------------
  // Receiving side

  /**
   * `decompress` on the bits `R` still unread, at width `w`, with decoder
   * state `d` and output `out` so far.  `None` is a stream `decompress`
   * cannot handle: a width above MAX_READ, or a code `decode` would look up
   * outside the table.  When fewer than `w` bits are left `receive` fails
   * and the output stands; a DEC_WIDTH received at width 1 ends the loop.
   */
  function Run(R: seq<bool>, w: nat, d: DecState, out: Str): (r: Option<Str>)
    requires DecOk(d) && w >= 1
    ensures r.Some? ==> out <= r.value
    decreases |R|, 1
  {
    if w > MAX_READ then None
    else if |R| < w then Some(out)
    else
      var v := BitsVal(R[..w]);
      if v == DEC_WIDTH then (if w - 1 == 0 then Some(out) else Run(R[w..], w - 1, d, out))
      else if v == INC_WIDTH then Run(R[w..], w + 1, d, out)
      else RunDecode(R, w, v - 2, d, out)
  }

  /** The `else` branch of `decompress`: `decode(cd)`, its output appended, then on with the rest. */
  function RunDecode(R: seq<bool>, w: nat, cd: int, d: DecState, out: Str): (r: Option<Str>)
    requires DecOk(d) && 1 <= w <= |R|
    ensures r.Some? ==> Populated(d, cd) && out + DecodeStep(d, cd).out <= r.value
    decreases |R|, 0
  {
    match DecodeStep(d, cd)
    case Malformed => None
    case Decoded(d', o) => Run(R[w..], w, d', out + o)
  }

  /**
   * One pass of the loop of `decompress` on an accepted stream: the width
   * is one `receive` handles; a failed `receive` ends with the output so far;
   * otherwise the received value is a width change or a code that `decode`
   * accepts, and the rest of the run goes on from there.
   */
  lemma RunOnce(R: seq<bool>, w: nat, d: DecState, out: Str)
    requires DecOk(d) && w >= 1 && Run(R, w, d, out).Some?
    ensures w <= MAX_READ
    ensures |R| < w ==> Run(R, w, d, out) == Some(out)
    ensures |R| >= w ==>
      var v := BitsVal(R[..w]);
      && (v == DEC_WIDTH && w == 1 ==> Run(R, w, d, out) == Some(out))
      && (v == DEC_WIDTH && w > 1 ==> Run(R, w, d, out) == Run(R[w..], w - 1, d, out))
      && (v == INC_WIDTH ==> Run(R, w, d, out) == Run(R[w..], w + 1, d, out))
      && (v >= 2 ==>
            && Populated(d, v - 2)
            && Run(R, w, d, out) == Run(R[w..], w, DecodeStep(d, v - 2).st, out + DecodeStep(d, v - 2).out))
  {
    if |R| >= w {
      var v := BitsVal(R[..w]);
      if v >= 2 {
        assert Run(R, w, d, out) == RunDecode(R, w, v - 2, d, out);
      }
    }
  }

  /** `receive(w)` on bits that start with `x` in `w` bits yields `x` and leaves the rest. */
  lemma ReadSym(x: nat, w: nat, T: seq<bool>)
    requires x < Pow2(w)
    ensures (NatBits(x, w) + T)[..w] == NatBits(x, w) && (NatBits(x, w) + T)[w..] == T
    ensures BitsVal((NatBits(x, w) + T)[..w]) == x
  {
    assert (NatBits(x, w) + T)[..w] == NatBits(x, w);
    NatBitsRoundTrip(x, w);
  }

  /** An INC_WIDTH received at width `w` widens to `w + 1`. */
  lemma ReadInc(w: nat, t: seq<bool>, d: DecState, out: Str)
    requires DecOk(d) && 1 <= w <= MAX_READ
    ensures Run(NatBits(INC_WIDTH, w) + t, w, d, out) == Run(t, w + 1, d, out)
  {
    assert Pow2(w) == 2 * Pow2(w - 1);
    ReadSym(INC_WIDTH, w, t);
  }

  /** A DEC_WIDTH received at width `w` above 1 narrows to `w - 1`. */
  lemma ReadDec(w: nat, t: seq<bool>, d: DecState, out: Str)
    requires DecOk(d) && 2 <= w <= MAX_READ
    ensures Run(NatBits(DEC_WIDTH, w) + t, w, d, out) == Run(t, w - 1, d, out)
  {
    ReadSym(DEC_WIDTH, w, t);
  }

  lemma IncsStep(v: nat, w: nat, T: seq<bool>, d: DecState, out: Str)
    requires DecOk(d) && 1 <= w <= MAX_READ && v >= Pow2(w)
    ensures Run(SymBits(Incs(v, w)) + T, w, d, out) == Run(SymBits(Incs(v, w + 1)) + T, w + 1, d, out)
  {
    SymBitsCons(Sym(INC_WIDTH, w), Incs(v, w + 1), T);
    ReadInc(w, SymBits(Incs(v, w + 1)) + T, d, out);
  }

  lemma {:induction false} RunIncs(v: nat, w: nat, T: seq<bool>, d: DecState, out: Str)
    requires DecOk(d) && 1 <= w && WidthFor(v, w) <= MAX_READ
    ensures Run(SymBits(Incs(v, w)) + T, w, d, out) == Run(T, WidthFor(v, w), d, out)
    decreases v - Pow2(w)
  {
    if v >= Pow2(w) {
      assert Pow2(w + 1) == 2 * Pow2(w);
      calc {
        Run(SymBits(Incs(v, w)) + T, w, d, out);
        { IncsStep(v, w, T, d, out); }
        Run(SymBits(Incs(v, w + 1)) + T, w + 1, d, out);
        { RunIncs(v, w + 1, T, d, out); }
        Run(T, WidthFor(v, w), d, out);
      }
    } else {
      assert SymBits(Incs(v, w)) + T == T by {
        assert Incs(v, w) == [];
      }
    }
  }

  lemma DecsStep(w: nat, T: seq<bool>, d: DecState, out: Str)
    requires DecOk(d) && MIN_WIDTH < w <= MAX_READ
    ensures Run(SymBits(Decs(w)) + T, w, d, out) == Run(SymBits(Decs(w - 1)) + T, w - 1, d, out)
  {
    SymBitsCons(Sym(DEC_WIDTH, w), Decs(w - 1), T);
    ReadDec(w, SymBits(Decs(w - 1)) + T, d, out);
  }

  lemma {:induction false} RunDecs(w: nat, T: seq<bool>, d: DecState, out: Str)
    requires DecOk(d) && MIN_WIDTH <= w <= MAX_READ
    ensures Run(SymBits(Decs(w)) + T, w, d, out) == Run(T, MIN_WIDTH, d, out)
  {
    if w > MIN_WIDTH {
      calc {
        Run(SymBits(Decs(w)) + T, w, d, out);
        { DecsStep(w, T, d, out); }
        Run(SymBits(Decs(w - 1)) + T, w - 1, d, out);
        { RunDecs(w - 1, T, d, out); }
        Run(T, MIN_WIDTH, d, out);
      }
    } else {
      assert SymBits(Decs(w)) + T == T by {
        assert Decs(w) == [];
      }
    }
  }

  /** A wire value `cd + 2` is handed to `decode` as `cd`. */
  lemma RunCode(v: nat, w: nat, T: seq<bool>, d: DecState, out: Str)
    requires DecOk(d) && 1 <= w <= MAX_READ && 2 <= v < Pow2(w) && Populated(d, v - 2)
    ensures Run(NatBits(v, w) + T, w, d, out)
         == Run(T, w, DecodeStep(d, v - 2).st, out + DecodeStep(d, v - 2).out)
  {
    ReadSym(v, w, T);
  }

  /** The bits of `Emit`: the INC_WIDTH symbols, the wire value at its width, then any DEC_WIDTH symbols. */
  lemma EmitSplit(r: Report, w: nat)
    requires r.Ready? && r.cd >= EMPTY
    ensures var v := Wire(r);
      SymBits(Emit(r, w))
      == SymBits(Incs(v, w)) + NatBits(v, WidthFor(v, w)) + SymBits(if r.reset then Decs(WidthFor(v, w)) else [])
  {
    var v := Wire(r);
    var w' := WidthFor(v, w);
    var incs, code := Incs(v, w), [Sym(v, w')];
    var tail := if r.reset then Decs(w') else [];
    assert Emit(r, w) == incs + code + tail;
    SymBits3(incs, code, tail);
    SymBitsOne(Sym(v, w'));
  }

  lemma EmitBits(r: Report, w: nat, T: seq<bool>)
    requires r.Ready? && r.cd >= EMPTY
    ensures var v := Wire(r);
      SymBits(Emit(r, w)) + T
      == SymBits(Incs(v, w)) + (NatBits(v, WidthFor(v, w)) + (SymBits(if r.reset then Decs(WidthFor(v, w)) else []) + T))
  {
    var v := Wire(r);
    var w' := WidthFor(v, w);
    EmitSplit(r, w);
    Assoc(SymBits(Incs(v, w)) + NatBits(v, w'), SymBits(if r.reset then Decs(w') else []), T);
    Assoc(SymBits(Incs(v, w)), NatBits(v, w'), SymBits(if r.reset then Decs(w') else []) + T);
  }

  /** Receiving what `Emit` sends decodes the one report and leaves the width at `After`. */
  lemma RunEmit(r: Report, w: nat, T: seq<bool>, d: DecState, out: Str)
    requires r.Ready? && 0 <= r.cd < TABSIZE && InRange(w) && DecOk(d) && Populated(d, r.cd)
    ensures InRange(After(r, w))
    ensures Run(SymBits(Emit(r, w)) + T, w, d, out)
         == Run(T, After(r, w), DecodeStep(d, r.cd).st, out + DecodeStep(d, r.cd).out)
  {
    var v := Wire(r);
    var w' := WidthFor(v, w);
    WireFits(r, w);
    var step := DecodeStep(d, r.cd);
    var T1 := SymBits(if r.reset then Decs(w') else []) + T;
    calc {
      Run(SymBits(Emit(r, w)) + T, w, d, out);
      { EmitBits(r, w, T); }
      Run(SymBits(Incs(v, w)) + (NatBits(v, w') + T1), w, d, out);
      { RunIncs(v, w, NatBits(v, w') + T1, d, out); }
      Run(NatBits(v, w') + T1, w', d, out);
      { RunCode(v, w', T1, d, out); }
      Run(T1, w', step.st, out + step.out);
      { if r.reset { RunDecs(w', T, step.st, out + step.out); } else { assert T1 == T; } }
      Run(T, After(r, w), step.st, out + step.out);
    }
  }

  /** Receiving all of `AllSyms(rs, w)` runs `decode` over `rs`, as `DecodeFrom` does. */
  lemma {:induction false} RunAll(rs: seq<Report>, w: nat, T: seq<bool>, d: DecState, acc: Str)
    requires CodesBelowTab(rs, false) && InRange(w) && DecOk(d)
    requires DecodeFrom(d, rs, acc).Decoded?
    ensures Sendable(rs) && InRange(WidthAfter(rs, w))
    ensures Run(SymBits(AllSyms(rs, w)) + T, w, d, acc)
         == Run(T, WidthAfter(rs, w), DecodeFrom(d, rs, acc).st, DecodeFrom(d, rs, acc).out)
    decreases |rs|
  {
    CodesSendable(rs, false);
    WidthAfterRange(rs, w);
    if rs == [] {
      assert SymBits([]) + T == T;
    } else {
      var r, rest := rs[0], rs[1..];
      var step := DecodeStep(d, r.cd);
      CodesTail(rs, false);
      assert step.Decoded? && DecodeFrom(d, rs, acc) == DecodeFrom(step.st, rest, acc + step.out);
      var w' := After(r, w);
      WireFits(r, w);
      calc {
        Run(SymBits(AllSyms(rs, w)) + T, w, d, acc);
        { RunFirst(rs, w, T, d, acc); }
        Run(SymBits(AllSyms(rest, w')) + T, w', step.st, acc + step.out);
        { RunAll(rest, w', T, step.st, acc + step.out); }
        Run(T, WidthAfter(rest, w'), DecodeFrom(step.st, rest, acc + step.out).st,
            DecodeFrom(step.st, rest, acc + step.out).out);
      }
    }
  }

  /** One step of `RunAll`: the first report's symbols are read and decoded. */
  lemma RunFirst(rs: seq<Report>, w: nat, T: seq<bool>, d: DecState, acc: Str)
    requires CodesBelowTab(rs, false) && rs != [] && InRange(w) && DecOk(d) && Populated(d, rs[0].cd)
    ensures Sendable(rs) && Sendable(rs[1..]) && InRange(After(rs[0], w))
    ensures Run(SymBits(AllSyms(rs, w)) + T, w, d, acc)
         == Run(SymBits(AllSyms(rs[1..], After(rs[0], w))) + T, After(rs[0], w),
                DecodeStep(d, rs[0].cd).st, acc + DecodeStep(d, rs[0].cd).out)
  {
    CodesSendable(rs, false);
    CodesTail(rs, false);
    var r := rs[0];
    var t := SymBits(AllSyms(rs[1..], After(r, w))) + T;
    FirstBits(rs, w, T);
    RunEmit(r, w, t, d, acc);
  }

  lemma FirstBits(rs: seq<Report>, w: nat, T: seq<bool>)
    requires Sendable(rs) && rs != []
    ensures Sendable(rs[1..])
    ensures SymBits(AllSyms(rs, w)) + T
         == SymBits(Emit(rs[0], w)) + (SymBits(AllSyms(rs[1..], After(rs[0], w))) + T)
  {
    AllSymsFront(rs, w);
    Assoc(SymBits(Emit(rs[0], w)), SymBits(AllSyms(rs[1..], After(rs[0], w))), T);
  }

  /** The symbols of a report list: the first report's, then the rest's at the width it leaves. */
  lemma AllSymsFront(rs: seq<Report>, w: nat)
    requires Sendable(rs) && rs != []
    ensures Sendable(rs[1..])
    ensures SymBits(AllSyms(rs, w)) == SymBits(Emit(rs[0], w)) + SymBits(AllSyms(rs[1..], After(rs[0], w)))
  {
    var r, rest := rs[0], rs[1..];
    assert Sendable(rest) by {
      forall i | 0 <= i < |rest| ensures rest[i].Ready? && rest[i].cd >= EMPTY {
        assert rest[i] == rs[i + 1];
      }
    }
    var e, a := Emit(r, w), AllSyms(rest, After(r, w));
    assert AllSyms(rs, w) == e + a;
    SymBitsAppend(e, a);
  }

  /** The zero padding of the flush ends `decompress` without output. */
  lemma {:induction false} RunZeros(n: nat, w: nat, d: DecState, out: Str)
    requires DecOk(d) && 1 <= w <= MAX_READ
    ensures Run(Zeros(n), w, d, out) == Some(out)
    decreases n
  {
    if n >= w {
      assert Zeros(n)[..w] == Zeros(w);
      assert Zeros(n)[w..] == Zeros(n - w);
      ZerosVal(w);
      if w > 1 {
        RunZeros(n - w, w - 1, d, out);
      }
    }
  }

  /**
   * The round trip: `decompress` reading what `compress(s)` writes outputs
   * exactly `s`.  For the empty input the one symbol is EMPTY + 2 = 1, read
   * as INC_WIDTH, and the padding ends the loop.
   */
  lemma RoundTrip(s: seq<Byte>)
    ensures Run(CompressBits(s), MIN_WIDTH, DecInit(), []) == Some(s)
  {
    EncodeSendable(EncInit(), s);
    var rs := Encode(s);
    var bits := SymBits(AllSyms(rs, MIN_WIDTH));
    var pad := WSIZE - |bits| % WSIZE;
    assert CompressBits(s) == bits + Zeros(pad);
    if s == [] {
      EncodeCodes(s);
      var r := Ready(EMPTY, false);
      assert rs == [r];
      assert Emit(r, MIN_WIDTH) == [Sym(INC_WIDTH, MIN_WIDTH)] by {
        assert Pow2(MIN_WIDTH) == 256;
      }
      assert AllSyms(rs, MIN_WIDTH) == [Sym(INC_WIDTH, MIN_WIDTH)];
      assert bits == NatBits(INC_WIDTH, MIN_WIDTH) by {
        assert SymBits([Sym(INC_WIDTH, MIN_WIDTH)]) == NatBits(INC_WIDTH, MIN_WIDTH) + SymBits([]);
      }
      assert Pow2(MIN_WIDTH) == 256;
      ReadSym(INC_WIDTH, MIN_WIDTH, Zeros(pad));
      RunZeros(pad, MIN_WIDTH + 1, DecInit(), []);
    } else {
      EncodeDecode(s);
      RunAll(rs, MIN_WIDTH, Zeros(pad), DecInit(), []);
      RunZeros(pad, WidthAfter(rs, MIN_WIDTH), DecodeFrom(DecInit(), rs, []).st, s);
    }
  }
}
