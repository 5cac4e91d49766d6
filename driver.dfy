/**
 * `compress` and `decompress` of main.c, over word sequences instead of
 * files.
 *
 * `Compress` feeds the input bytes, then EOF, to an `Encoder`. It puts each
 * reported code on a `BitWriter` following the width protocol, and flushes
 * at the end. It is proved to write exactly `CompressBits(s)`.
 * `Decompress` reads symbols from a `BitReader` at the current width and
 * hands codes to a `Decoder`. It is proved to output what `Run` says. So
 * `Decompress(Compress(s)) == s` follows from the lemma `RoundTrip`.
 */
module Driver {
  import opened Bits
  import opened LzwModel
  import opened Lzw
  import opened Channel
  import opened Protocol

  /**
   * One call `code(c)` against the reports still to come: the report, if
   * any, is the first of them and lies in [EMPTY, TABSIZE), and the symbols
   * of the rest follow its own.
   */
  lemma Advance(st: EncState, t: seq<Byte>, c: int, w: nat)
    requires EncOk(st) && InRange(w) && (if t == [] then c == EOF else c == t[0])
    ensures Sendable(EncodeFrom(st, t))
    ensures var r := EncStep(st, c);
      var rest := if t == [] then [] else EncodeFrom(r.st, t[1..]);
      && Sendable(rest)
      && (r.report.Ready? ==>
            && EMPTY <= r.report.cd < TABSIZE
            && SymBits(AllSyms(EncodeFrom(st, t), w))
               == SymBits(Emit(r.report, w)) + SymBits(AllSyms(rest, After(r.report, w))))
      && (r.report.NoCode? ==> EncodeFrom(st, t) == rest)
  {
    var r := EncStep(st, c);
    var rs := EncodeFrom(st, t);
    EncodeSendable(st, t);
    if t == [] {
      assert rs == [r.report];
      assert rs[1..] == [];
      AllSymsFront(rs, w);
    } else {
      var rest := EncodeFrom(r.st, t[1..]);
      EncodeSendable(r.st, t[1..]);
      if r.report.Ready? {
        assert rs == [r.report] + rest;
        assert rs[0] == r.report && rs[1..] == rest;
        AllSymsFront(rs, w);
      } else {
        assert rs == [] + rest;
      }
    }
  }

  /** `while (cd >= next_width)`: INC_WIDTH at each width `v` does not fit, widening as it goes. */
  method Widen(writer: BitWriter, v: nat, bitWidth: nat, nextWidth: nat) returns (bw: nat, nw: nat)
    requires writer.Valid() && InRange(bitWidth) && WidthFor(v, bitWidth) <= 13 && nextWidth == Pow2(bitWidth)
    modifies writer
    ensures writer.Valid() && bw == WidthFor(v, bitWidth) && nw == Pow2(bw) && v < nw
    ensures writer.Sent() == old(writer.Sent()) + SymBits(Incs(v, bitWidth))
  {
    ghost var top := WidthFor(v, bitWidth);
    ghost var sent0 := writer.Sent();
    bw, nw := bitWidth, nextWidth;
    while v >= nw
      invariant writer.Valid()
      invariant bitWidth <= bw <= top && WidthFor(v, bw) == top && nw == Pow2(bw)
      invariant writer.Sent() + SymBits(Incs(v, bw)) == sent0 + SymBits(Incs(v, bitWidth))
      decreases v - nw
    {
      ghost var pre := writer.Sent();
      WidenStep(v, bw, top);
      writer.Send(INC_WIDTH, bw);
      Assoc(pre, NatBits(INC_WIDTH, bw), SymBits(Incs(v, bw + 1)));
      bw, nw := bw + 1, nw * 2;
    }
    assert SymBits(Incs(v, bw)) == [];
  }

  /** One INC_WIDTH: the value does not fit at `w`, so the target width lies above it. */
  lemma WidenStep(v: nat, w: nat, top: nat)
    requires w >= 1 && WidthFor(v, w) == top && v >= Pow2(w)
    ensures 1 < Pow2(w) && w < top && WidthFor(v, w + 1) == top && Pow2(w + 1) == Pow2(w) * 2
    ensures SymBits(Incs(v, w)) == NatBits(INC_WIDTH, w) + SymBits(Incs(v, w + 1))
  {
    Pow2Monotone(1, w);
    SymBitsFront(Sym(INC_WIDTH, w), Incs(v, w + 1));
  }

  /** `while (bit_width > 8)` after a reset: DEC_WIDTH at each width above 8, narrowing as it goes. */
  method Narrow(writer: BitWriter, bitWidth: nat, nextWidth: nat) returns (bw: nat, nw: nat)
    requires writer.Valid() && InRange(bitWidth) && nextWidth == Pow2(bitWidth)
    modifies writer
    ensures writer.Valid() && bw == MIN_WIDTH && nw == Pow2(bw)
    ensures writer.Sent() == old(writer.Sent()) + SymBits(Decs(bitWidth))
  {
    ghost var sent0 := writer.Sent();
    bw, nw := bitWidth, nextWidth;
    while bw > MIN_WIDTH
      invariant writer.Valid()
      invariant MIN_WIDTH <= bw <= bitWidth && nw == Pow2(bw)
      invariant writer.Sent() + SymBits(Decs(bw)) == sent0 + SymBits(Decs(bitWidth))
    {
      ghost var pre := writer.Sent();
      Pow2Monotone(1, bw);
      writer.Send(DEC_WIDTH, bw);
      SymBitsFront(Sym(DEC_WIDTH, bw), Decs(bw - 1));
      Assoc(pre, NatBits(DEC_WIDTH, bw), SymBits(Decs(bw - 1)));
      assert Pow2(bw) == 2 * Pow2(bw - 1);
      bw, nw := bw - 1, nw / 2;
    }
    assert SymBits(Decs(bw)) == [];
  }

  /**
   * The body of `if (flag = code(c, &cd))` in `compress`: shift the code by
   * 2, widen until it fits, send it, and after a reset narrow back to 8.
   */
  method Transmit(writer: BitWriter, cd: int, reset: bool, bitWidth: nat, nextWidth: nat)
    returns (bw: nat, nw: nat)
    requires writer.Valid() && EMPTY <= cd < TABSIZE && InRange(bitWidth) && nextWidth == Pow2(bitWidth)
    modifies writer
    ensures var top := WidthFor(cd + 2, bitWidth);
      && writer.Valid() && InRange(top) && nw == Pow2(bw)
      && bw == (if reset && top > MIN_WIDTH then MIN_WIDTH else top)
      && writer.Sent() == old(writer.Sent()) + SymBits(Incs(cd + 2, bitWidth)) + NatBits(cd + 2, top)
                          + SymBits(if reset then Decs(top) else [])
  {
    CodeFits(cd, bitWidth);
    var v := cd + 2;
    bw, nw := Widen(writer, v, bitWidth, nextWidth);
    bw, nw := SendCode(writer, v, reset, bw, nw);
  }

  /** `send(cd, bit_width)` of the shifted code, then the narrowing after a reset. */
  method SendCode(writer: BitWriter, v: nat, reset: bool, bitWidth: nat, nextWidth: nat) returns (bw: nat, nw: nat)
    requires writer.Valid() && InRange(bitWidth) && nextWidth == Pow2(bitWidth) && v < nextWidth
    modifies writer
    ensures writer.Valid() && nw == Pow2(bw) && bw == (if reset && bitWidth > MIN_WIDTH then MIN_WIDTH else bitWidth)
    ensures writer.Sent() == old(writer.Sent()) + NatBits(v, bitWidth) + SymBits(if reset then Decs(bitWidth) else [])
  {
    Pow2Monotone(MIN_WIDTH, bitWidth);
    writer.Send(v, bitWidth);
    bw, nw := bitWidth, nextWidth;
    if reset {
      bw, nw := Narrow(writer, bw, nw);
    } else {
      assert SymBits([]) == [];
    }
  }

  /** `Emit` and `After` for one report, in the pieces `Transmit` sends them. */
  lemma EmitParts(cd: int, reset: bool, w: nat, sent0: seq<bool>)
    requires EMPTY <= cd
    ensures var top := WidthFor(cd + 2, w);
      && After(Ready(cd, reset), w) == (if reset && top > MIN_WIDTH then MIN_WIDTH else top)
      && sent0 + SymBits(Emit(Ready(cd, reset), w))
         == sent0 + SymBits(Incs(cd + 2, w)) + NatBits(cd + 2, top) + SymBits(if reset then Decs(top) else [])
  {
    var r := Ready(cd, reset);
    var top := WidthFor(cd + 2, w);
    EmitSplit(r, w);
    var incs, code, decs := SymBits(Incs(cd + 2, w)), NatBits(cd + 2, top), SymBits(if reset then Decs(top) else []);
    Assoc(sent0 + incs, code, decs);
    Assoc(sent0, incs, code + decs);
    Assoc(incs, code, decs);
  }

  /**
   * The bits `compress` has still to send once the encoder is in state `st`
   * with input `t` left, at width `w`; none once EOF has been handled.
   */
  ghost function Pending(st: EncState, t: seq<Byte>, done: bool, w: nat): seq<bool>
    requires EncOk(st)
  {
    EncodeSendable(st, t);
    if done then [] else SymBits(AllSyms(EncodeFrom(st, t), w))
  }

  /**
   * One pass of the `do` loop of `compress`: `code(c, &cd)` on the next
   * byte of `t`, or on EOF when `t` is empty, and the symbols for the code
   * it reports, if any.  What has been sent plus what is still to be sent
   * stays the same.
   */
  method Feed(enc: Encoder, writer: BitWriter, ghost t: seq<Byte>, c: int, cdIn: int, bitWidth: nat, nextWidth: nat)
    returns (cd: int, bw: nat, nw: nat)
    requires enc.Valid() && writer.Valid() && (if t == [] then c == EOF else c == t[0])
    requires InRange(bitWidth) && nextWidth == Pow2(bitWidth)
    modifies enc, enc.codeTab, writer
    ensures enc.Valid() && writer.Valid() && InRange(bw) && nw == Pow2(bw)
    ensures enc.Abs() == EncStep(old(enc.Abs()), c).st
    ensures writer.Sent() + Pending(enc.Abs(), if t == [] then [] else t[1..], t == [], bw)
         == old(writer.Sent()) + Pending(old(enc.Abs()), t, false, bitWidth)
  {
    ghost var st, pre := enc.Abs(), writer.Sent();
    Advance(st, t, c, bitWidth);
    ghost var step := EncStep(st, c);
    ghost var rest := if t == [] then [] else EncodeFrom(step.st, t[1..]);
    var flag;
    flag, cd := enc.Code(c, cdIn);
    bw, nw := bitWidth, nextWidth;
    if flag != 0 {
      bw, nw := Transmit(writer, cd, flag == 2, bitWidth, nextWidth);
      EmitParts(cd, flag == 2, bitWidth, pre);
      Assoc(pre, SymBits(Emit(step.report, bitWidth)), SymBits(AllSyms(rest, bw)));
    }
    if t == [] {
      assert rest == [];
    }
  }

  /**
   * The state of `compress` before the pass on position `i` of `s` (the
   * EOF pass when `i == |s|`): the bits sent so far followed by the bits
   * still to be sent are `total`.
   */
  ghost predicate Inv(enc: Encoder, writer: BitWriter, s: seq<Byte>, i: int, done: bool,
                      bitWidth: nat, nextWidth: nat, total: seq<bool>)
    reads enc, enc.codeTab, writer
  {
    && 0 <= i <= |s|
    && enc.Valid() && writer.Valid() && InRange(bitWidth) && nextWidth == Pow2(bitWidth)
    && writer.Sent() + Pending(enc.Abs(), s[i..], done, bitWidth) == total
  }

  /** One pass of the `do` loop of `compress`: `fgetc`, then `Feed`; EOF ends the loop. */
  method Pass(enc: Encoder, writer: BitWriter, s: seq<Byte>, i: nat, cdIn: int, bitWidth: nat, nextWidth: nat,
              ghost total: seq<bool>)
    returns (cd: int, i': nat, done: bool, bw: nat, nw: nat)
    requires Inv(enc, writer, s, i, false, bitWidth, nextWidth, total)
    modifies enc, enc.codeTab, writer
    ensures Inv(enc, writer, s, i', done, bw, nw, total)
    ensures if done then i' == i else i' == i + 1
  {
    var c := if i < |s| then s[i] else EOF;
    ghost var t := s[i..];
    cd, bw, nw := Feed(enc, writer, t, c, cdIn, bitWidth, nextWidth);
    if c == EOF {
      done, i' := true, i;
    } else {
      done, i' := false, i + 1;
      assert t[1..] == s[i'..];
    }
  }

  /** `compress`: the words of the file written for the input bytes `s`. */
  method Compress(s: seq<Byte>) returns (words: seq<Word>)
    ensures WordsBits(words) == CompressBits(s)
  {
    var enc := new Encoder();
    enc.CodeInit();
    var writer := new BitWriter();
    var bitWidth: nat, nextWidth: nat := MIN_WIDTH, 256;
    assert Pow2(MIN_WIDTH) == 256;
    ghost var total := Pending(EncInit(), s, false, MIN_WIDTH);
    var i: nat, done, cd := 0, false, 0;
    while !done
      invariant Inv(enc, writer, s, i, done, bitWidth, nextWidth, total)
      decreases |s| - i, if done then 0 else 1
    {
      cd, i, done, bitWidth, nextWidth := Pass(enc, writer, s, i, cd, bitWidth, nextWidth, total);
    }
    assert writer.Sent() == total;
    words := Flush(writer);
    Compressed(s, words);
  }

  /** The padded bits of all the symbols for `s` are its compressed stream. */
  lemma Compressed(s: seq<Byte>, words: seq<Word>)
    requires WordsBits(words) == Padded(Pending(EncInit(), s, false, MIN_WIDTH))
    ensures WordsBits(words) == CompressBits(s)
  {
  }

  /**
   * `send(-1, 0)` at the end of `compress`: the bits sent so far, padded
   * with zeros to whole words, are the words written.
   */
  method Flush(writer: BitWriter) returns (words: seq<Word>)
    requires writer.Valid()
    modifies writer
    ensures WordsBits(words) == Padded(old(writer.Sent()))
  {
    ghost var sent := writer.Sent();
    ghost var bf, n0 := writer.bitsFree, |writer.out|;
    assert |sent| == WSIZE * n0 + (WSIZE - bf);
    writer.Send(-1, 0);
    words := writer.out;
    PadLength(n0, bf, |sent|);
  }

  /**
   * `decompress`: receive at the current width until `receive` fails or the
   * width drops to 0; DEC_WIDTH narrows, INC_WIDTH widens, any other value
   * `v` is the code `v - 2`, whose string is appended to the output.  The
   * stream must be one that `Run` accepts: `decode` does not check its
   * argument.
   */
  method Decompress(words: seq<Word>) returns (out: Str)
    requires Run(WordsBits(words), MIN_WIDTH, DecInit(), []).Some?
    ensures Some(out) == Run(WordsBits(words), MIN_WIDTH, DecInit(), [])
  {
    var reader := new BitReader(words);
    var dec := new Decoder();
    dec.DecodeInit();
    var bitWidth: int := MIN_WIDTH;
    out := [];
    ghost var final := Run(WordsBits(words), MIN_WIDTH, DecInit(), []);
    while bitWidth > 0
      invariant reader.Valid() && dec.Valid() && bitWidth >= 0
      invariant bitWidth > 0 ==> Run(reader.Remaining(), bitWidth, dec.Abs(), out) == final
      invariant bitWidth == 0 ==> final == Some(out)
      decreases |reader.Remaining()|
    {
      ghost var R := reader.Remaining();
      RunOnce(R, bitWidth, dec.Abs(), out);
      var cd := reader.Receive(bitWidth);
      if cd < 0 {
        break;
      }
      bitWidth, out := Dispatch(dec, R, cd, bitWidth, out);
    }
  }

  /**
   * The body of `decompress`'s loop after a successful `receive` of `cd` at
   * `bitWidth`: a width change, or the string of code `cd - 2` appended.
   */
  method Dispatch(dec: Decoder, ghost R: seq<bool>, cd: int, bitWidth: nat, out: Str) returns (bw: nat, out': Str)
    requires dec.Valid() && 1 <= bitWidth <= |R| && cd == BitsVal(R[..bitWidth])
    requires Run(R, bitWidth, dec.Abs(), out).Some?
    modifies dec, dec.decodeTab, dec.buffer
    ensures dec.Valid()
    ensures bw > 0 ==> Run(R[bitWidth..], bw, dec.Abs(), out') == old(Run(R, bitWidth, dec.Abs(), out))
    ensures bw == 0 ==> old(Run(R, bitWidth, dec.Abs(), out)) == Some(out')
  {
    RunOnce(R, bitWidth, dec.Abs(), out);
    out' := out;
    if cd == DEC_WIDTH {
      bw := bitWidth - 1;
    } else if cd == INC_WIDTH {
      bw := bitWidth + 1;
    } else {
      var piece := dec.Decode(cd - 2);
      out' := out + piece;
      bw := bitWidth;
    }
  }

  /** `decompress(compress(s)) == s`. */
  method CompressThenDecompress(s: seq<Byte>) returns (out: Str)
    ensures out == s
  {
    var words := Compress(s);
    RoundTrip(s);
    out := Decompress(words);
  }
}
