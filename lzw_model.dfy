/**
 * The LZW dictionaries of lzw.c as values.
 *
 * Both the encoder trie (`code_tab`) and the decoder table (`decode_tab`)
 * stand for a dictionary: a sequence of byte strings indexed by code, whose
 * first 256 entries are the single bytes.  This module states what the two
 * sides do to that dictionary, one call at a time, and proves that running
 * the decoder over the codes the encoder reports rebuilds the input.  The
 * array-based implementations in module Lzw are proved to follow these
 * definitions.
 */
module LzwModel {

  /** Number of table entries (`TABSIZE`, lzw.c). */
  const TABSIZE: int := 8192 - 2
  /** "No code": `curr_code` and `last_code` before the first byte or code. */
  const EMPTY: int := -1
  /** End of the list of children in the encoder trie. */
  const NO_CHILD: int := -1
  /** The end-of-input value `code` receives from `fgetc`. */
  const EOF: int := -1
  /** Size of the decoder's output buffer (`BSIZE`, lzw.c). */
  const BSIZE: int := TABSIZE - 255

  type Byte = b: int | 0 <= b < 256
  type Str = seq<Byte>

  /** The dictionary right after initialisation: one entry per byte value. */
  function Literals(): (d: seq<Str>)
    ensures |d| == 256
    ensures forall k :: 0 <= k < 256 ==> d[k] == [k]
  {
    seq(256, k requires 0 <= k < 256 => [k as Byte])
  }

  /** What both tables keep: literal entries first, no empty string, at most TABSIZE entries. */
  predicate DictOk(d: seq<Str>)
  {
    && 256 <= |d| <= TABSIZE
    && (forall k :: 0 <= k < 256 ==> d[k] == [k])
    && (forall k :: 0 <= k < |d| ==> |d[k]| >= 1)
  }

  /** No string has two codes. */
  predicate Injective(d: seq<Str>)
  {
    forall i, j :: 0 <= i < j < |d| ==> d[i] != d[j]
  }

  /** The first code of `t` in `d`, or -1 when `t` has none. */
  function IndexOf(d: seq<Str>, t: Str): (k: int)
    ensures -1 <= k < |d|
    ensures k >= 0 ==> d[k] == t
    ensures k == -1 <==> t !in d
  {
    if d == [] then -1
    else if d[0] == t then 0
    else
      var k := IndexOf(d[1..], t);
      if k < 0 then -1 else k + 1
  }

  lemma IndexOfUnique(d: seq<Str>, k: int)
    requires Injective(d) && 0 <= k < |d|
    ensures IndexOf(d, d[k]) == k
  {}

  // ---------------------------------------------------------------------------
  // Encoder (code_init, code, search, insert, flush)

  /** Encoder session: the dictionary (`c_next_free` is its length) and `curr_code`. */
  datatype EncState = EncState(dict: seq<Str>, cur: int)

  predicate EncOk(st: EncState)
  {
    && DictOk(st.dict)
    && Injective(st.dict)
    && (st.cur == EMPTY || 0 <= st.cur < |st.dict|)
  }

  /** The state `code_init` establishes. */
  function EncInit(): (st: EncState)
    ensures EncOk(st) && |st.dict| == 256 && st.cur == EMPTY
  {
    EncState(Literals(), EMPTY)
  }

  /** What one call of `code` reports: nothing, or a ready code and whether the table was reset. */
  datatype Report = NoCode | Ready(cd: int, reset: bool)

  datatype Step = Step(st: EncState, report: Report)

  /** `search`: the code of the current match extended by `c`, or -1. */
  function Search(st: EncState, c: Byte): (k: int)
    requires EncOk(st)
    ensures st.cur == EMPTY ==> k == c
    ensures st.cur != EMPTY ==> -1 <= k < |st.dict|
    ensures st.cur != EMPTY ==> (k >= 0 <==> st.dict[st.cur] + [c] in st.dict)
    ensures st.cur != EMPTY && k >= 0 ==> st.dict[k] == st.dict[st.cur] + [c]
  {
    if st.cur < 0 then c else IndexOf(st.dict, st.dict[st.cur] + [c])
  }

  /** One call `code(c)`, where `c` is a byte or EOF. */
  function EncStep(st: EncState, c: int): (r: Step)
    requires EncOk(st) && (c == EOF || 0 <= c < 256)
    ensures EncOk(r.st)
    // end of input: report the held match, change nothing
    ensures c == EOF ==> r.st == st && r.report == Ready(st.cur, false)
    // the first byte only starts a match
    ensures c != EOF && st.cur == EMPTY ==> r.st == EncState(st.dict, c) && r.report == NoCode
    // the match grows while the dictionary knows the longer string
    ensures c != EOF && st.cur != EMPTY && st.dict[st.cur] + [c] in st.dict ==>
      && r.report == NoCode && r.st.dict == st.dict && 0 <= r.st.cur < |r.st.dict|
      && r.st.dict[r.st.cur] == st.dict[st.cur] + [c]
    // otherwise the old match is reported and a new match starts at c
    ensures c != EOF && st.cur != EMPTY && st.dict[st.cur] + [c] !in st.dict ==>
      && r.report == Ready(st.cur, |st.dict| == TABSIZE)
      && r.st.cur == c
      && r.st.dict == (if |st.dict| == TABSIZE then Literals() else st.dict + [st.dict[st.cur] + [c]])
  {
    if c == EOF then Step(st, Ready(st.cur, false))
    else
      var t := Search(st, c);
      if t >= 0 then Step(st.(cur := t), NoCode)
      else if |st.dict| == TABSIZE then Step(EncState(Literals(), c), Ready(st.cur, true))
      else
        var d := st.dict + [st.dict[st.cur] + [c]];
        assert Injective(d) by {
          forall i, j | 0 <= i < j < |d| ensures d[i] != d[j] {
            if j == |d| - 1 { assert d[i] in st.dict; }
          }
        }
        Step(EncState(d, c), Ready(st.cur, false))
  }

  /** The reports of compressing `s` from state `st`, ending with the EOF call. */
  function EncodeFrom(st: EncState, s: seq<Byte>): (rs: seq<Report>)
    requires EncOk(st)
    ensures forall i :: 0 <= i < |rs| ==> rs[i].Ready?
    decreases |s|
  {
    if s == [] then [EncStep(st, EOF).report]
    else
      var r := EncStep(st, s[0]);
      (if r.report.Ready? then [r.report] else []) + EncodeFrom(r.st, s[1..])
  }

  function Encode(s: seq<Byte>): seq<Report>
  {
    EncodeFrom(EncInit(), s)
  }

  /** At most one code per call of `code`, and the last one, from EOF, never resets. */
  lemma {:induction false} EncodeFromShape(st: EncState, s: seq<Byte>)
    requires EncOk(st)
    ensures 1 <= |EncodeFrom(st, s)| <= |s| + 1
    ensures !EncodeFrom(st, s)[|EncodeFrom(st, s)| - 1].reset
    decreases |s|
  {
    if s != [] {
      var r := EncStep(st, s[0]);
      EncodeFromShape(r.st, s[1..]);
    }
  }

  /** Every report is a ready code below TABSIZE, non-negative once a byte has been read. */
  predicate CodesBelowTab(rs: seq<Report>, allowEmpty: bool)
  {
    forall i :: 0 <= i < |rs| ==>
      rs[i].Ready? && (if allowEmpty then EMPTY else 0) <= rs[i].cd < TABSIZE
  }

  lemma {:induction false} EncodeFromCodes(st: EncState, s: seq<Byte>)
    requires EncOk(st)
    ensures CodesBelowTab(EncodeFrom(st, s), st.cur == EMPTY && s == [])
    decreases |s|
  {
    if s != [] {
      var r := EncStep(st, s[0]);
      EncodeFromCodes(r.st, s[1..]);
    }
  }

  /** An empty input reports EMPTY only; any other input reports codes in [0, TABSIZE). */
  lemma EncodeCodes(s: seq<Byte>)
    ensures s == [] ==> Encode(s) == [Ready(EMPTY, false)]
    ensures CodesBelowTab(Encode(s), s == [])
    ensures s != [] ==> 1 <= |Encode(s)| <= |s|
  {
    EncodeFromCodes(EncInit(), s);
    if s != [] {
      EncodeFromShape(EncStep(EncInit(), s[0]).st, s[1..]);
    }
  }

  // ---------------------------------------------------------------------------
  // Decoder (decode_init, decode, write_code)

  /** Decoder session: the dictionary (`d_next_free` is its length) and `last_code`. */
  datatype DecState = DecState(dict: seq<Str>, last: int)

  predicate DecOk(d: DecState)
  {
    DictOk(d.dict) && (d.last == EMPTY || 0 <= d.last < |d.dict|)
  }

  /** The state `decode_init` establishes. */
  function DecInit(): (d: DecState)
    ensures DecOk(d) && |d.dict| == 256 && d.last == EMPTY
  {
    DecState(Literals(), EMPTY)
  }

  /**
   * `cd` names an entry of the current epoch once this call's deferred
   * insertion is made: on the first call a literal, right after a reset a
   * literal, otherwise an existing entry or the one about to be inserted.
   */
  predicate Populated(d: DecState, cd: int)
  {
    && 0 <= cd
    && (if d.last == EMPTY then cd < |d.dict|
        else if |d.dict| == TABSIZE then cd < 256
        else cd <= |d.dict|)
  }

  /** The first byte of the string of `cd`, read after `first` of the new entry is set. */
  function FirstOf(d: DecState, cd: int): (b: Byte)
    requires DecOk(d) && Populated(d, cd)
    // the byte completing the deferred entry is the first byte of cd's string once it is made
    ensures cd < |Lag(d, b)| && Lag(d, b)[cd][0] == b
  {
    if cd < |d.dict| then d.dict[cd][0] else d.dict[d.last][0]
  }

  /** The deferred insertion: the previous code's string extended by `b`, or a reset when full. */
  function Lag(d: DecState, b: Byte): (dict: seq<Str>)
    requires DecOk(d)
    ensures DictOk(dict)
  {
    if d.last == EMPTY then d.dict
    else if |d.dict| == TABSIZE then Literals()
    else d.dict + [d.dict[d.last] + [b]]
  }

  /** A code is accepted exactly when it names an entry of the dictionary as this call leaves it. */
  lemma PopulatedInTable(d: DecState, cd: int, b: Byte)
    requires DecOk(d)
    ensures Populated(d, cd) <==> 0 <= cd < |Lag(d, b)|
  {}

  datatype Decoded = Malformed | Decoded(st: DecState, out: Str)

  /** One call `decode(cd)`. */
  function DecodeStep(d: DecState, cd: int): (r: Decoded)
    requires DecOk(d)
    ensures r.Decoded? <==> Populated(d, cd)
    ensures r.Decoded? ==> DecOk(r.st) && r.st.last == cd && r.st.dict == Lag(d, FirstOf(d, cd))
    ensures r.Decoded? ==> r.out == r.st.dict[cd]
  {
    if !Populated(d, cd) then Malformed
    else
      var dict := Lag(d, FirstOf(d, cd));
      Decoded(DecState(dict, cd), dict[cd])
  }

  /** The KwKwK case: a code that names the entry this very call inserts. */
  lemma KwKwK(d: DecState, cd: int)
    requires DecOk(d) && d.last != EMPTY && |d.dict| < TABSIZE && cd == |d.dict|
    ensures DecodeStep(d, cd).Decoded?
    ensures DecodeStep(d, cd).out == d.dict[d.last] + [d.dict[d.last][0]]
  {}

  /** Decoding a sequence of reported codes, output accumulated in `acc`. */
  function DecodeFrom(d: DecState, rs: seq<Report>, acc: Str): (r: Decoded)
    requires DecOk(d)
    requires forall i :: 0 <= i < |rs| ==> rs[i].Ready?
    ensures r.Decoded? ==> DecOk(r.st) && acc <= r.out
    decreases |rs|
  {
    if rs == [] then Decoded(d, acc)
    else
      match DecodeStep(d, rs[0].cd)
      case Malformed => Malformed
      case Decoded(d', out) => DecodeFrom(d', rs[1..], acc + out)
  }

  // ---------------------------------------------------------------------------
  // Encoder and decoder agree

  /**
   * The decoder, having seen the codes reported so far, lags the encoder by
   * one insertion: the encoder's dictionary is what the decoder will hold
   * once it learns the first byte of the next code, which is the first byte
   * of the encoder's current match.
   */
  predicate Synced(st: EncState, d: DecState)
    requires EncOk(st) && DecOk(d) && st.cur != EMPTY
  {
    st.dict == Lag(d, st.dict[st.cur][0])
  }

  /** Decoding the current match's code yields its string and catches up with the encoder. */
  lemma DecodeCurrent(st: EncState, d: DecState)
    requires EncOk(st) && DecOk(d) && st.cur != EMPTY && Synced(st, d)
    ensures Populated(d, st.cur)
    ensures FirstOf(d, st.cur) == st.dict[st.cur][0]
    ensures DecodeStep(d, st.cur).Decoded?
    ensures DecodeStep(d, st.cur).st == DecState(st.dict, st.cur)
    ensures DecodeStep(d, st.cur).out == st.dict[st.cur]
  {
    if d.last != EMPTY && |d.dict| < TABSIZE && st.cur < |d.dict| {
      assert st.dict[st.cur] == d.dict[st.cur];
    }
  }

  lemma Regroup(acc: Str, x: Str, t: Str)
    requires t != []
    ensures acc + (x + [t[0]]) + t[1..] == acc + x + t
  {
    assert t == [t[0]] + t[1..];
  }

  lemma Regroup1(a: Str, y: Str, t: Str)
    requires t != [] && y == [t[0]]
    ensures a + y + t[1..] == a + t
  {
    assert t == [t[0]] + t[1..];
  }

  /** One encoder step keeps the decoder in step: a reported code puts it one insertion behind again. */
  lemma StepKeepsSync(st: EncState, d: DecState, c: Byte)
    requires EncOk(st) && DecOk(d) && st.cur != EMPTY && Synced(st, d)
    ensures EncStep(st, c).st.cur != EMPTY
    ensures EncStep(st, c).report.Ready? ==>
      && EncStep(st, c).report.cd == st.cur
      && EncStep(st, c).st.cur == c
      && Synced(EncStep(st, c).st, DecState(st.dict, st.cur))
    ensures EncStep(st, c).report.NoCode? ==>
      && Synced(EncStep(st, c).st, d)
      && EncStep(st, c).st.dict[EncStep(st, c).st.cur] == st.dict[st.cur] + [c]
  {}

  lemma {:induction false} EncodeDecodeFrom(st: EncState, d: DecState, t: seq<Byte>, acc: Str)
    requires EncOk(st) && DecOk(d) && st.cur != EMPTY && Synced(st, d)
    ensures CodesBelowTab(EncodeFrom(st, t), false)
    ensures DecodeFrom(d, EncodeFrom(st, t), acc).Decoded?
    ensures DecodeFrom(d, EncodeFrom(st, t), acc).out == acc + st.dict[st.cur] + t
    decreases |t|, 1
  {
    EncodeFromCodes(st, t);
    if t == [] {
      DecodeCurrent(st, d);
      var d' := DecState(st.dict, st.cur);
      assert EncodeFrom(st, t) == [Ready(st.cur, false)];
      assert DecodeFrom(d, [Ready(st.cur, false)], acc) == DecodeFrom(d', [], acc + st.dict[st.cur]);
      assert acc + st.dict[st.cur] + t == acc + st.dict[st.cur];
    } else if EncStep(st, t[0]).report.Ready? {
      EncodeDecodeMiss(st, d, t, acc);
    } else {
      EncodeDecodeHit(st, d, t, acc);
    }
  }

  /** Induction step when the next byte ends the match: the code is reported and decoded. */
  lemma {:induction false} EncodeDecodeMiss(st: EncState, d: DecState, t: seq<Byte>, acc: Str)
    requires EncOk(st) && DecOk(d) && st.cur != EMPTY && Synced(st, d)
    requires t != [] && EncStep(st, t[0]).report.Ready?
    ensures DecodeFrom(d, EncodeFrom(st, t), acc).Decoded?
    ensures DecodeFrom(d, EncodeFrom(st, t), acc).out == acc + st.dict[st.cur] + t
    decreases |t|, 0
  {
    DecodeCurrent(st, d);
    StepKeepsSync(st, d, t[0]);
    var d' := DecState(st.dict, st.cur);
    var r := EncStep(st, t[0]);
    var rest := EncodeFrom(r.st, t[1..]);
    assert EncodeFrom(st, t) == [r.report] + rest;
    assert DecodeFrom(d, [r.report] + rest, acc) == DecodeFrom(d', rest, acc + st.dict[st.cur]) by {
      assert ([r.report] + rest)[1..] == rest;
    }
    EncodeDecodeFrom(r.st, d', t[1..], acc + st.dict[st.cur]);
    Regroup1(acc + st.dict[st.cur], r.st.dict[r.st.cur], t);
  }

  /** Induction step when the next byte extends the match: nothing is reported. */
  lemma {:induction false} EncodeDecodeHit(st: EncState, d: DecState, t: seq<Byte>, acc: Str)
    requires EncOk(st) && DecOk(d) && st.cur != EMPTY && Synced(st, d)
    requires t != [] && EncStep(st, t[0]).report.NoCode?
    ensures DecodeFrom(d, EncodeFrom(st, t), acc).Decoded?
    ensures DecodeFrom(d, EncodeFrom(st, t), acc).out == acc + st.dict[st.cur] + t
    decreases |t|, 0
  {
    StepKeepsSync(st, d, t[0]);
    var r := EncStep(st, t[0]);
    var rest := EncodeFrom(r.st, t[1..]);
    assert EncodeFrom(st, t) == rest by {
      assert [] + rest == rest;
    }
    EncodeDecodeFrom(r.st, d, t[1..], acc);
    Regroup(acc, st.dict[st.cur], t);
  }

  /**
   * LZW correctness: for a non-empty input, every reported code is below
   * TABSIZE and decoding the reported codes in order reproduces the input.
   */
  lemma EncodeDecode(s: seq<Byte>)
    requires s != []
    ensures CodesBelowTab(Encode(s), false)
    ensures DecodeFrom(DecInit(), Encode(s), []).Decoded?
    ensures DecodeFrom(DecInit(), Encode(s), []).out == s
  {
    var st := EncStep(EncInit(), s[0]).st;
    assert st == EncState(Literals(), s[0]);
    assert Encode(s) == EncodeFrom(st, s[1..]);
    EncodeDecodeFrom(st, DecInit(), s[1..], []);
    assert [] + st.dict[st.cur] + s[1..] == s;
  }
}
