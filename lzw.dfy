/**
 * lzw.c: the encoder trie `code_tab` and the decoder table `decode_tab`.
 *
 * Each set of globals is a class: `Encoder` holds `code_tab`, `c_next_free`
 * and `curr_code`; `Decoder` holds `decode_tab`, `d_next_free`, `last_code`
 * and the static output buffer of `decode`.  Ghost fields give the
 * dictionary each table stands for, and every operation is proved to act on
 * that dictionary as the value model in module LzwModel says.
 */
module Lzw {
  import opened LzwModel
  import opened CodeTable
  import opened DecodeTable

  class Encoder {
    const codeTab: array<CString>
    var cNextFree: int
    var currCode: int

    /** The string each code below `c_next_free` stands for. */
    ghost var Dict: seq<Str>
    /** The child list of each code, in list order. */
    ghost var Kids: seq<seq<int>>
    /** The entry each non-literal code was inserted under. */
    ghost var Parent: seq<int>

    ghost function Abs(): EncState
      reads this
    {
      EncState(Dict, currCode)
    }

    /** The table is a trie for `Dict` with `c_next_free` entries in use. */
    ghost predicate TableOk()
      reads this, codeTab
    {
      codeTab.Length == TABSIZE && cNextFree == |Dict| && Trie(codeTab[..], Dict, Kids, Parent)
    }

    ghost predicate Valid()
      reads this, codeTab
    {
      TableOk() && (currCode == EMPTY || 0 <= currCode < cNextFree)
    }

    /** The static storage, zero-initialised before `code_init` runs. */
    constructor ()
      ensures fresh(codeTab) && codeTab.Length == TABSIZE
      ensures forall i :: 0 <= i < TABSIZE ==> codeTab[i] == CString(0, 0, 0)
      ensures cNextFree == 0 && currCode == 0
    {
      codeTab := new CString[TABSIZE](_ => CString(0, 0, 0));
      cNextFree, currCode := 0, 0;
    }

    /** `code_init`: literal entries with no children, `c_next_free = 256`, no current match. */
    method CodeInit()
      requires codeTab.Length == TABSIZE
      modifies this, codeTab
      ensures Valid() && Abs() == EncInit()
      ensures cNextFree == 256 && currCode == EMPTY
      ensures forall i :: 0 <= i < 256 ==> codeTab[i] == CString(NO_CHILD, NO_CHILD, i)
      ensures forall i :: 256 <= i < TABSIZE ==> codeTab[i] == old(codeTab[i])
    {
      for i := 0 to 256
        modifies codeTab
        invariant forall j :: 0 <= j < i ==> codeTab[j] == CString(NO_CHILD, NO_CHILD, j)
        invariant forall j :: 256 <= j < TABSIZE ==> codeTab[j] == old(codeTab[j])
      {
        codeTab[i] := CString(NO_CHILD, NO_CHILD, i);
      }
      cNextFree := 256;
      currCode := EMPTY;
      Dict := Literals();
      Kids := seq(256, _ => []);
      Parent := seq(256, _ => EMPTY);
      InitTrie(codeTab[..]);
    }

    /**
     * `search(prefix, c)`: with no prefix the byte itself; otherwise a walk
     * of the prefix's child list for the entry whose `last` is `c`.  The
     * result is the code of the prefix's string extended by `c`, or -1.
     */
    method Search(prefix: int, c: Byte) returns (cd: int)
      requires Valid()
      requires prefix == EMPTY || 0 <= prefix < cNextFree
      ensures cd == LzwModel.Search(EncState(Dict, prefix), c)
      ensures prefix == EMPTY ==> cd == c
      ensures prefix != EMPTY && cd >= 0 ==> cd in Kids[prefix] && codeTab[cd].last == c
      ensures prefix != EMPTY && cd < 0 ==>
        cd == NO_CHILD &&
        forall i :: 0 <= i < |Kids[prefix]| ==> 0 <= Kids[prefix][i] < TABSIZE && codeTab[Kids[prefix][i]].last != c
    {
      if prefix < 0 {
        return c;
      }
      ghost var tab := codeTab[..];
      ghost var kids := Kids[prefix];
      ghost var i := 0;
      assert HeadOk(tab, Kids, prefix);
      forall j | 0 <= j < |kids| ensures 256 <= kids[j] {
        assert ChildOk(tab, Kids, Parent, prefix, j);
      }
      cd := codeTab[prefix].firstChild;
      while cd >= 0
        invariant 0 <= i <= |kids|
        invariant forall j :: 0 <= j < |kids| ==> 256 <= kids[j]
        invariant cd == (if i < |kids| then kids[i] else NO_CHILD)
        invariant forall j :: 0 <= j < i ==> 0 <= kids[j] < TABSIZE && tab[kids[j]].last != c
        decreases |kids| - i
      {
        assert ChildOk(tab, Kids, Parent, prefix, i);
        if codeTab[cd].last == c {
          break;
        }
        cd := codeTab[cd].nextChild;
        i := i + 1;
      }
      if cd >= 0 {
        SearchHit(tab, Dict, Kids, Parent, prefix, i, c);
      } else {
        SearchMiss(tab, Dict, Kids, Parent, prefix, c);
      }
    }

    /**
     * `insert(prefix, c)`: 1 when the table is full; otherwise a new entry
     * at `c_next_free` with `last = c` and no children, pushed to the front
     * of the prefix's child list, and 0.  Only called after a failed search.
     */
    method Insert(prefix: int, c: Byte) returns (full: int)
      requires TableOk() && 0 <= prefix < cNextFree
      requires Dict[prefix] + [c] !in Dict
      modifies this, codeTab
      ensures TableOk() && currCode == old(currCode)
      ensures full == (if old(cNextFree) == TABSIZE then 1 else 0)
      ensures full == 1 ==> unchanged(this) && unchanged(codeTab)
      ensures full == 0 ==>
        && cNextFree == old(cNextFree) + 1
        && Dict == old(Dict) + [old(Dict)[prefix] + [c]]
        && codeTab[..] == old(codeTab[..])[old(cNextFree) := CString(NO_CHILD, old(codeTab[prefix].firstChild), c)]
                                         [prefix := old(codeTab[prefix]).(firstChild := old(cNextFree))]
    {
      if cNextFree == TABSIZE {
        return 1;
      }
      var n := cNextFree;
      InsertTrie(codeTab[..], Dict, Kids, Parent, prefix, c);
      codeTab[n] := CString(NO_CHILD, codeTab[prefix].firstChild, c);
      codeTab[prefix] := codeTab[prefix].(firstChild := n);
      cNextFree := n + 1;
      Dict := Dict + [Dict[prefix] + [c]];
      Kids := Kids[prefix := [n] + Kids[prefix]] + [[]];
      Parent := Parent + [prefix];
      return 0;
    }

    /** `flush`: every literal loses its children and `c_next_free` returns to 256. */
    method Flush()
      requires TableOk()
      modifies this, codeTab
      ensures TableOk() && currCode == old(currCode)
      ensures cNextFree == 256 && Dict == Literals()
      ensures codeTab[..] == Flushed(old(codeTab[..]))
    {
      FlushTrie(codeTab[..], Dict, Kids, Parent);
      for i := 0 to 256
        modifies codeTab
        invariant forall j :: 0 <= j < i ==> codeTab[j] == old(codeTab[j]).(firstChild := NO_CHILD)
        invariant forall j :: i <= j < TABSIZE ==> codeTab[j] == old(codeTab[j])
      {
        codeTab[i] := codeTab[i].(firstChild := NO_CHILD);
      }
      assert codeTab[..] == Flushed(old(codeTab[..]));
      cNextFree := 256;
      Dict := Dict[..256];
      Kids := seq(256, _ => []);
      Parent := Parent[..256];
    }

    /**
     * `code(c, &cd)`: feed one byte, or EOF.  Returns 0 when the match grew,
     * 1 when `cd` holds a ready code, 2 when it does and the table was reset.
     * `cdIn` is the caller's variable, which a return of 0 leaves alone.
     */
    method Code(c: int, cdIn: int) returns (flag: int, cd: int)
      requires Valid() && (c == EOF || 0 <= c < 256)
      modifies this, codeTab
      ensures Valid()
      ensures Abs() == EncStep(old(Abs()), c).st
      ensures flag == (match EncStep(old(Abs()), c).report
                       case NoCode => 0
                       case Ready(_, reset) => if reset then 2 else 1)
      ensures flag == 0 ==> cd == cdIn
      ensures flag != 0 ==> cd == old(currCode) == EncStep(old(Abs()), c).report.cd
      // EOF and a hit leave the table alone
      ensures c == EOF ==> flag == 1
      ensures flag == 0 || c == EOF ==> unchanged(codeTab) && cNextFree == old(cNextFree)
      // a miss with room: a new entry under the old match
      ensures c != EOF && flag == 1 ==>
        codeTab[..] == old(codeTab[..])[old(cNextFree) := CString(NO_CHILD, old(codeTab[currCode].firstChild), c)]
                                       [old(currCode) := old(codeTab[currCode]).(firstChild := old(cNextFree))]
      // a miss in a full table: the trie is cleared
      ensures flag == 2 ==> codeTab[..] == Flushed(old(codeTab[..]))
    {
      if c == EOF {
        return 1, currCode;
      }
      var tmp := Search(currCode, c);
      if tmp >= 0 {
        currCode := tmp;
        return 0, cdIn;
      }
      cd := currCode;
      tmp := Insert(currCode, c);
      if tmp != 0 {
        Flush();
      }
      currCode := c;
      flag := 1 + tmp;
    }
  }

  class Decoder {
    const decodeTab: array<DString>
    /** The static output buffer of `decode`, filled from its end. */
    const buffer: array<Byte>
    var dNextFree: int
    var lastCode: int

    /** The string each code below `d_next_free` stands for. */
    ghost var Dict: seq<Str>

    ghost function Abs(): DecState
      reads this
    {
      DecState(Dict, lastCode)
    }

    /** The table stands for `Dict`, with `d_next_free` entries in use. */
    ghost predicate TableOk()
      reads this, decodeTab
    {
      && decodeTab.Length == TABSIZE && buffer.Length == BSIZE
      && dNextFree == |Dict|
      && Table(decodeTab[..], Dict)
    }

    ghost predicate Valid()
      reads this, decodeTab
    {
      TableOk() && DecOk(Abs())
    }

    /** The static storage, zero-initialised before `decode_init` runs. */
    constructor ()
      ensures fresh(decodeTab) && fresh(buffer)
      ensures decodeTab.Length == TABSIZE && buffer.Length == BSIZE
      ensures forall i :: 0 <= i < TABSIZE ==> decodeTab[i] == DString(0, 0, 0)
      ensures dNextFree == 0 && lastCode == 0
    {
      decodeTab := new DString[TABSIZE](_ => DString(0, 0, 0));
      buffer := new Byte[BSIZE](_ => 0);
      dNextFree, lastCode := 0, 0;
    }

    /** `decode_init`: literal entries with no prefix, `d_next_free = 256`, no previous code. */
    method DecodeInit()
      requires decodeTab.Length == TABSIZE && buffer.Length == BSIZE
      modifies this, decodeTab
      ensures Valid() && Abs() == DecInit()
      ensures dNextFree == 256 && lastCode == EMPTY
      ensures forall i :: 0 <= i < 256 ==> decodeTab[i] == DString(EMPTY, i, i)
      ensures forall i :: 256 <= i < TABSIZE ==> decodeTab[i] == old(decodeTab[i])
    {
      for i := 0 to 256
        modifies decodeTab
        invariant forall j :: 0 <= j < i ==> decodeTab[j] == DString(EMPTY, j, j)
        invariant forall j :: 256 <= j < TABSIZE ==> decodeTab[j] == old(decodeTab[j])
      {
        decodeTab[i] := DString(EMPTY, i, i);
      }
      dNextFree := 256;
      lastCode := EMPTY;
      Dict := Literals();
      InitTable(decodeTab[..]);
    }

    /**
     * `write_code(cd, buffer + BSIZE)`: walk the prefix chain of `cd`,
     * storing each `last` byte just before the previous one, then the
     * literal root.  Returns the length, and the bytes end the buffer.
     */
    method WriteCode(cd: int) returns (len: int)
      requires TableOk() && 0 <= cd < dNextFree
      modifies buffer
      ensures 1 <= len <= BSIZE
      ensures buffer[BSIZE - len..] == Dict[cd]
      ensures cd < 256 ==> len == 1
    {
      ghost var tab := decodeTab[..];
      StringFits(tab, Dict, cd);
      var p := BSIZE;
      var k := cd;
      len := 0;
      while k >= 256
        modifies buffer
        invariant 0 <= k <= cd
        invariant p == BSIZE - len && |Dict[k]| <= p
        invariant Dict[cd] == Dict[k] + buffer[p..]
        decreases k
      {
        assert LinkOk(tab, Dict, k);
        p := p - 1;
        buffer[p] := decodeTab[k].last;
        assert buffer[p..] == [decodeTab[k].last] + buffer[p + 1..];
        len := len + 1;
        k := decodeTab[k].prefix;
      }
      assert LinkOk(tab, Dict, k);
      p := p - 1;
      buffer[p] := k;
      assert buffer[p..] == [k] + buffer[p + 1..];
      len := len + 1;
    }

    /**
     * `decode(cd, &cp)`: make the insertion deferred from the previous call
     * (or reset when the table is full), then return the string of `cd`.
     */
    method Decode(cd: int) returns (out: Str)
      requires Valid() && Populated(Abs(), cd)
      modifies this, decodeTab, buffer
      ensures Valid()
      ensures Abs() == DecodeStep(old(Abs()), cd).st
      ensures out == DecodeStep(old(Abs()), cd).out
      ensures lastCode == cd
      // first call, or a full table (reset): nothing inserted
      ensures old(lastCode) == EMPTY ==> dNextFree == old(dNextFree) && unchanged(decodeTab)
      ensures old(lastCode) != EMPTY && old(dNextFree) == TABSIZE ==> dNextFree == 256 && unchanged(decodeTab)
      // otherwise one entry for the previous code extended by the first byte of this one
      ensures old(lastCode) != EMPTY && old(dNextFree) < TABSIZE ==>
        && dNextFree == old(dNextFree) + 1
        && decodeTab[..] == old(decodeTab[..])[old(dNextFree) := DString(old(lastCode), out[0], old(decodeTab[lastCode].first))]
    {
      ghost var d := Abs();
      if lastCode != EMPTY {
        if dNextFree == TABSIZE {
          ResetTable(decodeTab[..], Dict);
          dNextFree := 256;
          Dict := Dict[..256];
        } else {
          var n := dNextFree;
          ghost var t0 := decodeTab[..];
          InsertTable(t0, Dict, lastCode, cd);
          decodeTab[n] := decodeTab[n].(prefix := lastCode);
          decodeTab[n] := decodeTab[n].(first := decodeTab[lastCode].first);
          decodeTab[n] := decodeTab[n].(last := decodeTab[cd].first);
          assert decodeTab[n].last == (if cd < n then t0[cd].first else t0[lastCode].first);
          assert decodeTab[..] == t0[n := DString(lastCode, decodeTab[n].last, t0[lastCode].first)];
          dNextFree := n + 1;
          Dict := Dict + [Dict[lastCode] + [decodeTab[n].last]];
        }
      }
      assert Dict == Lag(d, FirstOf(d, cd));
      var len := WriteCode(cd);
      out := buffer[BSIZE - len..];
      lastCode := cd;
    }
  }
}
