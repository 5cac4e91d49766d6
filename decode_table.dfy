/**
 * The decoder's table `decode_tab` as a value, and what it must satisfy.
 *
 * Entry k names its string by a `prefix` entry and a `last` byte, and caches
 * the string's `first` byte.  `Table` ties a snapshot of the table to the
 * strings the entries stand for; the lemmas show that the deferred insertion
 * of `decode` and its reset keep the tie.
 */
module DecodeTable {
  import opened LzwModel

  /** An entry of `decode_tab` (D_STRING). */
  datatype DString = DString(prefix: int, last: Byte, first: Byte)

  /**
   * Entry k caches the first byte of its string; a non-literal entry extends
   * a smaller entry's string by `last`, and is no longer than its position
   * allows, so that every string fits in the BSIZE bytes of `decode`'s buffer.
   */
  ghost predicate LinkOk(tab: seq<DString>, dict: seq<Str>, k: int)
  {
    && 0 <= k < |dict| <= |tab| && dict[k] != []
    && tab[k].first == dict[k][0]
    && (k >= 256 ==>
          && 0 <= tab[k].prefix < k
          && dict[k] == dict[tab[k].prefix] + [tab[k].last]
          && |dict[k]| <= k - 254)
  }

  ghost predicate Table(tab: seq<DString>, dict: seq<Str>)
  {
    |tab| == TABSIZE && DictOk(dict) && forall k :: 0 <= k < |dict| ==> LinkOk(tab, dict, k)
  }

  /** The table `decode_init` leaves: literal entries, each its own first and last byte. */
  lemma InitTable(tab: seq<DString>)
    requires |tab| == TABSIZE
    requires forall i :: 0 <= i < 256 ==> tab[i] == DString(EMPTY, i, i)
    ensures Table(tab, Literals())
  {
    forall k | 0 <= k < 256 ensures LinkOk(tab, Literals(), k) {}
  }

  /** Every string in the table is at most BSIZE long. */
  lemma StringFits(tab: seq<DString>, dict: seq<Str>, k: int)
    requires Table(tab, dict) && 0 <= k < |dict|
    ensures 1 <= |dict[k]| <= BSIZE
  {
    assert LinkOk(tab, dict, k);
  }

  /**
   * The deferred insertion of `decode`: a new entry with prefix `last`,
   * the first byte of `last`'s string, and as `last` byte the first byte of
   * the incoming code's string, read after `first` is set, so that a code
   * naming the entry being made reads the entry's own first byte.
   */
  lemma InsertTable(tab: seq<DString>, dict: seq<Str>, last: int, cd: int)
    requires Table(tab, dict) && 0 <= last < |dict| < TABSIZE && 0 <= cd <= |dict|
    ensures var n := |dict|;
      var b := if cd < n then tab[cd].first else tab[last].first;
      && b == FirstOf(DecState(dict, last), cd)
      && Table(tab[n := DString(last, b, tab[last].first)], dict + [dict[last] + [b]])
  {
    var n := |dict|;
    var b := if cd < n then tab[cd].first else tab[last].first;
    var tab' := tab[n := DString(last, b, tab[last].first)];
    var dict' := dict + [dict[last] + [b]];
    assert LinkOk(tab, dict, last);
    if cd < n {
      assert LinkOk(tab, dict, cd);
    }
    forall k | 0 <= k < |dict'| ensures LinkOk(tab', dict', k) {
      if k < n {
        assert LinkOk(tab, dict, k);
      }
    }
  }

  /** The reset of `decode`: the literal entries alone still form a table. */
  lemma ResetTable(tab: seq<DString>, dict: seq<Str>)
    requires Table(tab, dict)
    ensures Table(tab, dict[..256]) && dict[..256] == Literals()
  {
    forall k | 0 <= k < 256 ensures LinkOk(tab, dict[..256], k) {
      assert LinkOk(tab, dict, k);
    }
  }
}
