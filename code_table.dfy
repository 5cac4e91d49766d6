/**
 * The encoder's trie `code_tab` as a value, and what it must satisfy.
 *
 * Entry p of the table heads a singly linked list of the codes whose string
 * is p's extended by one byte: `first_child` points at the newest of them and
 * each child's `next_child` at the next older one.  `Trie` ties a snapshot
 * of the table to three ghost views — the string of every code, the child
 * list of every code in list order, and the entry each code was inserted
 * under — and the lemmas here show that `code_init`, `insert` and `flush`
 * keep that tie.  Each quantified fact is wrapped in a named predicate on
 * one index, so that the solver uses it only where a proof names it.
 */
module CodeTable {
  import opened LzwModel

  /** An entry of `code_tab` (C_STRING). */
  datatype CString = CString(firstChild: int, nextChild: int, last: Byte)

  /** The head of a child list, or NO_CHILD. */
  function HeadOr(kids: seq<int>): int
  {
    if kids == [] then NO_CHILD else kids[0]
  }

  /** The sibling after position i of a child list, or NO_CHILD. */
  function NextOr(kids: seq<int>, i: int): int
  {
    if 0 <= i && i + 1 < |kids| then kids[i + 1] else NO_CHILD
  }

  /** Appending one element is injective. */
  lemma SnocInjective<T>(a: seq<T>, x: T, b: seq<T>, y: T)
    ensures a + [x] == b + [y] ==> a == b && x == y
  {
    if a + [x] == b + [y] {
      assert a == (a + [x])[..|a|];
      assert b == (b + [y])[..|b|];
    }
  }

  /** `first_child` of p heads p's child list. */
  ghost predicate HeadOk(tab: seq<CString>, kids: seq<seq<int>>, p: int)
  {
    0 <= p < |kids| && p < |tab| && tab[p].firstChild == HeadOr(kids[p])
  }

  /** The i-th child of p is a later entry inserted under p, linked to the next child. */
  ghost predicate ChildOk(tab: seq<CString>, kids: seq<seq<int>>, parent: seq<int>, p: int, i: int)
  {
    && 0 <= p < |kids| && 0 <= i < |kids[p]|
    && p < kids[p][i] && 256 <= kids[p][i] < |kids| && |kids| <= |parent| && |kids| <= |tab|
    && parent[kids[p][i]] == p
    && tab[kids[p][i]].nextChild == NextOr(kids[p], i)
  }

  /** Entry k stands for its parent's string extended by its `last` byte, and is in the parent's list. */
  ghost predicate EntryOk(tab: seq<CString>, dict: seq<Str>, kids: seq<seq<int>>, parent: seq<int>, k: int)
  {
    && 256 <= k < |dict| && |dict| == |kids| == |parent| && |dict| <= |tab|
    && 0 <= parent[k] < k
    && k in kids[parent[k]]
    && dict[k] == dict[parent[k]] + [tab[k].last]
  }

  ghost predicate Trie(tab: seq<CString>, dict: seq<Str>, kids: seq<seq<int>>, parent: seq<int>)
  {
    && |tab| == TABSIZE && |dict| == |kids| == |parent|
    && DictOk(dict) && Injective(dict)
    && (forall k :: 0 <= k < 256 ==> tab[k].last == k)
    && (forall p :: 0 <= p < |kids| ==> HeadOk(tab, kids, p))
    && (forall p, i :: 0 <= p < |kids| && 0 <= i < |kids[p]| ==> ChildOk(tab, kids, parent, p, i))
    && (forall k :: 256 <= k < |dict| ==> EntryOk(tab, dict, kids, parent, k))
  }

  /** The table `code_init` leaves: literal entries without children. */
  lemma InitTrie(tab: seq<CString>)
    requires |tab| == TABSIZE
    requires forall i :: 0 <= i < 256 ==> tab[i] == CString(NO_CHILD, NO_CHILD, i)
    ensures Trie(tab, Literals(), seq(256, _ => []), seq(256, _ => EMPTY))
  {
    var kids: seq<seq<int>> := seq(256, _ => []);
    forall p | 0 <= p < 256 ensures HeadOk(tab, kids, p) {}
  }

  /** A child of `prefix` whose `last` is c is the code of prefix's string extended by c. */
  lemma SearchHit(tab: seq<CString>, dict: seq<Str>, kids: seq<seq<int>>, parent: seq<int>,
                  prefix: int, i: int, c: Byte)
    requires Trie(tab, dict, kids, parent)
    requires 0 <= prefix < |kids| && 0 <= i < |kids[prefix]|
    requires 0 <= kids[prefix][i] < |tab| && tab[kids[prefix][i]].last == c
    ensures 0 <= kids[prefix][i] < |dict| && dict[kids[prefix][i]] == dict[prefix] + [c]
    ensures IndexOf(dict, dict[prefix] + [c]) == kids[prefix][i]
  {
    var k := kids[prefix][i];
    assert ChildOk(tab, kids, parent, prefix, i);
    assert EntryOk(tab, dict, kids, parent, k);
    IndexOfUnique(dict, k);
  }

  /** When no child of `prefix` ends in c, prefix's string extended by c has no code. */
  lemma SearchMiss(tab: seq<CString>, dict: seq<Str>, kids: seq<seq<int>>, parent: seq<int>,
                   prefix: int, c: Byte)
    requires Trie(tab, dict, kids, parent) && 0 <= prefix < |kids|
    requires forall i :: 0 <= i < |kids[prefix]| ==> 0 <= kids[prefix][i] < |tab| && tab[kids[prefix][i]].last != c
    ensures dict[prefix] + [c] !in dict
  {
    forall j | 0 <= j < |dict| ensures dict[j] != dict[prefix] + [c] {
      if j >= 256 && dict[j] == dict[prefix] + [c] {
        assert EntryOk(tab, dict, kids, parent, j);
        SnocInjective(dict[parent[j]], tab[j].last, dict[prefix], c);
        assert false;
      }
    }
  }

  /** `insert(prefix, c)` with room: the new entry n, pushed onto prefix's list. */
  lemma InsertTrie(tab: seq<CString>, dict: seq<Str>, kids: seq<seq<int>>, parent: seq<int>,
                   prefix: int, c: Byte)
    requires Trie(tab, dict, kids, parent)
    requires 0 <= prefix < |dict| < TABSIZE && dict[prefix] + [c] !in dict
    ensures var n := |dict|;
      Trie(tab[n := CString(NO_CHILD, tab[prefix].firstChild, c)][prefix := tab[prefix].(firstChild := n)],
           dict + [dict[prefix] + [c]],
           kids[prefix := [n] + kids[prefix]] + [[]],
           parent + [prefix])
  {
    var n := |dict|;
    var tab' := tab[n := CString(NO_CHILD, tab[prefix].firstChild, c)][prefix := tab[prefix].(firstChild := n)];
    var dict' := dict + [dict[prefix] + [c]];
    var kids' := kids[prefix := [n] + kids[prefix]] + [[]];
    var parent' := parent + [prefix];
    assert Injective(dict') by {
      forall i, j | 0 <= i < j < |dict'| ensures dict'[i] != dict'[j] {
        if j == n { assert dict'[i] in dict; }
      }
    }
    forall p | 0 <= p < |kids'| ensures HeadOk(tab', kids', p) {
      if p < n && p != prefix { assert HeadOk(tab, kids, p); }
    }
    forall p, i | 0 <= p < |kids'| && 0 <= i < |kids'[p]| ensures ChildOk(tab', kids', parent', p, i) {
      if p == prefix {
        if i == 0 {
          assert HeadOk(tab, kids, prefix);
        } else {
          assert ChildOk(tab, kids, parent, prefix, i - 1);
        }
      } else {
        assert ChildOk(tab, kids, parent, p, i);
      }
    }
    forall k | 256 <= k < |dict'| ensures EntryOk(tab', dict', kids', parent', k) {
      if k < n {
        assert EntryOk(tab, dict, kids, parent, k);
        if parent[k] == prefix {
          assert k in kids'[prefix];
        }
      } else {
        assert kids'[prefix][0] == n;
      }
    }
  }

  /** The table after `flush`: literals without children, the rest left as it was. */
  function Flushed(tab: seq<CString>): (r: seq<CString>)
    requires |tab| == TABSIZE
    ensures |r| == TABSIZE
  {
    seq(|tab|, i requires 0 <= i < |tab| => if i < 256 then tab[i].(firstChild := NO_CHILD) else tab[i])
  }

  /** `flush` clears only the literals' child lists: every other field and entry is kept. */
  lemma FlushedEntries(tab: seq<CString>)
    requires |tab| == TABSIZE
    ensures forall i :: 0 <= i < 256 ==>
      Flushed(tab)[i].firstChild == NO_CHILD && Flushed(tab)[i].nextChild == tab[i].nextChild
      && Flushed(tab)[i].last == tab[i].last
    ensures forall i :: 256 <= i < TABSIZE ==> Flushed(tab)[i] == tab[i]
  {}

  lemma FlushTrie(tab: seq<CString>, dict: seq<Str>, kids: seq<seq<int>>, parent: seq<int>)
    requires Trie(tab, dict, kids, parent)
    ensures Trie(Flushed(tab), dict[..256], seq(256, _ => []), parent[..256])
    ensures dict[..256] == Literals()
  {
    var kids': seq<seq<int>> := seq(256, _ => []);
    forall p | 0 <= p < 256 ensures HeadOk(Flushed(tab), kids', p) {}
  }
}
