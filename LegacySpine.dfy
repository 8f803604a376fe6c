/**
 * The shape every tree of the earlier Node.cs takes, as a value. Its
 * RotateLeft does not refuse a node that already has a left child, so a
 * spine node subtracts a whole chain of nodes, each the left child of the
 * one before ("IXC" is C minus the chain X, I: 100 - (10 - 1)).
 */
module LegacySpine {
  import opened Numerals

  /**
   * A spine node below the root: `mult` copies of `numeral`, minus the
   * chain `subs` of left descendants, its direct left child first.
   */
  datatype Entry = Entry(numeral: Numeral, mult: nat, subs: seq<Numeral>)

  /** The repetition cap hard-coded in Append. */
  const MaxRepetitions: nat := 3

  function Last(spine: seq<Entry>): Entry
    requires spine != []
  {
    spine[|spine| - 1]
  }

  /**
   * Append of one symbol to the last spine node (or to the root when the
   * spine is empty); None is a thrown exception.
   */
  function Appended(spine: seq<Entry>, n: Numeral): Option<seq<Entry>>
  {
    if spine == [] then
      Some([Entry(n, 1, [])])
    else
      var cur := Last(spine);
      if n == cur.numeral then
        if cur.subs != [] || cur.mult == MaxRepetitions then None
        else Some(spine[..|spine| - 1] + [cur.(mult := cur.mult + 1)])
      else if Below(n, cur.numeral) then
        Some(spine + [Entry(n, 1, [])])
      else
        RotatedLeft(spine, n)
  }

  /**
   * RotateLeft of the last spine node once the higher symbol `n` hangs as
   * its right child: the last node, with its own chain, becomes the left
   * child of `n`.
   */
  function RotatedLeft(spine: seq<Entry>, n: Numeral): Option<seq<Entry>>
    requires spine != []
  {
    var cur := Last(spine);
    if cur.mult > 1 then None
    else Some(spine[..|spine| - 1] + [Entry(n, 1, [cur.numeral] + cur.subs)])
  }

  /** The tree that a sequence of symbols builds from a fresh root. */
  function Built(ns: seq<Numeral>): Option<seq<Entry>>
  {
    if ns == [] then Some([])
    else
      match Built(ns[..|ns| - 1])
      case None => None
      case Some(spine) => Appended(spine, ns[|ns| - 1])
  }

  /** GetValue of the chain node holding subs[0]: its weight minus the rest of the chain. */
  function ChainValue(subs: seq<Numeral>): int
  {
    if subs == [] then 0 else Weight(subs[0]) - ChainValue(subs[1..])
  }

  /** GetValue of one spine node without its right subtree. */
  function EntryValue(e: Entry): int
  {
    e.mult * Weight(e.numeral) - ChainValue(e.subs)
  }

  /** GetValue of the subtree hanging from the first entry of `spine`. */
  function Value(spine: seq<Entry>): int
  {
    if spine == [] then 0 else EntryValue(spine[0]) + Value(spine[1..])
  }

  /** In-order symbols of a chain: the deepest node first. */
  function ChainSymbols(subs: seq<Numeral>): seq<Numeral>
  {
    if subs == [] then [] else ChainSymbols(subs[1..]) + [subs[0]]
  }

  function EntrySymbols(e: Entry): seq<Numeral>
  {
    ChainSymbols(e.subs) + Repeat(e.numeral, e.mult)
  }

  /** In-order symbols of the whole tree: left, node times multiplier, right. */
  function Symbols(spine: seq<Entry>): seq<Numeral>
  {
    if spine == [] then [] else EntrySymbols(spine[0]) + Symbols(spine[1..])
  }

  /** The first symbol, in reading order, of a spine node. */
  function First(e: Entry): Numeral
  {
    if e.subs == [] then e.numeral else e.subs[|e.subs| - 1]
  }

  /** Each node of a chain weighs less than the node it hangs from. */
  predicate Descending(subs: seq<Numeral>, top: Numeral)
  {
    && (subs != [] ==> Below(subs[0], top))
    && (forall i :: 0 < i < |subs| ==> Below(subs[i], subs[i - 1]))
  }

  predicate EntryOk(e: Entry)
  {
    && 1 <= e.mult <= MaxRepetitions
    && (e.subs != [] ==> e.mult == 1)
    && Descending(e.subs, e.numeral)
  }

  /**
   * The invariant of every tree this revision builds: repetition counts
   * within the cap, only single nodes subtracted from, chains descending,
   * and each node starting below the symbol of the node before it.
   */
  predicate WellFormed(spine: seq<Entry>)
  {
    && (forall k :: 0 <= k < |spine| ==> EntryOk(spine[k]))
    && (forall k :: 0 < k < |spine| ==> Below(First(spine[k]), spine[k - 1].numeral))
  }

  // ---------------------------------------------------------------------
  // One append

  /** Each successful append keeps the invariant. */
  lemma AppendedWellFormed(spine: seq<Entry>, n: Numeral)
    requires WellFormed(spine)
    requires Appended(spine, n).Some?
    ensures WellFormed(Appended(spine, n).value)
  {
    if spine == [] {
      WellFormedSnoc([], Entry(n, 1, []));
    } else {
      var cur := Last(spine);
      var front := spine[..|spine| - 1];
      assert EntryOk(cur);
      if Below(n, cur.numeral) {
        WellFormedSnoc(spine, Entry(n, 1, []));
      } else {
        WellFormedFront(spine);
        if n == cur.numeral {
          WellFormedSnoc(front, cur.(mult := cur.mult + 1));
        } else {
          WeightInjective(n, cur.numeral);
          assert Appended(spine, n) == RotatedLeft(spine, n);
          RotatedEntryOk(cur, n);
          WellFormedSnoc(front, Entry(n, 1, [cur.numeral] + cur.subs));
        }
      }
    }
  }

  lemma WellFormedFront(spine: seq<Entry>)
    requires WellFormed(spine) && spine != []
    ensures WellFormed(spine[..|spine| - 1])
    ensures |spine| >= 2 ==> Below(First(Last(spine)), spine[|spine| - 2].numeral)
  {
  }

  /** A lone node moved under a higher symbol heads a descending chain that starts where it did. */
  lemma RotatedEntryOk(cur: Entry, n: Numeral)
    requires EntryOk(cur) && cur.mult == 1 && Below(cur.numeral, n)
    ensures EntryOk(Entry(n, 1, [cur.numeral] + cur.subs))
    ensures First(Entry(n, 1, [cur.numeral] + cur.subs)) == First(cur)
  {
    var subs := [cur.numeral] + cur.subs;
    forall i | 0 < i < |subs|
      ensures Below(subs[i], subs[i - 1])
    {
      if i > 1 {
        assert subs[i] == cur.subs[i - 1] && subs[i - 1] == cur.subs[i - 2];
      }
    }
  }

  /** A node that keeps the invariant and fits after the last one extends a well-formed spine. */
  lemma WellFormedSnoc(front: seq<Entry>, e: Entry)
    requires WellFormed(front) && EntryOk(e)
    requires front != [] ==> Below(First(e), Last(front).numeral)
    ensures WellFormed(front + [e])
  {
    var next := front + [e];
    forall k | 0 <= k < |next|
      ensures EntryOk(next[k])
      ensures k > 0 ==> Below(First(next[k]), next[k - 1].numeral)
    {
      if k < |front| {
        assert next[k] == front[k];
      }
      if 0 < k {
        assert next[k - 1] == front[k - 1];
      }
    }
  }

  /** Each successful append adds exactly the appended symbol to the in-order sequence. */
  lemma AppendedSymbols(spine: seq<Entry>, n: Numeral)
    requires WellFormed(spine)
    requires Appended(spine, n).Some?
    ensures Symbols(Appended(spine, n).value) == Symbols(spine) + [n]
  {
    if spine == [] {
      SymbolsSnoc([], Entry(n, 1, []));
    } else {
      var cur := Last(spine);
      var front := spine[..|spine| - 1];
      assert spine == front + [cur];
      assert EntryOk(cur);
      if n == cur.numeral {
        assert Appended(spine, n).value == front + [cur.(mult := cur.mult + 1)];
        SymbolsRepeated(front, cur);
      } else if Below(n, cur.numeral) {
        SymbolsSnoc(spine, Entry(n, 1, []));
      } else {
        assert Appended(spine, n) == RotatedLeft(spine, n);
        SymbolsRotated(front, cur, n);
      }
    }
  }

  lemma SymbolsRepeated(front: seq<Entry>, cur: Entry)
    ensures Symbols(front + [cur.(mult := cur.mult + 1)]) == Symbols(front + [cur]) + [cur.numeral]
  {
    var e := cur.(mult := cur.mult + 1);
    SymbolsSnoc(front, cur);
    SymbolsSnoc(front, e);
    assert Repeat(cur.numeral, e.mult) == Repeat(cur.numeral, cur.mult) + [cur.numeral];
  }

  lemma SymbolsRotated(front: seq<Entry>, cur: Entry, n: Numeral)
    requires cur.mult == 1
    ensures Symbols(front + [Entry(n, 1, [cur.numeral] + cur.subs)]) == Symbols(front + [cur]) + [n]
  {
    var subs := [cur.numeral] + cur.subs;
    SymbolsSnoc(front, cur);
    SymbolsSnoc(front, Entry(n, 1, subs));
    assert subs[1..] == cur.subs;
    assert ChainSymbols(subs) == ChainSymbols(cur.subs) + [cur.numeral];
  }

  lemma SymbolsSnoc(front: seq<Entry>, e: Entry)
    ensures Symbols(front + [e]) == Symbols(front) + EntrySymbols(e)
  {
    SymbolsConcat(front, [e]);
    assert [e][1..] == [];
  }

  lemma {:induction false} SymbolsConcat(a: seq<Entry>, b: seq<Entry>)
    ensures Symbols(a + b) == Symbols(a) + Symbols(b)
  {
    if a != [] {
      assert (a + b)[0] == a[0];
      assert (a + b)[1..] == a[1..] + b;
      SymbolsConcat(a[1..], b);
    } else {
      assert a + b == b;
    }
  }

  // ---------------------------------------------------------------------
  // Whole inputs

  /** Every tree built from any input satisfies the invariant. */
  lemma {:induction false} BuiltWellFormed(ns: seq<Numeral>)
    requires Built(ns).Some?
    ensures WellFormed(Built(ns).value)
  {
    if ns != [] {
      BuiltWellFormed(ns[..|ns| - 1]);
      AppendedWellFormed(Built(ns[..|ns| - 1]).value, ns[|ns| - 1]);
    }
  }

  /** The in-order symbols of a built tree are exactly the symbols consumed. */
  lemma {:induction false} BuiltSymbols(ns: seq<Numeral>)
    requires Built(ns).Some?
    ensures Symbols(Built(ns).value) == ns
  {
    if ns != [] {
      var front := ns[..|ns| - 1];
      BuiltSymbols(front);
      BuiltWellFormed(front);
      AppendedSymbols(Built(front).value, ns[|ns| - 1]);
      assert front + [ns[|ns| - 1]] == ns;
    }
  }

  /** Building one more symbol is one more append to what the others built. */
  lemma BuiltStep(ns: seq<Numeral>, n: Numeral, spine: seq<Entry>, next: Option<seq<Entry>>)
    requires Built(ns) == Some(spine) && Appended(spine, n) == next
    ensures Built(ns + [n]) == next
  {
    assert (ns + [n])[..|ns|] == ns;
  }

  /** A failed prefix fails the whole input. */
  lemma {:induction false} BuiltPrefix(ns: seq<Numeral>, k: nat)
    requires k <= |ns|
    requires Built(ns).Some?
    ensures Built(ns[..k]).Some?
  {
    if k < |ns| {
      assert ns[..|ns| - 1][..k] == ns[..k];
      BuiltPrefix(ns[..|ns| - 1], k);
    } else {
      assert ns[..k] == ns;
    }
  }

  // ---------------------------------------------------------------------
  // Values

  /** A descending chain takes away less than the node it hangs from weighs, and never adds. */
  lemma {:induction false} ChainValueBounds(subs: seq<Numeral>, top: Numeral)
    requires Descending(subs, top)
    ensures 0 <= ChainValue(subs) < Weight(top)
    ensures subs != [] ==> 0 < ChainValue(subs) <= Weight(subs[0])
  {
    if subs != [] {
      var rest := subs[1..];
      assert Descending(rest, subs[0]) by {
        forall i | 0 < i < |rest| ensures Below(rest[i], rest[i - 1]) {
          assert rest[i] == subs[i + 1];
        }
      }
      ChainValueBounds(rest, subs[0]);
    }
  }

  /** A non-empty well-formed spine is worth more than nothing. */
  lemma {:induction false} ValuePositive(spine: seq<Entry>)
    requires WellFormed(spine)
    ensures spine == [] ==> Value(spine) == 0
    ensures spine != [] ==> Value(spine) > 0
  {
    if spine != [] {
      var rest := spine[1..];
      assert WellFormed(rest) by {
        forall k | 0 < k < |rest| ensures Below(First(rest[k]), rest[k - 1].numeral) {
          assert rest[k] == spine[k + 1];
        }
      }
      ValuePositive(rest);
      assert EntryOk(spine[0]);
      ChainValueBounds(spine[0].subs, spine[0].numeral);
    }
  }

  /** No node subtracts more than one symbol. */
  predicate Flat(spine: seq<Entry>)
  {
    forall k :: 0 <= k < |spine| ==> |spine[k].subs| <= 1
  }

  /**
   * Where no chain is longer than one node, the tree value is the textbook
   * reading of its symbols; "IXC" shows that a longer chain breaks this.
   */
  lemma {:induction false} FlatValueIsClassic(spine: seq<Entry>)
    requires WellFormed(spine) && Flat(spine)
    ensures Value(spine) == Classic(Symbols(spine))
  {
    if spine != [] {
      var e := spine[0];
      var rest := spine[1..];
      assert WellFormed(rest) by {
        forall k | 0 < k < |rest| ensures Below(First(rest[k]), rest[k - 1].numeral) {
          assert rest[k] == spine[k + 1];
        }
      }
      assert Flat(rest) by {
        forall k | 0 <= k < |rest| ensures |rest[k].subs| <= 1 {
          assert rest[k] == spine[k + 1];
        }
      }
      FlatValueIsClassic(rest);
      assert EntryOk(e) && |e.subs| <= 1;
      FlatEntryClassic(e);
      var es := EntrySymbols(e);
      if rest != [] {
        FlatSymbolsStart(rest);
        assert Below(First(spine[1]), spine[0].numeral);
      }
      ClassicConcat(es, Symbols(rest));
    }
  }

  lemma FlatEntryClassic(e: Entry)
    requires EntryOk(e) && |e.subs| <= 1
    ensures |EntrySymbols(e)| > 0 && EntrySymbols(e)[|EntrySymbols(e)| - 1] == e.numeral
    ensures Classic(EntrySymbols(e)) == EntryValue(e)
  {
    if e.subs == [] {
      assert EntrySymbols(e) == Repeat(e.numeral, e.mult);
      ClassicRepeat(e.numeral, e.mult);
    } else {
      assert e.subs[1..] == [];
      assert ChainSymbols(e.subs) == [e.subs[0]];
      assert Repeat(e.numeral, 1) == [e.numeral];
      assert EntrySymbols(e) == [e.subs[0], e.numeral];
      assert [e.subs[0], e.numeral][1..] == [e.numeral];
      assert ChainValue(e.subs) == Weight(e.subs[0]);
    }
  }

  lemma FlatSymbolsStart(spine: seq<Entry>)
    requires spine != [] && EntryOk(spine[0]) && |spine[0].subs| <= 1
    ensures |Symbols(spine)| > 0 && Symbols(spine)[0] == First(spine[0])
  {
    var e := spine[0];
    if e.subs != [] {
      assert e.subs[1..] == [];
      assert ChainSymbols(e.subs) == [e.subs[0]];
    }
  }
}
