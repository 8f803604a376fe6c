/**
 * The shape every tree of Model/Node.cs takes, as a value: the nodes on the
 * root's right spine, first to last, each with its symbol, its repeat
 * counter and the one symbol it subtracts (its left leaf), if any.
 * Appended and RotatedLeft are what Node.Append and Node.RotateLeft do to
 * that shape; the class in ModelNode.dfy is proved against them.
 */
module Spine {
  import opened Numerals

  /** A spine node below the root: `mult` copies of `numeral`, minus `sub`. */
  datatype Entry = Entry(numeral: Numeral, mult: nat, sub: Option<Numeral>)

  /** The repetition cap hard-coded in Append (the MaximumRepetitions.meThree case). */
  const MaxRepetitions: nat := 3

  function Last(spine: seq<Entry>): Entry
    requires spine != []
  {
    spine[|spine| - 1]
  }

  /**
   * Append of one symbol to the last spine node (or to the root when the
   * spine is empty); None is the FormatException.
   */
  function Appended(spine: seq<Entry>, n: Numeral): Option<seq<Entry>>
  {
    if spine == [] then
      Some([Entry(n, 1, None)])
    else
      var cur := Last(spine);
      if n == cur.numeral then
        if cur.sub.Some? || IsFive(n) || cur.mult == MaxRepetitions then None
        else Some(spine[..|spine| - 1] + [cur.(mult := cur.mult + 1)])
      else if Below(n, cur.numeral) then
        if cur.sub == Some(n) then None
        else Some(spine + [Entry(n, 1, None)])
      else
        if IsFive(cur.numeral) || Weight(n) / Weight(cur.numeral) > 10 then None
        else RotatedLeft(spine, n)
  }

  /**
   * RotateLeft of the last spine node once the higher symbol `n` hangs as its
   * right child: the last node becomes the subtracted left child of `n`.
   */
  function RotatedLeft(spine: seq<Entry>, n: Numeral): Option<seq<Entry>>
    requires spine != []
  {
    var cur := Last(spine);
    var parent := if |spine| == 1 then None else Some(spine[|spine| - 2].numeral);
    if cur.mult > 1 || cur.sub.Some? || parent == Some(n) then None
    else Some(spine[..|spine| - 1] + [Entry(n, 1, Some(cur.numeral))])
  }

  /** The tree that a sequence of symbols builds from a fresh root. */
  function Built(ns: seq<Numeral>): Option<seq<Entry>>
  {
    if ns == [] then Some([])
    else
      match Built(ns[..|ns| - 1])
      case None => None
      case Some(spine) => Appended(spine, ns[|ns| - 1])
  }

  /** GetDecimalValue of one spine node without its right subtree. */
  function EntryValue(e: Entry): int
  {
    e.mult * Weight(e.numeral) - (if e.sub.Some? then Weight(e.sub.value) else 0)
  }

  /** GetDecimalValue of the subtree hanging from the first entry of `spine`. */
  function Value(spine: seq<Entry>): int
  {
    if spine == [] then 0 else EntryValue(spine[0]) + Value(spine[1..])
  }

  /** In-order symbols of one spine node and its left leaf. */
  function EntrySymbols(e: Entry): seq<Numeral>
  {
    (if e.sub.Some? then [e.sub.value] else []) + Repeat(e.numeral, e.mult)
  }

  /** In-order symbols of the whole tree: left, node times multiplier, right. */
  function Symbols(spine: seq<Entry>): seq<Numeral>
  {
    if spine == [] then [] else EntrySymbols(spine[0]) + Symbols(spine[1..])
  }

  /** The first symbol, in reading order, of a spine node. */
  function First(e: Entry): Numeral
  {
    if e.sub.Some? then e.sub.value else e.numeral
  }

  /** `s` may be written before `n` to be subtracted from it. */
  predicate Subtractive(s: Numeral, n: Numeral)
  {
    Below(s, n) && !IsFive(s) && Weight(n) / Weight(s) <= 10
  }

  /** The grammar rules one spine node obeys. */
  predicate EntryOk(e: Entry)
  {
    && 1 <= e.mult <= MaxRepetitions
    && (IsFive(e.numeral) ==> e.mult == 1)
    && (e.sub.Some? ==> e.mult == 1 && Subtractive(e.sub.value, e.numeral))
  }

  /**
   * The invariant of every tree the parser builds: each node obeys the
   * grammar, no two neighbours hold the same symbol, and each node starts
   * below the symbol of the node before it.
   */
  predicate WellFormed(spine: seq<Entry>)
  {
    && (forall k :: 0 <= k < |spine| ==> EntryOk(spine[k]))
    && (forall k :: 0 < k < |spine| ==> spine[k].numeral != spine[k - 1].numeral)
    && (forall k :: 0 < k < |spine| ==> Below(First(spine[k]), spine[k - 1].numeral))
  }

  // ---------------------------------------------------------------------
  // One append

  /** The six subtractive pairs the grammar admits, and no others. */
  lemma SubtractivePairs(s: Numeral, n: Numeral)
    ensures Subtractive(s, n) <==>
      (s, n) in {(I, V), (I, X), (X, L), (X, C), (C, D), (C, M)}
  {
  }

  /** Each successful append keeps the invariant. */
  lemma AppendedWellFormed(spine: seq<Entry>, n: Numeral)
    requires WellFormed(spine)
    requires Appended(spine, n).Some?
    ensures WellFormed(Appended(spine, n).value)
  {
    if spine == [] {
      WellFormedSnoc([], Entry(n, 1, None));
    } else {
      var cur := Last(spine);
      var front := spine[..|spine| - 1];
      assert EntryOk(cur);
      if Below(n, cur.numeral) {
        WellFormedSnoc(spine, Entry(n, 1, None));
      } else {
        WellFormedFront(spine);
        if n == cur.numeral {
          WellFormedSnoc(front, cur.(mult := cur.mult + 1));
        } else {
          assert Subtractive(cur.numeral, n);
          WellFormedSnoc(front, Entry(n, 1, Some(cur.numeral)));
        }
      }
    }
  }

  lemma WellFormedFront(spine: seq<Entry>)
    requires WellFormed(spine) && spine != []
    ensures WellFormed(spine[..|spine| - 1])
    ensures |spine| >= 2 ==> spine[|spine| - 2].numeral != Last(spine).numeral
    ensures |spine| >= 2 ==> Below(First(Last(spine)), spine[|spine| - 2].numeral)
  {
  }

  /** A node that obeys the grammar and fits after the last one extends a well-formed spine. */
  lemma WellFormedSnoc(front: seq<Entry>, e: Entry)
    requires WellFormed(front) && EntryOk(e)
    requires front != [] ==> e.numeral != Last(front).numeral && Below(First(e), Last(front).numeral)
    ensures WellFormed(front + [e])
  {
    var next := front + [e];
    forall k | 0 <= k < |next|
      ensures EntryOk(next[k])
      ensures k > 0 ==> next[k].numeral != next[k - 1].numeral && Below(First(next[k]), next[k - 1].numeral)
    {
      if k < |front| {
        assert next[k] == front[k];
      }
      if 0 < k {
        assert next[k - 1] == front[k - 1];
      }
    }
  }

  /** Each successful append adds exactly the appended symbol to the in-order sequence. */
  lemma AppendedSymbols(spine: seq<Entry>, n: Numeral)
    requires WellFormed(spine)
    requires Appended(spine, n).Some?
    ensures Symbols(Appended(spine, n).value) == Symbols(spine) + [n]
  {
    if spine == [] {
      SymbolsSnoc([], Entry(n, 1, None));
    } else {
      var cur := Last(spine);
      var front := spine[..|spine| - 1];
      assert spine == front + [cur];
      assert EntryOk(cur);
      if n == cur.numeral {
        SymbolsRepeated(front, cur);
      } else if Below(n, cur.numeral) {
        SymbolsSnoc(spine, Entry(n, 1, None));
      } else {
        SymbolsRotated(front, cur, n);
      }
    }
  }

  lemma SymbolsRepeated(front: seq<Entry>, cur: Entry)
    ensures Symbols(front + [cur.(mult := cur.mult + 1)]) == Symbols(front + [cur]) + [cur.numeral]
  {
    var e := cur.(mult := cur.mult + 1);
    SymbolsSnoc(front, cur);
    SymbolsSnoc(front, e);
    assert Repeat(cur.numeral, e.mult) == Repeat(cur.numeral, cur.mult) + [cur.numeral];
  }

  lemma SymbolsRotated(front: seq<Entry>, cur: Entry, n: Numeral)
    requires cur.mult == 1 && cur.sub.None?
    ensures Symbols(front + [Entry(n, 1, Some(cur.numeral))]) == Symbols(front + [cur]) + [n]
  {
    SymbolsSnoc(front, cur);
    SymbolsSnoc(front, Entry(n, 1, Some(cur.numeral)));
    assert EntrySymbols(cur) == [cur.numeral];
  }

  lemma SymbolsSnoc(front: seq<Entry>, e: Entry)
    ensures Symbols(front + [e]) == Symbols(front) + EntrySymbols(e)
  {
    SymbolsConcat(front, [e]);
    assert [e][1..] == [];
  }

  lemma {:induction false} SymbolsConcat(a: seq<Entry>, b: seq<Entry>)
    ensures Symbols(a + b) == Symbols(a) + Symbols(b)
  {
    if a != [] {
      assert (a + b)[0] == a[0];
      assert (a + b)[1..] == a[1..] + b;
      SymbolsConcat(a[1..], b);
    } else {
      assert a + b == b;
    }
  }

  // ---------------------------------------------------------------------
  // Whole inputs

  /** Every tree built from any input satisfies the invariant. */
  lemma {:induction false} BuiltWellFormed(ns: seq<Numeral>)
    requires Built(ns).Some?
    ensures WellFormed(Built(ns).value)
  {
    if ns != [] {
      BuiltWellFormed(ns[..|ns| - 1]);
      AppendedWellFormed(Built(ns[..|ns| - 1]).value, ns[|ns| - 1]);
    }
  }

  /** The in-order symbols of a built tree are exactly the symbols consumed. */
  lemma {:induction false} BuiltSymbols(ns: seq<Numeral>)
    requires Built(ns).Some?
    ensures Symbols(Built(ns).value) == ns
  {
    if ns != [] {
      var front := ns[..|ns| - 1];
      BuiltSymbols(front);
      BuiltWellFormed(front);
      AppendedSymbols(Built(front).value, ns[|ns| - 1]);
      assert front + [ns[|ns| - 1]] == ns;
    }
  }

  /** Building one more symbol is one more append to what the others built. */
  lemma BuiltStep(ns: seq<Numeral>, n: Numeral, spine: seq<Entry>, next: Option<seq<Entry>>)
    requires Built(ns) == Some(spine) && Appended(spine, n) == next
    ensures Built(ns + [n]) == next
  {
    assert (ns + [n])[..|ns|] == ns;
  }

  /** A failed prefix fails the whole input: parsing stops at the first error. */
  lemma {:induction false} BuiltPrefix(ns: seq<Numeral>, k: nat)
    requires k <= |ns|
    requires Built(ns).Some?
    ensures Built(ns[..k]).Some?
  {
    if k < |ns| {
      assert ns[..|ns| - 1][..k] == ns[..k];
      BuiltPrefix(ns[..|ns| - 1], k);
    } else {
      assert ns[..k] == ns;
    }
  }

  // ---------------------------------------------------------------------
  // Values

  /** The tree value of a well-formed spine is the textbook reading of its symbols. */
  lemma {:induction false} ValueIsClassic(spine: seq<Entry>)
    requires WellFormed(spine)
    ensures Value(spine) == Classic(Symbols(spine))
  {
    if spine != [] {
      var e := spine[0];
      var rest := spine[1..];
      assert WellFormed(rest) by {
        forall k | 0 < k < |rest| ensures Below(First(rest[k]), rest[k - 1].numeral) {
          assert rest[k] == spine[k + 1];
        }
      }
      ValueIsClassic(rest);
      EntryClassic(e);
      var es := EntrySymbols(e);
      assert es[|es| - 1] == e.numeral;
      if rest != [] {
        SymbolsStart(rest);
        assert Below(First(spine[1]), spine[0].numeral);
      }
      ClassicConcat(es, Symbols(rest));
    }
  }

  lemma EntryClassic(e: Entry)
    requires EntryOk(e)
    ensures |EntrySymbols(e)| > 0
    ensures Classic(EntrySymbols(e)) == EntryValue(e)
  {
    if e.sub.Some? {
      assert EntrySymbols(e) == [e.sub.value, e.numeral];
    } else {
      assert EntrySymbols(e) == Repeat(e.numeral, e.mult);
      ClassicRepeat(e.numeral, e.mult);
    }
  }

  lemma SymbolsStart(spine: seq<Entry>)
    requires spine != [] && EntryOk(spine[0])
    ensures |Symbols(spine)| > 0 && Symbols(spine)[0] == First(spine[0])
  {
  }

  /** A non-empty well-formed spine is worth more than nothing. */
  lemma {:induction false} ValuePositive(spine: seq<Entry>)
    requires WellFormed(spine)
    ensures spine == [] ==> Value(spine) == 0
    ensures spine != [] ==> Value(spine) > 0
  {
    if spine != [] {
      var rest := spine[1..];
      assert WellFormed(rest) by {
        forall k | 0 < k < |rest| ensures Below(First(rest[k]), rest[k - 1].numeral) {
          assert rest[k] == spine[k + 1];
        }
      }
      ValuePositive(rest);
      assert EntryOk(spine[0]);
    }
  }
}
