/**
 * The parser of the earlier RomanNumber.cs: each character is mapped to a
 * symbol and appended to the node the previous append returned, starting
 * from a fresh root of the earlier Node.cs; the result is the root's value.
 * A thrown FormatException (or any other exception) is the None result.
 */
module RomanNumber {
  import opened Numerals
  import opened LegacySpine
  import opened LegacyNode

  /** What Parse computes: None when a character or an append fails, else the tree value. */
  function Parsed(s: string): Option<int>
  {
    match Scan(s)
    case None => None
    case Some(ns) =>
      match Built(ns)
      case None => None
      case Some(spine) => Some(Value(spine))
  }

  method Parse(s: string) returns (r: Option<int>)
    ensures r == Parsed(s)
  {
    var root := Node.CreateRoot();
    var last := root;
    ghost var ns: seq<Numeral> := [];
    for i := 0 to |s|
      invariant fresh(root.Repr)
      invariant root.Valid() && last == root.LastNode()
      invariant Scan(s[..i]) == Some(ns)
      invariant Built(ns) == Some(root.Entries)
    {
      var lit := FromChar(s[i]);
      if lit.None? {
        return None;
      }
      var next := Feed(s, i, lit.value, root, last, ns);
      if next.None? {
        return None;
      }
      last := next.value;
      ns := ns + [lit.value];
    }
    assert s[..|s|] == s;
    var v := root.GetValue(root);
    return Some(v);
  }

  /**
   * `lastAppendedNode.Append(literal)` for the character at `i`, on the
   * tree that the characters before it built.
   */
  method Feed(s: string, i: nat, lit: Numeral, root: Node, last: Node, ghost ns: seq<Numeral>)
    returns (next: Option<Node>)
    requires i < |s| && FromChar(s[i]) == Some(lit) && Scan(s[..i]) == Some(ns)
    requires root.Valid() && last == root.LastNode() && Built(ns) == Some(root.Entries)
    modifies root.Repr
    ensures next.None? <==> Built(ns + [lit]).None?
    ensures next.None? ==> Parsed(s).None?
    ensures next.Some? ==> && root.Valid() && next.value == root.LastNode()
                           && fresh(root.Repr - old(root.Repr))
                           && Scan(s[..i + 1]) == Some(ns + [lit])
                           && Built(ns + [lit]) == Some(root.Entries)
  {
    ghost var spine := root.Entries;
    next := last.Append(lit, root);
    BuiltStep(ns, lit, spine, Appended(spine, lit));
    assert s[..i + 1][..i] == s[..i];
    if next.None? {
      RejectedPrefix(s, i + 1);
    }
  }

  // ---------------------------------------------------------------------
  // What a successful parse means

  /** A rejected prefix rejects the whole string: no later character can repair it. */
  lemma RejectedPrefix(s: string, k: nat)
    requires k <= |s|
    requires Parsed(s[..k]).None?
    ensures Parsed(s).None?
  {
    if Parsed(s).Some? {
      ScanPrefix(s, k);
      BuiltPrefix(Scan(s).value, k);
    }
  }

  /** The empty string is 0 and any other accepted string is positive. */
  lemma ParsedPositive(s: string)
    requires Parsed(s).Some?
    ensures s == [] ==> Parsed(s).value == 0
    ensures s != [] ==> Parsed(s).value > 0
  {
    var ns := Scan(s).value;
    BuiltWellFormed(ns);
    BuiltSymbols(ns);
    ValuePositive(Built(ns).value);
  }

  /**
   * When no node of the tree subtracts more than one symbol, the value of
   * an accepted string is the textbook reading of its symbols.
   */
  lemma ParsedIsClassicWhenFlat(s: string)
    requires Parsed(s).Some? && Flat(Built(Scan(s).value).value)
    ensures Parsed(s).value == Classic(Scan(s).value)
  {
    var ns := Scan(s).value;
    BuiltWellFormed(ns);
    BuiltSymbols(ns);
    FlatValueIsClassic(Built(ns).value);
  }

  /** Letter case is ignored. */
  lemma ParsedIgnoresCase(s: string)
    ensures Parsed(s) == Parsed(UpperString(s))
  {
    ScanIgnoresCase(s);
  }

  /** A character that names no symbol fails the parse. */
  lemma ParsedBadCharacter(s: string, i: nat)
    requires i < |s| && FromChar(s[i]).None?
    ensures Parsed(s).None?
  {
  }

  // ---------------------------------------------------------------------
  // Inputs

  /** Nothing to append: the bare root is worth 0. */
  lemma AcceptsEmpty()
    ensures Parsed("") == Some(0)
  {
  }

  lemma AcceptsXIV()
    ensures Parsed("XIV") == Some(14)
  {
    ScanOf("XIV", [] + [X] + [I] + [V]);
    var t1 := [Entry(X, 1, [])];
    BuiltStep([], X, [], Some(t1));
    var t2 := t1 + [Entry(I, 1, [])];
    BuiltStep([] + [X], I, t1, Some(t2));
    var t3 := t2[..1] + [Entry(V, 1, [I] + [])];
    BuiltStep([] + [X] + [I], V, t2, Some(t3));
    assert ChainValue([I] + []) == 1;
  }

  lemma AcceptsMCMXCIX()
    ensures Parsed("MCMXCIX") == Some(1999)
  {
    ScanOf("MCMXCIX", [] + [M] + [C] + [M] + [X] + [C] + [I] + [X]);
    var t1 := [Entry(M, 1, [])];
    BuiltStep([], M, [], Some(t1));
    var t2 := t1 + [Entry(C, 1, [])];
    BuiltStep([] + [M], C, t1, Some(t2));
    var t3 := t2[..1] + [Entry(M, 1, [C] + [])];
    BuiltStep([] + [M] + [C], M, t2, Some(t3));
    var t4 := t3 + [Entry(X, 1, [])];
    BuiltStep([] + [M] + [C] + [M], X, t3, Some(t4));
    var t5 := t4[..2] + [Entry(C, 1, [X] + [])];
    BuiltStep([] + [M] + [C] + [M] + [X], C, t4, Some(t5));
    var t6 := t5 + [Entry(I, 1, [])];
    BuiltStep([] + [M] + [C] + [M] + [X] + [C], I, t5, Some(t6));
    var t7 := t6[..3] + [Entry(X, 1, [I] + [])];
    BuiltStep([] + [M] + [C] + [M] + [X] + [C] + [I], X, t6, Some(t7));
    assert ChainValue([C] + []) == 100;
    assert ChainValue([X] + []) == 10;
    assert ChainValue([I] + []) == 1;
  }

  lemma AcceptsXIX()
    ensures Parsed("XIX") == Some(19)
  {
    ScanOf("XIX", [] + [X] + [I] + [X]);
    var t1 := [Entry(X, 1, [])];
    BuiltStep([], X, [], Some(t1));
    var t2 := t1 + [Entry(I, 1, [])];
    BuiltStep([] + [X], I, t1, Some(t2));
    var t3 := t2[..1] + [Entry(X, 1, [I] + [])];
    BuiltStep([] + [X] + [I], X, t2, Some(t3));
    assert ChainValue([I] + []) == 1;
  }

  lemma AcceptsIXC()
    ensures Parsed("IXC") == Some(91)
  {
    ScanOf("IXC", [] + [I] + [X] + [C]);
    var t1 := [Entry(I, 1, [])];
    BuiltStep([], I, [], Some(t1));
    var t2 := t1[..0] + [Entry(X, 1, [I] + [])];
    BuiltStep([] + [I], X, t1, Some(t2));
    var t3 := t2[..0] + [Entry(C, 1, [X] + ([I] + []))];
    BuiltStep([] + [I] + [X], C, t2, Some(t3));
    assert ChainValue([I] + []) == 1;
    assert ChainValue([X] + ([I] + [])) == 9;
  }

  lemma AcceptsVV()
    ensures Parsed("VV") == Some(10)
  {
    ScanOf("VV", [] + [V] + [V]);
    var t1 := [Entry(V, 1, [])];
    BuiltStep([], V, [], Some(t1));
    var t2 := t1[..0] + [Entry(V, 2, [])];
    BuiltStep([] + [V], V, t1, Some(t2));
  }

  lemma AcceptsVX()
    ensures Parsed("VX") == Some(5)
  {
    ScanOf("VX", [] + [V] + [X]);
    var t1 := [Entry(V, 1, [])];
    BuiltStep([], V, [], Some(t1));
    var t2 := t1[..0] + [Entry(X, 1, [V] + [])];
    BuiltStep([] + [V], X, t1, Some(t2));
    assert ChainValue([V] + []) == 5;
  }

  lemma AcceptsIM()
    ensures Parsed("IM") == Some(999)
  {
    ScanOf("IM", [] + [I] + [M]);
    var t1 := [Entry(I, 1, [])];
    BuiltStep([], I, [], Some(t1));
    var t2 := t1[..0] + [Entry(M, 1, [I] + [])];
    BuiltStep([] + [I], M, t1, Some(t2));
    assert ChainValue([I] + []) == 1;
  }

  lemma RejectsIIII()
    ensures Parsed("IIII").None?
  {
    ScanOf("IIII", [] + [I] + [I] + [I] + [I]);
    var t1 := [Entry(I, 1, [])];
    BuiltStep([], I, [], Some(t1));
    var t2 := t1[..0] + [Entry(I, 2, [])];
    BuiltStep([] + [I], I, t1, Some(t2));
    var t3 := t2[..0] + [Entry(I, 3, [])];
    BuiltStep([] + [I] + [I], I, t2, Some(t3));
    BuiltStep([] + [I] + [I] + [I], I, t3, None);
  }

  lemma RejectsIIX()
    ensures Parsed("IIX").None?
  {
    ScanOf("IIX", [] + [I] + [I] + [X]);
    var t1 := [Entry(I, 1, [])];
    BuiltStep([], I, [], Some(t1));
    var t2 := t1[..0] + [Entry(I, 2, [])];
    BuiltStep([] + [I], I, t1, Some(t2));
    BuiltStep([] + [I] + [I], X, t2, None);
  }
}
