/**
 * The parser of RomanNumeral.cs: each character is mapped to a symbol and
 * appended to the node the previous append returned, starting from a fresh
 * root; the result is the root's value. A thrown FormatException (or any
 * other exception) is the None result.
 */
module RomanNumeral {
  import opened Numerals
  import opened Spine
  import opened ModelNode

  /** What Parse computes: None when a character or an append fails, else the tree value. */
  function Parsed(s: string): Option<int>
  {
    match Scan(s)
    case None => None
    case Some(ns) =>
      match Built(ns)
      case None => None
      case Some(spine) => Some(Value(spine))
  }

  method Parse(s: string) returns (r: Option<int>)
    ensures r == Parsed(s)
  {
    var root := Node.CreateRoot();
    var last := root;
    ghost var ns: seq<Numeral> := [];
    for i := 0 to |s|
      invariant fresh(root.Repr)
      invariant root.Valid() && last == root.LastNode()
      invariant Scan(s[..i]) == Some(ns)
      invariant Built(ns) == Some(root.Entries)
    {
      var num := FromChar(s[i]);
      if num.None? {
        return None;
      }
      var next := Feed(s, i, num.value, root, last, ns);
      if next.None? {
        return None;
      }
      last := next.value;
      ns := ns + [num.value];
    }
    assert s[..|s|] == s;
    var v := root.GetDecimalValue(root, 0, false);
    return Some(v);
  }

  /**
   * `lastAppendedNode.Append(num)` for the character at `i`, on the tree
   * that the characters before it built.
   */
  method Feed(s: string, i: nat, num: Numeral, root: Node, last: Node, ghost ns: seq<Numeral>)
    returns (next: Option<Node>)
    requires i < |s| && FromChar(s[i]) == Some(num) && Scan(s[..i]) == Some(ns)
    requires root.Valid() && last == root.LastNode() && Built(ns) == Some(root.Entries)
    modifies root.Repr
    ensures next.None? <==> Built(ns + [num]).None?
    ensures next.None? ==> Parsed(s).None?
    ensures next.Some? ==> && root.Valid() && next.value == root.LastNode()
                           && fresh(root.Repr - old(root.Repr))
                           && Scan(s[..i + 1]) == Some(ns + [num])
                           && Built(ns + [num]) == Some(root.Entries)
  {
    ghost var spine := root.Entries;
    next := last.Append(num, root);
    BuiltStep(ns, num, spine, Appended(spine, num));
    assert s[..i + 1][..i] == s[..i];
    if next.None? {
      RejectedPrefix(s, i + 1);
    }
  }

  /** Never fails: the outcome of Parse as a flag, and its value or 0. */
  method TryParse(s: string) returns (ok: bool, decimalValue: int)
    ensures ok <==> Parsed(s).Some?
    ensures ok ==> decimalValue == Parsed(s).value
    ensures !ok ==> decimalValue == 0
  {
    var r := Parse(s);
    if r.Some? {
      return true, r.value;
    }
    return false, 0;
  }

  // ---------------------------------------------------------------------
  // What a successful parse means

  /** A rejected prefix rejects the whole string: no later character can repair it. */
  lemma RejectedPrefix(s: string, k: nat)
    requires k <= |s|
    requires Parsed(s[..k]).None?
    ensures Parsed(s).None?
  {
    if Parsed(s).Some? {
      ScanPrefix(s, k);
      BuiltPrefix(Scan(s).value, k);
    }
  }

  /** The value of an accepted string is the textbook reading of its symbols. */
  lemma ParsedIsClassic(s: string)
    requires Parsed(s).Some?
    ensures Scan(s).Some? && Parsed(s).value == Classic(Scan(s).value)
  {
    var ns := Scan(s).value;
    BuiltWellFormed(ns);
    BuiltSymbols(ns);
    ValueIsClassic(Built(ns).value);
  }

  /** The empty string is 0 and any other accepted string is positive. */
  lemma ParsedPositive(s: string)
    requires Parsed(s).Some?
    ensures s == [] ==> Parsed(s).value == 0
    ensures s != [] ==> Parsed(s).value > 0
  {
    var ns := Scan(s).value;
    BuiltWellFormed(ns);
    BuiltSymbols(ns);
    ValuePositive(Built(ns).value);
  }

  /** Letter case is ignored. */
  lemma ParsedIgnoresCase(s: string)
    ensures Parsed(s) == Parsed(UpperString(s))
  {
    ScanIgnoresCase(s);
  }

  /** A character that names no symbol fails the parse. */
  lemma ParsedBadCharacter(s: string, i: nat)
    requires i < |s| && FromChar(s[i]).None?
    ensures Parsed(s).None?
  {
  }

  // ---------------------------------------------------------------------
  // Inputs

  /** Nothing to append: the bare root is worth 0. */
  lemma AcceptsEmpty()
    ensures Parsed("") == Some(0)
  {
  }

  /** Lower-case input reads as its upper-case form. */
  lemma AcceptsLowerCase()
    ensures Parsed("xiv") == Some(14)
  {
    ParsedIgnoresCase("xiv");
    assert UpperString("xiv") == "XIV";
    AcceptsXIV();
  }

  lemma AcceptsIII()
    ensures Parsed("III") == Some(3)
  {
    ScanOf("III", [] + [I] + [I] + [I]);
    var t1 := [Entry(I, 1, None)];
    BuiltStep([], I, [], Some(t1));
    var t2 := t1[..0] + [Entry(I, 2, None)];
    BuiltStep([] + [I], I, t1, Some(t2));
    var t3 := t2[..0] + [Entry(I, 3, None)];
    BuiltStep([] + [I] + [I], I, t2, Some(t3));
  }

  lemma AcceptsIV()
    ensures Parsed("IV") == Some(4)
  {
    ScanOf("IV", [] + [I] + [V]);
    var t1 := [Entry(I, 1, None)];
    BuiltStep([], I, [], Some(t1));
    var t2 := t1[..0] + [Entry(V, 1, Some(I))];
    BuiltStep([] + [I], V, t1, Some(t2));
  }

  lemma AcceptsIX()
    ensures Parsed("IX") == Some(9)
  {
    ScanOf("IX", [] + [I] + [X]);
    var t1 := [Entry(I, 1, None)];
    BuiltStep([], I, [], Some(t1));
    var t2 := t1[..0] + [Entry(X, 1, Some(I))];
    BuiltStep([] + [I], X, t1, Some(t2));
  }

  lemma AcceptsXL()
    ensures Parsed("XL") == Some(40)
  {
    ScanOf("XL", [] + [X] + [L]);
    var t1 := [Entry(X, 1, None)];
    BuiltStep([], X, [], Some(t1));
    var t2 := t1[..0] + [Entry(L, 1, Some(X))];
    BuiltStep([] + [X], L, t1, Some(t2));
  }

  lemma AcceptsXC()
    ensures Parsed("XC") == Some(90)
  {
    ScanOf("XC", [] + [X] + [C]);
    var t1 := [Entry(X, 1, None)];
    BuiltStep([], X, [], Some(t1));
    var t2 := t1[..0] + [Entry(C, 1, Some(X))];
    BuiltStep([] + [X], C, t1, Some(t2));
  }

  lemma AcceptsCD()
    ensures Parsed("CD") == Some(400)
  {
    ScanOf("CD", [] + [C] + [D]);
    var t1 := [Entry(C, 1, None)];
    BuiltStep([], C, [], Some(t1));
    var t2 := t1[..0] + [Entry(D, 1, Some(C))];
    BuiltStep([] + [C], D, t1, Some(t2));
  }

  lemma AcceptsCM()
    ensures Parsed("CM") == Some(900)
  {
    ScanOf("CM", [] + [C] + [M]);
    var t1 := [Entry(C, 1, None)];
    BuiltStep([], C, [], Some(t1));
    var t2 := t1[..0] + [Entry(M, 1, Some(C))];
    BuiltStep([] + [C], M, t1, Some(t2));
  }

  lemma AcceptsXIV()
    ensures Parsed("XIV") == Some(14)
  {
    ScanOf("XIV", [] + [X] + [I] + [V]);
    var t1 := [Entry(X, 1, None)];
    BuiltStep([], X, [], Some(t1));
    var t2 := t1 + [Entry(I, 1, None)];
    BuiltStep([] + [X], I, t1, Some(t2));
    var t3 := t2[..1] + [Entry(V, 1, Some(I))];
    BuiltStep([] + [X] + [I], V, t2, Some(t3));
  }

  lemma AcceptsXCIX()
    ensures Parsed("XCIX") == Some(99)
  {
    ScanOf("XCIX", [] + [X] + [C] + [I] + [X]);
    var t1 := [Entry(X, 1, None)];
    BuiltStep([], X, [], Some(t1));
    var t2 := t1[..0] + [Entry(C, 1, Some(X))];
    BuiltStep([] + [X], C, t1, Some(t2));
    var t3 := t2 + [Entry(I, 1, None)];
    BuiltStep([] + [X] + [C], I, t2, Some(t3));
    var t4 := t3[..1] + [Entry(X, 1, Some(I))];
    BuiltStep([] + [X] + [C] + [I], X, t3, Some(t4));
  }

  lemma AcceptsMMXXIV()
    ensures Parsed("MMXXIV") == Some(2024)
  {
    ScanOf("MMXXIV", [] + [M] + [M] + [X] + [X] + [I] + [V]);
    var t1 := [Entry(M, 1, None)];
    BuiltStep([], M, [], Some(t1));
    var t2 := t1[..0] + [Entry(M, 2, None)];
    BuiltStep([] + [M], M, t1, Some(t2));
    var t3 := t2 + [Entry(X, 1, None)];
    BuiltStep([] + [M] + [M], X, t2, Some(t3));
    var t4 := t3[..1] + [Entry(X, 2, None)];
    BuiltStep([] + [M] + [M] + [X], X, t3, Some(t4));
    var t5 := t4 + [Entry(I, 1, None)];
    BuiltStep([] + [M] + [M] + [X] + [X], I, t4, Some(t5));
    var t6 := t5[..2] + [Entry(V, 1, Some(I))];
    BuiltStep([] + [M] + [M] + [X] + [X] + [I], V, t5, Some(t6));
  }

  lemma RejectsIIII()
    ensures Parsed("IIII").None?
  {
    ScanOf("IIII", [] + [I] + [I] + [I] + [I]);
    var t1 := [Entry(I, 1, None)];
    BuiltStep([], I, [], Some(t1));
    var t2 := t1[..0] + [Entry(I, 2, None)];
    BuiltStep([] + [I], I, t1, Some(t2));
    var t3 := t2[..0] + [Entry(I, 3, None)];
    BuiltStep([] + [I] + [I], I, t2, Some(t3));
    BuiltStep([] + [I] + [I] + [I], I, t3, None);
  }

  lemma RejectsVV()
    ensures Parsed("VV").None?
  {
    ScanOf("VV", [] + [V] + [V]);
    var t1 := [Entry(V, 1, None)];
    BuiltStep([], V, [], Some(t1));
    BuiltStep([] + [V], V, t1, None);
  }

  lemma RejectsLL()
    ensures Parsed("LL").None?
  {
    ScanOf("LL", [] + [L] + [L]);
    var t1 := [Entry(L, 1, None)];
    BuiltStep([], L, [], Some(t1));
    BuiltStep([] + [L], L, t1, None);
  }

  lemma RejectsVX()
    ensures Parsed("VX").None?
  {
    ScanOf("VX", [] + [V] + [X]);
    var t1 := [Entry(V, 1, None)];
    BuiltStep([], V, [], Some(t1));
    BuiltStep([] + [V], X, t1, None);
  }

  lemma RejectsIL()
    ensures Parsed("IL").None?
  {
    ScanOf("IL", [] + [I] + [L]);
    var t1 := [Entry(I, 1, None)];
    BuiltStep([], I, [], Some(t1));
    BuiltStep([] + [I], L, t1, None);
  }

  lemma RejectsIM()
    ensures Parsed("IM").None?
  {
    ScanOf("IM", [] + [I] + [M]);
    var t1 := [Entry(I, 1, None)];
    BuiltStep([], I, [], Some(t1));
    BuiltStep([] + [I], M, t1, None);
  }

  lemma RejectsXD()
    ensures Parsed("XD").None?
  {
    ScanOf("XD", [] + [X] + [D]);
    var t1 := [Entry(X, 1, None)];
    BuiltStep([], X, [], Some(t1));
    BuiltStep([] + [X], D, t1, None);
  }

  lemma RejectsIXX()
    ensures Parsed("IXX").None?
  {
    ScanOf("IXX", [] + [I] + [X] + [X]);
    var t1 := [Entry(I, 1, None)];
    BuiltStep([], I, [], Some(t1));
    var t2 := t1[..0] + [Entry(X, 1, Some(I))];
    BuiltStep([] + [I], X, t1, Some(t2));
    BuiltStep([] + [I] + [X], X, t2, None);
  }

  lemma RejectsIIX()
    ensures Parsed("IIX").None?
  {
    ScanOf("IIX", [] + [I] + [I] + [X]);
    var t1 := [Entry(I, 1, None)];
    BuiltStep([], I, [], Some(t1));
    var t2 := t1[..0] + [Entry(I, 2, None)];
    BuiltStep([] + [I], I, t1, Some(t2));
    BuiltStep([] + [I] + [I], X, t2, None);
  }

  lemma RejectsIXI()
    ensures Parsed("IXI").None?
  {
    ScanOf("IXI", [] + [I] + [X] + [I]);
    var t1 := [Entry(I, 1, None)];
    BuiltStep([], I, [], Some(t1));
    var t2 := t1[..0] + [Entry(X, 1, Some(I))];
    BuiltStep([] + [I], X, t1, Some(t2));
    BuiltStep([] + [I] + [X], I, t2, None);
  }

  lemma RejectsVIV()
    ensures Parsed("VIV").None?
  {
    ScanOf("VIV", [] + [V] + [I] + [V]);
    var t1 := [Entry(V, 1, None)];
    BuiltStep([], V, [], Some(t1));
    var t2 := t1 + [Entry(I, 1, None)];
    BuiltStep([] + [V], I, t1, Some(t2));
    BuiltStep([] + [V] + [I], V, t2, None);
  }

  lemma RejectsXIX()
    ensures Parsed("XIX").None?
  {
    ScanOf("XIX", [] + [X] + [I] + [X]);
    var t1 := [Entry(X, 1, None)];
    BuiltStep([], X, [], Some(t1));
    var t2 := t1 + [Entry(I, 1, None)];
    BuiltStep([] + [X], I, t1, Some(t2));
    BuiltStep([] + [X] + [I], X, t2, None);
  }

  lemma RejectsMCMXCIX()
    ensures Parsed("MCMXCIX").None?
  {
    assert "MCMXCIX"[..3] == "MCM";
    ScanOf("MCM", [] + [M] + [C] + [M]);
    var t1 := [Entry(M, 1, None)];
    BuiltStep([], M, [], Some(t1));
    var t2 := t1 + [Entry(C, 1, None)];
    BuiltStep([] + [M], C, t1, Some(t2));
    BuiltStep([] + [M] + [C], M, t2, None);
    RejectedPrefix("MCMXCIX", 3);
  }

  lemma RejectsIXL()
    ensures Parsed("IXL").None?
  {
    ScanOf("IXL", [] + [I] + [X] + [L]);
    var t1 := [Entry(I, 1, None)];
    BuiltStep([], I, [], Some(t1));
    var t2 := t1[..0] + [Entry(X, 1, Some(I))];
    BuiltStep([] + [I], X, t1, Some(t2));
    BuiltStep([] + [I] + [X], L, t2, None);
  }

  lemma RejectsIC()
    ensures Parsed("IC").None?
  {
    ScanOf("IC", [] + [I] + [C]);
    var t1 := [Entry(I, 1, None)];
    BuiltStep([], I, [], Some(t1));
    BuiltStep([] + [I], C, t1, None);
  }

  lemma RejectsXM()
    ensures Parsed("XM").None?
  {
    ScanOf("XM", [] + [X] + [M]);
    var t1 := [Entry(X, 1, None)];
    BuiltStep([], X, [], Some(t1));
    BuiltStep([] + [X], M, t1, None);
  }

  lemma RejectsCXC()
    ensures Parsed("CXC").None?
  {
    ScanOf("CXC", [] + [C] + [X] + [C]);
    var t1 := [Entry(C, 1, None)];
    BuiltStep([], C, [], Some(t1));
    var t2 := t1 + [Entry(X, 1, None)];
    BuiltStep([] + [C], X, t1, Some(t2));
    BuiltStep([] + [C] + [X], C, t2, None);
  }
}
