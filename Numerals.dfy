/**
 * The seven Roman numeral symbols, their weights, the character mapping the
 * parsers use, and the textbook reading of a symbol sequence that the tree
 * values are compared against.
 */
module Numerals {

  datatype Option<+T> = None | Some(value: T)

  /** One Roman numeral symbol; the source's enum values are the weights below. */
  datatype Numeral = I | V | X | L | C | D | M

  function Weight(n: Numeral): nat
  {
    match n
    case I => 1
    case V => 5
    case X => 10
    case L => 50
    case C => 100
    case D => 500
    case M => 1000
  }

  /** The symbols of the form 5 * 10^k: never repeated, never subtracted. */
  predicate IsFive(n: Numeral)
  {
    n == V || n == L || n == D
  }

  /** Comparison of two symbols as the source does it, through their weights. */
  predicate Below(a: Numeral, b: Numeral)
  {
    Weight(a) < Weight(b)
  }

  /** The weights are pairwise distinct, so `<`, `==` and `>` split every pair. */
  lemma WeightInjective(a: Numeral, b: Numeral)
    ensures Weight(a) == Weight(b) <==> a == b
    ensures Below(a, b) || a == b || Below(b, a)
  {
  }

  /** The upper-case letter that names a symbol. */
  function Letter(n: Numeral): char
  {
    match n
    case I => 'I'
    case V => 'V'
    case X => 'X'
    case L => 'L'
    case C => 'C'
    case D => 'D'
    case M => 'M'
  }

  /** ASCII upper-casing of one character. */
  function Upper(c: char): (u: char)
    ensures 'a' <= c <= 'z' ==> u as int == c as int - 32
    ensures !('a' <= c <= 'z') ==> u == c
  {
    if 'a' <= c <= 'z' then (c as int - 32) as char else c
  }

  function UpperString(s: string): (u: string)
    ensures |u| == |s|
    ensures forall k :: 0 <= k < |s| ==> u[k] == Upper(s[k])
  {
    if s == [] then [] else [Upper(s[0])] + UpperString(s[1..])
  }

  /**
   * The symbol a character names, ignoring letter case; None for every
   * other character.
   */
  function FromChar(c: char): (r: Option<Numeral>)
    ensures r.Some? <==> Upper(c) in "IVXLCDM"
    ensures r.Some? ==> Letter(r.value) == Upper(c)
  {
    match Upper(c)
    case 'I' => Some(I)
    case 'V' => Some(V)
    case 'X' => Some(X)
    case 'L' => Some(L)
    case 'C' => Some(C)
    case 'D' => Some(D)
    case 'M' => Some(M)
    case _ => None
  }

  lemma FromCharIgnoresCase(c: char)
    ensures FromChar(c) == FromChar(Upper(c))
  {
  }

  /** Every symbol is recognised from its own letter, in either case. */
  lemma FromCharLetter(n: Numeral)
    ensures FromChar(Letter(n)) == Some(n)
    ensures FromChar((Letter(n) as int + 32) as char) == Some(n)
  {
  }

  /**
   * The symbols a string names, character by character; None as soon as
   * one character names no symbol.
   */
  function Scan(s: string): (r: Option<seq<Numeral>>)
    ensures r.Some? <==> forall i :: 0 <= i < |s| ==> FromChar(s[i]).Some?
    ensures r.Some? ==> |r.value| == |s| && forall i :: 0 <= i < |s| ==> FromChar(s[i]) == Some(r.value[i])
  {
    if s == [] then Some([])
    else
      var front := s[..|s| - 1];
      assert forall i :: 0 <= i < |front| ==> front[i] == s[i];
      match Scan(front)
      case None => None
      case Some(ns) =>
        match FromChar(s[|s| - 1])
        case None => None
        case Some(n) => Some(ns + [n])
  }

  /** Two strings whose characters name the same symbols scan alike. */
  lemma ScanPointwise(s: string, t: string)
    requires |s| == |t|
    requires forall i :: 0 <= i < |s| ==> FromChar(s[i]) == FromChar(t[i])
    ensures Scan(s) == Scan(t)
  {
    if Scan(s).Some? {
      assert Scan(t).Some?;
      assert Scan(s).value == Scan(t).value;
    } else {
      assert Scan(t).None?;
    }
  }

  /** A string scans to the symbols its characters name one by one. */
  lemma ScanOf(s: string, ns: seq<Numeral>)
    requires |s| == |ns| && forall i :: 0 <= i < |s| ==> FromChar(s[i]) == Some(ns[i])
    ensures Scan(s) == Some(ns)
  {
    assert Scan(s).value == ns;
  }

  /** Scanning a prefix gives the prefix of the scan. */
  lemma ScanPrefix(s: string, k: nat)
    requires k <= |s| && Scan(s).Some?
    ensures Scan(s[..k]) == Some(Scan(s).value[..k])
  {
    var t := s[..k];
    assert forall i :: 0 <= i < k ==> t[i] == s[i];
    var a, b := Scan(t).value, Scan(s).value[..k];
    assert |a| == |b|;
    forall i | 0 <= i < k
      ensures a[i] == b[i]
    {
      assert FromChar(t[i]) == Some(a[i]);
      assert FromChar(s[i]) == Some(b[i]);
    }
    assert a == b;
  }

  /** Letter case does not change what a string names. */
  lemma ScanIgnoresCase(s: string)
    ensures Scan(s) == Scan(UpperString(s))
  {
    forall i | 0 <= i < |s|
      ensures FromChar(s[i]) == FromChar(UpperString(s)[i])
    {
      FromCharIgnoresCase(s[i]);
    }
    ScanPointwise(s, UpperString(s));
  }

  /** `k` copies of the symbol `n`. */
  function Repeat(n: Numeral, k: nat): (r: seq<Numeral>)
    ensures |r| == k
    ensures forall j :: 0 <= j < k ==> r[j] == n
  {
    seq(k, _ => n)
  }

  /**
   * The textbook reading of a symbol sequence: a symbol counts negatively
   * when the symbol right after it weighs more, positively otherwise.
   */
  function Classic(ns: seq<Numeral>): int
  {
    if |ns| == 0 then 0
    else if |ns| == 1 then Weight(ns[0])
    else (if Below(ns[0], ns[1]) then 0 - Weight(ns[0]) else Weight(ns[0])) + Classic(ns[1..])
  }

  /**
   * Reading two sequences one after the other adds their readings when the
   * first one does not end below the start of the second.
   */
  lemma {:induction false} ClassicConcat(a: seq<Numeral>, b: seq<Numeral>)
    requires |a| > 0
    requires |b| > 0 ==> !Below(a[|a| - 1], b[0])
    ensures Classic(a + b) == Classic(a) + Classic(b)
  {
    if |a| == 1 {
      if |b| > 0 {
        assert (a + b)[1..] == b;
      }
    } else {
      assert (a + b)[1..] == a[1..] + b;
      ClassicConcat(a[1..], b);
    }
  }

  /** A run of equal symbols reads as their sum. */
  lemma {:induction false} ClassicRepeat(n: Numeral, k: nat)
    ensures Classic(Repeat(n, k)) == k * Weight(n)
  {
    if k > 1 {
      assert Repeat(n, k)[1..] == Repeat(n, k - 1);
      ClassicRepeat(n, k - 1);
    }
  }
}
