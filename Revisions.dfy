/**
 * How the two revisions of the parser relate: the current Node.cs only
 * adds rejections to the earlier one. Every string the current revision
 * accepts, the earlier one accepts too, with the same value; the converse
 * fails.
 */
module Revisions {
  import opened Numerals
  import S = Spine
  import L = LegacySpine
  import RomanNumeral
  import RomanNumber

  /** A current spine node as an earlier one: its one subtracted symbol as a chain of at most one. */
  function Lift(e: S.Entry): (r: L.Entry)
    ensures r.numeral == e.numeral && r.mult == e.mult
    ensures |r.subs| <= 1 && (r.subs == [] <==> e.sub.None?)
    ensures e.sub.Some? ==> r.subs[0] == e.sub.value
  {
    L.Entry(e.numeral, e.mult, if e.sub.Some? then [e.sub.value] else [])
  }

  function LiftAll(spine: seq<S.Entry>): (r: seq<L.Entry>)
    ensures |r| == |spine|
    ensures forall k :: 0 <= k < |spine| ==> r[k] == Lift(spine[k])
  {
    if spine == [] then [] else [Lift(spine[0])] + LiftAll(spine[1..])
  }

  /** Whatever append the current revision makes, the earlier one makes the same. */
  lemma AppendedAgrees(spine: seq<S.Entry>, n: Numeral)
    requires S.Appended(spine, n).Some?
    ensures L.Appended(LiftAll(spine), n) == Some(LiftAll(S.Appended(spine, n).value))
  {
    if spine == [] {
      var e := S.Entry(n, 1, None);
      assert LiftAll([e]) == [Lift(e)];
    } else if n == S.Last(spine).numeral {
      AgreesRepeated(spine, n);
    } else if Below(n, S.Last(spine).numeral) {
      LiftSnoc(spine, S.Entry(n, 1, None));
    } else {
      var cur, front := S.Last(spine), spine[..|spine| - 1];
      CurrentRotation(spine, n);
      assert spine == front + [cur];
      AgreesRotated(front, cur, n);
    }
  }

  /** The lifted spine splits where the spine does. */
  lemma LiftFront(spine: seq<S.Entry>)
    requires spine != []
    ensures L.Last(LiftAll(spine)) == Lift(S.Last(spine))
    ensures LiftAll(spine)[..|spine| - 1] == LiftAll(spine[..|spine| - 1])
  {
    assert LiftAll(spine)[..|spine| - 1] == LiftAll(spine[..|spine| - 1]);
  }

  lemma AgreesRepeated(spine: seq<S.Entry>, n: Numeral)
    requires spine != [] && n == S.Last(spine).numeral && S.Appended(spine, n).Some?
    ensures L.Appended(LiftAll(spine), n) == Some(LiftAll(S.Appended(spine, n).value))
  {
    var cur, front := S.Last(spine), spine[..|spine| - 1];
    var bumped := cur.(mult := cur.mult + 1);
    assert S.Appended(spine, n) == Some(front + [bumped]);
    LiftFront(spine);
    assert L.Appended(LiftAll(spine), n) == Some(LiftAll(front) + [Lift(bumped)]);
    LiftSnoc(front, bumped);
  }

  /** The rotation of a lone, unsubtracted node is the same in both revisions. */
  lemma AgreesRotated(front: seq<S.Entry>, cur: S.Entry, n: Numeral)
    requires Below(cur.numeral, n) && cur.mult <= 1 && cur.sub.None?
    ensures L.Appended(LiftAll(front + [cur]), n) == Some(LiftAll(front + [S.Entry(n, 1, Some(cur.numeral))]))
  {
    var spine, rotated := front + [cur], S.Entry(n, 1, Some(cur.numeral));
    assert spine[..|spine| - 1] == front;
    LiftFront(spine);
    EarlierRotation(LiftAll(spine), n);
    assert L.Entry(n, 1, [cur.numeral] + []) == Lift(rotated);
    LiftSnoc(front, rotated);
  }

  /** A higher symbol that the current revision accepts rotates a lone, unsubtracted node. */
  lemma CurrentRotation(spine: seq<S.Entry>, n: Numeral)
    requires spine != [] && Below(S.Last(spine).numeral, n) && S.Appended(spine, n).Some?
    ensures S.Last(spine).mult <= 1 && S.Last(spine).sub.None?
    ensures S.Appended(spine, n) == Some(spine[..|spine| - 1] + [S.Entry(n, 1, Some(S.Last(spine).numeral))])
  {
    assert S.Appended(spine, n) == S.RotatedLeft(spine, n);
  }

  /** The earlier revision rotates a lone node under any higher symbol. */
  lemma EarlierRotation(spine: seq<L.Entry>, n: Numeral)
    requires spine != [] && Below(L.Last(spine).numeral, n) && L.Last(spine).mult <= 1
    ensures L.Appended(spine, n)
         == Some(spine[..|spine| - 1] + [L.Entry(n, 1, [L.Last(spine).numeral] + L.Last(spine).subs)])
  {
    assert L.Appended(spine, n) == L.RotatedLeft(spine, n);
  }

  lemma LiftSnoc(front: seq<S.Entry>, e: S.Entry)
    ensures LiftAll(front + [e]) == LiftAll(front) + [Lift(e)]
  {
  }

  /** Whatever tree the current revision builds, the earlier one builds the same. */
  lemma {:induction false} BuiltAgrees(ns: seq<Numeral>)
    requires S.Built(ns).Some?
    ensures L.Built(ns) == Some(LiftAll(S.Built(ns).value))
  {
    if ns != [] {
      BuiltAgrees(ns[..|ns| - 1]);
      AppendedAgrees(S.Built(ns[..|ns| - 1]).value, ns[|ns| - 1]);
    }
  }

  /** A lifted tree is worth what the original is worth. */
  lemma {:induction false} ValueAgrees(spine: seq<S.Entry>)
    ensures L.Value(LiftAll(spine)) == S.Value(spine)
  {
    if spine != [] {
      ValueAgrees(spine[1..]);
      var e := spine[0];
      if e.sub.Some? {
        assert L.ChainValue([e.sub.value]) == Weight(e.sub.value) - L.ChainValue([]);
      }
      assert LiftAll(spine)[1..] == LiftAll(spine[1..]);
    }
  }

  /** The earlier revision accepts whatever the current one accepts, with the same value. */
  lemma ParsedAgrees(s: string)
    requires RomanNumeral.Parsed(s).Some?
    ensures RomanNumber.Parsed(s) == RomanNumeral.Parsed(s)
  {
    var ns := Scan(s).value;
    BuiltAgrees(ns);
    ValueAgrees(S.Built(ns).value);
  }

  /** The converse fails: the earlier revision takes "VV" as 10, the current one rejects it. */
  lemma OnlyEarlierAcceptsVV()
    ensures RomanNumber.Parsed("VV") == Some(10)
    ensures RomanNumeral.Parsed("VV").None?
  {
    RomanNumber.AcceptsVV();
    RomanNumeral.RejectsVV();
  }
}
