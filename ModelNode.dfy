/**
 * The tree builder of Model/Node.cs, on heap objects: every node has its
 * Parent, Left and Right pointers and its repeat counter, and Append and
 * RotateLeft relink them in place. The root carries the ghost bookkeeping:
 * the nodes of its right spine (Nodes), the Spine value they stand for
 * (Entries) and every node of the tree (Repr).
 */
module ModelNode {
  import opened Numerals
  import opened Spine

  class Node {
    var Parent: Node?
    var Left: Node?
    var Right: Node?
    var mMultiplier: int
    const mNumeral: Option<Numeral>

    // Meaningful on the root only.
    ghost var Nodes: seq<Node>
    ghost var Entries: seq<Entry>
    ghost var Repr: set<Node>
    // Position on the right spine (the root is 0), or -1 for a left leaf.
    ghost var Pos: int

    /** The root: no symbol, multiplier 0, no links. */
    constructor Root()
      ensures mNumeral.None? && mMultiplier == 0
      ensures Parent == null && Left == null && Right == null
      ensures Nodes == [this] && Entries == [] && Repr == {this} && Pos == 0
    {
      mNumeral := None;
      mMultiplier := 0;
      Parent, Left, Right := null, null, null;
      Nodes, Entries, Repr, Pos := [this], [], {this}, 0;
    }

    /** A node holding one copy of `numeral`, pointing back to `parent`. */
    constructor (numeral: Numeral, parent: Node?)
      ensures mNumeral == Some(numeral) && mMultiplier == 1
      ensures Parent == parent && Left == null && Right == null && Pos == -1
    {
      mNumeral := Some(numeral);
      mMultiplier := 1;
      Parent, Left, Right := parent, null, null;
      Nodes, Entries, Repr, Pos := [], [], {}, -1;
    }

    static method CreateRoot() returns (root: Node)
      ensures fresh(root) && fresh(root.Repr)
      ensures root.Valid() && root.Entries == [] && root.LastNode() == root
    {
      root := new Node.Root();
    }

    /** `leaf` is a childless node with one copy of `numeral` hanging from `parent`. */
    static ghost predicate IsLeaf(leaf: Node, parent: Node, numeral: Numeral)
      reads leaf
    {
      && leaf.Parent == parent && leaf.Left == null && leaf.Right == null
      && leaf.mMultiplier == 1 && leaf.mNumeral == Some(numeral) && leaf.Pos == -1
    }

    /** The spine node `n` and its left child stand for the entry `e`. */
    static ghost predicate Holds(n: Node, e: Entry)
      reads n, n.Left
    {
      && n.mNumeral == Some(e.numeral) && n.mMultiplier == e.mult && e.mult >= 1
      && (e.sub.None? ==> n.Left == null)
      && (e.sub.Some? ==> n.Left != null && IsLeaf(n.Left, n, e.sub.value))
    }

    /**
     * The pointer structure of a tree under construction: a right spine
     * from the root, each spine node with at most one left leaf, every
     * Parent pointer the inverse of a Left or Right pointer.
     */
    ghost predicate Linked()
      reads this, Repr
    {
      && this in Repr
      && |Nodes| == |Entries| + 1
      && Nodes[0] == this
      && mNumeral.None? && mMultiplier == 0 && Parent == null && Left == null
      && (forall k :: 0 <= k < |Nodes| ==> Nodes[k] in Repr && Nodes[k].Pos == k)
      && (forall k :: 0 < k < |Nodes| ==> Nodes[k].Parent == Nodes[k - 1] && Nodes[k - 1].Right == Nodes[k])
      && (forall k :: 0 < k < |Nodes| && Nodes[k].Left != null ==> Nodes[k].Left in Repr)
      && (forall k :: 0 < k < |Nodes| ==> Holds(Nodes[k], Entries[k - 1]))
    }

    /** The tree between two appends: linked, nothing right of the last node, grammar kept. */
    ghost predicate Valid()
      reads this, Repr
    {
      Linked() && LastNode().Right == null && WellFormed(Entries)
    }

    ghost function LastNode(): Node
      reads this
      requires |Nodes| > 0
    {
      Nodes[|Nodes| - 1]
    }

    /**
     * What one Append to this node promises: it succeeds exactly when the
     * spine value admits the symbol, and then the tree is the appended
     * spine and the returned node is its last one; a failure (a thrown
     * exception) changes nothing but may leave a new, pending right child.
     */
    twostate predicate Appends(root: Node, numeral: Numeral, new r: Option<Node>)
      reads *
    {
      && (r.Some? <==> Appended(old(root.Entries), numeral).Some?)
      && (r.Some? ==> && root.Valid()
                      && root.Entries == Appended(old(root.Entries), numeral).value
                      && r.value == root.LastNode()
                      && fresh(root.Repr - old(root.Repr)))
      && (r.None? ==> && unchanged(old(root.Repr) - {this})
                      && Parent == old(Parent) && Left == old(Left)
                      && mMultiplier == old(mMultiplier)
                      && (Right == null || fresh(Right)))
    }

    /**
     * Appends one symbol to this node, the one the previous call returned,
     * and returns the node the next call appends to; None is a thrown
     * exception.
     */
    method Append(numeral: Numeral, ghost root: Node) returns (r: Option<Node>)
      requires root.Valid() && this == root.LastNode()
      modifies root.Repr
      ensures Appends(root, numeral, r)
      ensures r.Some? && mNumeral == Some(numeral) ==> r.value == this
    {
      // The root takes the first symbol as its right child.
      if mNumeral.None? {
        assert |root.Nodes| == 1;
        var n := AddRight(numeral, root);
        return Some(n);
      }
      assert |root.Nodes| > 1;
      if numeral == mNumeral.value {
        r := AppendSame(numeral, root);
      } else if Below(numeral, mNumeral.value) {
        r := AppendLower(numeral, root);
      } else {
        r := AppendHigher(numeral, root);
      }
    }

    /** The same symbol again: one more repetition of this node. */
    method AppendSame(numeral: Numeral, ghost root: Node) returns (r: Option<Node>)
      requires root.Valid() && |root.Nodes| > 1 && this == root.LastNode()
      requires mNumeral == Some(numeral)
      modifies root.Repr
      ensures Appends(root, numeral, r)
      ensures r.Some? ==> r.value == this
    {
      ghost var E := root.Entries;
      assert Holds(this, Last(E));
      if Left != null {
        return None;
      }
      if IsFive(numeral) {
        return None;
      }
      if mMultiplier == MaxRepetitions {
        return None;
      }
      Repeated(root);
      AppendedWellFormed(E, numeral);
      return Some(this);
    }

    /** A lower symbol: a new right child that the next symbols continue from. */
    method AppendLower(numeral: Numeral, ghost root: Node) returns (r: Option<Node>)
      requires root.Valid() && |root.Nodes| > 1 && this == root.LastNode()
      requires mNumeral.Some? && Below(numeral, mNumeral.value)
      modifies root.Repr
      ensures Appends(root, numeral, r)
    {
      ghost var E := root.Entries;
      assert Holds(this, Last(E));
      if Right != null {
        assert false;
      }
      if Left != null && Left.mNumeral == Some(numeral) {
        return None;
      }
      var n := AddRight(numeral, root);
      AppendedWellFormed(E, numeral);
      return Some(n);
    }

    /** A higher symbol: hang it on the right, then rotate this node under it. */
    method AppendHigher(numeral: Numeral, ghost root: Node) returns (r: Option<Node>)
      requires root.Valid() && |root.Nodes| > 1 && this == root.LastNode()
      requires mNumeral.Some? && Below(mNumeral.value, numeral)
      modifies root.Repr
      ensures Appends(root, numeral, r)
    {
      ghost var E := root.Entries;
      assert Holds(this, Last(E));
      var mine := mNumeral.value;
      if Right != null {
        assert false;
      }
      if IsFive(mine) {
        return None;
      }
      var ratio := Weight(numeral) / Weight(mine);
      if ratio > 10 {
        return None;
      }
      var n := HangRight(numeral, root);
      var ok := RotateLeft(root);
      if !ok {
        return None;
      }
      AppendedWellFormed(E, numeral);
      return Some(n);
    }

    /** `Right = new Node(numeral, this)`: a new last node on the spine. */
    method AddRight(numeral: Numeral, ghost root: Node) returns (n: Node)
      requires root.Linked() && this == root.LastNode() && Right == null
      modifies this, root
      ensures fresh(n) && Right == n && n.Parent == this && n.Left == null && n.Right == null
      ensures Parent == old(Parent) && Left == old(Left) && mMultiplier == old(mMultiplier)
      ensures root.Linked() && root.LastNode() == n
      ensures root.Entries == old(root.Entries) + [Entry(numeral, 1, None)]
      ensures root.Repr == old(root.Repr) + {n}
    {
      n := new Node(numeral, this);
      Right := n;
      n.Pos := |root.Nodes|;
      root.Nodes, root.Entries, root.Repr := root.Nodes + [n], root.Entries + [Entry(numeral, 1, None)], root.Repr + {n};
      PushKeepsLinked(root);
    }

    /** `Right = new Node(numeral, this)` ahead of a rotation: a pending right child off the spine. */
    method HangRight(numeral: Numeral, ghost root: Node) returns (n: Node)
      requires root.Linked() && |root.Nodes| >= 2 && this == root.LastNode() && Right == null
      modifies this
      ensures fresh(n) && Right == n && n.Parent == this && n.Left == null && n.Right == null
      ensures n.mMultiplier == 1 && n.mNumeral == Some(numeral)
      ensures Parent == old(Parent) && Left == old(Left) && mMultiplier == old(mMultiplier)
      ensures root.Linked() && this == root.LastNode()
    {
      n := new Node(numeral, this);
      Right := n;
    }

    /** `mMultiplier++`: one more copy of the last spine node's symbol. */
    method Repeated(ghost root: Node)
      requires root.Linked() && |root.Nodes| >= 2 && this == root.LastNode()
      modifies this, root
      ensures Parent == old(Parent) && Left == old(Left) && Right == old(Right)
      ensures mMultiplier == old(mMultiplier) + 1
      ensures root.Linked() && root.LastNode() == this && root.Repr == old(root.Repr)
      ensures var E := old(root.Entries);
              root.Entries == E[..|E| - 1] + [Last(E).(mult := Last(E).mult + 1)]
    {
      ghost var E := root.Entries;
      assert Holds(this, Last(E));
      mMultiplier := mMultiplier + 1;
      root.Entries := E[..|E| - 1] + [Last(E).(mult := Last(E).mult + 1)];
    }

    /**
     * Makes the pending right child of this last spine node take this
     * node's place, with this node as its subtracted left child.
     */
    method RotateLeft(ghost root: Node) returns (ok: bool)
      requires root.Linked() && |root.Nodes| >= 2 && this == root.LastNode()
      requires Right != null ==> Right !in root.Repr && Right.Right == null && Right.Left == null
                                 && Right.mMultiplier == 1 && Right.mNumeral.Some?
      modifies root.Repr, Right
      ensures ok <==> if old(Right) == null then old(mMultiplier) <= 1 && old(Left) == null
                      else RotatedLeft(old(root.Entries), old(Right).mNumeral.value).Some?
      ensures !ok || old(Right) == null ==> unchanged(old(root.Repr)) && Right == old(Right)
      ensures !ok && old(Right) != null ==> unchanged(old(Right))
      ensures ok && old(Right) != null ==>
                && old(Parent) != null && old(Parent).Right == old(Right) && old(Right).Parent == old(Parent)
                && Parent == old(Right) && old(Right).Left == this && Right == null
                && root.Linked() && root.LastNode() == old(Right) && root.LastNode().Right == null
                && root.Entries == RotatedLeft(old(root.Entries), old(Right).mNumeral.value).value
                && root.Repr == old(root.Repr) + {old(Right)}
    {
      ghost var k := |root.Nodes| - 1;
      assert Holds(this, root.Entries[k - 1]);
      assert Parent == root.Nodes[k - 1] && Parent in root.Repr;
      if Parent == null {
        assert false;
      }
      if mMultiplier > 1 {
        return false;
      }
      if Left != null {
        return false;
      }
      if Right == null {
        return true;
      }
      if Parent.mNumeral == Right.mNumeral {
        return false;
      }
      Relink(root, k);
      return true;
    }

    /** The five relinking steps of a rotation, each reading the links as they were. */
    method Relink(ghost root: Node, ghost k: nat)
      requires root.Linked() && k == |root.Nodes| - 1 >= 1 && this == root.Nodes[k]
      requires Left == null && mMultiplier == 1
      requires Right != null && Right !in root.Repr && Right.Right == null && Right.Left == null
               && Right.mMultiplier == 1 && Right.mNumeral.Some?
      modifies this, Parent, Right, root
      ensures old(Parent) != null && old(Parent).Right == old(Right) && old(Right).Parent == old(Parent)
      ensures Parent == old(Right) && old(Right).Left == this && Right == null
      ensures root.Linked() && root.LastNode() == old(Right) && old(Right).Right == null
      ensures root.Entries == old(root.Entries)[..k - 1] + [Entry(old(Right).mNumeral.value, 1, Some(mNumeral.value))]
      ensures root.Repr == old(root.Repr) + {old(Right)}
    {
      assert Holds(this, root.Entries[k - 1]);
      assert Parent == root.Nodes[k - 1];
      var n, p := Right, Parent;
      p.Right, n.Parent, Parent, n.Left, Right := n, p, n, this, null;
      n.Pos, Pos := k, -1;
      root.Nodes, root.Entries, root.Repr :=
        root.Nodes[..k] + [n], root.Entries[..k - 1] + [Entry(n.mNumeral.value, 1, Some(mNumeral.value))], root.Repr + {n};
      RelinkKeepsLinked(root);
    }

    /** The fields of `o` that the tree invariant reads are as they were. */
    static twostate predicate Same(o: Node)
      reads o
    {
      && o.Parent == old(o.Parent) && o.Left == old(o.Left) && o.Right == old(o.Right)
      && o.mMultiplier == old(o.mMultiplier) && o.Pos == old(o.Pos)
    }

    /**
     * A rotation keeps the pointer structure: the new last spine node `n`
     * takes the place of `cur`, which becomes its left leaf, and no other
     * node but the parent `p` of both changes.
     */
    static twostate lemma RelinkKeepsLinked(root: Node)
      requires old(root.Linked()) && |old(root.Nodes)| >= 2 && |root.Nodes| == |old(root.Nodes)|
      requires var k := |root.Nodes| - 1;
               var p, cur, n := old(root.Nodes)[k - 1], old(root.Nodes)[k], root.Nodes[k];
               && root.Nodes == old(root.Nodes)[..k] + [n]
               && n !in old(root.Repr) && root.Repr == old(root.Repr) + {n}
               && old(cur.Left) == null && old(cur.mMultiplier) == 1
               && n.mNumeral.Some? && cur.mNumeral.Some?
               && root.Entries == old(root.Entries)[..k - 1] + [Entry(n.mNumeral.value, 1, Some(cur.mNumeral.value))]
               && p.Right == n && n.Parent == p && n.Left == cur && n.Pos == k && n.mMultiplier == 1
               && cur.Parent == n && cur.Right == null && cur.Pos == -1 && cur.Left == null && cur.mMultiplier == 1
               && p.Parent == old(p.Parent) && p.Left == old(p.Left)
               && p.mMultiplier == old(p.mMultiplier) && p.Pos == old(p.Pos)
               && (forall o :: o in old(root.Repr) && o != p && o != cur ==> Same(o))
      ensures root.Linked()
    {
      var k := |root.Nodes| - 1;
      var N0, E, N := old(root.Nodes), old(root.Entries), root.Nodes;
      var p, cur, n := N0[k - 1], N0[k], N[k];
      forall j | 0 <= j < k
        ensures N[j] == N0[j] && N[j] in root.Repr && N[j].Pos == j
        ensures N[j] != cur && N[j] != n
      {
        assert old(N0[j].Pos) == j;
      }
      forall j | 0 < j < k
        ensures N[j].Parent == N[j - 1] && N[j - 1].Right == N[j]
        ensures N[j].Left != null ==> N[j].Left in root.Repr
        ensures Holds(N[j], root.Entries[j - 1])
      {
        assert old(N0[j].Parent) == N0[j - 1] && old(N0[j - 1].Right) == N0[j];
        assert old(Holds(N0[j], E[j - 1]));
        assert N0[j].Left != null ==> old(N0[j].Left.Pos) == -1 && old(N0[j].Left in root.Repr);
      }
      assert Holds(n, root.Entries[k - 1]);
    }

    /**
     * Hanging a new leaf `n` as the right child of the last spine node
     * `cur` keeps the pointer structure, with `n` as the new last node.
     */
    static twostate lemma PushKeepsLinked(root: Node)
      requires old(root.Linked()) && |root.Nodes| == |old(root.Nodes)| + 1
      requires var k := |old(root.Nodes)|;
               var cur, n := old(root.Nodes)[k - 1], root.Nodes[k];
               && root.Nodes == old(root.Nodes) + [n]
               && n !in old(root.Repr) && root.Repr == old(root.Repr) + {n}
               && |root.Entries| == k && root.Entries[..k - 1] == old(root.Entries)
               && Holds(n, root.Entries[k - 1]) && n.Left == null
               && cur.Right == n && n.Parent == cur && n.Pos == k
               && cur.Parent == old(cur.Parent) && cur.Left == old(cur.Left)
               && cur.mMultiplier == old(cur.mMultiplier) && cur.Pos == old(cur.Pos)
               && (forall o :: o in old(root.Repr) && o != cur ==> Same(o))
      ensures root.Linked()
    {
      var k := |old(root.Nodes)|;
      var N0, E, N := old(root.Nodes), old(root.Entries), root.Nodes;
      forall j | 0 <= j < k
        ensures N[j] == N0[j] && N[j] in root.Repr && N[j].Pos == j
      {
        assert old(N0[j].Pos) == j;
      }
      forall j | 0 < j < k
        ensures N[j].Parent == N[j - 1] && N[j - 1].Right == N[j]
        ensures N[j].Left != null ==> N[j].Left in root.Repr
        ensures Holds(N[j], root.Entries[j - 1])
      {
        assert old(N0[j].Parent) == N0[j - 1] && old(N0[j - 1].Right) == N0[j];
        assert old(Holds(N0[j], E[j - 1]));
        assert root.Entries[j - 1] == E[j - 1];
        assert N0[j].Left != null ==> old(N0[j].Left.Pos) == -1 && old(N0[j].Left in root.Repr);
      }
    }

    /**
     * The value of the subtree under this node: multiplier times weight
     * (nothing for the root), minus the left subtree, plus the right one.
     * `k` is the spine position of this node, or of its parent when it is
     * a left child.
     */
    function GetDecimalValue(ghost root: Node, ghost k: nat, ghost asLeft: bool): (v: int)
      reads root, root.Repr
      requires root.Valid() && k < |root.Nodes|
      requires asLeft ==> 0 < k && root.Entries[k - 1].sub.Some? && this == root.Nodes[k].Left
      requires !asLeft ==> this == root.Nodes[k]
      ensures asLeft ==> v == Weight(root.Entries[k - 1].sub.value)
      ensures !asLeft && k == 0 ==> v == Value(root.Entries)
      ensures !asLeft && k > 0 ==> v == Value(root.Entries[k - 1..])
      decreases |root.Nodes| - k, if asLeft then 0 else 1
    {
      assert k > 0 ==> Holds(root.Nodes[k], root.Entries[k - 1]);
      assert k > 0 ==> root.Entries[k - 1..][1..] == root.Entries[k..];
      assert !asLeft && k + 1 < |root.Nodes| ==> Right == root.Nodes[k + 1];
      (if mNumeral.Some? then mMultiplier * Weight(mNumeral.value) else 0)
      - (if Left != null then Left.GetDecimalValue(root, k, true) else 0)
      + (if Right != null then Right.GetDecimalValue(root, k + 1, false) else 0)
    }
  }
}
