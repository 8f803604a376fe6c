/**
 * The tree builder of the earlier Node.cs, on heap objects. It differs from
 * Model/Node.cs in its Append (no rule for V, L and D, no check of the left
 * child on a lower symbol, no ratio check) and in its RotateLeft, which
 * moves a node together with its whole left chain. The root carries the
 * ghost bookkeeping: the nodes of its right spine (Nodes), the LegacySpine
 * value they stand for (Entries), every node of the tree (Repr) and the
 * nodes off the spine (Links); a node off the spine records the symbols of
 * its chain from itself down (Subs).
 */
module LegacyNode {
  import opened Numerals
  import opened LegacySpine

  class Node {
    var Parent: Node?
    var Left: Node?
    var Right: Node?
    var mMultiplier: int
    const mLiteral: Option<Numeral>

    // Meaningful on the root only.
    ghost var Nodes: seq<Node>
    ghost var Entries: seq<Entry>
    ghost var Repr: set<Node>
    ghost var Links: set<Node>
    // Position on the right spine (the root is 0); -1 once off the spine.
    ghost var Pos: int
    // Meaningful on chain nodes only.
    ghost var Subs: seq<Numeral>

    /** The root: no symbol, multiplier 0, no links. */
    constructor Root()
      ensures mLiteral.None? && mMultiplier == 0
      ensures Parent == null && Left == null && Right == null
      ensures Nodes == [this] && Entries == [] && Repr == {this} && Links == {} && Pos == 0
    {
      mLiteral := None;
      mMultiplier := 0;
      Parent, Left, Right := null, null, null;
      Nodes, Entries, Repr, Links, Pos, Subs := [this], [], {this}, {}, 0, [];
    }

    /** A node holding one copy of `literal`, pointing back to `parent`. */
    constructor (literal: Numeral, parent: Node?)
      ensures mLiteral == Some(literal) && mMultiplier == 1
      ensures Parent == parent && Left == null && Right == null && Pos == -1
    {
      mLiteral := Some(literal);
      mMultiplier := 1;
      Parent, Left, Right := parent, null, null;
      Nodes, Entries, Repr, Links, Pos, Subs := [], [], {}, {}, -1, [];
    }

    static method CreateRoot() returns (root: Node)
      ensures fresh(root) && fresh(root.Repr)
      ensures root.Valid() && root.Entries == [] && root.LastNode() == root
    {
      root := new Node.Root();
    }

    /** The spine node `n` and the chain under its left child stand for the entry `e`. */
    static ghost predicate Holds(n: Node, e: Entry)
      reads n, n.Left
    {
      && n.mLiteral == Some(e.numeral) && n.mMultiplier == e.mult && e.mult >= 1
      && (n.Left == null <==> e.subs == [])
      && (n.Left != null ==> n.Left.Subs == e.subs && n.Left.Parent == n)
    }

    /**
     * The chain node `x` holds the first of its symbols once, has no right
     * child, and its left child, if any, holds the rest of them.
     */
    static ghost predicate LinkOk(x: Node)
      reads x, x.Left
    {
      && |x.Subs| >= 1 && x.mLiteral == Some(x.Subs[0])
      && x.mMultiplier == 1 && x.Right == null
      && (x.Left == null <==> |x.Subs| == 1)
      && (x.Left != null ==> x.Left.Subs == x.Subs[1..] && x.Left.Parent == x)
    }

    /**
     * The pointer structure of a tree under construction: a right spine
     * from the root, every other node on the left chain of one spine node,
     * every Parent pointer the inverse of a Left or Right pointer.
     */
    ghost predicate Linked()
      reads this, Repr
    {
      && this in Repr && Links <= Repr
      && |Nodes| == |Entries| + 1
      && Nodes[0] == this
      && mLiteral.None? && mMultiplier == 0 && Parent == null && Left == null
      && (forall k :: 0 <= k < |Nodes| ==> Nodes[k] in Repr && Nodes[k] !in Links && Nodes[k].Pos == k)
      && (forall k :: 0 < k < |Nodes| ==> Nodes[k].Parent == Nodes[k - 1] && Nodes[k - 1].Right == Nodes[k])
      && (forall k :: 0 < k < |Nodes| ==> Nodes[k].Left != null ==> Nodes[k].Left in Links)
      && (forall k :: 0 < k < |Nodes| ==> Holds(Nodes[k], Entries[k - 1]))
      && (forall x {:trigger LinkOk(x)} :: x in Links ==> (x.Left != null ==> x.Left in Links) && LinkOk(x))
    }

    /** The tree between two appends: linked, nothing right of the last node, invariant kept. */
    ghost predicate Valid()
      reads this, Repr
    {
      Linked() && LastNode().Right == null && WellFormed(Entries)
    }

    ghost function LastNode(): Node
      reads this
      requires |Nodes| > 0
    {
      Nodes[|Nodes| - 1]
    }

    /**
     * What one Append to this node promises: it succeeds exactly when the
     * spine value admits the symbol, and then the tree is the appended
     * spine and the returned node is its last one; a failure (a thrown
     * exception) changes nothing but may leave a new, pending right child.
     */
    twostate predicate Appends(root: Node, literal: Numeral, new r: Option<Node>)
      reads *
    {
      && (r.Some? <==> Appended(old(root.Entries), literal).Some?)
      && (r.Some? ==> && root.Valid()
                      && root.Entries == Appended(old(root.Entries), literal).value
                      && r.value == root.LastNode()
                      && fresh(root.Repr - old(root.Repr)))
      && (r.None? ==> && unchanged(old(root.Repr) - {this})
                      && Parent == old(Parent) && Left == old(Left)
                      && mMultiplier == old(mMultiplier)
                      && (Right == null || fresh(Right)))
    }

    /**
     * Appends one symbol to this node, the one the previous call returned,
     * and returns the node the next call appends to; None is a thrown
     * exception.
     */
    method Append(literal: Numeral, ghost root: Node) returns (r: Option<Node>)
      requires root.Valid() && this == root.LastNode()
      modifies root.Repr
      ensures Appends(root, literal, r)
      ensures r.Some? && mLiteral == Some(literal) ==> r.value == this
    {
      // The root takes the first symbol as its right child.
      if mLiteral.None? {
        assert |root.Nodes| == 1;
        var n := AddRight(literal, root);
        return Some(n);
      }
      assert |root.Nodes| > 1;
      if mLiteral.value == literal {
        r := AppendSame(literal, root);
      } else if Below(literal, mLiteral.value) {
        r := AppendLower(literal, root);
      } else {
        r := AppendHigher(literal, root);
      }
    }

    /** The same symbol again: one more repetition of this node. */
    method AppendSame(literal: Numeral, ghost root: Node) returns (r: Option<Node>)
      requires root.Valid() && |root.Nodes| > 1 && this == root.LastNode()
      requires mLiteral == Some(literal)
      modifies root.Repr
      ensures Appends(root, literal, r)
      ensures r.Some? ==> r.value == this
    {
      ghost var E := root.Entries;
      assert Holds(this, Last(E));
      if Left != null {
        return None;
      }
      if mMultiplier == 3 {
        return None;
      }
      Repeated(root);
      AppendedWellFormed(E, literal);
      return Some(this);
    }

    /** A lower symbol: a new right child that the next symbols continue from. */
    method AppendLower(literal: Numeral, ghost root: Node) returns (r: Option<Node>)
      requires root.Valid() && |root.Nodes| > 1 && this == root.LastNode()
      requires mLiteral.Some? && Below(literal, mLiteral.value)
      modifies root.Repr
      ensures Appends(root, literal, r)
    {
      ghost var E := root.Entries;
      if Right != null {
        assert false;
      }
      var n := AddRight(literal, root);
      AppendedWellFormed(E, literal);
      return Some(n);
    }

    /** A higher symbol: hang it on the right, then rotate this node under it. */
    method AppendHigher(literal: Numeral, ghost root: Node) returns (r: Option<Node>)
      requires root.Valid() && |root.Nodes| > 1 && this == root.LastNode()
      requires mLiteral.Some? && Below(mLiteral.value, literal)
      modifies root.Repr
      ensures Appends(root, literal, r)
    {
      ghost var E := root.Entries;
      assert Holds(this, Last(E));
      if Right != null {
        assert false;
      }
      var n := HangRight(literal, root);
      var ok := RotateLeft(root);
      if !ok {
        return None;
      }
      AppendedWellFormed(E, literal);
      return Some(n);
    }

    /** `Right = new Node(literal, this)`: a new last node on the spine. */
    method AddRight(literal: Numeral, ghost root: Node) returns (n: Node)
      requires root.Linked() && this == root.LastNode() && Right == null
      modifies this, root
      ensures fresh(n) && Right == n && n.Parent == this && n.Left == null && n.Right == null
      ensures Parent == old(Parent) && Left == old(Left) && mMultiplier == old(mMultiplier)
      ensures root.Linked() && root.LastNode() == n
      ensures root.Entries == old(root.Entries) + [Entry(literal, 1, [])]
      ensures root.Repr == old(root.Repr) + {n}
    {
      n := new Node(literal, this);
      Right := n;
      n.Pos := |root.Nodes|;
      root.Nodes, root.Entries, root.Repr := root.Nodes + [n], root.Entries + [Entry(literal, 1, [])], root.Repr + {n};
      PushKeepsLinked(root);
    }

    /** `Right = new Node(literal, this)` ahead of a rotation: a pending right child off the spine. */
    method HangRight(literal: Numeral, ghost root: Node) returns (n: Node)
      requires root.Linked() && |root.Nodes| >= 2 && this == root.LastNode() && Right == null
      modifies this
      ensures fresh(n) && Right == n && n.Parent == this && n.Left == null && n.Right == null
      ensures n.mMultiplier == 1 && n.mLiteral == Some(literal)
      ensures Parent == old(Parent) && Left == old(Left) && mMultiplier == old(mMultiplier)
      ensures root.Linked() && this == root.LastNode()
    {
      n := new Node(literal, this);
      Right := n;
      forall x | x in root.Links
        ensures (x.Left != null ==> x.Left in root.Links) && LinkOk(x)
      {
        assert old(LinkOk(x));
      }
    }

    /** `mMultiplier++`: one more copy of the last spine node's symbol. */
    method Repeated(ghost root: Node)
      requires root.Linked() && |root.Nodes| >= 2 && this == root.LastNode()
      modifies this, root
      ensures Parent == old(Parent) && Left == old(Left) && Right == old(Right)
      ensures mMultiplier == old(mMultiplier) + 1
      ensures root.Linked() && root.LastNode() == this && root.Repr == old(root.Repr)
      ensures var E := old(root.Entries);
              root.Entries == E[..|E| - 1] + [Last(E).(mult := Last(E).mult + 1)]
    {
      ghost var E := root.Entries;
      assert Holds(this, Last(E));
      mMultiplier := mMultiplier + 1;
      root.Entries := E[..|E| - 1] + [Last(E).(mult := Last(E).mult + 1)];
      RepeatKeepsLinked(root);
    }

    /** One more repetition of the last spine node keeps the pointer structure. */
    static twostate lemma RepeatKeepsLinked(root: Node)
      requires old(root.Linked()) && |old(root.Nodes)| >= 2
      requires var k := |old(root.Nodes)| - 1;
               var cur, E := old(root.Nodes)[k], old(root.Entries);
               && root.Nodes == old(root.Nodes) && root.Repr == old(root.Repr) && root.Links == old(root.Links)
               && root.Entries == E[..k - 1] + [E[k - 1].(mult := E[k - 1].mult + 1)]
               && cur.mMultiplier == old(cur.mMultiplier) + 1
               && cur.Parent == old(cur.Parent) && cur.Left == old(cur.Left)
               && cur.Right == old(cur.Right) && cur.Pos == old(cur.Pos)
               && (forall o :: o in old(root.Repr) && o != cur ==> Same(o))
               && (forall o :: o in old(root.Links) ==> Same(o) && o.Subs == old(o.Subs))
      ensures root.Linked()
    {
      var k := |root.Nodes| - 1;
      var E, N := old(root.Entries), root.Nodes;
      forall j | 0 <= j <= k
        ensures N[j] in root.Repr && N[j] !in root.Links && N[j].Pos == j
      {
        assert old(N[j].Pos) == j;
      }
      forall j | 0 < j <= k
        ensures N[j].Parent == N[j - 1] && N[j - 1].Right == N[j]
        ensures N[j].Left != null ==> N[j].Left in root.Links
        ensures Holds(N[j], root.Entries[j - 1])
      {
        assert old(N[j].Parent) == N[j - 1] && old(N[j - 1].Right) == N[j];
        assert old(Holds(N[j], E[j - 1]));
      }
      forall x | x in root.Links
        ensures (x.Left != null ==> x.Left in root.Links) && LinkOk(x)
      {
        assert old(LinkOk(x));
      }
    }

    /**
     * Makes the pending right child of this last spine node take this
     * node's place, with this node, and its own left chain, as its left
     * child.
     */
    method RotateLeft(ghost root: Node) returns (ok: bool)
      requires root.Linked() && |root.Nodes| >= 2 && this == root.LastNode()
      requires Right != null ==> Right !in root.Repr && Right.Right == null && Right.Left == null
                                 && Right.mMultiplier == 1 && Right.mLiteral.Some?
      modifies root.Repr, Right
      ensures ok <==> if old(Right) == null then old(mMultiplier) <= 1
                      else RotatedLeft(old(root.Entries), old(Right).mLiteral.value).Some?
      ensures !ok || old(Right) == null ==> unchanged(old(root.Repr)) && Right == old(Right)
      ensures !ok && old(Right) != null ==> unchanged(old(Right))
      ensures ok && old(Right) != null ==>
                && old(Parent) != null && old(Parent).Right == old(Right) && old(Right).Parent == old(Parent)
                && Parent == old(Right) && old(Right).Left == this && Right == null
                && root.Linked() && root.LastNode() == old(Right) && root.LastNode().Right == null
                && root.Entries == RotatedLeft(old(root.Entries), old(Right).mLiteral.value).value
                && root.Repr == old(root.Repr) + {old(Right)}
    {
      ghost var k := |root.Nodes| - 1;
      assert Holds(this, root.Entries[k - 1]);
      assert Parent == root.Nodes[k - 1] && Parent in root.Repr;
      if Parent == null {
        assert false;
      }
      if mMultiplier > 1 {
        return false;
      }
      if Right == null {
        return true;
      }
      assert Pos == k && Parent.Pos == k - 1;
      Relink(root, k);
      RelinkKeepsLinked(root);
      return true;
    }

    /**
     * The five relinking steps of a rotation, each reading the links as
     * they were, and the bookkeeping of the tree's ghost state.
     */
    method Relink(ghost root: Node, ghost k: nat)
      requires k == |root.Nodes| - 1 >= 1 && |root.Entries| == k && this == root.Nodes[k]
      requires this in root.Repr && root in root.Repr && this != root && mLiteral.Some?
      requires Parent != null && Parent == root.Nodes[k - 1] && Parent in root.Repr && Parent != this
      requires Right != null && Right !in root.Repr && Right.mLiteral.Some?
      modifies this, Parent, Right, root
      ensures var p, n, E := old(Parent), old(Right), old(root.Entries);
              && p == old(root.Nodes)[k - 1]
              && p.Right == n && n.Parent == p && Parent == n && n.Left == this && Right == null
              && n.Pos == k && Pos == -1 && Subs == [mLiteral.value] + E[k - 1].subs
              && root.Nodes == old(root.Nodes)[..k] + [n]
              && root.Entries == E[..k - 1] + [Entry(n.mLiteral.value, 1, Subs)]
              && root.Repr == old(root.Repr) + {n} && root.Links == old(root.Links) + {this}
              && p.Parent == old(p.Parent) && p.Left == old(p.Left)
              && p.mMultiplier == old(p.mMultiplier) && p.Pos == old(p.Pos)
              && Left == old(Left) && mMultiplier == old(mMultiplier)
              && n.Right == old(n.Right) && n.mMultiplier == old(n.mMultiplier)
              && (forall o :: o in old(root.Repr) && o != p && o != this ==> Same(o))
    {
      var n, p := Right, Parent;
      p.Right, n.Parent, Parent, n.Left, Right := n, p, n, this, null;
      Retrack(root, k, n);
    }

    /** The ghost bookkeeping of a rotation: `n` takes this node's place on the spine. */
    ghost method Retrack(root: Node, k: nat, n: Node)
      requires k == |root.Nodes| - 1 >= 1 && |root.Entries| == k && this == root.Nodes[k]
      requires this != root && mLiteral.Some? && n != this && n != root && n.mLiteral.Some?
      modifies this, n, root
      ensures n.Pos == k && Pos == -1 && Subs == [mLiteral.value] + old(root.Entries)[k - 1].subs
      ensures root.Nodes == old(root.Nodes)[..k] + [n]
      ensures root.Entries == old(root.Entries)[..k - 1] + [Entry(n.mLiteral.value, 1, Subs)]
      ensures root.Repr == old(root.Repr) + {n} && root.Links == old(root.Links) + {this}
      ensures Parent == old(Parent) && Left == old(Left) && Right == old(Right)
      ensures n.Parent == old(n.Parent) && n.Left == old(n.Left) && n.Right == old(n.Right)
      ensures root.Parent == old(root.Parent) && root.Left == old(root.Left) && root.Right == old(root.Right)
      ensures mMultiplier == old(mMultiplier) && n.mMultiplier == old(n.mMultiplier)
      ensures root.mMultiplier == old(root.mMultiplier) && root.Pos == old(root.Pos)
    {
      ghost var E := root.Entries;
      ghost var chain := [mLiteral.value] + E[k - 1].subs;
      n.Pos, Pos, Subs := k, -1, chain;
      root.Nodes, root.Entries, root.Repr, root.Links :=
        root.Nodes[..k] + [n], E[..k - 1] + [Entry(n.mLiteral.value, 1, chain)],
        root.Repr + {n}, root.Links + {this};
    }

    /** The fields of `o` that the tree invariant reads are as they were. */
    static twostate predicate Same(o: Node)
      reads o
    {
      && o.Parent == old(o.Parent) && o.Left == old(o.Left) && o.Right == old(o.Right)
      && o.mMultiplier == old(o.mMultiplier) && o.Pos == old(o.Pos)
    }

    /**
     * A rotation keeps the pointer structure: the new last spine node `n`
     * takes the place of `cur`, which heads its chain, and no other node
     * but the parent `p` of both changes.
     */
    static twostate lemma RelinkKeepsLinked(root: Node)
      requires old(root.Linked()) && |old(root.Nodes)| >= 2 && |root.Nodes| == |old(root.Nodes)|
      requires var k := |root.Nodes| - 1;
               var p, cur, n := old(root.Nodes)[k - 1], old(root.Nodes)[k], root.Nodes[k];
               var subs := old(root.Entries)[k - 1].subs;
               && root.Nodes == old(root.Nodes)[..k] + [n]
               && n !in old(root.Repr) && root.Repr == old(root.Repr) + {n}
               && root.Links == old(root.Links) + {cur}
               && old(cur.mMultiplier) == 1
               && n.mLiteral.Some? && cur.mLiteral.Some?
               && cur.Subs == [cur.mLiteral.value] + subs
               && root.Entries == old(root.Entries)[..k - 1] + [Entry(n.mLiteral.value, 1, cur.Subs)]
               && p.Right == n && n.Parent == p && n.Left == cur && n.Pos == k && n.mMultiplier == 1
               && cur.Parent == n && cur.Right == null && cur.Left == old(cur.Left) && cur.mMultiplier == 1
               && p.Parent == old(p.Parent) && p.Left == old(p.Left)
               && p.mMultiplier == old(p.mMultiplier) && p.Pos == old(p.Pos)
               && (forall o :: o in old(root.Repr) && o != p && o != cur ==> Same(o))
               && (forall o :: o in old(root.Links) ==> Same(o) && o.Subs == old(o.Subs))
      ensures root.Linked()
    {
      var k := |root.Nodes| - 1;
      var N0, E, N := old(root.Nodes), old(root.Entries), root.Nodes;
      var p, cur, n := N0[k - 1], N0[k], N[k];
      forall j | 0 <= j < k
        ensures N[j] == N0[j] && N[j] in root.Repr && N[j] !in root.Links && N[j].Pos == j
        ensures N[j] != cur && N[j] != n
      {
        assert old(N0[j].Pos) == j;
      }
      forall j | 0 < j < k
        ensures N[j].Parent == N[j - 1] && N[j - 1].Right == N[j]
        ensures N[j].Left != null ==> N[j].Left in root.Links
        ensures Holds(N[j], root.Entries[j - 1])
      {
        assert old(N0[j].Parent) == N0[j - 1] && old(N0[j - 1].Right) == N0[j];
        assert old(Holds(N0[j], E[j - 1]));
      }
      assert old(Holds(cur, E[k - 1]));
      forall x | x in root.Links
        ensures (x.Left != null ==> x.Left in root.Links) && LinkOk(x)
      {
        if x != cur {
          assert old(LinkOk(x));
        }
      }
    }

    /**
     * Between two states: a new leaf `n` hangs as the right child of the
     * last spine node `cur` and is the new last node, and nothing else that
     * the tree invariant reads has changed.
     */
    static twostate predicate Pushed(root: Node)
      reads *
    {
      && old(root.Linked()) && |root.Nodes| == |old(root.Nodes)| + 1
      && var k := |old(root.Nodes)|;
         var cur, n := old(root.Nodes)[k - 1], root.Nodes[k];
         && root.Nodes == old(root.Nodes) + [n]
         && n !in old(root.Repr) && root.Repr == old(root.Repr) + {n}
         && root.Links == old(root.Links)
         && |root.Entries| == k && root.Entries[..k - 1] == old(root.Entries)
         && Holds(n, root.Entries[k - 1]) && n.Left == null
         && cur.Right == n && n.Parent == cur && n.Pos == k
         && cur.Parent == old(cur.Parent) && cur.Left == old(cur.Left)
         && cur.mMultiplier == old(cur.mMultiplier) && cur.Pos == old(cur.Pos)
         && (forall o :: o in old(root.Repr) && o != cur ==> Same(o))
         && (forall o :: o in old(root.Links) ==> Same(o) && o.Subs == old(o.Subs))
    }

    /**
     * Hanging a new leaf `n` as the right child of the last spine node
     * `cur` keeps the pointer structure, with `n` as the new last node.
     */
    static twostate lemma PushKeepsLinked(root: Node)
      requires Pushed(root)
      ensures root.Linked()
    {
      PushKeepsSpine(root);
      forall x | x in root.Links
        ensures (x.Left != null ==> x.Left in root.Links) && LinkOk(x)
      {
        assert old(LinkOk(x));
      }
    }

    /** The spine half of PushKeepsLinked: the old spine nodes keep their places and entries. */
    static twostate lemma PushKeepsSpine(root: Node)
      requires Pushed(root)
      ensures var k, N := |old(root.Nodes)|, root.Nodes;
              && (forall j :: 0 <= j < k ==> N[j] in root.Repr && N[j] !in root.Links && N[j].Pos == j)
              && (forall j :: 0 < j < k ==> N[j].Parent == N[j - 1] && N[j - 1].Right == N[j])
              && (forall j :: 0 < j < k ==> N[j].Left != null ==> N[j].Left in root.Links)
              && (forall j :: 0 < j < k ==> Holds(N[j], root.Entries[j - 1]))
    {
      var k := |old(root.Nodes)|;
      var N0, E, N := old(root.Nodes), old(root.Entries), root.Nodes;
      forall j | 0 <= j < k
        ensures N[j] == N0[j] && N[j] in root.Repr && N[j] !in root.Links && N[j].Pos == j
      {
        assert old(N0[j].Pos) == j;
      }
      forall j | 0 < j < k
        ensures N[j].Parent == N[j - 1] && N[j - 1].Right == N[j]
        ensures N[j].Left != null ==> N[j].Left in root.Links
        ensures Holds(N[j], root.Entries[j - 1])
      {
        assert old(N0[j].Parent) == N0[j - 1] && old(N0[j - 1].Right) == N0[j];
        assert old(Holds(N0[j], E[j - 1]));
        assert root.Entries[j - 1] == E[j - 1];
      }
    }

    /**
     * The value of the subtree under this node: multiplier times weight
     * (nothing for the root), minus the left subtree, plus the right one.
     * On the spine that is the value of the entries from this node on; on a
     * chain it is the chain value of the symbols from this node down.
     */
    function GetValue(ghost root: Node): (v: int)
      reads root, root.Repr
      requires root.Valid()
      requires this in root.Links || (0 <= Pos < |root.Nodes| && this == root.Nodes[Pos])
      ensures this in root.Links ==> v == ChainValue(Subs)
      ensures this !in root.Links && Pos == 0 ==> v == Value(root.Entries)
      ensures this !in root.Links && Pos > 0 ==> v == Value(root.Entries[Pos - 1..])
      decreases if this in root.Links then 0 else |root.Nodes| - Pos, if this in root.Links then |Subs| else 0
    {
      assert this in root.Links ==> (Left != null ==> Left in root.Links) && LinkOk(this);
      assert this !in root.Links && Pos > 0 ==> Holds(this, root.Entries[Pos - 1]);
      assert this !in root.Links && Pos > 0 ==> root.Entries[Pos - 1..][1..] == root.Entries[Pos..];
      assert this !in root.Links && Pos + 1 < |root.Nodes| ==> Right == root.Nodes[Pos + 1];
      (if mLiteral.Some? then mMultiplier * Weight(mLiteral.value) else 0)
      - (if Left != null then Left.GetValue(root) else 0)
      + (if Right != null then Right.GetValue(root) else 0)
    }
  }
}
