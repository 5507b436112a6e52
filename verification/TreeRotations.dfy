/**
 Rotations of the order-statistic tree.  Nodes live at positions of an arena and refer to each other
 by position; each counts the elements of its subtree, in 32 bits.
 */
module TreeRotations {

  const TPOS_LIMIT: int := 0x1_0000_0000

  type Tpos = p: int | 0 <= p < TPOS_LIMIT

  const EMPTY: Tpos := 0xFFFF_FFFF

  function Wrap(x: int): Tpos {
    x % TPOS_LIMIT
  }

  class IndexNode {
    var left: Tpos
    var right: Tpos
    var elemCount: Tpos

    constructor ()
      ensures left == EMPTY && right == EMPTY && elemCount == 1
    {
      left, right, elemCount := EMPTY, EMPTY, 1;
    }

    function Contents(): Header
      reads this
    {
      Header(left, right, elemCount)
    }
  }

  datatype Header = Header(left: Tpos, right: Tpos, elemCount: Tpos)

  /** The contents of an arena. */
  type Arena = map<Tpos, Header>

  function Snapshot(nodes: map<Tpos, IndexNode>): Arena
    reads nodes.Values
  {
    map p | p in nodes :: nodes[p].Contents()
  }

  /** No node is at two positions. */
  predicate Separate(nodes: map<Tpos, IndexNode>) {
    forall p, q :: p in nodes && q in nodes && p != q ==> nodes[p] != nodes[q]
  }

  // ---------------------------------------------------------------- what a rotation does to an arena

  function LeftRotated(a: Arena, up: Tpos, right: Tpos, rightRightCount: Tpos): Arena
    requires up in a && right in a
  {
    var u, r := a[up], a[right];
    a[up := Header(u.left, r.left, Wrap(u.elemCount - rightRightCount - 1))]
     [right := Header(up, r.right, u.elemCount)]
  }

  function RightRotated(a: Arena, up: Tpos, left: Tpos, leftLeftCount: Tpos): Arena
    requires up in a && left in a
  {
    var u, l := a[up], a[left];
    a[up := Header(l.right, u.right, Wrap(u.elemCount - leftLeftCount - 1))]
     [left := Header(l.left, up, u.elemCount)]
  }

  /** The position of the new root is what `up` pointed to. */
  method RotateLeft(upNode: IndexNode, upNodePos: Tpos, rightNode: IndexNode, rightNodeRightCount: Tpos,
                    ghost nodes: map<Tpos, IndexNode>) returns (root: Tpos)
    requires Separate(nodes) && upNodePos in nodes && nodes[upNodePos] == upNode
    requires upNode.right in nodes && nodes[upNode.right] == rightNode && upNode.right != upNodePos
    modifies upNode, rightNode
    ensures root == old(upNode.right)
    ensures Snapshot(nodes) == LeftRotated(old(Snapshot(nodes)), upNodePos, root, rightNodeRightCount)
  {
    var pos := upNodePos;
    pos, rightNode.left := rightNode.left, pos;
    pos, upNode.right := upNode.right, pos;
    var allCount := upNode.elemCount;
    upNode.elemCount := Wrap(allCount - rightNodeRightCount - 1);
    rightNode.elemCount := allCount;
    root := pos;
  }

  method RotateRight(upNode: IndexNode, upNodePos: Tpos, leftNode: IndexNode, leftNodeLeftCount: Tpos,
                     ghost nodes: map<Tpos, IndexNode>) returns (root: Tpos)
    requires Separate(nodes) && upNodePos in nodes && nodes[upNodePos] == upNode
    requires upNode.left in nodes && nodes[upNode.left] == leftNode && upNode.left != upNodePos
    modifies upNode, leftNode
    ensures root == old(upNode.left)
    ensures Snapshot(nodes) == RightRotated(old(Snapshot(nodes)), upNodePos, root, leftNodeLeftCount)
  {
    var pos := upNodePos;
    pos, leftNode.right := leftNode.right, pos;
    pos, upNode.left := upNode.left, pos;
    var allCount := upNode.elemCount;
    upNode.elemCount := Wrap(allCount - leftNodeLeftCount - 1);
    leftNode.elemCount := allCount;
    root := pos;
  }

  // ---------------------------------------------------------------- trees in an arena

  datatype Tree = Leaf | Branch(pos: Tpos, left: Tree, right: Tree)

  function Positions(t: Tree): set<Tpos> {
    if t.Leaf? then {} else {t.pos} + Positions(t.left) + Positions(t.right)
  }

  function InOrder(t: Tree): seq<Tpos> {
    if t.Leaf? then [] else InOrder(t.left) + [t.pos] + InOrder(t.right)
  }

  function Size(t: Tree): nat {
    if t.Leaf? then 0 else Size(t.left) + 1 + Size(t.right)
  }

  /** The subtree at `pos` has the shape of `t`: every position is used once, and the empty one by no node. */
  ghost predicate IsTree(a: Arena, pos: Tpos, t: Tree)
    decreases t
  {
    match t
    case Leaf => pos == EMPTY
    case Branch(p, l, r) =>
      && pos == p && p != EMPTY && p in a
      && IsTree(a, a[p].left, l) && IsTree(a, a[p].right, r)
      && p !in Positions(l) && p !in Positions(r) && Positions(l) !! Positions(r)
  }

  /** Every node counts the elements of its subtree. */
  ghost predicate Counted(a: Arena, t: Tree) {
    match t
    case Leaf => true
    case Branch(p, l, r) => p in a && a[p].elemCount == Size(t) && Counted(a, l) && Counted(a, r)
  }

  /** A tree is untouched by changes outside it. */
  lemma {:induction false} TreeFramed(a: Arena, b: Arena, pos: Tpos, t: Tree)
    requires IsTree(a, pos, t)
    requires forall p :: p in Positions(t) ==> p in a && p in b && a[p] == b[p]
    ensures IsTree(b, pos, t)
    ensures Counted(a, t) ==> Counted(b, t)
    decreases t
  {
    if t.Branch? {
      TreeFramed(a, b, a[t.pos].left, t.left);
      TreeFramed(a, b, a[t.pos].right, t.right);
    }
  }

  lemma {:induction false} PositionsInArena(a: Arena, pos: Tpos, t: Tree)
    requires IsTree(a, pos, t)
    ensures forall p :: p in Positions(t) ==> p in a
    decreases t
  {
    if t.Branch? {
      PositionsInArena(a, a[t.pos].left, t.left);
      PositionsInArena(a, a[t.pos].right, t.right);
    }
  }

  function RotatedLeft(t: Tree): Tree
    requires t.Branch? && t.right.Branch?
  {
    Branch(t.right.pos, Branch(t.pos, t.left, t.right.left), t.right.right)
  }

  function RotatedRight(t: Tree): Tree
    requires t.Branch? && t.left.Branch?
  {
    Branch(t.left.pos, t.left.left, Branch(t.pos, t.left.right, t.right))
  }

  /** Rotating keeps the sequence, the positions and the size, and the two rotations undo each other. */
  lemma RotationsOfShapes(t: Tree)
    requires t.Branch? && t.right.Branch?
    ensures InOrder(RotatedLeft(t)) == InOrder(t)
    ensures Positions(RotatedLeft(t)) == Positions(t) && Size(RotatedLeft(t)) == Size(t)
    ensures RotatedRight(RotatedLeft(t)) == t
  {
    Regroup(InOrder(t.left), t.pos, InOrder(t.right.left), t.right.pos, InOrder(t.right.right));
    assert Positions(RotatedLeft(t)) == Positions(t);
  }

  lemma Regroup(a: seq<Tpos>, x: Tpos, b: seq<Tpos>, y: Tpos, c: seq<Tpos>)
    ensures a + [x] + (b + [y] + c) == (a + [x] + b) + [y] + c
  {
  }

  /** Every node but the root of `child` counts its subtree. */
  ghost predicate CountedBut(a: Arena, t: Tree, child: Tree)
    requires t.Branch? && child.Branch? && (child == t.left || child == t.right)
  {
    && t.pos in a && a[t.pos].elemCount == Size(t)
    && Counted(a, child.left) && Counted(a, child.right)
    && Counted(a, if child == t.right then t.left else t.right)
  }

  /** The count the old root is left with is right exactly when the outer count handed in is. */
  lemma OuterCount(total: nat, outerCount: Tpos, outer: nat)
    requires outer < total < TPOS_LIMIT
    ensures Wrap(total - outerCount - 1) == total - outer - 1 <==> outerCount == outer
  {
  }

  lemma LeftRotationFrames(a: Arena, pos: Tpos, t: Tree, rightRightCount: Tpos)
    requires IsTree(a, pos, t) && t.Branch? && t.right.Branch?
    ensures pos in a && a[pos].right in a && a[pos].right == t.right.pos
    ensures var root := a[pos].right; var b := LeftRotated(a, pos, root, rightRightCount);
            && IsTree(b, a[pos].left, t.left)
            && IsTree(b, a[root].left, t.right.left)
            && IsTree(b, a[root].right, t.right.right)
            && (Counted(a, t.left) ==> Counted(b, t.left))
            && (Counted(a, t.right.left) ==> Counted(b, t.right.left))
            && (Counted(a, t.right.right) ==> Counted(b, t.right.right))
  {
    var root := a[pos].right;
    var b := LeftRotated(a, pos, root, rightRightCount);
    PositionsInArena(a, pos, t);
    TreeFramed(a, b, a[pos].left, t.left);
    TreeFramed(a, b, a[root].left, t.right.left);
    TreeFramed(a, b, a[root].right, t.right.right);
  }

  /**
   If every node but the old right child counted its subtree, every node does after the rotation,
   exactly when the count handed in is the size of the outer right subtree.
   */
  lemma LeftRotationCounts(a: Arena, pos: Tpos, t: Tree, rightRightCount: Tpos)
    requires IsTree(a, pos, t) && t.Branch? && t.right.Branch?
    requires CountedBut(a, t, t.right)
    ensures pos in a && a[pos].right in a
    ensures Counted(LeftRotated(a, pos, a[pos].right, rightRightCount), RotatedLeft(t))
            <==> rightRightCount == Size(t.right.right)
  {
    LeftRotationKeepsCounts(a, pos, t, rightRightCount);
    var b := LeftRotated(a, pos, t.right.pos, rightRightCount);
    LeftRotatedHeaders(a, pos, t, rightRightCount);
    assert Size(t) == Size(t.right) + 1 + Size(t.left) && Size(t.right) == Size(t.right.left) + 1 + Size(t.right.right);
    RotatedCounts(b, t.right.pos, t.pos, t.left, t.right.left, t.right.right, Size(t), rightRightCount);
  }

  /** After either rotation: the outer node has the count of the whole, the inner one what is left. */
  lemma RotatedCounts(
      a: Arena, outer: Tpos, inner: Tpos, x: Tree, y: Tree, z: Tree, total: nat, outerCount: Tpos)
    requires outer in a && inner in a && Counted(a, x) && Counted(a, y) && Counted(a, z)
    requires total == Size(x) + Size(y) + Size(z) + 2 && total < TPOS_LIMIT
    requires a[outer].elemCount == total && a[inner].elemCount == Wrap(total - outerCount - 1)
    ensures Counted(a, Branch(outer, Branch(inner, x, y), z)) <==> outerCount == Size(z)
    ensures Counted(a, Branch(outer, z, Branch(inner, x, y))) <==> outerCount == Size(z)
  {
    TwoCounted(a, outer, inner, x, y, z);
    OuterCount(total, outerCount, Size(z));
  }

  lemma BranchCounted(a: Arena, p: Tpos, l: Tree, r: Tree)
    requires p in a && Counted(a, l) && Counted(a, r)
    ensures Counted(a, Branch(p, l, r)) <==> a[p].elemCount == Size(l) + 1 + Size(r)
  {
  }

  lemma BranchNotCounted(a: Arena, p: Tpos, l: Tree, r: Tree)
    requires !Counted(a, l) || !Counted(a, r)
    ensures !Counted(a, Branch(p, l, r))
  {
  }

  /** When the two nodes of a rotated tree count right: the inner one may be on either side. */
  lemma TwoCounted(a: Arena, outer: Tpos, inner: Tpos, x: Tree, y: Tree, z: Tree)
    requires outer in a && inner in a && Counted(a, x) && Counted(a, y) && Counted(a, z)
    ensures Counted(a, Branch(outer, Branch(inner, x, y), z)) <==>
              a[outer].elemCount == Size(x) + Size(y) + Size(z) + 2 && a[inner].elemCount == Size(x) + Size(y) + 1
    ensures Counted(a, Branch(outer, z, Branch(inner, x, y))) <==>
              a[outer].elemCount == Size(x) + Size(y) + Size(z) + 2 && a[inner].elemCount == Size(x) + Size(y) + 1
  {
    var t := Branch(inner, x, y);
    BranchCounted(a, inner, x, y);
    if Counted(a, t) {
      BranchCounted(a, outer, t, z);
      BranchCounted(a, outer, z, t);
    } else {
      BranchNotCounted(a, outer, t, z);
      BranchNotCounted(a, outer, z, t);
    }
  }

  lemma LeftRotatedHeaders(a: Arena, pos: Tpos, t: Tree, rightRightCount: Tpos)
    requires IsTree(a, pos, t) && t.Branch? && t.right.Branch? && a[pos].elemCount == Size(t)
    ensures t.pos == pos && pos in a && t.right.pos in a
    ensures var b := LeftRotated(a, pos, t.right.pos, rightRightCount);
            b[t.right.pos].elemCount == Size(t) && b[pos].elemCount == Wrap(Size(t) - rightRightCount - 1)
  {
    assert t.right.pos in Positions(t.right);
  }

  lemma LeftRotationKeepsCounts(a: Arena, pos: Tpos, t: Tree, rightRightCount: Tpos)
    requires IsTree(a, pos, t) && t.Branch? && t.right.Branch? && CountedBut(a, t, t.right)
    ensures pos == t.pos && pos in a && a[pos].right in a && a[pos].right == t.right.pos
    ensures var b := LeftRotated(a, pos, a[pos].right, rightRightCount);
            Counted(b, t.left) && Counted(b, t.right.left) && Counted(b, t.right.right)
  {
    LeftRotationFrames(a, pos, t, rightRightCount);
  }

  /**
   A left rotation leaves a tree of the rotated shape at the position of the old right child.  The
   in-order sequence is the same, and nothing outside the two nodes has changed.
   */
  lemma LeftRotationCorrect(a: Arena, pos: Tpos, t: Tree, rightRightCount: Tpos)
    requires IsTree(a, pos, t) && t.Branch? && t.right.Branch?
    ensures pos in a && a[pos].right in a && a[pos].right == t.right.pos
    ensures var root := a[pos].right; var b := LeftRotated(a, pos, root, rightRightCount);
            && IsTree(b, root, RotatedLeft(t))
            && InOrder(RotatedLeft(t)) == InOrder(t)
            && b.Keys == a.Keys && (forall p :: p in a && p != pos && p != root ==> b[p] == a[p])
  {
    LeftRotationFrames(a, pos, t, rightRightCount);
    RotationsOfShapes(t);
  }

  lemma RightRotationFrames(a: Arena, pos: Tpos, t: Tree, leftLeftCount: Tpos)
    requires IsTree(a, pos, t) && t.Branch? && t.left.Branch?
    ensures pos in a && a[pos].left in a && a[pos].left == t.left.pos
    ensures var root := a[pos].left; var b := RightRotated(a, pos, root, leftLeftCount);
            && IsTree(b, a[pos].right, t.right)
            && IsTree(b, a[root].left, t.left.left)
            && IsTree(b, a[root].right, t.left.right)
            && (Counted(a, t.right) ==> Counted(b, t.right))
            && (Counted(a, t.left.left) ==> Counted(b, t.left.left))
            && (Counted(a, t.left.right) ==> Counted(b, t.left.right))
  {
    var root := a[pos].left;
    var b := RightRotated(a, pos, root, leftLeftCount);
    PositionsInArena(a, pos, t);
    TreeFramed(a, b, a[pos].right, t.right);
    TreeFramed(a, b, a[root].left, t.left.left);
    TreeFramed(a, b, a[root].right, t.left.right);
  }

  /**
   If every node but the old left child counted its subtree, every node does after the rotation,
   exactly when the count handed in is the size of the outer left subtree.
   */
  lemma RightRotationCounts(a: Arena, pos: Tpos, t: Tree, leftLeftCount: Tpos)
    requires IsTree(a, pos, t) && t.Branch? && t.left.Branch?
    requires CountedBut(a, t, t.left)
    ensures pos in a && a[pos].left in a
    ensures Counted(RightRotated(a, pos, a[pos].left, leftLeftCount), RotatedRight(t))
            <==> leftLeftCount == Size(t.left.left)
  {
    RightRotationKeepsCounts(a, pos, t, leftLeftCount);
    var b := RightRotated(a, pos, t.left.pos, leftLeftCount);
    RightRotatedHeaders(a, pos, t, leftLeftCount);
    assert Size(t) == Size(t.left) + 1 + Size(t.right) && Size(t.left) == Size(t.left.left) + 1 + Size(t.left.right);
    RotatedCounts(b, t.left.pos, t.pos, t.left.right, t.right, t.left.left, Size(t), leftLeftCount);
  }

  lemma RightRotatedHeaders(a: Arena, pos: Tpos, t: Tree, leftLeftCount: Tpos)
    requires IsTree(a, pos, t) && t.Branch? && t.left.Branch? && a[pos].elemCount == Size(t)
    ensures t.pos == pos && pos in a && t.left.pos in a
    ensures var b := RightRotated(a, pos, t.left.pos, leftLeftCount);
            b[t.left.pos].elemCount == Size(t) && b[pos].elemCount == Wrap(Size(t) - leftLeftCount - 1)
  {
    assert t.left.pos in Positions(t.left);
  }

  lemma RightRotationKeepsCounts(a: Arena, pos: Tpos, t: Tree, leftLeftCount: Tpos)
    requires IsTree(a, pos, t) && t.Branch? && t.left.Branch? && CountedBut(a, t, t.left)
    ensures pos == t.pos && pos in a && a[pos].left in a && a[pos].left == t.left.pos
    ensures var b := RightRotated(a, pos, a[pos].left, leftLeftCount);
            Counted(b, t.left.left) && Counted(b, t.left.right) && Counted(b, t.right)
  {
    RightRotationFrames(a, pos, t, leftLeftCount);
  }

  /** The mirror image, for a right rotation. */
  lemma RightRotationCorrect(a: Arena, pos: Tpos, t: Tree, leftLeftCount: Tpos)
    requires IsTree(a, pos, t) && t.Branch? && t.left.Branch?
    ensures pos in a && a[pos].left in a && a[pos].left == t.left.pos
    ensures var root := a[pos].left; var b := RightRotated(a, pos, root, leftLeftCount);
            && IsTree(b, root, RotatedRight(t))
            && InOrder(RotatedRight(t)) == InOrder(t)
            && b.Keys == a.Keys && (forall p :: p in a && p != pos && p != root ==> b[p] == a[p])
  {
    RightRotationFrames(a, pos, t, leftLeftCount);
    RotationsOfShapes(RotatedRight(t));
  }

  // ---------------------------------------------------------------- rotating inside a tree

  datatype Side = LeftSide | RightSide

  function Child(t: Tree, side: Side): Tree
    requires t.Branch?
  {
    if side.LeftSide? then t.left else t.right
  }

  predicate HasPath(t: Tree, path: seq<Side>)
    decreases |path|
  {
    path == [] || (t.Branch? && HasPath(Child(t, path[0]), path[1..]))
  }

  function Subtree(t: Tree, path: seq<Side>): Tree
    requires HasPath(t, path)
    decreases |path|
  {
    if path == [] then t else Subtree(Child(t, path[0]), path[1..])
  }

  function WithSubtree(t: Tree, path: seq<Side>, s: Tree): Tree
    requires HasPath(t, path)
    decreases |path|
  {
    if path == [] then s
    else if path[0].LeftSide? then Branch(t.pos, WithSubtree(t.left, path[1..], s), t.right)
    else Branch(t.pos, t.left, WithSubtree(t.right, path[1..], s))
  }

  /** The position of the node that links to the subtree. */
  function Parent(t: Tree, path: seq<Side>): Tpos
    requires HasPath(t, path) && path != []
    decreases |path|
  {
    if |path| == 1 then t.pos else Parent(Child(t, path[0]), path[1..])
  }

  /** The arena once `root` has been stored in the link to the subtree; a subtree that is the whole tree has none. */
  function WithLink(a: Arena, t: Tree, path: seq<Side>, root: Tpos): Arena
    requires HasPath(t, path)
  {
    if path == [] || Parent(t, path) !in a then a
    else
      var p := Parent(t, path);
      a[p := if path[|path| - 1].LeftSide? then a[p].(left := root) else a[p].(right := root)]
  }

  lemma {:induction false} ParentInTree(t: Tree, path: seq<Side>)
    requires HasPath(t, path) && path != []
    ensures Parent(t, path) in Positions(t)
    decreases |path|
  {
    if |path| > 1 {
      ParentInTree(Child(t, path[0]), path[1..]);
    }
  }

  lemma {:induction false} SubtreePositions(t: Tree, path: seq<Side>)
    requires HasPath(t, path)
    ensures Positions(Subtree(t, path)) <= Positions(t)
    decreases |path|
  {
    if path != [] {
      SubtreePositions(Child(t, path[0]), path[1..]);
    }
  }

  lemma {:induction false} SubtreeIsTree(a: Arena, pos: Tpos, t: Tree, path: seq<Side>) returns (sub: Tpos)
    requires IsTree(a, pos, t) && HasPath(t, path)
    ensures IsTree(a, sub, Subtree(t, path))
    ensures Counted(a, t) ==> Counted(a, Subtree(t, path))
    decreases |path|
  {
    if path == [] {
      sub := pos;
    } else {
      sub := SubtreeIsTree(a, if path[0].LeftSide? then a[pos].left else a[pos].right, Child(t, path[0]), path[1..]);
    }
  }

  /** Putting in a subtree with the same elements keeps the elements and their order. */
  lemma {:induction false} SameElements(t: Tree, path: seq<Side>, s: Tree)
    requires HasPath(t, path) && InOrder(s) == InOrder(Subtree(t, path))
    requires Positions(s) == Positions(Subtree(t, path)) && Size(s) == Size(Subtree(t, path))
    ensures InOrder(WithSubtree(t, path, s)) == InOrder(t)
    ensures Positions(WithSubtree(t, path, s)) == Positions(t) && Size(WithSubtree(t, path, s)) == Size(t)
    decreases |path|
  {
    if path != [] {
      SameElements(Child(t, path[0]), path[1..], s);
    }
  }

  /** `b` is `a` with the subtree at `path` made into one of shape `s` at `root`, and nothing else changed. */
  ghost predicate Remade(a: Arena, b: Arena, t: Tree, path: seq<Side>, s: Tree, root: Tpos)
    requires HasPath(t, path)
  {
    && IsTree(b, root, s) && Positions(s) == Positions(Subtree(t, path)) && Size(s) == Size(Subtree(t, path))
    && InOrder(s) == InOrder(Subtree(t, path)) && b.Keys == a.Keys
    && (forall p :: p in a && p !in Positions(s) ==> b[p] == a[p])
  }

  /** Storing the link changes the parent only. */
  lemma LinkFrames(b: Arena, t: Tree, path: seq<Side>, root: Tpos)
    requires HasPath(t, path)
    ensures WithLink(b, t, path, root).Keys == b.Keys
    ensures forall p :: p in b && (path == [] || p != Parent(t, path)) ==> WithLink(b, t, path, root)[p] == b[p]
  {
  }

  function Link(h: Header, side: Side): Tpos {
    if side.LeftSide? then h.left else h.right
  }

  function Other(side: Side): Side {
    if side.LeftSide? then RightSide else LeftSide
  }

  /** A branch is a tree if its children are, apart from each other and from it. */
  lemma BranchIsTree(c: Arena, t: Tree, side: Side, below: Tree)
    requires t.Branch? && t.pos in c && t.pos != EMPTY
    requires IsTree(c, Link(c[t.pos], side), below)
    requires IsTree(c, Link(c[t.pos], Other(side)), Child(t, Other(side)))
    requires t.pos !in Positions(below) && t.pos !in Positions(Child(t, Other(side)))
    requires Positions(below) !! Positions(Child(t, Other(side)))
    ensures var u := if side.LeftSide? then Branch(t.pos, below, t.right) else Branch(t.pos, t.left, below);
            && IsTree(c, t.pos, u)
            && (c[t.pos].elemCount == Size(t) && Size(below) == Size(Child(t, side)) ==>
                  (Counted(c, u) <==> Counted(c, below) && Counted(c, Child(t, Other(side)))))
  {
  }

  /**
   Once the position of the remade subtree is in its parent's link, the whole is a tree again, and if
   its counts were right they are wherever those of the subtree are.
   */
  lemma {:induction false} RemadeIsTree(a: Arena, b: Arena, pos: Tpos, t: Tree, path: seq<Side>, s: Tree, root: Tpos)
    requires IsTree(a, pos, t) && HasPath(t, path) && Remade(a, b, t, path, s, root)
    ensures var c := WithLink(b, t, path, root);
            && IsTree(c, if path == [] then root else pos, WithSubtree(t, path, s))
            && (Counted(a, t) ==> (Counted(c, WithSubtree(t, path, s)) <==> Counted(b, s)))
    decreases |path|
  {
    if path != [] {
      var side, below, rest := path[0], Child(t, path[0]), path[1..];
      var c, put := WithLink(b, t, path, root), WithSubtree(below, rest, s);
      SameElements(below, rest, s);
      BelowIsTree(a, b, pos, t, path, s, root);
      AboveIsTree(a, b, pos, t, path, s, root);
      BranchIsTree(c, t, side, put);
    }
  }

  /** The subtree on the path, seen in the final arena. */
  lemma {:induction false} BelowIsTree(a: Arena, b: Arena, pos: Tpos, t: Tree, path: seq<Side>, s: Tree, root: Tpos)
    requires IsTree(a, pos, t) && HasPath(t, path) && Remade(a, b, t, path, s, root) && path != []
    ensures var c, put := WithLink(b, t, path, root), WithSubtree(Child(t, path[0]), path[1..], s);
            && t.pos in c && IsTree(c, Link(c[t.pos], path[0]), put)
            && (Counted(a, Child(t, path[0])) ==> (Counted(c, put) <==> Counted(b, s)))
    decreases |path|, 0
  {
    if |path| == 1 {
      LastLink(a, b, pos, t, path, s, root);
    } else {
      RemadeBelow(a, b, t, path, s, root);
      RemadeIsTree(a, b, Link(a[pos], path[0]), Child(t, path[0]), path[1..], s, root);
      LinkKept(a, b, pos, t, path, s, root);
    }
  }

  lemma RemadeBelow(a: Arena, b: Arena, t: Tree, path: seq<Side>, s: Tree, root: Tpos)
    requires HasPath(t, path) && path != [] && Remade(a, b, t, path, s, root)
    ensures Remade(a, b, Child(t, path[0]), path[1..], s, root)
  {
  }

  lemma LastLink(a: Arena, b: Arena, pos: Tpos, t: Tree, path: seq<Side>, s: Tree, root: Tpos)
    requires IsTree(a, pos, t) && HasPath(t, path) && Remade(a, b, t, path, s, root) && |path| == 1
    ensures var c := WithLink(b, t, path, root);
            t.pos in c && Link(c[t.pos], path[0]) == root && IsTree(c, root, s) && (Counted(c, s) <==> Counted(b, s))
    ensures WithSubtree(Child(t, path[0]), path[1..], s) == s
  {
    var c := WithLink(b, t, path, root);
    assert Subtree(t, path) == Child(t, path[0]);
    PositionsInArena(b, root, s);
    TreeFramed(b, c, root, s);
    CountsFramed(b, c, s);
  }

  lemma LinkKept(a: Arena, b: Arena, pos: Tpos, t: Tree, path: seq<Side>, s: Tree, root: Tpos)
    requires IsTree(a, pos, t) && HasPath(t, path) && Remade(a, b, t, path, s, root) && |path| > 1
    ensures var c := WithLink(b, t, path, root);
            t.pos in c && c[t.pos] == a[t.pos] && c == WithLink(b, Child(t, path[0]), path[1..], root)
  {
    var below, rest := Child(t, path[0]), path[1..];
    SubtreePositions(below, rest);
    ParentInTree(below, rest);
    LinkFrames(b, t, path, root);
    assert Parent(t, path) == Parent(below, rest) && path[|path| - 1] == rest[|rest| - 1];
  }

  /** The subtree off the path is untouched, and so are the count of the node and its link there. */
  lemma AboveIsTree(a: Arena, b: Arena, pos: Tpos, t: Tree, path: seq<Side>, s: Tree, root: Tpos)
    requires IsTree(a, pos, t) && HasPath(t, path) && Remade(a, b, t, path, s, root) && path != []
    ensures var c, other := WithLink(b, t, path, root), Other(path[0]);
            && t.pos in c && IsTree(c, Link(c[t.pos], other), Child(t, other))
            && c[t.pos].elemCount == a[t.pos].elemCount
            && (Counted(c, Child(t, other)) <==> Counted(a, Child(t, other)))
  {
    var c, other := WithLink(b, t, path, root), Other(path[0]);
    var below, rest := Child(t, path[0]), path[1..];
    PositionsInArena(a, pos, t);
    SubtreePositions(below, rest);
    LinkFrames(b, t, path, root);
    if rest != [] {
      ParentInTree(below, rest);
    }
    assert b[t.pos] == a[t.pos];
    TreeFramed(a, c, Link(a[pos], other), Child(t, other));
    CountsFramed(a, c, Child(t, other));
  }

  lemma {:induction false} CountsFramed(a: Arena, b: Arena, t: Tree)
    requires forall p :: p in Positions(t) ==> (p in a <==> p in b) && (p in a ==> a[p] == b[p])
    ensures Counted(a, t) <==> Counted(b, t)
  {
    if t.Branch? {
      CountsFramed(a, b, t.left);
      CountsFramed(a, b, t.right);
    }
  }

  /**
   A left rotation inside a tree, its result stored in the link of the parent: the whole tree keeps its
   in-order sequence, and right counts stay right exactly when the count handed in is the outer size.
   */
  lemma InnerLeftRotation(a: Arena, pos: Tpos, t: Tree, path: seq<Side>, rightRightCount: Tpos)
    requires IsTree(a, pos, t) && HasPath(t, path) && Counted(a, t)
    requires Subtree(t, path).Branch? && Subtree(t, path).right.Branch?
    ensures var s := Subtree(t, path);
            && s.pos in a && s.right.pos in a
            && var c := WithLink(LeftRotated(a, s.pos, s.right.pos, rightRightCount), t, path, s.right.pos);
               var u := WithSubtree(t, path, RotatedLeft(s));
               && IsTree(c, if path == [] then s.right.pos else pos, u) && InOrder(u) == InOrder(t)
               && (forall p :: p in a && p != s.pos && p != s.right.pos && (path == [] || p != Parent(t, path)) ==>
                     p in c && c[p] == a[p])
               && (Counted(c, u) <==> rightRightCount == Size(s.right.right))
  {
    var s := Subtree(t, path);
    var at := SubtreeIsTree(a, pos, t, path);
    LeftRotationCorrect(a, at, s, rightRightCount);
    LeftRotationCounts(a, at, s, rightRightCount);
    RotationsOfShapes(s);
    SameElements(t, path, RotatedLeft(s));
    LinkFrames(LeftRotated(a, s.pos, s.right.pos, rightRightCount), t, path, s.right.pos);
    RemadeIsTree(a, LeftRotated(a, s.pos, s.right.pos, rightRightCount), pos, t, path, RotatedLeft(s), s.right.pos);
  }

  /** The mirror image. */
  lemma InnerRightRotation(a: Arena, pos: Tpos, t: Tree, path: seq<Side>, leftLeftCount: Tpos)
    requires IsTree(a, pos, t) && HasPath(t, path) && Counted(a, t)
    requires Subtree(t, path).Branch? && Subtree(t, path).left.Branch?
    ensures var s := Subtree(t, path);
            && s.pos in a && s.left.pos in a
            && var c := WithLink(RightRotated(a, s.pos, s.left.pos, leftLeftCount), t, path, s.left.pos);
               var u := WithSubtree(t, path, RotatedRight(s));
               && IsTree(c, if path == [] then s.left.pos else pos, u) && InOrder(u) == InOrder(t)
               && (forall p :: p in a && p != s.pos && p != s.left.pos && (path == [] || p != Parent(t, path)) ==>
                     p in c && c[p] == a[p])
               && (Counted(c, u) <==> leftLeftCount == Size(s.left.left))
  {
    var s := Subtree(t, path);
    var at := SubtreeIsTree(a, pos, t, path);
    RightRotationCorrect(a, at, s, leftLeftCount);
    RightRotationCounts(a, at, s, leftLeftCount);
    RotationsOfShapes(RotatedRight(s));
    SameElements(t, path, RotatedRight(s));
    LinkFrames(RightRotated(a, s.pos, s.left.pos, leftLeftCount), t, path, s.left.pos);
    RemadeIsTree(a, RightRotated(a, s.pos, s.left.pos, leftLeftCount), pos, t, path, RotatedRight(s), s.left.pos);
  }

  // ---------------------------------------------------------------- one rotation after the other

  /**
   Rotating left and then right at the new root restores every link.  It restores the whole arena
   exactly when the counts handed in and found there agree: the right child's count is what is left
   of the root's, and the root's shrinks by nothing on the way.
   */
  lemma RotationsUndo(a: Arena, up: Tpos, right: Tpos, rightRightCount: Tpos, leftLeftCount: Tpos)
    requires up in a && right in a && up != right && a[up].right == right
    ensures var b := LeftRotated(a, up, right, rightRightCount);
            var c := RightRotated(b, right, up, leftLeftCount);
            && b[right].left == up && c.Keys == a.Keys
            && (forall p :: p in a ==> c[p].left == a[p].left && c[p].right == a[p].right)
            && (c == a <==> a[right].elemCount == Wrap(a[up].elemCount - leftLeftCount - 1))
  {
    var b := LeftRotated(a, up, right, rightRightCount);
    var c := RightRotated(b, right, up, leftLeftCount);
    assert c == a[right := Header(a[right].left, a[right].right, Wrap(a[up].elemCount - leftLeftCount - 1))];
  }

  /** On a tree whose counts are right, the second rotation undoes the first. */
  lemma RotationsUndoOnTrees(a: Arena, pos: Tpos, t: Tree, rightRightCount: Tpos, leftLeftCount: Tpos)
    requires IsTree(a, pos, t) && t.Branch? && t.right.Branch? && Counted(a, t)
    requires leftLeftCount == Size(t.left)
    ensures pos in a && t.right.pos in a
    ensures RightRotated(LeftRotated(a, pos, t.right.pos, rightRightCount), t.right.pos, pos, leftLeftCount) == a
  {
    RotationsUndo(a, pos, t.right.pos, rightRightCount, leftLeftCount);
  }

  /** The rotations as the tree code runs them, one after the other: the nodes end as they began. */
  method RotateLeftThenRight(upNode: IndexNode, upNodePos: Tpos, rightNode: IndexNode,
                             rightNodeRightCount: Tpos, leftNodeLeftCount: Tpos,
                             ghost nodes: map<Tpos, IndexNode>, ghost t: Tree) returns (root: Tpos)
    requires Separate(nodes) && upNodePos in nodes && nodes[upNodePos] == upNode
    requires upNode.right in nodes && nodes[upNode.right] == rightNode
    requires IsTree(Snapshot(nodes), upNodePos, t) && Counted(Snapshot(nodes), t)
    requires t.Branch? && t.right.Branch? && leftNodeLeftCount == Size(t.left)
    modifies upNode, rightNode
    ensures root == upNodePos && Snapshot(nodes) == old(Snapshot(nodes))
  {
    ghost var a := Snapshot(nodes);
    var middle := RotateLeft(upNode, upNodePos, rightNode, rightNodeRightCount, nodes);
    RotationsUndo(a, upNodePos, middle, rightNodeRightCount, leftNodeLeftCount);
    RotationsUndoOnTrees(a, upNodePos, t, rightNodeRightCount, leftNodeLeftCount);
    assert Snapshot(nodes)[middle].left == upNodePos;
    root := RotateRight(rightNode, middle, upNode, leftNodeLeftCount, nodes);
  }
}
