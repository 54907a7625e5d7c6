/**
  The dependency forest built by the line handler of the HTML generator, and
  the stack of `(node, level)` frames that tells where the next node goes.

  A frame's node is never stored: children are only ever appended to the
  node on top of the stack, and a pushed node is always the newest child of
  the frame below it, so the frames are exactly the nodes along the
  right-most path of the forest. Frame `d` (0 is the sentinel root) is the
  `d`-th node of that path, and its children are `SpineChildren(root, d)`.
 */
module DepsTree {
  import opened Matcher

  /** `{groupId, artifactId, packaging, version, scope, children}` */
  datatype Node = Node(coord: Coord, children: seq<Node>)

  function Leaf(c: Coord): Node {
    Node(c, [])
  }

  /** Number of nodes on the right-most path: how many frames above the sentinel it can hold. */
  function SpineDepth(f: seq<Node>): nat {
    if |f| == 0 then 0 else 1 + SpineDepth(f[|f| - 1].children)
  }

  /** The children of the `d`-th node on the right-most path; the forest itself for `d == 0`. */
  function SpineChildren(f: seq<Node>, d: nat): seq<Node>
    requires d <= SpineDepth(f)
  {
    if d == 0 then f else SpineChildren(f[|f| - 1].children, d - 1)
  }

  /** Appends `n` to the children of the `d`-th node of the right-most path (the forest itself when `d` is 0); nothing else changes. */
  function AppendAt(f: seq<Node>, d: nat, n: Node): seq<Node>
    requires d <= SpineDepth(f)
  {
    if d == 0 then f + [n]
    else
      var last := f[|f| - 1];
      f[..|f| - 1] + [Node(last.coord, AppendAt(last.children, d - 1, n))]
  }

  /** Depth-first, parent-before-children order of the coordinates in a forest. */
  function Preorder(f: seq<Node>): seq<Coord> {
    if |f| == 0 then [] else [f[0].coord] + Preorder(f[0].children) + Preorder(f[1..])
  }

  lemma {:induction false} PreorderConcat(a: seq<Node>, b: seq<Node>)
    ensures Preorder(a + b) == Preorder(a) + Preorder(b)
  {
    if |a| == 0 {
      assert a + b == b;
    } else {
      assert (a + b)[0] == a[0] && (a + b)[1..] == a[1..] + b;
      PreorderConcat(a[1..], b);
    }
  }

  /**
    Appending a leaf at any depth of the right-most path lists it last in pre-order:
    children are only appended, never reordered.
   */
  lemma {:induction false} PreorderAppendAt(f: seq<Node>, d: nat, c: Coord)
    requires d <= SpineDepth(f)
    ensures Preorder(AppendAt(f, d, Leaf(c))) == Preorder(f) + [c]
  {
    if d == 0 {
      PreorderConcat(f, [Leaf(c)]);
    } else {
      var last := f[|f| - 1];
      var init := f[..|f| - 1];
      var children := AppendAt(last.children, d - 1, Leaf(c));
      assert init + [last] == f;
      PreorderAppendAt(last.children, d - 1, c);
      PreorderLast(init, last);
      PreorderLast(init, Node(last.coord, children));
    }
  }

  /** A forest's last tree comes last in pre-order, its root first. */
  lemma PreorderLast(init: seq<Node>, last: Node)
    ensures Preorder(init + [last]) == Preorder(init) + [last.coord] + Preorder(last.children)
  {
    PreorderConcat(init, [last]);
    assert [last][1..] == [];
  }

  /**
    After appending a leaf at depth `d` the right-most path is `d + 1` long and
    ends in the new leaf; the `d`-th node's children are its old children plus
    the leaf; every node above it keeps all its children but the last, which
    keeps its coordinate.
   */
  lemma {:induction false} AppendAtShape(f: seq<Node>, d: nat, c: Coord)
    requires d <= SpineDepth(f)
    ensures SpineDepth(AppendAt(f, d, Leaf(c))) == d + 1
    ensures SpineChildren(AppendAt(f, d, Leaf(c)), d) == SpineChildren(f, d) + [Leaf(c)]
    ensures forall j :: 0 <= j < d ==>
      var old_ := SpineChildren(f, j);
      var new_ := SpineChildren(AppendAt(f, d, Leaf(c)), j);
      |new_| == |old_| > 0 && new_[..|new_| - 1] == old_[..|old_| - 1]
      && new_[|new_| - 1].coord == old_[|old_| - 1].coord
  {
    var r := AppendAt(f, d, Leaf(c));
    if d == 0 {
      assert r[|r| - 1] == Leaf(c);
    } else {
      var last := f[|f| - 1];
      AppendAtShape(last.children, d - 1, c);
      assert r[|r| - 1] == Node(last.coord, AppendAt(last.children, d - 1, Leaf(c)));
      forall j | 0 < j < d
        ensures SpineChildren(r, j) == SpineChildren(AppendAt(last.children, d - 1, Leaf(c)), j - 1)
        ensures SpineChildren(f, j) == SpineChildren(last.children, j - 1)
      {
      }
    }
  }

  /** The number of nodes of a forest. */
  function Size(f: seq<Node>): nat {
    if |f| == 0 then 0 else 1 + Size(f[0].children) + Size(f[1..])
  }

  lemma {:induction false} SizeIsPreorderLength(f: seq<Node>)
    ensures Size(f) == |Preorder(f)|
  {
    if |f| > 0 {
      SizeIsPreorderLength(f[0].children);
      SizeIsPreorderLength(f[1..]);
    }
  }

  lemma {:induction false} SizeConcat(a: seq<Node>, b: seq<Node>)
    ensures Size(a + b) == Size(a) + Size(b)
  {
    if |a| == 0 {
      assert a + b == b;
    } else {
      assert (a + b)[0] == a[0] && (a + b)[1..] == a[1..] + b;
      SizeConcat(a[1..], b);
    }
  }

  /**
    The parent of every node of `f`, listed by pre-order index: the index of
    the node whose children hold it, or `parent` for the trees of `f` itself.
    `base` is the pre-order index of the first node of `f`.
   */
  function ParentsFrom(f: seq<Node>, parent: int, base: int): seq<int> {
    if |f| == 0 then []
    else
      [parent] + ParentsFrom(f[0].children, base, base + 1)
      + ParentsFrom(f[1..], parent, base + 1 + Size(f[0].children))
  }

  /** The parent of each node of a forest by pre-order index, -1 for a top-level node. */
  function Parents(f: seq<Node>): seq<int> {
    ParentsFrom(f, -1, 0)
  }

  /**
    The pre-order index of the `d`-th node of the right-most path, counted
    from 1 at the top level: the last tree's root comes after every node but
    those of its own subtree.
   */
  function SpineIndex(f: seq<Node>, base: int, d: nat): int
    requires 1 <= d <= SpineDepth(f)
  {
    var children := f[|f| - 1].children;
    var at := base + Size(f) - 1 - Size(children);
    if d == 1 then at else SpineIndex(children, at + 1, d - 1)
  }

  lemma {:induction false} ParentsConcat(a: seq<Node>, b: seq<Node>, parent: int, base: int)
    ensures ParentsFrom(a + b, parent, base) == ParentsFrom(a, parent, base) + ParentsFrom(b, parent, base + Size(a))
  {
    if |a| == 0 {
      assert a + b == b;
    } else {
      assert (a + b)[0] == a[0] && (a + b)[1..] == a[1..] + b;
      ParentsConcat(a[1..], b, parent, base + 1 + Size(a[0].children));
    }
  }

  /** A forest with a last tree: the parents before it, its root's parent, and those below its root. */
  lemma ParentsSnoc(init: seq<Node>, n: Node, parent: int, base: int)
    ensures
      var at := base + Size(init);
      ParentsFrom(init + [n], parent, base) == ParentsFrom(init, parent, base) + [parent] + ParentsFrom(n.children, at, at + 1)
  {
    ParentsConcat(init, [n], parent, base);
    assert [n][1..] == [];
  }

  /** A forest with a last tree: its right-most path starts at that tree's root, right after the earlier trees. */
  lemma SpineIndexSnoc(init: seq<Node>, n: Node, base: int, d: nat)
    requires 1 <= d <= 1 + SpineDepth(n.children)
    ensures SpineDepth(init + [n]) == 1 + SpineDepth(n.children)
    ensures
      var at := base + Size(init);
      SpineIndex(init + [n], base, d) == if d == 1 then at else SpineIndex(n.children, at + 1, d - 1)
  {
    SizeSnoc(init, n);
    assert (init + [n])[|init + [n]| - 1] == n;
  }

  /** The node count of a forest: those before its last tree, its root, and those below that root. */
  lemma SizeSplitLast(f: seq<Node>)
    requires |f| > 0
    ensures Size(f) == Size(f[..|f| - 1]) + 1 + Size(f[|f| - 1].children)
  {
    assert f[..|f| - 1] + [f[|f| - 1]] == f;
    SizeSnoc(f[..|f| - 1], f[|f| - 1]);
  }

  lemma SizeSnoc(init: seq<Node>, n: Node)
    ensures Size(init + [n]) == Size(init) + 1 + Size(n.children)
  {
    SizeConcat(init, [n]);
    assert [n][1..] == [];
  }

  /**
    Appending a leaf at depth `d` gives it the parent of a node appended at
    that depth: the `d`-th node of the right-most path, or `parent` at the top
    level. Every other node keeps its parent.
   */
  lemma {:induction false} ParentsAppendAt(f: seq<Node>, d: nat, c: Coord, parent: int, base: int)
    requires d <= SpineDepth(f)
    ensures ParentsFrom(AppendAt(f, d, Leaf(c)), parent, base)
      == ParentsFrom(f, parent, base) + [if d == 0 then parent else SpineIndex(f, base, d)]
  {
    if d == 0 {
      ParentsSnoc(f, Leaf(c), parent, base);
    } else {
      assert |f| > 0 && SpineDepth(f) == 1 + SpineDepth(f[|f| - 1].children);
      var init, last := f[..|f| - 1], f[|f| - 1];
      var at := base + Size(init);
      var n := Node(last.coord, AppendAt(last.children, d - 1, Leaf(c)));
      assert f == init + [last];
      ParentsAppendAt(last.children, d - 1, c, at, at + 1);
      ParentsDeeper(init, last, d, c, parent, base);
      SpineIndexSnoc(init, last, base, d);
    }
  }

  /** The step of `ParentsAppendAt` below the top level, from the fact for the last tree's children. */
  lemma ParentsDeeper(init: seq<Node>, last: Node, d: nat, c: Coord, parent: int, base: int)
    requires 1 <= d <= 1 + SpineDepth(last.children)
    requires
      var at := base + Size(init);
      ParentsFrom(AppendAt(last.children, d - 1, Leaf(c)), at, at + 1)
        == ParentsFrom(last.children, at, at + 1) + [if d == 1 then at else SpineIndex(last.children, at + 1, d - 1)]
    ensures
      var at := base + Size(init);
      var n := Node(last.coord, AppendAt(last.children, d - 1, Leaf(c)));
      ParentsFrom(init + [n], parent, base)
        == ParentsFrom(init + [last], parent, base) + [if d == 1 then at else SpineIndex(last.children, at + 1, d - 1)]
  {
    var n := Node(last.coord, AppendAt(last.children, d - 1, Leaf(c)));
    ParentsSnoc(init, n, parent, base);
    ParentsSnoc(init, last, parent, base);
  }

  /**
    After appending a leaf at depth `d` the right-most path is the first `d`
    nodes of the old one, then the leaf, whose index is the old node count.
   */
  lemma {:induction false} SpineIndexAppendAt(f: seq<Node>, d: nat, c: Coord, base: int, e: nat)
    requires d <= SpineDepth(f) && 1 <= e <= d + 1
    ensures SpineDepth(AppendAt(f, d, Leaf(c))) == d + 1
    ensures SpineIndex(AppendAt(f, d, Leaf(c)), base, e) == if e <= d then SpineIndex(f, base, e) else base + Size(f)
  {
    SpineDepthAppendAt(f, d, c);
    if d == 0 {
      SpineIndexSnoc(f, Leaf(c), base, e);
    } else {
      assert |f| > 0 && SpineDepth(f) == 1 + SpineDepth(f[|f| - 1].children);
      var init, last := f[..|f| - 1], f[|f| - 1];
      var at := base + Size(init);
      var n := Node(last.coord, AppendAt(last.children, d - 1, Leaf(c)));
      assert f == init + [last];
      SpineDepthAppendAt(last.children, d - 1, c);
      if e > 1 {
        SpineIndexAppendAt(last.children, d - 1, c, at + 1, e - 1);
      }
      SpineIndexDeeper(init, last, d, c, base, e);
    }
  }

  /** The step of `SpineIndexAppendAt` below the top level, from the fact for the last tree's children. */
  lemma SpineIndexDeeper(init: seq<Node>, last: Node, d: nat, c: Coord, base: int, e: nat)
    requires 1 <= d <= 1 + SpineDepth(last.children) && 1 <= e <= d + 1
    requires SpineDepth(AppendAt(last.children, d - 1, Leaf(c))) == d
    requires
      var at := base + Size(init);
      e > 1 ==>
        SpineIndex(AppendAt(last.children, d - 1, Leaf(c)), at + 1, e - 1)
          == if e - 1 <= d - 1 then SpineIndex(last.children, at + 1, e - 1) else at + 1 + Size(last.children)
    ensures
      var n := Node(last.coord, AppendAt(last.children, d - 1, Leaf(c)));
      && SpineDepth(init + [n]) == d + 1
      && SpineIndex(init + [n], base, e)
        == if e <= d then SpineIndex(init + [last], base, e) else base + Size(init + [last])
  {
    var n := Node(last.coord, AppendAt(last.children, d - 1, Leaf(c)));
    SpineIndexSnoc(init, n, base, e);
    SizeSnoc(init, last);
    if e <= d {
      SpineIndexSnoc(init, last, base, e);
    }
  }

  /** After appending a leaf at depth `d` the right-most path ends in it, at depth `d + 1`. */
  lemma {:induction false} SpineDepthAppendAt(f: seq<Node>, d: nat, c: Coord)
    requires d <= SpineDepth(f)
    ensures SpineDepth(AppendAt(f, d, Leaf(c))) == d + 1
  {
    var r := AppendAt(f, d, Leaf(c));
    if d == 0 {
      assert r[|r| - 1] == Leaf(c);
    } else {
      var last := f[|f| - 1];
      SpineDepthAppendAt(last.children, d - 1, c);
      assert r[|r| - 1] == Node(last.coord, AppendAt(last.children, d - 1, Leaf(c)));
    }
  }

  /** Every coordinate in the forest is one the matcher can produce. */
  predicate AllWellFormed(f: seq<Node>) {
    forall i :: 0 <= i < |Preorder(f)| ==> WellFormed(Preorder(f)[i])
  }

  /** The first node, its subtree and the following trees of a well-formed forest are well formed. */
  lemma AllWellFormedParts(f: seq<Node>)
    requires |f| > 0 && AllWellFormed(f)
    ensures WellFormed(f[0].coord)
    ensures AllWellFormed(f[0].children) && AllWellFormed(f[1..])
  {
    var p, q := Preorder(f[0].children), Preorder(f[1..]);
    assert Preorder(f) == [f[0].coord] + p + q;
    assert Preorder(f)[0] == f[0].coord;
    forall i | 0 <= i < |p| ensures WellFormed(p[i]) {
      assert Preorder(f)[1 + i] == p[i];
    }
    forall i | 0 <= i < |q| ensures WellFormed(q[i]) {
      assert Preorder(f)[1 + |p| + i] == q[i];
    }
  }

  /** Frame levels strictly increase from the bottom of the stack to the top. */
  predicate StrictlyIncreasing(levels: seq<int>) {
    forall i, j :: 0 <= i < j < |levels| ==> levels[i] < levels[j]
  }

  /** How many frames, counted from the bottom, have a level below `level`. */
  function Below(levels: seq<int>, level: int): nat {
    if |levels| == 0 || levels[0] >= level then 0 else 1 + Below(levels[1..], level)
  }

  /**
    On strictly increasing levels the frames kept by popping every top frame
    whose level is `>= level` are the first `Below(levels, level)`: the frame
    left on top is the topmost one whose level is strictly less than `level`.
   */
  lemma {:induction false} BelowSplits(levels: seq<int>, level: int)
    requires StrictlyIncreasing(levels)
    ensures Below(levels, level) <= |levels|
    ensures forall j :: 0 <= j < Below(levels, level) ==> levels[j] < level
    ensures forall j :: Below(levels, level) <= j < |levels| ==> levels[j] >= level
  {
    if |levels| > 0 && levels[0] < level {
      BelowSplits(levels[1..], level);
    }
  }

  /** The frames kept are exactly those up to the first one, from the top, whose level is below `level`. */
  lemma BelowIs(levels: seq<int>, level: int, k: nat)
    requires StrictlyIncreasing(levels)
    requires 1 <= k <= |levels| && levels[k - 1] < level
    requires forall j :: k <= j < |levels| ==> levels[j] >= level
    ensures Below(levels, level) == k
  {
    BelowSplits(levels, level);
  }

  /** Pushing a level above a kept prefix whose top is below it keeps the levels increasing. */
  lemma PushIncreasing(levels: seq<int>, k: nat, level: int)
    requires StrictlyIncreasing(levels)
    requires 1 <= k <= |levels| && levels[k - 1] < level
    ensures StrictlyIncreasing(levels[..k] + [level])
  {
    var r := levels[..k] + [level];
    forall i, j | 0 <= i < j < |r| ensures r[i] < r[j] {
      if j == k {
        assert r[i] == levels[i] && levels[i] <= levels[k - 1];
      } else {
        assert r[i] == levels[i] && r[j] == levels[j];
      }
    }
  }
}
