/**
  The line handler and the close handler of the HTML generator.

  `root` is the forest `root.children`; `levels` are the levels of the stack
  frames from the bottom up (the frames' nodes are the nodes of the right-most
  path of `root`, see `DepsTree`); `out` is what has been printed after the
  constant page header. The ghost fields record the coordinates matched since
  the last module boundary and those already printed.
 */
module DepsTree2Html {
  import opened Wrappers
  import opened Strings
  import opened Matcher
  import opened DepsTree
  import opened Renderer

  /** A module boundary: the line begins with `[INFO] Building`. */
  predicate IsBoundary(line: string) {
    StartsWith(line, "[INFO] Building")
  }

  /** The module name: the third piece of the line split at single spaces, if there is one. */
  function ModuleName(line: string): (r: Option<string>)
    ensures r.Some? ==> ' ' !in r.value
  {
    var parts := Split(line, ' ');
    if |parts| > 2 then Some(parts[2]) else None
  }

  /** The module's name inside a level-one heading; when the line has no third token the name printed is the word `undefined`. */
  function Heading(line: string): string {
    "<h1>" + (match ModuleName(line) case Some(n) => n case None => "undefined") + "</h1>"
  }

  /** The lines printed by the close handler after the last module. */
  const Footer: seq<string> := ["</body>", "</html>"]

  /**
    The sentinel frame at level -1 is at the bottom, levels strictly increase
    upwards, there is one frame per node of the right-most path, and the
    forest lists the coordinates `matched` since the last boundary in input
    order.
   */
  predicate Consistent(root: seq<Node>, levels: seq<int>, matched: seq<Coord>) {
    |levels| == SpineDepth(root) + 1
    && levels[0] == -1
    && StrictlyIncreasing(levels)
    && Preorder(root) == matched
    && AllWellFormed(root)
  }

  /**
    The stack step for a coordinate line at `level`: the frames kept are those
    up to the topmost one whose level is below `level` (every frame above it
    has a level `>= level`), the new leaf becomes the last child of that
    frame's node, and it is pushed with its level.
   */
  predicate Attached(root: seq<Node>, levels: seq<int>, level: nat, c: Coord, root': seq<Node>, levels': seq<int>)
    requires |levels| == SpineDepth(root) + 1
  {
    var k := Below(levels, level);
    && 1 <= k <= |levels|
    && levels[k - 1] < level
    && (forall j :: k <= j < |levels| ==> levels[j] >= level)
    && root' == AppendAt(root, k - 1, Leaf(c))
    && levels' == levels[..k] + [level]
  }

  /**
    Attaching a coordinate line keeps the state consistent: the frames kept
    are those up to the topmost one whose level is below the new level, the
    new leaf becomes the last child of that frame's node, and it is pushed
    with its level.
   */
  lemma AttachKeepsConsistent(root: seq<Node>, levels: seq<int>, matched: seq<Coord>, level: nat, c: Coord)
    requires Consistent(root, levels, matched) && WellFormed(c)
    ensures
      var k := Below(levels, level);
      && 1 <= k <= |levels|
      && levels[k - 1] < level
      && (forall j :: k <= j < |levels| ==> levels[j] >= level)
      && Consistent(AppendAt(root, k - 1, Leaf(c)), levels[..k] + [level], matched + [c])
  {
    BelowSplits(levels, level);
    var k := Below(levels, level);
    assert levels[0] < level;
    PushIncreasing(levels, k, level);
    AppendAtShape(root, k - 1, c);
    PreorderAppendAt(root, k - 1, c);
    AllWellFormedAppend(root, k - 1, c);
  }

  /**
    `p` is the nearest earlier index whose level is below that of index `i`,
    or -1 when every earlier level is at least as large.
   */
  predicate NearestSmaller(depths: seq<int>, i: nat, p: int)
    requires i < |depths|
  {
    && -1 <= p < i
    && (p >= 0 ==> depths[p] < depths[i])
    && forall j :: p < j < i ==> depths[j] >= depths[i]
  }

  /** Scans back from index `j` for the first level below that of index `i`; -1 when there is none. */
  function ScanBack(depths: seq<int>, i: nat, j: int): int
    requires i < |depths| && -1 <= j < i
    decreases j + 1
  {
    if j < 0 then -1
    else if depths[j] < depths[i] then j
    else ScanBack(depths, i, j - 1)
  }

  /** The scan from `j` finds the nearest smaller level when nothing after `j` and before `i` is smaller. */
  lemma {:induction false} ScanBackNearest(depths: seq<int>, i: nat, j: int)
    requires i < |depths| && -1 <= j < i
    requires forall m :: j < m < i ==> depths[m] >= depths[i]
    ensures NearestSmaller(depths, i, ScanBack(depths, i, j))
    decreases j + 1
  {
    if j >= 0 && depths[j] >= depths[i] {
      ScanBackNearest(depths, i, j - 1);
    }
  }

  /**
    There is exactly one nearest smaller level: it is the largest earlier
    index with a smaller level, or -1 when none exists.
   */
  lemma NearestSmallerIsScan(depths: seq<int>, i: nat, p: int)
    requires i < |depths|
    ensures NearestSmaller(depths, i, p) <==> p == ScanBack(depths, i, i - 1)
  {
    ScanBackNearest(depths, i, i - 1);
  }

  /**
    The parent of every node, by pre-order index, is the nearest earlier node
    with a smaller level; a node with no such node is a top-level node.
   */
  predicate ParentsNearest(root: seq<Node>, depths: seq<int>) {
    |Parents(root)| == |depths|
    && forall i {:trigger Parents(root)[i]} :: 0 <= i < |depths| ==> NearestSmaller(depths, i, Parents(root)[i])
  }

  /** No later node has a level less than or equal to that of node `j`, so nothing has popped its frame. */
  predicate Unreached(depths: seq<int>, j: nat)
    requires j < |depths|
  {
    forall k :: j < k < |depths| ==> depths[k] > depths[j]
  }

  /**
    The frames against the pre-order: frame `d` holds the `d`-th node of the
    right-most path, which has the frame's level and comes after the nodes of
    the frames below it; every node whose frame nothing has popped is on the
    stack; and every node's parent is its nearest earlier node with a smaller
    level.
   */
  predicate Nested(root: seq<Node>, levels: seq<int>, depths: seq<int>) {
    && |levels| == SpineDepth(root) + 1
    && (forall d {:trigger SpineIndex(root, 0, d)} :: 1 <= d < |levels| ==>
          0 <= SpineIndex(root, 0, d) < |depths| && levels[d] == depths[SpineIndex(root, 0, d)])
    && (forall a, b {:trigger SpineIndex(root, 0, a), SpineIndex(root, 0, b)} :: 1 <= a < b < |levels| ==> SpineIndex(root, 0, a) < SpineIndex(root, 0, b))
    && (forall j {:trigger Unreached(depths, j)} :: 0 <= j < |depths| && Unreached(depths, j) ==>
          exists d {:trigger SpineIndex(root, 0, d)} :: 1 <= d < |levels| && SpineIndex(root, 0, d) == j)
    && ParentsNearest(root, depths)
  }

  /** The last index in `(lo, hi)` whose level is below `level`, when there is one. */
  lemma LastBelow(depths: seq<int>, lo: int, hi: nat, level: int) returns (j: nat)
    requires -1 <= lo && hi <= |depths|
    requires exists m :: lo < m < hi && depths[m] < level
    ensures lo < j < hi && depths[j] < level
    ensures forall m :: j < m < hi ==> depths[m] >= level
    decreases hi
  {
    var m :| lo < m < hi && depths[m] < level;
    if depths[hi - 1] < level {
      j := hi - 1;
    } else {
      assert m < hi - 1;
      j := LastBelow(depths, lo, hi - 1, level);
    }
  }

  /**
    A node attached below frame `k - 1` (the topmost frame whose level is
    below its own) keeps the frames nested, and its parent is its nearest
    earlier node with a smaller level.
   */
  lemma AttachKeepsNested(root: seq<Node>, levels: seq<int>, matched: seq<Coord>, depths: seq<int>, level: nat, c: Coord, k: nat)
    requires Consistent(root, levels, matched) && |depths| == |matched| && Nested(root, levels, depths)
    requires 1 <= k <= |levels| && levels[k - 1] < level
    requires forall j :: k <= j < |levels| ==> levels[j] >= level
    ensures Nested(AppendAt(root, k - 1, Leaf(c)), levels[..k] + [level], depths + [level])
  {
    SizeIsPreorderLength(root);
    AttachSpine(root, c, k);
    AttachKeepsFrames(root, levels, depths, level, k, AppendAt(root, k - 1, Leaf(c)));
    AttachKeepsParents(root, levels, depths, level, c, k);
  }

  /** Attaching below frame `k - 1` keeps the first `k - 1` frames' nodes and makes the new node frame `k`. */
  lemma AttachSpine(root: seq<Node>, c: Coord, k: nat)
    requires 1 <= k <= SpineDepth(root) + 1
    ensures var root' := AppendAt(root, k - 1, Leaf(c));
      && SpineDepth(root') == k
      && (forall d :: 1 <= d < k ==> SpineIndex(root', 0, d) == SpineIndex(root, 0, d))
      && SpineIndex(root', 0, k) == Size(root)
  {
    var root' := AppendAt(root, k - 1, Leaf(c));
    SpineDepthAppendAt(root, k - 1, c);
    forall d | 1 <= d < k ensures SpineIndex(root', 0, d) == SpineIndex(root, 0, d) {
      SpineIndexAppendAt(root, k - 1, c, 0, d);
    }
    SpineIndexAppendAt(root, k - 1, c, 0, k);
  }

  /** The frames after an attachment: the kept frames' nodes, then the new node. */
  lemma AttachKeepsFrames(root: seq<Node>, levels: seq<int>, depths: seq<int>, level: nat, k: nat, root': seq<Node>)
    requires Nested(root, levels, depths)
    requires 1 <= k <= |levels| && levels[k - 1] < level
    requires forall j :: k <= j < |levels| ==> levels[j] >= level
    requires SpineDepth(root') == k
    requires forall d :: 1 <= d < k ==> SpineIndex(root', 0, d) == SpineIndex(root, 0, d)
    requires SpineIndex(root', 0, k) == |depths|
    ensures var levels', depths' := levels[..k] + [level], depths + [level];
      && (forall d :: 1 <= d < |levels'| ==>
            0 <= SpineIndex(root', 0, d) < |depths'| && levels'[d] == depths'[SpineIndex(root', 0, d)])
      && (forall a, b :: 1 <= a < b < |levels'| ==> SpineIndex(root', 0, a) < SpineIndex(root', 0, b))
      && (forall j :: 0 <= j < |depths'| && Unreached(depths', j) ==>
            exists d :: 1 <= d < |levels'| && SpineIndex(root', 0, d) == j)
  {
    var n := |depths|;
    var levels', depths' := levels[..k] + [level], depths + [level];
    forall d | 1 <= d < |levels'|
      ensures 0 <= SpineIndex(root', 0, d) < |depths'| && levels'[d] == depths'[SpineIndex(root', 0, d)]
    {
      if d < k {
        assert levels'[d] == levels[d];
      }
    }
    forall j | 0 <= j < |depths'| && Unreached(depths', j)
      ensures exists d :: 1 <= d < |levels'| && SpineIndex(root', 0, d) == j
    {
      if j == n {
        assert SpineIndex(root', 0, k) == j;
      } else {
        assert depths'[n] > depths'[j];
        assert Unreached(depths, j) by {
          forall m | j < m < n ensures depths[m] > depths[j] {
            assert depths'[m] > depths'[j];
          }
        }
        var d :| 1 <= d < |levels| && SpineIndex(root, 0, d) == j;
        assert d < k;
        assert SpineIndex(root', 0, d) == j;
      }
    }
  }

  /** The parents after an attachment: the old ones, then the kept top frame's node (or none). */
  lemma AttachKeepsParents(root: seq<Node>, levels: seq<int>, depths: seq<int>, level: nat, c: Coord, k: nat)
    requires Nested(root, levels, depths)
    requires 1 <= k <= |levels| && levels[k - 1] < level
    requires forall j :: k <= j < |levels| ==> levels[j] >= level
    ensures ParentsNearest(AppendAt(root, k - 1, Leaf(c)), depths + [level])
  {
    var n := |depths|;
    var root', depths' := AppendAt(root, k - 1, Leaf(c)), depths + [level];
    ParentsAppendAt(root, k - 1, c, -1, 0);
    assert Parents(root') == Parents(root) + [if k == 1 then -1 else SpineIndex(root, 0, k - 1)];
    forall i | 0 <= i < |depths'| ensures NearestSmaller(depths', i, Parents(root')[i]) {
      if i < n {
        assert NearestSmaller(depths, i, Parents(root)[i]);
        assert Parents(root')[i] == Parents(root)[i];
      } else {
        NewParentNearest(root, levels, depths, level, k);
      }
    }
  }

  /** The parent chosen for a node attached below frame `k - 1` is its nearest earlier node with a smaller level. */
  lemma NewParentNearest(root: seq<Node>, levels: seq<int>, depths: seq<int>, level: int, k: nat)
    requires Nested(root, levels, depths)
    requires 1 <= k <= |levels| && levels[k - 1] < level
    requires forall j :: k <= j < |levels| ==> levels[j] >= level
    ensures NearestSmaller(depths + [level], |depths|, if k == 1 then -1 else SpineIndex(root, 0, k - 1))
  {
    var n := |depths|;
    var depths' := depths + [level];
    var q := if k == 1 then -1 else SpineIndex(root, 0, k - 1);
    if exists m :: q < m < n && depths[m] < level {
      var j := LastBelow(depths, q, n, level);
      assert Unreached(depths, j);
      assert false;
    }
    forall m | q < m < n ensures depths'[m] >= depths'[n] {
      assert depths'[m] == depths[m];
    }
  }

  /** The state of one module: `Consistent`, with frames and parents `Nested` against the nodes' levels. */
  predicate ModuleState(root: seq<Node>, levels: seq<int>, matched: seq<Coord>, depths: seq<int>) {
    Consistent(root, levels, matched) && |depths| == |matched| && Nested(root, levels, depths)
  }

  /**
    The stack step keeps the module's state: after attaching a node at
    `level`, the new node's parent is its nearest earlier node with a smaller
    level.
   */
  lemma AttachedState(root: seq<Node>, levels: seq<int>, matched: seq<Coord>, depths: seq<int>, level: nat, c: Coord, root': seq<Node>, levels': seq<int>)
    requires ModuleState(root, levels, matched, depths) && WellFormed(c)
    requires Attached(root, levels, level, c, root', levels')
    ensures ModuleState(root', levels', matched + [c], depths + [level])
    ensures ParentsNearest(root', depths + [level])
  {
    var k := Below(levels, level);
    AttachKeepsConsistent(root, levels, matched, level, c);
    AttachKeepsNested(root, levels, matched, depths, level, c, k);
  }

  /** A module starts with an empty forest and only the sentinel frame. */
  lemma EmptyModule()
    ensures ModuleState([], [-1], [], [])
  {
    assert Preorder([]) == [] && Parents([]) == [];
  }

  /** The coordinates of the lines that attach a node (matching lines that are not boundaries), in order. */
  function LineCoords(lines: seq<string>): (r: seq<Coord>)
    ensures |r| <= |lines|
  {
    if |lines| == 0 then []
    else
      var line := lines[|lines| - 1];
      LineCoords(lines[..|lines| - 1])
      + if !IsBoundary(line) && Match(line).Some? then [Match(line).value.1] else []
  }

  class Report {
    var root: seq<Node>
    var levels: seq<int>
    var out: seq<string>
    ghost var matched: seq<Coord>
    ghost var matchedLevels: seq<nat>
    ghost var printed: seq<Coord>
    ghost var lines: seq<string>

    /** The module's state, and the `<li>` lines printed so far read back as the coordinates printed so far. */
    ghost predicate Valid()
      reads this
    {
      ModuleState(root, levels, matched, matchedLevels) && Items(out) == Annotate(printed)
    }

    /** `Valid`, and the coordinates printed so far followed by the module's are those of the lines read. */
    ghost predicate Tracks()
      reads this
    {
      Valid() && printed + matched == LineCoords(lines)
    }

    /** The initial state: an empty forest and only the sentinel frame at level -1. */
    constructor ()
      ensures Tracks()
      ensures root == [] && levels == [-1] && out == []
      ensures matched == [] && matchedLevels == [] && printed == [] && lines == []
    {
      root := [];
      levels := [-1];
      out := [];
      matched := [];
      matchedLevels := [];
      printed := [];
      lines := [];
    }

    /**
      The line handler. A boundary line renders the module so far,
      prints its heading and starts an empty forest, even when it also matches
      the coordinate pattern. A coordinate line attaches a new node below the
      topmost frame whose level is smaller than its own. Any other line changes
      nothing.
     */
    method FeedLine(line: string)
      requires Tracks()
      modifies this
      ensures Tracks()
      ensures lines == old(lines) + [line]
      ensures ParentsNearest(root, matchedLevels)
      ensures IsBoundary(line) ==>
        && out == old(out) + RenderForest(old(root), "") + [Heading(line)]
        && root == [] && levels == [-1]
        && matched == [] && matchedLevels == [] && printed == old(printed) + old(matched)
      ensures !IsBoundary(line) && Match(line).Some? ==>
        && Attached(old(root), old(levels), Match(line).value.0, Match(line).value.1, root, levels)
        && matched == old(matched) + [Match(line).value.1]
        && matchedLevels == old(matchedLevels) + [Match(line).value.0]
        && out == old(out) && printed == old(printed)
      ensures !IsBoundary(line) && Match(line).None? ==>
        && root == old(root) && levels == old(levels) && out == old(out)
        && matched == old(matched) && matchedLevels == old(matchedLevels) && printed == old(printed)
    {
      if IsBoundary(line) {
        StartModule(line);
      } else {
        var m := Match(line);
        if m.Some? {
          MatchSound(line);
          Attach(m.value.0, m.value.1);
        }
      }
      assert (lines + [line])[..|lines|] == lines;
      lines := lines + [line];
    }

    /** A module boundary: render the module so far, print the next module's heading, reset root and stack. */
    method StartModule(line: string)
      requires AllWellFormed(root) && Preorder(root) == matched && Items(out) == Annotate(printed)
      modifies this`root, this`levels, this`out, this`matched, this`matchedLevels, this`printed
      ensures out == old(out) + RenderForest(old(root), "") + [Heading(line)]
      ensures root == [] && levels == [-1]
      ensures matched == [] && matchedLevels == [] && printed == old(printed) + old(matched)
      ensures Valid()
    {
      HeadingHasNoItems(line);
      Flush([Heading(line)]);
      root := [];
      levels := [-1];
      matched := [];
      matchedLevels := [];
      ResetIsValid();
    }

    /** An empty module after any printed output is a valid state. */
    lemma ResetIsValid()
      requires root == [] && levels == [-1] && matched == [] && matchedLevels == []
      requires Items(out) == Annotate(printed)
      ensures Valid()
    {
      EmptyModule();
    }

    /** The close handler: render the last module, then close the page. */
    method Finish()
      requires Tracks()
      modifies this`out, this`printed
      ensures out == old(out) + RenderForest(old(root), "") + Footer
      ensures printed == old(printed) + old(matched)
      ensures Items(out) == Annotate(old(printed) + old(matched))
      ensures Items(out) == Annotate(LineCoords(lines))
    {
      FooterHasNoItems();
      Flush(Footer);
    }

    /**
      Prints the rendering of the module's forest, then the lines `after`;
      every coordinate of the forest is then printed. Only the output and the
      record of printed coordinates change.
     */
    method Flush(after: seq<string>)
      requires AllWellFormed(root) && Preorder(root) == matched && Items(out) == Annotate(printed)
      requires Items(after) == []
      modifies this`out, this`printed
      ensures out == old(out) + RenderForest(old(root), "") + after
      ensures printed == old(printed) + old(matched)
      ensures Items(out) == Annotate(printed)
    {
      var body := RenderForest(root, "");
      RenderForestItems(root, "");
      ItemsConcat(out, body);
      ItemsConcat(out + body, after);
      AnnotateConcat(printed, matched);
      out := out + body + after;
      printed := printed + matched;
    }

    /**
      A coordinate line: pop every frame whose level is `>= level` (never the
      sentinel, as `level >= 0`), append the new node to the children of the
      frame left on top, and push the new node with its level.
     */
    method Attach(level: nat, c: Coord)
      requires Valid()
      requires WellFormed(c)
      modifies this
      ensures Valid()
      ensures ParentsNearest(root, matchedLevels)
      ensures Attached(old(root), old(levels), level, c, root, levels)
      ensures matched == old(matched) + [c] && matchedLevels == old(matchedLevels) + [level]
      ensures out == old(out) && printed == old(printed) && lines == old(lines)
    {
      PopFrames(level);
      var k := |levels|;
      assert old(levels)[k - 1] == levels[k - 1] < level;
      BelowIs(old(levels), level, k);
      root := AppendAt(root, k - 1, Leaf(c));
      levels := levels + [level];
      matched := matched + [c];
      matchedLevels := matchedLevels + [level];
      AttachedState(old(root), old(levels), old(matched), old(matchedLevels), level, c, root, levels);
    }

    /**
      Pops the top frame while there is one and its level is `>= level`. The
      sentinel's level is below `level`, so at least it stays.
     */
    method PopFrames(level: int)
      requires 1 <= |levels| && levels[0] < level
      modifies this`levels
      ensures 1 <= |levels| <= |old(levels)| && levels == old(levels)[..|levels|]
      ensures levels[|levels| - 1] < level
      ensures forall j :: |levels| <= j < |old(levels)| ==> old(levels)[j] >= level
    {
      while |levels| > 0 && levels[|levels| - 1] >= level
        invariant 1 <= |levels| <= |old(levels)|
        invariant levels == old(levels)[..|levels|]
        invariant forall j :: |levels| <= j < |old(levels)| ==> old(levels)[j] >= level
        decreases |levels|
      {
        levels := levels[..|levels| - 1];
      }
    }
  }

  /** Appending a well-formed leaf keeps the forest well formed. */
  lemma AllWellFormedAppend(f: seq<Node>, d: nat, c: Coord)
    requires d <= SpineDepth(f)
    requires AllWellFormed(f) && WellFormed(c)
    ensures AllWellFormed(AppendAt(f, d, Leaf(c)))
  {
    PreorderAppendAt(f, d, c);
    var p := Preorder(AppendAt(f, d, Leaf(c)));
    forall i | 0 <= i < |p| ensures WellFormed(p[i]) {
      if i < |Preorder(f)| {
        assert p[i] == Preorder(f)[i];
      }
    }
  }

  /** The heading is never read as an item. */
  lemma HeadingIsNotItem(line: string)
    ensures DecodeItem(Heading(line)) == None
  {
    var h := Heading(line);
    assert h[0] == '<' && h[1] == 'h';
    OtherTagIsNotItem("", h);
    assert "" + h == h;
  }

  /** The heading line holds no item. */
  lemma HeadingHasNoItems(line: string)
    ensures Items([Heading(line)]) == []
  {
    HeadingIsNotItem(line);
  }

  lemma FooterHasNoItems()
    ensures Items(Footer) == []
  {
    OtherTagIsNotItem("", Footer[0]);
    OtherTagIsNotItem("", Footer[1]);
    assert "" + Footer[0] == Footer[0];
    assert "" + Footer[1] == Footer[1];
    assert Footer[1..][1..] == [];
  }

  /**
    A line made of space-free tokens joined by single spaces, such as
    `[INFO] Building <name> ...`, names the module by its third token.
   */
  lemma ModuleNameOf(parts: seq<string>)
    requires |parts| >= 3
    requires forall i :: 0 <= i < |parts| ==> ' ' !in parts[i]
    ensures ModuleName(Join(parts, ' ')) == Some(parts[2])
  {
    SplitJoin(parts, ' ');
  }

  /** A line of only two space-free tokens, such as `[INFO] Building`, gives the heading `undefined`. */
  lemma HeadingWithoutName(first: string, second: string)
    requires ' ' !in first && ' ' !in second
    ensures Heading(Join([first, second], ' ')) == "<h1>undefined</h1>"
  {
    SplitJoin([first, second], ' ');
  }
}
