/** What unlinking a node does to tree values and cells: the node with the key
    is replaced by its in-order successor, whose right child moves up. */
module RbTreeUnlink {
  import opened RbTreeModel
  import opened RbTreeCells
  import opened RbTreeClimb

  // ---------- concatenated paths ----------

  lemma FrontAppend(a: Path, b: Path)
    requires b != []
    ensures Front(a + b) == a + Front(b) && Last(a + b) == Last(b)
  {
  }

  lemma {:induction false} PathPtrsAppend(a: Path, b: Path)
    ensures PathPtrs(a + b) == PathPtrs(a) + PathPtrs(b)
  {
    if b == [] {
      assert a + b == a;
    } else {
      FrontAppend(a, b);
      PathPtrsAppend(a, Front(b));
    }
  }

  lemma {:induction false} RepPathAppend(h: Cells, a: Path, b: Path, p: RbNode?)
    ensures RepPath(h, a + b, p) <==> RepPath(h, b, p) && RepPath(h, a, RootOf(b, p))
  {
    if b == [] {
      assert a + b == a;
    } else {
      FrontAppend(a, b);
      RepPathAppend(h, a, Front(b), Last(b).ptr);
    }
  }

  lemma {:induction false} DistinctPathAppend(a: Path, b: Path, below: set<RbNode>)
    ensures DistinctPath(a + b, below) <==> DistinctPath(b, below) && DistinctPath(a, below + PathPtrs(b))
  {
    if b == [] {
      assert a + b == a && below + PathPtrs(b) == below;
    } else {
      var f := Last(b);
      FrontAppend(a, b);
      DistinctPathAppend(a, Front(b), below + {f.ptr} + Ptrs(f.sib));
      assert below + {f.ptr} + Ptrs(f.sib) + PathPtrs(Front(b)) == below + PathPtrs(b);
    }
  }

  lemma {:induction false} PlugAppend(a: Path, b: Path, t: Tree)
    ensures Plug(a + b, t) == Plug(a, Plug(b, t))
  {
    if b == [] {
      assert a + b == a;
    } else {
      FrontAppend(a, b);
      PlugAppend(a, Front(b), Up(Last(b), t));
    }
  }

  /** The number of black nodes on a path. */
  function BlacksOn(path: Path): nat {
    if path == [] then 0 else BlacksOn(Front(path)) + Blacks(Last(path).color)
  }

  lemma {:induction false} BalancedPathAppend(a: Path, b: Path, h: nat)
    ensures BalancedPath(a + b, h) <==> BalancedPath(b, h) && BalancedPath(a, h + BlacksOn(b))
  {
    if b == [] {
      assert a + b == a;
    } else {
      FrontAppend(a, b);
      BalancedPathAppend(a, Front(b), h + Blacks(Last(b).color));
    }
  }

  function TopColor(path: Path, c: Color): Color {
    if path == [] then c else path[0].color
  }

  lemma {:induction false} NoRedRedPathAppend(a: Path, b: Path, c: Color)
    ensures NoRedRedPath(a + b, c) <==> NoRedRedPath(b, c) && NoRedRedPath(a, TopColor(b, c))
  {
    if b == [] {
      assert a + b == a;
    } else {
      FrontAppend(a, b);
      NoRedRedPathAppend(a, Front(b), Last(b).color);
    }
  }

  /** A path that always turns left. */
  predicate Spine(path: Path) {
    forall i :: 0 <= i < |path| ==> path[i].dir == 0
  }

  lemma {:induction false} SpineOrder(a: Path, b: Path)
    requires Spine(b)
    ensures Before(a + b) == Before(a) && After(a + b) == After(b) + After(a)
  {
    if b == [] {
      assert a + b == a;
    } else {
      FrontAppend(a, b);
      SpineOrder(a, Front(b));
    }
  }

  // ---------- the spliced tree ----------

  /** The walk to the key, one step right, then left as far as possible. */
  function LongPath(path: Path, t: Tree, spine: Path): Path
    requires t.Node?
  {
    path + [StepInto(t, 1)] + spine
  }

  /** The frame of `t`, taken over by the successor `y`. */
  function Takeover(t: Tree, y: Tree): Frame
    requires t.Node? && y.Node?
  {
    Frame(y.ptr, y.data, t.color, 1, t.left)
  }

  function SplicedPath(path: Path, t: Tree, spine: Path, y: Tree): Path
    requires t.Node? && y.Node?
  {
    path + [Takeover(t, y)] + spine
  }

  /** `y` is the in-order successor of `t`, reached along `spine`. */
  ghost predicate Successor(t: Tree, spine: Path, y: Tree) {
    t.Node? && y.Node? && y.left.Leaf? && Spine(spine) && t.right == Plug(spine, y)
  }

  /** `s` without the key `k`. */
  ghost predicate Removed(s: seq<int32>, k: int32, s': seq<int32>) {
    exists i :: 0 <= i < |s| && s[i] == k && s' == s[..i] + s[i + 1..]
  }

  lemma RemovedAt(b: seq<int32>, k: int32, a: seq<int32>)
    ensures Removed(b + [k] + a, k, b + a)
    ensures Sorted(b + [k] + a) ==> Sorted(b + a)
  {
    var s := b + [k] + a;
    assert s[|b|] == k && s[..|b|] == b && s[|b| + 1..] == a;
    if Sorted(s) {
      forall i, j | 0 <= i < j < |b + a| ensures (b + a)[i] < (b + a)[j] {
        var i', j' := if i < |b| then i else i + 1, if j < |b| then j else j + 1;
        assert s[i'] == (b + a)[i] && s[j'] == (b + a)[j];
      }
    }
  }

  lemma SpineKeys(spine: Path, y: Tree)
    requires Spine(spine) && y.Node? && y.left.Leaf?
    ensures InOrder(Plug(spine, y)) == [y.data] + (InOrder(y.right) + After(spine))
  {
    hide Plug, InOrder, Before, After;
    PlugInOrder(spine, y);
    SpineOrder([], spine);
    assert [] + spine == spine;
    NoLeftOrder(y);
  }

  lemma NoLeftOrder(y: Tree)
    requires y.Node? && y.left.Leaf?
    ensures InOrder(y) == [y.data] + InOrder(y.right) && Before([]) == [] && After([]) == []
  {
  }

  lemma SplicedEnds(path: Path, t: Tree, spine: Path, y: Tree)
    requires Successor(t, spine, y)
    ensures var q := SplicedPath(path, t, spine, y);
      Before(q) == Before(path) + InOrder(t.left) + [y.data] && After(q) == After(spine) + After(path)
  {
    var p := path + [Takeover(t, y)];
    assert Front(p) == path && Last(p) == Takeover(t, y);
    SpineOrder(p, spine);
  }

  lemma Regroup(b: seq<int32>, l: seq<int32>, m: int32, n: int32, r: seq<int32>, s: seq<int32>, a: seq<int32>)
    ensures b + (l + [m] + ([n] + (r + s))) + a == (b + l) + [m] + ([n] + r + s + a)
    ensures (b + l + [n]) + r + (s + a) == (b + l) + ([n] + r + s + a)
  {
  }

  lemma SpliceOrder(path: Path, t: Tree, spine: Path, y: Tree)
    requires Successor(t, spine, y)
    ensures var s, s' := InOrder(Plug(path, t)), InOrder(Plug(SplicedPath(path, t, spine, y), y.right));
      Removed(s, t.data, s') && (Sorted(s) ==> Sorted(s'))
  {
    PlugInOrder(path, t);
    PlugInOrder(SplicedPath(path, t, spine, y), y.right);
    SpineKeys(spine, y);
    SplicedEnds(path, t, spine, y);
    Regroup(Before(path), InOrder(t.left), t.data, y.data, InOrder(y.right), After(spine), After(path));
    RemovedAt(Before(path) + InOrder(t.left), t.data, [y.data] + InOrder(y.right) + After(spine) + After(path));
  }

  /** The only possible red-red edge at the open end is below a black node that goes. */
  ghost predicate ShortFocus(path: Path, u: Tree, c: Color) {
    NoRedRed(u) && NoRedRedPath(path, Black) && (c == Red ==> ColorOf(u) == Black)
  }

  /** The subtree at the open end lacks one black node if the removed colour `c` was
      black, and that is the only difference between black counts. */
  ghost predicate ShortCounts(path: Path, u: Tree, c: Color) {
    && Balanced(u) && BlackHeight(u) == 0 && BalancedPath(path, Blacks(c))
    && (path != [] ==> path[0].color == Black)
  }

  /** Frames of one colour, side and sibling are interchangeable. */
  lemma SameFrameColors(path: Path, f: Frame, g: Frame, spine: Path, h: nat, c: Color)
    requires f.color == g.color && f.sib == g.sib
    ensures BalancedPath(path + [f] + spine, h) == BalancedPath(path + [g] + spine, h)
    ensures NoRedRedPath(path + [f] + spine, c) == NoRedRedPath(path + [g] + spine, c)
  {
    assert Front(path + [f]) == path && Last(path + [f]) == f;
    assert Front(path + [g]) == path && Last(path + [g]) == g;
    BalancedPathAppend(path + [f], spine, h);
    BalancedPathAppend(path + [g], spine, h);
    NoRedRedPathAppend(path + [f], spine, c);
    NoRedRedPathAppend(path + [g], spine, c);
  }

  lemma LongPlug(path: Path, t: Tree, spine: Path, y: Tree)
    requires Successor(t, spine, y)
    ensures Plug(LongPath(path, t, spine), y) == Plug(path, t)
  {
    var f := StepInto(t, 1);
    PlugAppend(path + [f], spine, y);
    assert Front(path + [f]) == path && Last(path + [f]) == f;
  }

  /** With two nodes or more the root is black. */
  lemma InnerRootBlack(path: Path, t: Tree)
    requires RedBlack(Plug(path, t)) && t.Node? && (path != [] || t.left.Node? || t.right.Node?)
    ensures TopColor(path, t.color) == Black
  {
    PlugTop(path, t);
    PlugHeight(path, t);
  }

  lemma SpliceColors(path: Path, t: Tree, spine: Path, y: Tree)
    requires Successor(t, spine, y) && NoRedRed(Plug(path, t))
    ensures ShortFocus(SplicedPath(path, t, spine, y), y.right, y.color)
  {
    var q := LongPath(path, t, spine);
    LongPlug(path, t, spine, y);
    PlugNoRedRed(q, y);
    SameFrameColors(path, StepInto(t, 1), Takeover(t, y), spine, 0, y.color);
    WeakenPath(SplicedPath(path, t, spine, y), y.color);
  }

  lemma SpliceCounts(path: Path, t: Tree, spine: Path, y: Tree)
    requires Successor(t, spine, y) && RedBlack(Plug(path, t))
    ensures ShortCounts(SplicedPath(path, t, spine, y), y.right, y.color)
  {
    var q := LongPath(path, t, spine);
    LongPlug(path, t, spine, y);
    PlugBalanced(q, y);
    SameFrameColors(path, StepInto(t, 1), Takeover(t, y), spine, BlackHeight(y), y.color);
    PlugTop(spine, y);
    InnerRootBlack(path, t);
  }

  // ---------- the cells of the spliced tree ----------

  /** Which cells the pieces of the walk occupy; all are apart. */
  lemma SpliceApart(path: Path, t: Tree, spine: Path, y: Tree)
    requires Successor(t, spine, y) && Distinct(y) && DistinctPath(LongPath(path, t, spine), Ptrs(y))
    ensures var low := Ptrs(y) + PathPtrs(spine) + Ptrs(t.left);
      && t.ptr !in low && PathPtrs(path) !! low + {t.ptr}
      && DistinctPath(path, low) && Distinct(t.left)
    ensures DistinctPath(spine, Ptrs(y)) && PathPtrs(spine) !! Ptrs(y)
    ensures Ptrs(t.left) !! Ptrs(y) + PathPtrs(spine)
  {
    var f := StepInto(t, 1);
    var low := Ptrs(y) + PathPtrs(spine);
    DistinctPathAppend(path + [f], spine, Ptrs(y));
    assert Front(path + [f]) == path && Last(path + [f]) == f;
    Apart(spine, Ptrs(y));
    Apart(path, low + {t.ptr} + Ptrs(t.left));
    NarrowBelow(path, low + {t.ptr} + Ptrs(t.left), Ptrs(y) + PathPtrs(spine) + Ptrs(t.left));
  }

  lemma {:induction false} NarrowBelow(path: Path, below: set<RbNode>, less: set<RbNode>)
    requires DistinctPath(path, below) && less <= below
    ensures DistinctPath(path, less)
  {
    if path != [] {
      var f := Last(path);
      NarrowBelow(Front(path), below + {f.ptr} + Ptrs(f.sib), less + {f.ptr} + Ptrs(f.sib));
    }
  }

  lemma ThreePartPtrs(path: Path, f: Frame, spine: Path)
    ensures PathPtrs(path + [f] + spine) == PathPtrs(path) + {f.ptr} + Ptrs(f.sib) + PathPtrs(spine)
  {
    assert Front(path + [f]) == path && Last(path + [f]) == f;
    PathPtrsAppend(path + [f], spine);
  }

  /** Splicing gives up the cell of `t` and no other. */
  lemma SplicedPtrs(path: Path, t: Tree, spine: Path, y: Tree)
    requires Successor(t, spine, y) && Distinct(y) && DistinctPath(LongPath(path, t, spine), Ptrs(y))
    ensures PathPtrs(SplicedPath(path, t, spine, y)) + Ptrs(y.right) ==
            PathPtrs(LongPath(path, t, spine)) + Ptrs(y) - {t.ptr}
  {
    hide Distinct, DistinctPath;
    SpliceApart(path, t, spine, y);
    ThreePartPtrs(path, StepInto(t, 1), spine);
    ThreePartPtrs(path, Takeover(t, y), spine);
    assert Ptrs(y) == {y.ptr} + Ptrs(y.right);
  }

  lemma SplicedApart(path: Path, t: Tree, spine: Path, y: Tree)
    requires Successor(t, spine, y) && Distinct(y) && DistinctPath(LongPath(path, t, spine), Ptrs(y))
    ensures DistinctPath(SplicedPath(path, t, spine, y), Ptrs(y.right))
  {
    var g := Takeover(t, y);
    SpliceApart(path, t, spine, y);
    assert Front(path + [g]) == path && Last(path + [g]) == g;
    assert Ptrs(y) == {y.ptr} + Ptrs(y.right);
    NarrowBelow(spine, Ptrs(y), Ptrs(y.right));
    DistinctPathAppend(path + [g], spine, Ptrs(y.right));
    assert (Ptrs(y.right) + PathPtrs(spine)) + {y.ptr} + Ptrs(t.left) == Ptrs(y) + PathPtrs(spine) + Ptrs(t.left);
  }

  lemma SpliceRep(h: Cells, root: RbNode?, path: Path, t: Tree, spine: Path, y: Tree)
    requires t.Node? && y.Node? && Zipped(h, root, LongPath(path, t, spine), y)
    ensures RepPath(h, spine, y.ptr) && RepPath(h, path, t.ptr)
    ensures FrameRep(h, StepInto(t, 1), RootOf(spine, y.ptr))
    ensures root == RootOf(path, t.ptr)
  {
    var f := StepInto(t, 1);
    RepPathAppend(h, path + [f], spine, y.ptr);
    assert Front(path + [f]) == path && Last(path + [f]) == f;
  }

  /** What the writes of rbt.c:149-158 or 175-189 amount to. */
  ghost predicate SpliceWrites(h: Cells, h': Cells, path: Path, t: Tree, spine: Path, y: Tree)
    requires t.Node? && y.Node?
  {
    && y.ptr in h' && h'[y.ptr] == Cell(y.data, t.color, Top(t.left), RootOf(spine, Top(y.right)))
    && (spine != [] ==>
        Last(spine).ptr in h && Agree(SetLink(h, Last(spine).ptr, 0, Top(y.right)), h', PathPtrs(spine)))
    && (path != [] ==>
        Last(path).ptr in h && Agree(SetLink(h, Last(path).ptr, Last(path).dir, y.ptr), h', PathPtrs(path)))
    && Agree(h, h', Ptrs(t.left) + Ptrs(y.right))
  }

  lemma SpliceEnds(h: Cells, h': Cells, root: RbNode?, path: Path, t: Tree, spine: Path, y: Tree)
    requires Successor(t, spine, y) && Zipped(h, root, LongPath(path, t, spine), y)
    requires SpliceWrites(h, h', path, t, spine, y)
    ensures RepPath(h', spine, Top(y.right)) && RepPath(h', path, y.ptr)
  {
    SpliceApart(path, t, spine, y);
    SpliceRep(h, root, path, t, spine, y);
    if spine != [] {
      NarrowBelow(spine, Ptrs(y), Ptrs(y.right));
      Relink(h, h', spine, y.ptr, y.right);
    }
    if path != [] {
      NarrowBelow(path, Ptrs(y) + PathPtrs(spine) + Ptrs(t.left), Ptrs(y));
      Relink(h, h', path, t.ptr, y);
    }
  }

  lemma SpliceCells(h: Cells, h': Cells, root: RbNode?, path: Path, t: Tree, spine: Path, y: Tree)
    requires Successor(t, spine, y) && Zipped(h, root, LongPath(path, t, spine), y)
    requires SpliceWrites(h, h', path, t, spine, y)
    ensures Zipped(h', if path == [] then y.ptr else root, SplicedPath(path, t, spine, y), y.right)
  {
    var g := Takeover(t, y);
    SplicedApart(path, t, spine, y);
    SpliceRep(h, root, path, t, spine, y);
    SpliceEnds(h, h', root, path, t, spine, y);
    RepFrame(h, h', y.right);
    RepFrame(h, h', t.left);
    assert Front(path + [g]) == path && Last(path + [g]) == g;
    RepPathAppend(h', path + [g], spine, Top(y.right));
  }

  // ---------- the spliced tree from the old one ----------

  /** The node that takes over from `t`: the leftmost of its right subtree. */
  function First(t: Tree): Tree
    requires t.Node?
    ensures First(t).Node? && First(t).left.Leaf?
  {
    if t.left.Leaf? then t else First(t.left)
  }

  /** The colour that goes missing when `k` is deleted, and the subtree that moves up. */
  function Unlinked(t: Tree, k: int32): (Color, Tree) {
    if t.Leaf? then (Red, Leaf)
    else if k == t.data then
      if t.right.Leaf? then (t.color, t.left) else (First(t.right).color, First(t.right).right)
    else if k > t.data then Unlinked(t.right, k)
    else Unlinked(t.left, k)
  }

  /** The path to where that subtree goes. */
  function PathTo(t: Tree, k: int32): Path {
    if t.Leaf? then []
    else if k == t.data then
      if t.right.Leaf? then [] else [Takeover(t, First(t.right))] + FirstPath(t.right)
    else if k > t.data then [StepInto(t, 1)] + PathTo(t.right, k)
    else [StepInto(t, 0)] + PathTo(t.left, k)
  }

  function FirstPath(t: Tree): Path {
    if t.Leaf? || t.left.Leaf? then [] else [StepInto(t, 0)] + FirstPath(t.left)
  }

  /** The loop is not entered if the root went or the colour that went is red. */
  predicate Settles(t: Tree, k: int32) {
    PathTo(t, k) == [] || Unlinked(t, k).0 == Red
  }

  /** How the deletion of `k` ends ... */
  function Fate(t: Tree, k: int32): Ending {
    if Settles(t, k) then Restored else Climb(PathTo(t, k), OpenOf(Unlinked(t, k).1))
  }

  /** ... and the tree it leaves. */
  function Deleted(t: Tree, k: int32): Tree {
    var path, u := PathTo(t, k), Unlinked(t, k).1;
    if Settles(t, k) then Plug(path, u) else Climbed(path, u)
  }

  lemma {:induction false} FoundBelow(path: Path, t: Tree, k: int32)
    requires Between(path, k)
    ensures Unlinked(Plug(path, t), k) == Unlinked(t, k) && PathTo(Plug(path, t), k) == path + PathTo(t, k)
  {
    if path != [] {
      var f := Last(path);
      assert if f.dir == 1 then f.data in Before(path) else f.data in After(path);
      BetweenFront(path, k);
      FoundBelow(Front(path), Up(f, t), k);
      assert StepInto(Up(f, t), f.dir) == f;
      assert path == Front(path) + [f];
    }
  }

  lemma {:induction false} FirstAbove(spine: Path, t: Tree)
    requires Spine(spine) && t.Node?
    ensures Plug(spine, t).Node? && FirstPath(Plug(spine, t)) == spine + FirstPath(t)
    ensures First(Plug(spine, t)) == First(t)
  {
    if spine != [] {
      var f := Last(spine);
      FirstAbove(Front(spine), Up(f, t));
      assert StepInto(Up(f, t), 0) == f;
      assert spine == Front(spine) + [f];
    }
  }

  lemma BetweenFront(path: Path, k: int32)
    requires path != [] && Between(path, k)
    ensures Between(Front(path), k)
  {
    assert forall x :: x in Before(Front(path)) ==> x in Before(path);
    assert forall x :: x in After(Front(path)) ==> x in After(path);
  }

  // ---------- the writes of the three shapes ----------

  /** rbt.c:141 and 144: the left child moves up. */
  lemma LiftCells(h: Cells, root: RbNode?, path: Path, t: Tree)
    requires Zipped(h, root, path, t) && t.Node? && t.right.Leaf?
    ensures path != [] ==> Last(path).ptr in h
    ensures var h' := if path == [] then h else SetLink(h, Last(path).ptr, Last(path).dir, Top(t.left));
      Zipped(h', if path == [] then Top(t.left) else root, path, t.left)
    ensures PathPtrs(path) + Ptrs(t.left) == PathPtrs(path) + Ptrs(t) - {t.ptr}
  {
    NarrowBelow(path, Ptrs(t), Ptrs(t.left));
    Apart(path, Ptrs(t));
    if path != [] {
      var h' := SetLink(h, Last(path).ptr, Last(path).dir, Top(t.left));
      assert Last(path).ptr in PathPtrs(path);
      Relink(h, h', path, t.ptr, t.left);
      RepFrame(h, h', t.left);
    }
  }

  lemma RegroupThree(b: seq<int32>, l: seq<int32>, m: int32, a: seq<int32>)
    ensures b + (l + [m] + []) + a == (b + l) + [m] + a
  {
  }

  lemma LiftOrder(path: Path, t: Tree)
    requires Sorted(InOrder(Plug(path, t))) && t.Node? && t.right.Leaf?
    ensures Removed(InOrder(Plug(path, t)), t.data, InOrder(Plug(path, t.left)))
    ensures Sorted(InOrder(Plug(path, t.left)))
  {
    PlugInOrder(path, t);
    PlugInOrder(path, t.left);
    RegroupThree(Before(path), InOrder(t.left), t.data, After(path));
    assert InOrder(t.right) == [];
    RemovedAt(Before(path) + InOrder(t.left), t.data, After(path));
  }

  lemma LiftColors(path: Path, t: Tree)
    requires NoRedRed(Plug(path, t)) && t.Node? && t.right.Leaf?
    ensures ShortFocus(path, t.left, t.color)
  {
    PlugNoRedRed(path, t);
    WeakenPath(path, t.color);
  }

  lemma LiftCounts(path: Path, t: Tree)
    requires RedBlack(Plug(path, t)) && t.Node? && t.right.Leaf?
    ensures ShortCounts(path, t.left, t.color) && (path == [] ==> RedBlack(t.left))
  {
    PlugBalanced(path, t);
    if path != [] {
      InnerRootBlack(path, t);
    } else {
      LiftOrder(path, t);
    }
  }

  /** Lines 149-157: the right child `y`, without a left child, moves up. */
  function NearCells(h: Cells, p: RbNode, y: RbNode): Cells
    requires p in h && y in h
  {
    var h1 := SetLink(h, y, 0, h[p].link0);
    var h2 := SetColor(h1, y, h1[p].color);
    SetColor(h2, p, h[y].color)
  }

  /** Lines 178-189: the successor `y`, at the end of the left spine that ends in `x`, moves up. */
  function FarCells(h: Cells, p: RbNode, x: RbNode, y: RbNode): Cells
    requires p in h && x in h && y in h
  {
    var h1 := SetLink(h, y, 0, h[p].link0);
    var h2 := SetLink(h1, x, 0, h1[y].link1);
    var h3 := SetLink(h2, y, 1, h2[p].link1);
    var h4 := SetColor(h3, y, h3[p].color);
    SetColor(h4, p, h[y].color)
  }

  lemma FarCellsAre(h: Cells, p: RbNode, x: RbNode, y: RbNode)
    requires p in h && x in h && y in h && p != x && x != y && p != y
    ensures var r := FarCells(h, p, x, y);
            && r[y] == Cell(h[y].data, h[p].color, h[p].link0, h[p].link1)
            && r[x] == h[x].(link0 := h[y].link1)
            && r.Keys == h.Keys && forall n :: n in h && n != x && n != y && n != p ==> r[n] == h[n]
  {
  }

  lemma LastCell(h: Cells, path: Path, p: RbNode?)
    requires RepPath(h, path, p) && path != []
    ensures Last(path).ptr in h && Last(path).ptr in PathPtrs(path)
  {
  }

  lemma NearWrites(h: Cells, root: RbNode?, path: Path, t: Tree, y: Tree)
    requires Successor(t, [], y) && Zipped(h, root, LongPath(path, t, []), y)
    ensures t.ptr in h && y.ptr in h && (path != [] ==> Last(path).ptr in h)
    ensures SpliceWrites(h, RelinkCells(NearCells(h, t.ptr, y.ptr), path, y.ptr), path, t, [], y)
  {
    hide RepPath;
    SpliceApart(path, t, [], y);
    SpliceRep(h, root, path, t, [], y);
    if path != [] { LastCell(h, path, t.ptr); }
  }

  lemma FarWrites(h: Cells, root: RbNode?, path: Path, t: Tree, spine: Path, y: Tree)
    requires Successor(t, spine, y) && Zipped(h, root, LongPath(path, t, spine), y) && spine != []
    ensures t.ptr in h && y.ptr in h && Last(spine).ptr in h && (path != [] ==> Last(path).ptr in h)
    ensures SpliceWrites(h, FarCells(RelinkCells(h, path, y.ptr), t.ptr, Last(spine).ptr, y.ptr), path, t, spine, y)
  {
    hide RepPath, FarCells, Distinct, DistinctPath, PathPtrs;
    SplitPtrs(y);
    SpliceApart(path, t, spine, y);
    SpliceRep(h, root, path, t, spine, y);
    LastCell(h, spine, y.ptr);
    PlugTop(spine, y);
    if path != [] { LastCell(h, path, t.ptr); }
    FarCellsAre(RelinkCells(h, path, y.ptr), t.ptr, Last(spine).ptr, y.ptr);
  }

  lemma RootIff(h: Cells, root: RbNode?, path: Path, t: Tree)
    requires Zipped(h, root, path, t) && t.Node?
    ensures t.ptr in h && h[t.ptr] == Cell(t.data, t.color, Top(t.left), Top(t.right))
    ensures t.ptr == root <==> path == []
  {
    if path != [] {
      Apart(path, Ptrs(t));
      PathHead(path);
    }
  }

  lemma SpliceRoot(h: Cells, root: RbNode?, path: Path, t: Tree, spine: Path, y: Tree)
    requires Successor(t, spine, y) && Zipped(h, root, LongPath(path, t, spine), y)
    ensures t.ptr == root <==> path == []
    ensures t.ptr in h && h[t.ptr].color == t.color
    ensures y.ptr in h && h[y.ptr].color == y.color && y.ptr != t.ptr
    ensures spine != [] ==> Last(spine).ptr != t.ptr
  {
    SpliceApart(path, t, spine, y);
    SpliceRep(h, root, path, t, spine, y);
    if path != [] {
      PathHead(path);
    }
    if spine != [] {
      assert Last(spine).ptr in PathPtrs(spine);
    }
  }

  /** The whole effect of the far shape on the cells. */
  lemma FarStep(h: Cells, root: RbNode?, path: Path, t: Tree, spine: Path, y: Tree)
    requires Successor(t, spine, y) && spine != [] && Zipped(h, root, LongPath(path, t, spine), y)
    ensures t.ptr in h && y.ptr in h && Last(spine).ptr in h && (path != [] ==> Last(path).ptr in h)
    ensures Last(spine).ptr != t.ptr && y.ptr != t.ptr && (t.ptr == root <==> path == [])
    ensures var h' := FarCells(RelinkCells(h, path, y.ptr), t.ptr, Last(spine).ptr, y.ptr);
      && h'[t.ptr].color == y.color
      && Zipped(h', if path == [] then y.ptr else root, SplicedPath(path, t, spine, y), y.right)
  {
    FarWrites(h, root, path, t, spine, y);
    SpliceRoot(h, root, path, t, spine, y);
    SpliceCells(h, FarCells(RelinkCells(h, path, y.ptr), t.ptr, Last(spine).ptr, y.ptr), root, path, t, spine, y);
    SpliceApart(path, t, spine, y);
  }

  // ---------- walking to the successor ----------

  /** The search for the successor of `t` has come down to `x`. */
  ghost predicate Spinning(h: Cells, root: RbNode?, path: Path, t: Tree, spine: Path, x: Tree) {
    && t.Node? && x.Node? && Zipped(h, root, LongPath(path, t, spine), x)
    && Spine(spine) && t.right == Plug(spine, x)
    && |path| + 1 + |spine| + Height(x) <= DEPTH
  }

  lemma StartSpinning(h: Cells, root: RbNode?, tree: Tree, path: Path, t: Tree, k: int32)
    requires Walking(h, root, tree, path, t, k) && t.Node? && t.right.Node? && Height(tree) <= DEPTH
    ensures Spinning(h, root, path, t, [], t.right)
    ensures t.right.ptr in h && h[t.right.ptr].link0 == Top(t.right.left)
  {
    DescendCells(h, root, path, t, 1);
    assert LongPath(path, t, []) == path + [StepInto(t, 1)];
    PlugHeight(path, t);
  }

  lemma SpinStep(h: Cells, root: RbNode?, path: Path, t: Tree, spine: Path, x: Tree)
    requires Spinning(h, root, path, t, spine, x) && x.left.Node?
    ensures Spinning(h, root, path, t, spine + [StepInto(x, 0)], x.left)
    ensures x.ptr in h && h[x.ptr].link0 == x.left.ptr
    ensures x.left.ptr in h && h[x.left.ptr].link0 == Top(x.left.left)
  {
    var f := StepInto(x, 0);
    DescendCells(h, root, LongPath(path, t, spine), x, 0);
    assert LongPath(path, t, spine) + [f] == LongPath(path, t, spine + [f]);
    FrontAppend(spine, [f]);
    assert Front([f]) == [] && spine + [] == spine && Last([f]) == f;
  }

  // ---------- what unlinking achieves, whichever the shape ----------

  /** Unlinking the cell `gone` with the key `k` from `tree` leaves Plug(path, u);
      `c` is the colour that went missing at the open end of `path`. */
  ghost predicate Unlinking(tree: Tree, k: int32, gone: RbNode, path: Path, u: Tree, c: Color) {
    && Removed(InOrder(tree), k, InOrder(Plug(path, u))) && Sorted(InOrder(Plug(path, u)))
    && Ptrs(Plug(path, u)) == Ptrs(tree) - {gone} && ShortFocus(path, u, c)
    && (RedBlack(tree) ==> ShortCounts(path, u, c) && (path == [] ==> RedBlack(u)))
    && path == PathTo(tree, k) && (c, u) == Unlinked(tree, k)
  }

  lemma LiftDone(h: Cells, root: RbNode?, tree: Tree, path: Path, t: Tree)
    requires t.Node? && Walking(h, root, tree, path, t, t.data) && t.right.Leaf?
    ensures Unlinking(tree, t.data, t.ptr, path, t.left, t.color)
  {
    LiftOrder(path, t);
    LiftColors(path, t);
    if RedBlack(tree) { LiftCounts(path, t); }
    LiftCells(h, root, path, t);
    PlugPtrs(path, t);
    PlugPtrs(path, t.left);
    FoundBelow(path, t, t.data);
    assert path + [] == path;
  }

  lemma SpliceDone(h: Cells, root: RbNode?, tree: Tree, path: Path, t: Tree, spine: Path, y: Tree)
    requires t.Node? && Walking(h, root, tree, path, t, t.data)
    requires Successor(t, spine, y) && Zipped(h, root, LongPath(path, t, spine), y)
    ensures Unlinking(tree, t.data, t.ptr, SplicedPath(path, t, spine, y), y.right, y.color)
  {
    var q := SplicedPath(path, t, spine, y);
    SpliceOrder(path, t, spine, y);
    SpliceColors(path, t, spine, y);
    if RedBlack(tree) { SpliceCounts(path, t, spine, y); }
    SplicedPtrs(path, t, spine, y);
    LongPlug(path, t, spine, y);
    PlugPtrs(LongPath(path, t, spine), y);
    PlugPtrs(q, y.right);
    SplicedFrom(path, t, spine, y);
  }

  lemma SplicedFrom(path: Path, t: Tree, spine: Path, y: Tree)
    requires Successor(t, spine, y) && Between(path, t.data)
    ensures PathTo(Plug(path, t), t.data) == SplicedPath(path, t, spine, y)
    ensures Unlinked(Plug(path, t), t.data) == (y.color, y.right)
  {
    FoundBelow(path, t, t.data);
    FirstAbove(spine, y);
    assert spine + [] == spine;
    assert path + ([Takeover(t, y)] + spine) == SplicedPath(path, t, spine, y);
  }

  /** What deletion leaves, from what the unlink phase leaves: the same keys and cells, no red-red
      edge, and, of a red-black tree, a red-black one exactly if the ending is Restored. */
  lemma DeletedIs(tree: Tree, k: int32, gone: RbNode, path: Path, u: Tree, c: Color)
    requires Unlinking(tree, k, gone, path, u, c)
    ensures var r := Deleted(tree, k);
      && SameContents(r, Plug(path, u)) && Loose(r)
      && (RedBlack(tree) ==>
            && Fate(tree, k) in {Restored, AtRoot, WrongSide}
            && if Fate(tree, k) == Restored then RedBlack(r) else !Balanced(r))
  {
    hide Climb, Climbed, PathTo, Unlinked, NoRedRed, InOrder;
    if path == [] || c == Red {
      PlugNoRedRed(path, u);
      if path != [] { SettledRedBlack(tree, k, gone, path, u); } else { assert Plug(path, u) == u; }
    } else {
      ShortFocusOpen(path, u);
      ClimbedLoose(path, u);
      if RedBlack(tree) {
        CountsAreShort(path, u);
        ClimbedCounts(path, u);
      }
    }
  }

  lemma SettledRedBlack(tree: Tree, k: int32, gone: RbNode, path: Path, u: Tree)
    requires Unlinking(tree, k, gone, path, u, Red) && path != []
    ensures RedBlack(tree) ==> RedBlack(Plug(path, u))
  {
    PlugTop(path, u);
    PlugBalanced(path, u);
    PlugNoRedRed(path, u);
  }

  lemma ShortFocusOpen(path: Path, u: Tree)
    requires ShortFocus(path, u, Black) && path != []
    ensures Smooth(path, u)
  {
    Blackened(u);
  }

  lemma CountsAreShort(path: Path, u: Tree)
    requires ShortFocus(path, u, Black) && ShortCounts(path, u, Black) && path != []
    ensures Short(path, u)
  {
    Blackened(u);
  }
}
