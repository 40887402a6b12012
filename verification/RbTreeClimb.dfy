/** The propagation loop of schproj/rbt.c's deletion on tree values and cells: one black
    node is missing at the open end of a path, and the loop climbs to make up for it.
    It takes the side from the path entry one too high (`dir[ht - 2]`), and stops one
    entry early (`ht < 2`), so it does not always succeed. */
module RbTreeClimb {
  import opened RbTreeModel
  import opened RbTreeCells

  /** How deletion ends: after a repair; at a child of the root, one black node short; after
      treating the short subtree as the long one; where there is no sibling; or at line 232
      with a null pointer for the sibling, which ends the program. */
  datatype Ending = Restored | AtRoot | WrongSide | NoSibling | NullSibling

  predicate HasRedKid(t: Tree) {
    t.Node? && (ColorOf(t.left) == Red || ColorOf(t.right) == Red)
  }

  /** What the loop reads of the subtree it starts from. */
  datatype Open = NoNode | RedNode | BlackNode(redKid: bool)

  function OpenOf(u: Tree): Open {
    if u.Leaf? then NoNode else if u.color == Red then RedNode else BlackNode(HasRedKid(u))
  }

  /** Where the loop ends, seen from the turns of the path and the colours beside it. Where path
      and parent turn to different sides the code takes the open end itself for the sibling. */
  function Climb(path: Path, o: Open): Ending {
    if o == RedNode then Restored
    else if |path| < 2 then AtRoot
    else
      var f := Last(path);
      var wrong := Last(Front(path)).dir != f.dir;
      if wrong && (o == NoNode || o.redKid) then WrongSide
      else if !wrong && f.sib.Leaf? then NoSibling
      else if !wrong && f.sib.color == Red then
        if Kid(f.sib, f.dir).Leaf? then NullSibling else Restored
      else if f.color == Red || (!wrong && HasRedKid(f.sib)) then Restored
      else Climb(Front(path), BlackNode(true))
  }

  // ---------- the missing black node ----------

  /** The only red node with a red child may be the one at the open end. */
  ghost predicate Smooth(path: Path, u: Tree) {
    path != [] && NoRedRed(Blacken(u)) && NoRedRedPath(path, Black)
  }

  /** Besides, one black node is missing below the open end, and all else is balanced. */
  ghost predicate Lacking(path: Path, u: Tree) {
    && Smooth(path, u) && path[0].color == Black
    && Balanced(u) && BalancedPath(path, BlackHeight(u) + 1)
  }

  lemma {:induction false} WeakenPath(path: Path, c: Color)
    requires NoRedRedPath(path, c)
    ensures NoRedRedPath(path, Black)
  {
  }

  /** Painting a red node at the open end black ends every red-red edge ... */
  lemma PaintSmooths(path: Path, u: Tree)
    requires Smooth(path, u)
    ensures NoRedRed(Plug(path, Blacken(u)))
    ensures SameContents(Plug(path, Blacken(u)), Plug(path, u))
  {
    PlugNoRedRed(path, Blacken(u));
    PlugCongruence(path, Blacken(u), u);
  }

  /** ... and makes up for the missing node. */
  lemma PaintMakesUp(path: Path, u: Tree)
    requires Lacking(path, u) && ColorOf(u) == Red && Sorted(InOrder(Plug(path, u)))
    ensures RedBlack(Plug(path, Blacken(u)))
  {
    PaintSmooths(path, u);
    PlugTop(path, Blacken(u));
    PlugBalanced(path, Blacken(u));
  }

  lemma StillShort(path: Path, u: Tree)
    requires Lacking(path, u)
    ensures !Balanced(Plug(path, u))
  {
    PlugBalanced(path, u);
  }

  // ---------- the steps on tree values ----------

  /** The kid `y` on side `d` takes the place of `x` and has `x` below it. */
  function Rolled(x: Tree, d: Side, top: Color, low: Color): Tree
    requires x.Node? && Kid(x, d).Node?
  {
    var y := Kid(x, d);
    Make(y.ptr, y.data, top, 1 - d, Make(x.ptr, x.data, low, d, Kid(y, 1 - d), Kid(x, 1 - d)), Kid(y, d))
  }

  /** x with another kid on side `d`. */
  function WithKid(x: Tree, d: Side, y: Tree): Tree
    requires x.Node?
  {
    Make(x.ptr, x.data, x.color, d, y, Kid(x, 1 - d))
  }

  function Redden(t: Tree): Tree {
    if t.Leaf? then t else t.(color := Red)
  }

  /** Lines 236-243: with a black far nephew the near one takes the sibling's place. */
  function Nudged(p: Tree, s: Side): Tree
    requires p.Node? && HasRedKid(Kid(p, 1 - s))
  {
    var r := Kid(p, 1 - s);
    if ColorOf(Kid(r, 1 - s)) == Black then WithKid(p, 1 - s, Rolled(r, s, Black, Red)) else p
  }

  /** Lines 244-248: the sibling takes the parent's place and colour; parent and far
      nephew turn black. */
  function Finished(p: Tree, s: Side): Tree
    requires p.Node? && Kid(p, 1 - s).Node?
  {
    var t := Rolled(p, 1 - s, p.color, Black);
    WithKid(t, 1 - s, Blacken(Kid(t, 1 - s)))
  }

  /** Parent and sibling of the open end. */
  function Family(path: Path, u: Tree): Tree
    requires path != []
  {
    Up(Last(path), u)
  }

  /** The path after lines 214-227: a red sibling has come above the parent. */
  function SiblingAbove(path: Path): Path
    requires path != [] && Last(path).sib.Node?
  {
    var f := Last(path);
    var r := f.sib;
    var upper := Frame(r.ptr, r.data, Black, f.dir, Kid(r, 1 - f.dir));
    var lower := Frame(f.ptr, f.data, Red, f.dir, Kid(r, f.dir));
    Front(path) + [upper, lower]
  }

  /** The path once a red sibling has been dealt with. */
  function Raised(path: Path, s: Side): Path
    requires path != []
  {
    if s == Last(path).dir && ColorOf(Last(path).sib) == Red then SiblingAbove(path) else path
  }

  /** The tree the loop leaves behind. */
  function Climbed(path: Path, u: Tree): Tree
    decreases |path|, ColorOf(u) == Black
  {
    if ColorOf(u) == Red then Plug(path, Blacken(u))
    else if |path| < 2 || Kid(Family(path, u), 1 - Last(Front(path)).dir).Leaf? then Plug(path, u)
    else
      var s := Last(Front(path)).dir;
      var q := Raised(path, s);
      var t := Family(q, u);
      if Kid(t, 1 - s).Leaf? then Plug(q, u)
      else if HasRedKid(Kid(t, 1 - s)) then Plug(Front(q), Finished(Nudged(t, s), s))
      else Climbed(Front(q), WithKid(t, 1 - s, Redden(Kid(t, 1 - s))))
  }

  lemma RolledOrder(x: Tree, d: Side, top: Color, low: Color)
    requires x.Node? && Kid(x, d).Node?
    ensures InOrder(Rolled(x, d, top, low)) == InOrder(x)
  {
    var y, t := Kid(x, d), Rolled(x, d, top, low);
    if d == 0 {
      assert InOrder(t) == InOrder(y.left) + [y.data] + (InOrder(y.right) + [x.data] + InOrder(x.right));
      assert InOrder(x) == (InOrder(y.left) + [y.data] + InOrder(y.right)) + [x.data] + InOrder(x.right);
    } else {
      assert InOrder(t) == (InOrder(x.left) + [x.data] + InOrder(y.left)) + [y.data] + InOrder(y.right);
      assert InOrder(x) == InOrder(x.left) + [x.data] + (InOrder(y.left) + [y.data] + InOrder(y.right));
    }
  }

  lemma RolledContents(x: Tree, d: Side, top: Color, low: Color)
    requires x.Node? && Kid(x, d).Node?
    ensures SameContents(Rolled(x, d, top, low), x)
    ensures Distinct(x) ==> Distinct(Rolled(x, d, top, low))
  {
    hide InOrder, Ptrs, Distinct, Make;
    var y, t := Kid(x, d), Rolled(x, d, top, low);
    RolledOrder(x, d, top, low);
    NodeCells(x, d);
    NodeCells(y, d);
    MadeCells(x.ptr, x.data, low, d, Kid(y, 1 - d), Kid(x, 1 - d));
    MadeCells(y.ptr, y.data, top, 1 - d, Make(x.ptr, x.data, low, d, Kid(y, 1 - d), Kid(x, 1 - d)), Kid(y, d));
  }

  lemma WithKidContents(x: Tree, d: Side, y: Tree)
    requires x.Node? && SameContents(y, Kid(x, d))
    ensures SameContents(WithKid(x, d, y), x)
    ensures Distinct(x) && Distinct(y) ==> Distinct(WithKid(x, d, y))
  {
  }

  lemma FinishedContents(p: Tree, s: Side)
    requires p.Node? && Kid(p, 1 - s).Node?
    ensures SameContents(Finished(p, s), p)
    ensures Distinct(p) ==> Distinct(Finished(p, s))
  {
    var t := Rolled(p, 1 - s, p.color, Black);
    RolledContents(p, 1 - s, p.color, Black);
    WithKidContents(t, 1 - s, Blacken(Kid(t, 1 - s)));
  }

  // ---------- the steps on cells ----------

  lemma ZipUp(h: Cells, root: RbNode?, path: Path, u: Tree)
    requires Zipped(h, root, path, u) && path != []
    ensures Zipped(h, root, Front(path), Up(Last(path), u)) && Plug(Front(path), Up(Last(path), u)) == Plug(path, u)
    ensures FrameRep(h, Last(path), Top(u))
  {
    var f := Last(path);
    assert Ptrs(Up(f, u)) == Ptrs(u) + {f.ptr} + Ptrs(f.sib);
    assert Front(path) != [] ==> Front(path)[0] == path[0];
  }

  /** A subtree is replaced by one of the same cells, and its parent, if any, relinked. */
  lemma Regrow(h: Cells, h': Cells, root: RbNode?, path: Path, t: Tree, t': Tree)
    requires Zipped(h, root, path, t) && t.Node? && t'.Node?
    requires Rep(h', t') && Distinct(t') && Ptrs(t') == Ptrs(t) && Agree(h, h', PathPtrs(path))
    ensures path != [] ==> Last(path).ptr in h'
    ensures root == t.ptr <==> path == []
    ensures Zipped(RelinkCells(h', path, t'.ptr), if path == [] then t'.ptr else root, path, t')
  {
    Apart(path, Ptrs(t));
    RepPathFrame(h, h', path, t.ptr);
    if path != [] {
      PathHead(path);
      assert Last(path).ptr in PathPtrs(path);
      var h2 := RelinkCells(h', path, t'.ptr);
      RepFrame(h', h2, t');
      Relink(h', h2, path, t.ptr, t');
    }
  }

  /** The same where the top cell stays. */
  lemma RegrowInPlace(h: Cells, h': Cells, root: RbNode?, path: Path, t: Tree, t': Tree)
    requires Zipped(h, root, path, t) && Top(t') == Top(t)
    requires Rep(h', t') && Distinct(t') && Ptrs(t') == Ptrs(t) && Agree(h, h', PathPtrs(path))
    ensures Zipped(h', root, path, t')
  {
    RepPathFrame(h, h', path, Top(t));
  }

  /** The writes of lines 214-217 and 238-241, which insertion makes too. */
  lemma TurnCells(h: Cells, x: Tree, d: Side)
    requires Rep(h, x) && Distinct(x) && x.Node? && Kid(x, d).Node?
    ensures x.ptr in h && Kid(x, d).ptr in h && Link(h[x.ptr], d) == Kid(x, d).ptr
    ensures var h' := RotateCells(h, x.ptr, Kid(x, d).ptr, d);
      Rep(h', Rolled(x, d, Black, Red)) && h'.Keys == h.Keys && (forall n :: n in h && n !in Ptrs(x) ==> h'[n] == h[n])
  {
    hide Rep, Ptrs, Distinct;
    var y := Kid(x, d);
    NodeCells(x, d);
    NodeCells(y, d);
    NodeRep(h, x, d);
    NodeRep(h, y, d);
    var h', t := RotateCells(h, x.ptr, y.ptr, d), Rolled(x, d, Black, Red);
    RepFrame(h, h', Kid(y, d));
    RepFrame(h, h', Kid(y, 1 - d));
    RepFrame(h, h', Kid(x, 1 - d));
    NodeRep(h', Kid(t, 1 - d), d);
    NodeRep(h', t, d);
  }

  /** The writes of lines 244-248. */
  function FinishCells(h: Cells, p: RbNode, r: RbNode, far: RbNode, s: Side): Cells
    requires p in h && r in h && far in h
  {
    var c := SetColor(SetColor(SetColor(h, r, h[p].color), p, Black), far, Black);
    SetLink(SetLink(c, p, 1 - s, Link(h[r], s)), r, s, p)
  }

  lemma FinishedCells(h: Cells, p: Tree, s: Side)
    requires Rep(h, p) && Distinct(p) && p.Node? && Kid(p, 1 - s).Node? && Kid(Kid(p, 1 - s), 1 - s).Node?
    ensures p.ptr in h && Kid(p, 1 - s).ptr in h && Kid(Kid(p, 1 - s), 1 - s).ptr in h
    ensures Link(h[Kid(p, 1 - s).ptr], 1 - s) == Kid(Kid(p, 1 - s), 1 - s).ptr
    ensures p.ptr != Kid(p, 1 - s).ptr && Kid(p, 1 - s).ptr != Kid(Kid(p, 1 - s), 1 - s).ptr
    ensures var h' := FinishCells(h, p.ptr, Kid(p, 1 - s).ptr, Kid(Kid(p, 1 - s), 1 - s).ptr, s);
      Rep(h', Finished(p, s)) && h'.Keys == h.Keys && (forall n :: n in h && n !in Ptrs(p) ==> h'[n] == h[n])
  {
    hide Rep, Ptrs, Distinct;
    var r := Kid(p, 1 - s);
    var far := Kid(r, 1 - s);
    NodeCells(p, s);
    NodeCells(r, s);
    NodeCells(far, s);
    NodeRep(h, p, s);
    NodeRep(h, r, s);
    NodeRep(h, far, s);
    var h', t := FinishCells(h, p.ptr, r.ptr, far.ptr, s), Finished(p, s);
    RepFrame(h, h', Kid(far, s));
    RepFrame(h, h', Kid(far, 1 - s));
    RepFrame(h, h', Kid(r, s));
    RepFrame(h, h', Kid(p, s));
    NodeRep(h', Kid(t, 1 - s), s);
    NodeRep(h', Kid(t, s), s);
    NodeRep(h', t, s);
  }

  /** Line 234: the sibling turns red. */
  lemma ReddenCells(h: Cells, p: Tree, d: Side)
    requires Rep(h, p) && Distinct(p) && p.Node? && Kid(p, d).Node?
    ensures Kid(p, d).ptr in h
    ensures var h', t := SetColor(h, Kid(p, d).ptr, Red), WithKid(p, d, Redden(Kid(p, d)));
      && Rep(h', t) && Distinct(t) && SameContents(t, p)
      && h'.Keys == h.Keys && (forall n :: n in h && n !in Ptrs(p) ==> h'[n] == h[n])
  {
    var r := Kid(p, d);
    var h' := SetColor(h, r.ptr, Red);
    assert r.ptr in Ptrs(r);
    RepFrame(h, h', r.left);
    RepFrame(h, h', r.right);
    RepFrame(h, h', Kid(p, 1 - d));
    WithKidContents(p, d, Redden(r));
  }

  /** What the code reads of the sibling and its children. */
  lemma SiblingRep(h: Cells, t: Tree, s: Side)
    requires Rep(h, t) && Distinct(t) && t.Node? && Kid(t, 1 - s).Node?
    ensures var r := Kid(t, 1 - s);
      && t.ptr in h && r.ptr in h && h[r.ptr].color == r.color && Link(h[t.ptr], 1 - s) == r.ptr
      && Link(h[r.ptr], s) == Top(Kid(r, s)) && Link(h[r.ptr], 1 - s) == Top(Kid(r, 1 - s))
      && (forall d: Side :: Kid(r, d).Node? ==> Kid(r, d).ptr in h && h[Kid(r, d).ptr].color == Kid(r, d).color)
  {
    var r := Kid(t, 1 - s);
    NodeRep(h, t, s);
    NodeRep(h, r, s);
    forall d: Side | Kid(r, d).Node? ensures Kid(r, d).ptr in h && h[Kid(r, d).ptr].color == Kid(r, d).color {
      NodeRep(h, r, d);
    }
  }

  // ---------- what the steps do to the missing black node ----------

  /** A black sibling without red kids turns red: the node is now missing one level up. */
  lemma MovesUp(path: Path, u: Tree)
    requires Lacking(path, u) && |path| >= 2 && ColorOf(u) == Black
    requires ColorOf(Last(path).sib) == Black && !HasRedKid(Last(path).sib)
    ensures Last(path).sib.Node?
    ensures var d, t := Last(path).dir, Family(path, u);
      Lacking(Front(path), WithKid(t, 1 - d, Redden(Last(path).sib)))
  {
    var f := Last(path);
    var r := f.sib;
    assert BlackHeight(r) >= 1;
    NodeColors(r, 0);
    NodeColors(Redden(r), 0);
    MadeColors(f.ptr, f.data, f.color, 1 - f.dir, Redden(r), u);
    MadeColors(f.ptr, f.data, Black, 1 - f.dir, Redden(r), u);
    var t := WithKid(Family(path, u), 1 - f.dir, Redden(r));
    assert t == Make(f.ptr, f.data, f.color, 1 - f.dir, Redden(r), u);
    assert Blacken(t) == Make(f.ptr, f.data, Black, 1 - f.dir, Redden(r), u);
    assert BlackHeight(t) == BlackHeight(u) + Blacks(f.color);
    WeakenPath(Front(path), f.color);
  }

  lemma SiblingAboveLacks(path: Path, u: Tree)
    requires Lacking(path, u) && |path| >= 2 && ColorOf(u) == Black && ColorOf(Last(path).sib) == Red
    ensures var q := SiblingAbove(path);
      && Lacking(q, u) && Last(q).sib.Node? && ColorOf(Last(q).sib) == Black && Last(q).color == Red
      && Last(q).dir == Last(Front(q)).dir == Last(path).dir
      && Family(Front(q), Family(q, u)) == Rolled(Family(path, u), 1 - Last(path).dir, Black, Red)
      && Front(Front(q)) == Front(path)
  {
    var q, f := SiblingAbove(path), Last(path);
    assert Front(Front(q)) == Front(path);
    assert BlackHeight(f.sib) >= 1;
    assert BlackHeight(Kid(f.sib, 0)) == BlackHeight(Kid(f.sib, 1)) == BlackHeight(u) + 1;
  }

  lemma NudgedIs(p: Tree, s: Side)
    requires p.Node? && HasRedKid(Kid(p, 1 - s)) && Balanced(p.left) && Balanced(p.right)
    requires NoRedRed(p.left) && NoRedRed(p.right) && ColorOf(Kid(p, 1 - s)) == Black
    ensures var t := Nudged(p, s);
      && t.Node? && t.color == p.color && t.ptr == p.ptr && Kid(t, s) == Kid(p, s)
      && Kid(t, 1 - s).Node? && ColorOf(Kid(Kid(t, 1 - s), 1 - s)) == Red && ColorOf(Kid(t, 1 - s)) == Black
      && Balanced(Kid(t, 1 - s)) && BlackHeight(Kid(t, 1 - s)) == BlackHeight(Kid(p, 1 - s)) && NoRedRed(Kid(t, 1 - s))
  {
  }

  lemma FinishedColors(p: Tree, s: Side)
    requires p.Node? && Kid(p, 1 - s).Node? && ColorOf(Kid(p, 1 - s)) == Black
    requires ColorOf(Kid(Kid(p, 1 - s), 1 - s)) == Red
    requires Balanced(Kid(p, s)) && Balanced(Kid(p, 1 - s)) && NoRedRed(Kid(p, s)) && NoRedRed(Kid(p, 1 - s))
    requires BlackHeight(Kid(p, 1 - s)) == BlackHeight(Kid(p, s)) + 1
    ensures var t := Finished(p, s);
      Balanced(t) && NoRedRed(t) && t.color == p.color && BlackHeight(t) == BlackHeight(Kid(p, s)) + 1 + Blacks(p.color)
  {
    hide Balanced, BlackHeight, NoRedRed;
    var r := Kid(p, 1 - s);
    var far, low := Kid(r, 1 - s), Make(p.ptr, p.data, Black, 1 - s, Kid(r, s), Kid(p, s));
    NodeColors(r, s);
    NodeColors(far, s);
    NodeColors(Blacken(far), s);
    MadeColors(p.ptr, p.data, Black, 1 - s, Kid(r, s), Kid(p, s));
    MadeColors(r.ptr, r.data, p.color, s, low, Blacken(far));
    MadeColors(r.ptr, r.data, p.color, 1 - s, Blacken(far), low);
  }

  lemma LackingParts(path: Path, u: Tree)
    requires Lacking(path, u) && ColorOf(u) == Black
    ensures var f := Last(path);
      && NoRedRed(u) && NoRedRed(f.sib) && NoRedRedPath(Front(path), f.color)
      && Balanced(u) && Balanced(f.sib) && BlackHeight(f.sib) == BlackHeight(u) + 1
      && BalancedPath(Front(path), BlackHeight(u) + 1 + Blacks(f.color))
  {
    assert u == Blacken(u);
  }

  /** On the right side a red nephew ends the repair. */
  lemma RepairsHere(path: Path, u: Tree)
    requires Lacking(path, u) && |path| >= 2 && ColorOf(u) == Black
    requires ColorOf(Last(path).sib) == Black && HasRedKid(Last(path).sib)
    requires Sorted(InOrder(Plug(path, u)))
    ensures var p, s := Family(path, u), Last(path).dir;
      RedBlack(Plug(Front(path), Finished(Nudged(p, s), s)))
  {
    LackingParts(path, u);
    hide Balanced, BlackHeight, NoRedRed, BalancedPath, NoRedRedPath, Nudged, Finished, InOrder, Ptrs;
    var p, s, above := Family(path, u), Last(path).dir, Front(path);
    assert Kid(p, s) == u && Kid(p, 1 - s) == Last(path).sib;
    NudgedIs(p, s);
    var n := Nudged(p, s);
    var t := Finished(n, s);
    FinishedColors(n, s);
    NudgedContents(p, s);
    FinishedContents(n, s);
    PlugCongruence(above, t, p);
    PlugBalanced(above, t);
    PlugNoRedRed(above, t);
    PlugTop(above, t);
  }

  lemma NudgedContents(p: Tree, s: Side)
    requires p.Node? && HasRedKid(Kid(p, 1 - s))
    requires ColorOf(Kid(Kid(p, 1 - s), 1 - s)) == Black ==> Kid(Kid(p, 1 - s), s).Node?
    ensures SameContents(Nudged(p, s), p) && (Distinct(p) ==> Distinct(Nudged(p, s)))
  {
    var r := Kid(p, 1 - s);
    if ColorOf(Kid(r, 1 - s)) == Black {
      RolledContents(r, s, Black, Red);
      WithKidContents(p, 1 - s, Rolled(r, s, Black, Red));
    }
  }

  /** On the wrong side the parent ends with the long subtree and a short one. */
  lemma WrongSideStaysShort(path: Path, u: Tree)
    requires Lacking(path, u) && |path| >= 2 && ColorOf(u) == Black && HasRedKid(u)
    ensures var p, s := Family(path, u), 1 - Last(path).dir;
      !Balanced(Plug(Front(path), Finished(Nudged(p, s), s)))
  {
    var p, s, above := Family(path, u), 1 - Last(path).dir, Front(path);
    NudgedIs(p, s);
    var t := Finished(Nudged(p, s), s);
    assert !Balanced(Kid(t, s));
    PlugBalanced(above, t);
  }

  lemma ZipSibling(h: Cells, root: RbNode?, path: Path, u: Tree, s: Side)
    requires path != [] && Last(path).sib.Node? && s == Last(path).dir
    requires Zipped(h, root, Front(path), Rolled(Family(path, u), 1 - s, Black, Red))
    ensures Zipped(h, root, SiblingAbove(path), u)
  {
    var t := Rolled(Family(path, u), 1 - s, Black, Red);
    DescendCells(h, root, Front(path), t, s);
    DescendCells(h, root, Front(path) + [StepInto(t, s)], Kid(t, s), s);
    assert Front(path) + [StepInto(t, s)] + [StepInto(Kid(t, s), s)] == SiblingAbove(path);
  }

  lemma TopRep(h: Cells, t: Tree, s: Side)
    requires Rep(h, t) && t.Node?
    ensures t.ptr in h && Link(h[t.ptr], 1 - s) == Top(Kid(t, 1 - s))
  {
  }

  // ---------- one round of the loop ----------

  /** Where a round starts: a black open end, and a node where the code looks for the sibling. */
  predicate Round(path: Path, u: Tree, s: Side) {
    && |path| >= 2 && s == Last(Front(path)).dir && ColorOf(u) == Black
    && Kid(Family(path, u), 1 - s).Node?
  }

  /** The missing node is the only defect, and the open end no node that could pass for a sibling
      without red children. */
  ghost predicate Short(path: Path, u: Tree) {
    Lacking(path, u) && (u.Leaf? || ColorOf(u) == Red || HasRedKid(u))
  }

  lemma PlugAbove(path: Path, u: Tree)
    requires path != []
    ensures Plug(path, u) == Plug(Front(path), Family(path, u))
  {
  }

  lemma SiblingAboveShape(path: Path, u: Tree)
    requires path != [] && Last(path).sib.Node?
    ensures var q, s := SiblingAbove(path), Last(path).dir;
      && Front(Front(q)) == Front(path) && |q| == |path| + 1 && Last(q).color == Red
      && Last(q).dir == Last(Front(q)).dir == s && Kid(Family(q, u), 1 - s) == Kid(Last(path).sib, s)
      && Family(Front(q), Family(q, u)) == Rolled(Family(path, u), 1 - s, Black, Red)
  {
    assert Front(Front(SiblingAbove(path))) == Front(path);
  }

  /** Raising a sibling moves no key ... */
  lemma RaisedContents(path: Path, u: Tree, s: Side)
    requires path != []
    ensures var q := Raised(path, s);
      && q != [] && SameContents(Plug(q, u), Plug(path, u)) && |path| <= |q| <= |path| + 1
      && Last(q).dir == Last(path).dir && (q != path ==> Last(q).color == Red)
      && (|path| >= 2 && s == Last(Front(path)).dir ==> s == Last(Front(q)).dir)
  {
    if Raised(path, s) != path {
      var q := SiblingAbove(path);
      SiblingAboveShape(path, u);
      PlugAbove(path, u);
      PlugAbove(q, u);
      PlugAbove(Front(q), Family(q, u));
      RolledContents(Family(path, u), 1 - s, Black, Red);
      PlugCongruence(Front(path), Rolled(Family(path, u), 1 - s, Black, Red), Family(path, u));
    }
  }

  /** ... makes no red-red edge, and brings a black sibling ... */
  lemma RaisedSmooth(path: Path, u: Tree, s: Side)
    requires Round(path, u, s) && Smooth(path, u)
    ensures var q := Raised(path, s);
      Smooth(q, u) && ColorOf(Kid(Family(q, u), 1 - s)) == Black
  {
    if Raised(path, s) != path {
      SiblingAboveShape(path, u);
      assert NoRedRed(Last(path).sib);
      WeakenPath(Front(path), Last(path).color);
      assert NoRedRedPath(Front(SiblingAbove(path)), Red);
    }
  }

  /** ... and leaves the missing node where it was. */
  lemma RaisedShort(path: Path, u: Tree, s: Side)
    requires Round(path, u, s) && Short(path, u)
    ensures Short(Raised(path, s), u) && Round(Raised(path, s), u, s) && Last(Raised(path, s)).sib.Node?
  {
    assert Last(path).sib.Node?;
    if Raised(path, s) != path {
      SiblingAboveLacks(path, u);
      SiblingAboveShape(path, u);
    }
  }

  lemma NudgedRed(p: Tree, s: Side)
    requires p.Node? && HasRedKid(Kid(p, 1 - s)) && ColorOf(Kid(p, 1 - s)) == Black && NoRedRed(Kid(p, 1 - s))
    ensures var t := Nudged(p, s);
      && t.Node? && t.color == p.color && Kid(t, s) == Kid(p, s) && Kid(t, 1 - s).Node? && NoRedRed(Kid(t, 1 - s))
  {
  }

  lemma FinishedRed(p: Tree, s: Side)
    requires p.Node? && Kid(p, 1 - s).Node? && NoRedRed(Kid(p, s)) && NoRedRed(Kid(p, 1 - s))
    ensures NoRedRed(Finished(p, s)) && ColorOf(Finished(p, s)) == p.color
  {
    hide Balanced, BlackHeight, NoRedRed;
    var r := Kid(p, 1 - s);
    var far, low := Kid(r, 1 - s), Make(p.ptr, p.data, Black, 1 - s, Kid(r, s), Kid(p, s));
    NodeColors(r, s);
    Blackened(far);
    MadeColors(p.ptr, p.data, Black, 1 - s, Kid(r, s), Kid(p, s));
    MadeColors(r.ptr, r.data, p.color, s, low, Blacken(far));
    MadeColors(r.ptr, r.data, p.color, 1 - s, Blacken(far), low);
  }

  /** A finished round leaves no red-red edge, whichever the side. */
  lemma FinishedSmooth(q: Path, u: Tree, s: Side)
    requires Smooth(q, u) && ColorOf(u) == Black
    requires HasRedKid(Kid(Family(q, u), 1 - s)) && ColorOf(Kid(Family(q, u), 1 - s)) == Black
    ensures NoRedRed(Plug(Front(q), Finished(Nudged(Family(q, u), s), s)))
    ensures SameContents(Plug(Front(q), Finished(Nudged(Family(q, u), s), s)), Plug(q, u))
  {
    var t := Family(q, u);
    NudgedRed(t, s);
    FinishedRed(Nudged(t, s), s);
    PlugNoRedRed(Front(q), Finished(Nudged(t, s), s));
    FinishedPlug(q, u, s);
  }

  lemma FinishedPlug(q: Path, u: Tree, s: Side)
    requires q != [] && HasRedKid(Kid(Family(q, u), 1 - s))
    ensures SameContents(Plug(Front(q), Finished(Nudged(Family(q, u), s), s)), Plug(q, u))
  {
    var t := Family(q, u);
    NudgedContents(t, s);
    FinishedContents(Nudged(t, s), s);
    PlugAbove(q, u);
    PlugCongruence(Front(q), Finished(Nudged(t, s), s), t);
  }

  /** Reddening the node taken for the sibling moves the focus up. */
  lemma ReddenedSmooth(q: Path, u: Tree, s: Side)
    requires Smooth(q, u) && |q| >= 2 && ColorOf(u) == Black && !HasRedKid(Kid(Family(q, u), 1 - s))
    ensures Smooth(Front(q), WithKid(Family(q, u), 1 - s, Redden(Kid(Family(q, u), 1 - s))))
  {
    WeakenPath(Front(q), Last(q).color);
  }

  lemma ReddenedPlug(q: Path, u: Tree, s: Side)
    requires q != []
    ensures var t := Family(q, u);
      SameContents(Plug(Front(q), WithKid(t, 1 - s, Redden(Kid(t, 1 - s)))), Plug(q, u))
  {
    var t := Family(q, u);
    WithKidContents(t, 1 - s, Redden(Kid(t, 1 - s)));
    PlugAbove(q, u);
    PlugCongruence(Front(q), WithKid(t, 1 - s, Redden(Kid(t, 1 - s))), t);
  }

  /** What a round does, and how the loop will end after it. */
  lemma ClimbRounds(path: Path, u: Tree, s: Side)
    requires Round(path, u, s)
    ensures var q := Raised(path, s);
            var t := Family(q, u);
            var r := Kid(t, 1 - s);
            if r.Leaf? then Climbed(path, u) == Plug(q, u) && Climb(path, OpenOf(u)) == NullSibling
            else if HasRedKid(r) then
              && Climbed(path, u) == Plug(Front(q), Finished(Nudged(t, s), s))
              && Climb(path, OpenOf(u)) == if s == Last(path).dir then Restored else WrongSide
            else
              var v := WithKid(t, 1 - s, Redden(r));
              && Climbed(path, u) == Climbed(Front(q), v) && Climb(path, OpenOf(u)) == Climb(Front(q), OpenOf(v))
              && HasRedKid(v) && (q != path ==> ColorOf(v) == Red)
  {
    hide Nudged, Finished;
    var q := Raised(path, s);
    var t := Family(q, u);
    if q != path { SiblingAboveShape(path, u); }
    ReddenedColor(t, 1 - s);
  }

  // ---------- what the loop leaves behind ----------

  /** The loop moves no key and leaves no red-red edge, however it ends and whatever the black
      counts of the tree. */
  lemma {:induction false} ClimbedLoose(path: Path, u: Tree)
    requires Smooth(path, u)
    ensures NoRedRed(Climbed(path, u)) && SameContents(Climbed(path, u), Plug(path, u))
    decreases |path|, ColorOf(u) == Black
  {
    hide NoRedRed, NoRedRedPath, SameContents, Nudged, Finished, WithKid, Rolled, HasRedKid;
    if ColorOf(u) == Red {
      PaintSmooths(path, u);
    } else if |path| < 2 || Kid(Family(path, u), 1 - Last(Front(path)).dir).Leaf? {
      SmoothPlug(path, u);
    } else {
      var s := Last(Front(path)).dir;
      var q := Raised(path, s);
      var t := Family(q, u);
      RaisedContents(path, u, s);
      RaisedSmooth(path, u, s);
      if Kid(t, 1 - s).Leaf? {
        SmoothPlug(q, u);
      } else if HasRedKid(Kid(t, 1 - s)) {
        FinishedSmooth(q, u, s);
        Transitive(Climbed(path, u), Plug(q, u), Plug(path, u));
      } else {
        var v := WithKid(t, 1 - s, Redden(Kid(t, 1 - s)));
        ReddenedSmooth(q, u, s);
        ReddenedPlug(q, u, s);
        ReddenedColor(t, 1 - s);
        ClimbedLoose(Front(q), v);
        Transitive(Climbed(path, u), Plug(Front(q), v), Plug(q, u));
        Transitive(Climbed(path, u), Plug(q, u), Plug(path, u));
      }
    }
  }

  lemma Transitive(a: Tree, b: Tree, c: Tree)
    requires SameContents(a, b) && SameContents(b, c)
    ensures SameContents(a, c)
  {
  }

  lemma ReddenedColor(t: Tree, d: Side)
    requires t.Node?
    ensures WithKid(t, d, Redden(Kid(t, d))).Node? && ColorOf(WithKid(t, d, Redden(Kid(t, d)))) == t.color
    ensures Kid(t, d).Node? ==> HasRedKid(WithKid(t, d, Redden(Kid(t, d))))
  {
  }

  lemma SmoothPlug(path: Path, u: Tree)
    requires Smooth(path, u) && ColorOf(u) == Black
    ensures NoRedRed(Plug(path, u)) && SameContents(Plug(path, u), Plug(path, u))
  {
    PlugNoRedRed(path, u);
  }

  /** Where only one black node is missing, the loop makes up for it exactly if Climb says so; it
      then has a sibling whenever it looks for one. */
  lemma {:induction false} ClimbedCounts(path: Path, u: Tree)
    requires Short(path, u) && Sorted(InOrder(Plug(path, u)))
    ensures Climb(path, OpenOf(u)) in {Restored, AtRoot, WrongSide}
    ensures if Climb(path, OpenOf(u)) == Restored then RedBlack(Climbed(path, u)) else !Balanced(Climbed(path, u))
    decreases |path|, ColorOf(u) == Black
  {
    hide RedBlack, Balanced, InOrder, Lacking, Nudged, Finished;
    if ColorOf(u) == Red {
      PaintMakesUp(path, u);
    } else {
      StillShort(path, u);
      LackingHasSibling(path, u);
      if |path| >= 2 && Kid(Family(path, u), 1 - Last(Front(path)).dir).Node? {
        var s := Last(Front(path)).dir;
        var q := Raised(path, s);
        var v := WithKid(Family(q, u), 1 - s, Redden(Kid(Family(q, u), 1 - s)));
        ClimbRounds(path, u, s);
        RaisedContents(path, u, s);
        RaisedShort(path, u, s);
        RaisedSmooth(path, u, s);
        if HasRedKid(Kid(Family(q, u), 1 - s)) {
          if s == Last(q).dir { RepairsHere(q, u); } else { WrongSideStaysShort(q, u); }
        } else {
          MovesUp(q, u);
          ReddenedPlug(q, u, s);
          ClimbedCounts(Front(q), v);
        }
      }
    }
  }

  lemma LackingHasSibling(path: Path, u: Tree)
    requires Lacking(path, u)
    ensures Smooth(path, u) && Last(path).sib.Node?
  {
  }

  // ---------- pictures ----------

  /** On the right side, with a black sibling: a red far nephew is blackened and stays where it is,
      whatever the near one is. */
  lemma FarNephewTurns(path: Path, u: Tree)
    requires |path| >= 2 && Last(path).dir == Last(Front(path)).dir && ColorOf(u) == Black
    requires var f := Last(path);
      f.sib.Node? && f.sib.color == Black && ColorOf(Kid(f.sib, 1 - f.dir)) == Red
    ensures var f, r := Last(path), Last(path).sib;
      Climbed(path, u) == Plug(Front(path),
        Make(r.ptr, r.data, f.color, f.dir,
             Make(f.ptr, f.data, Black, f.dir, u, Kid(r, f.dir)), Blacken(Kid(r, 1 - f.dir))))
  {
  }

  /** A near nephew that alone is red comes to the top, the sibling below it on the far side. */
  lemma NearNephewTurns(path: Path, u: Tree)
    requires |path| >= 2 && Last(path).dir == Last(Front(path)).dir && ColorOf(u) == Black
    requires var f := Last(path);
      && f.sib.Node? && f.sib.color == Black
      && ColorOf(Kid(f.sib, 1 - f.dir)) == Black && ColorOf(Kid(f.sib, f.dir)) == Red
    ensures var f, r := Last(path), Last(path).sib;
      var q := Kid(r, f.dir);
      Climbed(path, u) == Plug(Front(path),
        Make(q.ptr, q.data, f.color, f.dir,
             Make(f.ptr, f.data, Black, f.dir, u, Kid(q, f.dir)),
             Make(r.ptr, r.data, Black, f.dir, Kid(q, 1 - f.dir), Kid(r, 1 - f.dir))))
  {
  }

  /** Without red nephews parent and sibling change colours, if the parent is red. */
  lemma RedParentSwaps(path: Path, u: Tree)
    requires |path| >= 2 && Last(path).dir == Last(Front(path)).dir && ColorOf(u) == Black
    requires var f := Last(path);
      f.sib.Node? && f.sib.color == Black && !HasRedKid(f.sib) && f.color == Red
    ensures var f, r := Last(path), Last(path).sib;
      Climbed(path, u) == Plug(Front(path), Make(f.ptr, f.data, Black, f.dir, u, r.(color := Red)))
  {
    var f := Last(path);
    var v := WithKid(Family(path, u), 1 - f.dir, Redden(f.sib));
    ClimbRounds(path, u, f.dir);
    assert v == Make(f.ptr, f.data, Red, f.dir, u, Redden(f.sib));
    assert Climbed(Front(path), v) == Plug(Front(path), Blacken(v));
  }

  /** A red sibling comes above the parent; if its near child has no red children, that one is then
      red below the black parent. */
  lemma RedSiblingTurns(path: Path, u: Tree)
    requires |path| >= 2 && Last(path).dir == Last(Front(path)).dir && ColorOf(u) == Black
    requires var f := Last(path);
      f.sib.Node? && f.sib.color == Red && Kid(f.sib, f.dir).Node? && !HasRedKid(Kid(f.sib, f.dir))
    ensures var f, r := Last(path), Last(path).sib;
      Climbed(path, u) == Plug(Front(path),
        Make(r.ptr, r.data, Black, f.dir,
             Make(f.ptr, f.data, Black, f.dir, u, Redden(Kid(r, f.dir))), Kid(r, 1 - f.dir)))
  {
    var f, q := Last(path), SiblingAbove(path);
    var v := WithKid(Family(q, u), 1 - f.dir, Redden(Kid(f.sib, f.dir)));
    ClimbRounds(path, u, f.dir);
    SiblingAboveShape(path, u);
    assert v == Make(f.ptr, f.data, Red, f.dir, u, Redden(Kid(f.sib, f.dir)));
    assert Climbed(Front(q), v) == Plug(Front(q), Blacken(v));
    PlugAbove(Front(q), Blacken(v));
  }

  // ---------- the loop on cells ----------

  /** The head of the loop: from (path0, u0) it has come to (path, u). */
  ghost predicate Climbing(h: Cells, root: RbNode?, path: Path, u: Tree, path0: Path, u0: Tree) {
    && path != [] && Zipped(h, root, path, u)
    && Climbed(path, u) == Climbed(path0, u0) && Climb(path, OpenOf(u)) == Climb(path0, OpenOf(u0))
  }

  lemma Whole(h: Cells, root: RbNode?, path: Path, u: Tree)
    requires Zipped(h, root, path, u)
    ensures Zipped(h, root, [], Plug(path, u))
  {
    Unzip(h, root, path, u);
  }

  /** What the code reads at the head of the loop, and where it stops there. */
  lemma ClimbingRep(h: Cells, root: RbNode?, path: Path, u: Tree, path0: Path, u0: Tree)
    requires Climbing(h, root, path, u, path0, u0)
    ensures FrameRep(h, Last(path), Top(u))
    ensures u.Node? ==> u.ptr in h && h[u.ptr].color == u.color
    ensures ColorOf(u) == Red ==> Climb(path0, OpenOf(u0)) == Restored
    ensures ColorOf(u) == Black && |path| < 2 ==>
              Climb(path0, OpenOf(u0)) == AtRoot && Zipped(h, root, [], Climbed(path0, u0))
    ensures ColorOf(u) == Black && |path| >= 2 && Kid(Family(path, u), 1 - Last(Front(path)).dir).Leaf? ==>
              && Climb(path0, OpenOf(u0)) == (if Last(Front(path)).dir == Last(path).dir then NoSibling else WrongSide)
              && Zipped(h, root, [], Climbed(path0, u0))
  {
    Whole(h, root, path, u);
  }

  /** Line 199-201. */
  lemma ClimbPaints(h: Cells, root: RbNode?, path: Path, u: Tree, path0: Path, u0: Tree)
    requires Climbing(h, root, path, u, path0, u0) && ColorOf(u) == Red
    ensures u.ptr in h && Zipped(SetColor(h, u.ptr, Black), root, [], Climbed(path0, u0))
  {
    var h' := SetColor(h, u.ptr, Black);
    PaintCells(h, u);
    Apart(path, Ptrs(u));
    RepPathFrame(h, h', path, u.ptr);
    assert Ptrs(Blacken(u)) == Ptrs(u);
    Whole(h', root, path, Blacken(u));
  }
}
