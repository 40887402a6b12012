/** schproj/rbt.c over heap cells: which trees a snapshot of the cells holds,
    and what one repair step does to tree and cells alike. */
module RbTreeCells {
  import opened RbTreeModel

  datatype Cell = Cell(data: int32, color: Color, link0: RbNode?, link1: RbNode?)

  /** A snapshot of the heap. */
  type Cells = map<RbNode, Cell>

  ghost function Snap(nodes: set<RbNode>): (h: Cells)
    reads nodes
    ensures h.Keys == nodes
  {
    map n | n in nodes :: Cell(n.data, n.color, n.link[0], n.link[1])
  }

  function SetColor(h: Cells, n: RbNode, c: Color): Cells
    requires n in h
  {
    h[n := h[n].(color := c)]
  }

  function SetLink(h: Cells, n: RbNode, d: Side, q: RbNode?): Cells
    requires n in h
  {
    h[n := if d == 0 then h[n].(link0 := q) else h[n].(link1 := q)]
  }

  function Link(c: Cell, d: Side): RbNode? {
    if d == 0 then c.link0 else c.link1
  }

  /** The cells of `t` hold what `t` says. */
  ghost predicate Rep(h: Cells, t: Tree) {
    t.Node? ==>
      && t.ptr in h && h[t.ptr] == Cell(t.data, t.color, Top(t.left), Top(t.right))
      && Rep(h, t.left) && Rep(h, t.right)
  }

  lemma NodeRep(h: Cells, t: Tree, d: Side)
    requires t.Node?
    ensures Rep(h, t) <==>
              && t.ptr in h && h[t.ptr].data == t.data && h[t.ptr].color == t.color
              && Link(h[t.ptr], d) == Top(Kid(t, d)) && Link(h[t.ptr], 1 - d) == Top(Kid(t, 1 - d))
              && Rep(h, Kid(t, d)) && Rep(h, Kid(t, 1 - d))
  {
  }

  /** What the cell of a path node holds when the path goes on to `p`. */
  ghost predicate FrameRep(h: Cells, f: Frame, p: RbNode?) {
    && f.ptr in h && h[f.ptr].data == f.data && h[f.ptr].color == f.color
    && Link(h[f.ptr], f.dir) == p && Link(h[f.ptr], 1 - f.dir) == Top(f.sib)
    && Rep(h, f.sib)
  }

  /** The cells along `path` hold what it says, and its open end links to `p`. */
  ghost predicate RepPath(h: Cells, path: Path, p: RbNode?) {
    path != [] ==> FrameRep(h, Last(path), p) && RepPath(h, Front(path), Last(path).ptr)
  }

  function RootOf(path: Path, p: RbNode?): RbNode? {
    if path == [] then p else path[0].ptr
  }

  /** The cells hold the tree Plug(path, t), whose root is `root`. */
  ghost predicate Zipped(h: Cells, root: RbNode?, path: Path, t: Tree) {
    && root == RootOf(path, Top(t))
    && Rep(h, t) && RepPath(h, path, Top(t))
    && Distinct(t) && DistinctPath(path, Ptrs(t))
  }

  ghost predicate Agree(h: Cells, h': Cells, nodes: set<RbNode>) {
    forall n :: n in nodes && n in h ==> n in h' && h'[n] == h[n]
  }

  lemma {:induction false} RepFrame(h: Cells, h': Cells, t: Tree)
    requires Rep(h, t) && Agree(h, h', Ptrs(t))
    ensures Rep(h', t)
  {
    if t.Node? {
      RepFrame(h, h', t.left);
      RepFrame(h, h', t.right);
    }
  }

  lemma {:induction false} RepPathFrame(h: Cells, h': Cells, path: Path, p: RbNode?)
    requires RepPath(h, path, p) && Agree(h, h', PathPtrs(path))
    ensures RepPath(h', path, p)
  {
    if path != [] {
      RepFrame(h, h', Last(path).sib);
      RepPathFrame(h, h', Front(path), Last(path).ptr);
    }
  }

  lemma {:induction false} PlugRep(h: Cells, path: Path, t: Tree)
    requires Rep(h, t) && RepPath(h, path, Top(t))
    ensures Rep(h, Plug(path, t))
  {
    if path != [] {
      PlugRep(h, Front(path), Up(Last(path), t));
    }
  }

  lemma Unzip(h: Cells, root: RbNode?, path: Path, t: Tree)
    requires Zipped(h, root, path, t)
    ensures root == Top(Plug(path, t)) && Rep(h, Plug(path, t)) && Distinct(Plug(path, t))
  {
    PlugRep(h, path, t);
    PlugTop(path, t);
    PlugDistinct(path, t);
  }

  lemma {:induction false} Apart(path: Path, below: set<RbNode>)
    requires DistinctPath(path, below)
    ensures PathPtrs(path) !! below
  {
    if path != [] {
      var f := Last(path);
      Apart(Front(path), below + {f.ptr} + Ptrs(f.sib));
    }
  }

  /** Linking another tree of the same cells into the open end of a path. */
  lemma Relink(h: Cells, h': Cells, path: Path, p: RbNode?, u: Tree)
    requires path != [] && RepPath(h, path, p) && DistinctPath(path, Ptrs(u))
    requires Last(path).ptr in h
    requires Agree(SetLink(h, Last(path).ptr, Last(path).dir, Top(u)), h', PathPtrs(path))
    ensures RepPath(h', path, Top(u))
  {
    var f := Last(path);
    Apart(path, Ptrs(u));
    Apart(Front(path), Ptrs(u) + {f.ptr} + Ptrs(f.sib));
    RepFrame(h, h', f.sib);
    RepPathFrame(h, h', Front(path), f.ptr);
  }

  // ---------- one repair step, on tree values ----------

  /** The subtree at the open end of `path` is red and sound, and the only
      possible defect is that its parent is red too. */
  ghost predicate RedFocus(path: Path, t: Tree) {
    ColorOf(t) == Red && NoRedRed(t) && NoRedRedPath(path, Black)
  }

  function Grand(path: Path): Frame
    requires |path| >= 2
  {
    path[|path| - 2]
  }

  function Above(path: Path): Path
    requires |path| >= 2
  {
    Front(Front(path))
  }

  /** The parent of the open end is red, so its grandparent is black. */
  ghost predicate Defect(path: Path, t: Tree) {
    |path| >= 2 && RedFocus(path, t) && Last(path).color == Red
  }

  /** Red uncle: the grandparent turns red, its two children black. */
  function Recoloured(path: Path, t: Tree): Tree
    requires |path| >= 2
  {
    var g, p := Grand(path), Last(path);
    Make(g.ptr, g.data, Red, g.dir, Make(p.ptr, p.data, Black, p.dir, t, p.sib), Blacken(g.sib))
  }

  /** Inner grandchild: `t` and its parent change places. */
  function StraightPath(path: Path, t: Tree): Path
    requires |path| >= 2 && t.Node?
  {
    var d := Grand(path).dir;
    Front(path) + [Frame(t.ptr, t.data, t.color, d, Kid(t, 1 - d))]
  }

  function StraightTree(path: Path, t: Tree): Tree
    requires |path| >= 2 && t.Node?
  {
    var d, p := Grand(path).dir, Last(path);
    Make(p.ptr, p.data, p.color, d, p.sib, Kid(t, d))
  }

  /** Outer grandchild: the parent takes the grandparent's place. */
  function Rotated(path: Path, t: Tree): Tree
    requires |path| >= 2
  {
    var g, p := Grand(path), Last(path);
    Make(p.ptr, p.data, Black, g.dir, t, Make(g.ptr, g.data, Red, g.dir, p.sib, g.sib))
  }

  /** Same keys in the same order, and the same cells. */
  ghost predicate SameContents(s: Tree, t: Tree) {
    InOrder(s) == InOrder(t) && Ptrs(s) == Ptrs(t)
  }

  lemma PlugCongruence(path: Path, s: Tree, t: Tree)
    requires SameContents(s, t)
    ensures SameContents(Plug(path, s), Plug(path, t))
  {
    PlugInOrder(path, s);
    PlugInOrder(path, t);
    PlugPtrs(path, s);
    PlugPtrs(path, t);
  }

  /** The same contents, and the same black counts if either has equal ones. */
  ghost predicate Alike(s: Tree, t: Tree) {
    && SameContents(s, t)
    && (Balanced(s) <==> Balanced(t)) && (Balanced(s) ==> BlackHeight(s) == BlackHeight(t))
  }

  lemma {:induction false} PlugAlike(path: Path, s: Tree, t: Tree)
    requires Alike(s, t)
    ensures Alike(Plug(path, s), Plug(path, t))
  {
    if path != [] {
      hide Balanced, BlackHeight;
      var f := Last(path);
      MadeColors(f.ptr, f.data, f.color, f.dir, s, f.sib);
      MadeColors(f.ptr, f.data, f.color, f.dir, t, f.sib);
      PlugAlike(Front(path), Up(f, s), Up(f, t));
    }
  }

  lemma PlugTwice(path: Path, t: Tree)
    requires |path| >= 2
    ensures Plug(path, t) == Plug(Above(path), Up(Grand(path), Up(Last(path), t)))
  {
    assert Last(Front(path)) == Grand(path);
  }

  /** Above a red node with a black path end the path is sound. */
  lemma DefectFrames(path: Path, t: Tree)
    requires Defect(path, t)
    ensures var g, p := Grand(path), Last(path);
      && g.color == Black && NoRedRed(g.sib) && NoRedRed(p.sib) && ColorOf(p.sib) == Black
      && NoRedRedPath(Above(path), Black) && NoRedRedPath(Front(path), Red)
  {
    assert NoRedRedPath(Front(path), Red);
    assert Last(Front(path)) == Grand(path);
  }

  lemma RecolourStep(path: Path, t: Tree)
    requires Defect(path, t) && ColorOf(Grand(path).sib) == Red
    ensures RedFocus(Above(path), Recoloured(path, t))
    ensures Alike(Plug(Above(path), Recoloured(path, t)), Plug(path, t))
  {
    hide Balanced, BlackHeight, NoRedRed, NoRedRedPath, InOrder;
    var g, p, q := Grand(path), Last(path), Up(Last(path), t);
    PlugTwice(path, t);
    DefectFrames(path, t);
    RecolourContents(path, t);
    MadeColors(p.ptr, p.data, Red, p.dir, t, p.sib);
    MadeColors(p.ptr, p.data, Black, p.dir, t, p.sib);
    NodeColors(g.sib, 0);
    NodeColors(Blacken(g.sib), 0);
    MadeColors(g.ptr, g.data, Black, g.dir, q, g.sib);
    MadeColors(g.ptr, g.data, Red, g.dir, Make(p.ptr, p.data, Black, p.dir, t, p.sib), Blacken(g.sib));
    PlugAlike(Above(path), Recoloured(path, t), Up(g, q));
  }

  lemma RecolourContents(path: Path, t: Tree)
    requires |path| >= 2
    ensures SameContents(Recoloured(path, t), Up(Grand(path), Up(Last(path), t)))
  {
  }

  lemma StraightStep(path: Path, t: Tree)
    requires Defect(path, t) && Last(path).dir != Grand(path).dir
    ensures var q, u := StraightPath(path, t), StraightTree(path, t);
      && Defect(q, u) && Last(q).dir == Grand(q).dir && Front(q) == Front(path)
      && Alike(Plug(q, u), Plug(path, t))
  {
    hide Balanced, BlackHeight, NoRedRed, InOrder;
    var d, p := Grand(path).dir, Last(path);
    var q, u := StraightPath(path, t), StraightTree(path, t);
    assert Front(q) == Front(path);
    StraightContents(path, t);
    NodeColors(t, d);
    MadeColors(p.ptr, p.data, Red, p.dir, t, p.sib);
    MadeColors(p.ptr, p.data, Red, d, p.sib, Kid(t, d));
    MadeColors(t.ptr, t.data, Red, d, u, Kid(t, 1 - d));
    PlugAlike(Front(path), Up(Last(q), u), Up(Last(path), t));
  }

  lemma StraightContents(path: Path, t: Tree)
    requires |path| >= 2 && t.Node? && Last(path).dir != Grand(path).dir
    ensures SameContents(Up(Last(StraightPath(path, t)), StraightTree(path, t)), Up(Last(path), t))
  {
  }

  lemma RotateStep(path: Path, t: Tree)
    requires Defect(path, t) && ColorOf(Grand(path).sib) == Black && Last(path).dir == Grand(path).dir
    ensures var u := Plug(Above(path), Rotated(path, t));
      u.Node? && NoRedRed(u) && Alike(u, Plug(path, t))
  {
    hide Balanced, BlackHeight, NoRedRed, NoRedRedPath, InOrder;
    var g, p, u, q := Grand(path), Last(path), Rotated(path, t), Up(Last(path), t);
    var low := Make(g.ptr, g.data, Red, g.dir, p.sib, g.sib);
    PlugTwice(path, t);
    DefectFrames(path, t);
    RotateContents(path, t);
    MadeColors(p.ptr, p.data, Red, p.dir, t, p.sib);
    MadeColors(g.ptr, g.data, Black, g.dir, q, g.sib);
    MadeColors(g.ptr, g.data, Red, g.dir, p.sib, g.sib);
    MadeColors(p.ptr, p.data, Black, g.dir, t, low);
    PlugAlike(Above(path), u, Up(g, q));
    PlugNoRedRed(Above(path), u);
    PlugTop(Above(path), u);
  }

  lemma RotateContents(path: Path, t: Tree)
    requires |path| >= 2 && Last(path).dir == Grand(path).dir
    ensures SameContents(Rotated(path, t), Up(Grand(path), Up(Last(path), t)))
  {
  }

  // ---------- the same step on cells ----------

  /** The cells one repair step can touch. */
  ghost function Local(path: Path, t: Tree): set<RbNode>
    requires |path| >= 2
  {
    var g, p := Grand(path), Last(path);
    Ptrs(t) + {p.ptr} + Ptrs(p.sib) + {g.ptr} + Ptrs(g.sib)
  }

  lemma LocalApart(path: Path, t: Tree)
    requires |path| >= 2 && DistinctPath(path, Ptrs(t))
    ensures var g, p := Grand(path), Last(path);
      && p.ptr !in Ptrs(t) && p.ptr !in Ptrs(p.sib) && Ptrs(p.sib) !! Ptrs(t) && Distinct(p.sib)
      && g.ptr !in Ptrs(t) && g.ptr !in Ptrs(p.sib) && g.ptr != p.ptr && g.ptr !in Ptrs(g.sib)
      && p.ptr !in Ptrs(g.sib) && Ptrs(g.sib) !! Ptrs(t) && Ptrs(g.sib) !! Ptrs(p.sib) && Distinct(g.sib)
    ensures DistinctPath(Above(path), Local(path, t)) && PathPtrs(Above(path)) !! Local(path, t)
  {
    assert Last(Front(path)) == Grand(path);
    Apart(Above(path), Local(path, t));
  }

  lemma LocalRep(h: Cells, root: RbNode?, path: Path, t: Tree)
    requires Zipped(h, root, path, t) && |path| >= 2
    ensures FrameRep(h, Last(path), Top(t)) && FrameRep(h, Grand(path), Last(path).ptr)
    ensures RepPath(h, Above(path), Grand(path).ptr)
  {
    assert Last(Front(path)) == Grand(path);
    assert RepPath(h, Front(path), Last(path).ptr);
  }

  lemma RecolourApart(path: Path, t: Tree)
    requires |path| >= 2 && Distinct(t) && DistinctPath(path, Ptrs(t))
    ensures Ptrs(Recoloured(path, t)) == Local(path, t) && Distinct(Recoloured(path, t))
  {
    LocalApart(path, t);
    assert Ptrs(Kid(Recoloured(path, t), Grand(path).dir)) == Ptrs(t) + {Last(path).ptr} + Ptrs(Last(path).sib);
    assert Ptrs(Blacken(Grand(path).sib)) == Ptrs(Grand(path).sib);
  }

  lemma SplitPtrs(t: Tree)
    requires Distinct(t) && t.Node?
    ensures t.ptr !in Ptrs(t.left) && t.ptr !in Ptrs(t.right) && Ptrs(t) == Ptrs(t.left) + {t.ptr} + Ptrs(t.right)
  {
  }

  lemma RecolourCells(h: Cells, root: RbNode?, path: Path, t: Tree)
    requires Zipped(h, root, path, t) && |path| >= 2 && Grand(path).sib.Node?
    ensures Grand(path).ptr in h && Last(path).ptr in h && Grand(path).sib.ptr in h
    ensures var h' := SetColor(SetColor(h, Grand(path).ptr, Red), Grand(path).sib.ptr, Black);
            Zipped(SetColor(h', Last(path).ptr, Black), root, Above(path), Recoloured(path, t))
  {
    hide Rep, RepPath, Ptrs;
    LocalRep(h, root, path, t);
    LocalApart(path, t);
    RecolourApart(path, t);
    hide Distinct, DistinctPath, PathPtrs;
    var g, p := Grand(path), Last(path);
    NodeRep(h, g.sib, 0);
    var h' := SetColor(SetColor(SetColor(h, g.ptr, Red), g.sib.ptr, Black), p.ptr, Black);
    SplitPtrs(g.sib);
    RepFrame(h, h', t);
    RepFrame(h, h', p.sib);
    RepFrame(h, h', g.sib.left);
    RepFrame(h, h', g.sib.right);
    RepPathFrame(h, h', Above(path), g.ptr);
    NodeRep(h', Blacken(g.sib), 0);
    NodeRep(h', Kid(Recoloured(path, t), g.dir), p.dir);
    NodeRep(h', Recoloured(path, t), g.dir);
  }

  /** The writes of rbt.c:63-67 (mirrored: 91-95). */
  function StraightenCells(h: Cells, g: RbNode, x: RbNode, y: RbNode, d: Side): Cells
    requires g in h && x in h && y in h
  {
    SetLink(SetLink(SetLink(h, x, 1 - d, Link(h[y], d)), y, d, x), g, d, y)
  }

  /** The writes of rbt.c:70-73 (mirrored: 98-101). */
  function RotateCells(h: Cells, x: RbNode, y: RbNode, d: Side): Cells
    requires x in h && y in h
  {
    var c := SetColor(SetColor(h, x, Red), y, Black);
    SetLink(SetLink(c, x, d, Link(h[y], 1 - d)), y, 1 - d, x)
  }

  /** Both trees below the grandparent, inside out. */
  lemma StraightPtrs(path: Path, t: Tree)
    requires |path| >= 2 && t.Node? && Distinct(t) && DistinctPath(path, Ptrs(t))
    ensures var q, u := StraightPath(path, t), StraightTree(path, t);
      && Distinct(u) && Ptrs(u) == {Last(path).ptr} + Ptrs(Last(path).sib) + Ptrs(Kid(t, Grand(path).dir))
      && Ptrs(u) + {t.ptr} + Ptrs(Kid(t, 1 - Grand(path).dir)) == Ptrs(t) + {Last(path).ptr} + Ptrs(Last(path).sib)
      && t.ptr !in Ptrs(u) && Ptrs(Kid(t, 1 - Grand(path).dir)) !! Ptrs(u)
      && Distinct(Kid(t, 1 - Grand(path).dir)) && t.ptr !in Ptrs(Kid(t, 1 - Grand(path).dir))
  {
    hide Ptrs, Distinct, PathPtrs;
    var p, d := Last(path), Grand(path).dir;
    LocalApart(path, t);
    hide DistinctPath;
    NodeCells(t, d);
    MadeCells(p.ptr, p.data, p.color, d, p.sib, Kid(t, d));
  }

  lemma StraightApart(path: Path, t: Tree)
    requires |path| >= 2 && t.Node? && Distinct(t) && DistinctPath(path, Ptrs(t))
    ensures var q, u := StraightPath(path, t), StraightTree(path, t);
      && Distinct(u) && DistinctPath(q, Ptrs(u))
      && PathPtrs(q) + Ptrs(u) == PathPtrs(path) + Ptrs(t)
  {
    hide Ptrs, Distinct;
    var q := StraightPath(path, t);
    StraightPtrs(path, t);
    assert Front(q) == Front(path);
  }

  /** The two nodes that change places. */
  lemma StraightRep(h: Cells, root: RbNode?, path: Path, t: Tree)
    requires Zipped(h, root, path, t) && |path| >= 2 && t.Node? && Last(path).dir != Grand(path).dir
    ensures Grand(path).ptr in h && Last(path).ptr in h && t.ptr in h
    ensures var h' := StraightenCells(h, Grand(path).ptr, Last(path).ptr, t.ptr, Grand(path).dir);
            Rep(h', StraightTree(path, t)) && FrameRep(h', Last(StraightPath(path, t)), Last(path).ptr)
  {
    hide Rep, RepPath, Ptrs, PathPtrs;
    LocalRep(h, root, path, t);
    LocalApart(path, t);
    var g, p := Grand(path), Last(path);
    NodeRep(h, t, g.dir);
    NodeCells(t, g.dir);
    hide Distinct, DistinctPath;
    var h' := StraightenCells(h, g.ptr, p.ptr, t.ptr, g.dir);
    RepFrame(h, h', Kid(t, g.dir));
    RepFrame(h, h', Kid(t, 1 - g.dir));
    RepFrame(h, h', p.sib);
    NodeRep(h', StraightTree(path, t), g.dir);
  }

  lemma StraightCells(h: Cells, root: RbNode?, path: Path, t: Tree)
    requires Zipped(h, root, path, t) && |path| >= 2 && t.Node? && Last(path).dir != Grand(path).dir
    ensures Grand(path).ptr in h && Last(path).ptr in h && t.ptr in h
    ensures Zipped(StraightenCells(h, Grand(path).ptr, Last(path).ptr, t.ptr, Grand(path).dir),
                   root, StraightPath(path, t), StraightTree(path, t))
  {
    hide Rep, Ptrs, PathPtrs, StraightTree;
    StraightRep(h, root, path, t);
    LocalRep(h, root, path, t);
    LocalApart(path, t);
    StraightApart(path, t);
    TopIn(t);
    hide Distinct, DistinctPath;
    var g, p, q := Grand(path), Last(path), StraightPath(path, t);
    var h' := StraightenCells(h, g.ptr, p.ptr, t.ptr, g.dir);
    assert Front(q) == Front(path) && Last(Front(path)) == g;
    StraightTop(path, t);
    RepFrame(h, h', g.sib);
    RepPathFrame(h, h', Above(path), g.ptr);
    assert FrameRep(h', g, t.ptr);
    assert RepPath(h', Front(q), t.ptr);
  }

  lemma TopIn(t: Tree)
    requires t.Node?
    ensures t.ptr in Ptrs(t)
  {
  }

  lemma StraightTop(path: Path, t: Tree)
    requires |path| >= 2 && t.Node?
    ensures Top(StraightTree(path, t)) == Last(path).ptr
  {
  }

  lemma RotateApart(path: Path, t: Tree)
    requires |path| >= 2 && Distinct(t) && DistinctPath(path, Ptrs(t))
    ensures Ptrs(Rotated(path, t)) == Local(path, t) && Distinct(Rotated(path, t))
  {
    LocalApart(path, t);
    var low := Kid(Rotated(path, t), 1 - Grand(path).dir);
    assert Ptrs(low) == {Grand(path).ptr} + Ptrs(Last(path).sib) + Ptrs(Grand(path).sib);
  }

  lemma RotatedCells(h: Cells, root: RbNode?, path: Path, t: Tree)
    requires Zipped(h, root, path, t) && |path| >= 2 && Last(path).dir == Grand(path).dir
    ensures Grand(path).ptr in h && Last(path).ptr in h
    ensures var h' := RotateCells(h, Grand(path).ptr, Last(path).ptr, Grand(path).dir);
      Rep(h', Rotated(path, t)) && RepPath(h', Above(path), Grand(path).ptr)
  {
    LocalRep(h, root, path, t);
    LocalApart(path, t);
    var g, p := Grand(path), Last(path);
    var h' := RotateCells(h, g.ptr, p.ptr, g.dir);
    RepFrame(h, h', t);
    RepFrame(h, h', p.sib);
    RepFrame(h, h', g.sib);
    RepPathFrame(h, h', Above(path), g.ptr);
  }

  /** The relink of rbt.c:74-78 (mirrored: 102-106). */
  function RelinkCells(h: Cells, above: Path, y: RbNode): Cells
    requires above != [] ==> Last(above).ptr in h
  {
    if above == [] then h else SetLink(h, Last(above).ptr, Last(above).dir, y)
  }

  lemma RelinkedCells(h: Cells, root: RbNode?, path: Path, t: Tree)
    requires Zipped(h, root, path, t) && |path| >= 2 && Last(path).dir == Grand(path).dir
    ensures Grand(path).ptr in h && Last(path).ptr in h
    ensures Above(path) != [] ==> Last(Above(path)).ptr in h
    ensures root == Grand(path).ptr <==> Above(path) == []
    ensures var h' := RotateCells(h, Grand(path).ptr, Last(path).ptr, Grand(path).dir);
            var top := if root == Grand(path).ptr then Last(path).ptr else root;
            Zipped(RelinkCells(h', Above(path), Last(path).ptr), top, Above(path), Rotated(path, t))
  {
    RotatedCells(h, root, path, t);
    RotateApart(path, t);
    LocalApart(path, t);
    var g, p, above, u := Grand(path), Last(path), Above(path), Rotated(path, t);
    var h1 := RotateCells(h, g.ptr, p.ptr, g.dir);
    var h' := RelinkCells(h1, above, p.ptr);
    if above != [] {
      assert path[0] == above[0];
      PathHead(above);
      Apart(above, Ptrs(u));
      RepFrame(h1, h', u);
      Relink(h1, h', above, g.ptr, u);
    }
  }

  lemma {:induction false} PathHead(path: Path)
    requires path != []
    ensures path[0].ptr in PathPtrs(path)
  {
    if |path| > 1 {
      PathHead(Front(path));
    }
  }

  // ---------- walking down and attaching ----------

  ghost predicate AllBelow(s: seq<int32>, k: int32) {
    forall x :: x in s ==> x < k
  }

  ghost predicate AllAbove(s: seq<int32>, k: int32) {
    forall x :: x in s ==> x > k
  }

  /** `k` belongs at the open end of `path`. */
  ghost predicate Between(path: Path, k: int32) {
    AllBelow(Before(path), k) && AllAbove(After(path), k)
  }

  function StepInto(t: Tree, d: Side): Frame
    requires t.Node?
  {
    Frame(t.ptr, t.data, t.color, d, Kid(t, 1 - d))
  }

  lemma DescendCells(h: Cells, root: RbNode?, path: Path, t: Tree, d: Side)
    requires Zipped(h, root, path, t) && t.Node?
    ensures var q := path + [StepInto(t, d)];
      Zipped(h, root, q, Kid(t, d)) && Plug(q, Kid(t, d)) == Plug(path, t)
  {
    var f := StepInto(t, d);
    var q := path + [f];
    assert Front(q) == path && Last(q) == f;
    assert Ptrs(Kid(t, d)) + {f.ptr} + Ptrs(f.sib) == Ptrs(t);
  }

  lemma SortedAround(b: seq<int32>, m: int32, a: seq<int32>)
    requires Sorted(b + [m] + a)
    ensures AllBelow(b, m) && AllAbove(a, m)
  {
    var s := b + [m] + a;
    assert s[|b|] == m;
    forall x | x in b ensures x < m {
      var i :| 0 <= i < |b| && b[i] == x;
      assert s[i] == x;
    }
    forall x | x in a ensures x > m {
      var i :| 0 <= i < |a| && a[i] == x;
      assert s[|b| + 1 + i] == x;
    }
  }

  lemma DescendOrder(path: Path, t: Tree, k: int32, d: Side)
    requires t.Node? && Sorted(InOrder(Plug(path, t))) && Between(path, k)
    requires if d == 1 then k > t.data else k < t.data
    ensures Between(path + [StepInto(t, d)], k)
  {
    var q := path + [StepInto(t, d)];
    assert Front(q) == path && Last(q) == StepInto(t, d);
    PlugInOrder(path, t);
    var b, a := Before(path) + InOrder(t.left), InOrder(t.right) + After(path);
    assert InOrder(Plug(path, t)) == b + [t.data] + a;
    SortedAround(b, t.data, a);
    if d == 1 {
      forall x | x in Before(q) ensures x < k {
        assert x in b || x == t.data;
      }
    } else {
      forall x | x in After(q) ensures x > k {
        assert x in a || x == t.data;
      }
    }
  }

  lemma AttachCells(h: Cells, root: RbNode?, path: Path, n: RbNode, k: int32)
    requires Zipped(h, root, path, Leaf) && path != [] && n !in PathPtrs(path)
    ensures Last(path).ptr in h && Last(path).ptr != n
    ensures Zipped(SetLink(h[n := Cell(k, Red, null, null)], Last(path).ptr, Last(path).dir, n),
                   root, path, Node(n, k, Red, Leaf, Leaf))
  {
    var u := Node(n, k, Red, Leaf, Leaf);
    var h1 := h[n := Cell(k, Red, null, null)];
    assert Last(path).ptr in PathPtrs(path);
    WidenBelow(path, {}, {n});
    assert {} + {n} == Ptrs(u);
    RepPathFrame(h, h1, path, null);
    Relink(h1, SetLink(h1, Last(path).ptr, Last(path).dir, n), path, null, u);
  }

  lemma {:induction false} WidenBelow(path: Path, below: set<RbNode>, more: set<RbNode>)
    requires DistinctPath(path, below) && more !! PathPtrs(path)
    ensures DistinctPath(path, below + more)
  {
    if path != [] {
      var f := Last(path);
      WidenBelow(Front(path), below + {f.ptr} + Ptrs(f.sib), more);
      assert below + {f.ptr} + Ptrs(f.sib) + more == (below + more) + {f.ptr} + Ptrs(f.sib);
    }
  }

  /** A red leaf changes no black count. */
  lemma AttachFocus(path: Path, n: RbNode, k: int32)
    requires NoRedRed(Plug(path, Leaf)) && path != []
    ensures RedFocus(path, Node(n, k, Red, Leaf, Leaf))
    ensures Balanced(Plug(path, Node(n, k, Red, Leaf, Leaf))) <==> Balanced(Plug(path, Leaf))
  {
    PlugBalanced(path, Leaf);
    PlugBalanced(path, Node(n, k, Red, Leaf, Leaf));
    PlugNoRedRed(path, Leaf);
  }

  /** The sequence `s` with `k` at its place, or `s` itself if `k` is there. */
  ghost predicate Inserted(s: seq<int32>, k: int32, s': seq<int32>) {
    if k in s then s' == s
    else exists i :: 0 <= i <= |s| && s' == s[..i] + [k] + s[i..]
  }

  lemma SortedInsert(b: seq<int32>, k: int32, a: seq<int32>)
    requires Sorted(b + a) && AllBelow(b, k) && AllAbove(a, k)
    ensures Sorted(b + [k] + a) && k !in b + a && Inserted(b + a, k, b + [k] + a)
  {
    var s, s' := b + a, b + [k] + a;
    assert s[..|b|] == b && s[|b|..] == a;
    forall i, j | 0 <= i < j < |s'| ensures s'[i] < s'[j] {
      if i == |b| {
        assert s'[j] in a;
      } else if j == |b| {
        assert s'[i] in b;
      } else {
        var i', j' := if i < |b| then i else i - 1, if j < |b| then j else j - 1;
        assert s[i'] == s'[i] && s[j'] == s'[j];
      }
    }
  }

  lemma AttachOrder(path: Path, n: RbNode, k: int32)
    requires Between(path, k) && Sorted(InOrder(Plug(path, Leaf)))
    ensures var s, s' := InOrder(Plug(path, Leaf)), InOrder(Plug(path, Node(n, k, Red, Leaf, Leaf)));
      k !in s && Inserted(s, k, s') && Sorted(s')
  {
    var u := Node(n, k, Red, Leaf, Leaf);
    PlugInOrder(path, Leaf);
    PlugInOrder(path, u);
    var b, a := Before(path), After(path);
    assert InOrder(u) == [k];
    assert InOrder(Plug(path, Leaf)) == b + a;
    SortedInsert(b, k, a);
  }

  /** Painting the root black ends the repair. */
  lemma PaintRoot(path: Path, t: Tree)
    requires RedFocus(path, t) && (|path| < 2 || Last(path).color == Black)
    ensures Plug(path, t).Node? && NoRedRed(Blacken(Plug(path, t)))
  {
    PlugTop(path, t);
    if |path| != 1 {
      PlugNoRedRed(path, t);
    } else {
      assert Plug(Front(path), Up(Last(path), t)) == Up(Last(path), t);
    }
  }

  lemma Blackened(t: Tree)
    ensures SameContents(Blacken(t), t) && (Balanced(Blacken(t)) <==> Balanced(t))
    ensures NoRedRed(t) ==> NoRedRed(Blacken(t))
  {
  }

  lemma PaintCells(h: Cells, t: Tree)
    requires Rep(h, t) && Distinct(t) && t.Node?
    ensures Rep(SetColor(h, t.ptr, Black), Blacken(t)) && Distinct(Blacken(t))
  {
    RepFrame(h, SetColor(h, t.ptr, Black), t.left);
    RepFrame(h, SetColor(h, t.ptr, Black), t.right);
  }

  /** The key is below the walk's position, so there is a node there. */
  lemma SearchFacts(path: Path, t: Tree, k: int32)
    requires k in InOrder(Plug(path, t)) && Between(path, k)
    ensures t.Node? && k in InOrder(t)
  {
    PlugInOrder(path, t);
  }

  /** The loop stopped because the focus is high up or below a black node. */
  lemma FinishRepair(h: Cells, root: RbNode?, path: Path, t: Tree)
    requires Zipped(h, root, path, t) && RedFocus(path, t) && (|path| < 2 || Last(path).color == Black)
    ensures var u := Plug(path, t);
      u.Node? && root == Top(u) && Rep(h, u) && Distinct(u) && NoRedRed(Blacken(u))
  {
    PaintRoot(path, t);
    Unzip(h, root, path, t);
  }

  lemma LastRep(h: Cells, root: RbNode?, path: Path, t: Tree)
    requires Zipped(h, root, path, t)
    ensures path != [] ==> Last(path).ptr in h && h[Last(path).ptr].color == Last(path).color
  {
  }

  /** `tree` is being searched for `k`, and what is left to search is `t`. */
  ghost predicate Walking(h: Cells, root: RbNode?, tree: Tree, path: Path, t: Tree, k: int32) {
    tree == Plug(path, t) && Loose(tree) && Zipped(h, root, path, t) && Between(path, k)
  }

  lemma WalkFacts(h: Cells, root: RbNode?, tree: Tree, path: Path, t: Tree, k: int32)
    requires Walking(h, root, tree, path, t, k) && t.Node?
    ensures |path| < Height(tree) && t.data in InOrder(tree)
    ensures t.ptr in h && h[t.ptr] == Cell(t.data, t.color, Top(t.left), Top(t.right))
    ensures forall d: Side :: (if d == 1 then k > t.data else k < t.data) ==>
      Walking(h, root, tree, path + [StepInto(t, d)], Kid(t, d), k)
  {
    PlugHeight(path, t);
    PlugInOrder(path, t);
    forall d: Side | if d == 1 then k > t.data else k < t.data
      ensures Walking(h, root, tree, path + [StepInto(t, d)], Kid(t, d), k)
    {
      DescendCells(h, root, path, t, d);
      DescendOrder(path, t, k, d);
    }
  }
}
