/** The values of schproj/rbt.c: red-black trees whose nodes name heap cells,
    the path from the root to a position in such a tree, and the pure facts
    (order, colours, black counts, height) the operations rely on. */
module RbTreeModel {

  const INT_MIN: int := -0x8000_0000
  const INT_MAX: int := 0x7fff_ffff

  /** The length of the arrays that record a path. */
  const DEPTH: nat := 98

  type int32 = x: int | INT_MIN <= x <= INT_MAX

  datatype Color = Red | Black

  /** An index into `link`: 0 is the left child, 1 the right child. */
  type Side = d: int | d == 0 || d == 1

  type Links = s: seq<RbNode?> | |s| == 2 witness [null, null]

  class RbNode {
    var data: int32
    var color: Color
    var link: Links

    /** createNode: a fresh red node without children. */
    constructor (data: int32)
      ensures this.data == data && color == Red && link == [null, null]
    {
      this.data := data;
      color := Red;
      link := [null, null];
    }
  }

  /** A tree value: which cell sits where, with the key and colour it holds. */
  datatype Tree = Leaf | Node(ptr: RbNode, data: int32, color: Color, left: Tree, right: Tree)

  function Kid(t: Tree, d: Side): Tree
    requires t.Node?
  {
    if d == 0 then t.left else t.right
  }

  /** The node with child `a` on side `d` and child `b` on the other side. */
  function Make(ptr: RbNode, data: int32, color: Color, d: Side, a: Tree, b: Tree): Tree {
    if d == 0 then Node(ptr, data, color, a, b) else Node(ptr, data, color, b, a)
  }

  function Top(t: Tree): RbNode? {
    if t.Leaf? then null else t.ptr
  }

  function ColorOf(t: Tree): Color {
    if t.Leaf? then Black else t.color
  }

  function Blacken(t: Tree): Tree {
    if t.Leaf? then t else t.(color := Black)
  }

  ghost function Ptrs(t: Tree): set<RbNode> {
    if t.Leaf? then {} else Ptrs(t.left) + {t.ptr} + Ptrs(t.right)
  }

  /** No cell occurs twice. */
  ghost predicate Distinct(t: Tree) {
    t.Node? ==>
      && Distinct(t.left) && Distinct(t.right)
      && t.ptr !in Ptrs(t.left) && t.ptr !in Ptrs(t.right)
      && Ptrs(t.left) !! Ptrs(t.right)
  }

  function InOrder(t: Tree): seq<int32> {
    if t.Leaf? then [] else InOrder(t.left) + [t.data] + InOrder(t.right)
  }

  ghost predicate Sorted(s: seq<int32>) {
    forall i, j :: 0 <= i < j < |s| ==> s[i] < s[j]
  }

  function Height(t: Tree): nat {
    if t.Leaf? then 0
    else 1 + if Height(t.left) < Height(t.right) then Height(t.right) else Height(t.left)
  }

  function Blacks(c: Color): nat {
    if c == Black then 1 else 0
  }

  /** The number of black nodes on the leftmost path. */
  function BlackHeight(t: Tree): nat {
    if t.Leaf? then 0 else BlackHeight(t.left) + Blacks(t.color)
  }

  /** All paths hold equally many black nodes. */
  predicate Balanced(t: Tree) {
    t.Node? ==> Balanced(t.left) && Balanced(t.right) && BlackHeight(t.left) == BlackHeight(t.right)
  }

  /** No red node has a red child. */
  predicate NoRedRed(t: Tree) {
    t.Node? ==>
      && NoRedRed(t.left) && NoRedRed(t.right)
      && (t.color == Red ==> ColorOf(t.left) == Black && ColorOf(t.right) == Black)
  }

  /** What every operation leaves behind, whether or not it balances the tree. */
  ghost predicate Loose(t: Tree) {
    Sorted(InOrder(t)) && NoRedRed(t)
  }

  /** What insertion keeps, and deletion sometimes. The very first insertion
      returns before the root is painted, hence the one-node exception. */
  ghost predicate RedBlack(t: Tree) {
    && Sorted(InOrder(t))
    && Balanced(t)
    && NoRedRed(t)
    && (ColorOf(t) == Black || (t.left.Leaf? && t.right.Leaf?))
  }

  // ---------- paths ----------

  /** One node of a path, the side the path takes there, and the other child. */
  datatype Frame = Frame(ptr: RbNode, data: int32, color: Color, dir: Side, sib: Tree)

  /** Frames from the root downwards; the tree below the last one is left open. */
  type Path = seq<Frame>

  function Last(path: Path): Frame
    requires path != []
  {
    path[|path| - 1]
  }

  function Front(path: Path): Path
    requires path != []
  {
    path[..|path| - 1]
  }

  function Up(f: Frame, t: Tree): Tree {
    Make(f.ptr, f.data, f.color, f.dir, t, f.sib)
  }

  /** The whole tree: `t` at the open end of `path`. */
  function Plug(path: Path, t: Tree): Tree {
    if path == [] then t else Plug(Front(path), Up(Last(path), t))
  }

  ghost function PathPtrs(path: Path): set<RbNode> {
    if path == [] then {} else PathPtrs(Front(path)) + {Last(path).ptr} + Ptrs(Last(path).sib)
  }

  /** No cell of the path repeats, and none is in `below`. */
  ghost predicate DistinctPath(path: Path, below: set<RbNode>) {
    path != [] ==>
      var f := Last(path);
      && f.ptr !in below && f.ptr !in Ptrs(f.sib) && Ptrs(f.sib) !! below && Distinct(f.sib)
      && DistinctPath(Front(path), below + {f.ptr} + Ptrs(f.sib))
  }

  function Before(path: Path): seq<int32> {
    if path == [] then []
    else
      var f := Last(path);
      if f.dir == 0 then Before(Front(path)) else Before(Front(path)) + InOrder(f.sib) + [f.data]
  }

  function After(path: Path): seq<int32> {
    if path == [] then []
    else
      var f := Last(path);
      if f.dir == 0 then [f.data] + InOrder(f.sib) + After(Front(path)) else After(Front(path))
  }

  /** A tree of black height `h` at the open end balances the whole. */
  predicate BalancedPath(path: Path, h: nat) {
    path != [] ==>
      var f := Last(path);
      Balanced(f.sib) && BlackHeight(f.sib) == h && BalancedPath(Front(path), h + Blacks(f.color))
  }

  /** A tree of root colour `c` at the open end creates no red node with a red child. */
  predicate NoRedRedPath(path: Path, c: Color) {
    path != [] ==>
      var f := Last(path);
      && NoRedRed(f.sib)
      && (f.color == Red ==> c == Black && ColorOf(f.sib) == Black)
      && NoRedRedPath(Front(path), f.color)
  }

  lemma {:induction false} PlugInOrder(path: Path, t: Tree)
    ensures InOrder(Plug(path, t)) == Before(path) + InOrder(t) + After(path)
  {
    if path != [] {
      PlugInOrder(Front(path), Up(Last(path), t));
    }
  }

  lemma {:induction false} PlugBalanced(path: Path, t: Tree)
    ensures Balanced(Plug(path, t)) <==> Balanced(t) && BalancedPath(path, BlackHeight(t))
  {
    if path != [] {
      var f := Last(path);
      PlugBalanced(Front(path), Up(f, t));
      if Balanced(t) && Balanced(f.sib) && BlackHeight(f.sib) == BlackHeight(t) {
        assert BlackHeight(Up(f, t)) == BlackHeight(t) + Blacks(f.color);
      }
    }
  }

  lemma {:induction false} PlugNoRedRed(path: Path, t: Tree)
    ensures NoRedRed(Plug(path, t)) <==> NoRedRed(t) && NoRedRedPath(path, ColorOf(t))
  {
    if path != [] {
      PlugNoRedRed(Front(path), Up(Last(path), t));
    }
  }

  lemma {:induction false} PlugPtrs(path: Path, t: Tree)
    ensures Ptrs(Plug(path, t)) == PathPtrs(path) + Ptrs(t)
  {
    if path != [] {
      PlugPtrs(Front(path), Up(Last(path), t));
    }
  }

  lemma {:induction false} PlugDistinct(path: Path, t: Tree)
    ensures Distinct(Plug(path, t)) <==> Distinct(t) && DistinctPath(path, Ptrs(t))
  {
    if path != [] {
      var f := Last(path);
      PlugDistinct(Front(path), Up(f, t));
      assert Ptrs(Up(f, t)) == Ptrs(t) + {f.ptr} + Ptrs(f.sib);
    }
  }

  lemma {:induction false} PlugHeight(path: Path, t: Tree)
    ensures |path| + Height(t) <= Height(Plug(path, t))
  {
    if path != [] {
      PlugHeight(Front(path), Up(Last(path), t));
    }
  }

  /** The root of the whole is the first node of the path. */
  lemma {:induction false} PlugTop(path: Path, t: Tree)
    ensures Plug(path, t).Leaf? <==> path == [] && t.Leaf?
    ensures path != [] ==> Top(Plug(path, t)) == path[0].ptr && ColorOf(Plug(path, t)) == path[0].color
  {
    if path != [] {
      PlugTop(Front(path), Up(Last(path), t));
    }
  }

  // ---------- nodes by side ----------

  lemma MadeColors(ptr: RbNode, data: int32, c: Color, d: Side, a: Tree, b: Tree)
    ensures var t := Make(ptr, data, c, d, a, b);
      && Kid(t, d) == a && Kid(t, 1 - d) == b
      && (Balanced(t) <==> Balanced(a) && Balanced(b) && BlackHeight(a) == BlackHeight(b))
      && (Balanced(t) ==> BlackHeight(t) == BlackHeight(a) + Blacks(c))
      && (NoRedRed(t) <==> NoRedRed(a) && NoRedRed(b) && (c == Red ==> ColorOf(a) == Black && ColorOf(b) == Black))
  {
  }

  lemma MadeCells(ptr: RbNode, data: int32, c: Color, d: Side, a: Tree, b: Tree)
    ensures var t := Make(ptr, data, c, d, a, b);
      && Ptrs(t) == Ptrs(a) + {ptr} + Ptrs(b)
      && (Distinct(t) <==> Distinct(a) && Distinct(b) && ptr !in Ptrs(a) && ptr !in Ptrs(b) && Ptrs(a) !! Ptrs(b))
  {
  }

  lemma NodeColors(t: Tree, d: Side)
    requires t.Node?
    ensures Balanced(t) <==>
              && Balanced(Kid(t, d)) && Balanced(Kid(t, 1 - d))
              && BlackHeight(Kid(t, d)) == BlackHeight(Kid(t, 1 - d))
    ensures Balanced(t) ==> BlackHeight(t) == BlackHeight(Kid(t, d)) + Blacks(t.color)
    ensures NoRedRed(t) <==>
              && NoRedRed(Kid(t, d)) && NoRedRed(Kid(t, 1 - d))
              && (t.color == Red ==> ColorOf(Kid(t, d)) == Black && ColorOf(Kid(t, 1 - d)) == Black)
  {
  }

  lemma NodeCells(t: Tree, d: Side)
    requires t.Node?
    ensures Ptrs(t) == Ptrs(Kid(t, d)) + {t.ptr} + Ptrs(Kid(t, 1 - d))
    ensures Distinct(t) <==>
              && Distinct(Kid(t, d)) && Distinct(Kid(t, 1 - d))
              && t.ptr !in Ptrs(Kid(t, d)) && t.ptr !in Ptrs(Kid(t, 1 - d)) && Ptrs(Kid(t, d)) !! Ptrs(Kid(t, 1 - d))
  {
  }

  // ---------- height ----------

  function Pow2(n: nat): nat {
    if n == 0 then 1 else 2 * Pow2(n - 1)
  }

  lemma {:induction false} Pow2Monotone(a: nat, b: nat)
    requires a <= b
    ensures Pow2(a) <= Pow2(b)
  {
    if a < b {
      Pow2Monotone(a, b - 1);
    }
  }

  /** Height and size against the black height. */
  lemma {:induction false} HeightBySize(t: Tree)
    requires Balanced(t) && NoRedRed(t)
    ensures Height(t) <= 2 * BlackHeight(t) + (1 - Blacks(ColorOf(t)))
    ensures Pow2(BlackHeight(t)) <= |InOrder(t)| + 1
  {
    if t.Node? {
      HeightBySize(t.left);
      HeightBySize(t.right);
    }
  }

  /** height <= 2 log2(n + 1), in integers. */
  lemma LogarithmicHeight(t: Tree)
    requires RedBlack(t)
    ensures Pow2(Height(t) / 2) <= |InOrder(t)| + 1
  {
    HeightBySize(t);
    Pow2Monotone(Height(t) / 2, BlackHeight(t) + (1 - Blacks(ColorOf(t))) / 2);
  }

  lemma {:induction false} SortedSpan(s: seq<int32>)
    requires Sorted(s) && s != []
    ensures (s[0] as int) + |s| <= (s[|s| - 1] as int) + 1
  {
    if |s| > 1 {
      SortedSpan(s[..|s| - 1]);
    }
  }

  /** There are at most 2^32 keys, so at most 64 nodes on any path. */
  lemma HeightAtMost64(t: Tree)
    requires RedBlack(t)
    ensures Height(t) <= 64
  {
    if t.Node? {
      SortedSpan(InOrder(t));
      HeightBySize(t);
      assert Pow2(11) == 2048;
      assert Pow2(22) == 2048 * 2048;
      assert Pow2(33) == 2048 * 2048 * 2048;
      if BlackHeight(t) > 32 {
        Pow2Monotone(33, BlackHeight(t));
      }
      if ColorOf(t) == Red {
        assert Height(t) <= 1;
      }
    }
  }

  /** The tree the first insertion leaves: one red node. */
  lemma SingleNode(n: RbNode, k: int32)
    ensures var t := Node(n, k, Red, Leaf, Leaf); RedBlack(t) && InOrder(t) == [k] && Distinct(t)
  {
    var t := Node(n, k, Red, Leaf, Leaf);
    assert InOrder(t.left) == [] && InOrder(t.right) == [];
  }

  lemma SubtreeSorted(t: Tree)
    requires Sorted(InOrder(t)) && t.Node?
    ensures Sorted(InOrder(t.left)) && Sorted(InOrder(t.right))
  {
    var s, n := InOrder(t), |InOrder(t.left)|;
    assert forall i :: 0 <= i < n ==> InOrder(t.left)[i] == s[i];
    assert forall i :: 0 <= i < |InOrder(t.right)| ==> InOrder(t.right)[i] == s[n + 1 + i];
  }
}
