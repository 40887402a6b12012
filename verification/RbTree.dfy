/** schproj/rbt.c: insertion and deletion, on cells. */
module RbTree {
  import opened RbTreeModel
  import opened RbTreeCells
  import opened RbTreeClimb
  import opened RbTreeUnlink

  /** stack[off..] and dir[off..] record `path`. */
  ghost predicate Recorded(stack: array<RbNode?>, dir: array<Side>, path: Path, off: nat)
    reads stack, dir
  {
    && stack.Length == dir.Length == DEPTH
    && |path| + off <= DEPTH
    && forall i :: 0 <= i < |path| ==> stack[i + off] == path[i].ptr && dir[i + off] == path[i].dir
  }

  /** n->color = c, seen in the snapshot. */
  method Paint(n: RbNode, c: Color, ghost nodes: set<RbNode>)
    requires n in nodes
    modifies n`color
    ensures Snap(nodes) == SetColor(old(Snap(nodes)), n, c)
  {
    n.color := c;
  }

  /** n->link[d] = q, seen in the snapshot. */
  method Assign(n: RbNode, d: Side, q: RbNode?, ghost nodes: set<RbNode>)
    requires n in nodes
    modifies n`link
    ensures Snap(nodes) == SetLink(old(Snap(nodes)), n, d, q)
  {
    n.link := n.link[d := q];
  }

  /** The writes of lines 244-248: `r` takes over colour and place of `p`, above it. */
  method FinishWrites(p: RbNode, r: RbNode, far: RbNode?, s: Side, ghost nodes: set<RbNode>)
    requires p in nodes && r in nodes && far in nodes && p != r
    requires r.link[1 - s] == far && far != r
    modifies p, r, far
    ensures Snap(nodes) == FinishCells(old(Snap(nodes)), p, r, far, s)
  {
    Paint(r, p.color, nodes);
    Paint(p, Black, nodes);
    Paint(r.link[1 - s], Black, nodes);
    Assign(p, 1 - s, r.link[s], nodes);
    Assign(r, s, p, nodes);
  }

  /** createNode, seen in the snapshot. */
  method CreateNode(data: int32, ghost nodes: set<RbNode>) returns (n: RbNode)
    ensures fresh(n) && Snap(nodes + {n}) == old(Snap(nodes))[n := Cell(data, Red, null, null)]
  {
    n := new RbNode(data);
  }

  /** rbt.c:69-73, mirrored 97-101: `y`, below `x` on side `d`, turns black and
      takes `x`, now red, as its child. */
  method Turn(x: RbNode, y: RbNode, d: Side, ghost nodes: set<RbNode>)
    requires x in nodes && y in nodes
    modifies x, y
    ensures Snap(nodes) == RotateCells(old(Snap(nodes)), x, y, d)
  {
    Paint(x, Red, nodes);
    Paint(y, Black, nodes);
    Assign(x, d, y.link[1 - d], nodes);
    Assign(y, 1 - d, x, nodes);
  }

  /** Lines 149-152: `x` takes over from `ptr`, its parent. */
  method MoveNear(ptr: RbNode, x: RbNode, ghost nodes: set<RbNode>)
    requires ptr in nodes && x in nodes && x != ptr
    modifies x, ptr
    ensures Snap(nodes) == NearCells(old(Snap(nodes)), ptr, x)
  {
    Assign(x, 0, ptr.link[0], nodes);
    var color := x.color;
    Paint(x, ptr.color, nodes);
    Paint(ptr, color, nodes);
  }

  /** Lines 178-181 and 187-189: `y` takes over from `ptr`. */
  method MoveFar(ptr: RbNode, x: RbNode, y: RbNode, ghost nodes: set<RbNode>)
    requires ptr in nodes && x in nodes && y in nodes && y != ptr && x != ptr
    modifies x, y, ptr
    ensures Snap(nodes) == FarCells(old(Snap(nodes)), ptr, x, y)
  {
    Assign(y, 0, ptr.link[0], nodes);
    Assign(x, 0, y.link[1], nodes);
    Assign(y, 1, ptr.link[1], nodes);
    var color := y.color;
    Paint(y, ptr.color, nodes);
    Paint(ptr, color, nodes);
  }

  /** stack[ht] = p; dir[ht] = d: the recorded path grows by one frame. */
  method Record(stack: array<RbNode?>, dir: array<Side>, ht: nat, p: RbNode, d: Side,
                ghost path: Path, ghost f: Frame, ghost off: nat)
    requires Recorded(stack, dir, path, off) && ht == |path| + off < DEPTH
    requires p == f.ptr && d == f.dir
    modifies stack, dir
    ensures Recorded(stack, dir, path + [f], off)
    ensures forall i :: 0 <= i < DEPTH && i != ht ==> stack[i] == old(stack[i]) && dir[i] == old(dir[i])
  {
    stack[ht] := p;
    dir[ht] := d;
  }

  /** Lines 173-174: the slot left open in the middle is filled in. */
  method RecordTakeover(stack: array<RbNode?>, dir: array<Side>, i: nat, y: RbNode,
                        ghost path: Path, ghost f: Frame, ghost spine: Path)
    requires Recorded(stack, dir, path, 0) && Recorded(stack, dir, spine, i + 1)
    requires i == |path| && y == f.ptr && f.dir == 1
    modifies stack, dir
    ensures Recorded(stack, dir, path + [f] + spine, 0) && Recorded(stack, dir, path, 0)
  {
    dir[i] := 1;
    stack[i] := y;
    ghost var q := path + [f] + spine;
    forall j | 0 <= j < |q| ensures stack[j] == q[j].ptr && dir[j] == q[j].dir {
      if j > i {
        assert q[j] == spine[j - i - 1] && stack[j - i - 1 + (i + 1)] == spine[j - i - 1].ptr;
      }
    }
  }

  /** Lines 224-227: a red sibling, now above the parent, takes its entry. */
  method RecordSibling(stack: array<RbNode?>, dir: array<Side>, ht: nat, r: RbNode, s: Side, ghost path: Path)
    requires Recorded(stack, dir, path, 0) && 0 < ht == |path| < DEPTH
    requires Last(path).sib.Node? && r == Last(path).sib.ptr && s == Last(path).dir
    modifies stack, dir
    ensures Recorded(stack, dir, SiblingAbove(path), 0)
  {
    dir[ht] := s;
    stack[ht] := stack[ht - 1];
    stack[ht - 1] := r;
  }

  class RedBlackTree {
    var root: RbNode?
    ghost var tree: Tree

    /** The cells hold a search tree without red-red edges, of whatever black counts. */
    ghost predicate Sound()
      reads this, Ptrs(tree)
    {
      && root == Top(tree)
      && Rep(Snap(Ptrs(tree)), tree)
      && Distinct(tree)
      && Loose(tree)
    }

    ghost predicate Valid()
      reads this, Ptrs(tree)
    {
      Sound() && RedBlack(tree)
    }

    constructor ()
      ensures Valid() && tree == Leaf
    {
      root := null;
      tree := Leaf;
    }

    /** Red uncle: rbt.c:54-58, mirrored 82-86. */
    method Recolour(g: RbNode, p: RbNode, y: RbNode, ghost nodes: set<RbNode>, ghost path: Path, ghost t: Tree)
      requires Zipped(Snap(nodes), root, path, t) && |path| >= 2
      requires g == Grand(path).ptr && p == Last(path).ptr && y == Top(Grand(path).sib)
      modifies nodes
      ensures Zipped(Snap(nodes), root, Above(path), Recoloured(path, t))
    {
      ghost var h := Snap(nodes);
      RecolourCells(h, root, path, t);
      Paint(g, Red, nodes);
      Paint(y, Black, nodes);
      Paint(p, Black, nodes);
    }

    /** Inner grandchild: rbt.c:63-67, mirrored 91-95. */
    method Straighten(g: RbNode, p: RbNode, d: Side, ghost nodes: set<RbNode>, ghost path: Path, ghost t: Tree)
      returns (y: RbNode)
      requires Zipped(Snap(nodes), root, path, t) && |path| >= 2 && t.Node? && Last(path).dir != d
      requires g == Grand(path).ptr && p == Last(path).ptr && d == Grand(path).dir
      modifies nodes
      ensures y == t.ptr && Zipped(Snap(nodes), root, StraightPath(path, t), StraightTree(path, t))
    {
      hide Rep, RepPath, Distinct, DistinctPath, Ptrs, PathPtrs, InOrder, Balanced, NoRedRed;
      ghost var h := Snap(nodes);
      StraightCells(h, root, path, t);
      LocalRep(h, root, path, t);
      var x := p;
      y := x.link[1 - d];
      Assign(x, 1 - d, y.link[d], nodes);
      Assign(y, d, x, nodes);
      Assign(g, d, y, nodes);
    }

    /** Outer grandchild: rbt.c:69-78, mirrored 97-106. `up`, if there is one,
        is the node whose link `upDir` leads to `x`. */
    method RotateOuter(x: RbNode, y: RbNode, d: Side, up: RbNode?, upDir: Side,
                       ghost nodes: set<RbNode>, ghost path: Path, ghost t: Tree)
      requires Zipped(Snap(nodes), root, path, t) && |path| >= 2 && Last(path).dir == Grand(path).dir
      requires x == Grand(path).ptr && y == Last(path).ptr && d == Grand(path).dir
      requires Above(path) != [] ==> up == Last(Above(path)).ptr && upDir == Last(Above(path)).dir
      modifies this`root, nodes
      ensures Zipped(Snap(nodes), root, Above(path), Rotated(path, t))
    {
      hide Rep, RepPath, Distinct, DistinctPath, Ptrs, PathPtrs, InOrder, Balanced, NoRedRed;
      RelinkedCells(Snap(nodes), root, path, t);
      Turn(x, y, d, nodes);
      if x == root {
        root := y;
      } else {
        Assign(up, upDir, y, nodes);
      }
    }

    /** Black uncle: rbt.c:59-79, mirrored 87-107. */
    method Rotate(stack: array<RbNode?>, dir: array<Side>, ht: nat, d: Side,
                  ghost nodes: set<RbNode>, ghost path: Path, ghost t: Tree)
      returns (ghost u: Tree)
      requires Recorded(stack, dir, path, 1) && ht == |path| + 1
      requires Zipped(Snap(nodes), root, path, t) && Defect(path, t)
      requires ColorOf(Grand(path).sib) == Black && d == Grand(path).dir
      modifies this`root, nodes
      ensures u.Node? && root == Top(u) && Rep(Snap(nodes), u) && Distinct(u)
      ensures NoRedRed(u) && Alike(u, Plug(path, t))
    {
      hide Rep, RepPath, Distinct, DistinctPath, Ptrs, PathPtrs, InOrder, Balanced, NoRedRed;
      ghost var p, s := path, t;
      var x: RbNode := stack[ht - 2];
      var y: RbNode := stack[ht - 1];
      if dir[ht - 1] != d {
        p, s := StraightPath(path, t), StraightTree(path, t);
        StraightStep(path, t);
        y := Straighten(x, y, d, nodes, path, t);
        assert Front(p) == Front(path);
      }
      RotateStep(p, s);
      RotateOuter(x, y, d, stack[ht - 3], dir[ht - 3], nodes, p, s);
      u := Plug(Above(p), Rotated(p, s));
      Unzip(Snap(nodes), root, Above(p), Rotated(p, s));
    }

    /** One round of the repair loop: rbt.c:53-109, both sides at once. */
    method RepairRound(stack: array<RbNode?>, dir: array<Side>, ht: nat,
                       ghost nodes: set<RbNode>, ghost path: Path, ghost t: Tree)
      returns (rotated: bool, ghost u: Tree)
      requires Recorded(stack, dir, path, 1) && ht == |path| + 1
      requires Zipped(Snap(nodes), root, path, t) && Defect(path, t)
      modifies this`root, nodes
      ensures !rotated ==> root == old(root) && u == Recoloured(path, t) && Zipped(Snap(nodes), root, Above(path), u)
      ensures !rotated ==> RedFocus(Above(path), u) && Alike(Plug(Above(path), u), Plug(path, t))
      ensures rotated ==> u.Node? && root == Top(u) && Rep(Snap(nodes), u) && Distinct(u)
      ensures rotated ==> NoRedRed(u) && Alike(u, Plug(path, t))
    {
      LocalRep(Snap(nodes), root, path, t);
      var d := dir[ht - 2];
      var yPtr := stack[ht - 2].link[1 - d];
      if yPtr != null && yPtr.color == Red {
        RecolourStep(path, t);
        Recolour(stack[ht - 2], stack[ht - 1], yPtr, nodes, path, t);
        rotated, u := false, Recoloured(path, t);
      } else {
        u := Rotate(stack, dir, ht, d, nodes, path, t);
        rotated := true;
      }
    }

    /** The repair loop: rbt.c:52-110. Painting the root black is all that is left to do. */
    method RepairLoop(stack: array<RbNode?>, dir: array<Side>, height: nat,
                      ghost nodes: set<RbNode>, ghost path0: Path, ghost t0: Tree)
      returns (ghost u: Tree)
      requires Recorded(stack, dir, path0, 1) && height == |path0| + 1
      requires Zipped(Snap(nodes), root, path0, t0) && RedFocus(path0, t0)
      modifies this`root, nodes
      ensures u.Node? && root == Top(u) && Rep(Snap(nodes), u) && Distinct(u)
      ensures NoRedRed(Blacken(u)) && Alike(u, Plug(path0, t0))
    {
      hide Rep, RepPath, Distinct, DistinctPath, Ptrs, PathPtrs, InOrder, Balanced, NoRedRed;
      var ht, rotated := height, false;
      ghost var path, t := path0, t0;
      LastRep(Snap(nodes), root, path, t);
      while ht >= 3 && stack[ht - 1].color == Red
        invariant ht == |path| + 1 && !rotated
        invariant Recorded(stack, dir, path, 1)
        invariant Zipped(Snap(nodes), root, path, t) && RedFocus(path, t)
        invariant path != [] ==> Last(path).ptr.color == Last(path).color
        invariant Alike(Plug(path, t), Plug(path0, t0))
        decreases ht
      {
        rotated, u := RepairRound(stack, dir, ht, nodes, path, t);
        if rotated {
          Blackened(u);
          break;
        }
        path, t := Above(path), u;
        LastRep(Snap(nodes), root, path, t);
        ht := ht - 2;
      }
      if !rotated {
        FinishRepair(Snap(nodes), root, path, t);
        u := Plug(path, t);
      }
    }

    /** Lines 52-111. */
    method Repair(stack: array<RbNode?>, dir: array<Side>, height: nat,
                  ghost nodes: set<RbNode>, ghost path0: Path, ghost t0: Tree)
      returns (ghost u: Tree)
      requires Recorded(stack, dir, path0, 1) && height == |path0| + 1
      requires Zipped(Snap(nodes), root, path0, t0) && RedFocus(path0, t0)
      modifies this`root, nodes
      ensures u.Node? && root == Top(u) && Rep(Snap(nodes), u) && Distinct(u)
      ensures NoRedRed(u) && ColorOf(u) == Black && SameContents(u, Plug(path0, t0))
      ensures Balanced(u) <==> Balanced(Plug(path0, t0))
    {
      hide Rep, RepPath, Distinct, DistinctPath, Ptrs, PathPtrs, InOrder, Balanced, NoRedRed;
      u := RepairLoop(stack, dir, height, nodes, path0, t0);
      Blackened(u);
      u := PaintRootBlack(nodes, u);
    }

    /** Line 111. */
    method PaintRootBlack(ghost nodes: set<RbNode>, ghost t: Tree) returns (ghost u: Tree)
      requires t.Node? && root == Top(t) && Rep(Snap(nodes), t) && Distinct(t)
      modifies nodes
      ensures u == Blacken(t) && Rep(Snap(nodes), u) && Distinct(u)
    {
      PaintCells(Snap(nodes), t);
      Paint(root, Black, nodes);
      u := Blacken(t);
    }

    /** The walk down: rbt.c:39-50. */
    method Walk(data: int32, stack: array<RbNode?>, dir: array<Side>)
      returns (found: bool, ht: nat, index: Side, ghost path: Path)
      requires Sound() && Height(tree) < DEPTH && root != null && stack.Length == dir.Length == DEPTH
      requires forall k :: k in InOrder(tree) ==> INT_MIN <= (data as int) - (k as int) <= INT_MAX
      modifies stack, dir
      ensures found <==> data in InOrder(tree)
      ensures !found ==> path != [] && tree == Plug(path, Leaf) && Zipped(old(Snap(Ptrs(tree))), root, path, Leaf)
      ensures !found ==> ht == |path| + 1 <= Height(tree) + 1 && index == Last(path).dir && Between(path, data)
      ensures !found ==> Recorded(stack, dir, path, 1)
    {
      hide Loose, Rep, Distinct;
      ghost var h := Snap(Ptrs(tree));
      var ptr := root;
      ht, index, path, found := 0, 0, [], false;
      stack[ht], dir[ht] := root, 0;
      ht := ht + 1;
      ghost var t := tree;
      while ptr != null
        invariant ptr == Top(t) && Walking(h, root, tree, path, t, data)
        invariant ht == |path| + 1 && Recorded(stack, dir, path, 1) && |path| <= Height(tree)
        invariant if path == [] then t == tree else index == Last(path).dir
        decreases t
      {
        WalkFacts(h, root, tree, path, t, data);
        if ptr.data == data {
          found := true;
          return;
        }
        var diff: int32 := data - ptr.data;
        index := if diff > 0 then 1 else 0;
        Record(stack, dir, ht, ptr, index, path, StepInto(t, index), 1);
        path, t := path + [StepInto(t, index)], Kid(t, index);
        ptr := ptr.link[index];
        ht := ht + 1;
      }
      PlugInOrder(path, Leaf);
    }

    /** Line 51: a new red leaf at the end of the walk. */
    method Attach(data: int32, p: RbNode, index: Side, ghost path: Path)
      returns (ghost nodes: set<RbNode>, ghost t: Tree)
      requires Sound() && tree == Plug(path, Leaf) && Zipped(Snap(Ptrs(tree)), root, path, Leaf)
      requires path != [] && p == Last(path).ptr && index == Last(path).dir && Between(path, data)
      modifies Ptrs(tree)
      ensures Ptrs(tree) <= nodes && fresh(nodes - Ptrs(tree))
      ensures Zipped(Snap(nodes), root, path, t) && RedFocus(path, t) && Ptrs(Plug(path, t)) == nodes
      ensures data !in InOrder(tree)
      ensures Sorted(InOrder(Plug(path, t))) && Inserted(InOrder(tree), data, InOrder(Plug(path, t)))
      ensures Balanced(Plug(path, t)) <==> Balanced(tree)
    {
      hide Rep, RepPath, Distinct, DistinctPath, PathPtrs, InOrder, Balanced, NoRedRed;
      ghost var h := Snap(Ptrs(tree));
      var newnode := CreateNode(data, Ptrs(tree));
      nodes := Ptrs(tree) + {newnode};
      t := Node(newnode, data, Red, Leaf, Leaf);
      PlugPtrs(path, Leaf);
      PlugPtrs(path, t);
      AttachCells(h, root, path, newnode, data);
      Assign(p, index, newnode, nodes);
      AttachFocus(path, newnode, data);
      AttachOrder(path, newnode, data);
    }

    /** The first node: lines 34-37. It stays red. */
    method CreateRoot(data: int32)
      requires root == null && tree == Leaf
      modifies this
      ensures Valid() && fresh(root) && tree == Node(root, data, Red, Leaf, Leaf)
    {
      root := new RbNode(data);
      tree := Node(root, data, Red, Leaf, Leaf);
      SingleNode(root, data);
    }

    /** insertion. Line 46 computes data - ptr->data in int, so the differences have to fit, and
        the path, with the root twice, has to fit into its arrays. The black counts are equal
        afterwards exactly if they were before. */
    method Insertion(data: int32)
      requires Sound() && Height(tree) < DEPTH
      requires forall k :: k in InOrder(tree) ==> INT_MIN <= (data as int) - (k as int) <= INT_MAX
      modifies this, Ptrs(tree)
      ensures Sound() && (old(Valid()) ==> Valid())
      ensures Inserted(old(InOrder(tree)), data, InOrder(tree)) && (Balanced(tree) <==> old(Balanced(tree)))
      ensures data in old(InOrder(tree)) ==> root == old(root) && tree == old(tree)
      ensures data !in old(InOrder(tree)) && old(tree) != Leaf ==> ColorOf(tree) == Black
      ensures old(Ptrs(tree)) <= Ptrs(tree) && fresh(Ptrs(tree) - old(Ptrs(tree)))
    {
      if root == null {
        CreateRoot(data);
        SortedInsert([], data, []);
        return;
      }
      var stack, dir := new RbNode?[DEPTH], new Side[DEPTH];
      InsertBelow(data, stack, dir);
    }

    /** Lines 39-111: the tree is not empty. */
    method InsertBelow(data: int32, stack: array<RbNode?>, dir: array<Side>)
      requires Sound() && Height(tree) < DEPTH && root != null && stack.Length == dir.Length == DEPTH
      requires forall k :: k in InOrder(tree) ==> INT_MIN <= (data as int) - (k as int) <= INT_MAX
      modifies this, Ptrs(tree), stack, dir
      ensures Sound() && (Balanced(tree) <==> old(Balanced(tree)))
      ensures Inserted(old(InOrder(tree)), data, InOrder(tree))
      ensures data in old(InOrder(tree)) ==> root == old(root) && tree == old(tree)
      ensures data !in old(InOrder(tree)) ==> ColorOf(tree) == Black
      ensures old(Ptrs(tree)) <= Ptrs(tree) && fresh(Ptrs(tree) - old(Ptrs(tree)))
    {
      hide Rep, Distinct, Loose, Balanced, InOrder, Height;
      var found, ht, index;
      ghost var path;
      found, ht, index, path := Walk(data, stack, dir);
      assert Snap(Ptrs(tree)) == old(Snap(Ptrs(tree)));
      if !found {
        AddLeaf(data, stack, dir, ht, index, path);
      }
    }

    /** Lines 51-111: attach the new node and repair upwards. */
    method AddLeaf(data: int32, stack: array<RbNode?>, dir: array<Side>, ht: nat, index: Side, ghost path: Path)
      requires Sound() && tree == Plug(path, Leaf) && Zipped(Snap(Ptrs(tree)), root, path, Leaf)
      requires path != [] && ht == |path| + 1 && index == Last(path).dir && Between(path, data)
      requires Recorded(stack, dir, path, 1)
      modifies this, Ptrs(tree)
      ensures Sound() && (Balanced(tree) <==> old(Balanced(tree))) && ColorOf(tree) == Black
      ensures data !in old(InOrder(tree)) && Inserted(old(InOrder(tree)), data, InOrder(tree))
      ensures old(Ptrs(tree)) <= Ptrs(tree) && fresh(Ptrs(tree) - old(Ptrs(tree)))
    {
      hide Rep, RepPath, Distinct, DistinctPath, Ptrs, PathPtrs, InOrder, Balanced, NoRedRed;
      ghost var nodes, t := Attach(data, stack[ht - 1], index, path);
      tree := Repair(stack, dir, ht, nodes, path, t);
    }

    // ---------- deletion ----------

    /** Lines 126-134: to the node with the key. The key has to be there: line 136
        dereferences `ptr`. */
    method Find(data: int32, stack: array<RbNode?>, dir: array<Side>)
      returns (ptr: RbNode, ht: nat, ghost path: Path, ghost t: Tree)
      requires Sound() && Height(tree) <= DEPTH && stack.Length == dir.Length == DEPTH && data in InOrder(tree)
      requires forall k :: k in InOrder(tree) ==> INT_MIN <= (data as int) - (k as int) <= INT_MAX
      modifies stack, dir
      ensures Walking(old(Snap(Ptrs(tree))), root, tree, path, t, data)
      ensures t.Node? && t.ptr == ptr && t.data == data
      ensures ht == |path| && Recorded(stack, dir, path, 0)
    {
      hide Loose, Rep, Distinct;
      ghost var h := Snap(Ptrs(tree));
      var p := root;
      ht, path, t := 0, [], tree;
      SearchFacts(path, t, data);
      while p != null
        invariant p == Top(t) && Walking(h, root, tree, path, t, data)
        invariant data in InOrder(t)
        invariant ht == |path| && Recorded(stack, dir, path, 0)
        decreases t
      {
        WalkFacts(h, root, tree, path, t, data);
        var diff: int32 := data - p.data;
        if diff == 0 {
          break;
        }
        var d: Side := if diff > 0 then 1 else 0;
        Record(stack, dir, ht, p, d, path, StepInto(t, d), 0);
        path, t := path + [StepInto(t, d)], Kid(t, d);
        SearchFacts(path, t, data);
        ht := ht + 1;
        p := p.link[d];
      }
      ptr := p;
    }

    /** Lines 137-145: no right child, the left one moves up. */
    method LiftLeft(ptr: RbNode, stack: array<RbNode?>, dir: array<Side>, ht: nat,
                    ghost nodes: set<RbNode>, ghost path: Path, ghost t: Tree)
      requires Zipped(Snap(nodes), root, path, t) && t.Node? && t.ptr == ptr && t.right.Leaf?
      requires ht == |path| && Recorded(stack, dir, path, 0)
      modifies this`root, nodes
      ensures Zipped(Snap(nodes), root, path, t.left) && ptr.color == t.color
    {
      LiftCells(Snap(nodes), root, path, t);
      RootIff(Snap(nodes), root, path, t);
      if ptr == root && ptr.link[0] == null {
        root := null;
      } else if ptr == root {
        root := ptr.link[0];
      } else {
        Assign(stack[ht - 1], dir[ht - 1], ptr.link[0], nodes);
      }
    }

    /** Lines 149-158: the right child has no left child and takes over. */
    method TakeOverNear(ptr: RbNode, x: RbNode, up: RbNode?, upDir: Side,
                        ghost nodes: set<RbNode>, ghost path: Path, ghost t: Tree, ghost y: Tree)
      requires Successor(t, [], y) && Zipped(Snap(nodes), root, LongPath(path, t, []), y)
      requires t.ptr == ptr && y.ptr == x
      requires path != [] ==> up == Last(path).ptr && upDir == Last(path).dir
      modifies this`root, nodes
      ensures Zipped(Snap(nodes), root, SplicedPath(path, t, [], y), y.right) && ptr.color == y.color
    {
      hide Rep, RepPath, Distinct, DistinctPath, Ptrs, PathPtrs, InOrder, Balanced, NoRedRed;
      ghost var h := Snap(nodes);
      NearWrites(h, root, path, t, y);
      SpliceCells(h, RelinkCells(NearCells(h, ptr, x), path, x), root, path, t, [], y);
      SpliceRoot(h, root, path, t, [], y);
      MoveNear(ptr, x, nodes);
      if ptr == root {
        root := x;
      } else {
        Assign(up, upDir, x, nodes);
      }
    }

    /** Lines 175-189: the successor `y`, below `x`, takes over. */
    method TakeOverFar(ptr: RbNode, x: RbNode, y: RbNode, up: RbNode?, upDir: Side, i: nat,
                       ghost nodes: set<RbNode>, ghost path: Path, ghost t: Tree, ghost spine: Path, ghost s: Tree)
      requires Successor(t, spine, s) && spine != [] && Zipped(Snap(nodes), root, LongPath(path, t, spine), s)
      requires t.ptr == ptr && s.ptr == y && Last(spine).ptr == x && i == |path|
      requires path != [] ==> up == Last(path).ptr && upDir == Last(path).dir
      modifies this`root, nodes
      ensures Zipped(Snap(nodes), root, SplicedPath(path, t, spine, s), s.right) && ptr.color == s.color
    {
      hide Rep, RepPath, Distinct, DistinctPath, Ptrs, PathPtrs, InOrder, Balanced, NoRedRed;
      ghost var h := Snap(nodes);
      FarStep(h, root, path, t, spine, s);
      if i > 0 {
        Assign(up, upDir, y, nodes);
      }
      MoveFar(ptr, x, y, nodes);
      if ptr == root {
        root := y;
      }
    }

    /** Lines 164-171: down the left spine of the right child. */
    method WalkSpine(right: RbNode, stack: array<RbNode?>, dir: array<Side>, ht0: nat,
                     ghost nodes: set<RbNode>, ghost path: Path, ghost t: Tree)
      returns (x: RbNode, y: RbNode, ht: nat, ghost spine: Path, ghost s: Tree)
      requires t.Node? && t.right.Node? && right == t.right.ptr && right.link[0] != null
      requires Spinning(Snap(nodes), root, path, t, [], t.right)
      requires ht0 == |path| + 1 && Recorded(stack, dir, path, 0)
      modifies stack, dir
      ensures Spinning(old(Snap(nodes)), root, path, t, spine, s) && spine != []
      ensures s.left.Leaf? && y == s.ptr && x == Last(spine).ptr
      ensures ht == ht0 + |spine| && Recorded(stack, dir, path, 0) && Recorded(stack, dir, spine, ht0)
    {
      ghost var h := Snap(nodes);
      x, y, ht, spine, s := right, right, ht0, [], t.right;
      while true
        invariant s.Node? && x == s.ptr && Spinning(h, root, path, t, spine, s) && s.left.Node?
        invariant ht == ht0 + |spine| && Recorded(stack, dir, path, 0) && Recorded(stack, dir, spine, ht0)
        decreases s
      {
        SpinStep(h, root, path, t, spine, s);
        Record(stack, dir, ht, x, 0, spine, StepInto(s, 0), ht0);
        ht := ht + 1;
        y := x.link[0];
        spine, s := spine + [StepInto(s, 0)], s.left;
        if y.link[0] == null {
          break;
        }
        x := y;
      }
    }

    /** Lines 148-161. */
    method UnlinkNear(ptr: RbNode, xPtr: RbNode, stack: array<RbNode?>, dir: array<Side>, ht: nat,
                      ghost nodes: set<RbNode>, ghost path: Path, ghost t: Tree, ghost y: Tree)
      requires Successor(t, [], y) && Zipped(Snap(nodes), root, LongPath(path, t, []), y)
      requires t.ptr == ptr && y.ptr == xPtr
      requires ht == |path| < DEPTH && Recorded(stack, dir, path, 0)
      modifies this`root, nodes, stack, dir
      ensures Zipped(Snap(nodes), root, SplicedPath(path, t, [], y), y.right) && ptr.color == y.color
      ensures Recorded(stack, dir, SplicedPath(path, t, [], y), 0)
    {
      hide Rep, RepPath, Distinct, DistinctPath, Ptrs, PathPtrs, InOrder, Balanced, NoRedRed;
      var up, upDir := null, 0;
      if ht > 0 {
        up, upDir := stack[ht - 1], dir[ht - 1];
      }
      TakeOverNear(ptr, xPtr, up, upDir, nodes, path, t, y);
      ghost var h := Snap(nodes);
      Record(stack, dir, ht, xPtr, 1, path, Takeover(t, y), 0);
      assert Snap(nodes) == h;
      assert SplicedPath(path, t, [], y) == path + [Takeover(t, y)];
    }

    /** Lines 163-189. */
    method UnlinkFar(ptr: RbNode, right: RbNode, stack: array<RbNode?>, dir: array<Side>, i: nat,
                     ghost nodes: set<RbNode>, ghost path: Path, ghost t: Tree)
      returns (ht: nat, ghost spine: Path, ghost s: Tree)
      requires t.Node? && t.right.Node? && t.ptr == ptr && right == t.right.ptr && right.link[0] != null
      requires Spinning(Snap(nodes), root, path, t, [], t.right)
      requires i == |path| && Recorded(stack, dir, path, 0)
      modifies this`root, nodes, stack, dir
      ensures Successor(t, spine, s) && Zipped(old(Snap(nodes)), old(root), LongPath(path, t, spine), s)
      ensures Zipped(Snap(nodes), root, SplicedPath(path, t, spine, s), s.right) && ptr.color == s.color
      ensures ht == i + 1 + |spine| < DEPTH && Recorded(stack, dir, SplicedPath(path, t, spine, s), 0)
    {
      hide Rep, RepPath, Distinct, DistinctPath, Ptrs, PathPtrs, InOrder, Balanced, NoRedRed;
      ghost var h := Snap(nodes);
      var xPtr, yPtr;
      xPtr, yPtr, ht, spine, s := WalkSpine(right, stack, dir, i + 1, nodes, path, t);
      RecordTakeover(stack, dir, i, yPtr, path, Takeover(t, s), spine);
      assert Snap(nodes) == h;
      var up, upDir := null, 0;
      if i > 0 {
        up, upDir := stack[i - 1], dir[i - 1];
      }
      TakeOverFar(ptr, xPtr, yPtr, up, upDir, i, nodes, path, t, spine, s);
    }

    /** Lines 136-191: take the node `ptr` out of the tree. */
    method Unlink(ptr: RbNode, stack: array<RbNode?>, dir: array<Side>, ht0: nat,
                  ghost nodes: set<RbNode>, ghost path: Path, ghost t: Tree)
      returns (ht: nat, ghost q: Path, ghost u: Tree)
      requires t.Node? && t.ptr == ptr && Walking(Snap(nodes), root, tree, path, t, t.data)
      requires ht0 == |path| && Recorded(stack, dir, path, 0) && Height(tree) <= DEPTH
      modifies this`root, nodes, stack, dir
      ensures Zipped(Snap(nodes), root, q, u) && Unlinking(tree, t.data, ptr, q, u, ptr.color)
      ensures ht == |q| < DEPTH && Recorded(stack, dir, q, 0)
    {
      hide Rep, RepPath, Distinct, DistinctPath, Ptrs, PathPtrs, InOrder, Balanced, NoRedRed;
      ghost var h, r := Snap(nodes), root;
      ht := ht0;
      RootIff(h, root, path, t);
      WalkFacts(h, root, tree, path, t, t.data);
      if ptr.link[1] == null {
        LiftDone(h, root, tree, path, t);
        LiftLeft(ptr, stack, dir, ht, nodes, path, t);
        q, u := path, t.left;
      } else {
        StartSpinning(h, root, tree, path, t, t.data);
        var xPtr := ptr.link[1];
        if xPtr.link[0] == null {
          SpliceDone(h, r, tree, path, t, [], t.right);
          UnlinkNear(ptr, xPtr, stack, dir, ht, nodes, path, t, t.right);
          q, u := SplicedPath(path, t, [], t.right), t.right.right;
          ht := ht + 1;
        } else {
          ghost var spine, s;
          ht, spine, s := UnlinkFar(ptr, xPtr, stack, dir, ht, nodes, path, t);
          SpliceDone(h, r, tree, path, t, spine, s);
          q, u := SplicedPath(path, t, spine, s), s.right;
        }
      }
    }

    /** Lines 213-223, mirrored 261-271: a red sibling comes above the parent. `up`, if there is
        one, is the node whose link `upDir` leads to the parent. */
    method TurnSibling(p: RbNode, r: RbNode, s: Side, up: RbNode?, upDir: Side,
                       ghost nodes: set<RbNode>, ghost path: Path, ghost t: Tree)
      requires Zipped(Snap(nodes), root, path, t) && t.Node? && Kid(t, 1 - s).Node?
      requires p == t.ptr && r == Kid(t, 1 - s).ptr
      requires path != [] ==> up == Last(path).ptr && upDir == Last(path).dir
      modifies this`root, nodes
      ensures Zipped(Snap(nodes), root, path, Rolled(t, 1 - s, Black, Red))
    {
      hide Rep, RepPath, Distinct, DistinctPath, Ptrs, PathPtrs, InOrder;
      ghost var h := Snap(nodes);
      TurnCells(h, t, 1 - s);
      RolledContents(t, 1 - s, Black, Red);
      Apart(path, Ptrs(t));
      Regrow(h, RotateCells(h, p, r, 1 - s), root, path, t, Rolled(t, 1 - s, Black, Red));
      Turn(p, r, 1 - s, nodes);
      if p == root {
        root := r;
      } else {
        Assign(up, upDir, r, nodes);
      }
    }

    /** Lines 237-242, mirrored 284-289: the near nephew takes the sibling's place. */
    method TurnNephew(p: RbNode, r: RbNode, s: Side, ghost nodes: set<RbNode>, ghost path: Path, ghost t: Tree)
      returns (q: RbNode)
      requires Zipped(Snap(nodes), root, path, t) && t.Node? && Kid(t, 1 - s).Node? && Kid(Kid(t, 1 - s), s).Node?
      requires p == t.ptr && r == Kid(t, 1 - s).ptr
      modifies nodes
      ensures q == Kid(Kid(t, 1 - s), s).ptr
      ensures Zipped(Snap(nodes), root, path, WithKid(t, 1 - s, Rolled(Kid(t, 1 - s), s, Black, Red)))
    {
      hide Rep, RepPath, Distinct, DistinctPath, Ptrs, PathPtrs, InOrder;
      ghost var h, y := Snap(nodes), Kid(t, 1 - s);
      ghost var below, z := path + [StepInto(t, 1 - s)], Rolled(Kid(t, 1 - s), s, Black, Red);
      DescendCells(h, root, path, t, 1 - s);
      TurnCells(h, y, s);
      RolledContents(y, s, Black, Red);
      Apart(below, Ptrs(y));
      Regrow(h, RotateCells(h, y.ptr, Kid(y, s).ptr, s), root, below, y, z);
      q := r.link[s];
      Turn(r, q, s, nodes);
      Assign(p, 1 - s, q, nodes);
      ZipUp(Snap(nodes), root, below, z);
    }

    /** Lines 244-253, mirrored 291-300. */
    method FinishTurn(p: RbNode, r: RbNode, s: Side, up: RbNode?, upDir: Side,
                      ghost nodes: set<RbNode>, ghost path: Path, ghost t: Tree)
      requires Zipped(Snap(nodes), root, path, t) && t.Node? && Kid(t, 1 - s).Node? && Kid(Kid(t, 1 - s), 1 - s).Node?
      requires p == t.ptr && r == Kid(t, 1 - s).ptr
      requires path != [] ==> up == Last(path).ptr && upDir == Last(path).dir
      modifies this`root, nodes
      ensures Zipped(Snap(nodes), root, path, Finished(t, s))
    {
      hide Rep, RepPath, Distinct, DistinctPath, Ptrs, PathPtrs, InOrder;
      ghost var h, far := Snap(nodes), Kid(Kid(t, 1 - s), 1 - s);
      FinishedCells(h, t, s);
      FinishedContents(t, s);
      Apart(path, Ptrs(t));
      Regrow(h, FinishCells(h, t.ptr, Kid(t, 1 - s).ptr, far.ptr, s), root, path, t, Finished(t, s));
      FinishWrites(p, r, r.link[1 - s], s, nodes);
      if p == root {
        root := r;
      } else {
        Assign(up, upDir, r, nodes);
      }
    }

    /** Lines 232-254, mirrored 279-301: `r` is black. Without red nephews it turns red; otherwise
        it takes the parent's place, after a nephew has taken its own if need be. */
    method FixNephews(p: RbNode, r: RbNode, s: Side, up: RbNode?, upDir: Side,
                      ghost nodes: set<RbNode>, ghost path: Path, ghost t: Tree)
      returns (done: bool, ghost t': Tree)
      requires Zipped(Snap(nodes), root, path, t) && t.Node? && Kid(t, 1 - s).Node?
      requires p == t.ptr && r == Kid(t, 1 - s).ptr
      requires path != [] ==> up == Last(path).ptr && upDir == Last(path).dir
      modifies this`root, nodes
      ensures done <==> HasRedKid(Kid(t, 1 - s))
      ensures done ==> t' == Finished(Nudged(t, s), s)
      ensures !done ==> root == old(root) && t' == WithKid(t, 1 - s, Redden(Kid(t, 1 - s)))
      ensures Zipped(Snap(nodes), root, path, t') && SameContents(t', t)
    {
      hide Rep, RepPath, Distinct, DistinctPath, Ptrs, PathPtrs, InOrder;
      ghost var h, y := Snap(nodes), Kid(t, 1 - s);
      var near, far := r.link[s], r.link[1 - s];
      SiblingRep(h, t, s);
      if (near == null || near.color == Black) && (far == null || far.color == Black) {
        ReddenCells(h, t, 1 - s);
        Apart(path, Ptrs(t));
        RegrowInPlace(h, SetColor(h, r, Red), root, path, t, WithKid(t, 1 - s, Redden(y)));
        Paint(r, Red, nodes);
        return false, WithKid(t, 1 - s, Redden(y));
      }
      NudgedContents(t, s);
      FinishedContents(Nudged(t, s), s);
      var sibling := r;
      if far == null || far.color == Black {
        sibling := TurnNephew(p, r, s, nodes, path, t);
      }
      FinishTurn(p, sibling, s, up, upDir, nodes, path, Nudged(t, s));
      return true, Finished(Nudged(t, s), s);
    }

    /** Lines 208-230, mirrored 257-278, from the node the code takes for the sibling on. */
    method RaiseSibling(stack: array<RbNode?>, dir: array<Side>, ht0: nat, r0: RbNode, s: Side,
                        ghost nodes: set<RbNode>, ghost path: Path, ghost u: Tree)
      returns (ht: nat, r: RbNode?)
      requires Zipped(Snap(nodes), root, path, u) && Round(path, u, s)
      requires r0 == Kid(Family(path, u), 1 - s).ptr
      requires ht0 == |path| < DEPTH && Recorded(stack, dir, path, 0)
      modifies this`root, nodes, stack, dir
      ensures var q := Raised(path, s);
        && Zipped(Snap(nodes), root, q, u) && ht == |q| && Recorded(stack, dir, q, 0)
        && r == Top(Kid(Family(q, u), 1 - s))
    {
      hide Rep, RepPath, Distinct, DistinctPath, Ptrs, PathPtrs, InOrder;
      ht, r := ht0, r0;
      var p: RbNode := stack[ht - 1];
      ghost var t, h := Family(path, u), Snap(nodes);
      ZipUp(h, root, path, u);
      SiblingRep(h, t, s);
      if r.color == Red {
        SiblingAboveShape(path, u);
        TurnSibling(p, r, s, stack[ht - 2], dir[ht - 2], nodes, Front(path), t);
        ZipSibling(Snap(nodes), root, path, u, s);
        h := Snap(nodes);
        RecordSibling(stack, dir, ht, r, s, path);
        assert Snap(nodes) == h;
        ht := ht + 1;
        ZipUp(h, root, SiblingAbove(path), u);
        TopRep(h, Family(SiblingAbove(path), u), s);
        r := stack[ht - 1].link[1 - s];
      }
    }

    /** Lines 207-304, mirrored, from the node the code takes for the sibling on: one round. After a
        red sibling without a near child has been raised, line 232 dereferences null. */
    method ClimbRound(stack: array<RbNode?>, dir: array<Side>, ht0: nat, r0: RbNode, s: Side,
                      ghost nodes: set<RbNode>, ghost path: Path, ghost u: Tree)
      returns (done: bool, ht: nat, ghost ending: Ending, ghost t: Tree)
      requires Zipped(Snap(nodes), root, path, u) && Round(path, u, s)
      requires r0 == Kid(Family(path, u), 1 - s).ptr
      requires ht0 == |path| < DEPTH && Recorded(stack, dir, path, 0)
      modifies this`root, nodes, stack, dir
      ensures Raised(path, s) != []
      ensures done ==> Zipped(Snap(nodes), root, [], Climbed(path, u)) && ending == Climb(path, OpenOf(u))
      ensures !done ==>
                var q := Front(Raised(path, s));
                && Climbing(Snap(nodes), root, q, t, path, u) && (|q| < |path| || (|q| == |path| && ColorOf(t) == Red))
                && ht == |q| && Recorded(stack, dir, q, 0)
    {
      hide Rep, RepPath, Distinct, DistinctPath, Ptrs, PathPtrs, InOrder, Climb, Climbed, Raised;
      hide Nudged, Finished, SameContents, OpenOf;
      ghost var q := Raised(path, s);
      ClimbRounds(path, u, s);
      RaisedContents(path, u, s);
      var r;
      ht, r := RaiseSibling(stack, dir, ht0, r0, s, nodes, path, u);
      if r == null {
        Whole(Snap(nodes), root, q, u);
        return true, ht, NullSibling, u;
      }
      done, t := EndRound(stack, dir, ht, r, s, nodes, q, u);
      ending := if dir[ht - 1] == s then Restored else WrongSide;
      if done {
        Whole(Snap(nodes), root, Front(q), t);
      } else {
        ht := ht - 1;
      }
    }

    /** Lines 232-254, mirrored 279-301, in the loop. */
    method EndRound(stack: array<RbNode?>, dir: array<Side>, ht: nat, r: RbNode, s: Side,
                    ghost nodes: set<RbNode>, ghost q: Path, ghost u: Tree)
      returns (done: bool, ghost t: Tree)
      requires Zipped(Snap(nodes), root, q, u) && |q| >= 2 && Kid(Family(q, u), 1 - s).Node?
      requires r == Kid(Family(q, u), 1 - s).ptr
      requires ht == |q| && Recorded(stack, dir, q, 0)
      modifies this`root, nodes
      ensures Recorded(stack, dir, Front(q), 0) && Zipped(Snap(nodes), root, Front(q), t)
      ensures done <==> HasRedKid(Kid(Family(q, u), 1 - s))
      ensures done ==> t == Finished(Nudged(Family(q, u), s), s)
      ensures !done ==> t == WithKid(Family(q, u), 1 - s, Redden(Kid(Family(q, u), 1 - s)))
    {
      hide Rep, RepPath, Distinct, DistinctPath, Ptrs, PathPtrs, InOrder, Nudged, Finished, SameContents;
      ZipUp(Snap(nodes), root, q, u);
      done, t := FixNephews(stack[ht - 1], r, s, stack[ht - 2], dir[ht - 2], nodes, Front(q), Family(q, u));
    }

    /** The loop of lines 197-305, both sides at once. */
    method ClimbLoop(stack: array<RbNode?>, dir: array<Side>, height: nat,
                     ghost nodes: set<RbNode>, ghost path0: Path, ghost u0: Tree)
      returns (ghost ending: Ending)
      requires path0 != [] && Zipped(Snap(nodes), root, path0, u0)
      requires height == |path0| < DEPTH && Recorded(stack, dir, path0, 0)
      modifies this`root, nodes, stack, dir
      ensures Zipped(Snap(nodes), root, [], Climbed(path0, u0)) && ending == Climb(path0, OpenOf(u0))
    {
      hide Rep, RepPath, Distinct, DistinctPath, Ptrs, PathPtrs, InOrder, Climb, Climbed, Raised;
      hide Zipped, SameContents;
      var ht := height;
      ghost var path, u := path0, u0;
      while true
        invariant Climbing(Snap(nodes), root, path, u, path0, u0)
        invariant ht == |path| < DEPTH && Recorded(stack, dir, path, 0)
        decreases ht, ColorOf(u) == Black
      {
        ghost var h := Snap(nodes);
        ClimbingRep(h, root, path, u, path0, u0);
        var pPtr := stack[ht - 1].link[dir[ht - 1]];
        if pPtr != null && pPtr.color == Red {
          ClimbPaints(h, root, path, u, path0, u0);
          Paint(pPtr, Black, nodes);
          return Restored;
        }
        if ht < 2 {
          return AtRoot;
        }
        var s := dir[ht - 2];
        var rPtr := stack[ht - 1].link[1 - s];
        if rPtr == null {
          return if s == dir[ht - 1] then NoSibling else WrongSide;
        }
        var done;
        ghost var t;
        done, ht, ending, t := ClimbRound(stack, dir, ht, rPtr, s, nodes, path, u);
        if done {
          return;
        }
        path, u := Front(Raised(path, s)), t;
      }
    }

    /** Lines 193-306. */
    method Settle(ptr: RbNode, stack: array<RbNode?>, dir: array<Side>, ht: nat, ghost nodes: set<RbNode>,
                  ghost k: int32, ghost q: Path, ghost u: Tree)
      returns (ghost ending: Ending)
      requires Zipped(Snap(nodes), root, q, u) && Unlinking(tree, k, ptr, q, u, ptr.color)
      requires ht == |q| < DEPTH && Recorded(stack, dir, q, 0)
      modifies this`root, nodes, stack, dir
      ensures Zipped(Snap(nodes), root, [], Deleted(old(tree), k)) && ending == Fate(old(tree), k)
    {
      hide Rep, RepPath, Distinct, DistinctPath, Ptrs, PathPtrs, InOrder, Climb, Climbed, PathTo, Unlinked;
      if ht < 1 || ptr.color == Red {
        Whole(Snap(nodes), root, q, u);
        return Restored;
      }
      ending := ClimbLoop(stack, dir, ht, nodes, q, u);
    }

    /** deletion. The key has to be in the tree: line 136 dereferences `ptr`. After the ending
        NullSibling the program is no longer running. */
    method Deletion(data: int32) returns (ghost ending: Ending)
      requires Sound() && Height(tree) <= DEPTH
      requires tree.Node? ==> data in InOrder(tree)
      requires forall k :: k in InOrder(tree) ==> INT_MIN <= (data as int) - (k as int) <= INT_MAX
      modifies this, Ptrs(tree)
      ensures Sound() && Ptrs(tree) <= old(Ptrs(tree))
      ensures old(tree) == Leaf ==> tree == Leaf && ending == Restored
      ensures old(tree) != Leaf ==>
                && Removed(old(InOrder(tree)), data, InOrder(tree))
                && ending == Fate(old(tree), data) && tree == Deleted(old(tree), data)
      ensures old(Valid()) ==> ending in {Restored, AtRoot, WrongSide}
      ensures old(Valid()) ==> (ending == Restored <==> Valid()) && (ending == Restored <==> Balanced(tree))
    {
      if root == null {
        return Restored;
      }
      var stack, dir := new RbNode?[DEPTH], new Side[DEPTH];
      ending := DeleteBelow(data, stack, dir);
    }

    /** Lines 126-306: the tree is not empty. */
    method DeleteBelow(data: int32, stack: array<RbNode?>, dir: array<Side>) returns (ghost ending: Ending)
      requires Sound() && Height(tree) <= DEPTH && data in InOrder(tree) && stack.Length == dir.Length == DEPTH
      requires forall k :: k in InOrder(tree) ==> INT_MIN <= (data as int) - (k as int) <= INT_MAX
      modifies this, Ptrs(tree), stack, dir
      ensures Sound() && Ptrs(tree) <= old(Ptrs(tree)) && tree == Deleted(old(tree), data)
      ensures Removed(old(InOrder(tree)), data, InOrder(tree))
      ensures ending == Fate(old(tree), data) && (old(RedBlack(tree)) ==> ending in {Restored, AtRoot, WrongSide})
      ensures old(RedBlack(tree)) ==> if ending == Restored then RedBlack(tree) else !Balanced(tree)
    {
      hide Loose, Rep, Distinct, RedBlack, Balanced, Fate, Deleted, InOrder, Height;
      var ptr, ht;
      ghost var path, t;
      ptr, ht, path, t := Find(data, stack, dir);
      assert Snap(Ptrs(tree)) == old(Snap(Ptrs(tree)));
      ending := Remove(ptr, stack, dir, ht, path, t);
    }

    /** Lines 136-306: the key has been found. */
    method Remove(ptr: RbNode, stack: array<RbNode?>, dir: array<Side>, ht0: nat, ghost path: Path, ghost t: Tree)
      returns (ghost ending: Ending)
      requires t.Node? && t.ptr == ptr && Walking(Snap(Ptrs(tree)), root, tree, path, t, t.data)
      requires ht0 == |path| && Recorded(stack, dir, path, 0) && Height(tree) <= DEPTH
      modifies this, Ptrs(tree), stack, dir
      ensures Sound() && Ptrs(tree) <= old(Ptrs(tree)) && tree == Deleted(old(tree), t.data)
      ensures Removed(old(InOrder(tree)), t.data, InOrder(tree))
      ensures ending == Fate(old(tree), t.data) && (old(RedBlack(tree)) ==> ending in {Restored, AtRoot, WrongSide})
      ensures old(RedBlack(tree)) ==> if ending == Restored then RedBlack(tree) else !Balanced(tree)
    {
      hide RedBlack, Balanced, Fate, Deleted, NoRedRed, Height;
      var ht;
      ghost var q, u;
      ghost var nodes := Ptrs(tree);
      ht, q, u := Unlink(ptr, stack, dir, ht0, nodes, path, t);
      DeletedIs(tree, t.data, ptr, q, u, ptr.color);
      ending := Settle(ptr, stack, dir, ht, nodes, t.data, q, u);
      Install(nodes, Deleted(tree, t.data));
    }

    /** The ghost field follows the cells. */
    ghost method Install(nodes: set<RbNode>, whole: Tree)
      requires Rep(Snap(nodes), whole) && Ptrs(whole) <= nodes
      modifies this`tree
      ensures tree == whole && Rep(Snap(Ptrs(whole)), whole)
    {
      RepFrame(Snap(nodes), Snap(Ptrs(whole)), whole);
      tree := whole;
    }

    // ---------- traversals ----------

    /** inorderTraversal: the keys printed, in order. */
    static method InorderTraversal(node: RbNode?, ghost nodes: set<RbNode>, ghost t: Tree) returns (out: seq<int32>)
      requires Rep(Snap(nodes), t) && node == Top(t)
      ensures out == InOrder(t) && (Sorted(InOrder(t)) ==> Sorted(out))
      decreases t
    {
      out := [];
      if node != null {
        var before := InorderTraversal(node.link[0], nodes, t.left);
        var after := InorderTraversal(node.link[1], nodes, t.right);
        out := before + [node.data] + after;
      }
    }

    /** leftMostNode: the least key. */
    static method LeftMostNode(node: RbNode, ghost nodes: set<RbNode>, ghost t: Tree) returns (least: int32)
      requires Rep(Snap(nodes), t) && node == Top(t) && Sorted(InOrder(t))
      ensures least in InOrder(t) && forall k :: k in InOrder(t) ==> least <= k
      decreases t
    {
      SubtreeSorted(t);
      if node.link[0] != null {
        least := LeftMostNode(node.link[0], nodes, t.left);
        SortedAround(InOrder(t.left), t.data, InOrder(t.right));
      } else {
        SortedAround([], t.data, InOrder(t.right));
        assert [] + [t.data] + InOrder(t.right) == InOrder(t);
        least := node.data;
      }
    }
  }
}
