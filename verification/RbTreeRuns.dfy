/** Runs of schproj/rbt.c: what any number of insertions builds, what deletion undoes, and
    trees on which deletion does not end red-black. */
module RbTreeRuns {
  import opened RbTreeModel
  import opened RbTreeCells
  import opened RbTreeClimb
  import opened RbTreeUnlink
  import opened RbTree

  ghost function KeysOf(s: seq<int32>): set<int32> {
    set k | k in s
  }

  lemma InsertedKeys(s: seq<int32>, k: int32, s': seq<int32>)
    requires Inserted(s, k, s')
    ensures KeysOf(s') == KeysOf(s) + {k}
  {
    if k !in s {
      var i :| 0 <= i <= |s| && s' == s[..i] + [k] + s[i..];
      assert s == s[..i] + s[i..];
    }
  }

  /** Line 46 computes differences of keys in int. */
  predicate Comparable(keys: seq<int32>) {
    forall i, j :: 0 <= i < |keys| && 0 <= j < |keys| ==> INT_MIN <= (keys[i] as int) - (keys[j] as int) <= INT_MAX
  }

  /** Any sequence of insertions into the empty tree leaves a red-black tree on exactly the keys
      inserted, so shallow that 65 of the 98 path entries are the most an insertion ever uses. */
  method InsertAll(keys: seq<int32>) returns (t: RedBlackTree)
    requires Comparable(keys)
    ensures fresh(t) && t.Valid() && KeysOf(InOrder(t.tree)) == KeysOf(keys)
    ensures Pow2(Height(t.tree) / 2) <= |InOrder(t.tree)| + 1 && Height(t.tree) + 1 <= 65
  {
    hide RedBlack, Loose, Distinct, Rep, InOrder, Ptrs, KeysOf, Comparable, Height;
    t := new RedBlackTree();
    var i := 0;
    NoKeys(keys);
    while i < |keys|
      invariant 0 <= i <= |keys| && fresh(t) && t.Valid() && fresh(Ptrs(t.tree))
      invariant KeysOf(InOrder(t.tree)) == KeysOf(keys[..i])
    {
      KeyIsOneOf(InOrder(t.tree), keys, i);
      ghost var s := InOrder(t.tree);
      HeightAtMost64(t.tree);
      t.Insertion(keys[i]);
      InsertedKeys(s, keys[i], InOrder(t.tree));
      OneMoreKey(keys, i);
      i := i + 1;
    }
    assert keys[..i] == keys;
    LogarithmicHeight(t.tree);
    HeightAtMost64(t.tree);
  }

  lemma NoKeys(keys: seq<int32>)
    ensures KeysOf(InOrder(Leaf)) == KeysOf(keys[..0]) && Ptrs(Leaf) == {}
  {
  }

  lemma OneMoreKey(keys: seq<int32>, i: nat)
    requires i < |keys|
    ensures KeysOf(keys[..i + 1]) == KeysOf(keys[..i]) + {keys[i]}
  {
    assert keys[..i + 1] == keys[..i] + [keys[i]];
  }

  lemma KeyIsOneOf(s: seq<int32>, keys: seq<int32>, i: nat)
    requires Comparable(keys) && i < |keys| && KeysOf(s) == KeysOf(keys[..i])
    ensures forall k :: k in s ==> INT_MIN <= (keys[i] as int) - (k as int) <= INT_MAX
  {
    forall k | k in s ensures INT_MIN <= (keys[i] as int) - (k as int) <= INT_MAX {
      assert k in KeysOf(keys[..i]);
      var j :| 0 <= j < i && keys[..i][j] == k;
      assert keys[j] == k;
    }
  }

  /** Deleting the key just inserted gives back the keys there were; the tree is red-black again
      exactly if deletion's loop does not stop short on the tree in between. */
  method InsertThenDelete(t: RedBlackTree, k: int32) returns (ghost between: Tree)
    requires t.Valid() && k !in InOrder(t.tree)
    requires forall x :: x in InOrder(t.tree) ==> INT_MIN <= (k as int) - (x as int) <= INT_MAX
    modifies t, Ptrs(t.tree)
    ensures InOrder(t.tree) == old(InOrder(t.tree))
    ensures RedBlack(between) && Inserted(old(InOrder(t.tree)), k, InOrder(between))
    ensures t.Valid() <==> Fate(between, k) == Restored
  {
    hide RedBlack, Loose, Distinct, Rep, Fate, Deleted, InOrder, Ptrs, Sorted, Height;
    ghost var s := InOrder(t.tree);
    HeightAtMost64(t.tree);
    t.Insertion(k);
    between := t.tree;
    HeightAtMost64(between);
    InsertedKeys(s, k, InOrder(between));
    StillFits(s, k, between);
    var _ := t.Deletion(k);
    InsertThenRemove(s, k, InOrder(between), InOrder(t.tree));
  }

  lemma StillFits(s: seq<int32>, k: int32, t: Tree)
    requires RedBlack(t) && KeysOf(InOrder(t)) == KeysOf(s) + {k}
    requires forall x :: x in s ==> INT_MIN <= (k as int) - (x as int) <= INT_MAX
    ensures t != Leaf && k in InOrder(t) && Sorted(InOrder(t))
    ensures forall x :: x in InOrder(t) ==> INT_MIN <= (k as int) - (x as int) <= INT_MAX
  {
    forall x | x in InOrder(t) ensures INT_MIN <= (k as int) - (x as int) <= INT_MAX {
      assert x in KeysOf(s) + {k};
    }
    assert k in KeysOf(InOrder(t));
  }

  lemma InsertThenRemove(s: seq<int32>, k: int32, s': seq<int32>, s'': seq<int32>)
    requires k !in s && Inserted(s, k, s') && Sorted(s') && Removed(s', k, s'')
    ensures s'' == s
  {
    var i :| 0 <= i <= |s| && s' == s[..i] + [k] + s[i..];
    RemoveOnly(s[..i], k, s[i..], s'');
    assert s[..i] + s[i..] == s;
  }

  lemma OneAt(s: seq<int32>, i: nat, j: nat)
    requires Sorted(s) && i < |s| && j < |s| && s[i] == s[j]
    ensures i == j
  {
  }

  lemma RemoveOnly(b: seq<int32>, k: int32, a: seq<int32>, s'': seq<int32>)
    requires Sorted(b + [k] + a) && Removed(b + [k] + a, k, s'')
    ensures s'' == b + a
  {
    var s' := b + [k] + a;
    var j :| 0 <= j < |s'| && s'[j] == k && s'' == s'[..j] + s'[j + 1..];
    OneAt(s', |b|, j);
    assert s'[..|b|] == b && s'[|b| + 1..] == a;
  }

  // ---------- where deletion stops short ----------

  function One(n: RbNode, k: int32, c: Color): Tree {
    Node(n, k, c, Leaf, Leaf)
  }

  lemma OneNode(n: RbNode, k: int32, c: Color)
    ensures var t := One(n, k, c);
      && InOrder(t) == [k] && Balanced(t) && NoRedRed(t) && BlackHeight(t) == Blacks(c) && Height(t) == 1
      && Unlinked(t, k) == (c, Leaf) && First(t) == t && PathTo(t, k) == FirstPath(t) == []
  {
    var t := One(n, k, c);
    assert InOrder(t.left) == [] && Balanced(t.left) && NoRedRed(t.left);
  }

  /** The tree inserting 1, 2, 3, 4 builds. */
  function Four(n: seq<RbNode>): Tree
    requires |n| == 4
  {
    Node(n[0], 2, Black, One(n[1], 1, Black), Node(n[2], 3, Black, Leaf, One(n[3], 4, Red)))
  }

  lemma FourFacts(n: seq<RbNode>)
    requires |n| == 4
    ensures RedBlack(Four(n)) && InOrder(Four(n)) == [1, 2, 3, 4] && Fate(Four(n), 1) == AtRoot
  {
    var t := Four(n);
    var r := t.right;
    OneNode(n[1], 1, Black);
    OneNode(n[3], 4, Red);
    assert InOrder(r) == [3, 4] && Balanced(r) && NoRedRed(r) && BlackHeight(r) == 1;
    assert InOrder(t) == [1, 2, 3, 4];
    assert PathTo(t, 1) == [StepInto(t, 0)] + PathTo(t.left, 1) == [StepInto(t, 0)];
  }

  /** Deleting 1 from it leaves at line 205 with unequal black counts. */
  method DeletionCanStopShort(t: RedBlackTree, ghost n: seq<RbNode>) returns (ghost ending: Ending)
    requires t.Valid() && |n| == 4 && t.tree == Four(n)
    modifies t, Ptrs(t.tree)
    ensures ending == AtRoot && InOrder(t.tree) == [2, 3, 4] && !Balanced(t.tree)
  {
    FourFacts(n);
    HeightAtMost64(t.tree);
    hide RedBlack, Loose, Distinct, Rep, Fate, Deleted, Four, Height;
    ending := t.Deletion(1);
    assert InOrder(old(t.tree)) == [] + [1] + [2, 3, 4];
    RemoveOnly([], 1, [2, 3, 4], InOrder(t.tree));
    assert [] + [2, 3, 4] == [2, 3, 4];
  }

  /** A full tree of black nodes. */
  function Seven(n: seq<RbNode>): Tree
    requires |n| == 7
  {
    Node(n[0], 4, Black, Node(n[1], 2, Black, One(n[2], 1, Black), One(n[3], 3, Black)),
         Node(n[4], 6, Black, One(n[5], 5, Black), One(n[6], 7, Black)))
  }

  lemma SevenFacts(n: seq<RbNode>)
    requires |n| == 7
    ensures RedBlack(Seven(n)) && InOrder(Seven(n)) == [1, 2, 3, 4, 5, 6, 7]
    ensures Fate(Seven(n), 1) == Fate(Seven(n), 7) == AtRoot && Fate(Seven(n), 3) == Fate(Seven(n), 5) == WrongSide
  {
    var t := Seven(n);
    OneNode(n[2], 1, Black);
    OneNode(n[3], 3, Black);
    OneNode(n[5], 5, Black);
    OneNode(n[6], 7, Black);
    assert InOrder(t.left) == [1, 2, 3] && InOrder(t.right) == [5, 6, 7];
    assert InOrder(t) == [1, 2, 3] + [4] + [5, 6, 7];
    TwoSteps(t, 0, 0, 1);
    TwoSteps(t, 0, 1, 3);
    TwoSteps(t, 1, 0, 5);
    TwoSteps(t, 1, 1, 7);
  }

  /** Nothing is red, so nothing makes up for a missing leaf: below an outer turn the loop climbs
      to the root's child, and below an inner turn it looks at the wrong side. */
  method DeletionFromSeven(t: RedBlackTree, ghost n: seq<RbNode>, k: int32) returns (ghost ending: Ending)
    requires t.Valid() && |n| == 7 && t.tree == Seven(n) && k in {1, 3, 5, 7}
    modifies t, Ptrs(t.tree)
    ensures ending == (if k == 1 || k == 7 then AtRoot else WrongSide) && !Balanced(t.tree)
    ensures Removed([1, 2, 3, 4, 5, 6, 7], k, InOrder(t.tree))
  {
    SevenFacts(n);
    HeightAtMost64(t.tree);
    hide RedBlack, Loose, Distinct, Rep, Fate, Deleted, Seven, Height;
    ending := t.Deletion(k);
  }

  lemma TwoSteps(t: Tree, d: Side, e: Side, k: int32)
    requires t.Node? && Kid(t, d).Node? && (if d == 1 then k > t.data else k < t.data)
    requires (if e == 1 then k > Kid(t, d).data else k < Kid(t, d).data)
    requires Kid(Kid(t, d), e).Node? && Kid(Kid(t, d), e) == One(Kid(Kid(t, d), e).ptr, k, Black)
    ensures Unlinked(t, k) == (Black, Leaf) && PathTo(t, k) == [StepInto(t, d), StepInto(Kid(t, d), e)]
    ensures var p, r := Kid(t, d), Kid(Kid(t, d), 1 - e);
            Fate(t, k) == if d != e then WrongSide
                          else if r.Leaf? then NoSibling
                          else if r.color == Red then if Kid(r, e).Leaf? then NullSibling else Restored
                          else if p.color == Red || HasRedKid(r) then Restored
                          else AtRoot
  {
    var x := Kid(Kid(t, d), e);
    OneNode(x.ptr, k, Black);
    assert PathTo(Kid(t, d), k) == [StepInto(Kid(t, d), e)] + PathTo(x, k);
    assert PathTo(t, k) == [StepInto(t, d)] + PathTo(Kid(t, d), k);
    var path := [StepInto(t, d), StepInto(Kid(t, d), e)];
    assert PathTo(t, k) == path && Front(path) == [StepInto(t, d)] && Last(path) == StepInto(Kid(t, d), e);
    assert Last(Front(path)).dir == d && Last(path).dir == e;
    assert Climb(Front(path), BlackNode(true)) == AtRoot;
    assert Unlinked(t, k) == Unlinked(Kid(t, d), k) == Unlinked(x, k) == (Black, Leaf) && t.data != k;
  }

  function Eight(n: seq<RbNode>): Tree
    requires |n| == 8
  {
    Node(n[0], 8, Black,
         Node(n[1], 4, Black, One(n[2], 2, Black), Node(n[3], 6, Black, Leaf, One(n[4], 7, Red))),
         Node(n[5], 12, Black, One(n[6], 10, Black), One(n[7], 14, Black)))
  }

  lemma EightFacts(n: seq<RbNode>)
    requires |n| == 8
    ensures RedBlack(Eight(n)) && InOrder(Eight(n)) == [2, 4, 6, 7, 8, 10, 12, 14]
    ensures !Settles(Eight(n), 2) && Fate(Eight(n), 2) == Restored
  {
    var t := Eight(n);
    OneNode(n[2], 2, Black);
    OneNode(n[4], 7, Red);
    OneNode(n[6], 10, Black);
    OneNode(n[7], 14, Black);
    assert InOrder(t.left.right) == [6, 7] && InOrder(t.left) == [2, 4, 6, 7] && InOrder(t.right) == [10, 12, 14];
    assert InOrder(t) == [2, 4, 6, 7] + [8] + [10, 12, 14];
    assert Balanced(t.left.right) && Balanced(t.left) && Balanced(t.right);
    assert NoRedRed(t.left.right);
    TwoSteps(t, 0, 0, 2);
  }

  /** Where a nephew is red the loop does repair: deletion of 2 below an outer turn. */
  method DeletionCanRepair(t: RedBlackTree, ghost n: seq<RbNode>) returns (ghost ending: Ending)
    requires t.Valid() && |n| == 8 && t.tree == Eight(n)
    modifies t, Ptrs(t.tree)
    ensures ending == Restored && t.Valid() && Removed([2, 4, 6, 7, 8, 10, 12, 14], 2, InOrder(t.tree))
  {
    EightFacts(n);
    HeightAtMost64(t.tree);
    hide RedBlack, Loose, Distinct, Rep, Fate, Deleted, Eight, Height;
    ending := t.Deletion(2);
  }

  // ---------- where a second deletion fails ----------

  /** The tree inserting 9, 1, 10, 7, 2, 4, 8, 6, 3, 5 builds; and what deleting 2 from it leaves,
      with 3 in the place of 2. */
  function Ten(n: seq<RbNode>, two: Tree): Tree
    requires |n| == 10
  {
    Node(n[0], 7, Black, two, Node(n[5], 9, Black, One(n[6], 8, Black), One(n[7], 10, Black)))
  }

  function Two(n: seq<RbNode>): Tree
    requires |n| == 10
  {
    Node(n[1], 2, Black, One(n[2], 1, Black), Node(n[3], 4, Red, One(n[4], 3, Black), Six(n)))
  }

  function Three(n: seq<RbNode>): Tree
    requires |n| == 10
  {
    Node(n[4], 3, Black, One(n[2], 1, Black), Node(n[3], 4, Red, Leaf, Six(n)))
  }

  function Six(n: seq<RbNode>): Tree
    requires |n| == 10
  {
    Node(n[8], 6, Black, One(n[9], 5, Red), Leaf)
  }

  lemma TenFacts(n: seq<RbNode>)
    requires |n| == 10
    ensures RedBlack(Ten(n, Two(n))) && InOrder(Ten(n, Two(n))) == [1, 2, 3, 4, 5, 6, 7, 8, 9, 10]
    ensures InOrder(Ten(n, Three(n))) == [1, 3, 4, 5, 6, 7, 8, 9, 10] && Height(Ten(n, Three(n))) == 5
  {
    var t, two, three := Ten(n, Two(n)), Two(n), Three(n);
    OneNode(n[2], 1, Black);
    OneNode(n[4], 3, Black);
    OneNode(n[6], 8, Black);
    OneNode(n[7], 10, Black);
    OneNode(n[9], 5, Red);
    assert InOrder(Six(n)) == [5, 6] && Balanced(Six(n)) && NoRedRed(Six(n)) && BlackHeight(Six(n)) == 1;
    assert InOrder(two.right) == [3, 4, 5, 6] && Balanced(two.right) && NoRedRed(two.right);
    assert InOrder(three.right) == [4, 5, 6];
    assert InOrder(two) == [1, 2, 3, 4, 5, 6] && Balanced(two) && NoRedRed(two);
    assert InOrder(three) == [1, 3, 4, 5, 6];
    assert InOrder(t.right) == [8, 9, 10] && Balanced(t.right) && NoRedRed(t.right);
    assert InOrder(t) == [1, 2, 3, 4, 5, 6] + [7] + [8, 9, 10];
    assert InOrder(Ten(n, three)) == [1, 3, 4, 5, 6] + [7] + [8, 9, 10];
    assert Height(Six(n)) == 2 && Height(three.right) == 3 && Height(three) == 4 && Height(t.right) == 2;
  }

  lemma TenFates(n: seq<RbNode>)
    requires |n| == 10
    ensures Fate(Ten(n, Two(n)), 2) == WrongSide && Deleted(Ten(n, Two(n)), 2) == Ten(n, Three(n))
    ensures Fate(Ten(n, Three(n)), 1) == NullSibling
  {
    var t, two, r := Ten(n, Two(n)), Two(n), Two(n).right;
    var path := [StepInto(t, 0), Takeover(two, r.left), StepInto(r, 0)];
    assert FirstPath(r) == [StepInto(r, 0)] + FirstPath(r.left) == [StepInto(r, 0)] && First(r) == r.left;
    assert PathTo(two, 2) == [Takeover(two, r.left)] + FirstPath(r);
    assert PathTo(t, 2) == [StepInto(t, 0)] + PathTo(two, 2) == path;
    assert Unlinked(t, 2) == Unlinked(two, 2) == (Black, Leaf);
    assert Front(path) == [StepInto(t, 0), Takeover(two, r.left)] && Front(Front(path)) == [StepInto(t, 0)];
    assert Front([StepInto(t, 0)]) == [];
    assert Climbed(path, Leaf) == Plug(path, Leaf) == Plug(Front(path), Three(n).right);
    assert Plug(Front(path), Three(n).right) == Plug([StepInto(t, 0)], Three(n)) == Plug([], Ten(n, Three(n)));
    TwoSteps(Ten(n, Three(n)), 0, 0, 1);
  }

  /** From a red-black tree: deleting 2 ends on the wrong side, and then deleting 1 dereferences the
      null that is the near child of the red sibling. */
  method DeletionCanFail(t: RedBlackTree, ghost n: seq<RbNode>) returns (ghost first: Ending, ghost second: Ending)
    requires t.Valid() && |n| == 10 && t.tree == Ten(n, Two(n))
    modifies t, Ptrs(t.tree)
    ensures first == WrongSide && second == NullSibling
  {
    TenFacts(n);
    TenFates(n);
    HeightAtMost64(t.tree);
    hide RedBlack, Loose, Distinct, Rep, Fate, Deleted, Ten, Height;
    first := t.Deletion(2);
    second := t.Deletion(1);
  }
}
