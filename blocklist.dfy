/**
 * The IP blocklist (`lib/blocklist.js`): an AVL tree of address ranges
 * ordered by their start, each node caching the subtree's `depth` and the
 * largest range end below it (`max`), so that `contains` can walk a single
 * path from the root.
 *
 * The source rebuilds nodes in place (`add` assigns child links and
 * fields, the rotations swap `start`/`end` between two node objects). Here a
 * tree is a value and each operation returns the rebuilt tree; the list
 * object `that` is the class `BlockSet`, whose `tree` field is reassigned.
 */
module Blocklist {
  import opened Wrappers

  /** An address range `[start, end]`, as numbers (`ip.toLong` of the dotted form). */
  datatype Range = Range(start: int, end: int)

  /** A `BlockTree` node with its cached `max` and `depth`; `Nil` is `null`. */
  datatype Tree = Nil | Node(left: Tree, start: int, end: int, max: int, depth: nat, right: Tree)

  /** `node ? node.depth : 0` */
  function Depth(t: Tree): nat
  {
    if t.Node? then t.depth else 0
  }

  /** `node ? node.max : 0` */
  function MaxOf(t: Tree): int
  {
    if t.Node? then t.max else 0
  }

  function Max(a: int, b: int): int
  {
    if a >= b then a else b
  }

  /** `new BlockTree(start, end)`: a single node, `max = end`, `depth = 1`. */
  function Leaf(start: int, end: int): Tree
  {
    Node(Nil, start, end, end, 1, Nil)
  }

  /**
   * `update()`: `depth` becomes one more than the deeper child's, and `max`
   * the largest of the node's own end and its children's `max`.
   */
  function Update(t: Tree): (r: Tree)
    requires t.Node?
    ensures r.Node? && r.left == t.left && r.right == t.right && r.start == t.start && r.end == t.end
    ensures r.depth == 1 + Max(Depth(t.left), Depth(t.right))
    ensures r.max == Max(t.end, Max(MaxOf(t.left), MaxOf(t.right)))
  {
    var depth := if t.left.Node? then t.left.depth + 1 else 1;
    var depth' := if t.right.Node? && depth <= t.right.depth then t.right.depth + 1 else depth;
    t.(depth := depth', max := Max(t.end, Max(MaxOf(t.left), MaxOf(t.right))))
  }

  /**
   * `rotateLL()`: the left child's range moves up; the old left node takes
   * this node's range and becomes the right child, over the left child's
   * right subtree and this node's right subtree.
   */
  function RotateLL(t: Tree): Tree
    requires t.Node? && t.left.Node?
  {
    var l := t.left;
    var right := Update(l.(left := l.right, right := t.right, start := t.start, end := t.end));
    Update(t.(start := l.start, end := l.end, right := right, left := l.left))
  }

  /** `rotateRR()`: the mirror image of `rotateLL()`. */
  function RotateRR(t: Tree): Tree
    requires t.Node? && t.right.Node?
  {
    var r := t.right;
    var left := Update(r.(right := r.left, left := t.left, start := t.start, end := t.end));
    Update(t.(start := r.start, end := r.end, left := left, right := r.right))
  }

  /**
   * `balance()`: when one child is more than one level deeper than the
   * other, a single rotation towards the shallow side, preceded by a
   * rotation of the deep child when its inner grandchild is the deeper one.
   */
  function Balance(t: Tree): Tree
    requires t.Node?
  {
    var ldepth := Depth(t.left);
    var rdepth := Depth(t.right);
    if ldepth > rdepth + 1 then
      var t' := if Depth(t.left.left) < Depth(t.left.right) then t.(left := RotateRR(t.left)) else t;
      RotateLL(t')
    else if ldepth + 1 < rdepth then
      var t' := if Depth(t.right.left) > Depth(t.right.right) then t.(right := RotateLL(t.right)) else t;
      RotateRR(t')
    else
      t
  }

  /**
   * `add(start, end)` on a node: the rebuilt subtree, and whether anything
   * changed (`update`). An equal start only widens the node's end, when the
   * new end is larger; otherwise the range goes left or right by its start.
   */
  function NodeAdd(t: Tree, start: int, end: int): (Tree, bool)
    requires t.Node?
  {
    var d := start - t.start;
    if d == 0 && t.end < end then
      (Update(t.(end := end)), true)
    else if d < 0 then
      if t.left.Node? then
        var (left, update) := NodeAdd(t.left, start, end);
        var t' := t.(left := left);
        if update then (Update(Balance(t')), true) else (t', false)
      else
        (Update(t.(left := Leaf(start, end))), true)
    else if d > 0 then
      if t.right.Node? then
        var (right, update) := NodeAdd(t.right, start, end);
        var t' := t.(right := right);
        if update then (Update(Balance(t')), true) else (t', false)
      else
        (Update(t.(right := Leaf(start, end))), true)
    else
      (t, false)
  }

  // ---------------------------------------------------------------------
  // What a tree means: its ranges in order, and its cached fields.
  // ---------------------------------------------------------------------

  /** The ranges of the tree, left to right. */
  function Inorder(t: Tree): seq<Range>
  {
    if t.Nil? then [] else Inorder(t.left) + [Range(t.start, t.end)] + Inorder(t.right)
  }

  /** A binary search tree by start: starts strictly increase left to right. */
  predicate Sorted(rs: seq<Range>)
  {
    forall i, j :: 0 <= i < j < |rs| ==> rs[i].start < rs[j].start
  }

  /** Every range is a proper one of non-negative addresses. */
  predicate Proper(rs: seq<Range>)
  {
    forall k :: 0 <= k < |rs| ==> 0 <= rs[k].start <= rs[k].end
  }

  /** Some range holds `addr`. */
  predicate Covered(rs: seq<Range>, addr: int)
  {
    exists k :: 0 <= k < |rs| && rs[k].start <= addr <= rs[k].end
  }

  /** Every node's `depth` and `max` are what `update()` computes from its children. */
  predicate Cached(t: Tree)
  {
    t.Nil? ||
    (Cached(t.left) && Cached(t.right)
     && t.depth == 1 + Max(Depth(t.left), Depth(t.right))
     && t.max == Max(t.end, Max(MaxOf(t.left), MaxOf(t.right))))
  }

  /** The AVL condition: at every node the child depths differ by at most one. */
  predicate Balanced(t: Tree)
  {
    t.Nil? || (Balanced(t.left) && Balanced(t.right) && -1 <= Depth(t.left) - Depth(t.right) <= 1)
  }

  /**
   * The sorted list of ranges after adding `[start, end]`: a range with the
   * same start is widened to the larger end, otherwise the new range is
   * placed before the first range with a larger start.
   */
  function InsertRange(rs: seq<Range>, start: int, end: int): seq<Range>
  {
    if rs == [] then [Range(start, end)]
    else if start < rs[0].start then [Range(start, end)] + rs
    else if start == rs[0].start then [Range(start, Max(rs[0].end, end))] + rs[1..]
    else [rs[0]] + InsertRange(rs[1..], start, end)
  }

  /** Some range already starts at `start` and reaches at least `end`. */
  predicate Absorbed(rs: seq<Range>, start: int, end: int)
  {
    exists k :: 0 <= k < |rs| && rs[k].start == start && end <= rs[k].end
  }

  // ---------------------------------------------------------------------
  // The rotations and `balance` keep the ranges in order.
  // ---------------------------------------------------------------------

  lemma Regroup(a: seq<Range>, x: Range, b: seq<Range>, y: Range, c: seq<Range>)
    ensures a + [x] + (b + [y] + c) == (a + [x] + b) + [y] + c
  {
  }

  lemma RotateLLInorder(t: Tree)
    requires t.Node? && t.left.Node?
    ensures Inorder(RotateLL(t)) == Inorder(t)
  {
    var l := t.left;
    var right := Update(l.(left := l.right, right := t.right, start := t.start, end := t.end));
    assert Inorder(right) == Inorder(l.right) + [Range(t.start, t.end)] + Inorder(t.right);
    assert Inorder(RotateLL(t)) == Inorder(l.left) + [Range(l.start, l.end)] + Inorder(right);
    Regroup(Inorder(l.left), Range(l.start, l.end), Inorder(l.right), Range(t.start, t.end), Inorder(t.right));
  }

  lemma RotateRRInorder(t: Tree)
    requires t.Node? && t.right.Node?
    ensures Inorder(RotateRR(t)) == Inorder(t)
  {
    var r := t.right;
    var left := Update(r.(right := r.left, left := t.left, start := t.start, end := t.end));
    assert Inorder(left) == Inorder(t.left) + [Range(t.start, t.end)] + Inorder(r.left);
    assert Inorder(RotateRR(t)) == Inorder(left) + [Range(r.start, r.end)] + Inorder(r.right);
    Regroup(Inorder(t.left), Range(t.start, t.end), Inorder(r.left), Range(r.start, r.end), Inorder(r.right));
  }

  lemma BalanceInorder(t: Tree)
    requires t.Node?
    ensures Inorder(Balance(t)) == Inorder(t)
  {
    if Depth(t.left) > Depth(t.right) + 1 {
      if Depth(t.left.left) < Depth(t.left.right) {
        RotateRRInorder(t.left);
        RotateLLInorder(t.(left := RotateRR(t.left)));
      } else {
        RotateLLInorder(t);
      }
    } else if Depth(t.left) + 1 < Depth(t.right) {
      if Depth(t.right.left) > Depth(t.right.right) {
        RotateLLInorder(t.right);
        RotateRRInorder(t.(right := RotateLL(t.right)));
      } else {
        RotateRRInorder(t);
      }
    }
  }

  // ---------------------------------------------------------------------
  // `add` inserts into the ordered list of ranges.
  // ---------------------------------------------------------------------

  /** Adding before a tail whose first start is larger leaves that tail in place. */
  lemma {:induction false} InsertBeforeTail(p: seq<Range>, c: seq<Range>, start: int, end: int)
    requires c != [] && start < c[0].start
    ensures InsertRange(p + c, start, end) == InsertRange(p, start, end) + c
  {
    if p != [] {
      assert (p + c)[0] == p[0] && (p + c)[1..] == p[1..] + c;
      if start > p[0].start {
        InsertBeforeTail(p[1..], c, start, end);
      }
    } else {
      assert p + c == c;
    }
  }

  /** Adding past a prefix whose starts are all smaller leaves that prefix in place. */
  lemma {:induction false} InsertAfterPrefix(p: seq<Range>, c: seq<Range>, start: int, end: int)
    requires forall k :: 0 <= k < |p| ==> p[k].start < start
    ensures InsertRange(p + c, start, end) == p + InsertRange(c, start, end)
  {
    if p != [] {
      assert (p + c)[0] == p[0] && (p + c)[1..] == p[1..] + c;
      InsertAfterPrefix(p[1..], c, start, end);
      var rest := InsertRange(c, start, end);
      assert [p[0]] + (p[1..] + rest) == ([p[0]] + p[1..]) + rest;
      assert p == [p[0]] + p[1..];
    } else {
      assert p + c == c;
    }
  }

  /** Adding left of a node's range, in list terms. */
  lemma InsertLeft(p: seq<Range>, x: Range, c: seq<Range>, start: int, end: int)
    requires start < x.start
    ensures InsertRange(p + [x] + c, start, end) == InsertRange(p, start, end) + [x] + c
  {
    InsertBeforeTail(p, [x] + c, start, end);
    assert p + [x] + c == p + ([x] + c);
  }

  /** Adding right of a node's range, in list terms. */
  lemma InsertRight(p: seq<Range>, x: Range, c: seq<Range>, start: int, end: int)
    requires forall k :: 0 <= k < |p| ==> p[k].start < start
    requires x.start < start
    ensures InsertRange(p + [x] + c, start, end) == p + [x] + InsertRange(c, start, end)
  {
    InsertAfterPrefix(p + [x], c, start, end);
  }

  /** Adding at a node's own start, in list terms. */
  lemma InsertAt(p: seq<Range>, x: Range, c: seq<Range>, start: int, end: int)
    requires forall k :: 0 <= k < |p| ==> p[k].start < start
    requires x.start == start
    ensures InsertRange(p + [x] + c, start, end) == p + [Range(start, Max(x.end, end))] + c
  {
    InsertAfterPrefix(p, [x] + c, start, end);
    assert p + [x] + c == p + ([x] + c);
    assert InsertRange([x] + c, start, end) == [Range(start, Max(x.end, end))] + c;
  }

  /** The ranges left of a node start before it, those right of it after it. */
  lemma SortedParts(t: Tree)
    requires t.Node? && Sorted(Inorder(t))
    ensures Sorted(Inorder(t.left)) && Sorted(Inorder(t.right))
    ensures forall k :: 0 <= k < |Inorder(t.left)| ==> Inorder(t.left)[k].start < t.start
    ensures forall k :: 0 <= k < |Inorder(t.right)| ==> t.start < Inorder(t.right)[k].start
  {
    var L, R := Inorder(t.left), Inorder(t.right);
    var s := Inorder(t);
    assert forall k :: 0 <= k < |L| ==> s[k] == L[k];
    assert forall k :: 0 <= k < |R| ==> s[|L| + 1 + k] == R[k];
    assert s[|L|] == Range(t.start, t.end);
  }

  /** `add` on a search tree inserts the range into its ordered list of ranges. */
  lemma {:induction false} AddInorder(t: Tree, start: int, end: int)
    requires t.Node? && Sorted(Inorder(t))
    ensures Inorder(NodeAdd(t, start, end).0) == InsertRange(Inorder(t), start, end)
    decreases t, 1
  {
    SortedParts(t);
    if start < t.start {
      AddLeftInorder(t, start, end);
    } else if start > t.start {
      AddRightInorder(t, start, end);
    } else {
      InsertAt(Inorder(t.left), Range(t.start, t.end), Inorder(t.right), start, end);
    }
  }

  lemma {:induction false} AddLeftInorder(t: Tree, start: int, end: int)
    requires t.Node? && Sorted(Inorder(t.left)) && start < t.start
    ensures Inorder(NodeAdd(t, start, end).0) == InsertRange(Inorder(t), start, end)
    decreases t, 0
  {
    var x := Range(t.start, t.end);
    var R := Inorder(t.right);
    InsertLeft(Inorder(t.left), x, R, start, end);
    var r := NodeAdd(t, start, end).0;
    if t.left.Node? {
      AddInorder(t.left, start, end);
      var (left, update) := NodeAdd(t.left, start, end);
      var t' := t.(left := left);
      assert r == if update then Update(Balance(t')) else t';
      if update {
        BalanceInorder(t');
      }
      assert Inorder(r) == Inorder(t') == Inorder(left) + [x] + R;
    } else {
      assert Inorder(r) == [Range(start, end)] + [x] + R;
    }
  }

  lemma {:induction false} AddRightInorder(t: Tree, start: int, end: int)
    requires t.Node? && Sorted(Inorder(t.right)) && t.start < start
    requires forall k :: 0 <= k < |Inorder(t.left)| ==> Inorder(t.left)[k].start < t.start
    ensures Inorder(NodeAdd(t, start, end).0) == InsertRange(Inorder(t), start, end)
    decreases t, 0
  {
    var x := Range(t.start, t.end);
    var L := Inorder(t.left);
    InsertRight(L, x, Inorder(t.right), start, end);
    var r := NodeAdd(t, start, end).0;
    if t.right.Node? {
      AddInorder(t.right, start, end);
      var (right, update) := NodeAdd(t.right, start, end);
      var t' := t.(right := right);
      assert r == if update then Update(Balance(t')) else t';
      if update {
        BalanceInorder(t');
      }
      assert Inorder(r) == Inorder(t') == L + [x] + Inorder(right);
    } else {
      assert Inorder(r) == L + [x] + [Range(start, end)];
    }
  }

  // ---------------------------------------------------------------------
  // `add` keeps the cached fields right and the tree AVL-balanced.
  // ---------------------------------------------------------------------

  /** The single rotation of the left-left case restores balance. */
  lemma BalanceLL(n: Tree)
    requires n.Node? && n.left.Node? && Cached(n.left) && Cached(n.right) && Balanced(n.left) && Balanced(n.right)
    requires Depth(n.left) == Depth(n.right) + 2 && Depth(n.left.left) >= Depth(n.left.right)
    ensures Cached(RotateLL(n)) && Balanced(RotateLL(n))
    ensures Depth(n.right) + 2 <= Depth(RotateLL(n)) <= Depth(n.right) + 3
  {
    var l := n.left;
    var right := Update(l.(left := l.right, right := n.right, start := n.start, end := n.end));
    assert Cached(right) && Balanced(right);
  }

  /** The double rotation of the left-right case restores balance. */
  lemma BalanceLR(n: Tree)
    requires n.Node? && n.left.Node? && Cached(n.left) && Cached(n.right) && Balanced(n.left) && Balanced(n.right)
    requires Depth(n.left) == Depth(n.right) + 2 && Depth(n.left.left) < Depth(n.left.right)
    ensures RotateRR.requires(n.left)
    ensures var n' := n.(left := RotateRR(n.left));
            Cached(RotateLL(n')) && Balanced(RotateLL(n')) && Depth(RotateLL(n')) == Depth(n.right) + 2
  {
    var l := n.left;
    var lr := l.right;
    var a := Update(lr.(right := lr.left, left := l.left, start := l.start, end := l.end));
    assert Cached(a) && Balanced(a) && Depth(a) == Depth(n.right) + 1;
    var l' := RotateRR(l);
    assert l' == Update(l.(start := lr.start, end := lr.end, left := a, right := lr.right));
    var n' := n.(left := l');
    var b := Update(l'.(left := l'.right, right := n.right, start := n.start, end := n.end));
    assert Cached(b) && Balanced(b) && Depth(b) == Depth(n.right) + 1;
    assert RotateLL(n') == Update(n'.(start := l'.start, end := l'.end, right := b, left := a));
  }

  /** The single rotation of the right-right case restores balance. */
  lemma BalanceRR(n: Tree)
    requires n.Node? && n.right.Node? && Cached(n.left) && Cached(n.right) && Balanced(n.left) && Balanced(n.right)
    requires Depth(n.right) == Depth(n.left) + 2 && Depth(n.right.right) >= Depth(n.right.left)
    ensures Cached(RotateRR(n)) && Balanced(RotateRR(n))
    ensures Depth(n.left) + 2 <= Depth(RotateRR(n)) <= Depth(n.left) + 3
  {
    var r := n.right;
    var left := Update(r.(right := r.left, left := n.left, start := n.start, end := n.end));
    assert Cached(left) && Balanced(left);
  }

  /** The double rotation of the right-left case restores balance. */
  lemma BalanceRL(n: Tree)
    requires n.Node? && n.right.Node? && Cached(n.left) && Cached(n.right) && Balanced(n.left) && Balanced(n.right)
    requires Depth(n.right) == Depth(n.left) + 2 && Depth(n.right.right) < Depth(n.right.left)
    ensures RotateLL.requires(n.right)
    ensures var n' := n.(right := RotateLL(n.right));
            Cached(RotateRR(n')) && Balanced(RotateRR(n')) && Depth(RotateRR(n')) == Depth(n.left) + 2
  {
    var r := n.right;
    var rl := r.left;
    var a := Update(rl.(left := rl.right, right := r.right, start := r.start, end := r.end));
    assert Cached(a) && Balanced(a) && Depth(a) == Depth(n.left) + 1;
    var r' := RotateLL(r);
    assert r' == Update(r.(start := rl.start, end := rl.end, right := a, left := rl.left));
    var n' := n.(right := r');
    var b := Update(r'.(right := r'.left, left := n.left, start := n.start, end := n.end));
    assert Cached(b) && Balanced(b) && Depth(b) == Depth(n.left) + 1;
    assert RotateRR(n') == Update(n'.(start := r'.start, end := r'.end, left := b, right := a));
  }

  /**
   * `balance()` then `update()` on a node whose subtrees are balanced and
   * differ in depth by at most two: the result is balanced, its cached
   * fields are right, and it is at most one level shallower than the
   * node would be without rotation.
   */
  lemma BalanceShape(n: Tree)
    requires n.Node? && Cached(n.left) && Cached(n.right) && Balanced(n.left) && Balanced(n.right)
    requires -2 <= Depth(n.left) - Depth(n.right) <= 2
    ensures Cached(Update(Balance(n))) && Balanced(Update(Balance(n)))
    ensures Max(Depth(n.left), Depth(n.right)) <= Depth(Update(Balance(n))) <= 1 + Max(Depth(n.left), Depth(n.right))
    ensures -1 <= Depth(n.left) - Depth(n.right) <= 1 ==> Depth(Update(Balance(n))) == 1 + Max(Depth(n.left), Depth(n.right))
  {
    if Depth(n.left) > Depth(n.right) + 1 {
      if Depth(n.left.left) < Depth(n.left.right) {
        BalanceLR(n);
      } else {
        BalanceLL(n);
      }
    } else if Depth(n.left) + 1 < Depth(n.right) {
      if Depth(n.right.left) > Depth(n.right.right) {
        BalanceRL(n);
      } else {
        BalanceRR(n);
      }
    }
  }

  /**
   * `add` on a balanced tree with right cached fields keeps both, and the
   * tree grows by at most one level.
   */
  lemma {:induction false} AddShape(t: Tree, start: int, end: int)
    requires t.Node? && Cached(t) && Balanced(t) && 0 <= end
    ensures Cached(NodeAdd(t, start, end).0) && Balanced(NodeAdd(t, start, end).0)
    ensures Depth(t) <= Depth(NodeAdd(t, start, end).0) <= Depth(t) + 1
    decreases t, 1
  {
    if start < t.start {
      AddLeftShape(t, start, end);
    } else if start > t.start {
      AddRightShape(t, start, end);
    }
  }

  lemma {:induction false} AddLeftShape(t: Tree, start: int, end: int)
    requires t.Node? && Cached(t) && Balanced(t) && 0 <= end && start < t.start
    ensures Cached(NodeAdd(t, start, end).0) && Balanced(NodeAdd(t, start, end).0)
    ensures Depth(t) <= Depth(NodeAdd(t, start, end).0) <= Depth(t) + 1
    decreases t, 0
  {
    if t.left.Node? {
      AddShape(t.left, start, end);
      var (left, update) := NodeAdd(t.left, start, end);
      var t' := t.(left := left);
      if update {
        BalanceShape(t');
        assert NodeAdd(t, start, end).0 == Update(Balance(t'));
      } else {
        AddUnchanged(t.left, start, end);
        assert NodeAdd(t, start, end).0 == t;
      }
    } else {
      assert NodeAdd(t, start, end).0 == Update(t.(left := Leaf(start, end)));
    }
  }

  lemma {:induction false} AddRightShape(t: Tree, start: int, end: int)
    requires t.Node? && Cached(t) && Balanced(t) && 0 <= end && t.start < start
    ensures Cached(NodeAdd(t, start, end).0) && Balanced(NodeAdd(t, start, end).0)
    ensures Depth(t) <= Depth(NodeAdd(t, start, end).0) <= Depth(t) + 1
    decreases t, 0
  {
    if t.right.Node? {
      AddShape(t.right, start, end);
      var (right, update) := NodeAdd(t.right, start, end);
      var t' := t.(right := right);
      if update {
        BalanceShape(t');
        assert NodeAdd(t, start, end).0 == Update(Balance(t'));
      } else {
        AddUnchanged(t.right, start, end);
        assert NodeAdd(t, start, end).0 == t;
      }
    } else {
      assert NodeAdd(t, start, end).0 == Update(t.(right := Leaf(start, end)));
    }
  }

  /** When `add` reports no update, the tree is untouched. */
  lemma {:induction false} AddUnchanged(t: Tree, start: int, end: int)
    requires t.Node?
    ensures !NodeAdd(t, start, end).1 ==> NodeAdd(t, start, end).0 == t
  {
    if start < t.start && t.left.Node? {
      AddUnchanged(t.left, start, end);
    } else if start > t.start && t.right.Node? {
      AddUnchanged(t.right, start, end);
    }
  }

  /** `add` reports an update exactly when the range was not already held at that start. */
  lemma {:induction false} AddReports(t: Tree, start: int, end: int)
    requires t.Node? && Sorted(Inorder(t))
    ensures NodeAdd(t, start, end).1 <==> !Absorbed(Inorder(t), start, end)
    decreases t, 1
  {
    var L, R := Inorder(t.left), Inorder(t.right);
    SortedParts(t);
    var s := Inorder(t);
    if start < t.start {
      if t.left.Node? {
        AddReports(t.left, start, end);
      }
      AbsorbedLeft(L, Range(t.start, t.end), R, start, end);
    } else if start > t.start {
      if t.right.Node? {
        AddReports(t.right, start, end);
      }
      AbsorbedRight(L, Range(t.start, t.end), R, start, end);
    } else {
      AbsorbedAt(L, Range(t.start, t.end), R, start, end);
    }
  }

  lemma AbsorbedLeft(p: seq<Range>, x: Range, c: seq<Range>, start: int, end: int)
    requires start < x.start && forall k :: 0 <= k < |c| ==> x.start < c[k].start
    ensures Absorbed(p + [x] + c, start, end) <==> Absorbed(p, start, end)
  {
    var s := p + [x] + c;
    assert forall k :: 0 <= k < |p| ==> s[k] == p[k];
    assert forall k :: |p| <= k < |s| ==> s[k].start > start by {
      assert s[|p|] == x;
      assert forall k :: |p| < k < |s| ==> s[k] == c[k - |p| - 1];
    }
  }

  lemma AbsorbedRight(p: seq<Range>, x: Range, c: seq<Range>, start: int, end: int)
    requires x.start < start && forall k :: 0 <= k < |p| ==> p[k].start < x.start
    ensures Absorbed(p + [x] + c, start, end) <==> Absorbed(c, start, end)
  {
    var s := p + [x] + c;
    assert forall k :: 0 <= k < |c| ==> s[|p| + 1 + k] == c[k];
    assert forall k :: 0 <= k <= |p| ==> s[k].start < start by {
      assert s[|p|] == x;
      assert forall k :: 0 <= k < |p| ==> s[k] == p[k];
    }
    if Absorbed(s, start, end) {
      var k :| 0 <= k < |s| && s[k].start == start && end <= s[k].end;
      assert s[k] == c[k - |p| - 1];
    }
  }

  lemma AbsorbedAt(p: seq<Range>, x: Range, c: seq<Range>, start: int, end: int)
    requires x.start == start
    requires forall k :: 0 <= k < |p| ==> p[k].start < x.start
    requires forall k :: 0 <= k < |c| ==> x.start < c[k].start
    ensures Absorbed(p + [x] + c, start, end) <==> end <= x.end
  {
    var s := p + [x] + c;
    assert s[|p|] == x;
    assert forall k :: 0 <= k < |s| && k != |p| ==> s[k].start != start by {
      assert forall k :: 0 <= k < |p| ==> s[k] == p[k];
      assert forall k :: |p| < k < |s| ==> s[k] == c[k - |p| - 1];
    }
  }

  // ---------------------------------------------------------------------
  // What adding a range does to the list of ranges.
  // ---------------------------------------------------------------------

  /** Every start after adding is the new start or an old one, so a common lower bound survives. */
  lemma {:induction false} InsertAbove(rs: seq<Range>, start: int, end: int, bound: int)
    requires bound < start && forall k :: 0 <= k < |rs| ==> bound < rs[k].start
    ensures forall k :: 0 <= k < |InsertRange(rs, start, end)| ==> bound < InsertRange(rs, start, end)[k].start
  {
    if rs != [] && start > rs[0].start {
      InsertAbove(rs[1..], start, end, bound);
    }
  }

  /** Adding keeps the starts strictly increasing. */
  lemma {:induction false} InsertSorted(rs: seq<Range>, start: int, end: int)
    requires Sorted(rs)
    ensures Sorted(InsertRange(rs, start, end))
  {
    if rs != [] && start > rs[0].start {
      InsertSorted(rs[1..], start, end);
      InsertAbove(rs[1..], start, end, rs[0].start);
    }
  }

  /** Adding a proper range keeps every range proper. */
  lemma {:induction false} InsertProper(rs: seq<Range>, start: int, end: int)
    requires Proper(rs) && 0 <= start <= end
    ensures Proper(InsertRange(rs, start, end))
  {
    if rs != [] && start > rs[0].start {
      InsertProper(rs[1..], start, end);
    }
  }

  /** After adding `[start, end]`, an address is covered iff it was before or lies in the new range. */
  lemma {:induction false} InsertCovers(rs: seq<Range>, start: int, end: int, addr: int)
    ensures Covered(InsertRange(rs, start, end), addr) <==> Covered(rs, addr) || start <= addr <= end
  {
    var x := Range(start, end);
    if rs == [] {
      CoveredCons(x, [], addr);
      assert [x] + [] == [x];
    } else if start < rs[0].start {
      CoveredCons(x, rs, addr);
    } else {
      var t := rs[1..];
      assert rs == [rs[0]] + t;
      CoveredCons(rs[0], t, addr);
      if start == rs[0].start {
        CoveredCons(Range(start, Max(rs[0].end, end)), t, addr);
      } else {
        InsertCovers(t, start, end, addr);
        CoveredCons(rs[0], InsertRange(t, start, end), addr);
      }
    }
  }

  /** A list with a range in front covers what the range or the rest covers. */
  lemma CoveredCons(x: Range, rs: seq<Range>, addr: int)
    ensures Covered([x] + rs, addr) <==> x.start <= addr <= x.end || Covered(rs, addr)
  {
    var r := [x] + rs;
    if Covered(rs, addr) {
      var k :| 0 <= k < |rs| && rs[k].start <= addr <= rs[k].end;
      assert r[k + 1] == rs[k];
    }
    if Covered(r, addr) && !(x.start <= addr <= x.end) {
      var k :| 0 <= k < |r| && r[k].start <= addr <= r[k].end;
      assert k > 0 && rs[k - 1] == r[k];
    }
    if x.start <= addr <= x.end {
      assert r[0] == x;
    }
  }

  /** Adding a range that is already held changes nothing. */
  lemma {:induction false} InsertAbsorbed(rs: seq<Range>, start: int, end: int)
    requires Sorted(rs) && Absorbed(rs, start, end)
    ensures InsertRange(rs, start, end) == rs
  {
    var k :| 0 <= k < |rs| && rs[k].start == start && end <= rs[k].end;
    var t := rs[1..];
    assert rs == [rs[0]] + t;
    if k == 0 {
      assert Range(start, Max(rs[0].end, end)) == rs[0];
    } else {
      assert rs[0].start < rs[k].start;
      assert t[k - 1] == rs[k];
      assert Sorted(t) by {
        forall i, j | 0 <= i < j < |t|
          ensures t[i].start < t[j].start
        {
          assert t[i] == rs[i + 1] && t[j] == rs[j + 1];
        }
      }
      InsertAbsorbed(t, start, end);
    }
  }

  // ---------------------------------------------------------------------
  // `contains`: the walk down the tree guided by `max`.
  // ---------------------------------------------------------------------

  /** Where the parts of `p + [x] + c` sit. */
  lemma Concat3(p: seq<Range>, x: Range, c: seq<Range>)
    ensures |p + [x] + c| == |p| + 1 + |c| && (p + [x] + c)[|p|] == x
    ensures forall k :: 0 <= k < |p| ==> (p + [x] + c)[k] == p[k]
    ensures forall k :: |p| < k < |p| + 1 + |c| ==> (p + [x] + c)[k] == c[k - |p| - 1]
  {
  }

  /** With the cached fields right and ends non-negative, `max` is the largest end in the subtree. */
  lemma {:induction false} MaxIsLargestEnd(t: Tree)
    requires Cached(t) && Proper(Inorder(t))
    ensures forall k :: 0 <= k < |Inorder(t)| ==> Inorder(t)[k].end <= MaxOf(t)
    ensures t.Node? ==> exists k :: 0 <= k < |Inorder(t)| && Inorder(t)[k].end == t.max
  {
    if t.Node? {
      var L, R, x := Inorder(t.left), Inorder(t.right), Range(t.start, t.end);
      var s := L + [x] + R;
      assert Inorder(t) == s;
      Concat3(L, x, R);
      assert forall k :: 0 <= k < |R| ==> s[|L| + 1 + k] == R[k];
      assert Proper(L) && Proper(R);
      MaxIsLargestEnd(t.left);
      MaxIsLargestEnd(t.right);
      if t.max == t.end {
        assert s[|L|].end == t.max;
      } else if t.max == MaxOf(t.left) && t.left.Node? {
        var k :| 0 <= k < |L| && L[k].end == t.left.max;
        assert s[k].end == t.max;
      } else {
        var k :| 0 <= k < |R| && R[k].end == t.right.max;
        assert s[|L| + 1 + k].end == t.max;
      }
    }
  }

  /** The subtrees of a valid node are valid. */
  lemma ValidParts(t: Tree)
    requires t.Node? && Cached(t) && Sorted(Inorder(t)) && Proper(Inorder(t))
    ensures Cached(t.left) && Sorted(Inorder(t.left)) && Proper(Inorder(t.left))
    ensures Cached(t.right) && Sorted(Inorder(t.right)) && Proper(Inorder(t.right))
  {
    SortedParts(t);
    var L, R, x := Inorder(t.left), Inorder(t.right), Range(t.start, t.end);
    Concat3(L, x, R);
    assert forall k :: 0 <= k < |R| ==> (L + [x] + R)[|L| + 1 + k] == R[k];
  }

  /** Past a range that misses `addr`, when some earlier range reaches `addr`, only the earlier ranges can cover it. */
  lemma CoveredLeft(p: seq<Range>, x: Range, c: seq<Range>, addr: int, j: nat)
    requires Sorted(p + [x] + c) && !(x.start <= addr <= x.end)
    requires j < |p| && addr <= p[j].end
    ensures Covered(p + [x] + c, addr) <==> Covered(p, addr)
  {
    var s := p + [x] + c;
    Concat3(p, x, c);
    if !Covered(p, addr) {
      assert addr < p[j].start;
      assert forall k :: |p| <= k < |s| ==> p[j].start < s[k].start by {
        assert s[j] == p[j];
      }
    }
  }

  /** When every earlier range ends before `addr` and `x` misses it, only the later ranges can cover it. */
  lemma CoveredRight(p: seq<Range>, x: Range, c: seq<Range>, addr: int)
    requires !(x.start <= addr <= x.end) && forall k :: 0 <= k < |p| ==> p[k].end < addr
    ensures Covered(p + [x] + c, addr) <==> Covered(c, addr)
  {
    var s := p + [x] + c;
    Concat3(p, x, c);
    assert forall k :: 0 <= k < |c| ==> s[|p| + 1 + k] == c[k];
  }

  /**
   * One step of the walk from a node whose own range misses `addr`: when
   * the left subtree reaches `addr` (`left.max >= addr`) the address is
   * covered iff it is covered on the left, otherwise iff it is covered on
   * the right.
   */
  lemma ContainsStep(t: Tree, addr: int)
    requires t.Node? && Cached(t) && Sorted(Inorder(t)) && Proper(Inorder(t))
    requires !(t.start <= addr <= t.end)
    ensures t.left.Node? && t.left.max >= addr ==> (Covered(Inorder(t), addr) <==> Covered(Inorder(t.left), addr))
    ensures !(t.left.Node? && t.left.max >= addr) ==> (Covered(Inorder(t), addr) <==> Covered(Inorder(t.right), addr))
  {
    var L, R, x := Inorder(t.left), Inorder(t.right), Range(t.start, t.end);
    assert Inorder(t) == L + [x] + R;
    ValidParts(t);
    MaxIsLargestEnd(t.left);
    if t.left.Node? && t.left.max >= addr {
      var j :| 0 <= j < |L| && L[j].end == t.left.max;
      CoveredLeft(L, x, R, addr, j);
    } else {
      CoveredRight(L, x, R, addr);
    }
  }

  /** `contains(addr)` on a node: the walk from the root down one path. */
  method NodeContains(t: Tree, addr: int) returns (found: bool)
    requires Cached(t) && Sorted(Inorder(t)) && Proper(Inorder(t))
    ensures found <==> Covered(Inorder(t), addr)
  {
    var node := t;
    while node.Node? && !(addr >= node.start && addr <= node.end)
      invariant Cached(node) && Sorted(Inorder(node)) && Proper(Inorder(node))
      invariant Covered(Inorder(t), addr) <==> Covered(Inorder(node), addr)
      decreases node
    {
      ContainsStep(node, addr);
      ValidParts(node);
      if node.left.Node? && node.left.max >= addr {
        node := node.left;
      } else {
        node := node.right;
      }
    }
    if node.Node? {
      assert Inorder(node)[|Inorder(node.left)|] == Range(node.start, node.end);
    }
    found := node.Node?;
  }

  // ---------------------------------------------------------------------
  // The list object returned by the module: argument checks, then the tree.
  // ---------------------------------------------------------------------

  /** The largest address, `255.255.255.255` as a number. */
  const MaxAddress := 4294967295

  /**
   * A JavaScript value handed to `add` or `contains`: missing (`undefined`
   * or `null`), a number, the empty string, or a non-empty address string
   * with the number `ip.toLong` makes of it.
   */
  datatype Value = Missing | Number(n: int) | EmptyText | Text(long: int)

  /** The first argument of `add`: a value, or an object `{start, end}`. */
  datatype Arg = Scalar(v: Value) | Object(start: Value, end: Value)

  /** What `add` does with its arguments: returns at once, throws, or blocks `[lo, hi]`. */
  datatype Outcome = Ignored | Rejected | Block(lo: int, hi: int)

  /** `!v` in JavaScript. */
  predicate Falsy(v: Value)
  {
    v.Missing? || v == Number(0) || v.EmptyText?
  }

  /**
   * `typeof v === 'number' ? v : ip.toLong(v)`: `ip.toLong` of a missing
   * value throws (it splits `undefined`), of the empty string gives 0.
   */
  function ToLong(v: Value): (r: Option<int>)
    ensures r.None? <==> v.Missing?
    ensures v.Number? ==> r == Some(v.n)
    ensures v.Text? ==> r == Some(v.long)
  {
    match v
    case Missing => None
    case Number(n) => Some(n)
    case EmptyText => Some(0)
    case Text(long) => Some(long)
  }

  /**
   * The checks `add(start, end)` makes before touching the tree: a falsy
   * first argument is ignored; an object supplies both ends; a falsy end
   * means a single address; a range below 0, above `MaxAddress` or with
   * its ends reversed throws.
   */
  function Check(start: Arg, end: Value): (r: Outcome)
    ensures r.Ignored? <==> start.Scalar? && Falsy(start.v)
    ensures r.Block? ==> 0 <= r.lo <= r.hi <= MaxAddress
  {
    if start.Scalar? && Falsy(start.v) then Ignored
    else
      var (first, last) := if start.Object? then (start.start, start.end) else (start.v, end);
      var lo := ToLong(first);
      if lo.None? then Rejected
      else
        var hi := if Falsy(last) then lo else ToLong(last);
        if hi.None? then Rejected
        else if lo.value < 0 || hi.value > MaxAddress || hi.value < lo.value then Rejected
        else Block(lo.value, hi.value)
  }

  /** Two numbers: blocked exactly when they form a range of addresses. */
  lemma CheckNumbers(start: int, end: int)
    requires start != 0 && end != 0
    ensures Check(Scalar(Number(start)), Number(end)) == (if 0 <= start <= end <= MaxAddress then Block(start, end) else Rejected)
  {
  }

  /** One address alone blocks just itself, when it is one. */
  lemma CheckSingle(start: Arg, end: Value)
    requires Falsy(end) && start.Scalar? && !Falsy(start.v)
    ensures Check(start, end).Block? <==> 0 <= ToLong(start.v).value <= MaxAddress
    ensures Check(start, end).Block? ==> Check(start, end).lo == Check(start, end).hi == ToLong(start.v).value
  {
  }

  /** An object's own `end` is used, whatever the second argument is. */
  lemma CheckObject(start: Value, end: Value, other: Value)
    ensures Check(Object(start, end), other) == Check(Scalar(start), end) || (Falsy(start) && Check(Object(start, end), other) != Ignored)
  {
  }

  /** The tree of a valid list: cached fields right, balanced, ranges ordered and proper. */
  ghost predicate ValidTree(t: Tree)
  {
    Cached(t) && Balanced(t) && Sorted(Inorder(t)) && Proper(Inorder(t))
  }

  /**
   * The ranges after loading `blocks` one by one with `add(block)`, and
   * whether one of them threw (which stops the loading).
   */
  function Loaded(rs: seq<Range>, blocks: seq<Arg>): (seq<Range>, bool)
    decreases blocks
  {
    if blocks == [] then (rs, false)
    else
      match Check(blocks[0], Missing)
      case Ignored => Loaded(rs, blocks[1..])
      case Rejected => (rs, true)
      case Block(lo, hi) => Loaded(InsertRange(rs, lo, hi), blocks[1..])
  }

  /** How many blocks are taken before the first one that throws. */
  function Taken(blocks: seq<Arg>): (n: nat)
    ensures n <= |blocks|
    ensures forall k :: 0 <= k < n ==> !Check(blocks[k], Missing).Rejected?
    ensures n < |blocks| ==> Check(blocks[n], Missing).Rejected?
  {
    if blocks == [] || Check(blocks[0], Missing).Rejected? then 0 else 1 + Taken(blocks[1..])
  }

  /**
   * After loading, an address is covered iff it was before or some block
   * taken before the first rejected one holds it; loading fails iff some
   * block is rejected.
   */
  lemma {:induction false} LoadedCovers(rs: seq<Range>, blocks: seq<Arg>, addr: int)
    decreases blocks
    ensures Loaded(rs, blocks).1 <==> Taken(blocks) < |blocks|
    ensures Covered(Loaded(rs, blocks).0, addr) <==>
      Covered(rs, addr) ||
      exists k :: 0 <= k < Taken(blocks) && Check(blocks[k], Missing).Block? &&
        Check(blocks[k], Missing).lo <= addr <= Check(blocks[k], Missing).hi
  {
    if blocks != [] {
      var tail := blocks[1..];
      assert forall k :: 1 <= k < |blocks| ==> blocks[k] == tail[k - 1];
      match Check(blocks[0], Missing)
      case Ignored =>
        LoadedCovers(rs, tail, addr);
      case Rejected =>
      case Block(lo, hi) =>
        LoadedCovers(InsertRange(rs, lo, hi), tail, addr);
        InsertCovers(rs, lo, hi, addr);
    }
  }

  /** Loading keeps the ranges ordered and proper. */
  lemma {:induction false} LoadedValid(rs: seq<Range>, blocks: seq<Arg>)
    decreases blocks
    requires Sorted(rs) && Proper(rs)
    ensures Sorted(Loaded(rs, blocks).0) && Proper(Loaded(rs, blocks).0)
  {
    if blocks != [] {
      match Check(blocks[0], Missing)
      case Ignored =>
        LoadedValid(rs, blocks[1..]);
      case Rejected =>
      case Block(lo, hi) =>
        InsertSorted(rs, lo, hi);
        InsertProper(rs, lo, hi);
        LoadedValid(InsertRange(rs, lo, hi), blocks[1..]);
    }
  }

  /** The object the module returns, holding the root of the tree (`null` when empty). */
  class BlockSet {
    var tree: Tree

    ghost predicate Valid()
      reads this
    {
      ValidTree(tree)
    }

    /** An empty list. */
    constructor()
      ensures Valid() && Inorder(tree) == []
    {
      tree := Nil;
    }

    /**
     * `that.add(start, end)`: after the checks, the range goes into the
     * tree (the root when the tree is empty); covered addresses grow by
     * exactly the new range.
     */
    method Add(start: Arg, end: Value) returns (r: Outcome)
      requires Valid()
      modifies this
      ensures Valid() && r == Check(start, end)
      ensures r.Block? ==> Inorder(tree) == InsertRange(old(Inorder(tree)), r.lo, r.hi)
      ensures r.Block? ==> forall a :: Covered(Inorder(tree), a) <==> Covered(old(Inorder(tree)), a) || r.lo <= a <= r.hi
      ensures !r.Block? ==> tree == old(tree)
    {
      r := Check(start, end);
      if r.Block? {
        if tree.Node? {
          AddInorder(tree, r.lo, r.hi);
          AddShape(tree, r.lo, r.hi);
          InsertSorted(Inorder(tree), r.lo, r.hi);
          InsertProper(Inorder(tree), r.lo, r.hi);
          tree := NodeAdd(tree, r.lo, r.hi).0;
        } else {
          tree := Leaf(r.lo, r.hi);
          assert Inorder(tree) == [Range(r.lo, r.hi)];
        }
        forall a
          ensures Covered(Inorder(tree), a) <==> Covered(old(Inorder(tree)), a) || r.lo <= a <= r.hi
        {
          InsertCovers(old(Inorder(tree)), r.lo, r.hi, a);
        }
      }
    }

    /**
     * The array given to the module: each block is added in turn with no
     * second argument, and a block that throws stops the loading.
     */
    method Load(blocks: seq<Arg>) returns (failed: bool)
      requires Valid()
      modifies this
      ensures Valid()
      ensures (Inorder(tree), failed) == Loaded(old(Inorder(tree)), blocks)
    {
      var i := 0;
      failed := false;
      while i < |blocks|
        invariant 0 <= i <= |blocks| && Valid()
        invariant Loaded(old(Inorder(tree)), blocks) == Loaded(Inorder(tree), blocks[i..])
      {
        assert blocks[i..][1..] == blocks[i + 1..];
        var r := Add(blocks[i], Missing);
        if r.Rejected? {
          failed := true;
          return;
        }
        i := i + 1;
      }
    }

    /**
     * `that.contains(addr)`: false on an empty list; otherwise the walk,
     * after `ip.toLong` of a non-number (which throws, `None`, on a missing
     * address).
     */
    method Contains(addr: Value) returns (r: Option<bool>)
      requires Valid()
      ensures r.None? <==> tree.Node? && addr.Missing?
      ensures r.Some? ==> (r.value <==> !addr.Missing? && Covered(Inorder(tree), ToLong(addr).value))
    {
      if tree.Nil? {
        return Some(false);
      }
      var long := ToLong(addr);
      if long.None? {
        return None;
      }
      var found := NodeContains(tree, long.value);
      r := Some(found);
    }
  }
}
