/** The per-user post index: an AVL tree keyed by the integer post time,
    as `AVLTree` in frontend.py and code.cpp. A tree is a value here; the
    sources relink heap nodes, which this module models by rebuilding the
    affected nodes. */
module Avl {
  import opened Seqs

  type Entry = (int, string)

  /** What an insert does when the key is already present: the Python
      tree appends to the stored text, the C++ tree keeps the node as is. */
  datatype DupPolicy = Merge | Ignore

  /** A post node: key `time`, text `data`, and the cached `height`. */
  datatype Tree = Leaf | Node(left: Tree, time: int, data: string, height: nat, right: Tree)

  /** `height(node)`: 0 for an absent subtree. */
  function Height(t: Tree): nat {
    if t.Leaf? then 0 else t.height
  }

  function Max(a: int, b: int): int {
    if a >= b then a else b
  }

  /** A node whose cached height is recomputed from its children. */
  function MkNode(l: Tree, time: int, data: string, r: Tree): Tree {
    Node(l, time, data, 1 + Max(Height(l), Height(r)), r)
  }

  /** `get_balance(node)`: left height minus right height, 0 for an absent node. */
  function Balance(t: Tree): int {
    if t.Leaf? then 0 else Height(t.left) - Height(t.right)
  }

  // ---------------------------------------------------------------------
  // Abstract views and invariants

  ghost function Keys(t: Tree): set<int> {
    match t
    case Leaf => {}
    case Node(l, k, _, _, r) => Keys(l) + {k} + Keys(r)
  }

  /** The entries in ascending in-order position. */
  ghost function Inorder(t: Tree): seq<Entry> {
    match t
    case Leaf => []
    case Node(l, k, d, _, r) => Inorder(l) + [(k, d)] + Inorder(r)
  }

  /** The entries in reverse in-order position (right, node, left). */
  ghost function Desc(t: Tree): seq<Entry> {
    match t
    case Leaf => []
    case Node(l, k, d, _, r) => Desc(r) + [(k, d)] + Desc(l)
  }

  /** Binary-search-tree order on keys. */
  ghost predicate Ordered(t: Tree) {
    match t
    case Leaf => true
    case Node(l, k, _, _, r) =>
      && (forall x :: x in Keys(l) ==> x < k)
      && (forall x :: x in Keys(r) ==> k < x)
      && Ordered(l) && Ordered(r)
  }

  /** Every cached height is one more than the larger child height. */
  ghost predicate HeightsOk(t: Tree) {
    match t
    case Leaf => true
    case Node(l, _, _, h, r) => h == 1 + Max(Height(l), Height(r)) && HeightsOk(l) && HeightsOk(r)
  }

  /** AVL balance: the children's heights differ by at most one at every node. */
  ghost predicate Balanced(t: Tree) {
    match t
    case Leaf => true
    case Node(l, _, _, _, r) => -1 <= Height(l) - Height(r) <= 1 && Balanced(l) && Balanced(r)
  }

  ghost predicate IsAvl(t: Tree) {
    Ordered(t) && HeightsOk(t) && Balanced(t)
  }

  /** The tree with every text erased: keys, cached heights and shape only. */
  ghost function Skeleton(t: Tree): Tree {
    match t
    case Leaf => Leaf
    case Node(l, k, _, h, r) => Node(Skeleton(l), k, "", h, Skeleton(r))
  }

  /** The text stored under key `k` (found by search), or "" if absent. */
  ghost function DataAt(t: Tree, k: int): string {
    match t
    case Leaf => ""
    case Node(l, x, d, _, r) => if k < x then DataAt(l, k) else if k > x then DataAt(r, k) else d
  }

  // ---------------------------------------------------------------------
  // Rotations

  /** Both shapes a rotation converts between are ordered together. */
  lemma RotationOrdered(a: Tree, xk: int, xd: string, b: Tree, yk: int, yd: string, c: Tree, h1: nat, h2: nat)
    ensures Ordered(Node(Node(a, xk, xd, h1, b), yk, yd, h2, c)) ==> Ordered(MkNode(a, xk, xd, MkNode(b, yk, yd, c)))
    ensures Ordered(Node(a, xk, xd, h2, Node(b, yk, yd, h1, c))) ==> Ordered(MkNode(MkNode(a, xk, xd, b), yk, yd, c))
  {
    var y := Node(Node(a, xk, xd, h1, b), yk, yd, h2, c);
    if Ordered(y) {
      assert Ordered(y.left);
      assert Keys(y.left) == Keys(a) + {xk} + Keys(b);
      assert Ordered(MkNode(b, yk, yd, c));
      assert Keys(MkNode(b, yk, yd, c)) == Keys(b) + {yk} + Keys(c);
    }
    var x := Node(a, xk, xd, h2, Node(b, yk, yd, h1, c));
    if Ordered(x) {
      assert Ordered(x.right);
      assert Keys(x.right) == Keys(b) + {yk} + Keys(c);
      assert Ordered(MkNode(a, xk, xd, b));
      assert Keys(MkNode(a, xk, xd, b)) == Keys(a) + {xk} + Keys(b);
    }
  }

  /** `right_rotate(y)`: the left child x becomes the root, x's right
      subtree becomes y's left, and y then x get their heights recomputed.
      A node without a left child, on which the source would fail, is
      returned unchanged. */
  function RotateRight(y: Tree): (x: Tree)
    ensures Inorder(x) == Inorder(y) && Keys(x) == Keys(y)
    ensures Ordered(y) ==> Ordered(x)
    ensures (y.Node? && y.left.Node? && HeightsOk(y.left.left) && HeightsOk(y.left.right)
             && HeightsOk(y.right)) ==> HeightsOk(x)
  {
    match y
    case Node(Node(a, xk, xd, _, b), yk, yd, _, c) =>
      var x := MkNode(a, xk, xd, MkNode(b, yk, yd, c));
      RotationOrdered(a, xk, xd, b, yk, yd, c, y.left.height, y.height);
      x
    case _ => y
  }

  /** `left_rotate(x)`: the right child r becomes the root, r's left subtree
      becomes x's right, and x then r get their heights recomputed. A node
      without a right child is returned unchanged. */
  function RotateLeft(x: Tree): (r: Tree)
    ensures Inorder(r) == Inorder(x) && Keys(r) == Keys(x)
    ensures Ordered(x) ==> Ordered(r)
    ensures (x.Node? && x.right.Node? && HeightsOk(x.left) && HeightsOk(x.right.left)
             && HeightsOk(x.right.right)) ==> HeightsOk(r)
  {
    match x
    case Node(a, xk, xd, _, Node(b, rk, rd, _, c)) =>
      var r := MkNode(MkNode(a, xk, xd, b), rk, rd, c);
      RotationOrdered(a, xk, xd, b, rk, rd, c, x.right.height, x.height);
      r
    case _ => x
  }

  /** The four rebalancing cases of `_insert`/`insertHelper`, tried in the
      sources' order on the node whose height was just recomputed. */
  function Rebalance(n: Tree, time: int): (r: Tree)
    ensures Inorder(r) == Inorder(n) && Keys(r) == Keys(n)
    ensures Ordered(n) ==> Ordered(r)
  {
    var balance := Balance(n);
    if balance > 1 && time < n.left.time then
      RotateRight(n)
    else if balance < -1 && time > n.right.time then
      RotateLeft(n)
    else if balance > 1 && time > n.left.time then
      RotateRight(n.(left := RotateLeft(n.left)))
    else if balance < -1 && time < n.right.time then
      RotateLeft(n.(right := RotateRight(n.right)))
    else
      n
  }

  /** `_insert` (Python, policy Merge) and `insertHelper` (C++, policy
      Ignore, with the corrected left rotation `RotateLeft` in place of the
      C++ `leftRotate`): BST descent, height update on the way back,
      rebalancing. */
  function Insert(t: Tree, time: int, data: string, policy: DupPolicy): (r: Tree)
    ensures Keys(r) == Keys(t) + {time}
    ensures Ordered(t) ==> Ordered(r)
  {
    match t
    case Leaf => Node(Leaf, time, data, 1, Leaf)
    case Node(l, k, d, h, rt) =>
      if time < k then Rebalance(MkNode(Insert(l, time, data, policy), k, d, rt), time)
      else if time > k then Rebalance(MkNode(l, k, d, Insert(rt, time, data, policy)), time)
      else
        match policy
        case Merge => Node(l, k, d + " | " + data, h, rt)
        case Ignore => t
  }

  /** The text a key ends up with when it is inserted again. */
  function Merged(policy: DupPolicy, stored: string, data: string): string {
    match policy
    case Merge => stored + " | " + data
    case Ignore => stored
  }

  // ---------------------------------------------------------------------
  // Insert: contents

  ghost function Below(s: seq<Entry>, k: int): seq<Entry> {
    if s == [] then [] else (if s[0].0 < k then [s[0]] else []) + Below(s[1..], k)
  }

  ghost function Above(s: seq<Entry>, k: int): seq<Entry> {
    if s == [] then [] else (if s[0].0 > k then [s[0]] else []) + Above(s[1..], k)
  }

  lemma {:induction false} BelowAboveConcat(a: seq<Entry>, b: seq<Entry>, k: int)
    ensures Below(a + b, k) == Below(a, k) + Below(b, k)
    ensures Above(a + b, k) == Above(a, k) + Above(b, k)
  {
    if a != [] {
      assert (a + b)[0] == a[0];
      assert (a + b)[1..] == a[1..] + b;
      BelowAboveConcat(a[1..], b, k);
    } else {
      assert a + b == b;
    }
  }

  lemma {:induction false} AllBelow(s: seq<Entry>, k: int)
    requires forall i :: 0 <= i < |s| ==> s[i].0 < k
    ensures Below(s, k) == s && Above(s, k) == []
  {
    if s != [] { AllBelow(s[1..], k); }
  }

  lemma {:induction false} AllAbove(s: seq<Entry>, k: int)
    requires forall i :: 0 <= i < |s| ==> s[i].0 > k
    ensures Below(s, k) == [] && Above(s, k) == s
  {
    if s != [] { AllAbove(s[1..], k); }
  }

  lemma {:induction false} InorderKeys(t: Tree)
    ensures forall i :: 0 <= i < |Inorder(t)| ==> Inorder(t)[i].0 in Keys(t)
  {
    if t.Node? {
      InorderKeys(t.left);
      InorderKeys(t.right);
    }
  }

  /** The entry an insert leaves under `time`. */
  ghost function InsertedEntry(t: Tree, time: int, data: string, policy: DupPolicy): Entry {
    (time, if time in Keys(t) then Merged(policy, DataAt(t, time), data) else data)
  }

  lemma BelowAboveSingle(e: Entry, k: int)
    ensures Below([e], k) == (if e.0 < k then [e] else [])
    ensures Above([e], k) == (if e.0 > k then [e] else [])
  {
    assert [e][1..] == [];
  }

  /** Splits the in-order sequence of a node around a key. */
  lemma SplitNode(l: Tree, k: int, d: string, h: nat, rt: Tree, time: int)
    requires Ordered(Node(l, k, d, h, rt))
    ensures time < k ==> Below(Inorder(Node(l, k, d, h, rt)), time) == Below(Inorder(l), time)
    ensures time < k ==> Above(Inorder(Node(l, k, d, h, rt)), time) == Above(Inorder(l), time) + [(k, d)] + Inorder(rt)
    ensures time > k ==> Below(Inorder(Node(l, k, d, h, rt)), time) == Inorder(l) + [(k, d)] + Below(Inorder(rt), time)
    ensures time > k ==> Above(Inorder(Node(l, k, d, h, rt)), time) == Above(Inorder(rt), time)
    ensures time == k ==> Below(Inorder(Node(l, k, d, h, rt)), time) == Inorder(l)
    ensures time == k ==> Above(Inorder(Node(l, k, d, h, rt)), time) == Inorder(rt)
  {
    if time < k {
      SplitLeft(l, k, d, h, rt, time);
    } else if time > k {
      SplitRight(l, k, d, h, rt, time);
    } else {
      SplitAt(l, k, d, h, rt, time);
    }
  }

  /** A key left of the node's own splits inside the left subtree. */
  lemma SplitLeft(l: Tree, k: int, d: string, h: nat, rt: Tree, time: int)
    requires Ordered(Node(l, k, d, h, rt)) && time < k
    ensures Below(Inorder(Node(l, k, d, h, rt)), time) == Below(Inorder(l), time)
    ensures Above(Inorder(Node(l, k, d, h, rt)), time) == Above(Inorder(l), time) + [(k, d)] + Inorder(rt)
  {
    InorderKeys(l);
    InorderKeys(rt);
    BelowAboveConcat(Inorder(l) + [(k, d)], Inorder(rt), time);
    BelowAboveConcat(Inorder(l), [(k, d)], time);
    BelowAboveSingle((k, d), time);
    AllAbove(Inorder(rt), time);
  }

  /** A key right of the node's own splits inside the right subtree. */
  lemma SplitRight(l: Tree, k: int, d: string, h: nat, rt: Tree, time: int)
    requires Ordered(Node(l, k, d, h, rt)) && time > k
    ensures Below(Inorder(Node(l, k, d, h, rt)), time) == Inorder(l) + [(k, d)] + Below(Inorder(rt), time)
    ensures Above(Inorder(Node(l, k, d, h, rt)), time) == Above(Inorder(rt), time)
  {
    InorderKeys(l);
    InorderKeys(rt);
    BelowAboveConcat(Inorder(l) + [(k, d)], Inorder(rt), time);
    BelowAboveConcat(Inorder(l), [(k, d)], time);
    BelowAboveSingle((k, d), time);
    AllBelow(Inorder(l), time);
  }

  /** The node's own key splits it into its two subtrees. */
  lemma SplitAt(l: Tree, k: int, d: string, h: nat, rt: Tree, time: int)
    requires Ordered(Node(l, k, d, h, rt)) && time == k
    ensures Below(Inorder(Node(l, k, d, h, rt)), time) == Inorder(l)
    ensures Above(Inorder(Node(l, k, d, h, rt)), time) == Inorder(rt)
  {
    InorderKeys(l);
    InorderKeys(rt);
    BelowAboveConcat(Inorder(l) + [(k, d)], Inorder(rt), time);
    BelowAboveConcat(Inorder(l), [(k, d)], time);
    BelowAboveSingle((k, d), time);
    AllBelow(Inorder(l), time);
    AllAbove(Inorder(rt), time);
  }

  /** Below a node, the entry an insert leaves is decided by the child on
      the key's side. */
  lemma InsertedEntryChild(l: Tree, k: int, d: string, h: nat, rt: Tree, time: int, data: string, policy: DupPolicy)
    requires Ordered(Node(l, k, d, h, rt))
    ensures time < k ==> InsertedEntry(Node(l, k, d, h, rt), time, data, policy) == InsertedEntry(l, time, data, policy)
    ensures time > k ==> InsertedEntry(Node(l, k, d, h, rt), time, data, policy) == InsertedEntry(rt, time, data, policy)
  {
    var t := Node(l, k, d, h, rt);
    if time < k {
      assert time in Keys(t) <==> time in Keys(l);
      assert DataAt(t, time) == DataAt(l, time);
    } else if time > k {
      assert time in Keys(t) <==> time in Keys(rt);
      assert DataAt(t, time) == DataAt(rt, time);
    }
  }

  /** Regrouping a concatenation around two single entries. */
  lemma ReassociateAround(a: seq<Entry>, e: Entry, b: seq<Entry>, m: Entry, c: seq<Entry>)
    ensures (a + [e] + b) + [m] + c == a + [e] + (b + [m] + c)
    ensures a + [e] + (b + [m] + c) == (a + [e] + b) + [m] + c
  {
  }

  /** Inserting to the left of a node, given the result for the left subtree. */
  lemma InsertInorderLeft(l: Tree, k: int, d: string, h: nat, rt: Tree, time: int, data: string, policy: DupPolicy)
    requires Ordered(Node(l, k, d, h, rt)) && time < k
    requires Inorder(Insert(l, time, data, policy))
             == Below(Inorder(l), time) + [InsertedEntry(l, time, data, policy)] + Above(Inorder(l), time)
    ensures var t := Node(l, k, d, h, rt);
            Inorder(Insert(t, time, data, policy))
            == Below(Inorder(t), time) + [InsertedEntry(t, time, data, policy)] + Above(Inorder(t), time)
  {
    var t := Node(l, k, d, h, rt);
    SplitNode(l, k, d, h, rt, time);
    var l' := Insert(l, time, data, policy);
    var n := MkNode(l', k, d, rt);
    assert Insert(t, time, data, policy) == Rebalance(n, time);
    var e := InsertedEntry(l, time, data, policy);
    InsertedEntryChild(l, k, d, h, rt, time, data, policy);
    var lo, hi := Below(Inorder(l), time), Above(Inorder(l), time);
    ReassociateAround(lo, e, hi, (k, d), Inorder(rt));
  }

  /** Inserting to the right of a node, given the result for the right subtree. */
  lemma InsertInorderRight(l: Tree, k: int, d: string, h: nat, rt: Tree, time: int, data: string, policy: DupPolicy)
    requires Ordered(Node(l, k, d, h, rt)) && time > k
    requires Inorder(Insert(rt, time, data, policy))
             == Below(Inorder(rt), time) + [InsertedEntry(rt, time, data, policy)] + Above(Inorder(rt), time)
    ensures var t := Node(l, k, d, h, rt);
            Inorder(Insert(t, time, data, policy))
            == Below(Inorder(t), time) + [InsertedEntry(t, time, data, policy)] + Above(Inorder(t), time)
  {
    var t := Node(l, k, d, h, rt);
    SplitNode(l, k, d, h, rt, time);
    var r' := Insert(rt, time, data, policy);
    var n := MkNode(l, k, d, r');
    assert Insert(t, time, data, policy) == Rebalance(n, time);
    var e := InsertedEntry(rt, time, data, policy);
    InsertedEntryChild(l, k, d, h, rt, time, data, policy);
    var lo, hi := Below(Inorder(rt), time), Above(Inorder(rt), time);
    ReassociateAround(Inorder(l), (k, d), lo, e, hi);
  }

  /** For an ordered tree, an insert places the key between the smaller and
      the larger entries: a new key carries the given text, an existing key
      the merged text; every other entry is kept in place. */
  lemma {:induction false} InsertInorder(t: Tree, time: int, data: string, policy: DupPolicy)
    requires Ordered(t)
    ensures Inorder(Insert(t, time, data, policy))
            == Below(Inorder(t), time) + [InsertedEntry(t, time, data, policy)] + Above(Inorder(t), time)
  {
    match t
    case Leaf =>
    case Node(l, k, d, h, rt) =>
      if time < k {
        InsertInorder(l, time, data, policy);
        InsertInorderLeft(l, k, d, h, rt, time, data, policy);
      } else if time > k {
        InsertInorder(rt, time, data, policy);
        InsertInorderRight(l, k, d, h, rt, time, data, policy);
      } else {
        SplitNode(l, k, d, h, rt, time);
        assert InsertedEntry(t, time, data, policy) == (k, Merged(policy, d, data));
      }
  }

  // ---------------------------------------------------------------------
  // Insert: balance and heights

  lemma RebalanceNoop(n: Tree, time: int)
    requires -1 <= Balance(n) <= 1
    ensures Rebalance(n, time) == n
  {
  }

  /** A left subtree two higher than the right one, grown on the side of the
      new key, is repaired by one of the two left cases. */
  lemma RebalanceLeftHeavy(lt: Tree, k: int, d: string, rt: Tree, time: int)
    requires HeightsOk(lt) && Balanced(lt) && HeightsOk(rt) && Balanced(rt)
    requires lt.Node? && Height(lt) == Height(rt) + 2 && time != lt.time
    requires time < lt.time ==> Height(lt.left) == Height(lt.right) + 1
    requires time > lt.time ==> Height(lt.right) == Height(lt.left) + 1
    ensures var r := Rebalance(MkNode(lt, k, d, rt), time);
            HeightsOk(r) && Balanced(r) && Height(r) == Height(rt) + 2
  {
    var n := MkNode(lt, k, d, rt);
    assert Balance(n) == 2;
    if time < lt.time {
      assert Rebalance(n, time) == RotateRight(n);
    } else {
      var b := lt.right;
      assert b.Node?;
      assert Rebalance(n, time) == RotateRight(n.(left := RotateLeft(lt)));
      assert RotateLeft(lt) == MkNode(MkNode(lt.left, lt.time, lt.data, b.left), b.time, b.data, b.right);
    }
  }

  /** The mirror image: a right subtree two higher than the left one. */
  lemma RebalanceRightHeavy(lt: Tree, k: int, d: string, rt: Tree, time: int)
    requires HeightsOk(lt) && Balanced(lt) && HeightsOk(rt) && Balanced(rt)
    requires rt.Node? && Height(rt) == Height(lt) + 2 && time != rt.time
    requires time > rt.time ==> Height(rt.right) == Height(rt.left) + 1
    requires time < rt.time ==> Height(rt.left) == Height(rt.right) + 1
    ensures var r := Rebalance(MkNode(lt, k, d, rt), time);
            HeightsOk(r) && Balanced(r) && Height(r) == Height(lt) + 2
  {
    var n := MkNode(lt, k, d, rt);
    assert Balance(n) == -2;
    if time > rt.time {
      assert Rebalance(n, time) == RotateLeft(n);
    } else {
      var b := rt.left;
      assert b.Node?;
      assert Rebalance(n, time) == RotateLeft(n.(right := RotateRight(rt)));
      assert RotateRight(rt) == MkNode(b.left, b.time, b.data, MkNode(b.right, rt.time, rt.data, rt.right));
    }
  }

  /** What an insert into a tree of correct heights and balance promises
      about the result `r`: correct heights and balance again, a height
      grown by at most one (not at all when the key sits at the root), and,
      when it grew, the old root leaning towards the side of the new key. */
  ghost predicate GrowsAvl(t: Tree, time: int, r: Tree) {
    && HeightsOk(r) && Balanced(r)
    && Height(t) <= Height(r) <= Height(t) + 1
    && (t.Node? && time == t.time ==> Height(r) == Height(t))
    && (t.Node? && Height(r) == Height(t) + 1 ==>
          && r.Node? && r.time == t.time
          && (time < t.time ==> Height(r.left) == Height(r.right) + 1)
          && (time > t.time ==> Height(r.right) == Height(r.left) + 1))
  }

  /** The step of `InsertBalanced` for a key that goes left. */
  lemma InsertBalancedLeft(l: Tree, k: int, d: string, h: nat, rt: Tree, time: int, data: string, policy: DupPolicy)
    requires HeightsOk(Node(l, k, d, h, rt)) && Balanced(Node(l, k, d, h, rt)) && time < k
    requires GrowsAvl(l, time, Insert(l, time, data, policy))
    ensures GrowsAvl(Node(l, k, d, h, rt), time, Insert(Node(l, k, d, h, rt), time, data, policy))
  {
    var l' := Insert(l, time, data, policy);
    var n := MkNode(l', k, d, rt);
    assert Insert(Node(l, k, d, h, rt), time, data, policy) == Rebalance(n, time);
    if Height(l') == Height(rt) + 2 {
      RebalanceLeftHeavy(l', k, d, rt, time);
    } else {
      RebalanceNoop(n, time);
    }
  }

  /** The step of `InsertBalanced` for a key that goes right. */
  lemma InsertBalancedRight(l: Tree, k: int, d: string, h: nat, rt: Tree, time: int, data: string, policy: DupPolicy)
    requires HeightsOk(Node(l, k, d, h, rt)) && Balanced(Node(l, k, d, h, rt)) && time > k
    requires GrowsAvl(rt, time, Insert(rt, time, data, policy))
    ensures GrowsAvl(Node(l, k, d, h, rt), time, Insert(Node(l, k, d, h, rt), time, data, policy))
  {
    var r' := Insert(rt, time, data, policy);
    var n := MkNode(l, k, d, r');
    assert Insert(Node(l, k, d, h, rt), time, data, policy) == Rebalance(n, time);
    if Height(r') == Height(l) + 2 {
      RebalanceRightHeavy(l, k, d, r', time);
    } else {
      RebalanceNoop(n, time);
    }
  }

  /** Insert keeps every cached height right and every node balanced, with
      the growth bound of `GrowsAvl`. */
  lemma {:induction false} InsertBalanced(t: Tree, time: int, data: string, policy: DupPolicy)
    requires HeightsOk(t) && Balanced(t)
    ensures GrowsAvl(t, time, Insert(t, time, data, policy))
  {
    match t
    case Leaf =>
    case Node(l, k, d, h, rt) =>
      if time < k {
        InsertBalanced(l, time, data, policy);
        InsertBalancedLeft(l, k, d, h, rt, time, data, policy);
      } else if time > k {
        InsertBalanced(rt, time, data, policy);
        InsertBalancedRight(l, k, d, h, rt, time, data, policy);
      }
  }

  /** Insert keeps the full AVL invariant (order, heights, balance). */
  lemma InsertKeepsAvl(t: Tree, time: int, data: string, policy: DupPolicy)
    requires IsAvl(t)
    ensures IsAvl(Insert(t, time, data, policy))
  {
    InsertBalanced(t, time, data, policy);
  }

  lemma {:induction false} SkeletonHeight(t: Tree)
    ensures Height(Skeleton(t)) == Height(t)
  {
  }

  /** Inserting a key that is already present changes no key, height or
      link; with policy Ignore it changes nothing at all. */
  lemma {:induction false} InsertExisting(t: Tree, time: int, data: string, policy: DupPolicy)
    requires IsAvl(t) && time in Keys(t)
    ensures Skeleton(Insert(t, time, data, policy)) == Skeleton(t)
    ensures policy == Ignore ==> Insert(t, time, data, policy) == t
  {
    match t
    case Node(l, k, d, h, rt) =>
      if time < k {
        InsertExisting(l, time, data, policy);
        var l' := Insert(l, time, data, policy);
        SkeletonHeight(l);
        SkeletonHeight(l');
        RebalanceNoop(MkNode(l', k, d, rt), time);
      } else if time > k {
        InsertExisting(rt, time, data, policy);
        var r' := Insert(rt, time, data, policy);
        SkeletonHeight(rt);
        SkeletonHeight(r');
        RebalanceNoop(MkNode(l, k, d, r'), time);
      }
  }

  /** The two duplicate policies differ only on a key already present:
      inserting a fresh key builds the same tree under either. */
  lemma {:induction false} InsertFreshAgrees(t: Tree, time: int, data: string)
    requires time !in Keys(t)
    ensures Insert(t, time, data, Merge) == Insert(t, time, data, Ignore)
  {
    match t
    case Leaf =>
    case Node(l, k, d, h, rt) =>
      if time < k {
        InsertFreshAgrees(l, time, data);
      } else {
        InsertFreshAgrees(rt, time, data);
      }
  }

  // ---------------------------------------------------------------------
  // Latest-k walks

  /** The texts of a sequence of entries. */
  function Datas(s: seq<Entry>): (r: seq<string>)
    ensures |r| == |s|
  {
    if s == [] then [] else [s[0].1] + Datas(s[1..])
  }

  lemma {:induction false} DatasAt(s: seq<Entry>)
    ensures forall i :: 0 <= i < |s| ==> Datas(s)[i] == s[i].1
  {
    if s != [] {
      DatasAt(s[1..]);
    }
  }

  lemma {:induction false} DatasConcat(a: seq<Entry>, b: seq<Entry>)
    ensures Datas(a + b) == Datas(a) + Datas(b)
  {
    DatasAt(a);
    DatasAt(b);
    DatasAt(a + b);
  }

  /** The first `k` entries, or all of them when `k` is negative or at
      least the length: a countdown that starts below zero never reaches
      zero, so both walks then visit every node. */
  function Latest(s: seq<Entry>, k: int): (r: seq<Entry>)
    ensures k < 0 || k >= |s| ==> r == s
    ensures 0 <= k < |s| ==> r == s[..k]
  {
    if k < 0 || k >= |s| then s else s[..k]
  }

  /** The countdown left after walking `n` entries from `k`. */
  function Remaining(n: nat, k: int): (r: int)
    ensures k >= 0 ==> r >= 0
  {
    if k < 0 || k >= n then k - n else 0
  }

  /** When the walk of the right part `r` uses up the countdown, the walk of
      `r + [e] + l` produces the same output and also ends at zero. */
  lemma WalkStopsRight(r: seq<Entry>, e: Entry, l: seq<Entry>, k: int, out: seq<string>)
    requires Remaining(|r|, k) == 0
    ensures out + Datas(Latest(r, k)) == out + Datas(Latest(r + [e] + l, k))
    ensures Remaining(|r + [e] + l|, k) == 0
  {
    assert 0 <= k <= |r|;
    assert (r + [e] + l)[..k] == r[..k];
    assert r[..|r|] == r;
    assert Latest(r, k) == r[..k];
  }

  /** Otherwise the walk takes all of `r`, then `e`, then continues into `l`
      with the countdown left over, one less for `e`. */
  lemma WalkPassesRight(r: seq<Entry>, e: Entry, l: seq<Entry>, k: int, out: seq<string>)
    requires Remaining(|r|, k) != 0
    ensures (out + Datas(Latest(r, k)) + [e.1]) + Datas(Latest(l, Remaining(|r|, k) - 1))
            == out + Datas(Latest(r + [e] + l, k))
    ensures Remaining(|l|, Remaining(|r|, k) - 1) == Remaining(|r + [e] + l|, k)
  {
    assert k < 0 || k > |r|;
    var k' := k - |r| - 1;
    var tail := Latest(l, k');
    if 0 <= k' < |l| {
      assert (r + [e] + l)[..k] == r + [e] + l[..k'];
    }
    assert Latest(r, k) == r;
    assert Latest(r + [e] + l, k) == r + [e] + tail;
    DatasConcat(r + [e], tail);
    DatasConcat(r, [e]);
    assert Datas([e]) == [e.1];
  }

  /** `_rev_inorder` of frontend.py: stops at once when the countdown is
      zero, walks right subtree, node, left subtree, appending each text to
      `out`, and returns the countdown left. */
  function PyRevInorder(t: Tree, k: int, out: seq<string>): (res: (int, seq<string>))
    ensures res.1 == out + Datas(Latest(Desc(t), k))
    ensures res.0 == Remaining(|Desc(t)|, k)
  {
    if t.Leaf? || k == 0 then
      assert Latest(Desc(t), k) == [];
      assert out + Datas([]) == out;
      (k, out)
    else
      var right := PyRevInorder(t.right, k, out);
      assert Desc(t) == Desc(t.right) + [(t.time, t.data)] + Desc(t.left);
      if right.0 == 0 then
        WalkStopsRight(Desc(t.right), (t.time, t.data), Desc(t.left), k, out);
        (0, right.1)
      else
        WalkPassesRight(Desc(t.right), (t.time, t.data), Desc(t.left), k, out);
        PyRevInorder(t.left, right.0 - 1, right.1 + [t.data])
  }

  /** `rev_inorder_helper` of code.cpp: no check on entry; after the right
      subtree it stops when the countdown is zero, else emits the node's
      text, decrements, and walks the left subtree. */
  function CppRevInorder(t: Tree, k: int, out: seq<string>): (res: (int, seq<string>))
    ensures res.1 == out + Datas(Latest(Desc(t), k))
    ensures res.0 == Remaining(|Desc(t)|, k)
  {
    if t.Leaf? then
      assert out + Datas([]) == out;
      (k, out)
    else
      var right := CppRevInorder(t.right, k, out);
      assert Desc(t) == Desc(t.right) + [(t.time, t.data)] + Desc(t.left);
      if right.0 == 0 then
        WalkStopsRight(Desc(t.right), (t.time, t.data), Desc(t.left), k, out);
        (0, right.1)
      else
        WalkPassesRight(Desc(t.right), (t.time, t.data), Desc(t.left), k, out);
        CppRevInorder(t.left, right.0 - 1, right.1 + [t.data])
  }

  /** `get_latest_k`: the texts of the first `k` entries of the reverse
      in-order sequence (all of them for a negative `k`). */
  function PyLatestK(t: Tree, k: int): (r: seq<string>)
    ensures r == Datas(Latest(Desc(t), k))
  {
    PyRevInorder(t, k, []).1
  }

  /** `print_rev_inorder`: the lines it prints, in print order. */
  function CppPrintRevInorder(t: Tree, k: int): (r: seq<string>)
    ensures r == Datas(Latest(Desc(t), k))
  {
    CppRevInorder(t, k, []).1
  }

  /** The two walks agree on every tree and every count, although only the
      Python one tests the countdown on entry. */
  lemma PyCppWalksAgree(t: Tree, k: int)
    ensures PyLatestK(t, k) == CppPrintRevInorder(t, k)
  {
  }

  // ---------------------------------------------------------------------
  // The reverse in-order sequence

  /** The reverse in-order sequence lists exactly the keys of the tree. */
  lemma {:induction false} DescKeys(t: Tree)
    ensures forall i :: 0 <= i < |Desc(t)| ==> Desc(t)[i].0 in Keys(t)
    ensures forall x :: x in Keys(t) ==> exists i :: 0 <= i < |Desc(t)| && Desc(t)[i].0 == x
  {
    if t.Node? {
      DescKeys(t.left);
      DescKeys(t.right);
      var r, e, l := Desc(t.right), (t.time, t.data), Desc(t.left);
      assert Desc(t) == r + [e] + l;
      forall x | x in Keys(t) ensures exists i :: 0 <= i < |Desc(t)| && Desc(t)[i].0 == x {
        if x in Keys(t.right) {
          var i :| 0 <= i < |r| && r[i].0 == x;
          assert Desc(t)[i] == r[i];
        } else if x == t.time {
          assert Desc(t)[|r|] == e;
        } else {
          assert x in Keys(t.left);
          var i :| 0 <= i < |l| && l[i].0 == x;
          assert Desc(t)[|r| + 1 + i] == l[i];
        }
      }
    }
  }

  /** In an ordered tree the keys strictly decrease along the reverse
      in-order sequence, and each entry's text is the one stored under its
      key. */
  lemma {:induction false} DescSorted(t: Tree)
    requires Ordered(t)
    ensures forall i, j :: 0 <= i < j < |Desc(t)| ==> Desc(t)[i].0 > Desc(t)[j].0
    ensures forall i :: 0 <= i < |Desc(t)| ==> Desc(t)[i].1 == DataAt(t, Desc(t)[i].0)
  {
    if t.Node? {
      DescSorted(t.left);
      DescSorted(t.right);
      DescKeys(t.left);
      DescKeys(t.right);
      var r, e, l := Desc(t.right), (t.time, t.data), Desc(t.left);
      var d := Desc(t);
      assert d == r + [e] + l;
      assert forall i :: 0 <= i < |r| ==> d[i] == r[i] && d[i].0 > t.time;
      assert d[|r|] == e;
      assert forall i :: |r| < i < |d| ==> d[i] == l[i - |r| - 1] && d[i].0 < t.time;
    }
  }

  /** In an ordered tree there are as many entries as keys. */
  lemma {:induction false} DescLength(t: Tree)
    requires Ordered(t)
    ensures |Desc(t)| == |Keys(t)|
  {
    match t
    case Leaf =>
    case Node(l, k, _, _, r) =>
      DescLength(l);
      DescLength(r);
      forall x | x in Keys(l) ensures x !in Keys(r) {
        assert x < k;
      }
      assert Keys(l) * Keys(r) == {};
      assert (Keys(l) + Keys(r)) * {k} == {};
      assert Keys(t) == (Keys(l) + Keys(r)) + {k};
  }

  /** The first `k` entries of a strictly descending enumeration of `keys`
      hold larger keys than any key they leave out. */
  lemma LatestHoldsLargest(d: seq<Entry>, keys: set<int>, k: nat)
    requires forall i, j :: 0 <= i < j < |d| ==> d[i].0 > d[j].0
    requires forall x :: x in keys ==> exists i :: 0 <= i < |d| && d[i].0 == x
    ensures |Latest(d, k)| == (if k < |d| then k else |d|)
    ensures forall i :: 0 <= i < |Latest(d, k)| ==> Latest(d, k)[i] == d[i]
    ensures forall x, i :: x in keys && 0 <= i < |Latest(d, k)| && x > Latest(d, k)[i].0 ==>
              exists j :: 0 <= j < i && Latest(d, k)[j].0 == x
  {
    var s := Latest(d, k);
    forall x, i | x in keys && 0 <= i < |s| && x > s[i].0
      ensures exists j :: 0 <= j < i && s[j].0 == x
    {
      var j :| 0 <= j < |d| && d[j].0 == x;
      assert s[j] == d[j];
    }
  }

  /** `get_latest_k(k)` and `print_rev_inorder(k)` on an ordered tree give
      the texts of the min(k, n) largest keys, largest first: the listed
      keys strictly decrease, every key left out is smaller than every key
      listed, and each text is the one stored under its key. */
  lemma LatestAreLargest(t: Tree, k: nat)
    requires Ordered(t)
    ensures |Latest(Desc(t), k)| == (if k < |Keys(t)| then k else |Keys(t)|)
    ensures forall i, j :: 0 <= i < j < |Latest(Desc(t), k)| ==> Latest(Desc(t), k)[i].0 > Latest(Desc(t), k)[j].0
    ensures forall i :: 0 <= i < |Latest(Desc(t), k)| ==>
              Latest(Desc(t), k)[i].0 in Keys(t) && Latest(Desc(t), k)[i].1 == DataAt(t, Latest(Desc(t), k)[i].0)
    ensures forall x, i :: x in Keys(t) && 0 <= i < |Latest(Desc(t), k)| && x > Latest(Desc(t), k)[i].0 ==>
              exists j :: 0 <= j < i && Latest(Desc(t), k)[j].0 == x
  {
    LatestInOrder(t, k);
    LatestCover(t, k);
  }

  /** The latest posts come in strictly decreasing key order, each with the
      text stored under its key. */
  lemma LatestInOrder(t: Tree, k: nat)
    requires Ordered(t)
    ensures forall i, j :: 0 <= i < j < |Latest(Desc(t), k)| ==> Latest(Desc(t), k)[i].0 > Latest(Desc(t), k)[j].0
    ensures forall i :: 0 <= i < |Latest(Desc(t), k)| ==>
              Latest(Desc(t), k)[i].0 in Keys(t) && Latest(Desc(t), k)[i].1 == DataAt(t, Latest(Desc(t), k)[i].0)
  {
    DescKeys(t);
    DescSorted(t);
    LatestHoldsLargest(Desc(t), Keys(t), k);
  }

  /** There are min(k, n) latest posts, and a key left out is smaller than
      every key listed. */
  lemma LatestCover(t: Tree, k: nat)
    requires Ordered(t)
    ensures |Latest(Desc(t), k)| == (if k < |Keys(t)| then k else |Keys(t)|)
    ensures forall x, i :: x in Keys(t) && 0 <= i < |Latest(Desc(t), k)| && x > Latest(Desc(t), k)[i].0 ==>
              exists j :: 0 <= j < i && Latest(Desc(t), k)[j].0 == x
  {
    DescKeys(t);
    DescSorted(t);
    DescLength(t);
    LatestHoldsLargest(Desc(t), Keys(t), k);
  }

  /** The walk order is the in-order sequence read backwards. */
  lemma {:induction false} DescIsReverse(t: Tree)
    ensures Desc(t) == Reverse(Inorder(t))
  {
    if t.Node? {
      DescIsReverse(t.left);
      DescIsReverse(t.right);
      var e := (t.time, t.data);
      ReverseConcat(Inorder(t.left) + [e], Inorder(t.right));
      ReverseConcat(Inorder(t.left), [e]);
      assert Reverse([e]) == [e];
    }
  }

  /** Inserting a key larger than every key already present puts its entry
      first in the walk order and leaves the rest as it was: the newest post
      is the first one listed. */
  lemma InsertNewest(t: Tree, time: int, data: string, policy: DupPolicy)
    requires Ordered(t)
    requires forall x :: x in Keys(t) ==> x < time
    ensures Desc(Insert(t, time, data, policy)) == [(time, data)] + Desc(t)
  {
    InsertInorder(t, time, data, policy);
    InorderKeys(t);
    AllBelow(Inorder(t), time);
    assert InsertedEntry(t, time, data, policy) == (time, data);
    assert Inorder(t) + [(time, data)] + [] == Inorder(t) + [(time, data)];
    assert Inorder(Insert(t, time, data, policy)) == Inorder(t) + [(time, data)];
    DescIsReverse(t);
    DescIsReverse(Insert(t, time, data, policy));
    ReverseConcat(Inorder(t), [(time, data)]);
    assert Reverse([(time, data)]) == [(time, data)];
  }

  // ---------------------------------------------------------------------
  // code.cpp's leftRotate as written

  /** `leftRotate` of code.cpp as written: the new root's height is computed
      before the old root's, so it reads the old root's height from before
      the rotation. */
  function CppLeftRotateAsWritten(x: Tree): (r: Tree)
    ensures Inorder(r) == Inorder(x)
    ensures x.Node? && x.right.Node? ==>
              r.Node? && r.height == 1 + Max(x.height, Height(x.right.right))
  {
    match x
    case Node(a, xk, xd, xh, Node(b, rk, rd, _, c)) =>
      Node(Node(a, xk, xd, 1 + Max(Height(a), Height(b)), b), rk, rd, 1 + Max(xh, Height(c)), c)
    case _ => x
  }

  /** Inserting 0, 1, 2 into an empty C++ tree, with any texts: the third
      insert updates the root's height to 3 and left-rotates it. As written
      the new root gets height 4 where its true height is 2; the corrected
      rotation gives 2. */
  lemma CppLeftRotateStaleHeight(da: string, db: string, dc: string) returns (x: Tree)
    ensures x == MkNode(Leaf, 0, da, Insert(Node(Leaf, 1, db, 1, Leaf), 2, dc, Ignore))
    ensures x == Node(Leaf, 0, da, 3, Node(Leaf, 1, db, 2, Node(Leaf, 2, dc, 1, Leaf)))
    ensures HeightsOk(x.left) && HeightsOk(x.right)
    ensures Height(CppLeftRotateAsWritten(x)) == 4 && !HeightsOk(CppLeftRotateAsWritten(x))
    ensures Height(RotateLeft(x)) == 2 && HeightsOk(RotateLeft(x))
  {
    var c := Node(Leaf, 2, dc, 1, Leaf);
    var t := Node(Leaf, 1, db, 2, c);
    ThirdInsert(db, dc);
    x := Node(Leaf, 0, da, 3, t);
    assert MkNode(Leaf, 0, da, t) == x;
    RotateLeftShape(Leaf, 0, da, 3, Leaf, 1, db, 2, c);
    CppLeftRotateShape(Leaf, 0, da, 3, Leaf, 1, db, 2, c);
  }

  /** The second insert leaves a right chain of height 2, which needs no
      rotation. */
  lemma ThirdInsert(db: string, dc: string)
    ensures Insert(Node(Leaf, 1, db, 1, Leaf), 2, dc, Ignore) == Node(Leaf, 1, db, 2, Node(Leaf, 2, dc, 1, Leaf))
  {
    var t := Node(Leaf, 1, db, 2, Node(Leaf, 2, dc, 1, Leaf));
    assert Insert(Node(Leaf, 1, db, 1, Leaf), 2, dc, Ignore) == Rebalance(t, 2);
  }

  /** `CppLeftRotateAsWritten` makes the same shape as `RotateLeft`, but
      the new root's height comes from the old root's cached height. */
  lemma CppLeftRotateShape(a: Tree, xk: int, xd: string, xh: nat, b: Tree, rk: int, rd: string, rh: nat, c: Tree)
    ensures CppLeftRotateAsWritten(Node(a, xk, xd, xh, Node(b, rk, rd, rh, c)))
         == Node(MkNode(a, xk, xd, b), rk, rd, 1 + Max(xh, Height(c)), c)
  {
  }

  /** `RotateLeft` makes the right child the root, moving its left subtree
      under the old root, and recomputes both heights. */
  lemma RotateLeftShape(a: Tree, xk: int, xd: string, xh: nat, b: Tree, rk: int, rd: string, rh: nat, c: Tree)
    ensures RotateLeft(Node(a, xk, xd, xh, Node(b, rk, rd, rh, c))) == MkNode(MkNode(a, xk, xd, b), rk, rd, c)
  {
  }

  // ---------------------------------------------------------------------
  // code.cpp's insertHelper as written

  /** The rebalancing step of code.cpp's `insertHelper` as written: the
      four cases of `Rebalance`, with `leftRotate`'s stale height. */
  function CppRebalanceAsWritten(n: Tree, time: int): (r: Tree)
    ensures Inorder(r) == Inorder(n)
  {
    var balance := Balance(n);
    if balance > 1 && time < n.left.time then
      RotateRight(n)
    else if balance < -1 && time > n.right.time then
      CppLeftRotateAsWritten(n)
    else if balance > 1 && time > n.left.time then
      RotateRight(n.(left := CppLeftRotateAsWritten(n.left)))
    else if balance < -1 && time < n.right.time then
      CppLeftRotateAsWritten(n.(right := RotateRight(n.right)))
    else
      n
  }

  /** code.cpp's `insertHelper` as written: BST descent, a duplicate key
      returns the node unchanged, height update on the way back, and
      rebalancing with the stale-height `leftRotate`. */
  function CppInsertAsWritten(t: Tree, time: int, data: string): Tree {
    match t
    case Leaf => Node(Leaf, time, data, 1, Leaf)
    case Node(l, k, d, h, rt) =>
      if time < k then CppRebalanceAsWritten(MkNode(CppInsertAsWritten(l, time, data), k, d, rt), time)
      else if time > k then CppRebalanceAsWritten(MkNode(l, k, d, CppInsertAsWritten(rt, time, data)), time)
      else t
  }

  /** The stale height changes which rotations run, but every rotation keeps
      the in-order sequence: the as-written insert holds the same entries in
      the same order as the corrected one, so `output_posts` prints the
      same posts. */
  lemma {:induction false} CppInsertSameInorder(t: Tree, time: int, data: string)
    ensures Inorder(CppInsertAsWritten(t, time, data)) == Inorder(Insert(t, time, data, Ignore))
  {
    match t
    case Leaf =>
    case Node(l, k, d, h, rt) =>
      if time < k {
        CppInsertSameInorder(l, time, data);
      } else if time > k {
        CppInsertSameInorder(rt, time, data);
      }
  }

  /** The true height of a tree, from its shape alone. */
  ghost function Depth(t: Tree): nat {
    match t
    case Leaf => 0
    case Node(l, _, _, _, r) => 1 + Max(Depth(l), Depth(r))
  }

  /** The first four as-written inserts of the keys 0 to 3, with empty
      texts. The third caches a stale height 4 at key 1, which the fourth
      recomputes. */
  lemma CppFirstFourInserts()
    ensures CppInsertAsWritten(CppInsertAsWritten(CppInsertAsWritten(CppInsertAsWritten(Leaf, 0, ""), 1, ""), 2, ""), 3, "")
         == Node(Node(Leaf, 0, "", 1, Leaf), 1, "", 3, Node(Leaf, 2, "", 2, Node(Leaf, 3, "", 1, Leaf)))
  {
    var e := "";
    var n0, n2 := Node(Leaf, 0, e, 1, Leaf), Node(Leaf, 2, e, 1, Leaf);
    assert CppInsertAsWritten(Leaf, 0, e) == n0;
    assert CppInsertAsWritten(n0, 1, e) == Node(Leaf, 0, e, 2, Node(Leaf, 1, e, 1, Leaf));
    assert CppInsertAsWritten(Node(Leaf, 0, e, 2, Node(Leaf, 1, e, 1, Leaf)), 2, e) == Node(n0, 1, e, 4, n2);
  }

  /** The fifth as-written insert, of key 4: the left rotation at key 2
      caches a stale height 4 at key 3, so the root, balanced in truth,
      is rotated as well. */
  lemma CppFifthInsert()
    ensures CppInsertAsWritten(Node(Node(Leaf, 0, "", 1, Leaf), 1, "", 3, Node(Leaf, 2, "", 2, Node(Leaf, 3, "", 1, Leaf))), 4, "")
         == Node(Node(Node(Leaf, 0, "", 1, Leaf), 1, "", 2, Node(Leaf, 2, "", 1, Leaf)), 3, "", 6, Node(Leaf, 4, "", 1, Leaf))
  {
  }

  /** The same fifth insert with the corrected rotation: only the subtree at
      key 2 is rotated, and the root stays 1. */
  lemma FifthInsertCorrected()
    ensures Insert(Node(Node(Leaf, 0, "", 1, Leaf), 1, "", 3, Node(Leaf, 2, "", 2, Node(Leaf, 3, "", 1, Leaf))), 4, "", Ignore)
         == Node(Node(Leaf, 0, "", 1, Leaf), 1, "", 3, Node(Node(Leaf, 2, "", 1, Leaf), 3, "", 2, Node(Leaf, 4, "", 1, Leaf)))
  {
    var e := "";
    var n0, n2, n4 := Node(Leaf, 0, e, 1, Leaf), Node(Leaf, 2, e, 1, Leaf), Node(Leaf, 4, e, 1, Leaf);
    var s3 := Insert(Node(Leaf, 3, e, 1, Leaf), 4, e, Ignore);
    assert s3 == Node(Leaf, 3, e, 2, n4) by {
      assert s3 == Rebalance(MkNode(Leaf, 3, e, Insert(Leaf, 4, e, Ignore)), 4);
    }
    var s2 := Insert(Node(Leaf, 2, e, 2, Node(Leaf, 3, e, 1, Leaf)), 4, e, Ignore);
    assert s2 == Node(n2, 3, e, 2, n4) by {
      assert s2 == Rebalance(MkNode(Leaf, 2, e, s3), 4);
      assert MkNode(Leaf, 2, e, s3) == Node(Leaf, 2, e, 3, Node(Leaf, 3, e, 2, n4));
    }
    assert Insert(Node(n0, 1, e, 3, Node(Leaf, 2, e, 2, Node(Leaf, 3, e, 1, Leaf))), 4, e, Ignore)
        == Rebalance(MkNode(n0, 1, e, s2), 4);
  }

  /** The sixth and seventh as-written inserts, of keys 5 and 6: the stale
      height at key 5 makes the seventh rotate the root into a tree with
      root 5 over subtrees of true heights 3 and 1, which is not balanced.
      With `CppFirstFourInserts` and `CppFifthInsert` this is the run of
      the keys 0 to 6 inserted in turn; `Insert` keeps every tree AVL. */
  lemma CppLastTwoInserts()
    ensures var l := Node(Node(Leaf, 0, "", 1, Leaf), 1, "", 2, Node(Leaf, 2, "", 1, Leaf));
      CppInsertAsWritten(CppInsertAsWritten(Node(l, 3, "", 6, Node(Leaf, 4, "", 1, Leaf)), 5, ""), 6, "")
      == Node(Node(l, 3, "", 3, Node(Leaf, 4, "", 1, Leaf)), 5, "", 6, Node(Leaf, 6, "", 1, Leaf))
    ensures var l := Node(Node(Leaf, 0, "", 1, Leaf), 1, "", 2, Node(Leaf, 2, "", 1, Leaf));
      var t := CppInsertAsWritten(CppInsertAsWritten(Node(l, 3, "", 6, Node(Leaf, 4, "", 1, Leaf)), 5, ""), 6, "");
      t.Node? && t.time == 5 && Depth(t.left) == 3 && Depth(t.right) == 1
  {
    var e := "";
    var l := Node(Node(Leaf, 0, e, 1, Leaf), 1, e, 2, Node(Leaf, 2, e, 1, Leaf));
    assert CppInsertAsWritten(Node(l, 3, e, 6, Node(Leaf, 4, e, 1, Leaf)), 5, e)
        == Node(l, 3, e, 3, Node(Leaf, 4, e, 2, Node(Leaf, 5, e, 1, Leaf)));
  }
}
