/** The tree that a RedBlackTree represents, as a value, with the conditions that
    the head of freebsd_tree.h states for it, each in its own usual definition. */
module RedBlackShape {
  import opened RedBlackTree

  datatype Shape = Leaf | Branch(left: Shape, key: int, red: bool, right: Shape)

  ghost function Inorder(s: Shape): seq<int> {
    match s
    case Leaf => []
    case Branch(l, k, _, r) => Inorder(l) + [k] + Inorder(r)
  }

  /** The numbers of black nodes on the paths from the root of s to its leaves. */
  ghost function BlackCounts(s: Shape): set<nat> {
    match s
    case Leaf => {0}
    case Branch(l, _, red, r) =>
      set c: nat | c in BlackCounts(l) + BlackCounts(r) :: c + if red then 0 else 1
  }

  ghost predicate RedRoot(s: Shape) {
    s.Branch? && s.red
  }

  ghost predicate NoRedRed(s: Shape) {
    match s
    case Leaf => true
    case Branch(l, _, red, r) => NoRedRed(l) && NoRedRed(r) && (red ==> !RedRoot(l) && !RedRoot(r))
  }

  ghost predicate Ascending(s: seq<int>) {
    forall i, j :: 0 <= i < j < |s| ==> s[i] < s[j]
  }

  ghost function Height(s: Shape): nat {
    match s
    case Leaf => 0
    case Branch(l, _, _, r) => 1 + if Height(l) < Height(r) then Height(r) else Height(l)
  }

  /** How many keys a search meets on its way to where the key is, or would be. */
  ghost function Comparisons(s: Shape, key: int): (n: nat)
    ensures n <= Height(s)
  {
    match s
    case Leaf => 0
    case Branch(l, k, _, r) => 1 + if key < k then Comparisons(l, key) else if key > k then Comparisons(r, key) else 0
  }

  ghost function Pow2(n: nat): nat {
    if n == 0 then 1 else 2 * Pow2(n - 1)
  }

  // --------------------------------------------------- from the linked nodes

  ghost function ShapeOf(t: Tree, n: Node?): Shape
    requires t.Searchable() && (n != null ==> n in t.nodes)
    reads t, t.nodes
    decreases if n == null then 0 else t.hi - t.lo + n.hi - n.lo
  {
    if n == null then Leaf else
      assert t.Linked(n) && (n.left != null ==> t.Linked(n.left)) && (n.right != null ==> t.Linked(n.right));
      Branch(ShapeOf(t, n.left), n.key, n.red, ShapeOf(t, n.right))
  }

  lemma AscendingJoin(l: seq<int>, k: int, r: seq<int>)
    requires Ascending(l) && Ascending(r)
    requires (forall x :: x in l ==> x < k) && (forall x :: x in r ==> k < x)
    ensures Ascending(l + [k] + r)
  {
    var s := l + [k] + r;
    forall i, j | 0 <= i < j < |s|
      ensures s[i] < s[j]
    {
      assert i < |l| ==> s[i] in l;
      assert j > |l| ==> s[j] == r[j - |l| - 1] && s[j] in r;
      assert i > |l| ==> s[i] == r[i - |l| - 1];
    }
  }

  lemma {:induction false} AboveTrans(t: Tree, n: Node, c: Node, m: Node)
    requires t.Searchable() && n in t.nodes && c in t.nodes && m in t.nodes
    requires c.parent == n && t.Above(c, m)
    ensures t.Above(n, m)
    decreases t.hi - t.lo - (m.hi - m.lo)
  {
    assert t.Linked(m);
    assert t.Above(n, n);
    if m != c {
      assert t.Linked(m.parent);
      AboveTrans(t, n, c, m.parent);
    }
  }

  /** A node with key k is n or below it. */
  ghost predicate Under(t: Tree, n: Node?, k: int)
    requires t.Searchable() && (n != null ==> n in t.nodes)
    reads t, t.nodes
  {
    n != null && exists m :: m in t.nodes && t.Above(n, m) && m.key == k
  }

  lemma {:induction false} UnderNode(t: Tree, n: Node, k: int)
    requires t.Searchable() && n in t.nodes
    requires (n.left != null ==> n.left in t.nodes) && (n.right != null ==> n.right in t.nodes)
    ensures Under(t, n, k) <==> k == n.key || Under(t, n.left, k) || Under(t, n.right, k)
    ensures !Under(t, null, k)
  {
    assert t.Linked(n) && t.Above(n, n);
    if m :| m in t.nodes && t.Above(n, m) && m.key == k {
      t.Split(n, m);
    }
    if Under(t, n.left, k) {
      var m :| m in t.nodes && t.Above(n.left, m) && m.key == k;
      AboveTrans(t, n, n.left, m);
    }
    if Under(t, n.right, k) {
      var m :| m in t.nodes && t.Above(n.right, m) && m.key == k;
      AboveTrans(t, n, n.right, m);
    }
  }

  /** The keys of the nodes below n, in ascending order. */
  lemma {:induction false} InorderOfNode(t: Tree, n: Node)
    requires t.Searchable() && n in t.nodes
    ensures Ascending(Inorder(ShapeOf(t, n)))
    ensures forall k :: k in Inorder(ShapeOf(t, n)) <==> Under(t, n, k)
    ensures forall k :: k in Inorder(ShapeOf(t, n)) ==> n.lo < k < n.hi
    decreases n.hi - n.lo
  {
    hide Under, Ascending;
    assert t.Linked(n);
    var l, r := Inorder(ShapeOf(t, n.left)), Inorder(ShapeOf(t, n.right));
    if n.left != null {
      assert t.Linked(n.left);
      InorderOfNode(t, n.left);
    }
    if n.right != null {
      assert t.Linked(n.right);
      InorderOfNode(t, n.right);
    }
    AscendingJoin(l, n.key, r);
    forall k
      ensures k in l + [n.key] + r <==> Under(t, n, k)
    {
      UnderNode(t, n, k);
    }
  }

  lemma {:induction false} CountsOfBranch(l: Shape, k: int, red: bool, r: Shape, b: nat)
    requires BlackCounts(l) == BlackCounts(r) == {b}
    ensures BlackCounts(Branch(l, k, red, r)) == {b + if red then 0 else 1}
  {
    var s, d := Branch(l, k, red, r), if red then 0 else 1;
    forall c
      ensures c in BlackCounts(s) <==> c == b + d
    {
      assert b in BlackCounts(l) + BlackCounts(r);
    }
  }

  lemma {:induction false} ShapeAt(t: Tree, n: Node)
    requires t.Valid() && n in t.nodes
    ensures t.Searchable() && (n.left != null ==> n.left in t.nodes) && (n.right != null ==> n.right in t.nodes)
    ensures ShapeOf(t, n) == Branch(ShapeOf(t, n.left), n.key, n.red, ShapeOf(t, n.right))
    ensures BlackHeight(n.left) == BlackHeight(n.right)
    ensures BlackHeight(n) == BlackHeight(n.left) + if n.red then 0 else 1
    ensures n.red ==> !IsRed(n.left) && !IsRed(n.right)
    ensures t.lo <= n.lo < n.hi <= t.hi
    ensures n.left != null ==> n.lo <= n.left.lo < n.left.hi < n.hi
    ensures n.right != null ==> n.lo < n.right.lo < n.right.hi <= n.hi
  {
    assert t.Linked(n) && (n.left != null ==> t.Linked(n.left)) && (n.right != null ==> t.Linked(n.right));
    assert n.HeightOK() && n.NoRedRed(null);
  }

  /** Equal black counts, no red child below a red node. */
  lemma {:induction false} BalanceOfNode(t: Tree, n: Node?)
    requires t.Valid() && (n != null ==> n in t.nodes)
    ensures t.Searchable() && BlackCounts(ShapeOf(t, n)) == {BlackHeight(n)}
    ensures NoRedRed(ShapeOf(t, n)) && RedRoot(ShapeOf(t, n)) == IsRed(n)
    decreases if n == null then 0 else t.hi - t.lo + n.hi - n.lo
  {
    if n == null {
      assert BlackCounts(Leaf) == {0};
    } else {
      hide Tree.Valid, ShapeOf, BlackCounts;
      ShapeAt(t, n);
      BalanceOfNode(t, n.left);
      BalanceOfNode(t, n.right);
      CountsOfBranch(ShapeOf(t, n.left), n.key, n.red, ShapeOf(t, n.right), BlackHeight(n.left));
    }
  }

  /** A subtree of black height b has at least 2^b - 1 nodes, and its height is at
      most 2b, or one more below a red root. */
  lemma {:induction false} HeightBound(s: Shape, b: nat)
    requires BlackCounts(s) == {b} && NoRedRed(s)
    ensures Pow2(b) <= |Inorder(s)| + 1
    ensures Height(s) <= 2 * b + if RedRoot(s) then 1 else 0
  {
    if s.Branch? {
      var d := if s.red then 0 else 1;
      CountsBelow(s, b);
      HeightBound(s.left, b - d);
      HeightBound(s.right, b - d);
    }
  }

  lemma CountsBelow(s: Shape, b: nat)
    requires s.Branch? && BlackCounts(s) == {b}
    ensures s.red || b > 0
    ensures BlackCounts(s.left) == BlackCounts(s.right) == {b - if s.red then 0 else 1}
  {
    var d := if s.red then 0 else 1;
    CountsNotEmpty(s.left);
    CountsNotEmpty(s.right);
    forall c | c in BlackCounts(s.left) + BlackCounts(s.right)
      ensures c == b - d
    {
      assert c + d in BlackCounts(s);
    }
  }

  lemma {:induction false} CountsNotEmpty(s: Shape)
    ensures BlackCounts(s) != {}
  {
    if s.Branch? {
      CountsNotEmpty(s.left);
      var c :| c in BlackCounts(s.left);
      assert c + (if s.red then 0 else 1) in BlackCounts(s);
    }
  }

  lemma Doubled(x: int, y: int)
    ensures 2 * x * y == 2 * (x * y)
  {
  }

  lemma {:induction false} Pow2Sum(a: nat, b: nat)
    ensures Pow2(a + b) == Pow2(a) * Pow2(b)
  {
    if a > 0 {
      Pow2Sum(a - 1, b);
      Doubled(Pow2(a - 1), Pow2(b));
    }
  }

  lemma {:induction false} Pow2Monotone(a: nat, b: nat)
    requires a <= b
    ensures Pow2(a) <= Pow2(b)
  {
    if a < b {
      Pow2Monotone(a, b - 1);
    }
  }

  /** Keys of distinct nodes are distinct, so an ascending list of them is as long as the set. */
  lemma {:induction false} AsManyAsNodes(s: seq<int>, nodes: set<Node>)
    requires Ascending(s) && (forall m :: m in nodes ==> m.key in s)
    requires forall k :: k in s ==> exists m :: m in nodes && m.key == k
    requires forall m, n :: m in nodes && n in nodes && m.key == n.key ==> m == n
    ensures |s| == |nodes|
  {
    if s == [] {
      assert nodes == {};
    } else {
      var last := s[|s| - 1];
      assert last in s;
      var m :| m in nodes && m.key == last;
      var rest := s[..|s| - 1];
      assert s == rest + [last];
      forall k | k in rest
        ensures exists n :: n in nodes - {m} && n.key == k
      {
        assert k in s && k < last;
        var n :| n in nodes && n.key == k;
        assert n in nodes - {m};
      }
      AsManyAsNodes(rest, nodes - {m});
    }
  }

  /** What a valid tree is: its keys in order are exactly those of its nodes, the
      root is black, no red node has a red child, every path has the same number of
      black nodes, and the height is at most 2 lg (n + 1). */
  lemma ValidMeansRedBlack(t: Tree)
    requires t.Valid()
    ensures var s := ShapeOf(t, t.root);
      && Ascending(Inorder(s)) && |Inorder(s)| == |t.nodes|
      && (forall k :: k in Inorder(s) <==> exists m :: m in t.nodes && m.key == k)
      && !RedRoot(s) && NoRedRed(s) && (exists b :: BlackCounts(s) == {b})
      && Pow2(Height(s)) <= (|t.nodes| + 1) * (|t.nodes| + 1)
  {
    var s := ShapeOf(t, t.root);
    forall m | m in t.nodes
      ensures t.root != null && t.Above(t.root, m)
    {
      t.RootAbove(m);
    }
    if t.root != null {
      InorderOfNode(t, t.root);
    }
    t.DistinctKeys();
    AsManyAsNodes(Inorder(s), t.nodes);
    BalanceOfNode(t, t.root);
    var b := BlackHeight(t.root);
    HeightBound(s, b);
    Pow2Monotone(Height(s), b + b);
    Pow2Sum(b, b);
    SquareMonotone(Pow2(b), |t.nodes| + 1);
  }

  lemma SquareMonotone(a: nat, b: nat)
    requires a <= b
    ensures a * a <= b * b
  {
    assert a * a <= a * b <= b * b;
  }
}
