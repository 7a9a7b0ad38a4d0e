/** The intrusive red-black tree of freebsd_tree.h, with parent pointers.

    A node carries ghost bookkeeping next to its real fields: an open key
    interval (lo, hi) around every key below it, and the number bh of black
    nodes on each path from it down to a leaf. With those, search order, link
    consistency and balance are conditions on one node and its neighbours, so
    a rotation is checked where it happens. RedBlackShape derives from them
    the usual definitions over the whole tree. */
module RedBlackTree {

  class Node {
    const key: int
    var left: Node?
    var right: Node?
    var parent: Node?
    var red: bool
    ghost var lo: int
    ghost var hi: int
    ghost var bh: nat

    constructor (key: int)
      ensures this.key == key
    {
      this.key := key;
      left, right, parent, red := null, null, null, false;
    }

    /** RB_SET, for a red leaf with a given interval. */
    method Set(parent: Node?, ghost lo: int, ghost hi: int)
      modifies this
      ensures this.parent == parent && left == null && right == null && red
      ensures this.lo == lo && this.hi == hi && bh == 0
    {
      this.parent, left, right, red := parent, null, null, true;
      this.lo, this.hi, bh := lo, hi, 0;
    }

    /** The children of z, which has a left one, are given this node as their parent. */
    method Adopt(z: Node)
      requires z.left != null && z.left != z.right && z.left != z && z.right != z
      modifies z.left`parent, (if z.right == null then {} else {z.right})`parent
      ensures z.left.parent == this && (z.right != null ==> z.right.parent == this)
    {
      z.left.parent := this;
      if z.right != null {
        z.right.parent := this;
      }
    }

    /** Copies the links, the colour and the bookkeeping, but not the key. */
    method CopyLinks(from: Node)
      requires this != from
      modifies this
      ensures left == from.left && right == from.right && parent == from.parent && red == from.red
      ensures lo == from.lo && hi == from.hi && bh == from.bh
    {
      left, right, parent, red := from.left, from.right, from.parent, from.red;
      lo, hi, bh := from.lo, from.hi, from.bh;
    }

    /** Both subtrees have one black height, and bh adds this node to it. */
    ghost predicate HeightOK()
      reads this, left, right
    {
      && BlackHeight(left) == BlackHeight(right)
      && bh == BlackHeight(left) + if red then 0 else 1
    }

    /** A red node has no red child, other than possibly x. */
    ghost predicate NoRedRed(x: Node?)
      reads this, left, right
    {
      red ==> (left == x || !IsRed(left)) && (right == x || !IsRed(right))
    }

    /** The subtree elm is one black node short of its sibling. */
    ghost predicate ShortOn(elm: Node?)
      reads this, left, right
    {
      || (left == elm && BlackHeight(left) + 1 == BlackHeight(right) && bh == BlackHeight(right) + if red then 0 else 1)
      || (right == elm && BlackHeight(right) + 1 == BlackHeight(left) && bh == BlackHeight(left) + if red then 0 else 1)
    }
  }

  predicate IsRed(n: Node?)
    reads n
  {
    n != null && n.red
  }

  ghost function BlackHeight(n: Node?): nat
    reads n
  {
    if n == null then 0 else n.bh
  }

  /** The comparator. Keys are the ranks of the elements in its order. */
  function Cmp(a: Node, b: Node): (c: int)
    ensures c < 0 <==> a.key < b.key
    ensures c > 0 <==> a.key > b.key
  {
    if a.key < b.key then -1 else if a.key > b.key then 1 else 0
  }

  class Tree {
    var root: Node?
    ghost var nodes: set<Node>
    ghost var lo: int
    ghost var hi: int

    constructor ()
      ensures Valid() && nodes == {} && root == null
    {
      root, nodes, lo, hi := null, {}, 0, 0;
    }

    // ------------------------------------------------------------ invariants

    ghost predicate LeftLinked(n: Node)
      requires n in nodes
      reads this, nodes`left, nodes`right, nodes`parent, nodes`lo, nodes`hi
    {
      n.left != null ==> n.left in nodes && n.left.parent == n && n.lo <= n.left.lo && n.left.hi <= n.key
    }

    ghost predicate RightLinked(n: Node)
      requires n in nodes
      reads this, nodes`left, nodes`right, nodes`parent, nodes`lo, nodes`hi
    {
      n.right != null ==> n.right in nodes && n.right.parent == n && n.key <= n.right.lo && n.right.hi <= n.hi
    }

    ghost predicate UpLinked(n: Node)
      requires n in nodes
      reads this, nodes`left, nodes`right, nodes`parent, nodes`lo, nodes`hi
    {
      && (n.parent == null <==> n == root)
      && (n.parent != null ==> n.parent in nodes && (n.parent.left == n || n.parent.right == n))
    }

    /** Links around n are mutual, and its children's intervals lie inside its
        own, each on its side of n's key. */
    ghost predicate Linked(n: Node)
      requires n in nodes
      reads this, nodes`left, nodes`right, nodes`parent, nodes`lo, nodes`hi
    {
      && lo <= n.lo < n.key < n.hi <= hi
      && LeftLinked(n) && RightLinked(n) && UpLinked(n)
    }

    ghost predicate Searchable()
      reads this, nodes`left, nodes`right, nodes`parent, nodes`lo, nodes`hi
    {
      && (root == null ==> nodes == {})
      && (root != null ==> root in nodes)
      && forall n {:trigger Linked(n)} :: n in nodes ==> Linked(n)
    }

    /** Balance everywhere, except for the height at p and the colour of x. */
    ghost predicate ColouredBut(p: Node?, x: Node?)
      requires Searchable()
      reads this, nodes
    {
      && (forall n {:trigger n.HeightOK()} :: n in nodes && n != p ==> assert Linked(n); n.HeightOK())
      && (forall n {:trigger n.NoRedRed(x)} :: n in nodes ==> assert Linked(n); n.NoRedRed(x))
    }

    ghost predicate Valid()
      reads this, nodes
    {
      && Searchable()
      && ColouredBut(null, null)
      && !IsRed(root)
    }

    // ------------------------------------------------------------- rotations

    /** Where p, or the root if there is no p, pointed to x, it points to y. */
    method ReplaceChild(p: Node?, x: Node, y: Node?)
      modifies `root, (if p == null then {} else {p})`left, (if p == null then {} else {p})`right
      ensures root == if p == null then y else old(root)
      ensures p != null ==> p.left == if old(p.left) == x then y else old(p.left)
      ensures p != null ==> p.right == if old(p.left) == x then old(p.right) else y
    {
      if p != null {
        if x == p.left {
          p.left := y;
        } else {
          p.right := y;
        }
      } else {
        root := y;
      }
    }

    /** What a left rotation at x changes: y, its right child, takes over x's
        place and interval, x becomes y's left child, and b, y's former left
        child, becomes x's right child. Everything else stays. */
    twostate predicate RotatedLeft(new x: Node, new y: Node, new b: Node?, new p: Node?)
      requires x in old(nodes)
      reads this, nodes
    {
      && nodes == old(nodes) && lo == old(lo) && hi == old(hi)
      && root == (if p == null then y else old(root))
      && forall n :: n in nodes ==>
        && n.left == (if n == y then x else if n == p && old(n.left) == x then y else old(n.left))
        && n.right == (if n == x then b else if n == p && old(n.left) != x then y else old(n.right))
        && n.parent == (if n == x then y else if n == y then p else if n == b then x else old(n.parent))
        && n.lo == (if n == y then old(x.lo) else old(n.lo))
        && n.hi == (if n == y then old(x.hi) else if n == x then y.key else old(n.hi))
    }

    lemma RotationSiteLeft(x: Node)
      requires Searchable() && x in nodes
      ensures x.parent != null ==> x.parent in nodes && x.parent != x
      ensures x.right != null ==> x.right in nodes && x.right != x && x.right != x.parent && x.right.parent == x
      ensures x.right != null && x.right.left != null ==>
        x.right.left in nodes && x.right.left != x && x.right.left != x.right && x.right.left != x.parent
    {
      assert Linked(x);
      if x.right != null {
        assert Linked(x.right);
        if x.right.left != null {
          assert Linked(x.right.left);
        }
      }
      if x.parent != null {
        assert Linked(x.parent);
      }
    }

    twostate lemma RotatedLeftBelow(new x: Node, new y: Node, new b: Node?, new p: Node?, new n: Node)
      requires old(Searchable()) && x in old(nodes) && y in old(nodes) && (b != null ==> b in old(nodes))
      requires old(x.right == y && y.left == b && x.parent == p) && n in old(nodes)
      requires RotatedLeft(x, y, b, p)
      ensures lo <= n.lo < n.key < n.hi <= hi && LeftLinked(n) && RightLinked(n)
    {
      assert old(Linked(x)) && old(Linked(y)) && old(Linked(n));
      assert old(b != null ==> Linked(b));
    }

    twostate lemma RotatedLeftAbove(new x: Node, new y: Node, new b: Node?, new p: Node?, new n: Node)
      requires old(Searchable()) && x in old(nodes) && y in old(nodes) && (b != null ==> b in old(nodes))
      requires old(x.right == y && y.left == b && x.parent == p) && n in old(nodes)
      requires RotatedLeft(x, y, b, p)
      ensures UpLinked(n)
    {
      assert old(Linked(x)) && old(Linked(y)) && old(Linked(n));
      assert old(b != null ==> Linked(b));
    }

    twostate lemma RotatedLeftSearchable(new x: Node, new y: Node, new b: Node?, new p: Node?)
      requires old(Searchable()) && x in old(nodes) && y in old(nodes) && (b != null ==> b in old(nodes))
      requires old(x.right == y && y.left == b && x.parent == p)
      requires RotatedLeft(x, y, b, p)
      ensures Searchable()
    {
      hide LeftLinked, RightLinked, UpLinked;
      forall n | n in nodes
        ensures Linked(n)
      {
        RotatedLeftBelow(x, y, b, p, n);
        RotatedLeftAbove(x, y, b, p, n);
      }
    }

    /** The ghost part of a rotation: y gets x's interval, and x what is left of it. */
    ghost method PassInterval(x: Node, y: Node, l: int, h: int)
      requires x != y
      modifies x`lo, x`hi, y`lo, y`hi
      ensures y.lo == old(x.lo) && y.hi == old(x.hi) && x.lo == l && x.hi == h
    {
      y.lo, y.hi := x.lo, x.hi;
      x.lo, x.hi := l, h;
    }

    method RotateLeft(x: Node)
      requires Searchable() && x in nodes && x.right != null
      modifies `root, nodes`left, nodes`right, nodes`parent, nodes`lo, nodes`hi
      ensures RotatedLeft(x, old(x.right), old(x.right.left), old(x.parent))
      ensures Searchable()
    {
      hide Searchable;
      RotationSiteLeft(x);
      ghost var b, p := x.right.left, x.parent;
      var tmp := x.right;
      x.right := tmp.left;
      if x.right != null {
        tmp.left.parent := x;
      }
      tmp.parent := x.parent;
      ReplaceChild(x.parent, x, tmp);
      tmp.left := x;
      x.parent := tmp;
      PassInterval(x, tmp, x.lo, tmp.key);
      RotatedLeftSearchable(x, tmp, b, p);
    }

    /** The mirror image of RotatedLeft. */
    twostate predicate RotatedRight(new x: Node, new y: Node, new b: Node?, new p: Node?)
      requires x in old(nodes)
      reads this, nodes
    {
      && nodes == old(nodes) && lo == old(lo) && hi == old(hi)
      && root == (if p == null then y else old(root))
      && forall n :: n in nodes ==>
        && n.left == (if n == x then b else if n == p && old(n.left) == x then y else old(n.left))
        && n.right == (if n == y then x else if n == p && old(n.left) != x then y else old(n.right))
        && n.parent == (if n == x then y else if n == y then p else if n == b then x else old(n.parent))
        && n.lo == (if n == y then old(x.lo) else if n == x then y.key else old(n.lo))
        && n.hi == (if n == y then old(x.hi) else old(n.hi))
    }

    lemma RotationSiteRight(x: Node)
      requires Searchable() && x in nodes
      ensures x.parent != null ==> x.parent in nodes && x.parent != x
      ensures x.left != null ==> x.left in nodes && x.left != x && x.left != x.parent && x.left.parent == x
      ensures x.left != null && x.left.right != null ==>
        x.left.right in nodes && x.left.right != x && x.left.right != x.left && x.left.right != x.parent
    {
      assert Linked(x);
      if x.left != null {
        assert Linked(x.left);
        if x.left.right != null {
          assert Linked(x.left.right);
        }
      }
      if x.parent != null {
        assert Linked(x.parent);
      }
    }

    twostate lemma RotatedRightBelow(new x: Node, new y: Node, new b: Node?, new p: Node?, new n: Node)
      requires old(Searchable()) && x in old(nodes) && y in old(nodes) && (b != null ==> b in old(nodes))
      requires old(x.left == y && y.right == b && x.parent == p) && n in old(nodes)
      requires RotatedRight(x, y, b, p)
      ensures lo <= n.lo < n.key < n.hi <= hi && RightLinked(n) && LeftLinked(n)
    {
      assert old(Linked(x)) && old(Linked(y)) && old(Linked(n));
      assert old(b != null ==> Linked(b));
    }

    twostate lemma RotatedRightAbove(new x: Node, new y: Node, new b: Node?, new p: Node?, new n: Node)
      requires old(Searchable()) && x in old(nodes) && y in old(nodes) && (b != null ==> b in old(nodes))
      requires old(x.left == y && y.right == b && x.parent == p) && n in old(nodes)
      requires RotatedRight(x, y, b, p)
      ensures UpLinked(n)
    {
      assert old(Linked(x)) && old(Linked(y)) && old(Linked(n));
      assert old(b != null ==> Linked(b));
    }

    twostate lemma RotatedRightSearchable(new x: Node, new y: Node, new b: Node?, new p: Node?)
      requires old(Searchable()) && x in old(nodes) && y in old(nodes) && (b != null ==> b in old(nodes))
      requires old(x.left == y && y.right == b && x.parent == p)
      requires RotatedRight(x, y, b, p)
      ensures Searchable()
    {
      hide RightLinked, LeftLinked, UpLinked;
      forall n | n in nodes
        ensures Linked(n)
      {
        RotatedRightBelow(x, y, b, p, n);
        RotatedRightAbove(x, y, b, p, n);
      }
    }

    method RotateRight(x: Node)
      requires Searchable() && x in nodes && x.left != null
      modifies `root, nodes`right, nodes`left, nodes`parent, nodes`lo, nodes`hi
      ensures RotatedRight(x, old(x.left), old(x.left.right), old(x.parent))
      ensures Searchable()
    {
      hide Searchable;
      RotationSiteRight(x);
      ghost var b, p := x.left.right, x.parent;
      var tmp := x.left;
      x.left := tmp.right;
      if x.left != null {
        tmp.right.parent := x;
      }
      tmp.parent := x.parent;
      ReplaceChild(x.parent, x, tmp);
      tmp.right := x;
      x.parent := tmp;
      PassInterval(x, tmp, tmp.key, x.hi);
      RotatedRightSearchable(x, tmp, b, p);
    }

    // ---------------------------------------- colours and heights around a rotation

    /** Outside x and y, a rotation moves no child link except p's, and only red
        and bh at x, y and y's child c have changed. */
    twostate predicate RepaintedLeft(new x: Node, new y: Node, new b: Node?, new p: Node?, new c: Node?)
      reads this, nodes
    {
      && old(Searchable()) && Searchable() && x in old(nodes) && y in old(nodes)
      && (b != null ==> b in old(nodes)) && (c != null ==> c in old(nodes))
      && old(x.right == y && y.left == b && x.parent == p) && RotatedLeft(x, y, b, p)
      && (c != null ==> old(c.parent) == y && c != b)
      && (forall n :: n in nodes && n != x && n != y && n != c ==> n.red == old(n.red) && n.bh == old(n.bh))
      && y.bh == old(x.bh) && (y.red ==> old(x.red))
    }

    /** Then the balance at such a node n is what it was. */
    twostate lemma HeightBesideLeft(new x: Node, new y: Node, new b: Node?, new p: Node?, new c: Node?, new n: Node)
      requires RepaintedLeft(x, y, b, p, c)
      requires n in old(nodes) && n != x && n != y && n != c && old(n.HeightOK())
      ensures n.HeightOK()
    {
      assert old(Linked(n));
      assert old(Linked(x)) && old(Linked(y));
    }

    twostate lemma ColourBesideLeft(new x: Node, new y: Node, new b: Node?, new p: Node?, new c: Node?, new e: Node?,
        new n: Node)
      requires RepaintedLeft(x, y, b, p, c)
      requires e != null ==> e in old(nodes)
      requires n in old(nodes) && n != x && n != y && n != c && old(n.NoRedRed(e))
      requires e != null && old(e.red) ==> old(e.parent) == x || old(e.parent) == y
      ensures n.NoRedRed(null)
    {
      assert old(Linked(n));
      assert old(Linked(x)) && old(Linked(y));
    }

    twostate lemma BalancedBesideLeft(new x: Node, new y: Node, new b: Node?, new p: Node?, new c: Node?,
        new q: Node?, new e: Node?)
      requires RepaintedLeft(x, y, b, p, c)
      requires e != null ==> e in old(nodes)
      requires e != null && old(e.red) ==> old(e.parent) == x || old(e.parent) == y
      requires (q != null ==> q in old(nodes)) && old(ColouredBut(q, e))
      ensures forall n {:trigger n.HeightOK()} :: n in nodes && n != x && n != y && n != c && n != q ==> n.HeightOK()
      ensures forall n, z {:trigger n.NoRedRed(z)} :: n in nodes && n != x && n != y && n != c ==> n.NoRedRed(z)
    {
      forall n | n in nodes && n != x && n != y && n != c
        ensures n != q ==> n.HeightOK()
        ensures n.NoRedRed(null)
      {
        if n != q {
          assert old(n.HeightOK());
          HeightBesideLeft(x, y, b, p, c, n);
        }
        assert old(n.NoRedRed(e));
        ColourBesideLeft(x, y, b, p, c, e, n);
      }
    }

    twostate predicate RepaintedRight(new x: Node, new y: Node, new b: Node?, new p: Node?, new c: Node?)
      reads this, nodes
    {
      && old(Searchable()) && Searchable() && x in old(nodes) && y in old(nodes)
      && (b != null ==> b in old(nodes)) && (c != null ==> c in old(nodes))
      && old(x.left == y && y.right == b && x.parent == p) && RotatedRight(x, y, b, p)
      && (c != null ==> old(c.parent) == y && c != b)
      && (forall n :: n in nodes && n != x && n != y && n != c ==> n.red == old(n.red) && n.bh == old(n.bh))
      && y.bh == old(x.bh) && (y.red ==> old(x.red))
    }

    /** Then the balance at such a node n is what it was. */
    twostate lemma HeightBesideRight(new x: Node, new y: Node, new b: Node?, new p: Node?, new c: Node?, new n: Node)
      requires RepaintedRight(x, y, b, p, c)
      requires n in old(nodes) && n != x && n != y && n != c && old(n.HeightOK())
      ensures n.HeightOK()
    {
      assert old(Linked(n));
      assert old(Linked(x)) && old(Linked(y));
    }

    twostate lemma ColourBesideRight(new x: Node, new y: Node, new b: Node?, new p: Node?, new c: Node?, new e: Node?,
        new n: Node)
      requires RepaintedRight(x, y, b, p, c)
      requires e != null ==> e in old(nodes)
      requires n in old(nodes) && n != x && n != y && n != c && old(n.NoRedRed(e))
      requires e != null && old(e.red) ==> old(e.parent) == x || old(e.parent) == y
      ensures n.NoRedRed(null)
    {
      assert old(Linked(n));
      assert old(Linked(x)) && old(Linked(y));
    }

    twostate lemma BalancedBesideRight(new x: Node, new y: Node, new b: Node?, new p: Node?, new c: Node?,
        new q: Node?, new e: Node?)
      requires RepaintedRight(x, y, b, p, c)
      requires e != null ==> e in old(nodes)
      requires e != null && old(e.red) ==> old(e.parent) == x || old(e.parent) == y
      requires (q != null ==> q in old(nodes)) && old(ColouredBut(q, e))
      ensures forall n {:trigger n.HeightOK()} :: n in nodes && n != x && n != y && n != c && n != q ==> n.HeightOK()
      ensures forall n, z {:trigger n.NoRedRed(z)} :: n in nodes && n != x && n != y && n != c ==> n.NoRedRed(z)
    {
      forall n | n in nodes && n != x && n != y && n != c
        ensures n != q ==> n.HeightOK()
        ensures n.NoRedRed(null)
      {
        if n != q {
          assert old(n.HeightOK());
          HeightBesideRight(x, y, b, p, c, n);
        }
        assert old(n.NoRedRed(e));
        ColourBesideRight(x, y, b, p, c, e, n);
      }
    }

    /** Recolours two nodes, the first to black; their black heights are given. */
    method SetBlackRed(black: Node, red: Node, ghost blackBh: nat, ghost redBh: nat)
      requires Searchable() && black in nodes && red in nodes && black != red
      modifies {black, red}`red, {black, red}`bh
      ensures Searchable()
      ensures !black.red && black.bh == blackBh && red.red && red.bh == redBh
    {
      hide Searchable;
      black.red := false;
      red.red := true;
      black.bh, red.bh := blackBh, redBh;
    }

    method Blacken(n: Node, ghost bh: nat)
      requires Searchable() && n in nodes
      modifies n`red, n`bh
      ensures Searchable()
      ensures !n.red && n.bh == bh
    {
      hide Searchable;
      n.red, n.bh := false, bh;
    }

    // ------------------------------------------------------------- insertion

    /** The state of the insertion fix-up: everything is in place, except that
        the red node elm may have a red parent, or be a red root. */
    ghost predicate RedAt(elm: Node)
      reads this, nodes
    {
      && Searchable() && elm in nodes && elm.red
      && ColouredBut(null, elm)
      && (IsRed(root) ==> root == elm)
    }

    /** A red parent is below a black grandparent. */
    lemma GrandparentIsBlack(elm: Node)
      requires RedAt(elm) && IsRed(elm.parent)
      ensures elm.parent in nodes && elm.parent.parent != null && elm.parent.parent in nodes && !elm.parent.parent.red
      ensures elm.parent != elm && elm.parent.parent != elm.parent && elm.parent.parent != elm
      ensures elm.parent == elm.parent.parent.left || elm.parent == elm.parent.parent.right
      ensures elm == elm.parent.left || elm == elm.parent.right
      ensures elm.bh == elm.parent.bh
    {
      assert Linked(elm) && Linked(elm.parent) && Linked(elm.parent.parent);
      assert elm.parent.parent.NoRedRed(elm) && elm.parent.HeightOK();
    }

    /** Balance at the nodes touched, and at all others, is balance everywhere. */
    lemma AllColoured(x: Node, y: Node, c: Node?, q: Node?, e: Node?)
      requires Searchable() && x in nodes && y in nodes && (c != null ==> c in nodes)
      requires (x == q || x.HeightOK()) && (y == q || y.HeightOK()) && (c == null || c == q || c.HeightOK())
      requires x.NoRedRed(e) && y.NoRedRed(e) && (c == null || c.NoRedRed(e))
      requires forall n {:trigger n.HeightOK()} ::
        n in nodes && n != x && n != y && n != c && n != q ==> assert Linked(n); n.HeightOK()
      requires forall n {:trigger n.NoRedRed(e)} ::
        n in nodes && n != x && n != y && n != c ==> assert Linked(n); n.NoRedRed(e)
      ensures ColouredBut(q, e)
    {
    }

    twostate lemma OuterRightHere(new elm: Node, new parent: Node, new gparent: Node, new b: Node?, new p: Node?)
      requires {elm, parent, gparent} <= old(nodes) && old(RedAt(elm) && parent == elm.parent && parent.red)
      requires old(gparent == parent.parent && elm == parent.left && parent == gparent.left && !IsRed(gparent.right)
        && !gparent.red)
      requires RepaintedRight(gparent, parent, b, p, null)
      requires !parent.red && parent.bh == old(gparent.bh) && gparent.red && gparent.bh == old(parent.bh)
      ensures elm.red && elm.parent == parent && (IsRed(root) ==> root == elm)
      ensures gparent.HeightOK() && parent.HeightOK()
      ensures gparent.NoRedRed(elm) && parent.NoRedRed(elm)
    {
      assert old(Linked(elm) && Linked(parent) && Linked(gparent));
      assert old(parent.HeightOK() && gparent.HeightOK() && parent.NoRedRed(elm) && elm.NoRedRed(elm));
    }

    /** The last step: elm and its parent are both left children, the uncle is not red. */
    method RotateOuterRight(elm: Node, parent: Node, gparent: Node)
      requires RedAt(elm) && parent == elm.parent && parent.red && gparent == parent.parent
      requires elm == parent.left && parent == gparent.left && !IsRed(gparent.right)
      modifies `root, nodes
      ensures RedAt(elm) && !IsRed(elm.parent)
    {
      hide Searchable, Linked, ColouredBut, Node.HeightOK, Node.NoRedRed;
      GrandparentIsBlack(elm);
      RotationSiteRight(gparent);
      ghost var b, p := parent.right, gparent.parent;
      SetBlackRed(parent, gparent, gparent.bh, parent.bh);
      RotateRight(gparent);
      OuterRightHere(elm, parent, gparent, b, p);
      BalancedBesideRight(gparent, parent, b, p, null, null, elm);
      AllColoured(gparent, parent, null, null, elm);
    }

    twostate lemma OuterLeftHere(new elm: Node, new parent: Node, new gparent: Node, new b: Node?, new p: Node?)
      requires {elm, parent, gparent} <= old(nodes) && old(RedAt(elm) && parent == elm.parent && parent.red)
      requires old(gparent == parent.parent && elm == parent.right && parent == gparent.right && !IsRed(gparent.left)
        && !gparent.red)
      requires RepaintedLeft(gparent, parent, b, p, null)
      requires !parent.red && parent.bh == old(gparent.bh) && gparent.red && gparent.bh == old(parent.bh)
      ensures elm.red && elm.parent == parent && (IsRed(root) ==> root == elm)
      ensures gparent.HeightOK() && parent.HeightOK()
      ensures gparent.NoRedRed(elm) && parent.NoRedRed(elm)
    {
      assert old(Linked(elm) && Linked(parent) && Linked(gparent));
      assert old(parent.HeightOK() && gparent.HeightOK() && parent.NoRedRed(elm) && elm.NoRedRed(elm));
    }

    /** The last step: elm and its parent are both right children, the uncle is not red. */
    method RotateOuterLeft(elm: Node, parent: Node, gparent: Node)
      requires RedAt(elm) && parent == elm.parent && parent.red && gparent == parent.parent
      requires elm == parent.right && parent == gparent.right && !IsRed(gparent.left)
      modifies `root, nodes
      ensures RedAt(elm) && !IsRed(elm.parent)
    {
      hide Searchable, Linked, ColouredBut, Node.HeightOK, Node.NoRedRed;
      GrandparentIsBlack(elm);
      RotationSiteLeft(gparent);
      ghost var b, p := parent.left, gparent.parent;
      SetBlackRed(parent, gparent, gparent.bh, parent.bh);
      RotateLeft(gparent);
      OuterLeftHere(elm, parent, gparent, b, p);
      BalancedBesideLeft(gparent, parent, b, p, null, null, elm);
      AllColoured(gparent, parent, null, null, elm);
    }

    twostate lemma InnerLeftHere(new elm: Node, new parent: Node, new b: Node?, new p: Node)
      requires {elm, parent, p} <= old(nodes) && old(RedAt(elm) && parent == elm.parent && parent.red)
      requires old(elm == parent.right && p == parent.parent && p.left == parent && !p.red)
      requires RepaintedLeft(parent, elm, b, p, null) && parent.bh == old(parent.bh)
      requires elm.red && parent.red && p.red == old(p.red)
      ensures parent.parent == elm && elm.left == parent && elm.parent == p && p.left == elm && p.right == old(p.right)
      ensures IsRed(root) ==> root == parent
      ensures IsRed(p.right) == old(IsRed(p.right))
      ensures elm.HeightOK() && parent.HeightOK() && elm.NoRedRed(parent) && parent.NoRedRed(parent)
    {
      assert old(Linked(elm) && Linked(parent) && Linked(p) && (p.right != null ==> Linked(p.right)));
      assert old(parent.HeightOK() && elm.HeightOK() && elm.NoRedRed(elm) && parent.NoRedRed(elm));
    }

    /** The step before it: elm is an inner grandchild, and trades places with its parent. */
    method RotateInnerLeft(elm: Node, parent: Node)
      requires RedAt(elm) && parent == elm.parent && parent.red && elm == parent.right
      requires parent.parent != null && parent.parent.left == parent
      modifies `root, nodes
      ensures RedAt(parent) && parent.parent == elm && elm.red && elm.left == parent
      ensures elm.parent == old(parent.parent) && elm.parent.left == elm
      ensures elm.parent.right == old(parent.parent.right) && IsRed(elm.parent.right) == old(IsRed(parent.parent.right))
    {
      hide Searchable, Linked, ColouredBut, Node.HeightOK, Node.NoRedRed;
      GrandparentIsBlack(elm);
      RotationSiteLeft(parent);
      ghost var b, p := elm.left, parent.parent;
      RotateLeft(parent);
      InnerLeftHere(elm, parent, b, p);
      BalancedBesideLeft(parent, elm, b, p, null, null, elm);
      AllColoured(parent, elm, null, null, parent);
    }

    twostate lemma InnerRightHere(new elm: Node, new parent: Node, new b: Node?, new p: Node)
      requires {elm, parent, p} <= old(nodes) && old(RedAt(elm) && parent == elm.parent && parent.red)
      requires old(elm == parent.left && p == parent.parent && p.right == parent && !p.red)
      requires RepaintedRight(parent, elm, b, p, null) && parent.bh == old(parent.bh)
      requires elm.red && parent.red && p.red == old(p.red)
      ensures parent.parent == elm && elm.right == parent && elm.parent == p && p.right == elm && p.left == old(p.left)
      ensures IsRed(root) ==> root == parent
      ensures IsRed(p.left) == old(IsRed(p.left))
      ensures elm.HeightOK() && parent.HeightOK() && elm.NoRedRed(parent) && parent.NoRedRed(parent)
    {
      assert old(Linked(elm) && Linked(parent) && Linked(p) && (p.left != null ==> Linked(p.left)));
      assert old(parent.HeightOK() && elm.HeightOK() && elm.NoRedRed(elm) && parent.NoRedRed(elm));
    }

    /** The step before it: elm is an inner grandchild, and trades places with its parent. */
    method RotateInnerRight(elm: Node, parent: Node)
      requires RedAt(elm) && parent == elm.parent && parent.red && elm == parent.left
      requires parent.parent != null && parent.parent.right == parent
      modifies `root, nodes
      ensures RedAt(parent) && parent.parent == elm && elm.red && elm.right == parent
      ensures elm.parent == old(parent.parent) && elm.parent.right == elm
      ensures elm.parent.left == old(parent.parent.left) && IsRed(elm.parent.left) == old(IsRed(parent.parent.left))
    {
      hide Searchable, Linked, ColouredBut, Node.HeightOK, Node.NoRedRed;
      GrandparentIsBlack(elm);
      RotationSiteRight(parent);
      ghost var b, p := elm.right, parent.parent;
      RotateRight(parent);
      InnerRightHere(elm, parent, b, p);
      BalancedBesideRight(parent, elm, b, p, null, null, elm);
      AllColoured(parent, elm, null, null, parent);
    }

    /** The uncle tmp is red too: both red siblings turn black, and the grandparent red. */
    twostate predicate RecolouredUp(new elm: Node, new parent: Node, new gparent: Node, new tmp: Node)
      reads this, nodes
    {
      && {elm, parent, gparent, tmp} <= old(nodes) && nodes == old(nodes) && Searchable()
      && old(RedAt(elm) && parent == elm.parent && parent.red && gparent == parent.parent)
      && old(tmp.red && tmp != parent && (gparent.left == tmp || gparent.right == tmp))
      && (forall n :: n in nodes ==> n.left == old(n.left) && n.right == old(n.right))
      && (forall n :: n in nodes && n != parent && n != gparent && n != tmp ==>
        n.red == old(n.red) && n.bh == old(n.bh))
      && gparent.red && gparent.bh == old(gparent.bh)
      && !parent.red && parent.bh == old(parent.bh) + 1 && !tmp.red && tmp.bh == old(tmp.bh) + 1
    }

    twostate lemma RecolouredHeight(new elm: Node, new parent: Node, new gparent: Node, new tmp: Node, new n: Node)
      requires RecolouredUp(elm, parent, gparent, tmp) && n in old(nodes)
      ensures n.HeightOK()
    {
      assert old(Linked(gparent) && Linked(tmp) && Linked(parent));
      assert old(gparent.NoRedRed(elm));
      assert old(Linked(n)) && old(n.HeightOK());
    }

    twostate lemma RecolouredColour(new elm: Node, new parent: Node, new gparent: Node, new tmp: Node, new n: Node)
      requires RecolouredUp(elm, parent, gparent, tmp) && n in old(nodes)
      ensures n.NoRedRed(gparent)
    {
      assert old(Linked(gparent) && Linked(tmp) && Linked(parent) && Linked(elm));
      assert old(Linked(n)) && old(n.NoRedRed(elm));
    }

    method RecolourUp(elm: Node, parent: Node, gparent: Node, tmp: Node)
      requires RedAt(elm) && parent == elm.parent && parent.red && gparent == parent.parent
      requires tmp in nodes && tmp.red && tmp != parent && (gparent.left == tmp || gparent.right == tmp)
      modifies nodes`red, nodes`bh
      ensures RedAt(gparent)
    {
      GrandparentIsBlack(elm);
      assert Linked(gparent) && Linked(tmp) && Linked(elm);
      Blacken(tmp, tmp.bh + 1);
      SetBlackRed(parent, gparent, parent.bh + 1, gparent.bh);
      forall n | n in nodes
        ensures n.HeightOK() && n.NoRedRed(gparent)
      {
        RecolouredHeight(elm, parent, gparent, tmp, n);
        RecolouredColour(elm, parent, gparent, tmp, n);
      }
    }

    method BlackenRoot(ghost elm: Node)
      requires RedAt(elm) && !IsRed(elm.parent)
      modifies nodes`red, nodes`bh
      ensures Valid()
    {
      assert Linked(elm) && Linked(root) && root.HeightOK();
      Blacken(root, if root.red then root.bh + 1 else root.bh);
      forall n | n in nodes
        ensures n.HeightOK() && n.NoRedRed(null)
      {
        assert Linked(n) && old(n.HeightOK()) && old(n.NoRedRed(elm));
      }
    }

    method InsertColor(elm0: Node)
      requires RedAt(elm0)
      modifies `root, nodes
      ensures Valid()
    {
      var elm: Node := elm0;
      var parent: Node? := elm.parent;
      while parent != null && parent.red
        invariant RedAt(elm) && parent == elm.parent
        decreases if IsRed(parent) then hi - lo - (elm.hi - elm.lo) + 1 else 0
      {
        GrandparentIsBlack(elm);
        var gparent: Node := parent.parent;
        assert Linked(elm) && Linked(parent) && Linked(gparent);
        if parent == gparent.left {
          var tmp := gparent.right;
          if tmp != null && tmp.red {
            RecolourUp(elm, parent, gparent, tmp);
            elm, parent := gparent, gparent.parent;
            continue;
          }
          if parent.right == elm {
            RotateInnerLeft(elm, parent);
            parent, elm := elm, parent;
          }
          RotateOuterRight(elm, parent, gparent);
          parent := elm.parent;
        } else {
          var tmp := gparent.left;
          if tmp != null && tmp.red {
            RecolourUp(elm, parent, gparent, tmp);
            elm, parent := gparent, gparent.parent;
            continue;
          }
          if parent.left == elm {
            RotateInnerRight(elm, parent);
            parent, elm := elm, parent;
          }
          RotateOuterLeft(elm, parent, gparent);
          parent := elm.parent;
        }
      }
      BlackenRoot(elm);
    }

    // Widening an interval, which insertion does on the way down, is a ghost step.

    twostate lemma OnlyBoundsMoved()
      requires old(Searchable()) && old(ColouredBut(null, null)) && Searchable() && nodes == old(nodes)
      requires forall n :: n in nodes ==>
        n.left == old(n.left) && n.right == old(n.right) && n.red == old(n.red) && n.bh == old(n.bh)
      ensures ColouredBut(null, null)
    {
      forall n | n in nodes
        ensures n.HeightOK() && n.NoRedRed(null)
      {
        assert old(Linked(n)) && old(n.HeightOK()) && old(n.NoRedRed(null));
      }
    }

    twostate lemma WidenedLinked(new n: Node, new m: Node)
      requires old(Searchable()) && n in old(nodes) && m in old(nodes)
      requires unchanged(this) && lo <= n.lo <= old(n.lo) && old(n.hi) <= n.hi <= hi
      requires n.parent != null && n.parent.left == n ==> n.parent.lo <= n.lo && n.hi <= n.parent.key
      requires n.parent != null && n.parent.right == n ==> n.parent.key <= n.lo && n.hi <= n.parent.hi
      requires forall k :: k in nodes ==> k.left == old(k.left) && k.right == old(k.right) && k.parent == old(k.parent)
      requires forall k :: k in nodes && k != n ==> k.lo == old(k.lo) && k.hi == old(k.hi)
      ensures Linked(m)
    {
      assert old(Linked(n) && Linked(m));
    }

    ghost method Widen(n: Node, l: int, h: int)
      requires Searchable() && ColouredBut(null, null) && n in nodes
      requires lo <= l <= n.lo && n.hi <= h <= hi
      requires n.parent != null && n.parent.left == n ==> n.parent.lo <= l && h <= n.parent.key
      requires n.parent != null && n.parent.right == n ==> n.parent.key <= l && h <= n.parent.hi
      modifies n`lo, n`hi
      ensures Searchable() && ColouredBut(null, null) && n.lo == l && n.hi == h
    {
      assert Linked(n);
      n.lo, n.hi := l, h;
      forall m | m in nodes
        ensures Linked(m)
      {
        WidenedLinked(n, m);
      }
      OnlyBoundsMoved();
    }

    ghost method WidenTree(key: int)
      requires Valid()
      modifies `lo, `hi
      ensures Searchable() && ColouredBut(null, null) && lo < key < hi
      ensures lo <= old(lo) && old(hi) <= hi
    {
      hide ColouredBut;
      lo, hi := if lo < key then lo else key - 1, if key < hi then hi else key + 1;
      forall m | m in nodes
        ensures Linked(m)
      {
        assert old(Linked(m));
      }
      OnlyBoundsMoved();
    }

    ghost method WidenRoot(key: int)
      requires Valid()
      modifies `lo, `hi, nodes`lo, nodes`hi
      ensures Searchable() && ColouredBut(null, null) && lo < key < hi
      ensures root != null ==> root.lo < key < root.hi
    {
      WidenTree(key);
      if root != null {
        assert Linked(root);
        Widen(root, lo, hi);
      }
    }

    twostate predicate Hung(new elm: Node, new parent: Node?)
      reads this, nodes
    {
      && old(Searchable()) && elm !in old(nodes) && nodes == old(nodes) + {elm}
      && lo == old(lo) && hi == old(hi)
      && (parent == null ==> old(root) == null && root == elm && elm.lo == lo && elm.hi == hi)
      && (parent != null ==> parent in old(nodes) && root == old(root))
      && (parent != null && elm.key < parent.key ==>
        old(parent.left) == null && parent.left == elm && parent.right == old(parent.right)
          && elm.lo == old(parent.lo) && elm.hi == parent.key)
      && (parent != null && elm.key >= parent.key ==>
        old(parent.right) == null && parent.right == elm && parent.left == old(parent.left) && elm.lo == parent.key
          && elm.hi == old(parent.hi))
      && elm.lo < elm.key < elm.hi && elm.parent == parent && elm.left == null && elm.right == null && elm.red
        && elm.bh == 0
      && (forall n :: n in old(nodes) ==>
        n.parent == old(n.parent) && n.lo == old(n.lo) && n.hi == old(n.hi) && n.red == old(n.red) && n.bh == old(n.bh))
      && (forall n :: n in old(nodes) && n != parent ==> n.left == old(n.left) && n.right == old(n.right))
    }

    twostate lemma LinkedSearchable(new elm: Node, new parent: Node?, new n: Node)
      requires Hung(elm, parent) && n in nodes
      ensures Linked(n)
    {
      if n != elm {
        assert old(Linked(n));
      }
      if parent != null {
        assert old(Linked(parent));
      }
    }

    twostate lemma LinkedColoured(new elm: Node, new parent: Node?, new n: Node)
      requires Hung(elm, parent) && n in nodes
      requires old(ColouredBut(null, null))
      ensures n.HeightOK() && n.NoRedRed(elm)
    {
      if n != elm {
        assert old(Linked(n)) && old(n.HeightOK()) && old(n.NoRedRed(null));
      }
    }

    twostate lemma HungIsRedAt(new elm: Node, new parent: Node?)
      requires Hung(elm, parent) && old(ColouredBut(null, null) && !IsRed(root))
      ensures RedAt(elm)
    {
      hide Linked, Node.HeightOK, Node.NoRedRed;
      forall n | n in nodes
        ensures Linked(n)
      {
        LinkedSearchable(elm, parent, n);
      }
      forall n | n in nodes
        ensures n.HeightOK() && n.NoRedRed(elm)
      {
        LinkedColoured(elm, parent, n);
      }
    }

    /** Hangs the red leaf elm below parent, on the side of its key. */
    method Link(elm: Node, parent: Node?, comp: int)
      requires Searchable() && ColouredBut(null, null) && !IsRed(root) && elm !in nodes
      requires parent == null ==> root == null && lo < elm.key < hi
      requires parent != null ==> parent in nodes && comp == Cmp(elm, parent) && parent.lo < elm.key < parent.hi
      requires parent != null && comp < 0 ==> parent.left == null
      requires parent != null && comp >= 0 ==> parent.right == null && elm.key != parent.key
      modifies `root, `nodes, elm, nodes`left, nodes`right
      ensures RedAt(elm) && nodes == old(nodes) + {elm}
    {
      hide Searchable, ColouredBut;
      ghost var l := if parent == null then lo else if comp < 0 then parent.lo else parent.key;
      ghost var h := if parent == null then hi else if comp < 0 then parent.key else parent.hi;
      elm.Set(parent, l, h);
      if parent != null {
        if comp < 0 {
          parent.left := elm;
        } else {
          parent.right := elm;
        }
      } else {
        root := elm;
      }
      nodes := nodes + {elm};
      HungIsRedAt(elm, parent);
    }

    /** A key that belongs where there is no child is not in the tree. */
    lemma NotThere(parent: Node?, elm: Node)
      requires Searchable() && (parent == null ==> root == null)
      requires parent != null ==> parent in nodes && parent.lo < elm.key < parent.hi && elm.key != parent.key
      requires parent != null ==> if elm.key < parent.key then parent.left == null else parent.right == null
      ensures elm !in nodes
    {
      if parent != null && elm in nodes {
        Outside(parent, elm);
        Split(parent, elm);
        assert false;
      }
    }

    method Insert(elm: Node) returns (r: Node?)
      requires Valid()
      modifies this, nodes, elm
      ensures Valid()
      ensures r == null ==> nodes == old(nodes) + {elm} && forall n :: n in old(nodes) ==> n.key != elm.key
      ensures r != null ==> r in nodes && r.key == elm.key && nodes == old(nodes) && root == old(root)
      ensures r != null ==> forall n :: n in nodes ==>
        n.left == old(n.left) && n.right == old(n.right) && n.parent == old(n.parent) && n.red == old(n.red)
    {
      ValidIsSearchable();
      hide ColouredBut;
      WidenRoot(elm.key);
      var tmp := root;
      var parent: Node? := null;
      var comp := 0;
      while tmp != null
        invariant Searchable() && ColouredBut(null, null)
        invariant parent == null ==> tmp == root
        invariant parent != null ==> parent in nodes && comp == Cmp(elm, parent) != 0 && parent.lo < elm.key < parent.hi
        invariant parent != null ==> tmp == if comp < 0 then parent.left else parent.right
        invariant tmp != null ==> tmp in nodes && tmp.lo < elm.key < tmp.hi
        modifies nodes`lo, nodes`hi
        decreases if tmp == null then 0 else tmp.hi - tmp.lo
      {
        parent := tmp;
        comp := Cmp(elm, parent);
        assert Linked(parent);
        if comp < 0 {
          tmp := tmp.left;
          if tmp != null {
            assert Linked(tmp);
            Widen(tmp, parent.lo, parent.key);
          }
        } else if comp > 0 {
          tmp := tmp.right;
          if tmp != null {
            assert Linked(tmp);
            Widen(tmp, parent.key, parent.hi);
          }
        } else {
          return tmp;
        }
      }
      NotThere(parent, elm);
      Link(elm, parent, comp);
      InsertColor(elm);
      DistinctKeys();
      return null;
    }

    // --------------------------------------------------- where a key can be

    /** n is x or lies below it. */
    ghost predicate Above(x: Node, n: Node)
      requires Searchable() && n in nodes
      reads this, nodes
      decreases hi - lo - (n.hi - n.lo)
    {
      assert Linked(n);
      n == x || (n.parent != null && (assert Linked(n.parent); Above(x, n.parent)))
    }

    lemma {:induction false} RootAbove(n: Node)
      requires Searchable() && n in nodes
      ensures root != null && Above(root, n)
      decreases hi - lo - (n.hi - n.lo)
    {
      assert Linked(n);
      if n.parent != null {
        assert Linked(n.parent);
        RootAbove(n.parent);
      }
    }

    lemma {:induction false} Within(x: Node, n: Node)
      requires Searchable() && n in nodes && x in nodes && Above(x, n)
      ensures x.lo <= n.lo < n.key < n.hi <= x.hi
      decreases hi - lo - (n.hi - n.lo)
    {
      assert Linked(n);
      if n != x {
        assert Linked(n.parent);
        Within(x, n.parent);
      }
    }

    /** Below x means x itself, or below its left child with a smaller key, or
        below its right child with a larger one. */
    lemma {:induction false} Split(x: Node, n: Node)
      requires Searchable() && n in nodes && x in nodes && Above(x, n)
      ensures n.key < x.key ==> x.left != null && x.left in nodes && Above(x.left, n)
      ensures n.key > x.key ==> x.right != null && x.right in nodes && Above(x.right, n)
      ensures n.key == x.key ==> n == x
      decreases hi - lo - (n.hi - n.lo)
    {
      assert Linked(n) && Linked(x);
      if n != x {
        assert Linked(n.parent);
        if n.parent == x {
          assert Above(n, n);
        } else {
          Split(x, n.parent);
          if n.parent.key < x.key {
            assert Above(x.left, n);
            Within(x.left, n);
          } else if n.parent.key > x.key {
            assert Above(x.right, n);
            Within(x.right, n);
          }
        }
      }
    }

    /** A key inside x's interval can only be below x. */
    lemma {:induction false} Outside(x: Node, n: Node)
      requires Searchable() && n in nodes && x in nodes
      ensures Above(x, n) || n.key <= x.lo || x.hi <= n.key
      decreases hi - lo - (x.hi - x.lo)
    {
      assert Linked(x);
      if x.parent == null {
        RootAbove(n);
      } else {
        var q := x.parent;
        assert Linked(q);
        Outside(q, n);
        if Above(q, n) {
          Split(q, n);
          if n.key < q.key && q.left != x {
            Within(q.left, n);
          } else if n.key > q.key && q.right != x {
            Within(q.right, n);
          }
        }
      }
    }

    lemma DistinctKeys()
      requires Searchable()
      ensures forall m, n :: m in nodes && n in nodes && m.key == n.key ==> m == n
    {
      forall m, n | m in nodes && n in nodes && m.key == n.key
        ensures m == n
      {
        assert Linked(m);
        Outside(m, n);
        Split(m, n);
      }
    }

    // --------------------------------------------------------------- removal

    /** The state of the removal fix-up: below parent, on elm's side, every path
        is one black node short. A red elm may clash with its neighbours. */
    ghost predicate ShortAt(parent: Node?, elm: Node?)
      reads this, nodes
    {
      && Searchable()
      && (forall n {:trigger n.HeightOK()} :: n in nodes && n != parent ==> assert Linked(n); n.HeightOK())
      && (forall n {:trigger n.NoRedRed(elm)} :: n in nodes && n != elm ==> assert Linked(n); n.NoRedRed(elm))
      && (elm != null ==> elm in nodes && elm.parent == parent)
      && (parent == null ==> elm == root)
      && (parent != null ==> parent in nodes && assert Linked(parent); parent.ShortOn(elm))
      && (IsRed(root) ==> root == elm)
    }

    lemma ShortIsColoured(parent: Node?, elm: Node?)
      requires ShortAt(parent, elm) && !IsRed(elm)
      ensures ColouredBut(parent, elm)
    {
      forall n | n in nodes
        ensures n.NoRedRed(elm)
      {
        assert n != elm ==> n.NoRedRed(elm);
      }
    }

    /** The same for the state of the removal fix-up. */
    lemma AllShort(x: Node, y: Node, parent: Node, e: Node?)
      requires Searchable() && x in nodes && y in nodes && parent in nodes && (e != null ==> e in nodes)
      requires (x == parent || x.HeightOK()) && (y == parent || y.HeightOK()) && parent.ShortOn(e)
      requires x.NoRedRed(e) && y.NoRedRed(e)
      requires (e != null ==> e.parent == parent) && (IsRed(root) ==> root == e)
      requires forall n {:trigger n.HeightOK()} ::
        n in nodes && n != x && n != y && n != parent ==> assert Linked(n); n.HeightOK()
      requires forall n {:trigger n.NoRedRed(e)} :: n in nodes && n != x && n != y ==> assert Linked(n); n.NoRedRed(e)
      ensures ShortAt(parent, e)
    {
      assert Linked(parent);
    }

    twostate lemma RedSiblingLeftHere(new parent: Node, new elm: Node?, new tmp: Node, new b: Node?, new p: Node?)
      requires {parent, tmp} <= old(nodes) && (elm != null ==> elm in old(nodes))
      requires old(ShortAt(parent, elm) && parent.left == elm && !IsRed(elm) && tmp == parent.right && tmp.red)
      requires RepaintedLeft(parent, tmp, b, p, null)
      requires !tmp.red && tmp.bh == old(parent.bh) && parent.red && parent.bh == old(tmp.bh)
      ensures parent.left == elm && !IsRed(elm) && parent.right != null && !parent.right.red
      ensures tmp.HeightOK() && parent.ShortOn(elm) && tmp.NoRedRed(elm) && parent.NoRedRed(elm)
      ensures (elm != null ==> elm.parent == parent) && (IsRed(root) ==> root == elm)
    {
      assert old(Linked(parent) && Linked(tmp) && (elm != null ==> Linked(elm)));
      assert old(parent.NoRedRed(elm) && tmp.NoRedRed(elm) && tmp.HeightOK());
    }

    /** Case 1: the sibling is red. After the rotation elm has a black one. */
    method RotateRedSiblingLeft(parent: Node, elm: Node?)
      requires ShortAt(parent, elm) && parent in nodes && parent.left == elm && !IsRed(elm) && IsRed(parent.right)
      modifies `root, nodes
      ensures ShortAt(parent, elm) && parent.left == elm && parent.red && !IsRed(elm)
      ensures parent.right != null && !parent.right.red
    {
      hide Searchable, Linked, ColouredBut, Node.HeightOK, Node.NoRedRed, Node.ShortOn;
      ShortIsColoured(parent, elm);
      RotationSiteLeft(parent);
      ghost var tmp, b, p := parent.right, parent.right.left, parent.parent;
      SetBlackRed(parent.right, parent, parent.bh, parent.right.bh);
      RotateLeft(parent);
      RedSiblingLeftHere(parent, elm, tmp, b, p);
      BalancedBesideLeft(parent, tmp, b, p, null, parent, elm);
      AllShort(parent, tmp, parent, elm);
    }

    twostate lemma NephewRightHere(new parent: Node, new elm: Node?, new tmp: Node, new oleft: Node, new b: Node?)
      requires {parent, tmp, oleft} <= old(nodes) && (elm != null ==> elm in old(nodes))
      requires old(ShortAt(parent, elm) && parent.left == elm && !IsRed(elm))
      requires old(tmp == parent.right && !tmp.red && tmp.left == oleft && oleft.red && !IsRed(tmp.right))
      requires RepaintedRight(tmp, oleft, b, parent, null)
      requires !oleft.red && oleft.bh == old(tmp.bh) && tmp.red && tmp.bh == old(oleft.bh)
      ensures parent.left == elm && parent.right == oleft && oleft.right == tmp && !IsRed(elm)
      ensures tmp.HeightOK() && oleft.HeightOK() && parent.ShortOn(elm) && tmp.NoRedRed(elm) && oleft.NoRedRed(elm)
      ensures (elm != null ==> elm.parent == parent) && (IsRed(root) ==> root == elm)
    {
      assert old(Linked(parent)) && old(Linked(tmp)) && old(Linked(oleft)) && old(elm != null ==> Linked(elm));
      assert old(tmp.HeightOK()) && old(oleft.HeightOK()) && old(oleft.NoRedRed(elm));
    }

    /** Case 3: of the black sibling's children only the near one is red. */
    method RotateNephewRight(parent: Node, elm: Node?, tmp: Node)
      requires ShortAt(parent, elm) && parent in nodes && parent.left == elm && !IsRed(elm)
      requires tmp == parent.right && !tmp.red && IsRed(tmp.left) && !IsRed(tmp.right)
      modifies `root, nodes
      ensures ShortAt(parent, elm) && parent.left == elm && !IsRed(elm)
      ensures parent.right != null && !parent.right.red && IsRed(parent.right.right)
    {
      hide Searchable, Linked, ColouredBut, Node.HeightOK, Node.NoRedRed, Node.ShortOn;
      ShortIsColoured(parent, elm);
      RotationSiteLeft(parent);
      RotationSiteRight(tmp);
      var oleft := tmp.left;
      ghost var b := tmp.left.right;
      SetBlackRed(oleft, tmp, tmp.bh, oleft.bh);
      RotateRight(tmp);
      NephewRightHere(parent, elm, tmp, oleft, b);
      BalancedBesideRight(tmp, oleft, b, parent, null, parent, elm);
      AllShort(tmp, oleft, parent, elm);
    }

    twostate lemma RedSiblingRightHere(new parent: Node, new elm: Node?, new tmp: Node, new b: Node?, new p: Node?)
      requires {parent, tmp} <= old(nodes) && (elm != null ==> elm in old(nodes))
      requires old(ShortAt(parent, elm) && parent.right == elm && !IsRed(elm) && tmp == parent.left && tmp.red)
      requires RepaintedRight(parent, tmp, b, p, null)
      requires !tmp.red && tmp.bh == old(parent.bh) && parent.red && parent.bh == old(tmp.bh)
      ensures parent.right == elm && !IsRed(elm) && parent.left != null && !parent.left.red
      ensures tmp.HeightOK() && parent.ShortOn(elm) && tmp.NoRedRed(elm) && parent.NoRedRed(elm)
      ensures (elm != null ==> elm.parent == parent) && (IsRed(root) ==> root == elm)
    {
      assert old(Linked(parent) && Linked(tmp) && (elm != null ==> Linked(elm)));
      assert old(parent.NoRedRed(elm) && tmp.NoRedRed(elm) && tmp.HeightOK());
    }

    /** Case 1: the sibling is red. After the rotation elm has a black one. */
    method RotateRedSiblingRight(parent: Node, elm: Node?)
      requires ShortAt(parent, elm) && parent in nodes && parent.right == elm && !IsRed(elm) && IsRed(parent.left)
      modifies `root, nodes
      ensures ShortAt(parent, elm) && parent.right == elm && parent.red && !IsRed(elm)
      ensures parent.left != null && !parent.left.red
    {
      hide Searchable, Linked, ColouredBut, Node.HeightOK, Node.NoRedRed, Node.ShortOn;
      ShortIsColoured(parent, elm);
      RotationSiteRight(parent);
      ghost var tmp, b, p := parent.left, parent.left.right, parent.parent;
      SetBlackRed(parent.left, parent, parent.bh, parent.left.bh);
      RotateRight(parent);
      RedSiblingRightHere(parent, elm, tmp, b, p);
      BalancedBesideRight(parent, tmp, b, p, null, parent, elm);
      AllShort(parent, tmp, parent, elm);
    }

    twostate lemma NephewLeftHere(new parent: Node, new elm: Node?, new tmp: Node, new oright: Node, new b: Node?)
      requires {parent, tmp, oright} <= old(nodes) && (elm != null ==> elm in old(nodes))
      requires old(ShortAt(parent, elm) && parent.right == elm && !IsRed(elm))
      requires old(tmp == parent.left && !tmp.red && tmp.right == oright && oright.red && !IsRed(tmp.left))
      requires RepaintedLeft(tmp, oright, b, parent, null)
      requires !oright.red && oright.bh == old(tmp.bh) && tmp.red && tmp.bh == old(oright.bh)
      ensures parent.right == elm && parent.left == oright && oright.left == tmp && !IsRed(elm)
      ensures tmp.HeightOK() && oright.HeightOK() && parent.ShortOn(elm) && tmp.NoRedRed(elm) && oright.NoRedRed(elm)
      ensures (elm != null ==> elm.parent == parent) && (IsRed(root) ==> root == elm)
    {
      assert old(Linked(parent)) && old(Linked(tmp)) && old(Linked(oright)) && old(elm != null ==> Linked(elm));
      assert old(tmp.HeightOK()) && old(oright.HeightOK()) && old(oright.NoRedRed(elm));
    }

    /** Case 3: of the black sibling's children only the near one is red. */
    method RotateNephewLeft(parent: Node, elm: Node?, tmp: Node)
      requires ShortAt(parent, elm) && parent in nodes && parent.right == elm && !IsRed(elm)
      requires tmp == parent.left && !tmp.red && IsRed(tmp.right) && !IsRed(tmp.left)
      modifies `root, nodes
      ensures ShortAt(parent, elm) && parent.right == elm && !IsRed(elm)
      ensures parent.left != null && !parent.left.red && IsRed(parent.left.left)
    {
      hide Searchable, Linked, ColouredBut, Node.HeightOK, Node.NoRedRed, Node.ShortOn;
      ShortIsColoured(parent, elm);
      RotationSiteRight(parent);
      RotationSiteLeft(tmp);
      var oright := tmp.right;
      ghost var b := tmp.right.left;
      SetBlackRed(oright, tmp, tmp.bh, oright.bh);
      RotateLeft(tmp);
      NephewLeftHere(parent, elm, tmp, oright, b);
      BalancedBesideLeft(tmp, oright, b, parent, null, parent, elm);
      AllShort(tmp, oright, parent, elm);
    }

    /** tmp takes its parent's colour, the parent and tmp's far child turn black. */
    method SwapColour(tmp: Node, parent: Node, far: Node?)
      requires Searchable() && tmp in nodes && parent in nodes && far in nodes
      requires tmp != parent && tmp != far && parent != far
      modifies {tmp, parent, far}`red, {tmp, parent, far}`bh
      ensures Searchable()
      ensures tmp.red == old(parent.red) && tmp.bh == old(parent.bh)
      ensures !parent.red && parent.bh == old(tmp.bh)
      ensures !far.red && far.bh == old(far.bh) + 1
    {
      hide Searchable;
      tmp.red := parent.red;
      parent.red := false;
      if far != null {
        far.red := false;
      }
      tmp.bh, parent.bh, far.bh := parent.bh, tmp.bh, far.bh + 1;
    }

    twostate lemma FarNephewLeftHere(new parent: Node, new elm: Node?, new tmp: Node, new c: Node, new b: Node?,
        new p: Node?)
      requires {parent, tmp, c} <= old(nodes) && (elm != null ==> elm in old(nodes))
      requires old(ShortAt(parent, elm) && parent.left == elm && !IsRed(elm))
      requires old(tmp == parent.right && !tmp.red && tmp.right == c && c.red)
      requires RepaintedLeft(parent, tmp, b, p, c) && tmp.red == old(parent.red) && tmp.bh == old(parent.bh)
      requires !parent.red && parent.bh == old(tmp.bh) && !c.red && c.bh == old(c.bh) + 1
      ensures c.HeightOK() && parent.HeightOK() && tmp.HeightOK()
      ensures parent.NoRedRed(null) && c.NoRedRed(null) && tmp.NoRedRed(null) && !IsRed(root)
    {
      assert old(Linked(parent)) && old(Linked(tmp)) && old(Linked(c));
      assert old(tmp.HeightOK()) && old(c.HeightOK());
    }

    method SwapAndRotateLeft(tmp: Node, parent: Node)
      requires Searchable() && parent in nodes && tmp == parent.right && tmp.right != null && tmp.parent == parent
      requires tmp in nodes && tmp != parent && tmp.right in nodes && tmp.right != parent && tmp.right != tmp
      requires tmp.right.parent == tmp && (tmp.left != null ==> tmp.left in nodes && tmp.left != tmp.right)
      modifies `root, nodes
      ensures RepaintedLeft(parent, tmp, old(tmp.left), old(parent.parent), old(tmp.right))
      ensures tmp.red == old(parent.red) && tmp.bh == old(parent.bh) && !parent.red && parent.bh == old(tmp.bh)
      ensures !old(tmp.right).red && old(tmp.right).bh == old(tmp.right.bh) + 1
    {
      hide Searchable;
      SwapColour(tmp, parent, tmp.right);
      RotateLeft(parent);
    }

    /** Case 4: the sibling's far child is red, and absorbs the missing black. */
    method RotateFarNephewLeft(parent: Node, ghost elm: Node?, tmp: Node)
      requires ShortAt(parent, elm) && parent in nodes && parent.left == elm && !IsRed(elm)
      requires tmp == parent.right && !tmp.red && IsRed(tmp.right)
      modifies `root, nodes
      ensures Valid()
    {
      FarNephewSiteLeft(parent, elm, tmp);
      hide Searchable, Linked, ShortAt, ColouredBut, Node.HeightOK, Node.NoRedRed, Node.ShortOn, RepaintedLeft;
      ghost var b, p, c := tmp.left, parent.parent, tmp.right;
      SwapAndRotateLeft(tmp, parent);
      FarNephewLeftHere(parent, elm, tmp, c, b, p);
      BalancedBesideLeft(parent, tmp, b, p, c, parent, elm);
      AllColoured(parent, tmp, c, null, null);
    }

    lemma FarNephewSiteLeft(parent: Node, elm: Node?, tmp: Node)
      requires ShortAt(parent, elm) && parent in nodes && parent.left == elm && !IsRed(elm)
      requires tmp == parent.right && !tmp.red && IsRed(tmp.right)
      ensures Searchable() && ColouredBut(parent, elm) && tmp in nodes && tmp != parent && tmp.parent == parent
      ensures tmp.right in nodes && tmp.right != parent && tmp.right != tmp && tmp.right.parent == tmp
      ensures tmp.left != null ==> tmp.left in nodes && tmp.left != tmp.right
      ensures elm != null ==> elm in nodes
    {
      ShortIsColoured(parent, elm);
      assert Linked(parent) && Linked(tmp) && Linked(tmp.right);
    }

    twostate lemma FarNephewRightHere(new parent: Node, new elm: Node?, new tmp: Node, new c: Node, new b: Node?,
        new p: Node?)
      requires {parent, tmp, c} <= old(nodes) && (elm != null ==> elm in old(nodes))
      requires old(ShortAt(parent, elm) && parent.right == elm && !IsRed(elm))
      requires old(tmp == parent.left && !tmp.red && tmp.left == c && c.red)
      requires RepaintedRight(parent, tmp, b, p, c) && tmp.red == old(parent.red) && tmp.bh == old(parent.bh)
      requires !parent.red && parent.bh == old(tmp.bh) && !c.red && c.bh == old(c.bh) + 1
      ensures c.HeightOK() && parent.HeightOK() && tmp.HeightOK()
      ensures parent.NoRedRed(null) && c.NoRedRed(null) && tmp.NoRedRed(null) && !IsRed(root)
    {
      assert old(Linked(parent)) && old(Linked(tmp)) && old(Linked(c));
      assert old(tmp.HeightOK()) && old(c.HeightOK());
    }

    method SwapAndRotateRight(tmp: Node, parent: Node)
      requires Searchable() && parent in nodes && tmp == parent.left && tmp.left != null && tmp.parent == parent
      requires tmp in nodes && tmp != parent && tmp.left in nodes && tmp.left != parent && tmp.left != tmp
      requires tmp.left.parent == tmp && (tmp.right != null ==> tmp.right in nodes && tmp.right != tmp.left)
      modifies `root, nodes
      ensures RepaintedRight(parent, tmp, old(tmp.right), old(parent.parent), old(tmp.left))
      ensures tmp.red == old(parent.red) && tmp.bh == old(parent.bh) && !parent.red && parent.bh == old(tmp.bh)
      ensures !old(tmp.left).red && old(tmp.left).bh == old(tmp.left.bh) + 1
    {
      hide Searchable;
      SwapColour(tmp, parent, tmp.left);
      RotateRight(parent);
    }

    /** Case 4: the sibling's far child is red, and absorbs the missing black. */
    method RotateFarNephewRight(parent: Node, ghost elm: Node?, tmp: Node)
      requires ShortAt(parent, elm) && parent in nodes && parent.right == elm && !IsRed(elm)
      requires tmp == parent.left && !tmp.red && IsRed(tmp.left)
      modifies `root, nodes
      ensures Valid()
    {
      FarNephewSiteRight(parent, elm, tmp);
      hide Searchable, Linked, ShortAt, ColouredBut, Node.HeightOK, Node.NoRedRed, Node.ShortOn, RepaintedRight;
      ghost var b, p, c := tmp.right, parent.parent, tmp.left;
      SwapAndRotateRight(tmp, parent);
      FarNephewRightHere(parent, elm, tmp, c, b, p);
      BalancedBesideRight(parent, tmp, b, p, c, parent, elm);
      AllColoured(parent, tmp, c, null, null);
    }

    lemma FarNephewSiteRight(parent: Node, elm: Node?, tmp: Node)
      requires ShortAt(parent, elm) && parent in nodes && parent.right == elm && !IsRed(elm)
      requires tmp == parent.left && !tmp.red && IsRed(tmp.left)
      ensures Searchable() && ColouredBut(parent, elm) && tmp in nodes && tmp != parent && tmp.parent == parent
      ensures tmp.left in nodes && tmp.left != parent && tmp.left != tmp && tmp.left.parent == tmp
      ensures tmp.right != null ==> tmp.right in nodes && tmp.right != tmp.left
      ensures elm != null ==> elm in nodes
    {
      ShortIsColoured(parent, elm);
      assert Linked(parent) && Linked(tmp) && Linked(tmp.left);
    }

    /** Case 2: the black sibling tmp has no red child. It turns red, and its
        parent's subtree is now short as a whole. */
    twostate predicate PushedUp(new parent: Node, new elm: Node?, new tmp: Node)
      reads this, nodes
    {
      && {parent, tmp} <= old(nodes) && (elm != null ==> elm in old(nodes))
      && nodes == old(nodes) && root == old(root) && Searchable()
      && old(ShortAt(parent, elm) && !IsRed(elm))
      && old(!tmp.red && !IsRed(tmp.left) && !IsRed(tmp.right) && tmp != elm && tmp.parent == parent)
      && (forall n :: n in nodes ==> n.left == old(n.left) && n.right == old(n.right) && n.parent == old(n.parent))
      && (forall n :: n in nodes && n != parent ==> n.bh == if n == tmp then old(n.bh) - 1 else old(n.bh))
      && (forall n :: n in nodes && n != tmp ==> n.red == old(n.red))
      && tmp.red && parent.bh == old(parent.bh) - 1
    }

    twostate lemma PushedUpHeight(new parent: Node, new elm: Node?, new tmp: Node, new n: Node)
      requires PushedUp(parent, elm, tmp) && n in old(nodes) && n != parent.parent
      ensures n.HeightOK()
    {
      assert old(Linked(n)) && old(Linked(parent)) && old(Linked(tmp));
      assert old(tmp.HeightOK());
      assert n != parent ==> old(n.HeightOK());
    }

    twostate lemma PushedUpShort(new parent: Node, new elm: Node?, new tmp: Node, new n: Node)
      requires PushedUp(parent, elm, tmp) && n in old(nodes) && n == parent.parent
      ensures n.ShortOn(parent)
    {
      assert old(Linked(n)) && old(Linked(parent)) && old(Linked(tmp));
      assert old(n.HeightOK());
    }

    twostate lemma PushedUpColour(new parent: Node, new elm: Node?, new tmp: Node, new n: Node)
      requires elm != null ==> elm in old(nodes)
      requires PushedUp(parent, elm, tmp) && n in old(nodes) && n != parent
      ensures n.NoRedRed(parent)
    {
      assert old(Linked(n)) && old(Linked(parent)) && old(Linked(tmp));
      assert n != elm ==> old(n.NoRedRed(elm));
    }

    twostate lemma PushedUpIsShort(new parent: Node, new elm: Node?, new tmp: Node)
      requires PushedUp(parent, elm, tmp)
      ensures ShortAt(parent.parent, parent)
    {
      assert old(Linked(parent) && Linked(tmp)) && !IsRed(root);
      hide Node.HeightOK, Node.NoRedRed, Node.ShortOn, Linked;
      forall n | n in nodes
        ensures n != parent.parent ==> n.HeightOK()
        ensures n == parent.parent ==> n.ShortOn(parent)
        ensures n != parent ==> n.NoRedRed(parent)
      {
        if n == parent.parent {
          PushedUpShort(parent, elm, tmp, n);
        } else {
          PushedUpHeight(parent, elm, tmp, n);
        }
        if n != parent {
          PushedUpColour(parent, elm, tmp, n);
        }
      }
    }

    lemma PushUpSite(parent: Node, elm: Node?, tmp: Node)
      requires ShortAt(parent, elm) && parent in nodes && tmp in nodes && tmp != elm
      requires (parent.left == tmp || parent.right == tmp) && !tmp.red
      ensures Searchable() && tmp.bh > 0 && parent.bh > 0 && tmp.parent == parent && tmp != parent
      ensures elm != null ==> elm in nodes
    {
      assert Linked(parent) && Linked(tmp) && tmp.HeightOK();
    }

    method PushUp(parent: Node, ghost elm: Node?, tmp: Node)
      requires ShortAt(parent, elm) && parent in nodes && !IsRed(elm)
      requires tmp in nodes && tmp != elm && (parent.left == tmp || parent.right == tmp)
      requires !tmp.red && !IsRed(tmp.left) && !IsRed(tmp.right)
      modifies nodes`red, nodes`bh
      ensures ShortAt(parent.parent, parent) && parent.red == old(parent.red)
    {
      PushUpSite(parent, elm, tmp);
      hide Searchable, ShortAt;
      tmp.red := true;
      tmp.bh, parent.bh := tmp.bh - 1, parent.bh - 1;
      PushedUpIsShort(parent, elm, tmp);
    }

    /** The end of the fix-up: elm is red, and supplies the missing black, or is the root. */
    method BlackenLast(ghost parent: Node?, elm: Node?)
      requires ShortAt(parent, elm) && (IsRed(elm) || elm == root)
      modifies nodes`red, nodes`bh
      ensures Valid()
    {
      if elm != null {
        assert Linked(elm) && elm.HeightOK();
        Blacken(elm, if elm.red then elm.bh + 1 else elm.bh);
      }
      forall n | n in nodes
        ensures n.HeightOK() && n.NoRedRed(null)
      {
        assert old(Linked(n));
        assert n != parent ==> old(n.HeightOK());
        assert n != elm ==> old(n.NoRedRed(elm));
      }
    }

    lemma ValidIsShort()
      requires Valid()
      ensures ShortAt(null, root)
    {
      assert root != null ==> Linked(root);
      forall n | n in nodes
        ensures n.NoRedRed(root)
      {
        assert n.NoRedRed(null);
      }
    }

    /** One pass of the fix-up loop with elm a left child: either the shortage
        moves up to elm's parent, or it is gone. */
    method FixShortLeft(parent: Node, elm: Node?) returns (up: bool)
      requires ShortAt(parent, elm) && parent in nodes && parent.left == elm && !IsRed(elm)
      modifies `root, nodes
      ensures up ==> ShortAt(parent.parent, parent)
      ensures up ==> parent.red || (parent.lo == old(parent.lo) && parent.hi == old(parent.hi))
      ensures !up ==> Valid()
    {
      assert Linked(parent);
      var tmp := parent.right;
      if tmp.red {
        RotateRedSiblingLeft(parent, elm);
        tmp := parent.right;
      }
      assert Linked(parent) && Linked(tmp);
      if (tmp.left == null || !tmp.left.red) && (tmp.right == null || !tmp.right.red) {
        PushUp(parent, elm, tmp);
        return true;
      }
      if tmp.right == null || !tmp.right.red {
        RotateNephewRight(parent, elm, tmp);
        tmp := parent.right;
      }
      RotateFarNephewLeft(parent, elm, tmp);
      return false;
    }

    /** One pass of the fix-up loop with elm a right child: either the shortage
        moves up to elm's parent, or it is gone. */
    method FixShortRight(parent: Node, elm: Node?) returns (up: bool)
      requires ShortAt(parent, elm) && parent in nodes && parent.right == elm && !IsRed(elm)
      modifies `root, nodes
      ensures up ==> ShortAt(parent.parent, parent)
      ensures up ==> parent.red || (parent.lo == old(parent.lo) && parent.hi == old(parent.hi))
      ensures !up ==> Valid()
    {
      assert Linked(parent);
      var tmp := parent.left;
      if tmp.red {
        RotateRedSiblingRight(parent, elm);
        tmp := parent.left;
      }
      assert Linked(parent) && Linked(tmp);
      if (tmp.right == null || !tmp.right.red) && (tmp.left == null || !tmp.left.red) {
        PushUp(parent, elm, tmp);
        return true;
      }
      if tmp.left == null || !tmp.left.red {
        RotateNephewLeft(parent, elm, tmp);
        tmp := parent.left;
      }
      RotateFarNephewRight(parent, elm, tmp);
      return false;
    }

    method RemoveColor(parent0: Node?, elm0: Node?)
      requires ShortAt(parent0, elm0)
      modifies `root, nodes
      ensures Valid()
    {
      var parent: Node?, elm: Node? := parent0, elm0;
      ghost var above: Node? := parent;
      while (elm == null || !elm.red) && elm != root
        invariant ShortAt(above, elm)
        invariant (elm == null || !elm.red) && elm != root ==> parent == above
        decreases if !IsRed(elm) && elm != root && parent != null then hi - lo - (parent.hi - parent.lo) + 1 else 0
      {
        assert Linked(parent);
        var up;
        if parent.left == elm {
          up := FixShortLeft(parent, elm);
        } else {
          up := FixShortRight(parent, elm);
        }
        if up {
          assert Linked(parent) && (parent.parent != null ==> Linked(parent.parent));
          elm := parent;
          parent := elm.parent;
          above := parent;
        } else {
          ValidIsShort();
          elm := root;
          above := null;
          break;
        }
      }
      BlackenLast(above, elm);
    }

    lemma LoneRoot()
      requires Searchable() && root != null && root.left == null && root.right == null
      ensures nodes == {root}
    {
      forall n | n in nodes
        ensures n == root
      {
        RootAbove(n);
        Split(root, n);
      }
    }

    // e, which has at most the one child, is replaced by that child below p.

    twostate predicate Spliced(new e: Node, new child: Node?, new p: Node?)
      reads this, nodes
    {
      && old(Valid()) && e in old(nodes) && (child != null ==> child in old(nodes)) && (p != null ==> p in old(nodes))
      && old((e.left == null && child == e.right) || (e.right == null && child == e.left)) && p == old(e.parent)
      && nodes == old(nodes) - {e} && lo == old(lo) && hi == old(hi)
      && root == (if p == null then child else old(root)) && (root == null ==> nodes == {})
      && (forall n :: n in nodes ==>
        && n.left == (if n == p && old(n.left) == e then child else old(n.left))
        && n.right == (if n == p && old(n.left) != e then child else old(n.right))
        && n.parent == (if n == child then p else old(n.parent))
        && n.red == old(n.red) && n.bh == old(n.bh) && n.lo == old(n.lo) && n.hi == old(n.hi))
    }

    twostate lemma SplicedLinked(new e: Node, new child: Node?, new p: Node?, new n: Node)
      requires Spliced(e, child, p) && n in nodes
      ensures Linked(n)
    {
      assert old(Linked(e)) && old(Linked(n)) && old(child != null ==> Linked(child));
    }

    /** A black e leaves its child short; a red e had no child. */
    twostate lemma SplicedHeight(new e: Node, new child: Node?, new p: Node?, new n: Node)
      requires Spliced(e, child, p) && n in nodes
      ensures n != p || old(e.red) ==> n.HeightOK()
      ensures n == p && old(!e.red) ==> n.ShortOn(child)
      ensures old(e.red) ==> child == null
    {
      assert old(Linked(e)) && old(Linked(n)) && old(child != null ==> Linked(child));
      assert old(e.HeightOK()) && old(n.HeightOK()) && old(child != null ==> child.HeightOK());
      assert old(e.NoRedRed(null));
    }

    twostate lemma SplicedColour(new e: Node, new child: Node?, new p: Node?, new n: Node)
      requires Spliced(e, child, p) && n in nodes
      ensures n.NoRedRed(child)
    {
      assert old(Linked(e)) && old(Linked(n)) && old(n.NoRedRed(null));
    }

    twostate lemma SplicedShort(new e: Node, new child: Node?, new p: Node?)
      requires Spliced(e, child, p)
      ensures Unfixed(old(e.red), p, child)
    {
      assert old(Linked(e)) && old(child != null ==> Linked(child));
      assert old(e.HeightOK() && e.NoRedRed(null)) && old(child != null ==> child.HeightOK());
      hide Linked, Node.HeightOK, Node.NoRedRed, Node.ShortOn;
      forall n | n in nodes
        ensures Linked(n)
        ensures n != p || old(e.red) ==> n.HeightOK()
        ensures n == p && old(!e.red) ==> n.ShortOn(child)
        ensures n.NoRedRed(child)
      {
        SplicedLinked(e, child, p, n);
        SplicedHeight(e, child, p, n);
        SplicedColour(e, child, p, n);
      }
    }

    /** Between taking out a node of colour red and fixing up. */
    ghost predicate Unfixed(red: bool, parent: Node?, child: Node?)
      reads this, nodes
    {
      if red then Valid() else ShortAt(parent, child)
    }

    lemma SpliceSite(e: Node, child: Node?)
      requires Valid() && e in nodes
      requires (e.left == null && child == e.right) || (e.right == null && child == e.left)
      ensures child != null ==> child in nodes && child != e && child != e.parent
      ensures e.parent != null ==> e.parent in nodes && e.parent != e
      ensures root != null && (e.parent == null <==> e == root)
      ensures e == root && child == null ==> nodes == {e}
    {
      assert Linked(e) && (child != null ==> Linked(child)) && (e.parent != null ==> Linked(e.parent));
      if e == root && child == null {
        LoneRoot();
      }
    }

    /** The links around e lead past it. */
    method Bypass(e: Node, child: Node?)
      requires Valid() && e in nodes
      requires (e.left == null && child == e.right) || (e.right == null && child == e.left)
      modifies `root, `nodes, nodes`left, nodes`right, nodes`parent
      ensures Spliced(e, child, old(e.parent))
    {
      SpliceSite(e, child);
      hide Valid;
      var parent := e.parent;
      if child != null {
        child.parent := parent;
      }
      ReplaceChild(parent, e, child);
      nodes := nodes - {e};
    }

    method SpliceOut(e: Node, child: Node?)
      requires Valid() && e in nodes
      requires (e.left == null && child == e.right) || (e.right == null && child == e.left)
      modifies `root, `nodes, nodes`left, nodes`right, nodes`parent
      ensures Spliced(e, child, old(e.parent)) && Unfixed(old(e.red), old(e.parent), child)
    {
      hide Valid, Spliced, Unfixed;
      Bypass(e, child);
      SplicedShort(e, child, old(e.parent));
    }

    lemma UnfixedIsSearchable(red: bool, parent: Node?, child: Node?)
      requires Unfixed(red, parent, child)
      ensures Searchable()
    {
    }

    twostate lemma OnlyLowsMoved(red: bool, new parent: Node?, new child: Node?)
      requires (parent != null ==> parent in old(nodes)) && (child != null ==> child in old(nodes))
      requires old(Unfixed(red, parent, child)) && Searchable() && nodes == old(nodes) && root == old(root)
      requires forall n :: n in nodes ==>
        && n.left == old(n.left) && n.right == old(n.right) && n.parent == old(n.parent)
        && n.red == old(n.red) && n.bh == old(n.bh)
      ensures Unfixed(red, parent, child)
    {
      forall n | n in nodes
        ensures old(n.HeightOK()) ==> n.HeightOK()
        ensures old(n.NoRedRed(child)) ==> n.NoRedRed(child)
        ensures old(n.NoRedRed(null)) ==> n.NoRedRed(null)
        ensures old(n.ShortOn(child)) ==> n.ShortOn(child)
      {
        assert old(Linked(n));
      }
    }

    /** If no key lies in (from, to], every interval starting in [from, to) can start at to. */
    ghost method RaiseLows(from: int, to: int, red: bool, parent: Node?, child: Node?)
      requires (parent != null ==> parent in nodes) && (child != null ==> child in nodes)
      requires Unfixed(red, parent, child) && from < to
      requires forall n :: n in nodes ==> n.key <= from || to < n.key
      modifies nodes`lo
      ensures Unfixed(red, parent, child)
      ensures forall n :: n in nodes ==> n.lo == if from <= old(n.lo) < to then to else old(n.lo)
    {
      forall n | n in nodes && from <= n.lo < to {
        n.lo := to;
      }
      forall n | n in nodes
        ensures Linked(n)
      {
        assert old(Linked(n));
      }
      OnlyLowsMoved(red, parent, child);
    }

    /** e, not in the tree, stands in for z. */
    twostate predicate Replaced(new z: Node, new e: Node)
      reads this, nodes
    {
      && old(Searchable()) && z in old(nodes) && e !in old(nodes) && nodes == old(nodes) - {z} + {e}
      && lo == old(lo) && hi == old(hi) && root == (if old(root) == z then e else old(root))
      && e.left == old(z.left) && e.right == old(z.right) && e.parent == old(z.parent) && e.red == old(z.red)
      && e.lo == old(z.lo) && e.hi == old(z.hi) && e.bh == old(z.bh) && e.lo < e.key < e.hi
      && (old(z.left) != null ==> old(z.left.hi) <= e.key)
      && (old(z.right) != null ==> e.key <= old(z.right.lo))
      && forall n :: n in nodes && n != e ==>
        && n.left == (if n == e.parent && old(n.left) == z then e else old(n.left))
        && n.right == (if n == e.parent && old(n.left) != z then e else old(n.right))
        && n.parent == (if n == e.left || n == e.right then e else old(n.parent))
        && n.red == old(n.red) && n.bh == old(n.bh) && n.lo == old(n.lo) && n.hi == old(n.hi)
    }

    twostate lemma ReplacedBeside(new z: Node, new e: Node, new n: Node)
      requires Replaced(z, e) && n in nodes && n != e
      ensures Linked(n)
    {
      assert old(Linked(z)) && old(Linked(n));
    }

    twostate lemma ReplacedHere(new z: Node, new e: Node)
      requires Replaced(z, e)
      ensures Linked(e)
    {
      assert old(Linked(z));
      assert old(z.left != null ==> Linked(z.left)) && old(z.right != null ==> Linked(z.right));
      assert old(z.parent != null ==> Linked(z.parent));
    }

    twostate lemma ReplacedHeight(new z: Node, new e: Node, new n: Node)
      requires Replaced(z, e) && n in old(nodes) && old(n.HeightOK())
      ensures (if n == z then e else n).HeightOK()
    {
      assert old(Linked(z)) && old(Linked(n));
    }

    twostate lemma ReplacedColour(new z: Node, new e: Node, new n: Node, new x: Node?)
      requires Replaced(z, e) && n in old(nodes) && (x != null ==> x in old(nodes) && x != z)
      requires old(n.NoRedRed(x))
      ensures (if n == z then e else n).NoRedRed(x)
    {
      assert old(Linked(z)) && old(Linked(n));
    }

    twostate lemma ReplacedShort(new z: Node, new e: Node, new n: Node, new x: Node?)
      requires Replaced(z, e) && n in old(nodes) && (x != null ==> x in old(nodes) && x != z)
      requires old(n.ShortOn(x))
      ensures (if n == z then e else n).ShortOn(x)
    {
      assert old(Linked(z)) && old(Linked(n));
    }

    twostate lemma ReplacedNode(new z: Node, new e: Node, red: bool, new p: Node?, new child: Node?, new n: Node)
      requires Replaced(z, e) && (p != null ==> p in old(nodes))
      requires (child != null ==> child in old(nodes) && child != z)
      requires old(Unfixed(red, p, child)) && n in nodes
      ensures (n != if p == z then e else p) || red ==> n.HeightOK()
      ensures (n == if p == z then e else p) && !red ==> n.ShortOn(child)
      ensures red ==> n.NoRedRed(null)
      ensures n != child && !red ==> n.NoRedRed(child)
    {
      var m := if n == e then z else n;
      if m != p || red {
        assert old(m.HeightOK());
        ReplacedHeight(z, e, m);
      } else {
        ReplacedShort(z, e, m, child);
      }
      if red {
        assert old(m.NoRedRed(null));
        ReplacedColour(z, e, m, null);
      } else if m != child {
        assert old(m.NoRedRed(child));
        ReplacedColour(z, e, m, child);
      }
    }

    twostate lemma ReplacedUnfixed(new z: Node, new e: Node, red: bool, new p: Node?, new child: Node?)
      requires Replaced(z, e) && (p != null ==> p in old(nodes))
      requires (child != null ==> child in old(nodes) && child != z)
      requires old(Unfixed(red, p, child))
      ensures Unfixed(red, if p == z then e else p, child)
    {
      assert old(Linked(z)) && (child != null ==> old(Linked(child)));
      hide Linked, Node.HeightOK, Node.NoRedRed, Node.ShortOn;
      forall n | n in nodes
        ensures Linked(n)
        ensures (n != if p == z then e else p) || red ==> n.HeightOK()
        ensures (n == if p == z then e else p) && !red ==> n.ShortOn(child)
        ensures red ==> n.NoRedRed(null)
        ensures n != child && !red ==> n.NoRedRed(child)
      {
        if n == e {
          ReplacedHere(z, e);
        } else {
          ReplacedBeside(z, e, n);
        }
        ReplacedNode(z, e, red, p, child, n);
      }
    }

    lemma ReplacementSite(z: Node)
      requires Searchable() && z in nodes
      ensures z.left != null ==> z.left in nodes && z.left != z && z.left != z.parent && z.left != z.right
      ensures z.right != null ==> z.right in nodes && z.right != z && z.right != z.parent
      ensures z.parent != null ==> z.parent in nodes && z.parent != z && (z.parent.left == z || z.parent.right == z)
      ensures z.parent == null <==> z == root
      ensures z.lo < z.key < z.hi
      ensures z.left != null ==> z.left.hi <= z.key
      ensures z.right != null ==> z.key <= z.right.lo
    {
      assert Linked(z) && (z.left != null ==> Linked(z.left)) && (z.right != null ==> Linked(z.right));
      assert z.parent != null ==> Linked(z.parent);
    }

    /** e has z's place in the tree, z's colour, and z's children, except for the right one. */
    twostate predicate TookOver(new z: Node, new e: Node, new right: Node?, new q: Node?)
      requires z in old(nodes)
      reads this, nodes
    {
      && e in nodes && q == old(z.parent) && (q != null ==> q in nodes)
      && e.left == old(z.left) && e.right == right && e.parent == q && e.red == old(z.red)
      && root == (if q == null then e else old(root))
      && (q != null ==> q.left == if old(z.parent.left) == z then e else old(z.parent.left))
      && (q != null ==> q.right == if old(z.parent.left) == z then old(z.parent.right) else e)
    }

    twostate lemma ReplacedTookOver(new z: Node, new e: Node, new q: Node?)
      requires Replaced(z, e) && q == old(z.parent)
      ensures TookOver(z, e, old(z.right), q)
    {
      assert old(Linked(z));
    }

    method TakePlace(z: Node, e: Node)
      requires Searchable() && z in nodes && e !in nodes && z.lo < e.key < z.hi
      requires z.left != null && z.left.hi <= e.key
      requires z.right != null ==> e.key <= z.right.lo
      modifies `root, `nodes, e, nodes`left, nodes`right, nodes`parent
      ensures Replaced(z, e)
    {
      hide Searchable;
      ReplacementSite(z);
      e.CopyLinks(z);
      ReplaceChild(z.parent, z, e);
      e.Adopt(z);
      nodes := nodes - {z} + {e};
    }

    method Replace(z: Node, e: Node, ghost red: bool, ghost p: Node?, ghost child: Node?)
      requires (p != null ==> p in nodes) && (child != null ==> child in nodes && child != z)
      requires Unfixed(red, p, child) && z in nodes && e !in nodes && z.lo < e.key < z.hi
      requires z.left != null && z.left.hi <= e.key
      requires z.right != null ==> e.key <= z.right.lo
      modifies `root, `nodes, e, nodes`left, nodes`right, nodes`parent
      ensures Unfixed(red, if p == z then e else p, child) && nodes == old(nodes) - {z} + {e}
      ensures TookOver(z, e, old(z.right), old(z.parent))
    {
      UnfixedIsSearchable(red, p, child);
      hide Searchable, Unfixed, TookOver;
      TakePlace(z, e);
      ReplacedTookOver(z, e, old(z.parent));
      ReplacedUnfixed(z, e, red, p, child);
    }

    /** The leftmost node right of z, which is z's successor. */
    method Leftmost(z: Node) returns (e: Node)
      requires Searchable() && z in nodes && z.right != null
      ensures e in nodes && e.left == null && e != z && z.key < e.key < z.hi
      ensures forall n :: n in nodes && n.key > z.key ==> n.key >= e.key
    {
      assert Linked(z);
      e := z.right;
      assert Linked(e) && Above(e, e);
      forall n | n in nodes && n.key > z.key
        ensures Above(e, n) || e.hi <= n.key
      {
        Outside(z, n);
        if Above(z, n) {
          Split(z, n);
        }
      }
      var left := e.left;
      while left != null
        invariant e in nodes && left == e.left && z.key <= e.lo && e.hi <= z.hi
        invariant forall n :: n in nodes && n.key > z.key ==> Above(e, n) || e.hi <= n.key
        decreases e.hi - e.lo
      {
        assert Linked(e) && Linked(left);
        forall n | n in nodes && n.key > z.key
          ensures Above(left, n) || left.hi <= n.key
        {
          if Above(e, n) {
            Split(e, n);
          }
        }
        e := left;
        left := e.left;
      }
      assert Linked(e);
      forall n | n in nodes && n.key > z.key
        ensures n.key >= e.key
      {
        if Above(e, n) {
          Split(e, n);
        }
      }
    }

    /** elm, which lies in gone's interval, does not sit around gone. */
    lemma SuccessorSite(gone: Node, elm: Node)
      requires Searchable() && gone in nodes && elm in nodes && elm != gone && gone.key < elm.key < gone.hi
      ensures gone.left != elm && elm.right != gone && gone.parent != elm && elm.parent != null
      ensures gone.parent != null ==> gone.parent in nodes && elm.parent != gone.parent
      ensures gone.parent == null <==> gone == root
    {
      assert Linked(gone) && Linked(elm);
      assert (gone.parent != null ==> Linked(gone.parent)) && (elm.parent != null ==> Linked(elm.parent));
      if elm.parent == null {
        Outside(gone, elm);
        RootAbove(gone);
        Within(elm, gone);
      }
    }

    lemma NoneBetween(gone: Node, elm: Node)
      requires Searchable() && {gone, elm} <= nodes
      requires forall n :: n in nodes && n.key > gone.key ==> n.key >= elm.key
      ensures forall n :: n in nodes - {elm} ==> n.key <= gone.key || elm.key < n.key
    {
      DistinctKeys();
    }

    twostate lemma SplicedAround(new gone: Node, new elm: Node, new child: Node?, new parent: Node?)
      requires Spliced(elm, child, parent) && {gone, elm} <= old(nodes) && elm != gone
      requires old(gone.left) != elm && old(elm.right) != gone && child == old(elm.right) && parent != null
      requires old(gone.parent) != null ==> old(gone.parent) in old(nodes) - {elm, parent}
      requires parent in old(nodes) - {elm} && child != elm
      ensures nodes == old(nodes) - {elm} && parent in nodes && (child != null ==> child in nodes)
      ensures gone.left == old(gone.left) && gone.parent == old(gone.parent) && gone.red == old(gone.red)
      ensures gone.right == (if parent == gone then child else old(gone.right)) && gone.hi == old(gone.hi)
      ensures root == old(root) && child != gone
      ensures gone.parent != null ==>
        gone.parent.left == old(gone.parent.left) && gone.parent.right == old(gone.parent.right)
    {
    }

    /** The successor elm of gone leaves its own place; around gone only the link to it changes. */
    method SpliceSuccessor(gone: Node, elm: Node) returns (parent: Node?, child: Node?, color: bool)
      requires Valid() && {gone, elm} <= nodes && elm != gone && elm.left == null && gone.left != null
      requires gone.key < elm.key < gone.hi && forall n :: n in nodes && n.key > gone.key ==> n.key >= elm.key
      modifies this, nodes
      ensures nodes == old(nodes) - {elm} && Unfixed(color, parent, child)
      ensures parent == old(elm.parent) && child == old(elm.right) && color == old(elm.red)
      ensures (parent != null ==> parent in nodes) && (child != null ==> child in nodes && child != gone)
      ensures gone.left == old(gone.left) && gone.parent == old(gone.parent) && gone.red == old(gone.red)
      ensures gone.right == if parent == gone then child else old(gone.right)
      ensures root == old(root) && (gone.parent == null <==> gone == root)
      ensures gone.parent != null ==> gone.parent in nodes
      ensures gone.parent != null ==>
        gone.parent.left == old(gone.parent.left) && gone.parent.right == old(gone.parent.right)
      ensures gone.hi == old(gone.hi) && forall n :: n in nodes ==> n.key <= gone.key || elm.key < n.key
    {
      ValidIsSearchable();
      hide Searchable, Valid, Unfixed, Spliced;
      SuccessorSite(gone, elm);
      ReplacementSite(elm);
      ReplacementSite(gone);
      NoneBetween(gone, elm);
      parent, child, color := elm.parent, elm.right, elm.red;
      SpliceOut(elm, child);
      SplicedAround(gone, elm, child, parent);
    }

    /** Then gone's interval is split at the successor's key, which is free to come there. */
    method DetachSuccessor(gone: Node, elm: Node) returns (parent: Node?, child: Node?, color: bool)
      requires Valid() && {gone, elm} <= nodes && elm != gone && elm.left == null && gone.left != null
      requires gone.key < elm.key < gone.hi && forall n :: n in nodes && n.key > gone.key ==> n.key >= elm.key
      modifies this, nodes
      ensures nodes == old(nodes) - {elm} && Unfixed(color, parent, child)
      ensures parent == old(elm.parent) && child == old(elm.right) && color == old(elm.red)
      ensures (parent != null ==> parent in nodes) && (child != null ==> child in nodes && child != gone)
      ensures gone.left == old(gone.left) && gone.parent == old(gone.parent) && gone.red == old(gone.red)
      ensures gone.right == if parent == gone then child else old(gone.right)
      ensures root == old(root) && (gone.parent == null <==> gone == root)
      ensures gone.parent != null ==> gone.parent in nodes
      ensures gone.parent != null ==>
        gone.parent.left == old(gone.parent.left) && gone.parent.right == old(gone.parent.right)
      ensures gone.lo < elm.key < gone.hi && gone.left.hi <= elm.key
      ensures gone.right != null ==> elm.key <= gone.right.lo
    {
      hide Searchable, Valid, Unfixed;
      parent, child, color := SpliceSuccessor(gone, elm);
      UnfixedIsSearchable(color, parent, child);
      ReplacementSite(gone);
      RaiseLows(gone.key, elm.key, color, parent, child);
      UnfixedIsSearchable(color, parent, child);
      ReplacementSite(gone);
    }

    lemma ValidIsSearchable()
      requires Valid()
      ensures Searchable()
    {
    }

    /** The case of two children: the successor elm is spliced out and put in gone's place,
        with gone's colour; the shortage is at the place it has left. */
    method SwapWithSuccessor(gone: Node) returns (parent: Node?, child: Node?, color: bool, ghost elm: Node)
      requires Valid() && gone in nodes && gone.left != null && gone.right != null
      modifies this, nodes
      ensures nodes == old(nodes) - {gone} && Unfixed(color, parent, child)
      ensures elm in old(nodes) && elm.key > gone.key && forall n :: n in nodes && n.key > gone.key ==> n.key >= elm.key
      ensures TookOver(gone, elm, if parent == elm then child else old(gone.right), old(gone.parent))
      ensures color == old(elm.red) && child == old(elm.right)
      ensures parent == if old(elm.parent) == gone then elm else old(elm.parent)
    {
      ValidIsSearchable();
      hide Searchable, Valid, Unfixed;
      var successor := Leftmost(gone);
      elm := successor;
      assert nodes - {elm} - {gone} + {elm} == nodes - {gone};
      parent, child, color := DetachSuccessor(gone, successor);
      ghost var p := parent;
      if parent == gone {
        parent := successor;
      }
      Replace(gone, successor, color, p, child);
    }

    method Remove(gone: Node) returns (r: Node)
      requires Valid() && gone in nodes
      modifies this, nodes
      ensures Valid() && r == gone && nodes == old(nodes) - {gone}
    {
      var child: Node?, parent: Node?, color: bool;
      if gone.left != null && gone.right != null {
        ghost var elm;
        parent, child, color, elm := SwapWithSuccessor(gone);
      } else {
        if gone.left == null {
          child := gone.right;
        } else {
          child := gone.left;
        }
        parent := gone.parent;
        color := gone.red;
        SpliceOut(gone, child);
      }
      if !color {
        RemoveColor(parent, child);
      }
      return gone;
    }
  }
}
