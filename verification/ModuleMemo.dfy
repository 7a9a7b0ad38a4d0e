/** The module memo: the splay tree of freebsd_tree.h, instantiated for module
    handles ordered by canonical name (gpsee_modules.c:304-306).

    As in RedBlackTree, ghost intervals turn search order into a condition on
    one handle and its neighbours; a ghost parent link does the same for the
    shape, which the C code keeps without parent pointers. */
module ModuleMemo {

  /** A JavaScript object, as an opaque token. */
  type Token = nat
  const NULL: Token := 0

  /** struct moduleHandle. A function pointer is modelled by whether it is set. */
  class Handle {
    const cname: int            // the rank of the canonical name under strcmp
    var init: bool
    var fini: bool
    var script: bool
    var exports: Token
    var scope: Token
    var loaded: bool            // flags & mhf_loaded
    var released: bool
    var next: Handle?
    var left: Handle?           // entry.spe_left
    var right: Handle?          // entry.spe_right
    ghost var up: Handle?
    ghost var lo: int
    ghost var hi: int

    /** A handle fresh from calloc. */
    constructor (cname: int)
      ensures this.cname == cname && left == null && right == null && next == null
      ensures !init && !fini && !script && !loaded && !released && exports == scope == NULL
    {
      this.cname := cname;
      init, fini, script, exports, scope, loaded, released := false, false, false, NULL, NULL, false, false;
      left, right, next := null, null, null;
    }
  }

  /** A turn of a splay: on which side of the root, and whether it rotates first. */
  datatype Turn = Turn(onLeft: bool, rotates: bool)

  /** Where the way goes on to the same side, there is a rotation first. */
  ghost predicate ZigZags(turns: seq<Turn>) {
    forall i :: 0 <= i < |turns| - 1 && turns[i].onLeft == turns[i + 1].onLeft ==> turns[i].rotates
  }

  function Cmp(a: Handle, b: Handle): (c: int)
    ensures c < 0 <==> a.cname < b.cname
    ensures c > 0 <==> a.cname > b.cname
  {
    if a.cname < b.cname then -1 else if a.cname > b.cname then 1 else 0
  }

  ghost predicate ByName(s: seq<Handle>) {
    forall i, j :: 0 <= i < j < |s| ==> s[i].cname < s[j].cname
  }

  lemma ByNameJoin(l: seq<Handle>, n: Handle, r: seq<Handle>)
    requires ByName(l) && ByName(r)
    requires (forall m :: m in l ==> m.cname < n.cname) && (forall m :: m in r ==> n.cname < m.cname)
    ensures ByName(l + [n] + r)
  {
    var s := l + [n] + r;
    forall i, j | 0 <= i < j < |s|
      ensures s[i].cname < s[j].cname
    {
      assert i < |l| ==> s[i] in l;
      assert j > |l| ==> s[j] == r[j - |l| - 1] && s[j] in r;
      assert i > |l| ==> s[i] == r[i - |l| - 1];
    }
  }

  ghost function Elems(s: seq<Handle>): (r: set<Handle>)
    ensures |s| > 0 ==> s[0] in r
    ensures r == {} <==> s == []
  {
    set n | n in s
  }

  /** Two ascending lists of the same handles are the same list. */
  lemma {:induction false} ByNameIsUnique(s: seq<Handle>, t: seq<Handle>)
    requires ByName(s) && ByName(t) && Elems(s) == Elems(t)
    ensures s == t
  {
    if s != [] {
      assert s[0] in Elems(t) && t[0] in Elems(s);
      assert s[0] == t[0];
      ElemsOfRest(s);
      ElemsOfRest(t);
      ByNameIsUnique(s[1..], t[1..]);
    }
  }

  lemma ElemsOfCons(h: Handle, s: seq<Handle>)
    ensures Elems([h] + s) == {h} + Elems(s)
  {
    assert forall n :: n in [h] + s <==> n == h || n in s;
  }

  lemma InElems(s: seq<Handle>, i: int)
    requires 0 <= i < |s|
    ensures s[i] in Elems(s)
  {
  }

  lemma ElemsOfRest(s: seq<Handle>)
    requires ByName(s) && |s| > 0
    ensures Elems(s[1..]) == Elems(s) - {s[0]}
  {
    assert s == [s[0]] + s[1..];
  }

  lemma {:induction false} ElemsNext(all: seq<Handle>, i: int)
    requires ByName(all) && 0 <= i < |all|
    ensures all[i] !in all[..i] && all[i] !in Elems(all[..i])
    ensures Elems(all[..i + 1]) == Elems(all[..i]) + {all[i]}
  {
    assert all[..i + 1] == all[..i] + [all[i]];
  }

  class Memo {
    var root: Handle?
    ghost var nodes: set<Handle>
    ghost var lo: int
    ghost var hi: int

    constructor ()
      ensures Valid() && nodes == {}
    {
      root, nodes, lo, hi := null, {}, 0, 0;
    }

    // ------------------------------------------------- between operations

    ghost predicate Linked(n: Handle, s: set<Handle>, top: Handle?)
      requires n in s
      reads `lo, `hi, s`left, s`right, s`up, s`lo, s`hi
    {
      && lo <= n.lo < n.cname < n.hi <= hi
      && (n.left != null ==> n.left in s && n.left.up == n && n.lo <= n.left.lo && n.left.hi <= n.cname)
      && (n.right != null ==> n.right in s && n.right.up == n && n.cname <= n.right.lo && n.right.hi <= n.hi)
      && (n.up == null <==> n == top)
      && (n.up != null ==> n.up in s && (n.up.left == n || n.up.right == n))
    }

    /** The handles in s form a search tree with the given top. */
    ghost predicate Tree(s: set<Handle>, top: Handle?)
      reads `lo, `hi, s`left, s`right, s`up, s`lo, s`hi
    {
      && (top == null ==> s == {})
      && (top != null ==> top in s)
      && forall n {:trigger Linked(n, s, top)} :: n in s ==> Linked(n, s, top)
    }

    ghost predicate Valid()
      reads this, nodes`left, nodes`right, nodes`up, nodes`lo, nodes`hi
    {
      Tree(nodes, root)
    }

    lemma {:induction false} SideOfTop(s: set<Handle>, top: Handle, n: Handle)
      requires Tree(s, top) && n in s && n != top
      ensures (n.hi <= top.cname && top.left != null) || (top.cname <= n.lo && top.right != null)
      decreases hi - lo - (n.hi - n.lo)
    {
      assert Linked(n, s, top) && Linked(top, s, top);
      assert Linked(n.up, s, top);
      if n.up != top {
        SideOfTop(s, top, n.up);
      }
    }

    /** The handles below n in order of their names. */
    ghost function ListOf(n: Handle?): seq<Handle>
      requires Valid() && (n != null ==> n in nodes)
      reads this, nodes`left, nodes`right, nodes`up, nodes`lo, nodes`hi
      decreases if n == null then 0 else n.hi - n.lo + hi - lo
    {
      if n == null then [] else
        assert Linked(n, nodes, root) && (n.left != null ==> Linked(n.left, nodes, root));
        assert n.right != null ==> Linked(n.right, nodes, root);
        ListOf(n.left) + [n] + ListOf(n.right)
    }

    ghost function Inorder(): seq<Handle>
      requires Valid()
      reads this, nodes`left, nodes`right, nodes`up, nodes`lo, nodes`hi
    {
      ListOf(root)
    }

    lemma {:induction false} ListIsSorted(n: Handle?)
      requires Valid() && (n != null ==> n in nodes)
      ensures ByName(ListOf(n))
      ensures forall m :: m in ListOf(n) ==> m in nodes && n.lo < m.cname < n.hi
      decreases if n == null then 0 else n.hi - n.lo + hi - lo
    {
      if n != null {
        assert Linked(n, nodes, root) && (n.left != null ==> Linked(n.left, nodes, root));
        assert n.right != null ==> Linked(n.right, nodes, root);
        ListIsSorted(n.left);
        ListIsSorted(n.right);
        ByNameJoin(ListOf(n.left), n, ListOf(n.right));
      }
    }

    lemma {:induction false} ListIsClosed(n: Handle, m: Handle, c: Handle)
      requires Valid() && n in nodes && m in nodes && c in nodes && m in ListOf(n) && (c == m.left || c == m.right)
      ensures c in ListOf(n)
      decreases n.hi - n.lo
    {
      assert Linked(n, nodes, root) && Linked(m, nodes, root) && Linked(c, nodes, root);
      if m != n {
        if m in ListOf(n.left) {
          assert Linked(n.left, nodes, root);
          ListIsClosed(n.left, m, c);
        } else {
          assert Linked(n.right, nodes, root);
          ListIsClosed(n.right, m, c);
        }
      } else {
        assert c in ListOf(c);
      }
    }

    lemma {:induction false} ListIsComplete(n: Handle)
      requires Valid() && n in nodes
      ensures n in Inorder()
      decreases hi - lo - (n.hi - n.lo)
    {
      assert Linked(n, nodes, root) && (n.up != null ==> Linked(n.up, nodes, root));
      if n != root {
        ListIsComplete(n.up);
        ListIsClosed(root, n.up, n);
      }
    }

    /** Inorder() lists the handles, in strictly ascending order of their names. */
    lemma InorderLists()
      requires Valid()
      ensures ByName(Inorder()) && Elems(Inorder()) == nodes
    {
      ListIsSorted(root);
      forall n | n in nodes
        ensures n in Inorder()
      {
        ListIsComplete(n);
      }
    }

    lemma DistinctNames()
      requires Valid()
      ensures forall m, n :: m in nodes && n in nodes && m.cname == n.cname ==> m == n
    {
      InorderLists();
      forall m, n | m in nodes && n in nodes && m.cname == n.cname
        ensures m == n
      {
        assert m in Elems(Inorder()) && n in Elems(Inorder());
      }
    }

    // ------------------------------------------------- during a splay

    /** While splaying, a handle is in the left tree, the middle tree or the right
        tree, and its name says which. */
    ghost function Zone(n: Handle): int
      requires root != null
      reads this, root
    {
      if n.cname <= root.lo then -1 else if n.cname >= root.hi then 1 else 0
    }

    ghost predicate LeftLinked(n: Handle, right: Handle?)
      requires root != null && root in nodes && n in nodes
      reads this, nodes
    {
      n != right && n.left != null ==>
        n.left in nodes && n.left.up == n && n.lo <= n.left.lo && n.left.hi <= n.cname
    }

    ghost predicate RightLinked(n: Handle, left: Handle?)
      requires root != null && root in nodes && n in nodes
      reads this, nodes
    {
      n != left && n.right != null ==>
        n.right in nodes && n.right.up == n && n.cname <= n.right.lo && n.right.hi <= n.hi
    }

    /** n has no parent exactly if it is the top of its tree. */
    ghost predicate UpLinked(n: Handle, node: Handle, left: Handle, right: Handle)
      requires root != null && root in nodes && n in nodes
      reads this, nodes, node
    {
      && (n.up == null <==> n == if Zone(n) < 0 then node.right else if Zone(n) > 0 then node.left else root)
      && (n.up != null ==> n.up in nodes && Zone(n.up) == Zone(n))
      && (n.up != null ==> (n.up != right && n.up.left == n) || (n.up != left && n.up.right == n))
    }

    ghost predicate Placed(n: Handle, node: Handle, left: Handle, right: Handle)
      requires root != null && root in nodes && n in nodes
      reads this, nodes, node
    {
      && lo <= n.lo < n.cname < n.hi <= hi
      && LeftLinked(n, right) && RightLinked(n, left) && UpLinked(n, node, left, right)
    }

    /** node is the sentinel: node.right and node.left are the tops of the left and
        the right tree. left is where the left tree grows: what is below root can
        still go under left.right, and all of it is above the left tree. The
        links left.right and right.left are stale. */
    ghost predicate Splaying(node: Handle, left: Handle, right: Handle)
      reads this, nodes, node
    {
      && root != null && root in nodes && node !in nodes
      && lo <= root.lo < root.cname < root.hi <= hi
      && (left != node ==> left in nodes && left.cname <= root.lo && root.hi <= left.hi)
      && (right != node ==> right in nodes && root.hi <= right.cname && right.lo <= root.lo)
      && (left != node ==> node.right != null && node.right in nodes && Zone(node.right) < 0)
      && (right != node ==> node.left != null && node.left in nodes && Zone(node.left) > 0)
      && (left == node ==> forall n :: n in nodes ==> root.lo < n.cname)
      && (right == node ==> forall n :: n in nodes ==> n.cname < root.hi)
      && forall n {:trigger Placed(n, node, left, right)} :: n in nodes ==> Placed(n, node, left, right)
    }

    /** In the middle tree, everything but the root is wholly on one side of it. */
    lemma {:induction false} SideOfRoot(node: Handle, left: Handle, right: Handle, n: Handle)
      requires Splaying(node, left, right) && n in nodes && Zone(n) == 0 && n != root
      ensures (n.hi <= root.cname && root.left != null) || (root.cname <= n.lo && root.right != null)
      decreases hi - lo - (n.hi - n.lo)
    {
      assert Placed(n, node, left, right) && Placed(root, node, left, right);
      assert Placed(n.up, node, left, right);
      assert left != node ==> Placed(left, node, left, right);
      assert right != node ==> Placed(right, node, left, right);
      if n.up != root {
        SideOfRoot(node, left, right, n.up);
      }
    }

    /** Where things lie around the root. */
    lemma AroundRoot(node: Handle, left: Handle, right: Handle)
      requires Splaying(node, left, right)
      ensures root in nodes && node !in nodes && root.lo < root.cname < root.hi
      ensures (left != node ==> left in nodes && left != root) && (right != node ==> right in nodes && right != root)
      ensures root.left != null ==> root.left in nodes && root.left != root && root.left.cname < root.cname
      ensures root.right != null ==> root.right in nodes && root.right != root && root.cname < root.right.cname
      ensures root.left != null && root.left.right != null ==> root.left.right in nodes && root.left.right != root
      ensures root.right != null && root.right.left != null ==> root.right.left in nodes && root.right.left != root
      ensures forall n :: n in nodes && n != root && Zone(n) == 0 ==> n.hi <= root.cname || root.cname <= n.lo
    {
      assert Placed(root, node, left, right);
      assert root.left != null ==> Placed(root.left, node, left, right);
      assert root.right != null ==> Placed(root.right, node, left, right);
      forall n | n in nodes && n != root && Zone(n) == 0
        ensures n.hi <= root.cname || root.cname <= n.lo
      {
        SideOfRoot(node, left, right, n);
      }
    }

    /** SPLAY_LINKLEFT: the root r and its right subtree join the right tree, and
        r's left child c becomes the root. */
    twostate predicate LinkedLeft(new node: Handle, new left: Handle, new right: Handle, new r: Handle, new c: Handle)
      reads this, nodes, node
    {
      && old(allocated(node)) && node !in old(nodes)
      && (left != node ==> left in old(nodes)) && (right != node ==> right in old(nodes))
      && old(Splaying(node, left, right)) && nodes == old(nodes) && lo == old(lo) && hi == old(hi)
      && r == old(root) && c == old(r.left) && c in old(nodes) && root == c && c.lo == old(r.lo) && c.hi == r.cname
      && r.up == (if right == node then null else right) && c.up == null
      && (right != node ==> right.left == r && node.left == old(node.left)) && (right == node ==> node.left == r)
      && node.right == old(node.right)
      && (forall n :: n in nodes ==> n.right == old(n.right))
      && (forall n :: n in nodes && n != right ==> n.left == old(n.left))
      && (forall n :: n in nodes && n != r && n != c ==> n.up == old(n.up))
      && (forall n :: n in nodes && n != c ==> n.lo == old(n.lo) && n.hi == old(n.hi))
    }

    twostate predicate OneSided(new r: Handle, new n: Handle)
      requires old(allocated(n))
    {
      old(root != null && Zone(n) == 0) && n != r ==> old(n.hi) <= r.cname || r.cname <= old(n.lo)
    }

    twostate lemma LinkedLeftBelow(new node: Handle, new left: Handle, new right: Handle, new r: Handle,
        new c: Handle, new n: Handle)
      requires n in old(nodes) && LinkedLeft(node, left, right, r, c) && OneSided(r, n)
      requires old(n.up) != null ==> OneSided(r, old(n.up))
      ensures lo <= n.lo < n.cname < n.hi <= hi && LeftLinked(n, r) && RightLinked(n, left)
    {
      assert old(Placed(n, node, left, right)) && old(Placed(r, node, left, right))
        && old(Placed(c, node, left, right));
      assert right != node ==> old(Placed(right, node, left, right));
    }

    twostate lemma LinkedLeftAbove(new node: Handle, new left: Handle, new right: Handle, new r: Handle,
        new c: Handle, new n: Handle)
      requires n in old(nodes) && LinkedLeft(node, left, right, r, c) && OneSided(r, n)
      requires old(n.up) != null ==> OneSided(r, old(n.up))
      ensures UpLinked(n, node, left, r)
    {
      assert old(Placed(n, node, left, right)) && old(Placed(r, node, left, right))
        && old(Placed(c, node, left, right));
      assert right != node ==> old(Placed(right, node, left, right));
      assert old(n.up != null ==> Placed(n.up, node, left, right));
    }

    twostate lemma LinkedLeftPlaced(new node: Handle, new left: Handle, new right: Handle, new r: Handle,
        new c: Handle, new n: Handle)
      requires n in old(nodes) && LinkedLeft(node, left, right, r, c) && OneSided(r, n)
      requires old(n.up) != null ==> OneSided(r, old(n.up))
      ensures Placed(n, node, left, r)
    {
      hide LeftLinked, RightLinked, UpLinked, Splaying;
      LinkedLeftBelow(node, left, right, r, c, n);
      LinkedLeftAbove(node, left, right, r, c, n);
    }

    twostate lemma LinkedLeftSplaying(new node: Handle, new left: Handle, new right: Handle, new r: Handle,
        new c: Handle)
      requires LinkedLeft(node, left, right, r, c)
      requires forall n :: n in old(nodes) ==> OneSided(r, n)
      ensures Splaying(node, left, r)
    {
      assert old(Placed(r, node, left, right) && Placed(c, node, left, right));
      assert right != node ==> old(Placed(right, node, left, right));
      forall n | n in nodes
        ensures Placed(n, node, left, r)
      {
        assert old(Placed(n, node, left, right));
        LinkedLeftPlaced(node, left, right, r, c, n);
      }
    }

    ghost method Hang(r: Handle, up: Handle?, c: Handle, lo: int, hi: int)
      requires r != c
      modifies r`up, c`up, c`lo, c`hi
      ensures r.up == up && c.up == null && c.lo == lo && c.hi == hi
    {
      r.up, c.up, c.lo, c.hi := up, null, lo, hi;
    }

    method LinkLeft(ghost node: Handle, ghost left: Handle, right: Handle) returns (tmp: Handle)
      requires Splaying(node, left, right) && root.left != null
      modifies `root, nodes`left, nodes`right, nodes`up, nodes`lo, nodes`hi, right`left, right`right
      ensures Splaying(node, left, tmp)
      ensures tmp == old(root) && root == old(root.left)
      ensures root.lo == old(root.lo) && root.hi == tmp.cname < old(root.hi)
      ensures right.left == tmp
      ensures forall n :: n in nodes ==> n.right == old(n.right) && (n != right ==> n.left == old(n.left))
    {
      hide Splaying;
      AroundRoot(node, left, right);
      ghost var r, c := root, root.left;
      right.left := root;
      tmp := root;
      root := root.left;
      Hang(r, if right == node then null else right, c, r.lo, r.cname);
      LinkedLeftSplaying(node, left, right, r, c);
    }

    /** SPLAY_LINKRIGHT, the mirror image. */
    twostate predicate LinkedRight(new node: Handle, new left: Handle, new right: Handle, new r: Handle, new c: Handle)
      reads this, nodes, node
    {
      && old(allocated(node)) && node !in old(nodes)
      && (left != node ==> left in old(nodes)) && (right != node ==> right in old(nodes))
      && old(Splaying(node, left, right)) && nodes == old(nodes) && lo == old(lo) && hi == old(hi)
      && r == old(root) && c == old(r.right) && c in old(nodes) && root == c && c.hi == old(r.hi) && c.lo == r.cname
      && r.up == (if left == node then null else left) && c.up == null
      && (left != node ==> left.right == r && node.right == old(node.right)) && (left == node ==> node.right == r)
      && node.left == old(node.left)
      && (forall n :: n in nodes ==> n.left == old(n.left))
      && (forall n :: n in nodes && n != left ==> n.right == old(n.right))
      && (forall n :: n in nodes && n != r && n != c ==> n.up == old(n.up))
      && (forall n :: n in nodes && n != c ==> n.lo == old(n.lo) && n.hi == old(n.hi))
    }

    twostate lemma LinkedRightBelow(new node: Handle, new left: Handle, new right: Handle, new r: Handle,
        new c: Handle, new n: Handle)
      requires n in old(nodes) && LinkedRight(node, left, right, r, c) && OneSided(r, n)
      requires old(n.up) != null ==> OneSided(r, old(n.up))
      ensures lo <= n.lo < n.cname < n.hi <= hi && LeftLinked(n, right) && RightLinked(n, r)
    {
      assert old(Placed(n, node, left, right)) && old(Placed(r, node, left, right))
        && old(Placed(c, node, left, right));
      assert left != node ==> old(Placed(left, node, left, right));
    }

    twostate lemma LinkedRightAbove(new node: Handle, new left: Handle, new right: Handle, new r: Handle,
        new c: Handle, new n: Handle)
      requires n in old(nodes) && LinkedRight(node, left, right, r, c) && OneSided(r, n)
      requires old(n.up) != null ==> OneSided(r, old(n.up))
      ensures UpLinked(n, node, r, right)
    {
      assert old(Placed(n, node, left, right)) && old(Placed(r, node, left, right))
        && old(Placed(c, node, left, right));
      assert left != node ==> old(Placed(left, node, left, right));
      assert old(n.up != null ==> Placed(n.up, node, left, right));
    }

    twostate lemma LinkedRightPlaced(new node: Handle, new left: Handle, new right: Handle, new r: Handle,
        new c: Handle, new n: Handle)
      requires n in old(nodes) && LinkedRight(node, left, right, r, c) && OneSided(r, n)
      requires old(n.up) != null ==> OneSided(r, old(n.up))
      ensures Placed(n, node, r, right)
    {
      hide LeftLinked, RightLinked, UpLinked, Splaying;
      LinkedRightBelow(node, left, right, r, c, n);
      LinkedRightAbove(node, left, right, r, c, n);
    }

    twostate lemma LinkedRightSplaying(new node: Handle, new left: Handle, new right: Handle, new r: Handle,
        new c: Handle)
      requires LinkedRight(node, left, right, r, c)
      requires forall n :: n in old(nodes) ==> OneSided(r, n)
      ensures Splaying(node, r, right)
    {
      assert old(Placed(r, node, left, right) && Placed(c, node, left, right));
      assert left != node ==> old(Placed(left, node, left, right));
      forall n | n in nodes
        ensures Placed(n, node, r, right)
      {
        assert old(Placed(n, node, left, right));
        LinkedRightPlaced(node, left, right, r, c, n);
      }
    }

    method LinkRight(ghost node: Handle, left: Handle, ghost right: Handle) returns (tmp: Handle)
      requires Splaying(node, left, right) && root.right != null
      modifies `root, nodes`left, nodes`right, nodes`up, nodes`lo, nodes`hi, left`left, left`right
      ensures Splaying(node, tmp, right)
      ensures tmp == old(root) && root == old(root.right)
      ensures root.lo == tmp.cname > old(root.lo) && root.hi == old(root.hi)
      ensures left.right == tmp
      ensures forall n :: n in nodes ==> n.left == old(n.left) && (n != left ==> n.right == old(n.right))
    {
      hide Splaying;
      AroundRoot(node, left, right);
      ghost var r, c := root, root.right;
      left.right := root;
      tmp := root;
      root := root.right;
      Hang(r, if left == node then null else left, c, r.cname, r.hi);
      LinkedRightSplaying(node, left, right, r, c);
    }

    /** SPLAY_ROTATE_RIGHT: the root r moves below its left child y. */
    twostate predicate RotatedRight(new r: Handle, new y: Handle, new b: Handle?)
      reads this, nodes
    {
      && nodes == old(nodes) && lo == old(lo) && hi == old(hi) && root == y && r in old(nodes) && y in old(nodes)
      && forall n :: n in nodes ==>
        && n.left == (if n == r then b else old(n.left))
        && n.right == (if n == y then r else old(n.right))
        && n.up == (if n == r then y else if n == y then null else if n == b then r else old(n.up))
        && n.lo == (if n == y then old(r.lo) else if n == r then y.cname else old(n.lo))
        && n.hi == (if n == y then old(r.hi) else old(n.hi))
    }

    twostate lemma RotatedRightBelow(new node: Handle, new left: Handle, new right: Handle, new r: Handle,
        new y: Handle, new b: Handle?, new n: Handle)
      requires old(allocated(node)) && (left != node ==> left in old(nodes)) && (right != node ==> right in old(nodes))
      requires (b != null ==> b in old(nodes)) && unchanged(node)
      requires RotatedRight(r, y, b)
      requires old(Splaying(node, left, right) && root == r && r.left == y && y.right == b)
      requires n in old(nodes)
      ensures lo <= n.lo < n.cname < n.hi <= hi && LeftLinked(n, right) && RightLinked(n, left)
    {
      assert old(Placed(r, node, left, right) && Placed(y, node, left, right));
      assert b != null ==> old(Placed(b, node, left, right));
      assert old(Placed(n, node, left, right));
    }

    twostate lemma RotatedRightAbove(new node: Handle, new left: Handle, new right: Handle, new r: Handle,
        new y: Handle, new b: Handle?, new n: Handle)
      requires old(allocated(node)) && (left != node ==> left in old(nodes)) && (right != node ==> right in old(nodes))
      requires (b != null ==> b in old(nodes)) && unchanged(node)
      requires RotatedRight(r, y, b)
      requires old(Splaying(node, left, right) && root == r && r.left == y && y.right == b)
      requires n in old(nodes)
      ensures UpLinked(n, node, left, right)
    {
      assert old(Placed(r, node, left, right) && Placed(y, node, left, right));
      assert b != null ==> old(Placed(b, node, left, right));
      assert old(Placed(n, node, left, right));
    }

    twostate lemma RotatedRightSplaying(new node: Handle, new left: Handle, new right: Handle, new r: Handle,
        new y: Handle, new b: Handle?)
      requires old(allocated(node)) && (left != node ==> left in old(nodes)) && (right != node ==> right in old(nodes))
      requires (b != null ==> b in old(nodes)) && unchanged(node)
      requires RotatedRight(r, y, b)
      requires old(Splaying(node, left, right) && root == r && r.left == y && y.right == b)
      ensures Splaying(node, left, right)
    {
      assert old(Placed(r, node, left, right) && Placed(y, node, left, right));
      forall n | n in nodes
        ensures Placed(n, node, left, right)
      {
        hide Splaying, LeftLinked, RightLinked, UpLinked;
        RotatedRightBelow(node, left, right, r, y, b, n);
        RotatedRightAbove(node, left, right, r, y, b, n);
      }
    }

    method RotateRight(ghost node: Handle, ghost left: Handle, ghost right: Handle, tmp: Handle)
      requires Splaying(node, left, right) && tmp == root.left
      modifies `root, nodes`left, nodes`right, nodes`up, nodes`lo, nodes`hi
      ensures Splaying(node, left, right) && root == tmp
      ensures root.lo == old(root.lo) && root.hi == old(root.hi)
      ensures forall n :: n in nodes ==>
        && n.left == (if n == old(root) then old(tmp.right) else old(n.left))
        && n.right == (if n == tmp then old(root) else old(n.right))
    {
      hide Splaying;
      AroundRoot(node, left, right);
      ghost var r, b := root, tmp.right;
      root.left := tmp.right;
      tmp.right := root;
      root := tmp;
      if b != null {
        b.up := r;
      }
      r.up, tmp.up := tmp, null;
      tmp.lo, tmp.hi := r.lo, r.hi;
      r.lo := tmp.cname;
      RotatedRightSplaying(node, left, right, r, tmp, b);
    }

    /** SPLAY_ROTATE_LEFT, the mirror image. */
    twostate predicate RotatedLeft(new r: Handle, new y: Handle, new b: Handle?)
      reads this, nodes
    {
      && nodes == old(nodes) && lo == old(lo) && hi == old(hi) && root == y && r in old(nodes) && y in old(nodes)
      && forall n :: n in nodes ==>
        && n.right == (if n == r then b else old(n.right))
        && n.left == (if n == y then r else old(n.left))
        && n.up == (if n == r then y else if n == y then null else if n == b then r else old(n.up))
        && n.lo == (if n == y then old(r.lo) else old(n.lo))
        && n.hi == (if n == y then old(r.hi) else if n == r then y.cname else old(n.hi))
    }

    twostate lemma RotatedLeftBelow(new node: Handle, new left: Handle, new right: Handle, new r: Handle,
        new y: Handle, new b: Handle?, new n: Handle)
      requires old(allocated(node)) && (left != node ==> left in old(nodes)) && (right != node ==> right in old(nodes))
      requires (b != null ==> b in old(nodes)) && unchanged(node)
      requires RotatedLeft(r, y, b)
      requires old(Splaying(node, left, right) && root == r && r.right == y && y.left == b)
      requires n in old(nodes)
      ensures lo <= n.lo < n.cname < n.hi <= hi && LeftLinked(n, right) && RightLinked(n, left)
    {
      assert old(Placed(r, node, left, right) && Placed(y, node, left, right));
      assert b != null ==> old(Placed(b, node, left, right));
      assert old(Placed(n, node, left, right));
    }

    twostate lemma RotatedLeftAbove(new node: Handle, new left: Handle, new right: Handle, new r: Handle,
        new y: Handle, new b: Handle?, new n: Handle)
      requires old(allocated(node)) && (left != node ==> left in old(nodes)) && (right != node ==> right in old(nodes))
      requires (b != null ==> b in old(nodes)) && unchanged(node)
      requires RotatedLeft(r, y, b)
      requires old(Splaying(node, left, right) && root == r && r.right == y && y.left == b)
      requires n in old(nodes)
      ensures UpLinked(n, node, left, right)
    {
      assert old(Placed(r, node, left, right) && Placed(y, node, left, right));
      assert b != null ==> old(Placed(b, node, left, right));
      assert old(Placed(n, node, left, right));
    }

    twostate lemma RotatedLeftSplaying(new node: Handle, new left: Handle, new right: Handle, new r: Handle,
        new y: Handle, new b: Handle?)
      requires old(allocated(node)) && (left != node ==> left in old(nodes)) && (right != node ==> right in old(nodes))
      requires (b != null ==> b in old(nodes)) && unchanged(node)
      requires RotatedLeft(r, y, b)
      requires old(Splaying(node, left, right) && root == r && r.right == y && y.left == b)
      ensures Splaying(node, left, right)
    {
      assert old(Placed(r, node, left, right) && Placed(y, node, left, right));
      forall n | n in nodes
        ensures Placed(n, node, left, right)
      {
        hide Splaying, LeftLinked, RightLinked, UpLinked;
        RotatedLeftBelow(node, left, right, r, y, b, n);
        RotatedLeftAbove(node, left, right, r, y, b, n);
      }
    }

    method RotateLeft(ghost node: Handle, ghost left: Handle, ghost right: Handle, tmp: Handle)
      requires Splaying(node, left, right) && tmp == root.right
      modifies `root, nodes`left, nodes`right, nodes`up, nodes`lo, nodes`hi
      ensures Splaying(node, left, right) && root == tmp
      ensures root.lo == old(root.lo) && root.hi == old(root.hi)
      ensures forall n :: n in nodes ==>
        && n.left == (if n == tmp then old(root) else old(n.left))
        && n.right == (if n == old(root) then old(tmp.left) else old(n.right))
    {
      hide Splaying;
      AroundRoot(node, left, right);
      ghost var r, b := root, tmp.left;
      root.right := tmp.left;
      tmp.left := root;
      root := tmp;
      if b != null {
        b.up := r;
      }
      r.up, tmp.up := tmp, null;
      tmp.lo, tmp.hi := r.lo, r.hi;
      r.hi := tmp.cname;
      RotatedLeftSplaying(node, left, right, r, tmp, b);
    }

    /** How the pieces lie that the assembly puts together. */
    ghost predicate Ends(node: Handle, left: Handle, right: Handle)
      reads this, nodes, node
    {
      && root != null && root in nodes && node !in nodes && root.up == null
      && lo <= root.lo < root.cname < root.hi <= hi
      && (root.left != null ==> root.left in nodes && root.left.up == root && root.lo < root.left.cname < root.cname)
      && (root.left != null ==> root.lo <= root.left.lo && root.left.hi <= root.cname)
      && (root.right != null ==>
        root.right in nodes && root.right.up == root && root.cname < root.right.cname < root.hi)
      && (root.right != null ==> root.cname <= root.right.lo && root.right.hi <= root.hi)
      && (left != node ==> left in nodes && left.cname <= root.lo && root.hi <= left.hi)
      && (left != node ==>
        node.right != null && node.right in nodes && node.right.up == null && node.right.cname <= root.lo)
      && (right != node ==> right in nodes && root.hi <= right.cname && right.lo <= root.lo)
      && (right != node ==>
        node.left != null && node.left in nodes && node.left.up == null && root.hi <= node.left.cname)
    }

    lemma SplayingHasEnds(node: Handle, left: Handle, right: Handle)
      requires Splaying(node, left, right)
      ensures Ends(node, left, right)
    {
      assert Placed(root, node, left, right);
      assert root.left != null ==> Placed(root.left, node, left, right);
      assert root.right != null ==> Placed(root.right, node, left, right);
      assert left != node ==> Placed(node.right, node, left, right);
      assert right != node ==> Placed(node.left, node, left, right);
    }

    /** SPLAY_ASSEMBLE: cl and cr, what was below the root r, go under the two
        growing ends, and the tops tl and tr of the side trees go below r. The
        intervals are cut off at r. */
    twostate predicate Assembled(new node: Handle, new left: Handle, new right: Handle, new r: Handle,
        new cl: Handle?, new cr: Handle?, new tl: Handle?, new tr: Handle?)
      reads this, nodes
    {
      && old(allocated(node)) && (left != node ==> left in old(nodes)) && (right != node ==> right in old(nodes))
      && old(Splaying(node, left, right)) && old(Ends(node, left, right)) && unchanged(this)
      && r == root && cl == old(r.left) && cr == old(r.right)
      && tl == (if left == node then cl else old(node.right)) && tr == (if right == node then cr else old(node.left))
      && forall n :: n in nodes ==>
        && n.left == (if n == r then tl else if n == right then cr else old(n.left))
        && n.right == (if n == r then tr else if n == left then cl else old(n.right))
        && n.up == (if n == tl || n == tr then r else if n == cl then left else if n == cr then right else old(n.up))
        && n.lo == (if n == r then lo else if n.cname > r.cname && old(n.lo) < r.cname then r.cname else old(n.lo))
        && n.hi == (if n == r then hi else if n.cname < r.cname && old(n.hi) > r.cname then r.cname else old(n.hi))
    }

    twostate lemma AssembledInterval(new node: Handle, new left: Handle, new right: Handle, new r: Handle,
        new cl: Handle?, new cr: Handle?, new tl: Handle?, new tr: Handle?, new n: Handle)
      requires n in old(nodes) && Assembled(node, left, right, r, cl, cr, tl, tr) && OneSided(r, n)
      ensures lo <= n.lo < n.cname < n.hi <= hi
    {
      assert old(Placed(n, node, left, right));
    }

    twostate lemma AssembledLeftChild(new node: Handle, new left: Handle, new right: Handle, new r: Handle,
        new cl: Handle?, new cr: Handle?, new tl: Handle?, new tr: Handle?, new n: Handle)
      requires n in old(nodes) && Assembled(node, left, right, r, cl, cr, tl, tr) && OneSided(r, n)
      ensures n.left != null ==> n.left in nodes && n.left.up == n
    {
      assert old(Placed(n, node, left, right));
      var m := n.left;
      if m != null {
        assert n != r && n != right ==> old(Placed(m, node, left, right));
        assert n == r || n == right ==> m in nodes && old(Placed(m, node, left, right));
      }
    }

    twostate lemma AssembledLeftInside(new node: Handle, new left: Handle, new right: Handle, new r: Handle,
        new cl: Handle?, new cr: Handle?, new tl: Handle?, new tr: Handle?, new n: Handle)
      requires n in old(nodes) && Assembled(node, left, right, r, cl, cr, tl, tr) && OneSided(r, n)
      ensures n.left != null ==> n.lo <= n.left.lo && n.left.hi <= n.cname
    {
      assert old(Placed(n, node, left, right));
      var m := n.left;
      if m != null {
        assert n != r && n != right ==> old(Placed(m, node, left, right));
        assert n == r || n == right ==> m in nodes && old(Placed(m, node, left, right));
      }
    }

    twostate lemma AssembledRightChild(new node: Handle, new left: Handle, new right: Handle, new r: Handle,
        new cl: Handle?, new cr: Handle?, new tl: Handle?, new tr: Handle?, new n: Handle)
      requires n in old(nodes) && Assembled(node, left, right, r, cl, cr, tl, tr) && OneSided(r, n)
      ensures n.right != null ==> n.right in nodes && n.right.up == n
    {
      assert old(Placed(n, node, left, right));
      var m := n.right;
      if m != null {
        assert n != r && n != left ==> old(Placed(m, node, left, right));
        assert n == r || n == left ==> m in nodes && old(Placed(m, node, left, right));
      }
    }

    twostate lemma AssembledRightInside(new node: Handle, new left: Handle, new right: Handle, new r: Handle,
        new cl: Handle?, new cr: Handle?, new tl: Handle?, new tr: Handle?, new n: Handle)
      requires n in old(nodes) && Assembled(node, left, right, r, cl, cr, tl, tr) && OneSided(r, n)
      ensures n.right != null ==> n.cname <= n.right.lo && n.right.hi <= n.hi
    {
      assert old(Placed(n, node, left, right));
      var m := n.right;
      if m != null {
        assert n != r && n != left ==> old(Placed(m, node, left, right));
        assert n == r || n == left ==> m in nodes && old(Placed(m, node, left, right));
      }
    }

    twostate lemma AssembledUp(new node: Handle, new left: Handle, new right: Handle, new r: Handle, new cl: Handle?,
        new cr: Handle?, new tl: Handle?, new tr: Handle?, new n: Handle)
      requires n in old(nodes) && Assembled(node, left, right, r, cl, cr, tl, tr)
      ensures n.up == null <==> n == root
      ensures n.up != null ==> n.up in nodes && (n.up.left == n || n.up.right == n)
    {
      assert old(Placed(n, node, left, right));
    }

    twostate lemma AssembledValid(new node: Handle, new left: Handle, new right: Handle, new r: Handle,
        new cl: Handle?, new cr: Handle?, new tl: Handle?, new tr: Handle?)
      requires Assembled(node, left, right, r, cl, cr, tl, tr)
      requires forall n :: n in old(nodes) ==> OneSided(r, n)
      ensures Valid()
    {
      forall n | n in nodes
        ensures Linked(n, nodes, root)
      {
        AssembledInterval(node, left, right, r, cl, cr, tl, tr, n);
        AssembledLeftChild(node, left, right, r, cl, cr, tl, tr, n);
        AssembledLeftInside(node, left, right, r, cl, cr, tl, tr, n);
        AssembledRightChild(node, left, right, r, cl, cr, tl, tr, n);
        AssembledRightInside(node, left, right, r, cl, cr, tl, tr, n);
        AssembledUp(node, left, right, r, cl, cr, tl, tr, n);
      }
    }

    /** The links of SPLAY_ASSEMBLE. */
    method Graft(node: Handle, left: Handle, right: Handle)
      returns (ghost cl: Handle?, ghost cr: Handle?, ghost tl: Handle?, ghost tr: Handle?)
      requires root != null && root in nodes && node !in nodes && left != root && right != root
      modifies root`left, root`right, left`right, right`left
      ensures cl == old(root.left) && cr == old(root.right)
      ensures tl == (if left == node then cl else old(node.right))
      ensures tr == (if right == node then cr else old(node.left))
      ensures forall n :: n in nodes ==>
        && n.left == (if n == root then tl else if n == right then cr else old(n.left))
        && n.right == (if n == root then tr else if n == left then cl else old(n.right))
    {
      cl, cr := root.left, root.right;
      tl, tr := if left == node then cl else node.right, if right == node then cr else node.left;
      left.right := root.left;
      right.left := root.right;
      root.left := node.right;
      root.right := node.left;
    }

    method Assemble(node: Handle, left: Handle, right: Handle)
      requires Splaying(node, left, right)
      modifies nodes`left, nodes`right, nodes`up, nodes`lo, nodes`hi, node`left, node`right
      ensures Valid()
    {
      hide Splaying, Ends;
      AroundRoot(node, left, right);
      SplayingHasEnds(node, left, right);
      ghost var cl, cr, tl, tr;
      cl, cr, tl, tr := Graft(node, left, right);
      CutOff(node, left, right, cl, cr, tl, tr);
      AssembledValid(node, left, right, root, cl, cr, tl, tr);
    }

    /** The ghost part of the assembly: parent links and intervals. */
    ghost method CutOff(node: Handle, left: Handle, right: Handle, cl: Handle?, cr: Handle?, tl: Handle?, tr: Handle?)
      requires root != null
      modifies nodes`up, nodes`lo, nodes`hi
      ensures forall n :: n in nodes ==>
        && n.up == (if n == tl || n == tr then root else if n == cl then left else if n == cr then right else old(n.up))
        && n.lo == (if n == root then lo
                    else if n.cname > root.cname && old(n.lo) < root.cname then root.cname else old(n.lo))
        && n.hi == (if n == root then hi
                    else if n.cname < root.cname && old(n.hi) > root.cname then root.cname else old(n.hi))
    {
      forall n | n in nodes {
        n.up := if n == tl || n == tr then root else if n == cl then left else if n == cr then right else n.up;
      }
      forall n | n in nodes {
        n.lo := if n == root then lo else if n.cname > root.cname && n.lo < root.cname then root.cname else n.lo;
      }
      forall n | n in nodes {
        n.hi := if n == root then hi else if n.cname < root.cname && n.hi > root.cname then root.cname else n.hi;
      }
    }

    // -------------------------------------------------------- operations

    twostate lemma OpenedPlaced(new node: Handle, new n: Handle)
      requires old(Valid()) && n in old(nodes) && nodes == old(nodes) && root == old(root) && root != null
      requires node !in nodes
      requires lo <= old(lo) && old(hi) <= hi && root.lo == lo && root.hi == hi
      requires forall m :: m in nodes ==> m.left == old(m.left) && m.right == old(m.right) && m.up == old(m.up)
      requires forall m :: m in nodes && m != root ==> m.lo == old(m.lo) && m.hi == old(m.hi)
      ensures Placed(n, node, node, node)
    {
      assert old(Linked(n, nodes, root) && Linked(root, nodes, root));
      assert old(n.up != null ==> Linked(n.up, nodes, root));
    }

    /** Opens the interval of the whole tree, so that k is in it. */
    ghost method Open(k: int, node: Handle)
      requires Valid() && root != null && node !in nodes
      modifies `lo, `hi, root`lo, root`hi
      ensures Splaying(node, node, node) && root.lo < k < root.hi
      ensures old(lo) < k < old(hi) ==> lo == old(lo) && hi == old(hi)
    {
      assert Linked(root, nodes, root);
      lo, hi := if lo < k then lo else k - 1, if k < hi then hi else k + 1;
      root.lo, root.hi := lo, hi;
      forall n | n in nodes
        ensures Placed(n, node, node, node)
      {
        assert old(Linked(n, nodes, root));
        OpenedPlaced(node, n);
      }
    }

    /** No name lies strictly between the root's and k, and k itself is not missed. */
    ghost predicate Nearest(k: int)
      reads this
    {
      && root != null
      && (k < root.cname ==> forall n :: n in nodes ==> n.cname < k || root.cname <= n.cname)
      && (k > root.cname ==> forall n :: n in nodes ==> n.cname <= root.cname || k < n.cname)
    }

    lemma NothingOnThatSide(node: Handle, left: Handle, right: Handle, k: int)
      requires Splaying(node, left, right) && root.lo < k < root.hi
      requires k < root.cname ==> root.left == null
      requires k > root.cname ==> root.right == null
      ensures Nearest(k)
    {
      forall n | n in nodes && n != root && Zone(n) == 0
        ensures k < root.cname ==> root.cname <= n.cname
        ensures k > root.cname ==> n.cname <= root.cname
      {
        assert Placed(n, node, left, right);
        SideOfRoot(node, left, right, n);
      }
    }

    lemma RootIsInside(node: Handle, left: Handle, right: Handle)
      requires Splaying(node, left, right)
      ensures root in nodes && root.lo < root.cname < root.hi
    {
      assert Placed(root, node, left, right);
    }

    /** One turn of a splay on the left: if the way goes on to the left below the child,
        the child is first rotated above the root; then what is the root goes to the right
        tree, if there is anything left of it. So two levels at once are passed, and the
        upper is put below the lower, exactly if both are on the same side. */
    method DownLeft(ghost node: Handle, ghost left: Handle, right: Handle, further: bool)
      returns (stop: bool, right': Handle, ghost turn: Turn)
      requires Splaying(node, left, right) && root.left != null
      requires (left == node || left in nodes) && (right == node || right in nodes)
      modifies `root, nodes`left, nodes`right, nodes`up, nodes`lo, nodes`hi, right`left, right`right
      ensures Splaying(node, left, right') && (right' == node || right' in nodes)
      ensures turn == Turn(true, further) && (stop <==> further && old(root.left.left) == null)
      ensures root == if further && !stop then old(root.left.left) else old(root.left)
      ensures right' == if stop then right else if further then old(root.left) else old(root)
      ensures !stop ==> right.left == right'
      ensures further ==> old(root.left).right == old(root) && old(root).left == old(root.left.right)
      ensures stop ==> root.left == null
      ensures root.lo == old(root.lo) && root.hi == if stop then old(root.hi) else right'.cname
      ensures !stop ==> root.hi < old(root.hi)
    {
      hide Splaying;
      AroundRoot(node, left, right);
      right', stop, turn := right, false, Turn(true, further);
      if further {
        RotateRight(node, left, right, root.left);
        if root.left == null {
          return true, right, turn;
        }
      }
      right' := LinkLeft(node, left, right);
    }

    /** The mirror image. */
    method DownRight(ghost node: Handle, left: Handle, ghost right: Handle, further: bool)
      returns (stop: bool, left': Handle, ghost turn: Turn)
      requires Splaying(node, left, right) && root.right != null
      requires (left == node || left in nodes) && (right == node || right in nodes)
      modifies `root, nodes`right, nodes`left, nodes`up, nodes`lo, nodes`hi, left`left, left`right
      ensures Splaying(node, left', right) && (left' == node || left' in nodes)
      ensures turn == Turn(false, further) && (stop <==> further && old(root.right.right) == null)
      ensures root == if further && !stop then old(root.right.right) else old(root.right)
      ensures left' == if stop then left else if further then old(root.right) else old(root)
      ensures !stop ==> left.right == left'
      ensures further ==> old(root.right).left == old(root) && old(root).right == old(root.right.left)
      ensures stop ==> root.right == null
      ensures root.hi == old(root.hi) && root.lo == if stop then old(root.lo) else left'.cname
      ensures !stop ==> root.lo > old(root.lo)
    {
      hide Splaying;
      AroundRoot(node, left, right);
      left', stop, turn := left, false, Turn(false, further);
      if further {
        RotateLeft(node, left, right, root.right);
        if root.right == null {
          return true, left, turn;
        }
      }
      left' := LinkRight(node, left, right);
    }

    /** The loop of a splay, from a sentinel node on. */
    method SplayDown(elm: Handle, node: Handle) returns (left: Handle, right: Handle, ghost turns: seq<Turn>)
      requires Splaying(node, node, node) && root.lo < elm.cname < root.hi
      modifies `root, nodes`left, nodes`right, nodes`up, nodes`lo, nodes`hi, node`left, node`right
      ensures Splaying(node, left, right) && Nearest(elm.cname) && ZigZags(turns)
    {
      hide Splaying;
      RootIsInside(node, node, node);
      left, right, turns := node, node, [];
      var comp, stop := Cmp(elm, root), false;
      ghost var turn;
      while comp != 0
        invariant Splaying(node, left, right) && root != null && root.lo < elm.cname < root.hi
        invariant (left == node || left in nodes) && (right == node || right in nodes)
        invariant comp == Cmp(elm, root) && ZigZags(turns)
        invariant turns != [] && !turns[|turns| - 1].rotates ==>
          if turns[|turns| - 1].onLeft then comp >= 0 else comp <= 0
        decreases root.hi - root.lo
      {
        if comp < 0 {
          var tmp := root.left;
          if tmp == null {
            NothingOnThatSide(node, left, right, elm.cname);
            break;
          }
          stop, right, turn := DownLeft(node, left, right, Cmp(elm, tmp) < 0);
        } else if comp > 0 {
          var tmp := root.right;
          if tmp == null {
            NothingOnThatSide(node, left, right, elm.cname);
            break;
          }
          stop, left, turn := DownRight(node, left, right, Cmp(elm, tmp) > 0);
        }
        turns := turns + [turn];
        if stop {
          NothingOnThatSide(node, left, right, elm.cname);
          break;
        }
        comp := Cmp(elm, root);
      }
    }

    method SplayNodes(elm: Handle)
      requires Valid() && root != null
      modifies `root, `lo, `hi, nodes`left, nodes`right, nodes`up, nodes`lo, nodes`hi
      ensures Valid() && Nearest(elm.cname)
      ensures lo < elm.cname < hi && (old(lo) < elm.cname < old(hi) ==> lo == old(lo) && hi == old(hi))
    {
      var node := new Handle(0);
      Open(elm.cname, node);
      var left, right, _ := SplayDown(elm, node);
      Assemble(node, left, right);
    }

    /** The splay moves the handle named elm, or a neighbour of that name, to the
        root, and keeps the order of all handles. */
    method Splay(elm: Handle)
      requires Valid() && root != null
      modifies `root, `lo, `hi, nodes`left, nodes`right, nodes`up, nodes`lo, nodes`hi
      ensures Valid() && Nearest(elm.cname)
      ensures Inorder() == old(Inorder())
      ensures lo < elm.cname < hi && (old(lo) < elm.cname < old(hi) ==> lo == old(lo) && hi == old(hi))
    {
      ghost var before := Inorder();
      InorderLists();
      SplayNodes(elm);
      InorderLists();
      ByNameIsUnique(Inorder(), before);
    }

    lemma NothingOutside(node: Handle, left: Handle, right: Handle, comp: int)
      requires Splaying(node, left, right)
      requires comp < 0 ==> left == node && root.left == null
      requires comp > 0 ==> right == node && root.right == null
      ensures forall n :: n in nodes ==> (comp < 0 ==> root.cname <= n.cname) && (comp > 0 ==> n.cname <= root.cname)
    {
      forall n | n in nodes && n != root && Zone(n) == 0
        ensures comp < 0 ==> root.cname <= n.cname
        ensures comp > 0 ==> n.cname <= root.cname
      {
        assert Placed(n, node, left, right);
        SideOfRoot(node, left, right, n);
      }
    }

    method MinMaxDown(comp: int, node: Handle) returns (left: Handle, right: Handle, ghost turns: seq<Turn>)
      requires Splaying(node, node, node) && comp != 0
      modifies `root, nodes`left, nodes`right, nodes`up, nodes`lo, nodes`hi, node`left, node`right
      ensures Splaying(node, left, right)
      ensures forall i :: 0 <= i < |turns| ==> turns[i] == Turn(comp < 0, true)
      ensures forall n :: n in nodes ==> (comp < 0 ==> root.cname <= n.cname) && (comp > 0 ==> n.cname <= root.cname)
    {
      hide Splaying;
      RootIsInside(node, node, node);
      left, right, turns := node, node, [];
      var stop := false;
      ghost var turn;
      while true
        invariant Splaying(node, left, right) && root != null
        invariant (left == node || left in nodes) && (right == node || right in nodes)
        invariant (comp < 0 ==> left == node) && (comp > 0 ==> right == node)
        invariant forall i :: 0 <= i < |turns| ==> turns[i] == Turn(comp < 0, true)
        decreases root.hi - root.lo
      {
        RootIsInside(node, left, right);
        if comp < 0 {
          if root.left == null {
            NothingOutside(node, left, right, comp);
            break;
          }
          stop, right, turn := DownLeft(node, left, right, true);
        } else if comp > 0 {
          if root.right == null {
            NothingOutside(node, left, right, comp);
            break;
          }
          stop, left, turn := DownRight(node, left, right, true);
        }
        turns := turns + [turn];
        if stop {
          NothingOutside(node, left, right, comp);
          break;
        }
      }
    }

    method MinMaxNodes(comp: int)
      requires Valid() && root != null && comp != 0
      modifies `root, `lo, `hi, nodes`left, nodes`right, nodes`up, nodes`lo, nodes`hi
      ensures Valid() && root != null
      ensures forall n :: n in nodes ==> (comp < 0 ==> root.cname <= n.cname) && (comp > 0 ==> n.cname <= root.cname)
    {
      var node := new Handle(0);
      Open(root.cname, node);
      var left, right, _ := MinMaxDown(comp, node);
      Assemble(node, left, right);
    }

    /** SPLAY_MIN and SPLAY_MAX: the first or the last handle, moved to the root. */
    method MinMax(comp: int) returns (r: Handle?)
      requires Valid() && comp != 0
      modifies `root, `lo, `hi, nodes`left, nodes`right, nodes`up, nodes`lo, nodes`hi
      ensures Valid() && Inorder() == old(Inorder())
      ensures Inorder() == [] ==> r == null
      ensures Inorder() != [] ==> r == Inorder()[if comp < 0 then 0 else |Inorder()| - 1]
    {
      ghost var before := Inorder();
      InorderLists();
      if root == null {
        return null;
      }
      MinMaxNodes(comp);
      InorderLists();
      ByNameIsUnique(Inorder(), before);
      ghost var i := if comp < 0 then 0 else |before| - 1;
      assert root in Elems(before);
      assert before[i] in Elems(before);
      r := root;
    }

    method Find(elm: Handle) returns (r: Handle?)
      requires Valid()
      modifies `root, `lo, `hi, nodes`left, nodes`right, nodes`up, nodes`lo, nodes`hi
      ensures Valid() && Inorder() == old(Inorder())
      ensures r != null ==> r in nodes && r.cname == elm.cname
      ensures r == null ==> forall n :: n in nodes ==> n.cname != elm.cname
    {
      if root == null {
        return null;
      }
      Splay(elm);
      if Cmp(elm, root) == 0 {
        return root;
      }
      return null;
    }

    /** r is what comes after n in s, or null if n is the last. */
    static ghost predicate Follows(s: seq<Handle>, n: Handle, r: Handle?) {
      if r == null then |s| > 0 && s[|s| - 1] == n
      else exists i :: 0 <= i < |s| - 1 && s[i] == n && s[i + 1] == r
    }

    static lemma FollowsAt(s: seq<Handle>, i: int, r: Handle?)
      requires ByName(s) && 0 <= i < |s| && Follows(s, s[i], r)
      ensures r == if i + 1 < |s| then s[i + 1] else null
    {
    }

    method Next(elm: Handle) returns (r: Handle?)
      requires Valid() && elm in nodes
      modifies `root, `lo, `hi, nodes`left, nodes`right, nodes`up, nodes`lo, nodes`hi
      ensures Valid() && Inorder() == old(Inorder())
      ensures Follows(Inorder(), elm, r)
    {
      assert Linked(elm, nodes, root);
      Splay(elm);
      DistinctNames();
      assert root == elm && Linked(elm, nodes, root);
      ghost var l := ListOf(elm.left);
      assert Inorder() == l + [elm] + ListOf(elm.right);
      assert Inorder()[|l|] == elm;
      if elm.right != null {
        r := elm.right;
        while r.left != null
          invariant r in nodes && ListOf(r) <= ListOf(elm.right)
          decreases r.hi - r.lo
        {
          assert Linked(r, nodes, root);
          r := r.left;
        }
        assert Linked(r, nodes, root) && ListOf(r)[0] == r;
        assert Inorder()[|l| + 1] == r;
      } else {
        r := null;
      }
    }

    /** Next, from the i-th handle. */
    method NextAt(elm: Handle, ghost i: int) returns (r: Handle?)
      requires Valid() && 0 <= i < |Inorder()| && elm == Inorder()[i]
      modifies `root, `lo, `hi, nodes`left, nodes`right, nodes`up, nodes`lo, nodes`hi
      ensures Valid() && Inorder() == old(Inorder())
      ensures r == if i + 1 < |Inorder()| then Inorder()[i + 1] else null
    {
      InorderLists();
      assert elm in Elems(Inorder());
      ghost var all := Inorder();
      r := Next(elm);
      FollowsAt(all, i, r);
    }

    /** SPLAY_FOREACH: although each step moves the tree about, every handle is
        visited once, in the order of the names. */
    method Foreach() returns (visited: seq<Handle>)
      requires Valid()
      modifies `root, `lo, `hi, nodes`left, nodes`right, nodes`up, nodes`lo, nodes`hi
      ensures Valid() && Inorder() == old(Inorder())
      ensures visited == Inorder() && ByName(visited) && Elems(visited) == nodes
    {
      visited := [];
      var x := MinMax(-1);
      ghost var all := Inorder();
      while x != null
        invariant Valid() && Inorder() == all
        invariant visited <= all
        invariant x == if |visited| < |all| then all[|visited|] else null
        decreases |all| - |visited|
      {
        visited := visited + [x];
        x := NextAt(x, |visited| - 1);
      }
      InorderLists();
    }

    // ------------------------------------------------------- insertion

    /** elm is put on top: what is before it goes left of it, the rest right. */
    twostate predicate PutOnTop(new elm: Handle, new r: Handle, new tl: Handle?, new tr: Handle?)
      reads this, nodes
    {
      && old(Valid()) && r == old(root) && r in old(nodes) && r.cname != elm.cname
      && (forall n :: n in old(nodes) ==> n.cname < elm.cname || elm.cname < n.cname)
      && (forall n :: n in old(nodes) ==> if elm.cname < r.cname then n.cname < elm.cname || r.cname <= n.cname
                                                                 else n.cname <= r.cname || elm.cname < n.cname)
      && (if elm.cname < r.cname then tl == old(r.left) && tr == r else tl == r && tr == old(r.right))
      && elm !in old(nodes) && nodes == old(nodes) + {elm} && root == elm && lo == old(lo) && hi == old(hi)
        && lo < elm.cname < hi
      && elm.left == tl && elm.right == tr && elm.up == null && elm.lo == lo && elm.hi == hi
      && forall n :: n in old(nodes) ==>
        && n.left == (if n == r && elm.cname < r.cname then null else old(n.left))
        && n.right == (if n == r && elm.cname > r.cname then null else old(n.right))
        && n.up == (if n == tl || n == tr then elm else old(n.up))
        && n.lo == (if n.cname > elm.cname && old(n.lo) < elm.cname then elm.cname else old(n.lo))
        && n.hi == (if n.cname < elm.cname && old(n.hi) > elm.cname then elm.cname else old(n.hi))
    }

    twostate lemma PutOnTopLeft(new elm: Handle, new r: Handle, new tl: Handle?, new tr: Handle?, new n: Handle)
      requires PutOnTop(elm, r, tl, tr) && n in nodes
      requires n != elm && n != r ==> old(n.hi) <= r.cname || r.cname <= old(n.lo)
      ensures lo <= n.lo < n.cname < n.hi <= hi
      ensures n.left != null ==> n.left in nodes && n.left.up == n && n.lo <= n.left.lo && n.left.hi <= n.cname
    {
      assert old(Linked(r, nodes, root));
      assert n != elm ==> old(Linked(n, nodes, root));
      var m := n.left;
      if m != null {
        assert m in old(nodes) && old(Linked(m, nodes, root));
      }
    }

    twostate lemma PutOnTopRight(new elm: Handle, new r: Handle, new tl: Handle?, new tr: Handle?, new n: Handle)
      requires PutOnTop(elm, r, tl, tr) && n in nodes
      requires n != elm && n != r ==> old(n.hi) <= r.cname || r.cname <= old(n.lo)
      ensures n.right != null ==> n.right in nodes && n.right.up == n && n.cname <= n.right.lo && n.right.hi <= n.hi
    {
      assert old(Linked(r, nodes, root));
      assert n != elm ==> old(Linked(n, nodes, root));
      var m := n.right;
      if m != null {
        assert m in old(nodes) && old(Linked(m, nodes, root));
      }
    }

    twostate lemma PutOnTopUp(new elm: Handle, new r: Handle, new tl: Handle?, new tr: Handle?, new n: Handle)
      requires PutOnTop(elm, r, tl, tr) && n in nodes
      ensures n.up == null <==> n == root
      ensures n.up != null ==> n.up in nodes && (n.up.left == n || n.up.right == n)
    {
      assert old(Linked(r, nodes, root));
      assert n != elm ==> old(Linked(n, nodes, root));
    }

    ghost method CutAt(k: int, s: set<Handle>)
      modifies s`lo, s`hi
      ensures forall n :: n in s ==>
        && n.lo == (if n.cname > k && old(n.lo) < k then k else old(n.lo))
        && n.hi == (if n.cname < k && old(n.hi) > k then k else old(n.hi))
    {
      forall n | n in s {
        n.lo := if n.cname > k && n.lo < k then k else n.lo;
      }
      forall n | n in s {
        n.hi := if n.cname < k && n.hi > k then k else n.hi;
      }
    }

    twostate lemma PutOnTopValid(new elm: Handle, new r: Handle, new tl: Handle?, new tr: Handle?)
      requires PutOnTop(elm, r, tl, tr)
      requires forall n :: n in old(nodes) && n != r ==> old(n.hi) <= r.cname || r.cname <= old(n.lo)
      ensures Valid()
    {
      forall n | n in nodes
        ensures Linked(n, nodes, root)
      {
        PutOnTopLeft(elm, r, tl, tr, n);
        PutOnTopRight(elm, r, tl, tr, n);
        PutOnTopUp(elm, r, tl, tr, n);
      }
    }

    /** The root has been splayed next to elm: elm takes its place. */
    method PutAbove(elm: Handle, comp: int)
      requires Valid() && Nearest(elm.cname) && elm !in nodes && comp == Cmp(elm, root) != 0 && lo < elm.cname < hi
      modifies `root, `nodes, nodes`left, nodes`right, nodes`up, nodes`lo, nodes`hi, elm`left, elm`right, elm`up
      modifies elm`lo, elm`hi
      ensures Valid() && nodes == old(nodes) + {elm}
    {
      ghost var r, tl, tr := root, if comp < 0 then root.left else root, if comp < 0 then root else root.right;
      assert Linked(r, nodes, root);
      forall n | n in nodes && n != r
        ensures n.hi <= r.cname || r.cname <= n.lo
      {
        SideOfTop(nodes, r, n);
      }
      if comp < 0 {
        elm.left := root.left;
        elm.right := root;
        root.left := null;
      } else {
        elm.right := root.right;
        elm.left := root;
        root.right := null;
      }
      root := elm;
      MountGhost(elm, tl, tr);
      PutOnTopValid(elm, r, tl, tr);
    }

    ghost method MountGhost(elm: Handle, tl: Handle?, tr: Handle?)
      requires elm !in nodes
      modifies `nodes, nodes`up, nodes`lo, nodes`hi, elm`up, elm`lo, elm`hi
      ensures nodes == old(nodes) + {elm} && elm.up == null && elm.lo == lo && elm.hi == hi
      ensures forall n :: n in old(nodes) ==>
        && n.up == (if n == tl || n == tr then elm else old(n.up))
        && n.lo == (if n.cname > elm.cname && old(n.lo) < elm.cname then elm.cname else old(n.lo))
        && n.hi == (if n.cname < elm.cname && old(n.hi) > elm.cname then elm.cname else old(n.hi))
    {
      CutAt(elm.cname, nodes);
      forall n | n in nodes {
        n.up := if n == tl || n == tr then elm else n.up;
      }
      elm.up, elm.lo, elm.hi := null, lo, hi;
      nodes := nodes + {elm};
    }

    method Insert(elm: Handle) returns (r: Handle?)
      requires Valid()
      modifies `root, `lo, `hi, `nodes, nodes`left, nodes`right, nodes`up, nodes`lo, nodes`hi, elm`left, elm`right
      modifies elm`up, elm`lo, elm`hi
      ensures Valid()
      ensures r == null ==> nodes == old(nodes) + {elm} && forall n :: n in old(nodes) ==> n.cname != elm.cname
      ensures r != null ==> r in nodes && r.cname == elm.cname && nodes == old(nodes)
    {
      if root == null {
        elm.left, elm.right := null, null;
        root := elm;
        lo, hi := elm.cname - 1, elm.cname + 1;
        elm.lo, elm.hi, elm.up := lo, hi, null;
        nodes := {elm};
      } else {
        Splay(elm);
        var comp := Cmp(elm, root);
        if comp == 0 {
          return root;
        }
        PutAbove(elm, comp);
      }
      return null;
    }

    // --------------------------------------------------------- removal

    /** A handle is on the same side of the top as those it is linked to. */
    lemma SameSide(s: set<Handle>, top: Handle, n: Handle)
      requires Tree(s, top) && n in s && n != top
      ensures n.cname != top.cname
      ensures n.left != null ==> (n.left.cname < top.cname) == (n.cname < top.cname)
      ensures n.right != null ==> (n.right.cname < top.cname) == (n.cname < top.cname)
      ensures n.up != null && n.up != top ==> (n.up.cname < top.cname) == (n.cname < top.cname)
      ensures n.up == top <==> n == top.left || n == top.right
      ensures (top.left == null ==> n.cname >= top.cname) && (top.right == null ==> n.cname <= top.cname)
    {
      assert Linked(n, s, top) && Linked(top, s, top) && Linked(n.up, s, top);
      assert n.left != null ==> Linked(n.left, s, top);
      assert n.right != null ==> Linked(n.right, s, top);
      SideOfTop(s, top, n);
      if n.up != top {
        SideOfTop(s, top, n.up);
      }
    }

    /** Without its top, a tree is the two trees below it. */
    lemma TreesBelow(s: set<Handle>, top: Handle)
      requires Tree(s, top)
      ensures forall n :: n in s && n != top ==>
        && n.cname != top.cname
        && (n.left != null ==> (n.left.cname < top.cname) == (n.cname < top.cname))
        && (n.right != null ==> (n.right.cname < top.cname) == (n.cname < top.cname))
        && (n.up != null && n.up != top ==> (n.up.cname < top.cname) == (n.cname < top.cname))
        && (n.up == top <==> n == top.left || n == top.right)
      ensures top.left != null ==> top.left in s && top.left != top && top.left.cname < top.cname
      ensures top.right != null ==>
        top.right in s && top.right != top && top.right.cname > top.cname && top.right.lo >= top.cname
      ensures top.left == null ==> forall n :: n in s ==> n.cname >= top.cname
      ensures top.right == null ==> forall n :: n in s ==> n.cname <= top.cname
    {
      assert Linked(top, s, top);
      assert top.left != null ==> Linked(top.left, s, top);
      assert top.right != null ==> Linked(top.right, s, top);
      hide Tree, Linked;
      forall n | n in s && n != top
        ensures n.cname != top.cname
        ensures n.left != null ==> (n.left.cname < top.cname) == (n.cname < top.cname)
        ensures n.right != null ==> (n.right.cname < top.cname) == (n.cname < top.cname)
        ensures n.up != null && n.up != top ==> (n.up.cname < top.cname) == (n.cname < top.cname)
        ensures n.up == top <==> n == top.left || n == top.right
        ensures (top.left == null ==> n.cname >= top.cname) && (top.right == null ==> n.cname <= top.cname)
      {
        SameSide(s, top, n);
      }
    }

    /** The trees below top, without a parent for their own tops. */
    twostate predicate Beheaded(new s: set<Handle>, new top: Handle)
      requires s <= old(nodes) && top in s
      reads this, s
    {
      && old(Tree(s, top)) && lo == old(lo) && hi == old(hi)
      && forall n :: n in s ==>
        && n.left == old(n.left) && n.right == old(n.right) && n.lo == old(n.lo) && n.hi == old(n.hi)
        && n.up == if n == top.left || n == top.right then null else old(n.up)
    }

    twostate lemma BeheadedLinked(new s: set<Handle>, new t: set<Handle>, new top: Handle, new sub: Handle?,
        new n: Handle)
      requires s <= old(nodes) && top in s && t <= s && n in t && top !in t && Beheaded(s, top)
      requires sub == (if n.cname < top.cname then top.left else top.right)
      requires forall m :: m in s && (m.cname < top.cname) == (n.cname < top.cname) && m != top ==> m in t
      requires n.left != null ==> (n.left.cname < top.cname) == (n.cname < top.cname)
      requires n.right != null ==> (n.right.cname < top.cname) == (n.cname < top.cname)
      requires old(n.up) != null && old(n.up) != top ==> (old(n.up.cname) < top.cname) == (n.cname < top.cname)
      requires old(n.up) == top <==> n == top.left || n == top.right
      requires n == top.left ==> n.cname < top.cname
      requires n == top.right ==> n.cname > top.cname
      ensures Linked(n, t, sub)
    {
      assert old(Linked(n, s, top)) && old(Linked(top, s, top));
      assert n.left != null ==> old(Linked(n.left, s, top));
      assert n.right != null ==> old(Linked(n.right, s, top));
    }

    /** Takes the top out; what is left of s is two trees. */
    ghost method Behead(s: set<Handle>, top: Handle) returns (l: set<Handle>, r: set<Handle>)
      requires Tree(s, top) && s <= nodes
      modifies s`up
      ensures Tree(l, top.left) && Tree(r, top.right)
      ensures l == set n | n in s && n.cname < top.cname
      ensures r == set n | n in s && n.cname > top.cname
      ensures s - {top} == l + r
      ensures top.right != null ==> top.right.lo >= top.cname
    {
      hide Linked;
      TreesBelow(s, top);
      l, r := set n | n in s && n.cname < top.cname, set n | n in s && n.cname > top.cname;
      assert s - {top} == l + r && (top.left != null ==> top.left in l) && (top.right != null ==> top.right in r);
      assert (top.left == null ==> l == {}) && (top.right == null ==> r == {});
      forall n | n in s {
        n.up := if n == top.left || n == top.right then null else n.up;
      }
      forall n | n in s && n != top
        ensures if n.cname < top.cname then Linked(n, l, top.left) else Linked(n, r, top.right)
      {
        if n.cname < top.cname {
          BeheadedLinked(s, l, top, top.left, n);
        } else {
          BeheadedLinked(s, r, top, top.right, n);
        }
      }
    }

    /** Two trees, the first with a top that has nothing right of it, become one. */
    method Join(ghost l: set<Handle>, m: Handle, ghost r: set<Handle>, tmp: Handle?)
      requires Tree(l, m) && Tree(r, tmp) && l !! r && m.right == null
      requires tmp != null ==> tmp.lo >= m.cname
      modifies m`right, m`hi, r`up
      ensures Tree(l + r, m) && m.right == tmp
    {
      assert Linked(m, l, m) && (tmp != null ==> Linked(tmp, r, tmp));
      m.right := tmp;
      m.hi := hi;
      if tmp != null {
        tmp.up := m;
      }
      forall n | n in l
        ensures Linked(n, l + r, m)
      {
        assert old(Linked(n, l, m));
      }
      forall n | n in r
        ensures Linked(n, l + r, m)
      {
        assert old(Linked(n, r, tmp));
      }
    }

    /** The root has been splayed to elm's name: it goes, and the rest is put together. */
    method RemoveRoot(elm: Handle)
      requires Valid() && root != null && root.cname == elm.cname && lo < elm.cname < hi
      modifies `root, `lo, `hi, `nodes, nodes`left, nodes`right, nodes`up, nodes`lo, nodes`hi
      ensures Valid() && nodes == old(nodes) - {old(root)}
    {
      ghost var l, g := Behead(nodes, root);
      if root.left == null {
        root := root.right;
        nodes := g;
      } else {
        var tmp := root.right;
        root := root.left;
        nodes := l;
        SplayNodes(elm);
        assert Linked(root, nodes, root) && (root.right != null ==> Linked(root.right, nodes, root));
        Join(l, root, g, tmp);
        nodes := l + g;
      }
    }

    method Remove(elm: Handle) returns (r: Handle?)
      requires Valid()
      modifies `root, `lo, `hi, `nodes, nodes`left, nodes`right, nodes`up, nodes`lo, nodes`hi
      ensures Valid()
      ensures nodes == set n | n in old(nodes) && n.cname != elm.cname
      ensures r == if nodes == old(nodes) then null else elm
    {
      if root == null {
        return null;
      }
      Splay(elm);
      DistinctNames();
      if Cmp(elm, root) == 0 {
        assert nodes - {root} == set n | n in nodes && n.cname != elm.cname;
        RemoveRoot(elm);
        return elm;
      }
      return null;
    }
  }
}
