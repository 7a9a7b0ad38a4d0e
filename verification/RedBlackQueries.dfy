/** Lookup and traversal in a red-black tree. None of these changes the tree. */
module RedBlackQueries {
  import opened RedBlackTree
  import opened RedBlackShape

  /** The node with elm's key. It takes no more steps than the tree is high. */
  method Find(t: Tree, elm: Node) returns (r: Node?, ghost steps: nat)
    requires t.Valid()
    ensures r != null ==> r in t.nodes && r.key == elm.key
    ensures r == null ==> forall n :: n in t.nodes ==> n.key != elm.key
    ensures steps == Comparisons(ShapeOf(t, t.root), elm.key) <= Height(ShapeOf(t, t.root))
  {
    var tmp := t.root;
    steps := 0;
    forall n | n in t.nodes && n.key == elm.key
      ensures t.root != null && t.Above(t.root, n)
    {
      t.RootAbove(n);
    }
    while tmp != null
      invariant tmp != null ==> tmp in t.nodes
      invariant forall n :: n in t.nodes && n.key == elm.key ==> tmp != null && t.Above(tmp, n)
      invariant steps + Comparisons(ShapeOf(t, tmp), elm.key) == Comparisons(ShapeOf(t, t.root), elm.key)
      decreases if tmp == null then 0 else tmp.hi - tmp.lo
    {
      assert t.Linked(tmp) && (tmp.left != null ==> t.Linked(tmp.left)) && (tmp.right != null ==> t.Linked(tmp.right));
      forall n | n in t.nodes && n.key == elm.key
        ensures n.key < tmp.key ==> tmp.left != null && t.Above(tmp.left, n)
        ensures n.key > tmp.key ==> tmp.right != null && t.Above(tmp.right, n)
      {
        t.Split(tmp, n);
      }
      steps := steps + 1;
      var comp := Cmp(elm, tmp);
      if comp < 0 {
        tmp := tmp.left;
      } else if comp > 0 {
        tmp := tmp.right;
      } else {
        return tmp, steps;
      }
    }
    r := null;
  }

  /** The node with the least key not below elm's. */
  method NFind(t: Tree, elm: Node) returns (r: Node?, ghost steps: nat)
    requires t.Valid()
    ensures r != null ==> r in t.nodes && elm.key <= r.key
    ensures r != null ==> forall n :: n in t.nodes && elm.key <= n.key ==> r.key <= n.key
    ensures r == null ==> forall n :: n in t.nodes ==> n.key < elm.key
    ensures steps == Comparisons(ShapeOf(t, t.root), elm.key) <= Height(ShapeOf(t, t.root))
  {
    var tmp := t.root;
    var res: Node? := null;
    steps := 0;
    forall n | n in t.nodes
      ensures t.root != null && t.Above(t.root, n)
    {
      t.RootAbove(n);
    }
    while tmp != null
      invariant tmp != null ==> tmp in t.nodes
      invariant res != null ==> res in t.nodes && elm.key < res.key && (tmp != null ==> tmp.hi <= res.key)
      invariant forall n :: n in t.nodes && elm.key <= n.key ==>
        (tmp != null && t.Above(tmp, n)) || (res != null && res.key <= n.key)
      invariant steps + Comparisons(ShapeOf(t, tmp), elm.key) == Comparisons(ShapeOf(t, t.root), elm.key)
      decreases if tmp == null then 0 else tmp.hi - tmp.lo
    {
      assert t.Linked(tmp) && (tmp.left != null ==> t.Linked(tmp.left)) && (tmp.right != null ==> t.Linked(tmp.right));
      forall n | n in t.nodes && t.Above(tmp, n)
        ensures n.key < tmp.key ==> tmp.left != null && t.Above(tmp.left, n)
        ensures n.key > tmp.key ==> tmp.right != null && t.Above(tmp.right, n)
        ensures n.key < tmp.hi
      {
        t.Split(tmp, n);
        t.Within(tmp, n);
      }
      steps := steps + 1;
      var comp := Cmp(elm, tmp);
      if comp < 0 {
        res := tmp;
        tmp := tmp.left;
      } else if comp > 0 {
        tmp := tmp.right;
      } else {
        return tmp, steps;
      }
    }
    r := res;
  }

  // ---------------------------------------------------------- neighbours

  ghost predicate IsNext(t: Tree, n: Node, r: Node?)
    reads t
  {
    if r == null then forall m :: m in t.nodes ==> m.key <= n.key
    else r in t.nodes && n.key < r.key && forall m :: m in t.nodes ==> m.key <= n.key || r.key <= m.key
  }

  ghost predicate IsPrev(t: Tree, n: Node, r: Node?)
    reads t
  {
    if r == null then forall m :: m in t.nodes ==> n.key <= m.key
    else r in t.nodes && r.key < n.key && forall m :: m in t.nodes ==> m.key <= r.key || n.key <= m.key
  }

  /** A node's neighbours are unique, and next and previous undo each other. */
  lemma NeighboursAreInverse(t: Tree, n: Node, r: Node, x: Node?)
    requires t.Searchable() && n in t.nodes && r in t.nodes
    ensures IsNext(t, n, r) <==> IsPrev(t, r, n)
    ensures IsNext(t, n, r) && IsNext(t, n, x) ==> x == r
    ensures IsPrev(t, n, r) && IsPrev(t, n, x) ==> x == r
  {
    t.DistinctKeys();
  }

  /** No node lies between the last node below its subtree and the ancestor it hangs left of. */
  lemma NoneBetweenUp(t: Tree, e: Node, n: Node)
    requires t.Searchable() && e in t.nodes && n in t.nodes && t.Above(e, n)
    requires forall m :: m in t.nodes && t.Above(e, m) ==> m.key <= n.key
    ensures e.parent == null ==> IsNext(t, n, null)
    ensures e.parent != null && e == e.parent.left ==> IsNext(t, n, e.parent)
  {
    assert t.Linked(e);
    t.Within(e, n);
    forall m | m in t.nodes
      ensures e.parent == null ==> m.key <= n.key
      ensures e.parent != null && e == e.parent.left ==> m.key <= n.key || e.parent.key <= m.key
    {
      t.RootAbove(m);
      if e.parent != null && e == e.parent.left {
        assert t.Linked(e.parent);
        t.Outside(e.parent, m);
        if t.Above(e.parent, m) {
          t.Split(e.parent, m);
        }
      }
    }
    if e.parent != null {
      assert t.Linked(e.parent);
    }
  }

  method Next(t: Tree, elm0: Node) returns (r: Node?)
    requires t.Searchable() && elm0 in t.nodes
    ensures IsNext(t, elm0, r)
  {
    var elm := elm0;
    if elm.right != null {
      r := t.Leftmost(elm);
    } else {
      forall m | m in t.nodes && t.Above(elm, m)
        ensures m.key <= elm0.key
      {
        t.Split(elm, m);
      }
      assert t.Above(elm, elm0);
      if elm.parent != null && elm == elm.parent.left {
        NoneBetweenUp(t, elm, elm0);
        r := elm.parent;
      } else {
        while elm.parent != null && elm == elm.parent.right
          invariant elm in t.nodes && t.Above(elm, elm0)
          invariant forall m :: m in t.nodes && t.Above(elm, m) ==> m.key <= elm0.key
          decreases t.hi - t.lo - (elm.hi - elm.lo)
        {
          assert t.Linked(elm) && t.Linked(elm.parent);
          AboveTrans(t, elm.parent, elm, elm0);
          t.Within(elm, elm0);
          forall m | m in t.nodes && t.Above(elm.parent, m)
            ensures m.key <= elm0.key
          {
            t.Split(elm.parent, m);
          }
          elm := elm.parent;
        }
        assert t.Linked(elm);
        NoneBetweenUp(t, elm, elm0);
        r := elm.parent;
      }
    }
  }

  lemma NoneBetweenDown(t: Tree, e: Node, n: Node)
    requires t.Searchable() && e in t.nodes && n in t.nodes && t.Above(e, n)
    requires forall m :: m in t.nodes && t.Above(e, m) ==> n.key <= m.key
    ensures e.parent == null ==> IsPrev(t, n, null)
    ensures e.parent != null && e == e.parent.right ==> IsPrev(t, n, e.parent)
  {
    assert t.Linked(e);
    t.Within(e, n);
    forall m | m in t.nodes
      ensures e.parent == null ==> n.key <= m.key
      ensures e.parent != null && e == e.parent.right ==> m.key <= e.parent.key || n.key <= m.key
    {
      t.RootAbove(m);
      if e.parent != null && e == e.parent.right {
        assert t.Linked(e.parent);
        t.Outside(e.parent, m);
        if t.Above(e.parent, m) {
          t.Split(e.parent, m);
        }
      }
    }
    if e.parent != null {
      assert t.Linked(e.parent);
    }
  }

  /** The rightmost node left of z, which is z's predecessor. */
  method Rightmost(t: Tree, z: Node) returns (e: Node)
    requires t.Searchable() && z in t.nodes && z.left != null
    ensures IsPrev(t, z, e)
  {
    assert t.Linked(z);
    e := z.left;
    assert t.Linked(e) && t.Above(e, e);
    forall n | n in t.nodes && n.key < z.key
      ensures t.Above(e, n) || n.key <= e.lo
    {
      t.Outside(z, n);
      if t.Above(z, n) {
        t.Split(z, n);
      }
    }
    while e.right != null
      invariant e in t.nodes && e.hi <= z.key
      invariant forall n :: n in t.nodes && n.key < z.key ==> t.Above(e, n) || n.key <= e.lo
      decreases e.hi - e.lo
    {
      assert t.Linked(e) && t.Linked(e.right);
      forall n | n in t.nodes && n.key < z.key
        ensures t.Above(e.right, n) || n.key <= e.right.lo
      {
        if t.Above(e, n) {
          t.Split(e, n);
        }
      }
      e := e.right;
    }
    assert t.Linked(e);
    forall n | n in t.nodes && n.key < z.key
      ensures n.key <= e.key
    {
      if t.Above(e, n) {
        t.Split(e, n);
      }
    }
  }

  method Prev(t: Tree, elm0: Node) returns (r: Node?)
    requires t.Searchable() && elm0 in t.nodes
    ensures IsPrev(t, elm0, r)
  {
    var elm := elm0;
    if elm.left != null {
      r := Rightmost(t, elm);
    } else {
      forall m | m in t.nodes && t.Above(elm, m)
        ensures elm0.key <= m.key
      {
        t.Split(elm, m);
      }
      assert t.Above(elm, elm0);
      if elm.parent != null && elm == elm.parent.right {
        NoneBetweenDown(t, elm, elm0);
        r := elm.parent;
      } else {
        while elm.parent != null && elm == elm.parent.left
          invariant elm in t.nodes && t.Above(elm, elm0)
          invariant forall m :: m in t.nodes && t.Above(elm, m) ==> elm0.key <= m.key
          decreases t.hi - t.lo - (elm.hi - elm.lo)
        {
          assert t.Linked(elm) && t.Linked(elm.parent);
          AboveTrans(t, elm.parent, elm, elm0);
          t.Within(elm, elm0);
          forall m | m in t.nodes && t.Above(elm.parent, m)
            ensures elm0.key <= m.key
          {
            t.Split(elm.parent, m);
          }
          elm := elm.parent;
        }
        assert t.Linked(elm);
        NoneBetweenDown(t, elm, elm0);
        r := elm.parent;
      }
    }
  }

  /** The first node if val is negative, and the last one otherwise. */
  method MinMax(t: Tree, val: int) returns (r: Node?)
    requires t.Searchable()
    ensures r == null <==> t.nodes == {}
    ensures r != null ==> r in t.nodes && if val < 0 then IsPrev(t, r, null) else IsNext(t, r, null)
  {
    var tmp := t.root;
    var parent: Node? := null;
    forall n | n in t.nodes
      ensures t.root != null && t.Above(t.root, n)
    {
      t.RootAbove(n);
    }
    while tmp != null
      invariant tmp != null ==> tmp in t.nodes
      invariant parent != null ==> parent in t.nodes
      invariant parent == null ==> tmp == t.root
      invariant parent != null && tmp != null ==> if val < 0 then tmp.hi <= parent.key else parent.key <= tmp.lo
      invariant forall n :: n in t.nodes ==>
        || (tmp != null && t.Above(tmp, n))
        || (parent != null && if val < 0 then parent.key <= n.key else n.key <= parent.key)
      decreases if tmp == null then 0 else tmp.hi - tmp.lo
    {
      assert t.Linked(tmp) && (tmp.left != null ==> t.Linked(tmp.left)) && (tmp.right != null ==> t.Linked(tmp.right));
      forall n | n in t.nodes && t.Above(tmp, n)
        ensures n.key < tmp.key ==> tmp.left != null && t.Above(tmp.left, n)
        ensures n.key > tmp.key ==> tmp.right != null && t.Above(tmp.right, n)
      {
        t.Split(tmp, n);
      }
      parent := tmp;
      if val < 0 {
        tmp := tmp.left;
      } else {
        tmp := tmp.right;
      }
    }
    r := parent;
  }

  // ------------------------------------------------------------ traversal

  /** The iteration RB_FOREACH: every node once, in ascending order. */
  method Foreach(t: Tree) returns (visited: seq<Node>)
    requires t.Searchable()
    ensures forall i, j :: 0 <= i < j < |visited| ==> visited[i].key < visited[j].key
    ensures forall n :: n in visited <==> n in t.nodes
  {
    hide Tree.Searchable;
    visited := [];
    ghost var ahead := t.nodes;
    var x := MinMax(t, -1);
    while x != null
      invariant x != null ==> x in t.nodes
      invariant forall i, j :: 0 <= i < j < |visited| ==> visited[i].key < visited[j].key
      invariant forall n :: n in visited <==> n in t.nodes && (x != null ==> n.key < x.key)
      invariant x != null ==> forall n :: n in t.nodes && n.key >= x.key ==> n in ahead
      decreases ahead
    {
      ghost var before := visited;
      visited := visited + [x];
      assert forall n :: n in visited <==> n in before || n == x;
      ahead := ahead - {x};
      t.DistinctKeys();
      x := Next(t, x);
    }
  }

  method ForeachReverse(t: Tree) returns (visited: seq<Node>)
    requires t.Searchable()
    ensures forall i, j :: 0 <= i < j < |visited| ==> visited[i].key > visited[j].key
    ensures forall n :: n in visited <==> n in t.nodes
  {
    hide Tree.Searchable;
    visited := [];
    ghost var ahead := t.nodes;
    var x := MinMax(t, 1);
    while x != null
      invariant x != null ==> x in t.nodes
      invariant forall i, j :: 0 <= i < j < |visited| ==> visited[i].key > visited[j].key
      invariant forall n :: n in visited <==> n in t.nodes && (x != null ==> n.key > x.key)
      invariant x != null ==> forall n :: n in t.nodes && n.key <= x.key ==> n in ahead
      decreases ahead
    {
      ghost var before := visited;
      visited := visited + [x];
      assert forall n :: n in visited <==> n in before || n == x;
      ahead := ahead - {x};
      t.DistinctKeys();
      x := Prev(t, x);
    }
  }
}
