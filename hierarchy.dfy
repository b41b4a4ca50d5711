/**
 * The entity hierarchy as a depth-first post-order traversal sees it, and
 * the reference post-order against which the traversal is proved.
 */
module Hierarchy {
  import opened Entities

  /**
   * The part of the world a traversal reads: the `Children` list of every
   * entity that has one, the entities that pass the traversal's query
   * filter, and a ghost height witnessing that the hierarchy has no cycle.
   */
  datatype Hierarchy = Hierarchy(
    children: map<Entity, seq<Entity>>,
    matching: set<Entity>,
    ghost rank: map<Entity, nat>)
  {
    /** The filtered children query succeeds for `e`, so its children are visited. */
    predicate Expands(e: Entity) {
      e in matching && e in children
    }

    /** Every child sits strictly below its parent. */
    ghost predicate Acyclic() {
      forall p | p in children ::
        p in rank && forall c | c in children[p] :: c in rank && rank[c] < rank[p]
    }

    /** The host removes a `Children` component once it becomes empty. */
    ghost predicate NonEmptyChildren() {
      forall p | p in children :: children[p] != []
    }

    /** Every entity is listed at most once, under at most one parent. */
    ghost predicate Forest() {
      forall p, q, i, j |
        p in children && q in children && 0 <= i < |children[p]| && 0 <= j < |children[q]|
        && children[p][i] == children[q][j] :: p == q && i == j
    }

    ghost function Height(e: Entity): nat {
      if e in rank then rank[e] + 1 else 0
    }
  }

  /**
   * The reference post-order of the subtree under `e`: the subtrees of its
   * children, in child order, then `e` itself. Children of an entity that
   * the filter rejects are not visited, although the entity is.
   */
  ghost function Post(h: Hierarchy, e: Entity): seq<Entity>
    requires h.Acyclic()
    decreases h.Height(e), 1, 0
  {
    (if h.Expands(e) then PostFrom(h, e, 0) else []) + [e]
  }

  /** The post-orders of the subtrees of `e`'s children from index `i` on. */
  ghost function PostFrom(h: Hierarchy, e: Entity, i: nat): seq<Entity>
    requires h.Acyclic() && h.Expands(e) && i <= |h.children[e]|
    decreases h.Height(e), 0, |h.children[e]| - i
  {
    if i == |h.children[e]| then []
    else
      assert h.children[e][i] in h.children[e];
      Post(h, h.children[e][i]) + PostFrom(h, e, i + 1)
  }

  /** `x` occurs somewhere before `y` in `s`. */
  ghost predicate Precedes(s: seq<Entity>, x: Entity, y: Entity) {
    exists i, j :: 0 <= i < j < |s| && s[i] == x && s[j] == y
  }

  ghost predicate NoDuplicates(s: seq<Entity>) {
    forall i, j | 0 <= i < j < |s| :: s[i] != s[j]
  }

  /** `p` walks from parent to child through entities whose children are visited. */
  ghost predicate IsPath(h: Hierarchy, p: seq<Entity>) {
    |p| > 0 && forall k | 0 <= k < |p| - 1 :: h.Expands(p[k]) && p[k + 1] in h.children[p[k]]
  }

  lemma PrecedesLeft(a: seq<Entity>, b: seq<Entity>, x: Entity, y: Entity)
    requires Precedes(a, x, y)
    ensures Precedes(a + b, x, y)
  {
    var i, j :| 0 <= i < j < |a| && a[i] == x && a[j] == y;
    assert (a + b)[i] == x && (a + b)[j] == y;
  }

  lemma PrecedesRight(a: seq<Entity>, b: seq<Entity>, x: Entity, y: Entity)
    requires Precedes(b, x, y)
    ensures Precedes(a + b, x, y)
  {
    var i, j :| 0 <= i < j < |b| && b[i] == x && b[j] == y;
    assert (a + b)[|a| + i] == x && (a + b)[|a| + j] == y;
  }

  lemma PrecedesAcross(a: seq<Entity>, b: seq<Entity>, x: Entity, y: Entity)
    requires x in a && y in b
    ensures Precedes(a + b, x, y)
  {
    var i :| 0 <= i < |a| && a[i] == x;
    var j :| 0 <= j < |b| && b[j] == y;
    assert (a + b)[i] == x && (a + b)[|a| + j] == y;
  }

  /** An entity is in the children's post-orders iff it is in one child's subtree. */
  lemma {:induction false} InPostFrom(h: Hierarchy, e: Entity, i: nat, x: Entity)
    requires h.Acyclic() && h.Expands(e) && i <= |h.children[e]|
    ensures x in PostFrom(h, e, i) <==>
      exists k :: i <= k < |h.children[e]| && x in Post(h, h.children[e][k])
    decreases |h.children[e]| - i
  {
    if i < |h.children[e]| {
      InPostFrom(h, e, i + 1, x);
    }
  }

  /** The root of a subtree is yielded last. */
  lemma RootLast(h: Hierarchy, e: Entity)
    requires h.Acyclic()
    ensures |Post(h, e)| > 0 && Post(h, e)[|Post(h, e)| - 1] == e
  {
  }

  /**
   * Post-order: every child of a visited entity whose children are visited
   * comes before that entity.
   */
  lemma {:induction false} ChildrenFirst(h: Hierarchy, e: Entity)
    requires h.Acyclic()
    ensures forall y, c | y in Post(h, e) && h.Expands(y) && c in h.children[y] ::
      Precedes(Post(h, e), c, y)
    decreases h.Height(e), 1, 0
  {
    if h.Expands(e) {
      var pf := PostFrom(h, e, 0);
      assert Post(h, e) == pf + [e];
      ChildrenFirstFrom(h, e, 0);
      forall y, c | y in Post(h, e) && h.Expands(y) && c in h.children[y]
        ensures Precedes(Post(h, e), c, y)
      {
        if y in pf {
          PrecedesLeft(pf, [e], c, y);
        } else {
          assert y == e;
          var k :| 0 <= k < |h.children[e]| && h.children[e][k] == c;
          RootLast(h, c);
          InPostFrom(h, e, 0, c);
          PrecedesAcross(pf, [e], c, e);
        }
      }
    }
  }

  lemma {:induction false} ChildrenFirstFrom(h: Hierarchy, e: Entity, i: nat)
    requires h.Acyclic() && h.Expands(e) && i <= |h.children[e]|
    ensures forall y, c | y in PostFrom(h, e, i) && h.Expands(y) && c in h.children[y] ::
      Precedes(PostFrom(h, e, i), c, y)
    decreases h.Height(e), 0, |h.children[e]| - i
  {
    if i < |h.children[e]| {
      var child := h.children[e][i];
      assert child in h.children[e];
      var head, tail := Post(h, child), PostFrom(h, e, i + 1);
      ChildrenFirst(h, child);
      ChildrenFirstFrom(h, e, i + 1);
      forall y, c | y in head + tail && h.Expands(y) && c in h.children[y]
        ensures Precedes(head + tail, c, y)
      {
        if y in head {
          PrecedesLeft(head, tail, c, y);
        } else {
          PrecedesRight(head, tail, c, y);
        }
      }
    }
  }

  /** A path from a child of an expanded entity extends to a path from that entity. */
  lemma PrependPath(h: Hierarchy, r: Entity, p: seq<Entity>)
    requires IsPath(h, p) && h.Expands(r) && p[0] in h.children[r]
    ensures IsPath(h, [r] + p)
  {
    var q := [r] + p;
    forall m | 0 <= m < |q| - 1
      ensures h.Expands(q[m]) && q[m + 1] in h.children[q[m]]
    {
      if m > 0 {
        assert q[m] == p[m - 1] && q[m + 1] == p[m];
      }
    }
  }

  /** Every entity yielded is reachable from the root through visited parents. */
  lemma {:induction false} PostReachable(h: Hierarchy, r: Entity, x: Entity)
    requires h.Acyclic() && x in Post(h, r)
    ensures exists p :: IsPath(h, p) && p[0] == r && p[|p| - 1] == x
    decreases h.Height(r)
  {
    if x == r {
      assert IsPath(h, [r]);
    } else {
      assert h.Expands(r) && x in PostFrom(h, r, 0);
      InPostFrom(h, r, 0, x);
      var k :| 0 <= k < |h.children[r]| && x in Post(h, h.children[r][k]);
      var c := h.children[r][k];
      assert c in h.children[r];
      PostReachable(h, c, x);
      var p :| IsPath(h, p) && p[0] == c && p[|p| - 1] == x;
      PrependPath(h, r, p);
      assert ([r] + p)[|[r] + p| - 1] == x;
    }
  }

  /** Every entity reachable from the root through visited parents is yielded. */
  lemma {:induction false} ReachableInPost(h: Hierarchy, p: seq<Entity>)
    requires h.Acyclic() && IsPath(h, p)
    ensures p[|p| - 1] in Post(h, p[0])
    decreases |p|
  {
    if |p| > 1 {
      var tail := p[1..];
      assert IsPath(h, tail) by {
        assert forall m | 0 <= m < |tail| :: tail[m] == p[m + 1];
      }
      ReachableInPost(h, tail);
      assert h.Expands(p[0]) && p[1] in h.children[p[0]];
      var k :| 0 <= k < |h.children[p[0]]| && h.children[p[0]][k] == p[1];
      InPostFrom(h, p[0], 0, p[|p| - 1]);
    }
  }

  /** Subtrees of siblings are yielded in the order of the `Children` list. */
  lemma SiblingOrder(h: Hierarchy, e: Entity, k1: nat, k2: nat, x: Entity, y: Entity)
    requires h.Acyclic() && h.Expands(e) && k1 < k2 < |h.children[e]|
    requires x in Post(h, h.children[e][k1]) && y in Post(h, h.children[e][k2])
    ensures Precedes(Post(h, e), x, y)
  {
    SiblingOrderFrom(h, e, 0, k1, k2, x, y);
    PrecedesLeft(PostFrom(h, e, 0), [e], x, y);
  }

  lemma {:induction false} SiblingOrderFrom(h: Hierarchy, e: Entity, i: nat, k1: nat, k2: nat, x: Entity, y: Entity)
    requires h.Acyclic() && h.Expands(e) && i <= k1 < k2 < |h.children[e]|
    requires x in Post(h, h.children[e][k1]) && y in Post(h, h.children[e][k2])
    ensures Precedes(PostFrom(h, e, i), x, y)
    decreases k1 - i
  {
    var head, tail := Post(h, h.children[e][i]), PostFrom(h, e, i + 1);
    if i == k1 {
      InPostFrom(h, e, i + 1, y);
      PrecedesAcross(head, tail, x, y);
    } else {
      SiblingOrderFrom(h, e, i + 1, k1, k2, x, y);
      PrecedesRight(head, tail, x, y);
    }
  }

  /** Entities of a subtree sit at or below its root. */
  lemma {:induction false} HeightBound(h: Hierarchy, a: Entity, y: Entity)
    requires h.Acyclic() && y in Post(h, a)
    ensures h.Height(y) <= h.Height(a)
    ensures y != a ==> h.Height(y) < h.Height(a)
    decreases h.Height(a)
  {
    if y != a {
      InPostFrom(h, a, 0, y);
      var k :| 0 <= k < |h.children[a]| && y in Post(h, h.children[a][k]);
      assert h.children[a][k] in h.children[a];
      HeightBound(h, h.children[a][k], y);
    }
  }

  /** Every entity of a subtree other than its root is yielded with its parent. */
  lemma {:induction false} ParentInSubtree(h: Hierarchy, a: Entity, x: Entity)
    requires h.Acyclic() && x in Post(h, a) && x != a
    ensures exists p :: p in Post(h, a) && h.Expands(p) && x in h.children[p]
    decreases h.Height(a)
  {
    InPostFrom(h, a, 0, x);
    var k :| 0 <= k < |h.children[a]| && x in Post(h, h.children[a][k]);
    var c := h.children[a][k];
    assert c in h.children[a];
    InPostFrom(h, a, 0, c);
    RootLast(h, c);
    if x == c {
      RootLast(h, a);
    } else {
      ParentInSubtree(h, c, x);
      var p :| p in Post(h, c) && h.Expands(p) && x in h.children[p];
      InPostFrom(h, a, 0, p);
    }
  }

  /** In a forest, two subtrees that share an entity are nested. */
  lemma {:induction false} Nested(h: Hierarchy, a: Entity, b: Entity, x: Entity)
    requires h.Acyclic() && h.Forest() && x in Post(h, a) && x in Post(h, b)
    ensures a in Post(h, b) || b in Post(h, a)
    decreases h.Height(a) - h.Height(x)
  {
    HeightBound(h, a, x);
    if x == a || x == b {
    } else {
      ParentInSubtree(h, a, x);
      var p :| p in Post(h, a) && h.Expands(p) && x in h.children[p];
      ParentInSubtree(h, b, x);
      var q :| q in Post(h, b) && h.Expands(q) && x in h.children[q];
      var i :| 0 <= i < |h.children[p]| && h.children[p][i] == x;
      var j :| 0 <= j < |h.children[q]| && h.children[q][j] == x;
      assert p == q;
      HeightBound(h, a, p);
      Nested(h, a, b, p);
    }
  }

  /** Subtrees of two different children of `e` share no entity. */
  lemma SiblingsDisjoint(h: Hierarchy, e: Entity, k1: nat, k2: nat, x: Entity)
    requires h.Acyclic() && h.Forest() && h.Expands(e)
    requires k1 < |h.children[e]| && k2 < |h.children[e]| && k1 != k2
    ensures !(x in Post(h, h.children[e][k1]) && x in Post(h, h.children[e][k2]))
  {
    var c1, c2 := h.children[e][k1], h.children[e][k2];
    if x in Post(h, c1) && x in Post(h, c2) {
      assert c1 != c2;
      Nested(h, c1, c2, x);
      if c1 in Post(h, c2) {
        InsideSibling(h, e, k1, k2);
      } else {
        InsideSibling(h, e, k2, k1);
      }
    }
  }

  /** A child of `e` never lies in the subtree of a different child of `e`. */
  lemma InsideSibling(h: Hierarchy, e: Entity, k1: nat, k2: nat)
    requires h.Acyclic() && h.Forest() && h.Expands(e)
    requires k1 < |h.children[e]| && k2 < |h.children[e]| && k1 != k2
    ensures h.children[e][k1] !in Post(h, h.children[e][k2])
  {
    var c1, c2 := h.children[e][k1], h.children[e][k2];
    if c1 in Post(h, c2) {
      assert c1 != c2;
      ParentInSubtree(h, c2, c1);
      var p :| p in Post(h, c2) && h.Expands(p) && c1 in h.children[p];
      var i :| 0 <= i < |h.children[p]| && h.children[p][i] == c1;
      assert p == e;
      assert c2 in h.children[e];
      HeightBound(h, c2, e);
    }
  }

  lemma NoDuplicatesConcat(a: seq<Entity>, b: seq<Entity>)
    requires NoDuplicates(a) && NoDuplicates(b)
    requires forall x | x in a :: x !in b
    ensures NoDuplicates(a + b)
  {
    forall i, j | 0 <= i < j < |a + b| ensures (a + b)[i] != (a + b)[j] {
      if j >= |a| && i < |a| {
        assert (a + b)[i] in a && (a + b)[j] == b[j - |a|];
      }
    }
  }

  /** In a forest, a traversal yields no entity twice. */
  lemma {:induction false} PostNoDuplicates(h: Hierarchy, e: Entity)
    requires h.Acyclic() && h.Forest()
    ensures NoDuplicates(Post(h, e))
    decreases h.Height(e), 1, 0
  {
    if h.Expands(e) {
      var pf := PostFrom(h, e, 0);
      PostFromNoDuplicates(h, e, 0);
      forall x | x in pf ensures x !in [e] {
        InPostFrom(h, e, 0, x);
        var k :| 0 <= k < |h.children[e]| && x in Post(h, h.children[e][k]);
        assert h.children[e][k] in h.children[e];
        HeightBound(h, h.children[e][k], x);
      }
      NoDuplicatesConcat(pf, [e]);
    }
  }

  lemma {:induction false} PostFromNoDuplicates(h: Hierarchy, e: Entity, i: nat)
    requires h.Acyclic() && h.Forest() && h.Expands(e) && i <= |h.children[e]|
    ensures NoDuplicates(PostFrom(h, e, i))
    decreases h.Height(e), 0, |h.children[e]| - i
  {
    if i < |h.children[e]| {
      var c := h.children[e][i];
      assert c in h.children[e];
      PostNoDuplicates(h, c);
      PostFromNoDuplicates(h, e, i + 1);
      forall x | x in Post(h, c) ensures x !in PostFrom(h, e, i + 1) {
        InPostFrom(h, e, i + 1, x);
        if x in PostFrom(h, e, i + 1) {
          var k :| i + 1 <= k < |h.children[e]| && x in Post(h, h.children[e][k]);
          SiblingsDisjoint(h, e, i, k, x);
        }
      }
      NoDuplicatesConcat(Post(h, c), PostFrom(h, e, i + 1));
    }
  }

  /**
   * The filter decides expansion only: in a forest, an entity other than the
   * root is yielded only if its parent passes the filter and is yielded.
   */
  lemma FilterStopsDescent(h: Hierarchy, r: Entity, p: Entity, x: Entity)
    requires h.Acyclic() && h.Forest()
    requires p in h.children && x in h.children[p] && x != r && x in Post(h, r)
    ensures p in h.matching && p in Post(h, r)
  {
    ParentInSubtree(h, r, x);
    var q :| q in Post(h, r) && h.Expands(q) && x in h.children[q];
    var i :| 0 <= i < |h.children[p]| && h.children[p][i] == x;
    var j :| 0 <= j < |h.children[q]| && h.children[q][j] == x;
  }
}
