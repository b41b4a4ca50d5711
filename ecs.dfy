/**
 * ECS utilities: the depth-first post-order traversal of the hierarchy,
 * the cached closest-ancestor query, and the run-once command.
 */
module Ecs {
  import opened Wrappers
  import opened Entities
  import opened Hierarchy

  /** `cs` tagged with depth `d`, as the traversal queues children. */
  function Tag(cs: seq<Entity>, d: nat): (r: seq<(nat, Entity)>)
    ensures |r| == |cs| && forall k | 0 <= k < |cs| :: r[k] == (d, cs[k])
  {
    seq(|cs|, k requires 0 <= k < |cs| => (d, cs[k]))
  }

  /**
   * What the traversal still has to yield, given the queue split at the
   * visited count: `stack` holds the entities on the path from the root
   * (entry `k` at depth `k`), `rest` the entities not yet visited. An
   * unvisited entry at the depth just below the stack is a whole subtree
   * still to come; otherwise the top of the stack is yielded next.
   */
  ghost function Pending(h: Hierarchy, stack: seq<(nat, Entity)>, rest: seq<(nat, Entity)>): seq<Entity>
    requires h.Acyclic()
    decreases |stack| + |rest|
  {
    if rest != [] && rest[0].0 == |stack| then Post(h, rest[0].1) + Pending(h, stack, rest[1..])
    else if stack != [] then [stack[|stack| - 1].1] + Pending(h, stack[..|stack| - 1], rest)
    else []
  }

  lemma {:induction false} PendingChildren(h: Hierarchy, stack: seq<(nat, Entity)>, e: Entity, i: nat, rest: seq<(nat, Entity)>)
    requires h.Acyclic() && h.Expands(e) && i <= |h.children[e]|
    requires rest == [] || rest[0].0 != |stack|
    ensures Pending(h, stack, Tag(h.children[e][i..], |stack|) + rest)
         == PostFrom(h, e, i) + Pending(h, stack, rest)
    decreases |h.children[e]| - i
  {
    var cs := h.children[e];
    var q := Tag(cs[i..], |stack|) + rest;
    if i < |cs| {
      assert q[0] == (|stack|, cs[i]);
      assert q[1..] == Tag(cs[i + 1..], |stack|) + rest;
      PendingChildren(h, stack, e, i + 1, rest);
    } else {
      assert q == rest;
    }
  }

  /** With no subtree waiting at the next depth, the top of the stack comes next. */
  lemma {:induction false} PendingPop(h: Hierarchy, stack: seq<(nat, Entity)>, rest: seq<(nat, Entity)>)
    requires h.Acyclic() && stack != []
    requires rest == [] || rest[0].0 < |stack|
    ensures Pending(h, stack, rest) == [stack[|stack| - 1].1] + Pending(h, stack[..|stack| - 1], rest)
  {
  }

  /** A subtree waiting at the next depth comes next. */
  lemma {:induction false} PendingSubtree(h: Hierarchy, stack: seq<(nat, Entity)>, e: Entity, rest: seq<(nat, Entity)>)
    requires h.Acyclic()
    ensures Pending(h, stack, [(|stack|, e)] + rest) == Post(h, e) + Pending(h, stack, rest)
  {
    assert ([(|stack|, e)] + rest)[1..] == rest;
  }

  /** The post-order of an entity whose children are visited, split at the entity. */
  lemma PostExpanded(h: Hierarchy, e: Entity)
    requires h.Acyclic() && h.Expands(e)
    ensures Post(h, e) == PostFrom(h, e, 0) + [e]
  {
  }

  /** All of an entity's children, queued at the next depth, yield their subtrees in order. */
  lemma {:induction false} PendingAllChildren(h: Hierarchy, stack: seq<(nat, Entity)>, e: Entity, rest: seq<(nat, Entity)>)
    requires h.Acyclic() && h.Expands(e) && stack != []
    requires rest == [] || rest[0].0 < |stack|
    ensures Pending(h, stack, Tag(h.children[e], |stack|) + rest)
         == PostFrom(h, e, 0) + Pending(h, stack, rest)
  {
    assert h.children[e][0..] == h.children[e];
    PendingChildren(h, stack, e, 0, rest);
  }

  /** Visiting an entity whose children are visited queues them right after it. */
  lemma {:induction false} PendingExpand(h: Hierarchy, stack: seq<(nat, Entity)>, e: Entity, rest: seq<(nat, Entity)>)
    requires h.Acyclic() && h.Expands(e)
    requires rest == [] || rest[0].0 <= |stack|
    ensures Pending(h, stack + [(|stack|, e)], Tag(h.children[e], |stack| + 1) + rest)
         == Pending(h, stack, [(|stack|, e)] + rest)
  {
    var s1 := stack + [(|stack|, e)];
    var before, after := PostFrom(h, e, 0), Pending(h, stack, rest);
    assert Pending(h, s1, Tag(h.children[e], |stack| + 1) + rest) == before + Pending(h, s1, rest) by {
      PendingAllChildren(h, s1, e, rest);
    }
    assert Pending(h, s1, rest) == [e] + after by {
      assert s1[..|s1| - 1] == stack;
      PendingPop(h, s1, rest);
    }
    assert Pending(h, stack, [(|stack|, e)] + rest) == (before + [e]) + after by {
      PendingSubtree(h, stack, e, rest);
      PostExpanded(h, e);
    }
    assert before + ([e] + after) == (before + [e]) + after;
  }

  /** Visiting an entity whose children are not visited only moves it onto the stack. */
  lemma {:induction false} PendingLeaf(h: Hierarchy, stack: seq<(nat, Entity)>, e: Entity, rest: seq<(nat, Entity)>)
    requires h.Acyclic() && !h.Expands(e)
    requires rest == [] || rest[0].0 <= |stack|
    ensures Pending(h, stack + [(|stack|, e)], rest) == Pending(h, stack, [(|stack|, e)] + rest)
  {
    var s1 := stack + [(|stack|, e)];
    assert s1[..|s1| - 1] == stack;
    PendingPop(h, s1, rest);
    PendingSubtree(h, stack, e, rest);
  }

  /** A non-empty queue in the resting shape still has something to yield. */
  lemma {:induction false} PendingNonEmpty(h: Hierarchy, stack: seq<(nat, Entity)>, rest: seq<(nat, Entity)>)
    requires h.Acyclic() && stack + rest != []
    requires rest == [] || rest[0].0 <= |stack|
    ensures Pending(h, stack, rest) != []
  {
    if rest != [] && rest[0].0 == |stack| {
      RootLast(h, rest[0].1);
    }
  }

  /** Entry `k` of the visited part of the queue sits at depth `k`: the path from the root. */
  ghost predicate StackDepths(s: seq<(nat, Entity)>) {
    forall k | 0 <= k < |s| :: s[k].0 == k
  }

  /**
   * Unvisited entries sit no deeper than `d` and get no deeper along the
   * queue: they are later siblings of entries on the path from the root.
   */
  ghost predicate Unvisited(s: seq<(nat, Entity)>, d: nat)
    decreases |s|
  {
    s == [] || (s[0].0 <= d && Unvisited(s[1..], s[0].0))
  }

  lemma {:induction false} UnvisitedTagged(cs: seq<Entity>, d: nat, rest: seq<(nat, Entity)>)
    requires Unvisited(rest, d)
    ensures Unvisited(Tag(cs, d + 1) + rest, d + 1)
    decreases |cs|
  {
    if cs != [] {
      UnvisitedTagged(cs[1..], d, rest);
      var q := Tag(cs, d + 1) + rest;
      assert q[1..] == Tag(cs[1..], d + 1) + rest;
    } else {
      assert Tag(cs, d + 1) + rest == rest;
    }
  }

  lemma {:induction false} ShapeExpand(stack: seq<(nat, Entity)>, e: Entity, cs: seq<Entity>, rest: seq<(nat, Entity)>)
    requires StackDepths(stack) && Unvisited(rest, |stack|)
    ensures StackDepths(stack + [(|stack|, e)])
    ensures Unvisited(Tag(cs, |stack| + 1) + rest, |stack| + 1)
  {
    UnvisitedTagged(cs, |stack|, rest);
  }

  lemma {:induction false} ShapeLeaf(stack: seq<(nat, Entity)>, e: Entity, rest: seq<(nat, Entity)>)
    requires StackDepths(stack) && Unvisited([(|stack|, e)] + rest, |stack|)
    ensures StackDepths(stack + [(|stack|, e)]) && Unvisited(rest, |stack|) && Unvisited(rest, |stack| + 1)
    ensures rest == [] || rest[0].0 < |stack| + 1
  {
    assert ([(|stack|, e)] + rest)[1..] == rest;
  }

  lemma {:induction false} ShapePop(stack: seq<(nat, Entity)>, rest: seq<(nat, Entity)>)
    requires StackDepths(stack) && stack != [] && Unvisited(rest, |stack|)
    requires rest == [] || rest[0].0 < |stack|
    ensures StackDepths(stack[..|stack| - 1]) && Unvisited(rest, |stack| - 1)
    ensures stack[|stack| - 1].0 == |stack| - 1
  {
  }

  /** Moving the next entity from what remains to what was emitted keeps their concatenation. */
  lemma EmitStep(emitted: seq<Entity>, e: Entity, rest: seq<Entity>, order: seq<Entity>)
    requires emitted + ([e] + rest) == order
    ensures (emitted + [e]) + rest == order
    ensures ([e] + rest)[1..] == rest
  {
    assert (emitted + [e]) + rest == emitted + ([e] + rest);
  }

  /**
   * The pop at the end of `next`: removing the last visited entry `q[v - 1]`
   * keeps the queue's shape and leaves what follows that entry to yield.
   */
  lemma PopStep(h: Hierarchy, q: seq<(nat, Entity)>, v: nat)
    requires h.Acyclic() && 1 <= v <= |q| && StackDepths(q[..v]) && Unvisited(q[v..], v)
    requires v == |q| || q[v].0 < v
    ensures var p := q[..v - 1] + q[v..];
      && q[v - 1].0 == v - 1
      && p[..v - 1] == q[..v - 1] && p[v - 1..] == q[v..]
      && StackDepths(p[..v - 1]) && Unvisited(p[v - 1..], v - 1)
      && Pending(h, q[..v], q[v..]) == [q[v - 1].1] + Pending(h, q[..v - 1], q[v..])
  {
    var stack, rest := q[..v], q[v..];
    PendingPop(h, stack, rest);
    ShapePop(stack, rest);
    var p := q[..v - 1] + q[v..];
    assert p[..v - 1] == stack[..|stack| - 1] && p[v - 1..] == rest;
  }

  /**
   * The descent phase of `next`: starting at the first unvisited entry,
   * visits entries while they are children or later siblings of the last
   * visited one, queueing the children of each visited entity right after
   * it, until an entity without visited children is reached or the queue
   * is exhausted. Returns the new queue and visited count; the current
   * depth ends as the depth of the last visited entry.
   */
  method Descend(h: Hierarchy, queue: seq<(nat, Entity)>, visited: nat) returns (q: seq<(nat, Entity)>, v: nat)
    requires h.Acyclic() && h.NonEmptyChildren()
    requires 1 <= |queue| && visited <= |queue|
    requires StackDepths(queue[..visited]) && Unvisited(queue[visited..], visited)
    ensures 1 <= v <= |q| && StackDepths(q[..v]) && Unvisited(q[v..], v)
    ensures v == |q| || q[v].0 < v
    ensures Pending(h, q[..v], q[v..]) == Pending(h, queue[..visited], queue[visited..])
  {
    q, v := queue, visited;
    var currentDepth := visited;
    while true
      invariant 1 <= |q| && v <= |q|
      invariant StackDepths(q[..v]) && Unvisited(q[v..], v)
      invariant currentDepth == v || (currentDepth + 1 == v && v < |q| && q[v].0 == v)
      invariant Pending(h, q[..v], q[v..]) == Pending(h, queue[..visited], queue[visited..])
      decreases if v < |q| then h.Height(q[v].1) else 0
    {
      var i := v;
      if i >= |q| {
        break;
      }
      var (depth, entity) := q[i];
      if currentDepth > depth {
        break;
      }
      ghost var stack, rest := q[..i], q[i + 1..];
      assert q[i..] == [(i, entity)] + rest;
      v := v + 1;
      currentDepth := depth;
      if !h.Expands(entity) {
        assert q[..v] == stack + [(i, entity)] && q[v..] == rest;
        PendingLeaf(h, stack, entity, rest);
        ShapeLeaf(stack, entity, rest);
        break;
      }
      var cs := h.children[entity];
      q := InsertAll(q, i + 1, cs, depth + 1);
      assert q[..v] == stack + [(i, entity)];
      assert q[v..] == Tag(cs, i + 1) + rest;
      ShapeLeaf(stack, entity, rest);
      ShapeExpand(stack, entity, cs, rest);
      PendingExpand(h, stack, entity, rest);
      assert cs[0] in h.children[entity];
    }
  }

  /** Inserts `cs`, tagged with depth `d`, at position `at`, one entry at a time. */
  method InsertAll(queue: seq<(nat, Entity)>, at: nat, cs: seq<Entity>, d: nat) returns (q: seq<(nat, Entity)>)
    requires at <= |queue|
    ensures q == queue[..at] + Tag(cs, d) + queue[at..]
  {
    q := queue;
    var j := 0;
    while j < |cs|
      invariant 0 <= j <= |cs|
      invariant q == queue[..at] + Tag(cs[..j], d) + queue[at..]
    {
      assert Tag(cs[..j + 1], d) == Tag(cs[..j], d) + [(d, cs[j])];
      q := q[..at + j] + [(d, cs[j])] + q[at + j..];
      j := j + 1;
    }
    assert cs[..|cs|] == cs;
  }

  /**
   * `DFSPostTraversal` together with the iterator it hands out: the
   * iterator holds the only borrow of the traversal's queue, so the two
   * share one state here. The children query reads the fixed hierarchy `h`.
   */
  class PostTraversal {
    const h: Hierarchy
    var queue: seq<(nat, Entity)>
    var visited: nat
    var currentDepth: nat
    /** Everything the current iteration yields, and what it has yielded so far. */
    ghost var order: seq<Entity>
    ghost var emitted: seq<Entity>

    ghost function Remaining(): seq<Entity>
      reads this
      requires h.Acyclic() && visited <= |queue|
    {
      Pending(h, queue[..visited], queue[visited..])
    }

    ghost predicate Valid()
      reads this
    {
      h.Acyclic() && h.NonEmptyChildren()
      && visited <= |queue| && currentDepth == visited
      && StackDepths(queue[..visited]) && Unvisited(queue[visited..], visited)
      && emitted + Remaining() == order
    }

    constructor (h: Hierarchy)
      requires h.Acyclic() && h.NonEmptyChildren()
      ensures Valid() && this.h == h
      ensures queue == [] && order == [] && emitted == []
    {
      this.h := h;
      queue := [];
      visited := 0;
      currentDepth := 0;
      order := [];
      emitted := [];
      new;
      assert queue[..0] == [] && queue[0..] == [];
    }

    /** Starts a traversal of the subtree under `root`, reusing the queue. */
    method Iter(root: Entity)
      requires Valid()
      modifies this
      ensures Valid()
      ensures queue == [(0, root)] && visited == 0
      ensures order == Post(h, root) && emitted == [] && Remaining() == Post(h, root)
    {
      queue := [(0, root)];
      visited := 0;
      currentDepth := 0;
      order := Post(h, root);
      emitted := [];
      assert queue[..0] == [] && queue[0..] == [(0, root)] + [];
      PendingSubtree(h, [], root, []);
    }

    /**
     * Yields the next entity in post-order. Once the queue is empty the
     * state no longer changes and `None` is returned again and again.
     */
    method Next() returns (r: Option<Entity>)
      requires Valid()
      modifies this
      ensures Valid() && order == old(order)
      ensures old(Remaining()) == [] ==>
        r == None && queue == old(queue) && visited == old(visited) && emitted == old(emitted)
      ensures old(Remaining()) != [] ==>
        r == Some(old(Remaining())[0]) && Remaining() == old(Remaining())[1..]
        && emitted == old(emitted) + [r.value]
    {
      if |queue| == 0 {
        assert queue[..visited] == [] && queue[visited..] == [];
        return None;
      }
      PendingNonEmpty(h, queue[..visited], queue[visited..]);
      ghost var before := Remaining();
      var q, v := Descend(h, queue, visited);
      PopStep(h, q, v);
      var (depth, entity) := q[v - 1];
      ghost var after := Pending(h, q[..v - 1], q[v..]);
      assert before == [entity] + after;
      EmitStep(emitted, entity, after, order);
      queue := q[..v - 1] + q[v..];
      visited := v - 1;
      currentDepth := depth;
      emitted := emitted + [entity];
      r := Some(entity);
      assert Remaining() == after;
    }

    /** Runs the iteration to the end, collecting what it yields. */
    method Collect(root: Entity) returns (out: seq<Entity>)
      requires Valid()
      modifies this
      ensures Valid() && out == Post(h, root)
    {
      Iter(root);
      out := [];
      while true
        invariant Valid() && order == Post(h, root) && out == emitted
        decreases |Remaining()|
      {
        var r := Next();
        if r.None? {
          break;
        }
        out := out + [r.value];
      }
    }
  }

  /**
   * What `AncestorQuery<T>` can see: the live entities, their `Parent`
   * links and which entities hold the component `T`. `depth` witnesses
   * that following parent links always ends.
   */
  datatype Ancestry = Ancestry(alive: set<Entity>, parent: map<Entity, Entity>, holders: set<Entity>,
                               ghost depth: map<Entity, nat>)
  {
    ghost predicate Acyclic()
    {
      forall e | e in parent :: e in depth && parent[e] in depth && depth[parent[e]] < depth[e]
    }

    ghost function Depth(e: Entity): nat
    {
      if e in depth then depth[e] else 0
    }

    /** The entity exists and holds `T`: both queries of the source can fetch it. */
    predicate Has(e: Entity)
    {
      e in alive && e in holders
    }

    /** The search stops at `e`: it holds `T`, does not exist, or has no parent. */
    predicate Stops(e: Entity)
    {
      Has(e) || e !in alive || e !in parent
    }
  }

  datatype QueryError = NoSuchEntity(entity: Entity)

  /**
   * The closest holder of `T` among `e` and its ancestors, or the entity
   * at which the search gave up.
   */
  function Nearest(w: Ancestry, e: Entity): Result<Entity, QueryError>
    requires w.Acyclic()
    decreases w.Depth(e)
  {
    if w.Has(e) then Ok(e)
    else if w.Stops(e) then Err(NoSuchEntity(e))
    else Nearest(w, w.parent[e])
  }

  /** The entities the search visits from `e`, in order. */
  function Chain(w: Ancestry, e: Entity): (c: seq<Entity>)
    requires w.Acyclic()
    decreases w.Depth(e)
    ensures c != [] && c[0] == e && w.Stops(c[|c| - 1])
    ensures forall k | 0 <= k < |c| - 1 :: !w.Stops(c[k]) && c[k + 1] == w.parent[c[k]]
  {
    if w.Stops(e) then [e] else [e] + Chain(w, w.parent[e])
  }

  /**
   * The search succeeds exactly when the last entity of the parent chain
   * holds `T`, and every entity before it lacks `T`; otherwise the error
   * names the entity at which the chain ended.
   */
  lemma {:induction false} NearestIsEndOfChain(w: Ancestry, e: Entity)
    requires w.Acyclic()
    ensures var c := Chain(w, e);
      Nearest(w, e) == if w.Has(c[|c| - 1]) then Ok(c[|c| - 1]) else Err(NoSuchEntity(c[|c| - 1]))
    decreases w.Depth(e)
  {
    if !w.Stops(e) {
      NearestIsEndOfChain(w, w.parent[e]);
      var c := Chain(w, w.parent[e]);
      assert Chain(w, e) == [e] + c;
    }
  }

  /** A found entity holds `T`, and no entity nearer to the start does. */
  lemma NearestIsClosest(w: Ancestry, e: Entity)
    requires w.Acyclic() && Nearest(w, e).Ok?
    ensures var c := Chain(w, e);
      Nearest(w, e).value == c[|c| - 1] && w.Has(c[|c| - 1])
      && forall k | 0 <= k < |c| - 1 :: !w.Has(c[k]) && c[k] in w.alive
  {
    NearestIsEndOfChain(w, e);
  }

  /**
   * `AncestorQuery<T>`: caches, per start entity, the closest holder of
   * `T` found for it. The queries it wraps read the world `w` passed to
   * each call, which may change between calls.
   */
  class AncestorQuery {
    var cache: map<Entity, Entity>

    /** Every cached entry is still the closest holder in `w`. */
    ghost predicate CacheAgrees(w: Ancestry)
      reads this
      requires w.Acyclic()
    {
      forall s | s in cache :: Nearest(w, s) == Ok(cache[s])
    }

    constructor ()
      ensures cache == map[]
    {
      cache := map[];
    }

    /** Walks up from `start`; records `start -> found` only on success. */
    method Find(w: Ancestry, start: Entity) returns (r: Result<Entity, QueryError>)
      requires w.Acyclic()
      modifies this
      ensures r == Nearest(w, start)
      ensures cache == if r.Ok? then old(cache)[start := r.value] else old(cache)
      ensures old(CacheAgrees(w)) ==> CacheAgrees(w)
    {
      var current := start;
      while true
        invariant Nearest(w, current) == Nearest(w, start)
        invariant cache == old(cache)
        decreases w.Depth(current)
      {
        if w.Has(current) {
          cache := cache[start := current];
          return Ok(current);
        } else if current in w.alive && current in w.parent {
          current := w.parent[current];
        } else {
          return Err(NoSuchEntity(current));
        }
      }
    }

    method ClearCache()
      modifies this
      ensures cache == map[]
    {
      cache := map[];
    }

    /**
     * A cached entry is used while it still holds `T`, even if a nearer
     * holder has appeared since; a stale entry is dropped and the search
     * redone. With an agreeing cache the answer is always the closest
     * holder.
     */
    method Get(w: Ancestry, start: Entity) returns (r: Result<Entity, QueryError>)
      requires w.Acyclic()
      modifies this
      ensures start in old(cache) && w.Has(old(cache)[start]) ==>
        r == Ok(old(cache)[start]) && cache == old(cache)
      ensures !(start in old(cache) && w.Has(old(cache)[start])) ==>
        r == Nearest(w, start)
        && cache == if r.Ok? then old(cache)[start := r.value] else old(cache) - {start}
      ensures r.Ok? ==> w.Has(r.value)
      ensures old(CacheAgrees(w)) ==> r == Nearest(w, start) && CacheAgrees(w)
    {
      if start in cache {
        var cached := cache[start];
        if w.Has(cached) {
          return Ok(cached);
        }
        cache := cache - {start};
      }
      r := Find(w, start);
      if r.Ok? {
        NearestIsClosest(w, start);
      }
    }
  }

  datatype ResourceId = ResourceId(id: nat)
  datatype CommandId = CommandId(id: nat)

  /** The parts of the world `Once` touches: its resources and the commands applied to it. */
  class World {
    var resources: set<ResourceId>
    var applied: seq<CommandId>

    constructor ()
      ensures resources == {} && applied == []
    {
      resources := {};
      applied := [];
    }

    /**
     * `Once<R, C>::apply`: runs `command` only if the marker resource is
     * absent, inserting the marker before the command runs.
     */
    method ApplyOnce(marker: ResourceId, command: CommandId)
      modifies this
      ensures marker in resources
      ensures marker in old(resources) ==> resources == old(resources) && applied == old(applied)
      ensures marker !in old(resources) ==>
        resources == old(resources) + {marker} && applied == old(applied) + [command]
    {
      if marker in resources {
        return;
      }
      resources := resources + {marker};
      applied := applied + [command];
    }
  }
}
