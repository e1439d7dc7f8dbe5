/** `cmd_frontier` without its printing: the suggested decisions split into those that can be
    committed now and those held back by uncommitted upstream decisions, the chain of blockers
    `_critical_path` reports for a held-back one, and the per-level counts with their flags
    (tools/dna-graph.py:567-604, 1237-1308). */
module Frontier {
  import opened Util
  import opened Frontmatter
  import opened Reach
  import opened Decisions
  import opened Traversal

  // ---------------------------------------------------------------------------
  // Blockers
  // ---------------------------------------------------------------------------

  /** `get_deps_list(nodes.get(x, {}))`: an identifier that is not a record has no dependencies. */
  function DepsAt(g: Graph, x: string): seq<string> {
    if x in g then DepsList(g[x]) else []
  }

  /** A dependency that holds a decision back: it exists and is not committed. */
  predicate Blocking(g: Graph, d: string) {
    d in g && !IsCommitted(g[d])
  }

  /** The entries of `ds` that are blocking, in order and with repeats. */
  function BlockingOf(g: Graph, ds: seq<string>): (r: seq<string>)
    ensures |r| <= |ds|
    ensures forall d :: d in r <==> d in ds && Blocking(g, d)
  {
    if ds == [] then []
    else (if Blocking(g, ds[0]) then [ds[0]] else []) + BlockingOf(g, ds[1..])
  }

  /** `uncommitted_deps`: the existing, uncommitted dependencies of `x`. */
  function Blockers(g: Graph, x: string): (r: seq<string>)
    ensures forall d :: d in r <==> d in DepsAt(g, x) && Blocking(g, d)
  {
    BlockingOf(g, DepsAt(g, x))
  }

  /** No dependency of `t` blocks it except, possibly, `t` itself. */
  predicate NoOtherBlocker(g: Graph, t: string) {
    forall d :: d in DepsAt(g, t) && Blocking(g, d) ==> d == t
  }

  // ---------------------------------------------------------------------------
  // Critical path
  // ---------------------------------------------------------------------------

  /** A chain of distinct blocking decisions, each a dependency of the next and the last a
      dependency of `t`, which the chain does not contain. */
  ghost predicate IsChain(g: Graph, t: string, p: seq<string>) {
    p != [] && t !in p &&
    (forall i :: 0 <= i < |p| ==> Blocking(g, p[i])) &&
    (forall i :: 0 <= i < |p| - 1 ==> p[i] in DepsAt(g, p[i + 1])) &&
    p[|p| - 1] in DepsAt(g, t) &&
    (forall i, j :: 0 <= i < j < |p| ==> p[i] != p[j])
  }

  /** What `_critical_path` promises about its answer for `t`. */
  ghost predicate CriticalPathOk(g: Graph, t: string, p: seq<string>) {
    (NoOtherBlocker(g, t) ==> p == Blockers(g, t)) &&
    (!NoOtherBlocker(g, t) ==> IsChain(g, t, p))
  }

  /** Python's `max(xs, key=...)`: the index of the first element of greatest depth. */
  function FirstMax(xs: seq<string>, depth: map<string, nat>): (k: nat)
    requires xs != [] && forall x :: x in xs ==> x in depth
    ensures k < |xs|
    ensures forall i :: 0 <= i < |xs| ==> depth[xs[i]] <= depth[xs[k]]
    ensures forall i :: 0 <= i < k ==> depth[xs[i]] < depth[xs[k]]
  {
    if |xs| == 1 then 0
    else
      var front := xs[..|xs| - 1];
      var k := FirstMax(front, depth);
      assert front[k] == xs[k];
      if depth[xs[|xs| - 1]] > depth[xs[k]] then |xs| - 1 else k
  }

  /** The breadth-first tree of `_critical_path` so far: `found` lists the keys of `parent` in
      insertion order, and every tree edge obeys `TreeEdges`. */
  ghost predicate Tree(g: Graph, t: string, visited: set<string>, depth: map<string, nat>,
                       parent: map<string, string>, found: seq<string>)
  {
    TreeShape(t, visited, depth, parent, found) && TreeEdges(g, visited, depth, parent)
  }

  ghost predicate TreeShape(t: string, visited: set<string>, depth: map<string, nat>,
                            parent: map<string, string>, found: seq<string>)
  {
    t in visited && depth.Keys == visited && depth[t] == 0 &&
    parent.Keys == Elems(found) && visited == parent.Keys + {t} && t !in parent
  }

  /** Every tree edge goes from a blocking dependency to the record that lists it, one level
      further from the target. */
  ghost predicate TreeEdges(g: Graph, visited: set<string>, depth: map<string, nat>, parent: map<string, string>)
    requires depth.Keys == visited
  {
    forall x :: x in parent ==>
      x in visited && parent[x] in visited && Blocking(g, x) && x in DepsAt(g, parent[x]) &&
      depth[x] == depth[parent[x]] + 1
  }

  /** Queue entries are visited identifiers with their recorded depth. */
  ghost predicate QueueOk(queue: seq<(string, nat)>, depth: map<string, nat>) {
    forall i :: 0 <= i < |queue| ==> queue[i].0 in depth && queue[i].1 == depth[queue[i].0]
  }

  /** Adding a blocking dependency `x` of `cur` to the tree. */
  lemma TreeAdd(g: Graph, t: string, visited: set<string>, depth: map<string, nat>,
                parent: map<string, string>, found: seq<string>, cur: string, d: nat, x: string)
    requires Tree(g, t, visited, depth, parent, found)
    requires cur in visited && depth[cur] == d && x !in visited && Blocking(g, x) && x in DepsAt(g, cur)
    ensures Tree(g, t, visited + {x}, depth[x := d + 1], parent[x := cur], found + [x])
  {
    assert Elems(found + [x]) == Elems(found) + {x};
    var depth', parent' := depth[x := d + 1], parent[x := cur];
    forall y | y in parent'
      ensures y in visited + {x} && parent'[y] in visited + {x} && Blocking(g, y) &&
              y in DepsAt(g, parent'[y]) && depth'[y] == depth'[parent'[y]] + 1
    {
      if y != x {
        assert parent'[y] == parent[y] && parent[y] in visited;
      }
    }
  }

  lemma QueueAdd(queue: seq<(string, nat)>, depth: map<string, nat>, x: string, d: nat)
    requires QueueOk(queue, depth) && x !in depth
    ensures QueueOk(queue + [(x, d)], depth[x := d])
  {
    forall i | 0 <= i < |queue| + 1
      ensures (queue + [(x, d)])[i].0 in depth[x := d]
      ensures (queue + [(x, d)])[i].1 == depth[x := d][(queue + [(x, d)])[i].0]
    {
      if i < |queue| {
        assert (queue + [(x, d)])[i] == queue[i];
      }
    }
  }

  lemma QueueTail(queue: seq<(string, nat)>, depth: map<string, nat>)
    requires QueueOk(queue, depth) && queue != []
    ensures QueueOk(queue[1..], depth)
  {
    forall i | 0 <= i < |queue| - 1 ensures queue[1..][i] == queue[i + 1] { }
  }

  lemma GrowCard(u: set<string>, a: set<string>, b: set<string>)
    requires a < b <= u
    ensures |u - b| < |u - a|
  {
    ProperSubsetCard(u - b, u - a);
  }

  /** The first `j` entries of `ds` that are blocking have been visited. */
  ghost predicate Covers(g: Graph, ds: seq<string>, j: nat, visited: set<string>) {
    forall k :: 0 <= k < j <= |ds| && Blocking(g, ds[k]) ==> ds[k] in visited
  }

  lemma CoversStep(g: Graph, ds: seq<string>, j: nat, v: set<string>, v': set<string>)
    requires j < |ds| && Covers(g, ds, j, v) && v <= v' && (Blocking(g, ds[j]) ==> ds[j] in v')
    ensures Covers(g, ds, j + 1, v')
  {
  }

  /** One dependency `x` of `cur` considered: when it exists, is not committed and is not yet
      visited, it joins the tree one level below `cur` and is queued. */
  method Consider(g: Graph, t: string, cur: string, d: nat, x: string, visited0: set<string>,
                  depth0: map<string, nat>, parent0: map<string, string>, found0: seq<string>,
                  queue0: seq<(string, nat)>)
    returns (visited: set<string>, depth: map<string, nat>, parent: map<string, string>,
             found: seq<string>, queue: seq<(string, nat)>)
    requires Tree(g, t, visited0, depth0, parent0, found0) && QueueOk(queue0, depth0)
    requires cur in visited0 && depth0[cur] == d && visited0 <= g.Keys + {t} && x in DepsAt(g, cur)
    ensures Tree(g, t, visited, depth, parent, found) && QueueOk(queue, depth)
    ensures visited0 <= visited <= g.Keys + {t} && depth[cur] == d
    ensures (visited == visited0 && queue == queue0 && parent == parent0) || (x in visited && x !in visited0)
    ensures Blocking(g, x) ==> x in visited
  {
    visited, depth, parent, found, queue := visited0, depth0, parent0, found0, queue0;
    if x in g && x !in visited && !IsCommitted(g[x]) {
      TreeAdd(g, t, visited, depth, parent, found, cur, d, x);
      var entry: (string, nat) := (x, d + 1);
      QueueAdd(queue, depth, x, d + 1);
      visited := visited + {x};
      depth := depth[x := d + 1];
      parent := parent[x := cur];
      found := found + [x];
      queue := queue + [entry];
    }
  }

  /** One turn of the search: every blocking dependency of `cur` not yet visited joins the tree
      one level below it and is queued. */
  method Expand(g: Graph, t: string, cur: string, d: nat, visited0: set<string>, depth0: map<string, nat>,
                parent0: map<string, string>, found0: seq<string>, queue0: seq<(string, nat)>)
    returns (visited: set<string>, depth: map<string, nat>, parent: map<string, string>,
             found: seq<string>, queue: seq<(string, nat)>)
    requires Tree(g, t, visited0, depth0, parent0, found0) && QueueOk(queue0, depth0)
    requires cur in visited0 && depth0[cur] == d && visited0 <= g.Keys + {t}
    ensures Tree(g, t, visited, depth, parent, found) && QueueOk(queue, depth)
    ensures visited0 <= visited <= g.Keys + {t}
    ensures visited == visited0 ==> queue == queue0 && parent == parent0
    ensures Covers(g, DepsAt(g, cur), |DepsAt(g, cur)|, visited)
  {
    visited, depth, parent, found, queue := visited0, depth0, parent0, found0, queue0;
    var deps := DepsAt(g, cur);
    var j := 0;
    ghost var grew, newcomer := false, "";
    while j < |deps|
      invariant j <= |deps|
      invariant Tree(g, t, visited, depth, parent, found) && QueueOk(queue, depth)
      invariant cur in visited && depth[cur] == d
      invariant visited0 <= visited <= g.Keys + {t}
      invariant !grew ==> visited == visited0 && queue == queue0 && parent == parent0
      invariant grew ==> newcomer in visited && newcomer !in visited0
      invariant Covers(g, deps, j, visited)
    {
      ghost var before := visited;
      visited, depth, parent, found, queue := Consider(g, t, cur, d, deps[j], visited, depth, parent, found, queue);
      CoversStep(g, deps, j, before, visited);
      if !grew && deps[j] in visited && deps[j] !in before {
        grew, newcomer := true, deps[j];
      }
      j := j + 1;
    }
  }

  /** The state of the search between two turns. */
  ghost predicate SearchInv(g: Graph, t: string, visited: set<string>, depth: map<string, nat>,
                            parent: map<string, string>, found: seq<string>, queue: seq<(string, nat)>)
  {
    Tree(g, t, visited, depth, parent, found) && QueueOk(queue, depth) && visited <= g.Keys + {t} &&
    (parent == map[] ==> queue == [(t, 0)] || (queue == [] && NoOtherBlocker(g, t)))
  }

  /** One turn of `_critical_path`'s loop: the head of the queue is popped and expanded. */
  method Turn(g: Graph, t: string, visited0: set<string>, depth0: map<string, nat>,
              parent0: map<string, string>, found0: seq<string>, queue0: seq<(string, nat)>)
    returns (visited: set<string>, depth: map<string, nat>, parent: map<string, string>,
             found: seq<string>, queue: seq<(string, nat)>)
    requires SearchInv(g, t, visited0, depth0, parent0, found0, queue0) && queue0 != []
    ensures SearchInv(g, t, visited, depth, parent, found, queue)
    ensures |(g.Keys + {t}) - visited| < |(g.Keys + {t}) - visited0| ||
            (visited == visited0 && |queue| < |queue0|)
  {
    var cur, d := queue0[0].0, queue0[0].1;
    QueueTail(queue0, depth0);
    visited, depth, parent, found, queue := Expand(g, t, cur, d, visited0, depth0, parent0, found0, queue0[1..]);
    EmptyTurn(g, t, visited0, parent0, queue0, visited, parent, queue);
    TurnDecreases(g.Keys + {t}, visited0, visited, queue0, queue);
  }

  lemma TurnDecreases(u: set<string>, visited0: set<string>, visited: set<string>,
                      queue0: seq<(string, nat)>, queue: seq<(string, nat)>)
    requires visited0 <= visited <= u && queue0 != []
    requires visited == visited0 ==> queue == queue0[1..]
    ensures |u - visited| < |u - visited0| || (visited == visited0 && |queue| < |queue0|)
  {
    if visited != visited0 {
      GrowCard(u, visited0, visited);
    }
  }

  /** A turn that leaves the tree empty was the first one, from the target, and found nothing. */
  lemma EmptyTurn(g: Graph, t: string, visited0: set<string>, parent0: map<string, string>,
                  queue0: seq<(string, nat)>, visited: set<string>, parent: map<string, string>,
                  queue: seq<(string, nat)>)
    requires queue0 != [] && t in visited0 && visited == parent.Keys + {t} && visited0 <= visited
    requires visited0 == parent0.Keys + {t}
    requires parent0 == map[] ==> queue0 == [(t, 0)] || (queue0 == [] && NoOtherBlocker(g, t))
    requires visited == visited0 ==> queue == queue0[1..] && parent == parent0
    requires Covers(g, DepsAt(g, queue0[0].0), |DepsAt(g, queue0[0].0)|, visited)
    ensures parent == map[] ==> queue == [] && NoOtherBlocker(g, t)
  {
    if parent != map[] {
      return;
    }
    assert visited == {t} == visited0;
    assert parent0 == parent;
    assert queue0 == [(t, 0)];
    NoOtherFromCovers(g, t, visited);
  }

  lemma SearchStart(g: Graph, t: string)
    ensures SearchInv(g, t, {t}, map[t := 0], map[], [], [(t, 0)])
  {
    assert Elems<string>([]) == {};
  }

  /** The search of `_critical_path` from `t`: returns the tree it builds. */
  method Search(g: Graph, t: string)
    returns (visited: set<string>, depth: map<string, nat>, parent: map<string, string>, found: seq<string>)
    ensures Tree(g, t, visited, depth, parent, found)
    ensures parent == map[] ==> NoOtherBlocker(g, t)
  {
    visited := {t};
    var queue: seq<(string, nat)> := [(t, 0)];
    depth := map[t := 0];
    parent := map[];
    found := [];
    SearchStart(g, t);
    while queue != []
      invariant SearchInv(g, t, visited, depth, parent, found, queue)
      decreases |(g.Keys + {t}) - visited|, |queue|
    {
      visited, depth, parent, found, queue := Turn(g, t, visited, depth, parent, found, queue);
    }
  }

  lemma NoOtherFromCovers(g: Graph, t: string, visited: set<string>)
    requires Covers(g, DepsAt(g, t), |DepsAt(g, t)|, visited) && visited == {t}
    ensures NoOtherBlocker(g, t)
  {
    var ds := DepsAt(g, t);
    forall e | e in ds && Blocking(g, e) ensures e == t {
      var k :| 0 <= k < |ds| && ds[k] == e;
    }
  }

  /** The walk back from `deepest`: `path` so far follows tree edges downward, one level at a
      time, and `cur` is where it goes next. */
  ghost predicate Walk(parent: map<string, string>, depth: map<string, nat>, deepest: string,
                       path: seq<string>, cur: string)
  {
    deepest in depth && cur in depth &&
    (forall i :: 0 <= i < |path| ==> path[i] in parent && path[i] in depth &&
                                     depth[path[i]] + i == depth[deepest]) &&
    (forall i :: 0 <= i < |path| - 1 ==> path[i + 1] == parent[path[i]]) &&
    (path == [] ==> cur == deepest) &&
    (path != [] ==> cur == parent[path[|path| - 1]]) &&
    depth[cur] + |path| == depth[deepest]
  }

  lemma WalkStep(parent: map<string, string>, depth: map<string, nat>, deepest: string, path: seq<string>, cur: string)
    requires Walk(parent, depth, deepest, path, cur)
    requires cur in parent && parent[cur] in depth && depth[cur] == depth[parent[cur]] + 1
    ensures Walk(parent, depth, deepest, path + [cur], parent[cur])
  {
    var p := path + [cur];
    forall i | 0 <= i < |p| ensures p[i] in parent && p[i] in depth && depth[p[i]] + i == depth[deepest] {
      if i < |path| {
        assert p[i] == path[i];
      }
    }
    forall i | 0 <= i < |p| - 1 ensures p[i + 1] == parent[p[i]] {
      if i < |path| - 1 {
        assert p[i] == path[i] && p[i + 1] == path[i + 1];
      }
    }
  }

  /** The reconstruction loop of `_critical_path`: from `deepest` up the tree to `t`. */
  method WalkBack(parent: map<string, string>, depth: map<string, nat>, deepest: string, t: string)
    returns (path: seq<string>)
    requires depth.Keys == parent.Keys + {t} && deepest in depth
    requires forall x :: x in parent ==> parent[x] in depth && depth[x] == depth[parent[x]] + 1
    ensures Walk(parent, depth, deepest, path, t)
  {
    path := [];
    var cur := deepest;
    while cur != t
      invariant Walk(parent, depth, deepest, path, cur)
      decreases depth[cur]
    {
      WalkStep(parent, depth, deepest, path, cur);
      path := path + [cur];
      cur := parent[cur];
    }
  }

  /** A finished walk is a chain. */
  lemma WalkDone(g: Graph, t: string, visited: set<string>, depth: map<string, nat>,
                 parent: map<string, string>, found: seq<string>, deepest: string, path: seq<string>)
    requires Tree(g, t, visited, depth, parent, found) && Walk(parent, depth, deepest, path, t)
    requires deepest in parent
    ensures IsChain(g, t, path) && !NoOtherBlocker(g, t)
  {
    assert path != [];
    forall i | 0 <= i < |path| - 1 ensures path[i] in DepsAt(g, path[i + 1]) {
      assert path[i + 1] == parent[path[i]];
    }
    forall i, j | 0 <= i < j < |path| ensures path[i] != path[j] {
      assert depth[path[i]] + i == depth[path[j]] + j;
    }
    var last := path[|path| - 1];
    assert parent[last] == t && last in DepsAt(g, t) && Blocking(g, last) && last != t;
  }

  /** `_critical_path`: with no blocking dependency besides the target itself, the direct
      blocking dependencies; otherwise the tree path from the first deepest blocker found back
      to the target. */
  method CriticalPath(g: Graph, t: string) returns (path: seq<string>)
    ensures CriticalPathOk(g, t, path)
    ensures path == [] <==> Blockers(g, t) == []
    ensures forall i :: 0 <= i < |path| ==> Blocking(g, path[i])
  {
    var visited, depth, parent, found := Search(g, t);
    if parent == map[] {
      path := Blockers(g, t);
      return;
    }
    var some :| some in parent;
    assert some in found;
    var deepest := found[FirstMax(found, depth)];
    assert deepest in Elems(found);
    path := WalkBack(parent, depth, deepest, t);
    WalkDone(g, t, visited, depth, parent, found, deepest, path);
    assert path[|path| - 1] in Blockers(g, t);
  }

  // ---------------------------------------------------------------------------
  // Committable and blocked decisions
  // ---------------------------------------------------------------------------

  /** One frontier entry. A committable entry has no blockers and an empty critical path. */
  datatype Entry = Entry(id: string, title: Value, level: Value, stakes: Value, scope: Scope,
                         weight: nat, downstream: seq<string>, blockers: seq<string>,
                         criticalPath: seq<string>)

  /** `n.get("state", "unknown") == "suggested"`. */
  predicate Suggested(n: Node) {
    GetOr(n, "state", Str("unknown")) == Str("suggested")
  }

  /** An entry describes the suggested record `e.id`: its fields, and its transitive dependents
      in ascending order, counted by the weight. */
  ghost predicate EntryOk(g: Graph, e: Entry) {
    e.id in g && Suggested(g[e.id]) &&
    e.title == GetOr(g[e.id], "title", Str("")) && e.level == Get(g[e.id], "level") &&
    e.stakes == Get(g[e.id], "stakes") && e.scope == g[e.id].scope &&
    StrictlySorted(e.downstream) && e.weight == |e.downstream| &&
    forall y :: y in e.downstream <==> ReachesPlus(RevAdj(g), e.id, y)
  }

  /** The identifiers of some entries. */
  ghost function Ids(es: seq<Entry>): set<string> {
    set e | e in es :: e.id
  }

  lemma IdsAppend(es: seq<Entry>, e: Entry)
    ensures Ids(es + [e]) == Ids(es) + {e.id}
  {
    assert e in es + [e];
    forall x | x in Ids(es) ensures x in Ids(es + [e]) {
      var f :| f in es && f.id == x;
      assert f in es + [e];
    }
  }

  /** The entry the loop of `cmd_frontier` builds for the suggested record `nid`, and whether it
      goes to the committable list. */
  method Classify(g: Graph, down: set<string>, nid: string) returns (e: Entry, free: bool)
    requires nid in g && Suggested(g[nid])
    requires forall y :: y in down <==> ReachesPlus(RevAdj(g), nid, y)
    ensures EntryOk(g, e) && e.id == nid
    ensures free <==> Blockers(g, nid) == []
    ensures free ==> e.blockers == [] && e.criticalPath == []
    ensures !free ==> e.blockers == Blockers(g, nid) && CriticalPathOk(g, nid, e.criticalPath)
  {
    var n := g[nid];
    var ids := SortedElements(down);
    SortedCard(ids);
    assert Elems(ids) == down;
    var blockers := Blockers(g, nid);
    var path: seq<string> := [];
    free := blockers == [];
    if !free {
      path := CriticalPath(g, nid);
    }
    e := Entry(nid, GetOr(n, "title", Str("")), Get(n, "level"), Get(n, "stakes"), n.scope,
               |down|, ids, blockers, path);
  }

  /** The two lists built from the records of `seen`: the committable ones, and the blocked ones
      with their blockers and critical path. */
  ghost predicate Parted(g: Graph, seen: set<string>, committable: seq<Entry>, blocked: seq<Entry>) {
    (forall e :: e in committable ==> EntryOk(g, e) && e.blockers == [] && e.criticalPath == []) &&
    (forall e :: e in blocked ==>
       EntryOk(g, e) && e.blockers == Blockers(g, e.id) && CriticalPathOk(g, e.id, e.criticalPath)) &&
    (forall x :: x in Ids(committable) <==> x in seen && x in g && Suggested(g[x]) && Blockers(g, x) == []) &&
    (forall x :: x in Ids(blocked) <==> x in seen && x in g && Suggested(g[x]) && Blockers(g, x) != [])
  }

  /** One record of the partition loop: a suggested record goes to one of the two lists. */
  method PartitionStep(g: Graph, down: set<string>, ghost seen: set<string>, nid: string,
                       committable0: seq<Entry>, blocked0: seq<Entry>)
    returns (committable: seq<Entry>, blocked: seq<Entry>)
    requires nid in g && forall y :: y in down <==> ReachesPlus(RevAdj(g), nid, y)
    requires Parted(g, seen, committable0, blocked0)
    ensures Parted(g, seen + {nid}, committable, blocked)
  {
    committable, blocked := committable0, blocked0;
    if Suggested(g[nid]) {
      var e, free := Classify(g, down, nid);
      if free {
        IdsAppend(committable, e);
        committable := committable + [e];
      } else {
        IdsAppend(blocked, e);
        blocked := blocked + [e];
      }
    }
  }

  /** The partition of `cmd_frontier`: over the records in ascending identifier order, the
      suggested ones whose existing dependencies are all committed, and the other suggested
      ones with their blockers and critical path. */
  method Partition(g: Graph, order: seq<string>) returns (committable: seq<Entry>, blocked: seq<Entry>)
    requires IsOrder(g, order)
    ensures forall e :: e in committable ==> EntryOk(g, e) && e.blockers == [] && e.criticalPath == []
    ensures forall e :: e in blocked ==>
              EntryOk(g, e) && e.blockers == Blockers(g, e.id) && CriticalPathOk(g, e.id, e.criticalPath)
    ensures forall x :: x in Ids(committable) <==> x in g && Suggested(g[x]) && Blockers(g, x) == []
    ensures forall x :: x in Ids(blocked) <==> x in g && Suggested(g[x]) && Blockers(g, x) != []
  {
    var downstream := TransitiveDownstream(g, order);
    var ids := SortedElements(g.Keys);
    committable, blocked := [], [];
    for k := 0 to |ids|
      invariant Parted(g, Elems(ids[..k]), committable, blocked)
    {
      PrefixStep(ids, k);
      assert Elems(ids[..k + 1]) == Elems(ids[..k]) + {ids[k]};
      committable, blocked := PartitionStep(g, downstream[ids[k]], Elems(ids[..k]), ids[k], committable, blocked);
    }
    assert ids[..|ids|] == ids;
  }

  // ---------------------------------------------------------------------------
  // Level gaps
  // ---------------------------------------------------------------------------

  datatype Flag = MoreSuggestedThanCommitted | NoCommitted

  /** The counts of one level and the flags raised on them. */
  datatype Gap = Gap(level: int, name: string, committed: nat, suggested: nat, superseded: nat,
                     total: nat, flags: seq<Flag>)

  /** A record at level `lvl` whose state (default `unknown`) is `st`. */
  predicate Counts(n: Node, lvl: int, st: string) {
    AtLevel(n, lvl) && GetOr(n, "state", Str("unknown")) == Str(st)
  }

  /** How many of the records listed in `xs` are counted under `lvl` and `st`. */
  function CountIn(g: Graph, xs: seq<string>, lvl: int, st: string): (c: nat)
    requires forall x :: x in xs ==> x in g
    ensures c <= |xs|
  {
    if xs == [] then 0
    else
      var front := xs[..|xs| - 1];
      assert forall x :: x in front ==> x in xs;
      CountIn(g, front, lvl, st) + (if Counts(g[xs[|xs| - 1]], lvl, st) then 1 else 0)
  }

  /** The records of `g` counted under `lvl` and `st`. */
  ghost function Matching(g: Graph, lvl: int, st: string): set<string> {
    set x | x in g && Counts(g[x], lvl, st)
  }

  /** Counting along a listing of distinct identifiers gives the size of the set counted. */
  lemma {:induction false} CountInCard(g: Graph, xs: seq<string>, lvl: int, st: string)
    requires forall x :: x in xs ==> x in g
    requires forall i, j :: 0 <= i < j < |xs| ==> xs[i] != xs[j]
    ensures CountIn(g, xs, lvl, st) == |set x | x in xs && Counts(g[x], lvl, st)|
  {
    if xs != [] {
      var n := |xs| - 1;
      var front := xs[..n];
      var last := xs[n];
      CountInCard(g, front, lvl, st);
      var before := set x | x in front && Counts(g[x], lvl, st);
      var after := set x | x in xs && Counts(g[x], lvl, st);
      assert xs == front + [last];
      assert last !in front by {
        assert forall i :: 0 <= i < n ==> front[i] == xs[i] && xs[i] != xs[n];
      }
      if Counts(g[last], lvl, st) {
        assert after == before + {last};
      } else {
        assert after == before;
      }
    }
  }

  /** The counting loop of `cmd_frontier` for one level, over the records in dict order. */
  method CountLevel(g: Graph, order: seq<string>, lvl: int) returns (committed: nat, suggested: nat, superseded: nat)
    requires IsOrder(g, order)
    ensures committed == |Matching(g, lvl, "committed")|
    ensures suggested == |Matching(g, lvl, "suggested")|
    ensures superseded == |Matching(g, lvl, "superseded")|
  {
    committed, suggested, superseded := 0, 0, 0;
    for k := 0 to |order|
      invariant committed == CountIn(g, order[..k], lvl, "committed")
      invariant suggested == CountIn(g, order[..k], lvl, "suggested")
      invariant superseded == CountIn(g, order[..k], lvl, "superseded")
    {
      var n := g[order[k]];
      assert order[..k + 1][..k] == order[..k];
      if AtLevel(n, lvl) {
        var s := GetOr(n, "state", Str("unknown"));
        if s == Str("committed") {
          committed := committed + 1;
        } else if s == Str("suggested") {
          suggested := suggested + 1;
        } else if s == Str("superseded") {
          superseded := superseded + 1;
        }
      }
    }
    assert order[..|order|] == order;
    MatchingCount(g, order, lvl, "committed");
    MatchingCount(g, order, lvl, "suggested");
    MatchingCount(g, order, lvl, "superseded");
  }

  lemma MatchingCount(g: Graph, order: seq<string>, lvl: int, st: string)
    requires IsOrder(g, order)
    ensures CountIn(g, order, lvl, st) == |Matching(g, lvl, st)|
  {
    CountInCard(g, order, lvl, st);
    assert (set x | x in order && Counts(g[x], lvl, st)) == Matching(g, lvl, st);
  }

  /** The flags of a level's counts. */
  function Flags(committed: nat, suggested: nat, total: nat): (r: seq<Flag>)
    ensures MoreSuggestedThanCommitted in r <==> suggested > committed
    ensures NoCommitted in r <==> committed == 0 && total > 0
    ensures |r| <= 2
  {
    (if suggested > committed then [MoreSuggestedThanCommitted] else []) +
    (if committed == 0 && total > 0 then [NoCommitted] else [])
  }

  /** The level-gap report of `cmd_frontier`: for each level 1 to 4 in turn, its name, the
      number of committed, suggested and superseded records at that level, their total and the
      flags. */
  method LevelGaps(g: Graph, order: seq<string>) returns (gaps: seq<Gap>)
    requires IsOrder(g, order)
    ensures |gaps| == 4
    ensures forall i :: 0 <= i < 4 ==>
              var gap := gaps[i];
              gap.level == i + 1 && gap.name == LevelNames[i + 1] &&
              gap.committed == |Matching(g, i + 1, "committed")| &&
              gap.suggested == |Matching(g, i + 1, "suggested")| &&
              gap.superseded == |Matching(g, i + 1, "superseded")| &&
              gap.total == gap.committed + gap.suggested + gap.superseded &&
              (MoreSuggestedThanCommitted in gap.flags <==> gap.suggested > gap.committed) &&
              (NoCommitted in gap.flags <==> gap.committed == 0 && gap.total > 0)
  {
    gaps := [];
    for lvl := 1 to 5
      invariant |gaps| == lvl - 1
      invariant forall i :: 0 <= i < lvl - 1 ==>
                  var gap := gaps[i];
                  gap.level == i + 1 && gap.name == LevelNames[i + 1] &&
                  gap.committed == |Matching(g, i + 1, "committed")| &&
                  gap.suggested == |Matching(g, i + 1, "suggested")| &&
                  gap.superseded == |Matching(g, i + 1, "superseded")| &&
                  gap.total == gap.committed + gap.suggested + gap.superseded &&
                  (MoreSuggestedThanCommitted in gap.flags <==> gap.suggested > gap.committed) &&
                  (NoCommitted in gap.flags <==> gap.committed == 0 && gap.total > 0)
    {
      var c, s, sup := CountLevel(g, order, lvl);
      var total := c + s + sup;
      gaps := gaps + [Gap(lvl, LevelNames[lvl], c, s, sup, total, Flags(c, s, total))];
    }
  }
}
