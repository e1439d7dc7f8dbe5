/** The graph walks behind `cascade`, `cascade --reverse` and the frontier's downstream weights:
    the wave-by-wave propagation of `cmd_cascade` and `cmd_cascade_reverse`
    (tools/dna-graph.py:797-839, 894-934) and the breadth-first search of
    `_compute_transitive_downstream` (tools/dna-graph.py:541-564). */
module Traversal {
  import opened Util
  import opened Frontmatter
  import opened Reach
  import opened Decisions
  import opened Validate

  // ---------------------------------------------------------------------------
  // Cascade waves
  // ---------------------------------------------------------------------------

  /** One entry of a wave: `node` needs review because of `reason`, with the state `node` had
      (default `unknown`) and whether the two lie in different scopes. */
  datatype Effect = Effect(node: string, currentState: Value, reason: string, crossDirectory: bool)

  /** A wave: its number and its entries. */
  datatype Wave = Wave(num: nat, effects: seq<Effect>)

  /** The entry for `node`, reached from `reason`. */
  function MakeEffect(g: Graph, reason: string, node: string): (r: Effect)
    requires reason in g && node in g
    ensures r.node == node && r.reason == reason
    ensures r.crossDirectory <==> g[reason].scope != g[node].scope
    ensures "state" in g[node].fm ==> r.currentState == g[node].fm["state"]
    ensures "state" !in g[node].fm ==> r.currentState == Str("unknown")
  {
    Effect(node, GetOr(g[node], "state", Str("unknown")), reason, g[reason].scope != g[node].scope)
  }

  /** Successor lists over the records of `g` whose successors are records of `g`. */
  ghost predicate ListsOver(g: Graph, lists: map<string, seq<string>>) {
    lists.Keys == g.Keys && forall x, y :: x in lists && y in lists[x] ==> y in lists
  }

  /** An entry follows an edge of the lists and carries the target's state and the scopes. */
  ghost predicate EffectOk(g: Graph, lists: map<string, seq<string>>, e: Effect) {
    e.reason in lists && e.node in lists[e.reason] && e.reason in g && e.node in g &&
    e == MakeEffect(g, e.reason, e.node)
  }

  /** The entries of all waves, in order. */
  function AllEffects(waves: seq<Wave>): seq<Effect> {
    if waves == [] then [] else AllEffects(waves[..|waves| - 1]) + waves[|waves| - 1].effects
  }

  /** The records named by some entry. */
  function NodesOf(es: seq<Effect>): set<string> {
    set e | e in es :: e.node
  }

  lemma NodesAppend(a: seq<Effect>, b: seq<Effect>)
    ensures NodesOf(a + b) == NodesOf(a) + NodesOf(b)
  {
    forall x | x in NodesOf(a + b) ensures x in NodesOf(a) + NodesOf(b) {
      var e :| e in a + b && e.node == x;
    }
  }

  lemma AllEffectsAppend(waves: seq<Wave>, w: Wave)
    ensures AllEffects(waves + [w]) == AllEffects(waves) + w.effects
  {
    assert (waves + [w])[..|waves|] == waves;
  }

  /** Distinct records reached are no more than the entries: `unique_affected <= total_affected`. */
  lemma {:induction false} NodesCard(es: seq<Effect>)
    ensures |NodesOf(es)| <= |es|
  {
    if es != [] {
      NodesCard(es[1..]);
      NodesAppend([es[0]], es[1..]);
      assert es == [es[0]] + es[1..];
      assert NodesOf([es[0]]) == {es[0].node};
    }
  }

  /** The totals a cascade reports: all entries and distinct records. */
  function Totals(waves: seq<Wave>): (r: (nat, nat))
    ensures r.1 <= r.0
  {
    NodesCard(AllEffects(waves));
    (|AllEffects(waves)|, |NodesOf(AllEffects(waves))|)
  }

  /** The entries of one record `nid` just visited: one per successor not yet visited. */
  method Spread(g: Graph, lists: map<string, seq<string>>, nid: string, visited: set<string>, next0: set<string>)
    returns (es: seq<Effect>, next: set<string>)
    requires ListsOver(g, lists) && nid in lists && nid in visited
    ensures forall e :: e in es ==> EffectOk(g, lists, e) && e.reason == nid && e.node !in visited
    ensures next == next0 + NodesOf(es)
    ensures forall y :: y in lists[nid] ==> y in visited || y in NodesOf(es)
  {
    var succ := lists[nid];
    es, next := [], next0;
    for k := 0 to |succ|
      invariant forall e :: e in es ==> EffectOk(g, lists, e) && e.reason == nid && e.node !in visited
      invariant next == next0 + NodesOf(es)
      invariant forall y :: y in succ[..k] ==> y in visited || y in NodesOf(es)
    {
      assert succ[..k + 1] == succ[..k] + [succ[k]];
      var d := succ[k];
      if d !in visited {
        NodesAppend(es, [MakeEffect(g, nid, d)]);
        assert NodesOf([MakeEffect(g, nid, d)]) == {d};
        es := es + [MakeEffect(g, nid, d)];
        next := next + {d};
      }
    }
    assert succ[..|succ|] == succ;
  }

  /** One wave: the records of `batch` (the sorted changed set) not yet visited are visited in
      turn and spread to their successors. */
  method WaveStep(g: Graph, lists: map<string, seq<string>>, batch: seq<string>, visited0: set<string>)
    returns (visited: set<string>, es: seq<Effect>, next: set<string>)
    requires ListsOver(g, lists) && forall x :: x in batch ==> x in lists
    ensures visited == visited0 + Elems(batch)
    ensures next == NodesOf(es)
    ensures forall e :: e in es ==> EffectOk(g, lists, e) && e.reason in batch && e.node !in visited0 && e.node != e.reason
    ensures forall x, y :: x in batch && x !in visited0 && y in lists[x] ==> y in visited || y in next
    ensures Elems(batch) <= visited0 ==> es == []
  {
    visited, es, next := visited0, [], {};
    for k := 0 to |batch|
      invariant visited == visited0 + Elems(batch[..k])
      invariant next == NodesOf(es)
      invariant forall e :: e in es ==> EffectOk(g, lists, e) && e.reason in batch[..k] && e.node !in visited0 && e.node != e.reason
      invariant forall x, y :: x in batch[..k] && x !in visited0 && y in lists[x] ==> y in visited || y in next
      invariant Elems(batch[..k]) <= visited0 ==> es == []
    {
      assert batch[..k + 1] == batch[..k] + [batch[k]];
      var nid := batch[k];
      if nid !in visited {
        visited := visited + {nid};
        var more, next' := Spread(g, lists, nid, visited, next);
        NodesAppend(es, more);
        es, next := es + more, next';
      }
    }
    assert batch[..|batch|] == batch;
  }

  /** Reachability in zero or more steps to a different record is reachability in one or more. */
  lemma ReachesOther(adj: Adj, a: string, b: string)
    requires a != b
    ensures Reaches(adj, a, b) <==> ReachesPlus(adj, a, b)
  {
  }

  /** What a wave keeps: entries name exactly the visited and changed records other than the
      start, all of which the start reaches, and a visited record's successors are visited or
      changed. */
  ghost predicate WaveInv(g: Graph, lists: map<string, seq<string>>, start: string,
                          visited: set<string>, changed: set<string>, waves: seq<Wave>) {
    WaveShape(lists, start, visited, changed) && WaveNodes(start, visited, changed, waves) &&
    WaveReach(lists, start, visited, changed) && WaveClosed(lists, visited, changed) &&
    WaveEffects(g, lists, waves)
  }

  ghost predicate WaveShape(lists: map<string, seq<string>>, start: string, visited: set<string>, changed: set<string>) {
    changed <= lists.Keys && visited <= lists.Keys &&
    (visited == {} ==> changed == {start}) && (visited != {} ==> start in visited)
  }

  ghost predicate WaveNodes(start: string, visited: set<string>, changed: set<string>, waves: seq<Wave>) {
    forall x :: x in NodesOf(AllEffects(waves)) <==> x in visited + changed && x != start
  }

  ghost predicate WaveReach(lists: map<string, seq<string>>, start: string, visited: set<string>, changed: set<string>) {
    forall x :: x in visited + changed ==> Reaches(EdgesOf(lists), start, x)
  }

  ghost predicate WaveClosed(lists: map<string, seq<string>>, visited: set<string>, changed: set<string>) {
    forall x, y :: x in visited && x in lists && y in lists[x] ==> y in visited + changed
  }

  ghost predicate WaveEffects(g: Graph, lists: map<string, seq<string>>, waves: seq<Wave>) {
    (forall e :: e in AllEffects(waves) ==> EffectOk(g, lists, e)) &&
    (forall k :: 0 <= k < |waves| ==> waves[k].num == k + 1 && waves[k].effects != [])
  }

  /** What `WaveStep` promises about one wave. */
  ghost predicate StepFacts(g: Graph, lists: map<string, seq<string>>, batch: seq<string>, visited0: set<string>,
                            visited: set<string>, es: seq<Effect>, next: set<string>) {
    visited == visited0 + Elems(batch) && next == NodesOf(es) &&
    (forall e :: e in es ==> EffectOk(g, lists, e) && e.reason in batch && e.node !in visited0 && e.node != e.reason)
  }

  lemma KeepShape(g: Graph, lists: map<string, seq<string>>, start: string, visited0: set<string>,
                  changed: set<string>, batch: seq<string>, visited: set<string>, es: seq<Effect>, next: set<string>)
    requires ListsOver(g, lists)
    requires WaveShape(lists, start, visited0, changed) && Elems(batch) == changed
    requires StepFacts(g, lists, batch, visited0, visited, es, next)
    ensures WaveShape(lists, start, visited, next)
  {
    forall x | x in next ensures x in lists {
      var e :| e in es && e.node == x;
    }
  }

  lemma KeepNodes(g: Graph, lists: map<string, seq<string>>, start: string, visited0: set<string>,
                  changed: set<string>, waves: seq<Wave>, batch: seq<string>, num: nat,
                  visited: set<string>, es: seq<Effect>, next: set<string>)
    requires WaveShape(lists, start, visited0, changed) && WaveNodes(start, visited0, changed, waves)
    requires Elems(batch) == changed
    requires StepFacts(g, lists, batch, visited0, visited, es, next)
    ensures WaveNodes(start, visited, next, if es != [] then waves + [Wave(num, es)] else waves)
  {
    var waves' := if es != [] then waves + [Wave(num, es)] else waves;
    if es != [] {
      AllEffectsAppend(waves, Wave(num, es));
    }
    assert AllEffects(waves') == AllEffects(waves) + es;
    NodesAppend(AllEffects(waves), es);
    forall x | x in next ensures x != start {
      var e :| e in es && e.node == x;
      if visited0 == {} {
        assert e.reason in Elems(batch);
      }
    }
  }

  lemma KeepReach(g: Graph, lists: map<string, seq<string>>, start: string, visited0: set<string>,
                  changed: set<string>, batch: seq<string>, visited: set<string>, es: seq<Effect>, next: set<string>)
    requires WaveReach(lists, start, visited0, changed) && Elems(batch) == changed
    requires StepFacts(g, lists, batch, visited0, visited, es, next)
    ensures WaveReach(lists, start, visited, next)
  {
    var adj := EdgesOf(lists);
    forall x | x in next ensures Reaches(adj, start, x) {
      var e :| e in es && e.node == x;
      EdgesOfEdge(lists, e.reason, x);
      assert e.reason in changed;
      ReachesStep(adj, start, e.reason, x);
    }
  }

  lemma KeepClosed(lists: map<string, seq<string>>, visited0: set<string>, changed: set<string>,
                   batch: seq<string>, visited: set<string>, next: set<string>)
    requires WaveClosed(lists, visited0, changed) && Elems(batch) == changed
    requires visited == visited0 + Elems(batch)
    requires forall x :: x in batch ==> x in lists
    requires forall x, y :: x in batch && x !in visited0 && y in lists[x] ==> y in visited || y in next
    ensures WaveClosed(lists, visited, next)
  {
  }

  lemma KeepEffects(g: Graph, lists: map<string, seq<string>>, waves: seq<Wave>, num: nat, es: seq<Effect>)
    requires WaveEffects(g, lists, waves) && num == |waves| + 1
    requires forall e :: e in es ==> EffectOk(g, lists, e)
    ensures WaveEffects(g, lists, if es != [] then waves + [Wave(num, es)] else waves)
  {
    if es != [] {
      AllEffectsAppend(waves, Wave(num, es));
    }
  }

  /** One pass of the loop of `Propagate`. */
  method Advance(g: Graph, lists: map<string, seq<string>>, start: string, visited0: set<string>,
                 changed0: set<string>, waves0: seq<Wave>, num: nat)
    returns (visited: set<string>, changed: set<string>, waves: seq<Wave>)
    requires ListsOver(g, lists) && start in lists
    requires WaveInv(g, lists, start, visited0, changed0, waves0) && num == |waves0| + 1
    ensures WaveInv(g, lists, start, visited, changed, waves)
    ensures changed != {} ==> num == |waves|
    ensures |lists.Keys - visited| < |lists.Keys - visited0| || (visited == visited0 && changed == {})
  {
    var batch := SortedElements(changed0);
    assert Elems(batch) == changed0;
    var es, next;
    visited, es, next := WaveStep(g, lists, batch, visited0);
    KeepShape(g, lists, start, visited0, changed0, batch, visited, es, next);
    KeepNodes(g, lists, start, visited0, changed0, waves0, batch, num, visited, es, next);
    KeepReach(g, lists, start, visited0, changed0, batch, visited, es, next);
    KeepClosed(lists, visited0, changed0, batch, visited, next);
    KeepEffects(g, lists, waves0, num, es);
    if visited != visited0 {
      ProperSubsetCard(lists.Keys - visited, lists.Keys - visited0);
    }
    waves := if es != [] then waves0 + [Wave(num, es)] else waves0;
    changed := next;
  }

  /** An edge of the relation the lists describe is an entry of a list. */
  lemma EdgesOfEdge(lists: map<string, seq<string>>, u: string, v: string)
    ensures Edge(EdgesOf(lists), u, v) <==> u in lists && v in lists[u]
  {
  }

  /** `changed` starts as the start record; each pass visits the changed records in sorted order
      and collects the next changed set, recording a wave when it has entries. */
  method Propagate(g: Graph, lists: map<string, seq<string>>, start: string) returns (waves: seq<Wave>)
    requires ListsOver(g, lists) && start in lists
    ensures forall x :: x in NodesOf(AllEffects(waves)) <==> x != start && ReachesPlus(EdgesOf(lists), start, x)
    ensures forall e :: e in AllEffects(waves) ==> EffectOk(g, lists, e)
    ensures forall k :: 0 <= k < |waves| ==> waves[k].num == k + 1 && waves[k].effects != []
  {
    var changed: set<string> := {start};
    var visited: set<string> := {};
    var num := 0;
    waves := [];
    ReachesRefl(EdgesOf(lists), start);
    while changed != {}
      invariant WaveInv(g, lists, start, visited, changed, waves)
      invariant changed != {} ==> num == |waves|
      decreases |lists.Keys - visited|, if changed == {} then 0 else 1
    {
      num := num + 1;
      visited, changed, waves := Advance(g, lists, start, visited, changed, waves, num);
    }
    WavesDone(g, lists, start, visited, waves);
  }

  /** Once nothing changed, the visited records are closed under the edges, so they are exactly
      what the start reaches. */
  lemma WavesDone(g: Graph, lists: map<string, seq<string>>, start: string, visited: set<string>, waves: seq<Wave>)
    requires ListsOver(g, lists) && start in lists
    requires WaveInv(g, lists, start, visited, {}, waves)
    ensures forall x :: x in NodesOf(AllEffects(waves)) <==> x != start && ReachesPlus(EdgesOf(lists), start, x)
  {
    var adj := EdgesOf(lists);
    forall u, v | u in visited && Edge(adj, u, v) ensures v in visited {
      EdgesOfEdge(lists, u, v);
      assert v in visited + {};
    }
    forall x ensures x in NodesOf(AllEffects(waves)) <==> x != start && ReachesPlus(adj, start, x) {
      if x != start {
        ReachesOther(adj, start, x);
        if Reaches(adj, start, x) {
          ClosedReaches(adj, visited, start, x);
        }
      }
    }
  }

  /** The dependents of every record, as `get_dependents` lists them. */
  function DependentsLists(g: Graph, order: seq<string>): map<string, seq<string>>
    requires forall x :: x in order ==> x in g
  {
    map x | x in g :: Dependents(g, order, x)
  }

  lemma DependentsListsEdges(g: Graph, order: seq<string>)
    requires IsOrder(g, order)
    ensures ListsOver(g, DependentsLists(g, order))
    ensures EdgesOf(DependentsLists(g, order)) == RevAdj(g)
  {
    var lists := DependentsLists(g, order);
    forall u | u in g ensures EdgesOf(lists)[u] == RevAdj(g)[u] {
    }
    MapExt(EdgesOf(lists), RevAdj(g));
  }

  /** `cmd_cascade`: the records that need review after `start` changed, wave by wave. The
      entries name exactly the records that depend on `start` directly or transitively, never
      `start` itself, and each entry's reason is a record the entry's record depends on. */
  method Cascade(g: Graph, order: seq<string>, start: string) returns (r: Result<seq<Wave>, Error>)
    requires IsOrder(g, order)
    ensures r.Err? <==> start !in g
    ensures r.Err? ==> r.error == NotFound(start)
    ensures r.Ok? ==> forall x :: x in NodesOf(AllEffects(r.value)) <==> x != start && ReachesPlus(RevAdj(g), start, x)
    ensures r.Ok? ==> forall e :: e in AllEffects(r.value) ==>
              e.reason in g && e.node in g && e.reason in DepsList(g[e.node]) && e == MakeEffect(g, e.reason, e.node)
    ensures r.Ok? ==> forall k :: 0 <= k < |r.value| ==> r.value[k].num == k + 1 && r.value[k].effects != []
  {
    if start !in g {
      return Err(NotFound(start));
    }
    DependentsListsEdges(g, order);
    var waves := Propagate(g, DependentsLists(g, order), start);
    r := Ok(waves);
  }

  /** `cmd_cascade_reverse`: the records `start` depends on directly or transitively, wave by
      wave; each entry's reason is a record that depends on the entry's record. */
  method CascadeReverse(g: Graph, start: string) returns (r: Result<seq<Wave>, Error>)
    ensures r.Err? <==> start !in g
    ensures r.Err? ==> r.error == NotFound(start)
    ensures r.Ok? ==> forall x :: x in NodesOf(AllEffects(r.value)) <==> x != start && ReachesPlus(DepAdj(g), start, x)
    ensures r.Ok? ==> forall e :: e in AllEffects(r.value) ==>
              e.reason in g && e.node in g && e.node in DepsList(g[e.reason]) && e == MakeEffect(g, e.reason, e.node)
    ensures r.Ok? ==> forall k :: 0 <= k < |r.value| ==> r.value[k].num == k + 1 && r.value[k].effects != []
  {
    if start !in g {
      return Err(NotFound(start));
    }
    AdjListsEdges(g);
    var waves := Propagate(g, AdjLists(g), start);
    r := Ok(waves);
  }

  /** The forward cascade from `a` reaches `b` exactly when the reverse cascade from `b`
      reaches `a`. */
  lemma CascadeMirror(g: Graph, a: string, b: string)
    ensures ReachesPlus(RevAdj(g), a, b) <==> ReachesPlus(DepAdj(g), b, a)
  {
    if ReachesPlus(RevAdj(g), a, b) {
      var p :| IsPath(RevAdj(g), p) && |p| >= 2 && p[0] == a && p[|p| - 1] == b;
      var q := Reverse(p);
      forall i | 0 <= i < |q| - 1 ensures Edge(DepAdj(g), q[i], q[i + 1]) {
        RevAdjConverse(g, p[|p| - 2 - i], p[|p| - 1 - i]);
      }
      assert IsPath(DepAdj(g), q);
    }
    if ReachesPlus(DepAdj(g), b, a) {
      var p :| IsPath(DepAdj(g), p) && |p| >= 2 && p[0] == b && p[|p| - 1] == a;
      var q := Reverse(p);
      forall i | 0 <= i < |q| - 1 ensures Edge(RevAdj(g), q[i], q[i + 1]) {
        RevAdjConverse(g, p[|p| - 1 - i], p[|p| - 2 - i]);
      }
      assert IsPath(RevAdj(g), q);
    }
  }

  function Reverse(p: seq<string>): (q: seq<string>)
    ensures |q| == |p| && forall i :: 0 <= i < |p| ==> q[i] == p[|p| - 1 - i]
  {
    seq(|p|, i requires 0 <= i < |p| => p[|p| - 1 - i])
  }

  // ---------------------------------------------------------------------------
  // Transitive downstream
  // ---------------------------------------------------------------------------

  /** `d.get(x, set())`. */
  function SetAt(m: Adj, x: string): set<string> {
    if x in m then m[x] else {}
  }

  /** The records among `done` that list `x`, when `x` exists. */
  ghost function Collected(g: Graph, done: seq<string>, x: string): set<string>
    requires forall y :: y in done ==> y in g
  {
    set y | y in done && x in g && x in DepsList(g[y])
  }

  lemma CollectedAppend(g: Graph, done: seq<string>, nid: string, x: string)
    requires forall y :: y in done ==> y in g
    requires nid in g
    ensures Collected(g, done + [nid], x) ==
            Collected(g, done, x) + (if x in DepsList(g[nid]) && x in g then {nid} else {})
  {
    assert forall y :: y in done + [nid] <==> y in done || y == nid;
  }

  /** One dependency of the inner loop: an existing `deps[j]` gains `nid` as a dependent. */
  lemma AddDependentStep(g: Graph, done: seq<string>, nid: string, deps: seq<string>, j: nat, rev: Adj)
    requires forall y :: y in done ==> y in g
    requires j < |deps|
    requires forall x :: SetAt(rev, x) == Collected(g, done, x) + (if x in deps[..j] && x in g then {nid} else {})
    ensures var rev' := if deps[j] in g then rev[deps[j] := SetAt(rev, deps[j]) + {nid}] else rev;
            forall x :: SetAt(rev', x) == Collected(g, done, x) + (if x in deps[..j + 1] && x in g then {nid} else {})
  {
    assert deps[..j + 1] == deps[..j] + [deps[j]];
  }

  /** The inner loop: `nid` is added to the dependent set of each existing dependency. */
  method AddDependent(g: Graph, rev0: Adj, ghost done: seq<string>, nid: string) returns (rev: Adj)
    requires nid in g && forall y :: y in done ==> y in g
    requires forall x :: x in rev0 ==> x in g
    requires forall x :: SetAt(rev0, x) == Collected(g, done, x)
    ensures forall x :: x in rev ==> x in g
    ensures forall x :: SetAt(rev, x) == Collected(g, done + [nid], x)
  {
    var deps := DepsList(g[nid]);
    rev := rev0;
    for j := 0 to |deps|
      invariant forall x :: x in rev ==> x in g
      invariant forall x :: SetAt(rev, x) == Collected(g, done, x) + (if x in deps[..j] && x in g then {nid} else {})
    {
      AddDependentStep(g, done, nid, deps, j, rev);
      var d := deps[j];
      if d in g {
        rev := rev[d := SetAt(rev, d) + {nid}];
      }
    }
    assert deps[..|deps|] == deps;
    forall x ensures SetAt(rev, x) == Collected(g, done + [nid], x) {
      CollectedAppend(g, done, nid, x);
    }
  }

  /** `reverse_adj`: for each existing record, the records that list it. */
  method ReverseAdjacency(g: Graph, order: seq<string>) returns (rev: Adj)
    requires IsOrder(g, order)
    ensures forall x :: x in rev ==> x in g
    ensures forall x :: x in g ==> SetAt(rev, x) == RevAdj(g)[x]
  {
    rev := map[];
    for k := 0 to |order|
      invariant forall x :: x in rev ==> x in g
      invariant forall x :: SetAt(rev, x) == Collected(g, order[..k], x)
    {
      assert order[..k + 1] == order[..k] + [order[k]];
      rev := AddDependent(g, rev, order[..k], order[k]);
    }
    assert order[..|order|] == order;
  }

  /** Everything some set of `adj` holds. */
  ghost function Values(adj: Adj): set<string> {
    set x, y | x in adj && y in adj[x] :: y
  }

  /** The search from one record: a queue seeded with its successors, popped from the front;
      a record seen before is skipped, otherwise it is marked and its unmarked successors are
      appended. */
  method Downstream(adj: Adj, nid: string) returns (visited: set<string>)
    ensures forall y :: y in visited <==> ReachesPlus(adj, nid, y)
  {
    ghost var universe := Values(adj);
    visited := {};
    var queue := Enumerate(SetAt(adj, nid));
    forall y | y in queue ensures ReachesPlus(adj, nid, y) {
      assert IsPath(adj, [nid, y]);
    }
    while queue != []
      invariant BfsInv(adj, nid, universe, visited, queue)
      decreases |universe - visited|, |queue|
    {
      visited, queue := BfsTurn(adj, nid, universe, visited, queue);
    }
    forall y | ReachesPlus(adj, nid, y) ensures y in visited {
      ReachesPlusSplit(adj, nid, y);
      var b :| Edge(adj, nid, b) && Reaches(adj, b, y);
      ClosedReaches(adj, visited, b, y);
    }
  }

  /** What the queue loop of `Downstream` keeps: everything seen is reachable, and the visited
      records are closed under edges up to the records still queued. */
  ghost predicate BfsInv(adj: Adj, nid: string, universe: set<string>, visited: set<string>, queue: seq<string>) {
    && visited <= universe && (forall y :: y in queue ==> y in universe)
    && (forall y :: y in visited || y in queue ==> ReachesPlus(adj, nid, y))
    && (forall y :: y in SetAt(adj, nid) ==> y in visited || y in queue)
    && (forall x, y :: x in visited && Edge(adj, x, y) ==> y in visited || y in queue)
  }

  /** One turn of the queue loop: the head is taken off and, unless already visited, visited
      and its unvisited dependents queued. */
  method BfsTurn(adj: Adj, ghost nid: string, ghost universe: set<string>, visited: set<string>, queue: seq<string>)
    returns (visited': set<string>, queue': seq<string>)
    requires queue != [] && universe == Values(adj)
    requires BfsInv(adj, nid, universe, visited, queue)
    ensures BfsInv(adj, nid, universe, visited', queue')
    ensures |universe - visited'| < |universe - visited| || (visited' == visited && |queue'| < |queue|)
  {
    var current := queue[0];
    if current in visited {
      SkipKeeps(adj, nid, universe, visited, queue);
      return visited, queue[1..];
    }
    var more := Enumerate(SetAt(adj, current) - (visited + {current}));
    VisitKeeps(adj, nid, universe, visited, queue, more);
    visited' := visited + {current};
    queue' := queue[1..] + more;
  }

  /** A head already visited is dropped. */
  lemma SkipKeeps(adj: Adj, nid: string, universe: set<string>, visited: set<string>, queue: seq<string>)
    requires queue != [] && queue[0] in visited
    requires BfsInv(adj, nid, universe, visited, queue)
    ensures BfsInv(adj, nid, universe, visited, queue[1..])
  {
    assert forall y :: y in queue ==> y == queue[0] || y in queue[1..];
  }

  /** A head not yet visited is visited, and its unvisited dependents queued. */
  lemma VisitKeeps(adj: Adj, nid: string, universe: set<string>, visited: set<string>, queue: seq<string>,
                   more: seq<string>)
    requires queue != [] && queue[0] !in visited && universe == Values(adj)
    requires BfsInv(adj, nid, universe, visited, queue)
    requires forall y :: y in more <==> y in SetAt(adj, queue[0]) - (visited + {queue[0]})
    ensures BfsInv(adj, nid, universe, visited + {queue[0]}, queue[1..] + more)
    ensures |universe - (visited + {queue[0]})| < |universe - visited|
  {
    var current := queue[0];
    var v' := visited + {current};
    var q' := queue[1..] + more;
    assert forall y :: y in queue ==> y == current || y in queue[1..];
    assert current in universe;
    ProperSubsetCard(universe - v', universe - visited);
    forall y | y in more ensures ReachesPlus(adj, nid, y) && y in universe {
      ReachesStep(adj, nid, current, y);
    }
    forall x, y | x in v' && Edge(adj, x, y) ensures y in v' || y in q' {
      if x == current {
        assert y in SetAt(adj, current);
      }
    }
  }

  /** Two adjacency maps with the same edges have the same reachability. */
  lemma SameReach(a: Adj, b: Adj, x: string, y: string)
    requires forall u, v :: Edge(a, u, v) <==> Edge(b, u, v)
    ensures ReachesPlus(a, x, y) <==> ReachesPlus(b, x, y)
  {
    forall p ensures IsPath(a, p) <==> IsPath(b, p) {
    }
  }

  /** `_compute_transitive_downstream`: for every record, the records that depend on it
      directly or transitively (the record itself only when it lies on a cycle). */
  method TransitiveDownstream(g: Graph, order: seq<string>) returns (result: map<string, set<string>>)
    requires IsOrder(g, order)
    ensures result.Keys == g.Keys
    ensures forall x, y :: x in g ==> (y in result[x] <==> ReachesPlus(RevAdj(g), x, y))
  {
    var rev := ReverseAdjacency(g, order);
    forall u, v ensures Edge(rev, u, v) <==> Edge(RevAdj(g), u, v) {
      if u in g {
        assert SetAt(rev, u) == RevAdj(g)[u];
      }
    }
    result := map[];
    for k := 0 to |order|
      invariant forall x :: x in result <==> x in order[..k]
      invariant forall x, y :: x in result ==> (y in result[x] <==> ReachesPlus(RevAdj(g), x, y))
    {
      assert order[..k + 1] == order[..k] + [order[k]];
      var seen := Downstream(rev, order[k]);
      forall y ensures y in seen <==> ReachesPlus(RevAdj(g), order[k], y) {
        SameReach(rev, RevAdj(g), order[k], y);
      }
      result := result[order[k] := seen];
    }
    assert order[..|order|] == order;
  }
}
