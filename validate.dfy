/** `cmd_validate` (tools/dna-graph.py:611-794), the structural checks of the whole graph:
    field vocabularies, reference integrity, cycles, orphans, level order, the iron rule and
    the health of committed records. */
module Validate {
  import opened Util
  import opened Frontmatter
  import opened Reach
  import opened Decisions
  import opened Transitions
  import opened PreValidate

  // ---------------------------------------------------------------------------
  // The cycle search
  // ---------------------------------------------------------------------------

  datatype Color = White | Gray | Black

  /** The identifiers painted `k`. */
  ghost function Painted(c: map<string, Color>, k: Color): set<string> {
    set x | x in c && c[x] == k
  }

  lemma Repaint(c: map<string, Color>, x: string, k: Color)
    requires x in c
    ensures forall j :: Painted(c[x := k], j) == if j == k then Painted(c, j) + {x} else Painted(c, j) - {x}
  {
  }

  /** The dependencies that exist, in order and with repeats. */
  function Existing(deps: seq<string>, g: Graph): (r: seq<string>)
    ensures forall d :: d in r <==> d in deps && d in g
  {
    if deps == [] then []
    else (if deps[0] in g then [deps[0]] else []) + Existing(deps[1..], g)
  }

  lemma MapExt(a: Adj, b: Adj)
    requires a.Keys == b.Keys && forall u :: u in a ==> a[u] == b[u]
    ensures a == b
  {
  }

  lemma ExistingElems(deps: seq<string>, g: Graph)
    ensures Elems(Existing(deps, g)) == set d | d in deps && d in g
  {
  }

  /** The successor lists of the search (tools/dna-graph.py:658-663). */
  function AdjLists(g: Graph): (adj: map<string, seq<string>>)
    ensures adj.Keys == g.Keys
    ensures forall u, v :: u in adj && v in adj[u] ==> v in g
  {
    map x | x in g :: Existing(DepsList(g[x]), g)
  }

  /** The edge relation the successor lists describe. */
  ghost function EdgesOf(adj: map<string, seq<string>>): Adj {
    map u | u in adj :: Elems(adj[u])
  }

  lemma AdjListsEdges(g: Graph)
    ensures EdgesOf(AdjLists(g)) == DepAdj(g)
  {
    var adj := AdjLists(g);
    var e := DepAdj(g);
    assert EdgesOf(adj).Keys == e.Keys;
    forall u | u in g ensures EdgesOf(adj)[u] == e[u] {
      ExistingElems(DepsList(g[u]), g);
    }
    MapExt(EdgesOf(adj), e);
  }

  /** The state of the search: a colour per record and the cycles reported so far. */
  datatype Search = Search(color: map<string, Color>, cycles: seq<seq<string>>)

  /** Every successor is coloured, and every reported path is a cycle. */
  ghost predicate Shape(adj: map<string, seq<string>>, s: Search) {
    adj.Keys <= s.color.Keys &&
    (forall u, v :: u in adj && v in adj[u] ==> v in s.color) &&
    (forall k :: 0 <= k < |s.cycles| ==> IsCycle(EdgesOf(adj), s.cycles[k]))
  }

  /** While no cycle has been reported: the finished records are closed under edges and none
      of them lies on a cycle. */
  ghost predicate Sound(adj: map<string, seq<string>>, s: Search) {
    s.cycles == [] ==>
      Closed(EdgesOf(adj), Painted(s.color, Black)) &&
      forall b :: b in Painted(s.color, Black) ==> !ReachesPlus(EdgesOf(adj), b, b)
  }

  /** From one moment of the search to a later one: the records are the same, finished
      records stay finished, visited ones stay visited, and reported cycles are kept. */
  ghost predicate Progress(s: Search, t: Search) {
    t.color.Keys == s.color.Keys &&
    (forall x :: x in s.color && s.color[x] == Black ==> t.color[x] == Black) &&
    (forall x :: x in s.color && s.color[x] != White ==> t.color[x] != White) &&
    Painted(t.color, White) <= Painted(s.color, White) &&
    |s.cycles| <= |t.cycles| && t.cycles[..|s.cycles|] == s.cycles
  }

  lemma ProgressTrans(a: Search, b: Search, c: Search)
    requires Progress(a, b) && Progress(b, c)
    ensures Progress(a, c)
  {
    assert c.cycles[..|b.cycles|][..|a.cycles|] == c.cycles[..|a.cycles|];
  }

  /** One successor handled without a cycle: the search so far still makes progress from `s`,
      `u` is still not WHITE, and the first `i + 1` successors are finished. */
  lemma StepKeeps(s: Search, t0: Search, t: Search, u: string, succ: seq<string>, i: nat)
    requires i < |succ| && Progress(s, t0) && Progress(t0, t)
    requires Painted(t0.color, White) <= Painted(s.color, White) - {u}
    requires forall j :: 0 <= j < i ==> succ[j] in t0.color && t0.color[succ[j]] == Black
    requires succ[i] in t.color && t.color[succ[i]] == Black
    ensures Progress(s, t)
    ensures Painted(t.color, White) <= Painted(s.color, White) - {u}
    ensures forall j :: 0 <= j < i + 1 ==> succ[j] in t.color && t.color[succ[j]] == Black
  {
    ProgressTrans(s, t0, t);
  }

  /** Entering `u`: painting it GRAY keeps the search sound and removes `u` from the WHITE ones. */
  lemma Enter(adj: map<string, seq<string>>, s: Search, u: string, path: seq<string>)
    requires Shape(adj, s) && Sound(adj, s)
    requires u in s.color && s.color[u] == White
    requires |path| >= 1 && path[|path| - 1] == u
    requires Painted(s.color, Gray) == Elems(path[..|path| - 1])
    ensures var t := s.(color := s.color[u := Gray]);
      Shape(adj, t) && Sound(adj, t) && Progress(s, t) &&
      Painted(t.color, Gray) == Elems(path) && Painted(t.color, White) == Painted(s.color, White) - {u}
  {
    assert path == path[..|path| - 1] + [u];
    assert Elems(path) == Elems(path[..|path| - 1]) + {u};
    Repaint(s.color, u, Gray);
  }

  /** Leaving `u`: painting it BLACK keeps the search sound, provided that, while no cycle has
      been reported, all its successors are already finished. */
  lemma Leave(adj: map<string, seq<string>>, s: Search, t: Search, u: string, path: seq<string>,
              succ: seq<string>)
    requires Shape(adj, t) && Sound(adj, t) && Progress(s, t)
    requires u in s.color && s.color[u] == White
    requires |path| >= 1 && path[|path| - 1] == u
    requires Painted(s.color, Gray) == Elems(path[..|path| - 1])
    requires t.color[u] == Gray && Painted(t.color, Gray) == Elems(path)
    requires succ == if u in adj then adj[u] else []
    requires t.cycles == [] ==> forall j :: 0 <= j < |succ| ==> succ[j] in t.color && t.color[succ[j]] == Black
    ensures var r := t.(color := t.color[u := Black]);
      Shape(adj, r) && Sound(adj, r) && Progress(s, r) &&
      r.color[u] == Black && Painted(r.color, Gray) == Elems(path[..|path| - 1])
  {
    var prefix := path[..|path| - 1];
    assert path == prefix + [u];
    assert u !in prefix by {
      assert u !in Painted(s.color, Gray);
    }
    assert Elems(path) - {u} == Elems(prefix);
    var before := Painted(t.color, Black);
    Repaint(t.color, u, Black);
    if t.cycles == [] {
      forall v | Edge(EdgesOf(adj), u, v) ensures v in before {
        var j := IndexOf(succ, v);
        assert t.color[succ[j]] == Black;
      }
      NoCycleThrough(EdgesOf(adj), before, u);
    }
  }

  /** `dfs(u, path)` (tools/dna-graph.py:668-680), with the correction that a record after
      whose successor a cycle was found is finished (BLACK) rather than left GRAY. */
  method Dfs(adj: map<string, seq<string>>, u: string, path: seq<string>, s: Search) returns (t: Search)
    requires Shape(adj, s) && Sound(adj, s)
    requires u in s.color && s.color[u] == White
    requires |path| >= 1 && path[|path| - 1] == u && IsPath(EdgesOf(adj), path)
    requires Painted(s.color, Gray) == Elems(path[..|path| - 1])
    ensures Shape(adj, t) && Sound(adj, t) && Progress(s, t)
    ensures t.color[u] == Black
    ensures Painted(t.color, Gray) == Elems(path[..|path| - 1])
    decreases |Painted(s.color, White)|, 1
  {
    Enter(adj, s, u, path);
    t := s.(color := s.color[u := Gray]);
    var succ := if u in adj then adj[u] else [];
    var i := 0;
    while i < |succ|
      invariant 0 <= i <= |succ|
      invariant Shape(adj, t) && Sound(adj, t) && Progress(s, t)
      invariant t.color[u] == Gray && Painted(t.color, Gray) == Elems(path)
      invariant Painted(t.color, White) <= Painted(s.color, White) - {u}
      invariant forall j :: 0 <= j < i ==> succ[j] in t.color && t.color[succ[j]] == Black
    {
      SubsetMinusCard(Painted(t.color, White), Painted(s.color, White), u);
      var done;
      ghost var t0 := t;
      done, t := Visit(adj, u, path, succ[i], t);
      if done {
        ProgressTrans(s, t0, t);
        Leave(adj, s, t, u, path, succ);
        t := t.(color := t.color[u := Black]);
        return;
      }
      StepKeeps(s, t0, t, u, succ, i);
      i := i + 1;
    }
    Leave(adj, s, t, u, path, succ);
    t := t.(color := t.color[u := Black]);
  }

  /** One successor `v` of the GRAY record `u` at the end of `path`: a GRAY `v` closes a cycle
      (`done`), a WHITE one is searched, a BLACK one is skipped. */
  method Visit(adj: map<string, seq<string>>, u: string, path: seq<string>, v: string, s: Search)
    returns (done: bool, t: Search)
    requires Shape(adj, s) && Sound(adj, s)
    requires |path| >= 1 && path[|path| - 1] == u && IsPath(EdgesOf(adj), path)
    requires u in s.color && s.color[u] == Gray && Painted(s.color, Gray) == Elems(path)
    requires u in adj && v in adj[u]
    ensures Shape(adj, t) && Sound(adj, t) && Progress(s, t)
    ensures done ==> t.color == s.color && t.cycles != []
    ensures !done ==> t.color[u] == Gray && Painted(t.color, Gray) == Elems(path)
    ensures !done ==> t.color[v] == Black
    decreases |Painted(s.color, White)|, 2
  {
    t := s;
    if v !in s.color {
      return false, t;
    }
    if s.color[v] == Gray {
      assert v in Painted(s.color, Gray);
      var start := IndexOf(path, v);
      assert IsPath(EdgesOf(adj), path[start..] + [v]);
      t := s.(cycles := s.cycles + [path[start..] + [v]]);
      return true, t;
    }
    if s.color[v] == White {
      assert (path + [v])[..|path|] == path;
      t := Dfs(adj, v, path + [v], s);
      assert u in Painted(t.color, Gray);
    }
    return false, t;
  }

  /** The search before any record is visited. */
  lemma Start(adj: map<string, seq<string>>, keys: set<string>)
    requires adj.Keys <= keys && forall u, v :: u in adj && v in adj[u] ==> v in keys
    ensures var s := Search(map x | x in keys :: White, []);
      Shape(adj, s) && Sound(adj, s) && s.color.Keys == keys && Painted(s.color, Gray) == {}
  {
    var s := Search(map x | x in keys :: White, []);
    assert Painted(s.color, Gray) == {} && Painted(s.color, Black) == {};
  }

  /** A search that has visited every record and reported no cycle shows the graph acyclic. */
  lemma Finish(adj: map<string, seq<string>>, order: seq<string>, s: Search)
    requires Shape(adj, s) && Sound(adj, s)
    requires forall x :: x in s.color ==> x in order
    requires Painted(s.color, Gray) == {}
    requires forall j :: 0 <= j < |order| ==> order[j] in s.color && s.color[order[j]] != White
    ensures s.cycles == [] <==> !HasCycle(EdgesOf(adj))
  {
    if s.cycles != [] {
      assert IsCycle(EdgesOf(adj), s.cycles[0]);
    } else {
      forall x | x in EdgesOf(adj) ensures x in Painted(s.color, Black) {
        var j := IndexOf(order, x);
        assert s.color[x] != White && x !in Painted(s.color, Gray);
      }
      AcyclicFromCover(EdgesOf(adj), Painted(s.color, Black));
    }
  }

  /** `for nid in nodes: if color[nid] == WHITE: dfs(nid, [nid])`: afterwards no record of
      `order` is left WHITE. */
  method SearchAll(adj: map<string, seq<string>>, order: seq<string>, s: Search) returns (t: Search)
    requires Shape(adj, s) && Sound(adj, s) && Painted(s.color, Gray) == {}
    requires forall x :: x in order ==> x in s.color
    ensures Shape(adj, t) && Sound(adj, t) && Painted(t.color, Gray) == {}
    ensures t.color.Keys == s.color.Keys
    ensures forall j :: 0 <= j < |order| ==> order[j] in t.color && t.color[order[j]] != White
  {
    t := s;
    for k := 0 to |order|
      invariant Shape(adj, t) && Sound(adj, t) && t.color.Keys == s.color.Keys
      invariant Painted(t.color, Gray) == {}
      invariant forall j :: 0 <= j < k ==> order[j] in t.color && t.color[order[j]] != White
    {
      assert order[k] in order;
      if t.color[order[k]] == White {
        ghost var t0 := t;
        t := Dfs(adj, order[k], [order[k]], t);
        forall j | 0 <= j < k ensures order[j] in t.color && t.color[order[j]] != White {
          assert order[j] in t0.color && t0.color[order[j]] != White;
        }
      }
    }
  }

  /** The cycle pass (tools/dna-graph.py:658-684): a search from every record still WHITE, in
      dict order. It reports a path only if it is a cycle, and reports none exactly when the
      graph has no cycle. */
  method FindCycles(g: Graph, order: seq<string>) returns (cycles: seq<seq<string>>)
    requires IsOrder(g, order)
    ensures forall k :: 0 <= k < |cycles| ==> IsCycle(DepAdj(g), cycles[k])
    ensures cycles == [] <==> !HasCycle(DepAdj(g))
  {
    var adj := AdjLists(g);
    Start(adj, g.Keys);
    var s := SearchAll(adj, order, Search(map x | x in g :: White, []));
    Finish(adj, order, s);
    AdjListsEdges(g);
    cycles := s.cycles;
  }

  // ---------------------------------------------------------------------------
  // The search as written
  // ---------------------------------------------------------------------------

  /** The state of the search as written: `crashed` records that `path.index` raised. */
  datatype Run = Run(color: map<string, Color>, cycles: seq<seq<string>>, crashed: bool)

  /** `dfs(u, path)` exactly as written (tools/dna-graph.py:668-680): after reporting a cycle
      it returns with `u` still GRAY. */
  function DfsAsWritten(adj: map<string, seq<string>>, u: string, path: seq<string>, r: Run): (res: Run)
    requires u in r.color && r.color[u] == White
    ensures res.color.Keys == r.color.Keys
    ensures Painted(res.color, White) <= Painted(r.color, White) - {u}
    decreases |Painted(r.color, White)|, 0, 0
  {
    Repaint(r.color, u, Gray);
    SubsetMinusCard(Painted(r.color[u := Gray], White), Painted(r.color, White), u);
    var step := EdgesAsWritten(adj, u, path, if u in adj then adj[u] else [], 0, r.(color := r.color[u := Gray]));
    if step.1 then step.0
    else
      Repaint(step.0.color, u, Black);
      step.0.(color := step.0.color[u := Black])
  }

  /** The loop of `dfs` over the successors from index `i` on; the flag says whether it left
      `dfs` early, after a cycle or a crash. */
  function EdgesAsWritten(adj: map<string, seq<string>>, u: string, path: seq<string>,
                          succ: seq<string>, i: nat, r: Run): (res: (Run, bool))
    requires i <= |succ|
    ensures res.0.color.Keys == r.color.Keys
    ensures Painted(res.0.color, White) <= Painted(r.color, White)
    decreases |Painted(r.color, White)|, 1, |succ| - i
  {
    if i == |succ| then (r, false)
    else
      var v := succ[i];
      if v !in r.color then EdgesAsWritten(adj, u, path, succ, i + 1, r)
      else if r.color[v] == Gray then
        if v in path then (r.(cycles := r.cycles + [path[IndexOf(path, v)..] + [v]]), true)
        else (r.(crashed := true), true)
      else if r.color[v] == White then
        var r1 := DfsAsWritten(adj, v, path + [v], r);
        if r1.crashed then (r1, true)
        else
          SubsetCard(Painted(r1.color, White), Painted(r.color, White));
          EdgesAsWritten(adj, u, path, succ, i + 1, r1)
      else EdgesAsWritten(adj, u, path, succ, i + 1, r)
  }

  /** `for nid in nodes: if color[nid] == WHITE: dfs(nid, [nid])` as written, from index `k` of
      the dict order on; a crash ends the pass. */
  function RootsAsWritten(adj: map<string, seq<string>>, order: seq<string>, k: nat, r: Run): (res: Run)
    requires k <= |order|
    ensures res.color.Keys == r.color.Keys
    ensures r.crashed ==> res == r
    decreases |order| - k
  {
    if k == |order| || r.crashed then r
    else if order[k] in r.color && r.color[order[k]] == White then
      RootsAsWritten(adj, order, k + 1, DfsAsWritten(adj, order[k], [order[k]], r))
    else RootsAsWritten(adj, order, k + 1, r)
  }

  /** The cycle pass of `cmd_validate` as written. */
  function FindCyclesAsWritten(g: Graph, order: seq<string>): Run {
    RootsAsWritten(AdjLists(g), order, 0, Run(map x | x in g :: White, [], false))
  }

  /** Three records: DEC-001 and DEC-002 depend on each other, and DEC-003 depends on DEC-002. */
  function CrashGraph(): Graph {
    map["DEC-001" := Rec(["DEC-002"]), "DEC-002" := Rec(["DEC-001"]), "DEC-003" := Rec(["DEC-002"])]
  }

  /** A project record with only a `depends_on` list. */
  function Rec(deps: seq<string>): Node {
    Node(map["depends_on" := List(seq(|deps|, k requires 0 <= k < |deps| => Str(deps[k])))], Project, "")
  }

  const CrashOrder: seq<string> := ["DEC-001", "DEC-002", "DEC-003"]

  lemma CrashIdsDistinct()
    ensures "DEC-001" != "DEC-002" && "DEC-001" != "DEC-003" && "DEC-002" != "DEC-003"
  {
    assert "DEC-001"[6] != "DEC-002"[6] && "DEC-001"[6] != "DEC-003"[6] && "DEC-002"[6] != "DEC-003"[6];
  }

  /** The successor lists of `CrashGraph`. */
  const CrashLists: map<string, seq<string>> :=
    map["DEC-001" := ["DEC-002"], "DEC-002" := ["DEC-001"], "DEC-003" := ["DEC-002"]]

  lemma CrashAdj()
    ensures AdjLists(CrashGraph()) == CrashLists
  {
    CrashIdsDistinct();
    var g := CrashGraph();
    assert DepsList(g["DEC-001"]) == ["DEC-002"];
    assert DepsList(g["DEC-002"]) == ["DEC-001"];
    assert DepsList(g["DEC-003"]) == ["DEC-002"];
    var adj := AdjLists(g);
    assert adj.Keys == CrashLists.Keys;
    assert adj["DEC-001"] == CrashLists["DEC-001"];
    assert adj["DEC-002"] == CrashLists["DEC-002"];
    assert adj["DEC-003"] == CrashLists["DEC-003"];
  }

  /** The colours after the search from DEC-001: the cycle is reported and DEC-002 is left GRAY. */
  const AfterFirst: Run :=
    Run(map["DEC-001" := Black, "DEC-002" := Gray, "DEC-003" := White],
        [["DEC-001", "DEC-002", "DEC-001"]], false)

  lemma CrashInner()
    ensures DfsAsWritten(CrashLists, "DEC-002", ["DEC-001", "DEC-002"],
                         Run(map["DEC-001" := Gray, "DEC-002" := White, "DEC-003" := White], [], false))
            == Run(map["DEC-001" := Gray, "DEC-002" := Gray, "DEC-003" := White],
                   [["DEC-001", "DEC-002", "DEC-001"]], false)
  {
    CrashIdsDistinct();
    var p2 := ["DEC-001", "DEC-002"];
    var rb := Run(map["DEC-001" := Gray, "DEC-002" := Gray, "DEC-003" := White], [], false);
    assert IndexOf(p2, "DEC-001") == 0;
    assert p2[0..] + ["DEC-001"] == ["DEC-001", "DEC-002", "DEC-001"];
    var succ := ["DEC-001"];
    assert succ[0] == "DEC-001";
    assert "DEC-001" in rb.color && rb.color["DEC-001"] == Gray;
    assert "DEC-001" in p2;
    assert EdgesAsWritten(CrashLists, "DEC-002", p2, succ, 0, rb)
           == (rb.(cycles := rb.cycles + [p2[IndexOf(p2, "DEC-001")..] + ["DEC-001"]]), true);
    assert rb.cycles + [p2[0..] + ["DEC-001"]] == [["DEC-001", "DEC-002", "DEC-001"]];
    assert EdgesAsWritten(CrashLists, "DEC-002", p2, ["DEC-001"], 0, rb)
           == (rb.(cycles := [["DEC-001", "DEC-002", "DEC-001"]]), true);
  }

  lemma CrashFirst()
    ensures DfsAsWritten(CrashLists, "DEC-001", ["DEC-001"],
                         Run(map["DEC-001" := White, "DEC-002" := White, "DEC-003" := White], [], false))
            == AfterFirst
  {
    CrashIdsDistinct();
    CrashInner();
    var ra := Run(map["DEC-001" := Gray, "DEC-002" := White, "DEC-003" := White], [], false);
    var rc := Run(map["DEC-001" := Gray, "DEC-002" := Gray, "DEC-003" := White],
                  [["DEC-001", "DEC-002", "DEC-001"]], false);
    var p1 := ["DEC-001"];
    assert p1 + ["DEC-002"] == ["DEC-001", "DEC-002"];
    assert DfsAsWritten(CrashLists, "DEC-002", p1 + ["DEC-002"], ra) == rc;
    assert EdgesAsWritten(CrashLists, "DEC-001", p1, ["DEC-002"], 1, rc) == (rc, false);
    assert EdgesAsWritten(CrashLists, "DEC-001", p1, ["DEC-002"], 0, ra) == (rc, false);
    assert rc.color["DEC-001" := Black] == AfterFirst.color;
    var r0 := Run(map["DEC-001" := White, "DEC-002" := White, "DEC-003" := White], [], false);
    assert r0.(color := r0.color["DEC-001" := Gray]) == ra;
    assert CrashLists["DEC-001"] == ["DEC-002"];
  }

  lemma CrashThird()
    ensures DfsAsWritten(CrashLists, "DEC-003", ["DEC-003"], AfterFirst).crashed
  {
    CrashIdsDistinct();
    var re := AfterFirst.(color := AfterFirst.color["DEC-003" := Gray]);
    assert "DEC-002" !in ["DEC-003"];
    assert EdgesAsWritten(CrashLists, "DEC-003", ["DEC-003"], ["DEC-002"], 0, re) == (re.(crashed := true), true);
  }

  /** The roots loop over `CrashOrder`: DEC-001 is searched, DEC-002 is skipped as GRAY, and the
      search from DEC-003 crashes. */
  lemma CrashRoots()
    ensures RootsAsWritten(CrashLists, CrashOrder, 0,
                           Run(map["DEC-001" := White, "DEC-002" := White, "DEC-003" := White], [], false)).crashed
  {
    CrashIdsDistinct();
    CrashFirst();
    CrashThird();
    var r3 := DfsAsWritten(CrashLists, "DEC-003", ["DEC-003"], AfterFirst);
    assert RootsAsWritten(CrashLists, CrashOrder, 3, r3) == r3;
    assert RootsAsWritten(CrashLists, CrashOrder, 2, AfterFirst) == r3;
    assert RootsAsWritten(CrashLists, CrashOrder, 1, AfterFirst) == r3;
  }

  /** The graph has the cycle DEC-001 → DEC-002 → DEC-001. */
  lemma CrashHasCycle()
    ensures IsOrder(CrashGraph(), CrashOrder) && HasCycle(DepAdj(CrashGraph()))
  {
    CrashIdsDistinct();
    var g := CrashGraph();
    assert g.Keys == {"DEC-001", "DEC-002", "DEC-003"};
    assert DepsList(g["DEC-001"]) == ["DEC-002"];
    assert DepsList(g["DEC-002"]) == ["DEC-001"];
    DepAdjEdge(g, "DEC-001", "DEC-002");
    DepAdjEdge(g, "DEC-002", "DEC-001");
    var p := ["DEC-001", "DEC-002", "DEC-001"];
    assert IsCycle(DepAdj(g), p);
  }

  /** The starting colours of a three-record graph. */
  lemma AllWhite(g: Graph, a: string, b: string, c: string)
    requires g.Keys == {a, b, c}
    ensures (map x | x in g :: White) == map[a := White, b := White, c := White]
  {
  }

  /** As written, the pass raises on this graph: the search from DEC-001 reports the cycle
      DEC-001 → DEC-002 → DEC-001 and leaves DEC-002 GRAY; the search from DEC-003 then meets
      DEC-002 GRAY and not on its path. The corrected search (`FindCycles`) finishes and reports
      the cycle. */
  lemma DfsCrash()
    ensures IsOrder(CrashGraph(), CrashOrder) && HasCycle(DepAdj(CrashGraph()))
    ensures FindCyclesAsWritten(CrashGraph(), CrashOrder).crashed
  {
    CrashHasCycle();
    CrashAdj();
    CrashRoots();
    CrashIdsDistinct();
    var g := CrashGraph();
    assert g.Keys == {"DEC-001", "DEC-002", "DEC-003"};
    var w := map x | x in g :: White;
    AllWhite(g, "DEC-001", "DEC-002", "DEC-003");
    assert FindCyclesAsWritten(g, CrashOrder) == RootsAsWritten(CrashLists, CrashOrder, 0, Run(w, [], false));
  }
}
