/** The grouping behind `compile-manifest`: the human manifest lists, per level, the committed
    and the suggested decisions; the agent manifest lists the constitution decisions, the
    high-stakes ones, and all committed and all suggested ones. Every list follows ascending
    identifier order; there is no other ordering (tools/dna-graph.py:1797-1826, 1853-1873). */
module Manifest {
  import opened Util
  import opened Frontmatter
  import opened Decisions

  /** `_node_summary`: the fields a manifest shows of a record. */
  datatype Summary = Summary(id: Value, title: Value, level: Value, state: Value, stakes: Value)

  function NodeSummary(n: Node): (r: Summary)
    ensures r.id == Get(n, "id") && r.level == Get(n, "level") && r.stakes == Get(n, "stakes")
    ensures "title" in n.fm ==> r.title == n.fm["title"]
    ensures "title" !in n.fm ==> r.title == Str("")
    ensures "state" in n.fm ==> r.state == n.fm["state"]
    ensures "state" !in n.fm ==> r.state == Str("unknown")
  {
    Summary(Get(n, "id"), GetOr(n, "title", Str("")), Get(n, "level"),
            GetOr(n, "state", Str("unknown")), Get(n, "stakes"))
  }

  /** The test that puts a record on one of the manifest's lists. */
  datatype Pick = LevelState(lvl: int, state: string) | InConstitution | HighStakes | InState(state: string)

  /** Whether a record belongs on a list. States are compared without a default, as
      `n.get("state") == ...` does. */
  predicate Picks(n: Node, p: Pick) {
    match p
    case LevelState(lvl, st) => AtLevel(n, lvl) && Get(n, "state") == Str(st)
    case InConstitution => n.scope == Constitution
    case HighStakes => Get(n, "stakes") == Str("high")
    case InState(st) => Get(n, "state") == Str(st)
  }

  /** The identifiers of `xs` whose records `p` picks, in the order of `xs`. */
  function Filter(g: Graph, xs: seq<string>, p: Pick): (r: seq<string>)
    requires forall x :: x in xs ==> x in g
    ensures forall x :: x in r <==> x in xs && Picks(g[x], p)
  {
    if xs == [] then []
    else
      var front := xs[..|xs| - 1];
      var last := xs[|xs| - 1];
      assert forall x :: x in xs <==> x in front || x == last;
      Filter(g, front, p) + (if Picks(g[last], p) then [last] else [])
  }

  lemma {:induction false} FilterSorted(g: Graph, xs: seq<string>, p: Pick)
    requires forall x :: x in xs ==> x in g
    requires StrictlySorted(xs)
    ensures StrictlySorted(Filter(g, xs, p))
  {
    if xs != [] {
      var front := xs[..|xs| - 1];
      var last := xs[|xs| - 1];
      assert forall x :: x in front ==> x in xs;
      assert StrictlySorted(front);
      FilterSorted(g, front, p);
      var f := Filter(g, front, p);
      if Picks(g[last], p) {
        forall i | 0 <= i < |f| ensures Less(f[i], last) {
          assert f[i] in front;
          var k :| 0 <= k < |front| && front[k] == f[i];
          assert xs[k] == f[i];
        }
      }
    }
  }

  /** The identifiers a list holds: the records of `g` that `p` picks, in ascending order. */
  ghost function Selected(g: Graph, p: Pick): seq<string> {
    Filter(g, SortSet(g.Keys), p)
  }

  /** What the selection holds and in which order. */
  lemma SelectedSpec(g: Graph, p: Pick)
    ensures StrictlySorted(Selected(g, p))
    ensures forall x :: x in Selected(g, p) <==> x in g && Picks(g[x], p)
  {
    FilterSorted(g, SortSet(g.Keys), p);
  }

  /** The summaries of the records listed. */
  function Summaries(g: Graph, ids: seq<string>): (r: seq<Summary>)
    requires forall x :: x in ids ==> x in g
    ensures |r| == |ids|
  {
    seq(|ids|, i requires 0 <= i < |ids| => NodeSummary(g[ids[i]]))
  }

  lemma SummariesAppend(g: Graph, ids: seq<string>, x: string)
    requires forall y :: y in ids ==> y in g
    requires x in g
    ensures Summaries(g, ids + [x]) == Summaries(g, ids) + [NodeSummary(g[x])]
  {
  }

  /** One step of a listing loop: the summary of `xs[k]` is appended when `p` picks it. */
  lemma FilterStep(g: Graph, xs: seq<string>, k: nat, p: Pick)
    requires forall x :: x in xs ==> x in g
    requires k < |xs|
    ensures forall x :: x in xs[..k] ==> x in g
    ensures Summaries(g, Filter(g, xs[..k + 1], p))
            == Summaries(g, Filter(g, xs[..k], p)) + (if Picks(g[xs[k]], p) then [NodeSummary(g[xs[k]])] else [])
  {
    assert xs[..k + 1][..k] == xs[..k];
    assert forall x :: x in xs[..k] ==> x in xs;
    if Picks(g[xs[k]], p) {
      SummariesAppend(g, Filter(g, xs[..k], p), xs[k]);
    }
  }

  // ---------------------------------------------------------------------------
  // Human manifest
  // ---------------------------------------------------------------------------

  /** One level of the human manifest. The suggested list is left out of the output when
      empty; here it is then the empty sequence. */
  datatype LevelGroup = LevelGroup(name: string, committed: seq<Summary>, suggested: seq<Summary>)

  /** The committed and suggested records of level `lvl`, in the order of `ids`. */
  method LevelLists(g: Graph, ids: seq<string>, lvl: int) returns (committed: seq<Summary>, suggested: seq<Summary>)
    requires forall x :: x in ids ==> x in g
    ensures committed == Summaries(g, Filter(g, ids, LevelState(lvl, "committed")))
    ensures suggested == Summaries(g, Filter(g, ids, LevelState(lvl, "suggested")))
  {
    committed, suggested := [], [];
    for k := 0 to |ids|
      invariant forall x :: x in ids[..k] ==> x in g
      invariant committed == Summaries(g, Filter(g, ids[..k], LevelState(lvl, "committed")))
      invariant suggested == Summaries(g, Filter(g, ids[..k], LevelState(lvl, "suggested")))
    {
      FilterStep(g, ids, k, LevelState(lvl, "committed"));
      FilterStep(g, ids, k, LevelState(lvl, "suggested"));
      var n := g[ids[k]];
      if AtLevel(n, lvl) {
        if Get(n, "state") == Str("committed") {
          committed := committed + [NodeSummary(n)];
        } else if Get(n, "state") == Str("suggested") {
          suggested := suggested + [NodeSummary(n)];
        }
      }
    }
    assert ids[..|ids|] == ids;
  }

  /** Level `lvl` of the human manifest: its name and its committed and suggested records in
      ascending identifier order. */
  ghost function LevelGroupOf(g: Graph, lvl: int): LevelGroup
    requires 1 <= lvl <= 4
  {
    LevelGroup(LevelNames[lvl],
               Summaries(g, Selected(g, LevelState(lvl, "committed"))),
               Summaries(g, Selected(g, LevelState(lvl, "suggested"))))
  }

  /** The body of the level loop: one level's group. */
  method LevelEntry(g: Graph, ids: seq<string>, lvl: int) returns (group: LevelGroup)
    requires 1 <= lvl <= 4 && ids == SortSet(g.Keys)
    ensures group == LevelGroupOf(g, lvl)
  {
    var committed, suggested := LevelLists(g, ids, lvl);
    group := LevelGroup(LevelNames[lvl], committed, suggested);
  }

  /** `_compile_manifest_human`'s grouping: levels 1 to 4 in turn, each with its name and its
      committed and suggested records in ascending identifier order. */
  method HumanManifest(g: Graph) returns (levels: seq<LevelGroup>)
    ensures |levels| == 4
    ensures forall i :: 0 <= i < 4 ==> levels[i] == LevelGroupOf(g, i + 1)
  {
    var ids := SortedElements(g.Keys);
    levels := [];
    for lvl := 1 to 5
      invariant |levels| == lvl - 1
      invariant forall i :: 0 <= i < lvl - 1 ==> levels[i] == LevelGroupOf(g, i + 1)
    {
      var group := LevelEntry(g, ids, lvl);
      levels := levels + [group];
    }
  }

  // ---------------------------------------------------------------------------
  // Agent manifest
  // ---------------------------------------------------------------------------

  datatype AgentLists = AgentLists(constitution: seq<Summary>, highStakes: seq<Summary>,
                                   allCommitted: seq<Summary>, allSuggested: seq<Summary>)

  /** The agent lists built from the records `ids[..k]`. */
  ghost predicate AgentUpTo(g: Graph, ids: seq<string>, k: nat, m: AgentLists)
    requires k <= |ids| && forall x :: x in ids ==> x in g
  {
    assert forall x :: x in ids[..k] ==> x in ids;
    && m.constitution == Summaries(g, Filter(g, ids[..k], InConstitution))
    && m.highStakes == Summaries(g, Filter(g, ids[..k], HighStakes))
    && m.allCommitted == Summaries(g, Filter(g, ids[..k], InState("committed")))
    && m.allSuggested == Summaries(g, Filter(g, ids[..k], InState("suggested")))
  }

  /** One list's share of a record of the agent pass: its summary is appended when the list's
      test holds. */
  method Extend(g: Graph, ids: seq<string>, k: nat, p: Pick, list: seq<Summary>) returns (list': seq<Summary>)
    requires k < |ids| && forall x :: x in ids ==> x in g
    requires forall x :: x in ids[..k] ==> x in g
    requires list == Summaries(g, Filter(g, ids[..k], p))
    ensures forall x :: x in ids[..k + 1] ==> x in g
    ensures list' == Summaries(g, Filter(g, ids[..k + 1], p))
  {
    FilterStep(g, ids, k, p);
    assert forall x :: x in ids[..k + 1] ==> x in ids;
    list' := list;
    if Picks(g[ids[k]], p) {
      list' := list + [NodeSummary(g[ids[k]])];
    }
  }

  /** One record of the agent pass: it goes to every list whose test it meets. */
  method AgentStep(g: Graph, ids: seq<string>, k: nat, m: AgentLists) returns (m': AgentLists)
    requires k < |ids| && forall x :: x in ids ==> x in g
    requires AgentUpTo(g, ids, k, m)
    ensures AgentUpTo(g, ids, k + 1, m')
  {
    assert forall x :: x in ids[..k] ==> x in ids;
    var constitution := Extend(g, ids, k, InConstitution, m.constitution);
    var highStakes := Extend(g, ids, k, HighStakes, m.highStakes);
    var allCommitted := Extend(g, ids, k, InState("committed"), m.allCommitted);
    var allSuggested := Extend(g, ids, k, InState("suggested"), m.allSuggested);
    m' := AgentLists(constitution, highStakes, allCommitted, allSuggested);
  }

  /** `_compile_manifest_agent`'s grouping: one pass over the records in ascending identifier
      order, each record going to every list whose test it meets. */
  method AgentManifest(g: Graph) returns (m: AgentLists)
    ensures m.constitution == Summaries(g, Selected(g, InConstitution))
    ensures m.highStakes == Summaries(g, Selected(g, HighStakes))
    ensures m.allCommitted == Summaries(g, Selected(g, InState("committed")))
    ensures m.allSuggested == Summaries(g, Selected(g, InState("suggested")))
  {
    var ids := SortedElements(g.Keys);
    m := AgentLists([], [], [], []);
    for k := 0 to |ids|
      invariant AgentUpTo(g, ids, k, m)
    {
      m := AgentStep(g, ids, k, m);
    }
    assert ids[..|ids|] == ids;
  }

  /** No record is listed as both committed and suggested, at a level or overall. */
  lemma StatesDisjoint(g: Graph, lvl: int, x: string)
    ensures !(x in Selected(g, InState("committed")) && x in Selected(g, InState("suggested")))
    ensures !(x in Selected(g, LevelState(lvl, "committed")) && x in Selected(g, LevelState(lvl, "suggested")))
  {
    SelectedSpec(g, InState("committed"));
    SelectedSpec(g, InState("suggested"));
    SelectedSpec(g, LevelState(lvl, "committed"));
    SelectedSpec(g, LevelState(lvl, "suggested"));
  }

  /** The committed records of the four levels are the committed records at a valid level. */
  lemma LevelsCoverCommitted(g: Graph, x: string)
    ensures (exists lvl :: 1 <= lvl <= 4 && x in Selected(g, LevelState(lvl, "committed"))) <==>
            x in Selected(g, InState("committed")) && x in g && ValidLevel(Get(g[x], "level"))
  {
    SelectedSpec(g, InState("committed"));
    forall lvl | 1 <= lvl <= 4 {
      SelectedSpec(g, LevelState(lvl, "committed"));
    }
    if x in g && ValidLevel(Get(g[x], "level")) && x in Selected(g, InState("committed")) {
      var v := Get(g[x], "level");
      var lvl := if v.Int? then v.i else 1;
      assert x in Selected(g, LevelState(lvl, "committed"));
    }
  }
}
