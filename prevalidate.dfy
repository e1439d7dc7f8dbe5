/** The pre-mutation validators `validate_for_create` and `validate_for_set`
    (tools/dna-graph.py:304-478), which decide whether a new record or a changed field may be
    written, and the explicit-stack search they use to detect a cycle. */
module PreValidate {
  import opened Util
  import opened Frontmatter
  import opened Reach
  import opened Decisions
  import opened Transitions

  // ---------------------------------------------------------------------------
  // The cycle search
  // ---------------------------------------------------------------------------

  /** Everything some edge of `adj` points to. */
  ghost function Targets(adj: Adj): set<string> {
    set u, v | u in adj && v in adj[u] :: v
  }

  /** Depth-first search with an explicit stack and a visited set (tools/dna-graph.py:371-383):
      pop, stop at the target, skip what was seen, otherwise mark it and push its successors. */
  method Reachable(adj: Adj, start: string, target: string) returns (found: bool)
    ensures found <==> Reaches(adj, start, target)
  {
    ghost var universe := {start} + Targets(adj);
    var visited: set<string> := {};
    var stack := [start];
    ReachesRefl(adj, start);
    while stack != []
      invariant visited <= universe && Elems(stack) <= universe
      invariant forall x :: x in visited ==> Reaches(adj, start, x)
      invariant forall x :: x in stack ==> Reaches(adj, start, x)
      invariant target !in visited
      invariant start in visited || start in stack
      invariant forall u, v :: u in visited && Edge(adj, u, v) ==> v in visited || v in stack
      decreases |universe - visited|, |stack|
    {
      var current := stack[|stack| - 1];
      PopLast(stack);
      stack := stack[..|stack| - 1];
      if current == target {
        return true;
      }
      if current in visited {
        continue;
      }
      ProperSubsetCard(universe - (visited + {current}), universe - visited);
      var next := Enumerate(if current in adj then adj[current] else {});
      VisitStep(adj, start, visited, stack, current, next);
      assert Elems(next) <= universe;
      visited := visited + {current};
      stack := stack + next;
    }
    forall x | Reaches(adj, start, x) ensures x in visited {
      ClosedReaches(adj, visited, start, x);
    }
    found := false;
  }

  /** Popping the last element of a stack. */
  lemma PopLast(s: seq<string>)
    requires s != []
    ensures forall x :: x in s <==> x in s[..|s| - 1] || x == s[|s| - 1]
  {
    assert s == s[..|s| - 1] + [s[|s| - 1]];
  }

  /** Marking `current` visited and pushing its successors keeps the search's invariants. */
  lemma VisitStep(adj: Adj, start: string, visited: set<string>, stack: seq<string>,
                  current: string, next: seq<string>)
    requires Reaches(adj, start, current)
    requires forall x :: x in next <==> Edge(adj, current, x)
    requires forall u, v :: u in visited && Edge(adj, u, v) ==> v in visited || v in stack + [current]
    ensures forall x :: x in next ==> Reaches(adj, start, x)
    ensures forall u, v :: u in visited + {current} && Edge(adj, u, v) ==>
              v in visited + {current} || v in stack + next
  {
    forall x | x in next ensures Reaches(adj, start, x) {
      ReachesStep(adj, start, current, x);
    }
  }

  // ---------------------------------------------------------------------------
  // Checks shared by both validators
  // ---------------------------------------------------------------------------

  /** `re.match(r'^DEC-\d{3}$', id)`; `$` also matches before one final newline. */
  predicate IsDecId(id: string): (r: bool)
    ensures r ==> StartsWith(id, "DEC-")
  {
    (|id| == 7 || (|id| == 8 && id[7] == '\n')) &&
    id[..4] == "DEC-" && IsDigit(id[4]) && IsDigit(id[5]) && IsDigit(id[6])
  }

  /** The identifiers the pattern accepts are `DEC-` and a number below 1000 written with
      three digits, zero-padded as `f"{n:03d}"` writes it; `DEC-1000` is refused. */
  lemma DecIdNumbers(n: nat, id: string)
    ensures IsDecId("DEC-" + Pad3(n)) <==> n < 1000
    ensures IsDecId(id) ==> DigitsValue(id[4..7]) < 1000 && id[..7] == "DEC-" + Pad3(DigitsValue(id[4..7]))
  {
    NatToStringWidth(n);
    var p := Pad3(n);
    assert |p| == 3 <==> n < 1000;
    var s := "DEC-" + p;
    assert s[..4] == "DEC-" && s[4..] == p;
    if |p| > 3 {
      assert s[7] == p[3];
    }
    if IsDecId(id) {
      var d := id[4..7];
      assert AllDigits(d);
      ThreeDigits(d);
      assert id[..7] == "DEC-" + d;
    }
  }

  /** Three digits are the zero-padded numeral of their value. */
  lemma ThreeDigits(d: string)
    requires |d| == 3 && AllDigits(d)
    ensures DigitsValue(d) < 1000 && Pad3(DigitsValue(d)) == d
  {
    var v := DigitsValue(d);
    var d1, d2 := d[..1], d[..2];
    assert d2[..1] == d1 && d1[..0] == [] && d[..2] == d2;
    assert AllDigits(d1) && AllDigits(d2);
    assert DigitsValue(d1) == d[0] as int - '0' as int <= 9;
    assert DigitsValue(d2) == DigitsValue(d1) * 10 + (d[1] as int - '0' as int) <= 99;
    assert v == DigitsValue(d2) * 10 + (d[2] as int - '0' as int);
    NatToStringWidth(v);
    assert |Pad3(v)| == 3;
    SameDigits(Pad3(v), d);
  }

  /** An error of the dependency loop: a dependency that does not exist, or the record itself. */
  ghost predicate DepError(nid: string, deps: seq<string>, g: Graph, e: Error) {
    (e.MissingDependency? && e.id == nid && e.dep in deps && e.dep !in g) ||
    (e == SelfDependency(nid) && nid in deps && nid in g)
  }

  /** A warning of the dependency loop: an existing other dependency of a higher level. */
  ghost predicate DepWarning(nid: string, level: Value, deps: seq<string>, g: Graph, w: Warning) {
    w.LevelInversion? && w.id == nid && w.level == level && w.dep in deps && w.dep in g &&
    w.dep != nid && w.depLevel == Get(g[w.dep], "level") && Inverted(level, w.depLevel)
  }

  /** The per-dependency checks of the validators: each looks at one proposed dependency and
      gives at most one error. */
  datatype DepCheck =
    | Existence(nid: string, g: Graph)                  // missing or self dependency
    | NoProject(nid: string, g: Graph)                  // the iron rule
    | Upstream(creating: bool, nid: string, g: Graph)   // the upstream must be committed
    | NoCycle(creating: bool, nid: string, adj: Adj)    // no way back to the record

  /** The error one check gives for one dependency, if any. */
  ghost function ErrorAt(c: DepCheck, d: string): Option<Error> {
    match c
    case Existence(nid, g) =>
      if d !in g then Some(MissingDependency(nid, d)) else if d == nid then Some(SelfDependency(nid)) else None
    case NoProject(nid, g) =>
      if d in g && g[d].scope == Project then Some(IronRule(nid, d)) else None
    case Upstream(creating, nid, g) =>
      if d in g && GetOr(g[d], "state", Str("unknown")) != Committed
      then Some(UpstreamError(creating, nid, d, GetOr(g[d], "state", Str("unknown")))) else None
    case NoCycle(creating, nid, adj) =>
      if Reaches(adj, d, nid) then Some(CycleError(creating, nid, d)) else None
  }

  /** What a loop of one check over a dependency list appends: the error of each listing, in
      list order, so a dependency listed twice is reported twice. */
  ghost function Reported(c: DepCheck, deps: seq<string>): (r: seq<Error>)
    ensures |r| <= |deps|
  {
    if deps == [] then []
    else
      var last := deps[|deps| - 1];
      Reported(c, deps[..|deps| - 1]) + (if ErrorAt(c, last).Some? then [ErrorAt(c, last).value] else [])
  }

  /** The loop step: one more dependency appends its own error, if any. */
  lemma ReportedStep(c: DepCheck, deps: seq<string>, k: nat)
    requires k < |deps|
    ensures Reported(c, deps[..k + 1])
            == Reported(c, deps[..k]) + (if ErrorAt(c, deps[k]).Some? then [ErrorAt(c, deps[k]).value] else [])
  {
    assert deps[..k + 1][..k] == deps[..k];
  }

  /** An error that only one dependency can cause is reported exactly once per listing of that
      dependency, and an error that no dependency causes is not reported at all. */
  lemma {:induction false} ReportedCount(c: DepCheck, deps: seq<string>, d: string, e: Error)
    requires forall x :: ErrorAt(c, x) == Some(e) <==> x == d
    ensures multiset(Reported(c, deps))[e] == multiset(deps)[d]
  {
    if deps != [] {
      var front, last := deps[..|deps| - 1], deps[|deps| - 1];
      assert deps == front + [last];
      ReportedCount(c, front, d, e);
    }
  }

  /** An error is reported exactly when some listed dependency causes it. */
  lemma {:induction false} ReportedMembers(c: DepCheck, deps: seq<string>, e: Error)
    ensures e in Reported(c, deps) <==> exists x :: x in deps && ErrorAt(c, x) == Some(e)
  {
    if deps != [] {
      var front, last := deps[..|deps| - 1], deps[|deps| - 1];
      assert deps == front + [last];
      ReportedMembers(c, front, e);
    }
  }

  /** The iron-rule check reports exactly the project-scope dependencies. */
  lemma IronMembers(nid: string, deps: seq<string>, g: Graph)
    ensures forall e :: e in Reported(NoProject(nid, g), deps) <==> IronError(nid, deps, g, e)
  {
    forall e ensures e in Reported(NoProject(nid, g), deps) <==> IronError(nid, deps, g, e) {
      ReportedMembers(NoProject(nid, g), deps, e);
      if IronError(nid, deps, g, e) {
        assert ErrorAt(NoProject(nid, g), e.dep) == Some(e);
      }
    }
  }

  /** The upstream check reports exactly the existing dependencies that are not committed. */
  lemma UpstreamMembers(creating: bool, nid: string, deps: seq<string>, g: Graph)
    ensures forall e :: e in Reported(Upstream(creating, nid, g), deps) ==>
              (e.CreateUpstream? || e.CommitUpstream?) && e == UpstreamError(creating, nid, e.dep, e.depState) &&
              NotCommittedUpstream(deps, g, e.dep, e.depState)
    ensures forall d, st :: NotCommittedUpstream(deps, g, d, st) ==> UpstreamError(creating, nid, d, st) in Reported(Upstream(creating, nid, g), deps)
  {
    forall e | e in Reported(Upstream(creating, nid, g), deps)
      ensures (e.CreateUpstream? || e.CommitUpstream?) && e == UpstreamError(creating, nid, e.dep, e.depState) &&
              NotCommittedUpstream(deps, g, e.dep, e.depState)
    {
      ReportedMembers(Upstream(creating, nid, g), deps, e);
    }
    forall d, st | NotCommittedUpstream(deps, g, d, st)
      ensures UpstreamError(creating, nid, d, st) in Reported(Upstream(creating, nid, g), deps)
    {
      assert ErrorAt(Upstream(creating, nid, g), d) == Some(UpstreamError(creating, nid, d, st));
      ReportedMembers(Upstream(creating, nid, g), deps, UpstreamError(creating, nid, d, st));
    }
  }

  /** The cycle check reports exactly the dependencies from which the record is reachable. */
  lemma CycleMembers(creating: bool, nid: string, deps: seq<string>, adj: Adj)
    ensures forall e :: e in Reported(NoCycle(creating, nid, adj), deps) ==>
              (e.CreateCycle? || e.SetCycle?) && e == CycleError(creating, nid, e.dep) && e.dep in deps && Reaches(adj, e.dep, nid)
    ensures forall d :: d in deps && Reaches(adj, d, nid) ==> CycleError(creating, nid, d) in Reported(NoCycle(creating, nid, adj), deps)
  {
    forall e | e in Reported(NoCycle(creating, nid, adj), deps)
      ensures (e.CreateCycle? || e.SetCycle?) && e == CycleError(creating, nid, e.dep) && e.dep in deps && Reaches(adj, e.dep, nid)
    {
      ReportedMembers(NoCycle(creating, nid, adj), deps, e);
    }
    forall d | d in deps && Reaches(adj, d, nid)
      ensures CycleError(creating, nid, d) in Reported(NoCycle(creating, nid, adj), deps)
    {
      assert ErrorAt(NoCycle(creating, nid, adj), d) == Some(CycleError(creating, nid, d));
      ReportedMembers(NoCycle(creating, nid, adj), deps, CycleError(creating, nid, d));
    }
  }

  /** The level-inversion warning one dependency gives, if any. */
  function WarningAt(nid: string, level: Value, d: string, g: Graph): Option<Warning> {
    if d in g && d != nid && Inverted(level, Get(g[d], "level"))
    then Some(LevelInversion(nid, level, d, Get(g[d], "level"))) else None
  }

  /** The level-inversion warnings of a dependency list, one per inverted listing, in list order. */
  function Warned(nid: string, level: Value, deps: seq<string>, g: Graph): (r: seq<Warning>)
    ensures |r| <= |deps|
  {
    if deps == [] then []
    else
      var last := deps[|deps| - 1];
      Warned(nid, level, deps[..|deps| - 1], g) +
      (if WarningAt(nid, level, last, g).Some? then [WarningAt(nid, level, last, g).value] else [])
  }

  /** The loop step of the warnings. */
  lemma WarnedStep(nid: string, level: Value, deps: seq<string>, g: Graph, k: nat)
    requires k < |deps|
    ensures Warned(nid, level, deps[..k + 1], g)
            == Warned(nid, level, deps[..k], g) +
               (if WarningAt(nid, level, deps[k], g).Some? then [WarningAt(nid, level, deps[k], g).value] else [])
  {
    assert deps[..k + 1][..k] == deps[..k];
  }

  /** The existence check reports exactly the missing and self dependencies. */
  lemma ExistenceMembers(nid: string, deps: seq<string>, g: Graph)
    ensures forall e :: e in Reported(Existence(nid, g), deps) <==> DepError(nid, deps, g, e)
  {
    forall e ensures e in Reported(Existence(nid, g), deps) <==> DepError(nid, deps, g, e) {
      ReportedMembers(Existence(nid, g), deps, e);
      if DepError(nid, deps, g, e) {
        if e.MissingDependency? {
          assert ErrorAt(Existence(nid, g), e.dep) == Some(e);
        } else {
          assert ErrorAt(Existence(nid, g), nid) == Some(e);
        }
      }
    }
  }

  /** The warnings are exactly the level inversions of the listed dependencies. */
  lemma {:induction false} WarnedMembers(nid: string, level: Value, deps: seq<string>, g: Graph)
    ensures forall w :: w in Warned(nid, level, deps, g) <==> DepWarning(nid, level, deps, g, w)
  {
    if deps != [] {
      var front, last := deps[..|deps| - 1], deps[|deps| - 1];
      assert deps == front + [last];
      WarnedMembers(nid, level, front, g);
    }
  }

  /** The loop over proposed dependencies (tools/dna-graph.py:333-344, 419-425). */
  method CheckDeps(nid: string, level: Value, deps: seq<string>, g: Graph)
    returns (errors: seq<Error>, warnings: seq<Warning>)
    ensures forall e :: e in errors <==> DepError(nid, deps, g, e)
    ensures forall w :: w in warnings <==> DepWarning(nid, level, deps, g, w)
    ensures errors == Reported(Existence(nid, g), deps) && warnings == Warned(nid, level, deps, g)
  {
    errors, warnings := [], [];
    for k := 0 to |deps|
      invariant errors == Reported(Existence(nid, g), deps[..k]) && warnings == Warned(nid, level, deps[..k], g)
    {
      ReportedStep(Existence(nid, g), deps, k);
      WarnedStep(nid, level, deps, g, k);
      var d := deps[k];
      if d !in g {
        errors := errors + [MissingDependency(nid, d)];
      } else if d == nid {
        errors := errors + [SelfDependency(nid)];
      } else if Inverted(level, Get(g[d], "level")) {
        warnings := warnings + [LevelInversion(nid, level, d, Get(g[d], "level"))];
      }
    }
    assert deps[..|deps|] == deps;
    ExistenceMembers(nid, deps, g);
    WarnedMembers(nid, level, deps, g);
  }

  /** An existing dependency of the project scope. */
  ghost predicate IronError(nid: string, deps: seq<string>, g: Graph, e: Error) {
    e.IronRule? && e.id == nid && e.dep in deps && e.dep in g && g[e.dep].scope == Project
  }

  /** The constitution-must-not-depend-on-project loop (tools/dna-graph.py:347-351, 428-431). */
  method CheckIronRule(nid: string, deps: seq<string>, g: Graph) returns (errors: seq<Error>)
    ensures forall e :: e in errors <==> IronError(nid, deps, g, e)
    ensures errors == Reported(NoProject(nid, g), deps)
  {
    errors := [];
    for k := 0 to |deps|
      invariant errors == Reported(NoProject(nid, g), deps[..k])
    {
      ReportedStep(NoProject(nid, g), deps, k);
      var d := deps[k];
      if d in g && g[d].scope == Project {
        errors := errors + [IronRule(nid, d)];
      }
    }
    assert deps[..|deps|] == deps;
    IronMembers(nid, deps, g);
  }

  /** The upstream-state error of creating (`cannot create as committed`) or of setting
      (`cannot commit`). */
  function UpstreamError(creating: bool, nid: string, d: string, st: Value): Error {
    if creating then CreateUpstream(nid, d, st) else CommitUpstream(nid, d, st)
  }

  /** An existing dependency whose state, read with default `unknown`, is not committed. */
  ghost predicate NotCommittedUpstream(deps: seq<string>, g: Graph, d: string, st: Value) {
    d in deps && d in g && st == GetOr(g[d], "state", Str("unknown")) && st != Committed
  }

  /** The upstream-readiness loop (tools/dna-graph.py:354-360, 401-409). */
  method CheckUpstream(creating: bool, nid: string, deps: seq<string>, g: Graph) returns (errors: seq<Error>)
    ensures forall e :: e in errors ==> (e.CreateUpstream? || e.CommitUpstream?) && e == UpstreamError(creating, nid, e.dep, e.depState) &&
                                         NotCommittedUpstream(deps, g, e.dep, e.depState)
    ensures forall d, st :: NotCommittedUpstream(deps, g, d, st) ==> UpstreamError(creating, nid, d, st) in errors
    ensures errors == Reported(Upstream(creating, nid, g), deps)
  {
    errors := [];
    for k := 0 to |deps|
      invariant errors == Reported(Upstream(creating, nid, g), deps[..k])
    {
      ReportedStep(Upstream(creating, nid, g), deps, k);
      var d := deps[k];
      if d in g {
        var st := GetOr(g[d], "state", Str("unknown"));
        if st != Committed {
          errors := errors + [UpstreamError(creating, nid, d, st)];
        }
      }
    }
    assert deps[..|deps|] == deps;
    UpstreamMembers(creating, nid, deps, g);
  }

  /** The cycle error of creating or of setting. */
  function CycleError(creating: bool, nid: string, d: string): Error {
    if creating then CreateCycle(nid, d) else SetCycle(nid, d)
  }

  /** One search per proposed dependency, each looking for a way back to `nid`
      (tools/dna-graph.py:371-383, 443-454). */
  method CheckCycles(creating: bool, nid: string, deps: seq<string>, adj: Adj) returns (errors: seq<Error>)
    ensures forall e :: e in errors ==> (e.CreateCycle? || e.SetCycle?) && e == CycleError(creating, nid, e.dep) && e.dep in deps &&
                                         Reaches(adj, e.dep, nid)
    ensures forall d :: d in deps && Reaches(adj, d, nid) ==> CycleError(creating, nid, d) in errors
    ensures errors == Reported(NoCycle(creating, nid, adj), deps)
  {
    errors := [];
    for k := 0 to |deps|
      invariant errors == Reported(NoCycle(creating, nid, adj), deps[..k])
    {
      ReportedStep(NoCycle(creating, nid, adj), deps, k);
      var found := Reachable(adj, deps[k], nid);
      if found {
        errors := errors + [CycleError(creating, nid, deps[k])];
      }
    }
    assert deps[..|deps|] == deps;
    CycleMembers(creating, nid, deps, adj);
  }


  // ---------------------------------------------------------------------------
  // validate_for_create
  // ---------------------------------------------------------------------------

  /** The record `create` proposes: its level, its state (default `suggested`), its stakes when
      given, and its dependencies. */
  datatype Proposal = Proposal(level: int, state: string, stakes: Option<string>, deps: seq<string>)

  /** An error of the checks that precede the cycle search (tools/dna-graph.py:309-360). */
  ghost predicate CreateCheckError(nid: string, p: Proposal, g: Graph, constitution: bool, e: Error) {
    CreateFieldError(nid, p, g, e) ||
    DepError(nid, p.deps, g, e) ||
    (constitution && IronError(nid, p.deps, g, e)) ||
    (p.state == "committed" && e.CreateUpstream? && e.id == nid &&
     NotCommittedUpstream(p.deps, g, e.dep, e.depState))
  }

  /** An error about the identifier or one of the vocabulary fields. */
  ghost predicate CreateFieldError(nid: string, p: Proposal, g: Graph, e: Error) {
    (e == BadIdFormat(nid) && !IsDecId(nid)) ||
    (e == IdExists(nid) && nid in g) ||
    (e == InvalidLevel(nid, Int(p.level)) && !ValidLevel(Int(p.level))) ||
    (e == InvalidState(nid, Str(p.state)) && !ValidState(Str(p.state))) ||
    (p.stakes.Some? && p.stakes.value != "" && e == InvalidStakes(nid, Str(p.stakes.value)) &&
     !ValidStakes(Str(p.stakes.value)))
  }

  /** Every check that precedes the cycle search passes. */
  ghost predicate CreateChecksPass(nid: string, p: Proposal, g: Graph, constitution: bool) {
    IsDecId(nid) && nid !in g && ValidLevel(Int(p.level)) && ValidState(Str(p.state)) &&
    (p.stakes.Some? && p.stakes.value != "" ==> ValidStakes(Str(p.stakes.value))) &&
    (forall d :: d in p.deps ==> d in g) &&
    (constitution ==> forall d :: d in p.deps ==> g[d].scope != Project) &&
    (p.state == "committed" ==> forall d :: d in p.deps ==> GetOr(g[d], "state", Str("unknown")) == Committed)
  }

  /** When the checks do not all pass, one of them reports an error. */
  lemma CreateFailureWitness(nid: string, p: Proposal, g: Graph, constitution: bool) returns (e: Error)
    requires !CreateChecksPass(nid, p, g, constitution)
    ensures CreateCheckError(nid, p, g, constitution, e)
  {
    if !IsDecId(nid) {
      e := BadIdFormat(nid);
    } else if nid in g {
      e := IdExists(nid);
    } else if !ValidLevel(Int(p.level)) {
      e := InvalidLevel(nid, Int(p.level));
    } else if !ValidState(Str(p.state)) {
      e := InvalidState(nid, Str(p.state));
    } else if p.stakes.Some? && p.stakes.value != "" && !ValidStakes(Str(p.stakes.value)) {
      e := InvalidStakes(nid, Str(p.stakes.value));
    } else if exists d :: d in p.deps && d !in g {
      var d :| d in p.deps && d !in g;
      e := MissingDependency(nid, d);
    } else if constitution && exists d :: d in p.deps && g[d].scope == Project {
      var d :| d in p.deps && g[d].scope == Project;
      e := IronRule(nid, d);
    } else {
      var d :| d in p.deps && GetOr(g[d], "state", Str("unknown")) != Committed;
      e := CreateUpstream(nid, d, GetOr(g[d], "state", Str("unknown")));
    }
  }

  /** An error of `validate_for_create`: one of the checks, or, when they all pass, a proposed
      dependency from which `nid` can be reached. */
  ghost predicate CreateError(nid: string, p: Proposal, g: Graph, constitution: bool, e: Error) {
    CreateCheckError(nid, p, g, constitution, e) ||
    (e.CreateCycle? && e.id == nid && e.dep in p.deps && CreateChecksPass(nid, p, g, constitution) &&
     Reaches(CreateAdj(g, nid, p.deps), e.dep, nid))
  }

  /** The adjacency of the create check as written (tools/dna-graph.py:364-370): existing edges
      whose target exists, and the proposed edges of the new record. */
  function CreateAdjAsWritten(g: Graph, nid: string, deps: seq<string>): Adj {
    DepAdj(g)[nid := Elems(deps)]
  }

  /** The adjacency the create check needs: it keeps the existing edges that point at the
      identifier being created. */
  function CreateAdj(g: Graph, nid: string, deps: seq<string>): Adj {
    (map x | x in g :: set d | d in DepsList(g[x]) && (d in g || d == nid))[nid := Elems(deps)]
  }

  /** As written, the search can never reach the new identifier: once the checks pass every
      dependency exists, the new identifier does not, and no kept edge leads to it. */
  lemma CreateAdjAsWrittenUnreachable(g: Graph, nid: string, deps: seq<string>, d: string)
    requires nid !in g && forall x :: x in deps ==> x in g
    requires d in g
    ensures !Reaches(CreateAdjAsWritten(g, nid, deps), d, nid)
  {
    var adj := CreateAdjAsWritten(g, nid, deps);
    assert Closed(adj, g.Keys);
    forall y | Reaches(adj, d, y) ensures y in g {
      ClosedReaches(adj, g.Keys, d, y);
    }
  }

  /** The corrected adjacency is the dependency adjacency of the graph with the new record in it. */
  lemma CreateAdjAfter(g: Graph, nid: string, n: Node)
    requires nid !in g && forall x :: x in DepsList(n) ==> x in g
    ensures CreateAdj(g, nid, DepsList(n)) == DepAdj(g[nid := n])
  {
    var a, b := CreateAdj(g, nid, DepsList(n)), DepAdj(g[nid := n]);
    assert a.Keys == b.Keys;
    forall x | x in a ensures a[x] == b[x] {
      assert forall d :: d in a[x] <==> d in b[x];
    }
  }

  /** A record lies on a cycle exactly when it can be reached from one of its own successors. */
  lemma CycleThrough(adj: Adj, u: string)
    requires u in adj
    ensures ReachesPlus(adj, u, u) <==> exists d :: d in adj[u] && Reaches(adj, d, u)
  {
    if ReachesPlus(adj, u, u) {
      ReachesPlusSplit(adj, u, u);
    }
    if exists d :: d in adj[u] && Reaches(adj, d, u) {
      var d :| d in adj[u] && Reaches(adj, d, u);
      EdgeThenReaches(adj, u, d, u);
    }
  }

  /** With the corrected adjacency, a cycle error is reported exactly when adding the record
      would put it on a cycle. */
  lemma CreateCycleMeaning(g: Graph, nid: string, n: Node)
    requires nid !in g && forall x :: x in DepsList(n) ==> x in g
    ensures (exists d :: d in DepsList(n) && Reaches(CreateAdj(g, nid, DepsList(n)), d, nid))
            <==> ReachesPlus(DepAdj(g[nid := n]), nid, nid)
  {
    CreateAdjAfter(g, nid, n);
    CycleThrough(DepAdj(g[nid := n]), nid);
  }

  /** The graph in which DEC-005 depends on a DEC-009 that does not exist yet. */
  function DanglingGraph(): Graph {
    map["DEC-005" := Node(map["depends_on" := List([Str("DEC-009")])], Project, "")]
  }

  /** Creating DEC-009 with a dependency on DEC-005 closes a cycle; the check as written does not
      see it, the corrected adjacency does. */
  lemma CreateCycleMissed()
    ensures CreateChecksPass("DEC-009", Proposal(1, "suggested", None, ["DEC-005"]), DanglingGraph(), false)
    ensures !Reaches(CreateAdjAsWritten(DanglingGraph(), "DEC-009", ["DEC-005"]), "DEC-005", "DEC-009")
    ensures Reaches(CreateAdj(DanglingGraph(), "DEC-009", ["DEC-005"]), "DEC-005", "DEC-009")
  {
    DanglingChecksPass();
    CreateAdjAsWrittenUnreachable(DanglingGraph(), "DEC-009", ["DEC-005"], "DEC-005");
    DanglingCycleFound();
  }

  lemma DanglingChecksPass()
    ensures CreateChecksPass("DEC-009", Proposal(1, "suggested", None, ["DEC-005"]), DanglingGraph(), false)
  {
    assert "DEC-009"[..4] == "DEC-";
  }

  lemma DanglingCycleFound()
    ensures Reaches(CreateAdj(DanglingGraph(), "DEC-009", ["DEC-005"]), "DEC-005", "DEC-009")
  {
    var g := DanglingGraph();
    var adj := CreateAdj(g, "DEC-009", ["DEC-005"]);
    assert DepsList(g["DEC-005"]) == ["DEC-009"];
    assert Edge(adj, "DEC-005", "DEC-009");
    assert IsPath(adj, ["DEC-005", "DEC-009"]);
  }

  /** The checks of `validate_for_create` that precede the cycle search. */
  method CreateChecks(nid: string, p: Proposal, g: Graph, constitution: bool)
    returns (errors: seq<Error>, warnings: seq<Warning>, ghost fieldErrors: seq<Error>)
    ensures forall e :: e in errors <==> CreateCheckError(nid, p, g, constitution, e)
    ensures errors == [] <==> CreateChecksPass(nid, p, g, constitution)
    ensures forall w :: w in warnings <==> DepWarning(nid, Int(p.level), p.deps, g, w)
    ensures forall e :: e in fieldErrors <==> CreateFieldError(nid, p, g, e)
    ensures NoRepeats(fieldErrors)
    ensures errors == fieldErrors + Reported(Existence(nid, g), p.deps) +
                      (if constitution then Reported(NoProject(nid, g), p.deps) else []) +
                      (if p.state == "committed" then Reported(Upstream(true, nid, g), p.deps) else [])
    ensures warnings == Warned(nid, Int(p.level), p.deps, g)
  {
    errors := FieldChecks(nid, p, g);
    fieldErrors := errors;
    var depErrors;
    depErrors, warnings := CheckDeps(nid, Int(p.level), p.deps, g);
    var iron: seq<Error> := [];
    if constitution {
      iron := CheckIronRule(nid, p.deps, g);
    }
    var upstream: seq<Error> := [];
    if p.state == "committed" {
      upstream := CheckUpstream(true, nid, p.deps, g);
    }
    errors := errors + depErrors + iron + upstream;
    assert forall e :: e in errors <==> e in fieldErrors || e in depErrors || e in iron || e in upstream;
    if !CreateChecksPass(nid, p, g, constitution) {
      var e := CreateFailureWitness(nid, p, g, constitution);
      assert e in errors;
    } else if errors != [] {
      CreatePassNoError(nid, p, g, constitution, errors[0]);
    }
  }

  /** The identifier and vocabulary checks of a proposed record (tools/dna-graph.py:309-331). */
  method FieldChecks(nid: string, p: Proposal, g: Graph) returns (errors: seq<Error>)
    ensures forall e :: e in errors <==> CreateFieldError(nid, p, g, e)
    ensures NoRepeats(errors)
  {
    errors := [];
    if !IsDecId(nid) {
      errors := [BadIdFormat(nid)];
    }
    if nid in g {
      errors := Append(errors, IdExists(nid));
    }
    if !ValidLevel(Int(p.level)) {
      errors := Append(errors, InvalidLevel(nid, Int(p.level)));
    }
    if !ValidState(Str(p.state)) {
      errors := Append(errors, InvalidState(nid, Str(p.state)));
    }
    if p.stakes.Some? && p.stakes.value != "" && !ValidStakes(Str(p.stakes.value)) {
      errors := Append(errors, InvalidStakes(nid, Str(p.stakes.value)));
    }
  }

  /** No message occurs twice. */
  ghost predicate NoRepeats(s: seq<Error>) {
    forall i, j :: 0 <= i < j < |s| ==> s[i] != s[j]
  }

  /** Appending one message of a kind not yet present. */
  function Append(s: seq<Error>, e: Error): (r: seq<Error>)
    requires NoRepeats(s) && forall x :: x in s ==> FieldRank(x) < FieldRank(e)
    ensures NoRepeats(r) && forall x :: x in r ==> FieldRank(x) <= FieldRank(e)
    ensures forall x :: x in r <==> x in s || x == e
  {
    assert forall i :: 0 <= i < |s| ==> FieldRank(s[i]) < FieldRank(e);
    s + [e]
  }

  /** The place of each identifier and vocabulary error in the order of the checks. */
  function FieldRank(e: Error): nat {
    match e
    case BadIdFormat(_) => 0
    case IdExists(_) => 1
    case InvalidLevel(_, _) => 2
    case InvalidState(_, _) => 3
    case InvalidStakes(_, _) => 4
    case _ => 5
  }



  lemma CreatePassNoError(nid: string, p: Proposal, g: Graph, constitution: bool, e: Error)
    requires CreateChecksPass(nid, p, g, constitution)
    ensures !CreateCheckError(nid, p, g, constitution, e)
  {
  }

  /** `validate_for_create` (tools/dna-graph.py:304-385), with the corrected cycle adjacency. */
  method ValidateForCreate(nid: string, p: Proposal, g: Graph, constitution: bool)
    returns (errors: seq<Error>, warnings: seq<Warning>)
    ensures forall e :: e in errors <==> CreateError(nid, p, g, constitution, e)
    ensures forall w :: w in warnings <==> DepWarning(nid, Int(p.level), p.deps, g, w)
    ensures !CreateChecksPass(nid, p, g, constitution) ==>
              exists fieldErrors ::
                (forall e :: e in fieldErrors <==> CreateFieldError(nid, p, g, e)) &&
                NoRepeats(fieldErrors) &&
                errors == fieldErrors + Reported(Existence(nid, g), p.deps) +
                          (if constitution then Reported(NoProject(nid, g), p.deps) else []) +
                          (if p.state == "committed" then Reported(Upstream(true, nid, g), p.deps) else [])
    ensures CreateChecksPass(nid, p, g, constitution) ==> errors == Reported(NoCycle(true, nid, CreateAdj(g, nid, p.deps)), p.deps)
    ensures warnings == Warned(nid, Int(p.level), p.deps, g)
  {
    ghost var fieldErrors;
    errors, warnings, fieldErrors := CreateChecks(nid, p, g, constitution);
    if p.deps != [] && errors == [] {
      errors := CheckCycles(true, nid, p.deps, CreateAdj(g, nid, p.deps));
      forall e ensures !CreateCheckError(nid, p, g, constitution, e) {
        CreatePassNoError(nid, p, g, constitution, e);
      }
    }
  }

  // ---------------------------------------------------------------------------
  // validate_for_set
  // ---------------------------------------------------------------------------

  /** `value if isinstance(value, list) else []`, keeping the identifiers (tools/dna-graph.py:413). */
  function ProposedDeps(value: Value): (r: seq<string>)
    ensures value.List? ==> forall d :: d in r <==> Str(d) in value.items
  {
    if value.List? then StrItems(value.items) else []
  }

  /** `not value or not value.strip()`. */
  predicate BlankTitle(value: Value) {
    !Truthy(value) || (value.Str? && Strip(value.s) == "")
  }

  /** The adjacency of the set check: the record's old edges are replaced by the proposed ones,
      every other edge is kept when its target exists (tools/dna-graph.py:434-442). */
  function SetAdj(g: Graph, nid: string, deps: seq<string>): Adj {
    (map x | x in g && x != nid :: set d | d in DepsList(g[x]) && d in g)[nid := Elems(deps)]
  }

  /** The set adjacency is the dependency adjacency of the graph after the change. */
  lemma SetAdjAfter(g: Graph, nid: string, n: Node)
    requires nid in g && forall x :: x in DepsList(n) ==> x in g
    ensures SetAdj(g, nid, DepsList(n)) == DepAdj(g[nid := n])
  {
    var a, b := SetAdj(g, nid, DepsList(n)), DepAdj(g[nid := n]);
    assert a.Keys == b.Keys;
    forall x | x in a ensures a[x] == b[x] {
      assert forall d :: d in a[x] <==> d in b[x];
    }
  }

  /** So a cycle error is reported exactly when the changed record would lie on a cycle. */
  lemma SetCycleMeaning(g: Graph, nid: string, n: Node)
    requires nid in g && forall x :: x in DepsList(n) ==> x in g
    ensures (exists d :: d in DepsList(n) && Reaches(SetAdj(g, nid, DepsList(n)), d, nid))
            <==> ReachesPlus(DepAdj(g[nid := n]), nid, nid)
  {
    SetAdjAfter(g, nid, n);
    CycleThrough(DepAdj(g[nid := n]), nid);
  }

  /** A warning of the level loop: an existing dependency of a higher level (the record itself
      included). */
  ghost predicate LevelWarning(nid: string, level: Value, deps: seq<string>, g: Graph, w: Warning) {
    w.LevelInversion? && w.id == nid && w.level == level && w.dep in deps && w.dep in g &&
    w.depLevel == Get(g[w.dep], "level") && Inverted(level, w.depLevel)
  }

  /** The level-inversion warning one existing dependency gives, if any; unlike `WarningAt`,
      the record itself is not skipped. */
  function InversionAt(nid: string, level: Value, d: string, g: Graph): Option<Warning> {
    if d in g && Inverted(level, Get(g[d], "level"))
    then Some(LevelInversion(nid, level, d, Get(g[d], "level"))) else None
  }

  /** The warnings of the level-ordering loop: one per inverted listing, in list order. */
  function Inversions(nid: string, level: Value, deps: seq<string>, g: Graph): (r: seq<Warning>)
    ensures |r| <= |deps|
  {
    if deps == [] then []
    else
      var last := deps[|deps| - 1];
      Inversions(nid, level, deps[..|deps| - 1], g) +
      (if InversionAt(nid, level, last, g).Some? then [InversionAt(nid, level, last, g).value] else [])
  }

  /** The loop step of the level-ordering warnings. */
  lemma InversionsStep(nid: string, level: Value, deps: seq<string>, g: Graph, k: nat)
    requires k < |deps|
    ensures Inversions(nid, level, deps[..k + 1], g)
            == Inversions(nid, level, deps[..k], g) +
               (if InversionAt(nid, level, deps[k], g).Some? then [InversionAt(nid, level, deps[k], g).value] else [])
  {
    assert deps[..k + 1][..k] == deps[..k];
  }

  /** The level-ordering warnings are exactly the inversions of the listed existing dependencies. */
  lemma {:induction false} InversionsMembers(nid: string, level: Value, deps: seq<string>, g: Graph)
    ensures forall w :: w in Inversions(nid, level, deps, g) <==> LevelWarning(nid, level, deps, g, w)
  {
    if deps != [] {
      var front, last := deps[..|deps| - 1], deps[|deps| - 1];
      assert deps == front + [last];
      InversionsMembers(nid, level, front, g);
    }
  }

  /** A dependency listed twice at a deeper level is warned about twice: each warning occurs as
      often as its dependency is listed. */
  lemma {:induction false} InversionsCount(nid: string, level: Value, deps: seq<string>, g: Graph, d: string)
    requires InversionAt(nid, level, d, g).Some?
    ensures multiset(Inversions(nid, level, deps, g))[InversionAt(nid, level, d, g).value] == multiset(deps)[d]
  {
    if deps != [] {
      var front, last := deps[..|deps| - 1], deps[|deps| - 1];
      assert deps == front + [last];
      InversionsCount(nid, level, front, g, d);
    }
  }

  /** The level-ordering loop over existing dependencies (tools/dna-graph.py:456-465, 694-702). */
  method InversionWarnings(nid: string, level: Value, deps: seq<string>, g: Graph)
    returns (warnings: seq<Warning>)
    ensures forall w :: w in warnings <==> LevelWarning(nid, level, deps, g, w)
    ensures warnings == Inversions(nid, level, deps, g)
  {
    warnings := [];
    for k := 0 to |deps|
      invariant warnings == Inversions(nid, level, deps[..k], g)
    {
      InversionsStep(nid, level, deps, g, k);
      var d := deps[k];
      if d in g && Inverted(level, Get(g[d], "level")) {
        warnings := warnings + [LevelInversion(nid, level, d, Get(g[d], "level"))];
      }
    }
    assert deps[..|deps|] == deps;
    InversionsMembers(nid, level, deps, g);
  }

  /** Every check of a `depends_on` change that precedes the cycle search passes. */
  ghost predicate SetDepsChecksPass(nid: string, deps: seq<string>, g: Graph)
    requires nid in g
  {
    (forall d :: d in deps ==> d in g && d != nid) &&
    (g[nid].scope == Constitution ==> forall d :: d in deps ==> g[d].scope != Project)
  }

  /** An error of the `state` branch: an illegal transition, or, when committing legally, an
      existing upstream record that is not committed. */
  ghost predicate SetStateError(nid: string, value: Value, g: Graph, e: Error)
    requires nid in g
  {
    var prev := GetOr(g[nid], "state", Suggested);
    (e == IllegalTransition(nid, prev, value) && !ValidateTransition(prev, value)) ||
    (value == Committed && ValidateTransition(prev, value) && e.CommitUpstream? && e.id == nid &&
     NotCommittedUpstream(DepsList(g[nid]), g, e.dep, e.depState))
  }

  /** An error of the `depends_on` branch: a missing or self dependency, the iron rule, or,
      when those all pass, a proposed dependency from which the record is reachable. */
  ghost predicate SetDepsError(nid: string, deps: seq<string>, g: Graph, e: Error)
    requires nid in g
  {
    DepError(nid, deps, g, e) ||
    (g[nid].scope == Constitution && IronError(nid, deps, g, e)) ||
    (e.SetCycle? && e.id == nid && e.dep in deps && SetDepsChecksPass(nid, deps, g) &&
     Reaches(SetAdj(g, nid, deps), e.dep, nid))
  }

  /** An error of `validate_for_set` (tools/dna-graph.py:393-476). */
  ghost predicate SetError(nid: string, field: string, value: Value, g: Graph, e: Error) {
    if nid !in g then e == NotFound(nid)
    else if field == "state" then SetStateError(nid, value, g, e)
    else if field == "depends_on" then SetDepsError(nid, ProposedDeps(value), g, e)
    else if field == "level" then e == InvalidLevel(nid, value) && !ValidLevel(value)
    else if field == "stakes" then e == InvalidStakes(nid, value) && !ValidStakes(value)
    else if field == "title" then e == EmptyTitle(nid) && BlankTitle(value)
    else e == UnknownField(field)
  }

  /** A warning of `validate_for_set`: level inversions of a new dependency list or of a new level. */
  ghost predicate SetWarning(nid: string, field: string, value: Value, g: Graph, w: Warning) {
    nid in g &&
    ((field == "depends_on" && DepWarning(nid, Get(g[nid], "level"), ProposedDeps(value), g, w)) ||
     (field == "level" && ValidLevel(value) && LevelWarning(nid, value, DepsList(g[nid]), g, w)))
  }

  /** The `state` branch: the transition must be legal, and committing needs committed upstream. */
  method SetState(nid: string, value: Value, g: Graph) returns (errors: seq<Error>)
    requires nid in g
    ensures forall e :: e in errors <==> SetStateError(nid, value, g, e)
    ensures !ValidateTransition(GetOr(g[nid], "state", Suggested), value) ==>
              errors == [IllegalTransition(nid, GetOr(g[nid], "state", Suggested), value)]
    ensures ValidateTransition(GetOr(g[nid], "state", Suggested), value) && value == Committed ==>
              errors == Reported(Upstream(false, nid, g), DepsList(g[nid]))
    ensures ValidateTransition(GetOr(g[nid], "state", Suggested), value) && value != Committed ==> errors == []
  {
    errors := [];
    var prev := GetOr(g[nid], "state", Suggested);
    var ok := ValidateTransition(prev, value);
    if !ok {
      errors := errors + [IllegalTransition(nid, prev, value)];
    }
    if value == Committed && errors == [] {
      errors := CheckUpstream(false, nid, DepsList(g[nid]), g);
    }
  }

  /** The checks of the `depends_on` branch before the cycle search (tools/dna-graph.py:411-431). */
  method SetDepChecks(nid: string, deps: seq<string>, g: Graph) returns (errors: seq<Error>, warnings: seq<Warning>)
    requires nid in g
    ensures forall e :: e in errors <==> (DepError(nid, deps, g, e) ||
                                         (g[nid].scope == Constitution && IronError(nid, deps, g, e)))
    ensures errors == [] <==> SetDepsChecksPass(nid, deps, g)
    ensures forall w :: w in warnings <==> DepWarning(nid, Get(g[nid], "level"), deps, g, w)
    ensures errors == Reported(Existence(nid, g), deps) +
                      (if g[nid].scope == Constitution then Reported(NoProject(nid, g), deps) else [])
    ensures warnings == Warned(nid, Get(g[nid], "level"), deps, g)
  {
    errors, warnings := CheckDeps(nid, Get(g[nid], "level"), deps, g);
    var iron: seq<Error> := [];
    if g[nid].scope == Constitution {
      iron := CheckIronRule(nid, deps, g);
    }
    errors := errors + iron;
    if !SetDepsChecksPass(nid, deps, g) {
      if exists d :: d in deps && d !in g {
        var d :| d in deps && d !in g;
        assert MissingDependency(nid, d) in errors;
      } else if nid in deps {
        assert SelfDependency(nid) in errors;
      } else {
        var d :| d in deps && g[d].scope == Project;
        assert IronRule(nid, d) in errors;
      }
    } else if errors != [] {
      assert errors[0] in errors;
    }
  }

  /** The `depends_on` branch: existence, self-dependency, the iron rule and then the cycle search. */
  method SetDeps(nid: string, deps: seq<string>, g: Graph) returns (errors: seq<Error>, warnings: seq<Warning>)
    requires nid in g
    ensures forall e :: e in errors <==> SetDepsError(nid, deps, g, e)
    ensures forall w :: w in warnings <==> DepWarning(nid, Get(g[nid], "level"), deps, g, w)
    ensures !SetDepsChecksPass(nid, deps, g) ==>
              errors == Reported(Existence(nid, g), deps) +
                        (if g[nid].scope == Constitution then Reported(NoProject(nid, g), deps) else [])
    ensures SetDepsChecksPass(nid, deps, g) ==> errors == Reported(NoCycle(false, nid, SetAdj(g, nid, deps)), deps)
    ensures warnings == Warned(nid, Get(g[nid], "level"), deps, g)
  {
    errors, warnings := SetDepChecks(nid, deps, g);
    if deps != [] && errors == [] {
      errors := CheckCycles(false, nid, deps, SetAdj(g, nid, deps));
    }
  }

  /** `validate_for_set` (tools/dna-graph.py:388-478). */
  method ValidateForSet(nid: string, field: string, value: Value, g: Graph)
    returns (errors: seq<Error>, warnings: seq<Warning>)
    ensures nid !in g ==> errors == [NotFound(nid)] && warnings == []
    ensures forall e :: e in errors <==> SetError(nid, field, value, g, e)
    ensures forall w :: w in warnings <==> SetWarning(nid, field, value, g, w)
    ensures nid in g && field != "state" && field != "depends_on" ==> |errors| <= 1
    ensures nid in g && field == "state" ==>
              errors == (if !ValidateTransition(GetOr(g[nid], "state", Suggested), value)
                         then [IllegalTransition(nid, GetOr(g[nid], "state", Suggested), value)]
                         else if value == Committed then Reported(Upstream(false, nid, g), DepsList(g[nid]))
                         else [])
    ensures nid in g && field == "depends_on" ==>
              errors == if SetDepsChecksPass(nid, ProposedDeps(value), g)
                        then Reported(NoCycle(false, nid, SetAdj(g, nid, ProposedDeps(value))), ProposedDeps(value))
                        else Reported(Existence(nid, g), ProposedDeps(value)) +
                             (if g[nid].scope == Constitution then Reported(NoProject(nid, g), ProposedDeps(value)) else [])
    ensures nid in g && field == "depends_on" ==> warnings == Warned(nid, Get(g[nid], "level"), ProposedDeps(value), g)
    ensures nid in g && field == "level" ==>
              warnings == if ValidLevel(value) then Inversions(nid, value, DepsList(g[nid]), g) else []
    ensures field != "depends_on" && field != "level" ==> warnings == []
  {
    errors, warnings := [], [];
    if nid !in g {
      errors := [NotFound(nid)];
      return;
    }
    if field == "state" {
      errors := SetState(nid, value, g);
    } else if field == "depends_on" {
      errors, warnings := SetDeps(nid, ProposedDeps(value), g);
    } else if field == "level" {
      if !ValidLevel(value) {
        errors := [InvalidLevel(nid, value)];
      } else {
        warnings := InversionWarnings(nid, value, DepsList(g[nid]), g);
      }
    } else if field == "stakes" {
      if !ValidStakes(value) {
        errors := [InvalidStakes(nid, value)];
      }
    } else if field == "title" {
      if BlankTitle(value) {
        errors := [EmptyTitle(nid)];
      }
    } else {
      errors := [UnknownField(field)];
    }
  }
}
