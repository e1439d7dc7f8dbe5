/** The structural checks of `cmd_validate` (tools/dna-graph.py:611-722, 784-794): per-record
    field and reference checks in identifier order, the cycle search, orphans, level inversions,
    the constitution-must-not-depend-on-project rule, the health of committed records, and the
    strict missing-dependency rule. */
module GraphCheck {
  import opened Util
  import opened Frontmatter
  import opened Reach
  import opened Decisions
  import opened PreValidate
  import opened Validate

  // ---------------------------------------------------------------------------
  // Per-record checks (steps 1-7)
  // ---------------------------------------------------------------------------

  /** The body sections every record must have. */
  const Sections: seq<string> := ["Decision", "Reasoning", "Assumptions", "Tradeoffs"]

  /** `re.search(rf'^## {section}\s*$', body, re.MULTILINE)`: the heading starts the body or a
      line, and is followed by whitespace (possibly spanning lines) up to a line end or the end. */
  predicate HasSection(body: string, section: string): (r: bool)
    ensures r ==> Contains(body, "## " + section)
    ensures StartsWith(body, "## " + section + "\n") ==> r
  {
    var h := "## " + section;
    assert StartsWith(body, h + "\n") ==> HeadingAt(body, h, 0, |h|) by {
      if StartsWith(body, h + "\n") {
        assert body[..|h|] == (h + "\n")[..|h|] == h;
      }
    }
    assert forall i, j :: 0 <= i <= j <= |body| && HeadingAt(body, h, i, j) ==> OccursAt(body, h, i);
    exists i, j :: 0 <= i <= j <= |body| && HeadingAt(body, h, i, j)
  }

  /** A heading line anywhere in the body counts: one after a line break, with trailing
      blanks before the next line break or the end. */
  lemma HeadingLineFound(before: string, section: string, blanks: string, after: string)
    requires before == [] || before[|before| - 1] == '\n'
    requires forall k :: 0 <= k < |blanks| ==> blanks[k] == ' '
    requires after == [] || after[0] == '\n'
    ensures HasSection(before + "## " + section + blanks + after, section)
  {
    var h := "## " + section;
    var body := before + h + blanks + after;
    assert body == before + "## " + section + blanks + after;
    var i, j := |before|, |before| + |h| + |blanks|;
    assert body[i..i + |h|] == h;
    assert forall k :: i + |h| <= k < j ==> body[k] == blanks[k - i - |h|];
    assert HeadingAt(body, h, i, j);
  }

  /** `h` starts at a line start `i` and is followed by whitespace up to `j`, a line end. */
  predicate HeadingAt(body: string, h: string, i: nat, j: nat) {
    i + |h| <= j <= |body| && (i == 0 || body[i - 1] == '\n') &&
    body[i..i + |h|] == h && (j == |body| || body[j] == '\n') &&
    (forall k :: i + |h| <= k < j ==> IsSpace(body[k]))
  }

  /** The errors the loop over records reports for `nid`. */
  ghost predicate NodeError(g: Graph, nid: string, e: Error)
    requires nid in g
  {
    var n := g[nid];
    var level := Get(n, "level");
    var state := Get(n, "state");
    var stakes := Get(n, "stakes");
    (e == BadIdPrefix(nid) && !StartsWith(nid, "DEC-")) ||
    (e == MissingLevel(nid) && level == Null) ||
    (e == InvalidLevel(nid, level) && level != Null && !ValidLevel(level)) ||
    (e == InvalidState(nid, state) && Truthy(state) && !ValidState(state)) ||
    (e == InvalidStakes(nid, stakes) && Truthy(stakes) && !ValidStakes(stakes)) ||
    (e.MissingDependency? && e.id == nid && e.dep in DepsList(n) && e.dep !in g)
  }

  /** The warnings the loop over records reports for `nid`. */
  ghost predicate NodeWarning(g: Graph, nid: string, w: Warning)
    requires nid in g
  {
    var n := g[nid];
    (w == MissingTitle(nid) && !Truthy(Get(n, "title"))) ||
    (w == MissingDate(nid) && !Truthy(Get(n, "date"))) ||
    (w == MissingState(nid) && !Truthy(Get(n, "state"))) ||
    (w.MissingSection? && w.id == nid && w.section in Sections && !HasSection(n.body, w.section))
  }

  /** Reference integrity (step 6): one error per listed dependency that does not exist. */
  method MissingTargets(nid: string, deps: seq<string>, g: Graph) returns (errors: seq<Error>)
    ensures forall e :: e in errors <==> e.MissingDependency? && e.id == nid && e.dep in deps && e.dep !in g
  {
    errors := [];
    for k := 0 to |deps|
      invariant forall e :: e in errors <==> e.MissingDependency? && e.id == nid && e.dep in deps[..k] && e.dep !in g
    {
      assert deps[..k + 1] == deps[..k] + [deps[k]];
      if deps[k] !in g {
        errors := errors + [MissingDependency(nid, deps[k])];
      }
    }
    assert deps[..|deps|] == deps;
  }

  /** Required body sections (step 7): one warning per missing heading, in the listed order. */
  method MissingSections(nid: string, body: string) returns (warnings: seq<Warning>)
    ensures forall w :: w in warnings <==> w.MissingSection? && w.id == nid && w.section in Sections && !HasSection(body, w.section)
  {
    warnings := [];
    for k := 0 to |Sections|
      invariant forall w :: w in warnings <==> w.MissingSection? && w.id == nid && w.section in Sections[..k] && !HasSection(body, w.section)
    {
      assert Sections[..k + 1] == Sections[..k] + [Sections[k]];
      if !HasSection(body, Sections[k]) {
        warnings := warnings + [MissingSection(nid, Sections[k])];
      }
    }
  }

  /** Steps 1-5: the identifier prefix, title, date, level, state and stakes of one record. */
  method FieldProblems(g: Graph, nid: string) returns (errors: seq<Error>, warnings: seq<Warning>)
    requires nid in g
    ensures forall e :: e in errors <==> NodeError(g, nid, e) && !e.MissingDependency?
    ensures forall w :: w in warnings <==> NodeWarning(g, nid, w) && !w.MissingSection?
  {
    var n := g[nid];
    errors, warnings := [], [];
    if !StartsWith(nid, "DEC-") {
      errors := errors + [BadIdPrefix(nid)];
    }
    if !Truthy(Get(n, "title")) {
      warnings := warnings + [MissingTitle(nid)];
    }
    if !Truthy(Get(n, "date")) {
      warnings := warnings + [MissingDate(nid)];
    }
    var level := Get(n, "level");
    if level == Null {
      errors := errors + [MissingLevel(nid)];
    } else if !ValidLevel(level) {
      errors := errors + [InvalidLevel(nid, level)];
    }
    var state := Get(n, "state");
    if Truthy(state) && !ValidState(state) {
      errors := errors + [InvalidState(nid, state)];
    } else if !Truthy(state) {
      warnings := warnings + [MissingState(nid)];
    }
    var stakes := Get(n, "stakes");
    if Truthy(stakes) && !ValidStakes(stakes) {
      errors := errors + [InvalidStakes(nid, stakes)];
    }
  }

  /** Steps 1-7 for one record. */
  method CheckNode(g: Graph, nid: string) returns (errors: seq<Error>, warnings: seq<Warning>)
    requires nid in g
    ensures forall e :: e in errors <==> NodeError(g, nid, e)
    ensures forall w :: w in warnings <==> NodeWarning(g, nid, w)
  {
    var fieldErrors, fieldWarnings := FieldProblems(g, nid);
    var missing := MissingTargets(nid, DepsList(g[nid]), g);
    var sections := MissingSections(nid, g[nid].body);
    errors := fieldErrors + missing;
    warnings := fieldWarnings + sections;
  }

  /** The loop over records in `ids` (the sorted identifiers). */
  method NodeChecks(g: Graph, ids: seq<string>) returns (errors: seq<Error>, warnings: seq<Warning>)
    requires forall x :: x in ids ==> x in g
    ensures forall e :: e in errors <==> exists x :: x in ids && NodeError(g, x, e)
    ensures forall w :: w in warnings <==> exists x :: x in ids && NodeWarning(g, x, w)
  {
    errors, warnings := [], [];
    for k := 0 to |ids|
      invariant forall e :: e in errors <==> exists x :: x in ids[..k] && NodeError(g, x, e)
      invariant forall w :: w in warnings <==> exists x :: x in ids[..k] && NodeWarning(g, x, w)
    {
      assert ids[..k + 1] == ids[..k] + [ids[k]];
      var es, ws := CheckNode(g, ids[k]);
      errors := errors + es;
      warnings := warnings + ws;
    }
    assert ids[..|ids|] == ids;
  }

  // ---------------------------------------------------------------------------
  // Orphans (step 9) and the strict missing-dependency rule (B5)
  // ---------------------------------------------------------------------------

  /** No dependencies listed and no record lists it. */
  ghost predicate IsOrphan(g: Graph, nid: string)
    requires nid in g
  {
    DepsList(g[nid]) == [] && forall y :: y in g ==> nid !in DepsList(g[y])
  }

  /** `not get_deps_list(n) and not get_dependents(nodes, nid)`. */
  lemma OrphanTest(g: Graph, order: seq<string>, nid: string)
    requires IsOrder(g, order) && nid in g
    ensures (DepsList(g[nid]) == [] && Dependents(g, order, nid) == []) <==> IsOrphan(g, nid)
  {
    if !IsOrphan(g, nid) && DepsList(g[nid]) == [] {
      var y :| y in g && nid in DepsList(g[y]);
      assert y in Dependents(g, order, nid);
    }
    if Dependents(g, order, nid) != [] {
      assert Dependents(g, order, nid)[0] in Dependents(g, order, nid);
    }
  }

  /** An orphan has no edge in either direction. */
  lemma OrphanIsolated(g: Graph, nid: string)
    requires nid in g && IsOrphan(g, nid)
    ensures forall y :: !Edge(DepAdj(g), nid, y) && !Edge(DepAdj(g), y, nid)
  {
    forall y ensures !Edge(DepAdj(g), nid, y) && !Edge(DepAdj(g), y, nid) {
      DepAdjEdge(g, nid, y);
      DepAdjEdge(g, y, nid);
    }
  }

  /** Step 9 over the sorted identifiers. */
  method Orphans(g: Graph, order: seq<string>, ids: seq<string>) returns (warnings: seq<Warning>)
    requires IsOrder(g, order)
    requires forall x :: x in ids ==> x in g
    ensures forall w :: w in warnings <==> w.Orphan? && w.id in ids && IsOrphan(g, w.id)
  {
    warnings := [];
    for k := 0 to |ids|
      invariant OrphansUpTo(g, ids[..k], warnings)
    {
      var nid := ids[k];
      OrphanTest(g, order, nid);
      var orphan := DepsList(g[nid]) == [] && Dependents(g, order, nid) == [];
      OrphansStep(g, ids[..k], nid, warnings, orphan);
      assert ids[..k + 1] == ids[..k] + [nid];
      if orphan {
        warnings := warnings + [Orphan(nid)];
      }
    }
    assert ids[..|ids|] == ids;
  }

  /** The orphan warnings of a prefix of the identifiers. */
  ghost predicate OrphansUpTo(g: Graph, xs: seq<string>, warnings: seq<Warning>) {
    forall w :: w in warnings <==> w.Orphan? && w.id in xs && w.id in g && IsOrphan(g, w.id)
  }

  lemma OrphansStep(g: Graph, xs: seq<string>, nid: string, warnings: seq<Warning>, orphan: bool)
    requires nid in g && OrphansUpTo(g, xs, warnings) && (orphan <==> IsOrphan(g, nid))
    ensures OrphansUpTo(g, xs + [nid], if orphan then warnings + [Orphan(nid)] else warnings)
  {
  }

  /** B5: a record of level 2 or more without dependencies that is not an orphan. */
  ghost predicate MissingDepOf(g: Graph, w: Warning) {
    w.MissingDep? && w.id in g && w.level == Get(g[w.id], "level") &&
    LevelNumber(w.level).Some? && LevelNumber(w.level).value >= 2 &&
    DepsList(g[w.id]) == [] && !IsOrphan(g, w.id)
  }

  /** The set `existing_orphans`, collected in dict order. */
  method OrphanSet(g: Graph, order: seq<string>) returns (orphans: set<string>)
    requires IsOrder(g, order)
    ensures forall x :: x in orphans <==> x in g && IsOrphan(g, x)
  {
    orphans := {};
    for k := 0 to |order|
      invariant forall x :: x in orphans <==> x in order[..k] && IsOrphan(g, x)
    {
      assert order[..k + 1] == order[..k] + [order[k]];
      var nid := order[k];
      OrphanTest(g, order, nid);
      if DepsList(g[nid]) == [] && Dependents(g, order, nid) == [] {
        orphans := orphans + {nid};
      }
    }
    assert order[..|order|] == order;
  }

  /** B5 over the sorted identifiers. */
  method MissingDeps(g: Graph, order: seq<string>, ids: seq<string>) returns (warnings: seq<Warning>)
    requires IsOrder(g, order)
    requires forall x :: x in ids ==> x in g
    ensures forall w :: w in warnings <==> MissingDepOf(g, w) && w.id in ids
  {
    var orphans := OrphanSet(g, order);
    warnings := [];
    for k := 0 to |ids|
      invariant forall w :: w in warnings <==> MissingDepOf(g, w) && w.id in ids[..k]
    {
      assert ids[..k + 1] == ids[..k] + [ids[k]];
      var nid := ids[k];
      var level := Get(g[nid], "level");
      var num := LevelNumber(level);
      if num.Some? && num.value >= 2 && DepsList(g[nid]) == [] && nid !in orphans {
        warnings := warnings + [MissingDep(nid, level)];
      }
    }
    assert ids[..|ids|] == ids;
  }

  /** A B5 warning names a record that others depend on but that depends on nothing. */
  lemma MissingDepMeaning(g: Graph, w: Warning)
    requires MissingDepOf(g, w)
    ensures forall y :: !Edge(RevAdj(g), y, w.id) && !Edge(DepAdj(g), w.id, y)
    ensures exists y :: Edge(RevAdj(g), w.id, y)
  {
    var y :| y in g && w.id in DepsList(g[y]);
    RevAdjConverse(g, w.id, y);
    DepAdjEdge(g, y, w.id);
  }

  // ---------------------------------------------------------------------------
  // Level ordering (step 10), iron rule (step 11), state health (step 12)
  // ---------------------------------------------------------------------------

  /** Step 10: an existing dependency of a record whose level is a higher number. */
  ghost predicate InversionOf(g: Graph, w: Warning) {
    w.LevelInversion? && w.id in g && LevelWarning(w.id, Get(g[w.id], "level"), DepsList(g[w.id]), g, w)
  }

  method Inversions(g: Graph, ids: seq<string>) returns (warnings: seq<Warning>)
    requires forall x :: x in ids ==> x in g
    ensures forall w :: w in warnings <==> InversionOf(g, w) && w.id in ids
  {
    warnings := [];
    for k := 0 to |ids|
      invariant forall w :: w in warnings <==> InversionOf(g, w) && w.id in ids[..k]
    {
      assert ids[..k + 1] == ids[..k] + [ids[k]];
      var nid := ids[k];
      var level := Get(g[nid], "level");
      if level != Null {
        var ws := InversionWarnings(nid, level, DepsList(g[nid]), g);
        warnings := warnings + ws;
      }
    }
    assert ids[..|ids|] == ids;
  }

  /** Step 11: a constitution record that lists an existing project record. */
  ghost predicate IronOf(g: Graph, e: Error) {
    e.IronRule? && e.id in g && g[e.id].scope == Constitution && IronError(e.id, DepsList(g[e.id]), g, e)
  }

  method IronChecks(g: Graph, ids: seq<string>) returns (errors: seq<Error>)
    requires forall x :: x in ids ==> x in g
    ensures forall e :: e in errors <==> IronOf(g, e) && e.id in ids
  {
    errors := [];
    for k := 0 to |ids|
      invariant forall e :: e in errors <==> IronOf(g, e) && e.id in ids[..k]
    {
      assert ids[..k + 1] == ids[..k] + [ids[k]];
      var nid := ids[k];
      if g[nid].scope == Constitution {
        var es := CheckIronRule(nid, DepsList(g[nid]), g);
        errors := errors + es;
      }
    }
    assert ids[..|ids|] == ids;
  }

  /** Step 12: a committed record that lists an existing superseded or suggested record. */
  ghost predicate HealthOf(g: Graph, e: Error) {
    (e.UpstreamSuperseded? || e.UpstreamSuggested?) && e.id in g && IsCommitted(g[e.id]) &&
    e.dep in DepsList(g[e.id]) && e.dep in g &&
    Get(g[e.dep], "state") == (if e.UpstreamSuperseded? then Str("superseded") else Str("suggested"))
  }

  /** Step 12 for one committed record. */
  method UpstreamHealth(g: Graph, nid: string) returns (errors: seq<Error>)
    requires nid in g && IsCommitted(g[nid])
    ensures forall e :: e in errors <==> HealthOf(g, e) && e.id == nid
  {
    var deps := DepsList(g[nid]);
    errors := [];
    for k := 0 to |deps|
      invariant forall e :: e in errors <==> HealthOf(g, e) && e.id == nid && e.dep in deps[..k]
    {
      assert deps[..k + 1] == deps[..k] + [deps[k]];
      var d := deps[k];
      if d in g {
        var st := Get(g[d], "state");
        if st == Str("superseded") {
          errors := errors + [UpstreamSuperseded(nid, d)];
        } else if st == Str("suggested") {
          errors := errors + [UpstreamSuggested(nid, d)];
        }
      }
    }
    assert deps[..|deps|] == deps;
  }

  method HealthChecks(g: Graph, ids: seq<string>) returns (errors: seq<Error>)
    requires forall x :: x in ids ==> x in g
    ensures forall e :: e in errors <==> HealthOf(g, e) && e.id in ids
  {
    errors := [];
    for k := 0 to |ids|
      invariant forall e :: e in errors <==> HealthOf(g, e) && e.id in ids[..k]
    {
      assert ids[..k + 1] == ids[..k] + [ids[k]];
      var nid := ids[k];
      if IsCommitted(g[nid]) {
        var es := UpstreamHealth(g, nid);
        errors := errors + es;
      }
    }
    assert ids[..|ids|] == ids;
  }

  // ---------------------------------------------------------------------------
  // The whole pass
  // ---------------------------------------------------------------------------

  /** Every error `cmd_validate` reports other than a cycle. */
  ghost predicate GraphError(g: Graph, e: Error) {
    (exists x :: x in g && NodeError(g, x, e)) || IronOf(g, e) || HealthOf(g, e)
  }

  /** Every warning `cmd_validate` reports. */
  ghost predicate GraphWarning(g: Graph, w: Warning) {
    (exists x :: x in g && NodeWarning(g, x, w)) ||
    (w.Orphan? && w.id in g && IsOrphan(g, w.id)) || InversionOf(g, w) || MissingDepOf(g, w)
  }

  /** One error per cycle found. */
  function CycleErrors(cycles: seq<seq<string>>): (r: seq<Error>)
    ensures |r| == |cycles|
    ensures forall k :: 0 <= k < |r| ==> r[k] == CycleDetected(cycles[k])
  {
    seq(|cycles|, k requires 0 <= k < |cycles| => CycleDetected(cycles[k]))
  }

  lemma ErrorsJoin(g: Graph, ids: seq<string>, a: seq<Error>, c: seq<Error>, b: seq<Error>, d: seq<Error>)
    requires forall x :: x in ids <==> x in g
    requires forall e :: e in a <==> exists x :: x in ids && NodeError(g, x, e)
    requires forall e :: e in c ==> e.CycleDetected?
    requires forall e :: e in b <==> IronOf(g, e) && e.id in ids
    requires forall e :: e in d <==> HealthOf(g, e) && e.id in ids
    ensures forall e: Error :: !e.CycleDetected? ==> (e in a + c + b + d <==> GraphError(g, e))
  {
  }

  lemma WarningsJoin(g: Graph, ids: seq<string>, a: seq<Warning>, b: seq<Warning>, c: seq<Warning>, d: seq<Warning>)
    requires forall x :: x in ids <==> x in g
    requires forall w :: w in a <==> exists x :: x in ids && NodeWarning(g, x, w)
    requires forall w :: w in b <==> w.Orphan? && w.id in ids && IsOrphan(g, w.id)
    requires forall w :: w in c <==> InversionOf(g, w) && w.id in ids
    requires forall w :: w in d <==> MissingDepOf(g, w) && w.id in ids
    ensures forall w :: w in a + b + c + d <==> GraphWarning(g, w)
  {
  }

  /** The cycle errors are exactly one per cycle found, whatever the other errors are. */
  lemma CyclesJoin(g: Graph, other: seq<Error>, cycles: seq<seq<string>>, errors: seq<Error>)
    requires forall e :: e in other ==> !e.CycleDetected?
    requires forall e :: e in errors <==> e in other || e in CycleErrors(cycles)
    requires forall k :: 0 <= k < |cycles| ==> IsCycle(DepAdj(g), cycles[k])
    requires cycles == [] <==> !HasCycle(DepAdj(g))
    ensures forall e :: e in errors && e.CycleDetected? ==> IsCycle(DepAdj(g), e.path)
    ensures (exists e :: e in errors && e.CycleDetected?) <==> HasCycle(DepAdj(g))
  {
    var cycleErrors := CycleErrors(cycles);
    forall e | e in errors && e.CycleDetected? ensures IsCycle(DepAdj(g), e.path) {
      var k :| 0 <= k < |cycleErrors| && cycleErrors[k] == e;
    }
    if cycles != [] {
      assert cycleErrors[0] in errors;
    }
  }

  /** The errors of `cmd_validate` in its order: per record, cycles, iron rule, upstream health. */
  method GraphErrors(g: Graph, order: seq<string>, ids: seq<string>, nodeErrors: seq<Error>) returns (errors: seq<Error>)
    requires IsOrder(g, order)
    requires forall x :: x in ids <==> x in g
    requires forall e :: e in nodeErrors <==> exists x :: x in ids && NodeError(g, x, e)
    ensures forall e: Error :: !e.CycleDetected? ==> (e in errors <==> GraphError(g, e))
    ensures forall e :: e in errors && e.CycleDetected? ==> IsCycle(DepAdj(g), e.path)
    ensures (exists e :: e in errors && e.CycleDetected?) <==> HasCycle(DepAdj(g))
  {
    var cycles := FindCycles(g, order);
    var iron := IronChecks(g, ids);
    var health := HealthChecks(g, ids);
    var cycleErrors := CycleErrors(cycles);
    errors := nodeErrors + cycleErrors + iron + health;
    ErrorsJoin(g, ids, nodeErrors, cycleErrors, iron, health);
    CyclesJoin(g, nodeErrors + iron + health, cycles, errors);
  }

  /** The warnings of `cmd_validate` in its order: per record, orphans, inversions, missing
      dependencies. */
  method GraphWarnings(g: Graph, order: seq<string>, ids: seq<string>, nodeWarnings: seq<Warning>)
    returns (warnings: seq<Warning>)
    requires IsOrder(g, order)
    requires forall x :: x in ids <==> x in g
    requires forall w :: w in nodeWarnings <==> exists x :: x in ids && NodeWarning(g, x, w)
    ensures forall w :: w in warnings <==> GraphWarning(g, w)
  {
    var orphans := Orphans(g, order, ids);
    var inversions := Inversions(g, ids);
    var missing := MissingDeps(g, order, ids);
    warnings := nodeWarnings + orphans + inversions + missing;
    WarningsJoin(g, ids, nodeWarnings, orphans, inversions, missing);
  }

  /** `cmd_validate` without the body linters B1-B4 and B6, with the corrected cycle search. */
  method ValidateGraph(g: Graph, order: seq<string>) returns (errors: seq<Error>, warnings: seq<Warning>)
    requires IsOrder(g, order)
    ensures forall e: Error :: !e.CycleDetected? ==> (e in errors <==> GraphError(g, e))
    ensures forall e :: e in errors && e.CycleDetected? ==> IsCycle(DepAdj(g), e.path)
    ensures (exists e :: e in errors && e.CycleDetected?) <==> HasCycle(DepAdj(g))
    ensures forall w :: w in warnings <==> GraphWarning(g, w)
  {
    var ids := SortedElements(g.Keys);
    var nodeErrors, nodeWarnings := NodeChecks(g, ids);
    errors := GraphErrors(g, order, ids, nodeErrors);
    warnings := GraphWarnings(g, order, ids, nodeWarnings);
  }

  /** The rules the whole-graph pass must catch: every constitution record with an existing
      project dependency and every committed record with an existing superseded or suggested
      dependency is reported. */
  lemma IronAndHealthReported(g: Graph, nid: string, dep: string)
    requires nid in g && dep in DepsList(g[nid]) && dep in g
    ensures g[nid].scope == Constitution && g[dep].scope == Project ==> GraphError(g, IronRule(nid, dep))
    ensures IsCommitted(g[nid]) && Get(g[dep], "state") == Str("superseded") ==> GraphError(g, UpstreamSuperseded(nid, dep))
    ensures IsCommitted(g[nid]) && Get(g[dep], "state") == Str("suggested") ==> GraphError(g, UpstreamSuggested(nid, dep))
  {
  }
}
