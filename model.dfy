/** The decision graph: records keyed by identifier, their vocabularies, the dependency edge
    relation in both directions, and the errors and warnings the validators report. */
module Decisions {
  import opened Util
  import opened Frontmatter
  import opened Reach

  /** Which directory a record was loaded from: `constitution/` (upstream) or `dna/` (project). */
  datatype Scope = Constitution | Project

  /** A loaded decision: its frontmatter exactly as parsed, its scope and the body after the
      closing fence. The frontmatter is kept raw because the validators inspect the raw values. */
  datatype Node = Node(fm: Fm, scope: Scope, body: string)

  type Graph = map<string, Node>

  /** `node.get(key)`: a missing key reads as null. */
  function Get(n: Node, key: string): Value {
    if key in n.fm then n.fm[key] else Null
  }

  /** `node.get(key, default)`: only a missing key gives the default; a stored null stays null. */
  function GetOr(n: Node, key: string, default: Value): Value {
    if key in n.fm then n.fm[key] else default
  }

  /** `node.get("state") == "committed"`. */
  predicate IsCommitted(n: Node) {
    Get(n, "state") == Str("committed")
  }

  // ---------------------------------------------------------------------------
  // Vocabularies
  // ---------------------------------------------------------------------------

  const States: set<string> := {"suggested", "committed", "superseded"}
  const StakesLevels: set<string> := {"high", "medium", "low"}

  /** Membership in the state vocabulary. */
  predicate ValidState(v: Value) {
    v.Str? && v.s in States
  }

  /** Membership in the stakes vocabulary. */
  predicate ValidStakes(v: Value) {
    v.Str? && v.s in StakesLevels
  }

  /** Membership in the level vocabulary {1, 2, 3, 4}; Python's `True` is equal to 1. */
  predicate ValidLevel(v: Value) {
    (v.Int? && 1 <= v.i <= 4) || v == Bool(true)
  }

  /** A level as the number Python compares it as: an integer, or a bool as 0 or 1. */
  function LevelNumber(v: Value): (r: Option<int>)
    ensures ValidLevel(v) ==> r.Some? && 1 <= r.value <= 4
    ensures v.Null? ==> r.None?
  {
    match v
    case Int(i) => Some(i)
    case Bool(b) => Some(if b then 1 else 0)
    case _ => None
  }

  /** `LEVEL_NAMES`. */
  const LevelNames: map<int, string> := map[1 := "Identity", 2 := "Direction", 3 := "Strategy", 4 := "Tactics"]

  /** `n.get("level") == lvl`, with Python's `True == 1`. */
  predicate AtLevel(n: Node, lvl: int) {
    Get(n, "level") == Int(lvl) || (lvl == 1 && Get(n, "level") == Bool(true))
  }

  /** `dep_level is not None and level is not None and dep_level > level`: numbers (a bool as
      0 or 1) compare by value and two texts compare by code point, as Python compares them. */
  predicate Inverted(level: Value, depLevel: Value): (r: bool)
    ensures level.Null? || depLevel.Null? ==> !r
    ensures level.Int? && depLevel.Int? ==> (r <==> depLevel.i > level.i)
    ensures level.Str? && depLevel.Str? ==> (r <==> Less(level.s, depLevel.s))
    ensures ValidLevel(level) && ValidLevel(depLevel) ==> (r <==> LevelNumber(depLevel).value > LevelNumber(level).value)
  {
    var a := LevelNumber(level);
    var b := LevelNumber(depLevel);
    (a.Some? && b.Some? && b.value > a.value) || (level.Str? && depLevel.Str? && Less(level.s, depLevel.s))
  }

  /** Inversion is a strict order on levels: no level is inverted against itself, no two
      levels against each other, and a chain of two inversions is one. */
  lemma InvertedStrictOrder(a: Value, b: Value, c: Value)
    ensures !Inverted(a, a)
    ensures Inverted(a, b) ==> !Inverted(b, a)
    ensures Inverted(a, b) && Inverted(b, c) ==> Inverted(a, c)
  {
    if a.Str? {
      LessIrreflexive(a.s);
      if b.Str? {
        LessAsymmetric(a.s, b.s);
        if c.Str? && Less(a.s, b.s) && Less(b.s, c.s) {
          LessTransitive(a.s, b.s, c.s);
        }
      }
    }
  }

  // ---------------------------------------------------------------------------
  // Edges
  // ---------------------------------------------------------------------------

  /** The string entries of a list, in order. */
  function StrItems(xs: seq<Value>): (r: seq<string>)
    ensures |r| <= |xs|
    ensures forall d :: d in r <==> Str(d) in xs
  {
    if xs == [] then []
    else (if xs[0].Str? then [xs[0].s] else []) + StrItems(xs[1..])
  }

  /** Each character of a string as a one-character string, as iterating a Python `str` gives. */
  function Chars(s: string): (r: seq<string>)
    ensures |r| == |s|
    ensures forall k :: 0 <= k < |s| ==> r[k] == [s[k]]
  {
    seq(|s|, k requires 0 <= k < |s| => [s[k]])
  }

  /** `get_deps_list`: the dependency identifiers of a record, in order and with repeats. */
  function DepsList(n: Node): (r: seq<string>)
    ensures Get(n, "depends_on").List? ==> forall d :: d in r <==> Str(d) in Get(n, "depends_on").items
    ensures !Truthy(Get(n, "depends_on")) ==> r == []
  {
    match Get(n, "depends_on")
    case List(xs) => StrItems(xs)
    case Str(s) => Chars(s)
    case _ => []
  }

  /** How many times `x` occurs in `s`. */
  function Occurrences(s: seq<string>, x: string): (c: nat)
    ensures c <= |s|
    ensures c > 0 <==> x in s
  {
    if s == [] then 0 else (if s[0] == x then 1 else 0) + Occurrences(s[1..], x)
  }

  /** `order` lists the identifiers of `g` once each: the iteration order of the `nodes` dict. */
  ghost predicate IsOrder(g: Graph, order: seq<string>) {
    (forall x :: x in order <==> x in g) &&
    (forall i, j :: 0 <= i < j < |order| ==> order[i] != order[j])
  }

  /** `get_dependents`: every record (in dict order) that lists `id` among its dependencies,
      once for each time it lists it. */
  function Dependents(g: Graph, order: seq<string>, id: string): (r: seq<string>)
    requires forall x :: x in order ==> x in g
    ensures forall x :: x in r <==> x in order && id in DepsList(g[x])
  {
    if order == [] then []
    else
      var head := seq(Occurrences(DepsList(g[order[0]]), id), _ => order[0]);
      assert head != [] ==> head[0] == order[0];
      head + Dependents(g, order[1..], id)
  }

  /** The dependency edges between records that both exist. */
  function DepAdj(g: Graph): Adj {
    map x | x in g :: set d | d in DepsList(g[x]) && d in g
  }

  /** The reverse edges: from a record to the existing records that depend on it. */
  function RevAdj(g: Graph): Adj {
    map x | x in g :: set y | y in g && x in DepsList(g[y])
  }

  lemma DepAdjEdge(g: Graph, a: string, b: string)
    ensures Edge(DepAdj(g), a, b) <==> a in g && b in g && b in DepsList(g[a])
  {
  }

  /** The reverse adjacency is exactly the converse of the dependency adjacency. */
  lemma RevAdjConverse(g: Graph, a: string, b: string)
    ensures Edge(RevAdj(g), a, b) <==> Edge(DepAdj(g), b, a)
  {
  }

  /** A record has dependents exactly when it has an incoming edge from an existing record. */
  lemma DependentsEdge(g: Graph, order: seq<string>, id: string)
    requires IsOrder(g, order) && id in g
    ensures Dependents(g, order, id) != [] <==> exists y :: Edge(RevAdj(g), id, y)
  {
    if Dependents(g, order, id) != [] {
      var y := Dependents(g, order, id)[0];
      assert y in Dependents(g, order, id);
      assert Edge(RevAdj(g), id, y);
    }
  }

  // ---------------------------------------------------------------------------
  // Reported problems
  // ---------------------------------------------------------------------------

  /** One constructor per error message of the validators. */
  datatype Error =
    | BadIdFormat(id: string)                      // ID must match DEC-NNN
    | IdExists(id: string)                         // ID already exists
    | InvalidLevel(id: string, level: Value)
    | InvalidState(id: string, state: Value)
    | InvalidStakes(id: string, stakes: Value)
    | MissingDependency(id: string, dep: string)   // depends_on references non-existent
    | SelfDependency(id: string)
    | IronRule(id: string, dep: string)            // constitution depends on project
    | CreateUpstream(id: string, dep: string, depState: Value)   // cannot create as committed
    | CreateCycle(id: string, dep: string)
    | NotFound(id: string)
    | IllegalTransition(id: string, from: Value, to: Value)
    | CommitUpstream(id: string, dep: string, depState: Value)   // cannot commit
    | SetCycle(id: string, dep: string)
    | EmptyTitle(id: string)
    | UnknownField(field: string)
    | BadIdPrefix(id: string)                      // ID must start with DEC-
    | MissingLevel(id: string)
    | CycleDetected(path: seq<string>)
    | UpstreamSuperseded(id: string, dep: string)
    | UpstreamSuggested(id: string, dep: string)

  /** One constructor per warning message of the validators. */
  datatype Warning =
    | LevelInversion(id: string, level: Value, dep: string, depLevel: Value)
    | MissingTitle(id: string)
    | MissingDate(id: string)
    | MissingState(id: string)
    | MissingSection(id: string, section: string)
    | Orphan(id: string)
    | MissingDep(id: string, level: Value)       // L2+ decision without upstream
}
