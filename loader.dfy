/** `load_graph` (tools/dna-graph.py:485-511): every decision file of the constitution scope and
    then of the project scope, each scope in sorted path order, merged into one graph; an
    identifier declared twice is fatal. Listing and reading the directories is left to the
    caller, which passes each file's scope and what `ParseFrontmatter` made of its text, in
    that order. */
module Loader {
  import opened Util
  import opened Frontmatter
  import opened Decisions

  /** One decision file: its scope and its parsed frontmatter and body. */
  datatype DecisionFile = DecisionFile(scope: Scope, parsed: Parsed)


  /** The fatal error: `id` is declared by a file of scope `first` and again by one of `second`. */
  datatype Collision = Collision(id: string, first: Scope, second: Scope)

  /** The graph and the identifiers in the order they were added (the dict's iteration order). */
  datatype Loaded = Loaded(g: Graph, order: seq<string>)

  /** The identifier a file contributes: it has a frontmatter holding an `id` that is text. */
  function IdOf(f: DecisionFile): (r: Option<string>)
    ensures r.Some? ==> f.parsed.fm.Some? && "id" in f.parsed.fm.value
  {
    var p := f.parsed;
    if p.fm.Some? && "id" in p.fm.value && p.fm.value["id"].Str? then Some(p.fm.value["id"].s)
    else None
  }

  /** The record a file contributes. */
  function NodeOf(f: DecisionFile): (n: Node)
    requires IdOf(f).Some?
    ensures Get(n, "id") == Str(IdOf(f).value) && n.scope == f.scope
  {
    var p := f.parsed;
    Node(p.fm.value, f.scope, p.body)
  }

  /** The identifiers of those files that declare one, in load order. */
  function FileIds(files: seq<DecisionFile>): seq<string> {
    if files == [] then []
    else
      var last := files[|files| - 1];
      FileIds(files[..|files| - 1]) + (if IdOf(last).Some? then [IdOf(last).value] else [])
  }

  /** No identifier is declared twice among the first `n` files. */
  ghost predicate DistinctUpTo(files: seq<DecisionFile>, n: nat) {
    forall i, j :: 0 <= i < j < n <= |files| && IdOf(files[i]).Some? ==> IdOf(files[j]) != IdOf(files[i])
  }

  /** What the loop has built after the first `k` files: the identifiers in load order, once
      each, and the record of every file read so far under its identifier. */
  ghost predicate LoadedUpTo(files: seq<DecisionFile>, k: nat, g: Graph, order: seq<string>)
    requires k <= |files|
  {
    order == FileIds(files[..k]) &&
    (forall x :: x in g <==> x in order) &&
    (forall i, j :: 0 <= i < j < |order| ==> order[i] != order[j]) &&
    (forall i :: 0 <= i < k && IdOf(files[i]).Some? ==>
       IdOf(files[i]).value in g && g[IdOf(files[i]).value] == NodeOf(files[i]))
  }

  /** Every identifier listed comes from one of the files. */
  lemma {:induction false} FileIdsSource(files: seq<DecisionFile>, k: nat, x: string) returns (i: nat)
    requires k <= |files| && x in FileIds(files[..k])
    ensures i < k && IdOf(files[i]) == Some(x)
  {
    if k > 0 {
      assert files[..k][..k - 1] == files[..k - 1];
      if x in FileIds(files[..k - 1]) {
        i := FileIdsSource(files, k - 1, x);
      } else {
        i := k - 1;
      }
    }
  }

  /** A file without an identifier adds nothing. */
  lemma LoadSkip(files: seq<DecisionFile>, k: nat, g: Graph, order: seq<string>)
    requires k < |files| && LoadedUpTo(files, k, g, order) && DistinctUpTo(files, k)
    requires IdOf(files[k]).None?
    ensures LoadedUpTo(files, k + 1, g, order) && DistinctUpTo(files, k + 1)
  {
    assert files[..k + 1][..k] == files[..k];
  }

  /** A file with a new identifier adds its record and its identifier. */
  lemma LoadAdd(files: seq<DecisionFile>, k: nat, g: Graph, order: seq<string>, x: string)
    requires k < |files| && LoadedUpTo(files, k, g, order) && DistinctUpTo(files, k)
    requires IdOf(files[k]) == Some(x) && x !in g
    ensures LoadedUpTo(files, k + 1, g[x := NodeOf(files[k])], order + [x]) && DistinctUpTo(files, k + 1)
  {
    assert files[..k + 1][..k] == files[..k];
  }

  method LoadGraph(files: seq<DecisionFile>) returns (r: Result<Loaded, Collision>)
    ensures r.Ok? <==> DistinctUpTo(files, |files|)
    ensures r.Ok? ==> r.value.order == FileIds(files) && IsOrder(r.value.g, r.value.order)
    ensures r.Ok? ==> forall i :: 0 <= i < |files| && IdOf(files[i]).Some? ==>
              IdOf(files[i]).value in r.value.g && r.value.g[IdOf(files[i]).value] == NodeOf(files[i])
    ensures r.Err? ==> exists i, j :: (0 <= i < j < |files| && DistinctUpTo(files, j) &&
              IdOf(files[i]) == Some(r.error.id) && IdOf(files[j]) == Some(r.error.id) &&
              r.error.first == files[i].scope && r.error.second == files[j].scope)
  {
    var g: Graph := map[];
    var order: seq<string> := [];
    var k := 0;
    assert files[..0] == [];
    while k < |files|
      invariant k <= |files|
      invariant DistinctUpTo(files, k) && LoadedUpTo(files, k, g, order)
    {
      var id := IdOf(files[k]);
      if id.Some? {
        var x := id.value;
        if x in g {
          var i := FileIdsSource(files, k, x);
          r := Err(Collision(x, g[x].scope, files[k].scope));
          assert g[x] == NodeOf(files[i]);
          assert !DistinctUpTo(files, |files|) by {
            assert 0 <= i < k < |files| && IdOf(files[i]).Some? && IdOf(files[k]) == IdOf(files[i]);
          }
          return;
        }
        LoadAdd(files, k, g, order, x);
        g := g[x := NodeOf(files[k])];
        order := order + [x];
      } else {
        LoadSkip(files, k, g, order);
      }
      k := k + 1;
    }
    assert files[..k] == files;
    r := Ok(Loaded(g, order));
  }
}
