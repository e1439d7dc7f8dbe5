/** The scratchpad of pre-decision entries (ideas, constraints, questions, concerns) kept in
    `.dna/scratchpad.json`: identifier allocation, the one-line summary, the listing, and the
    `add` and `mature` commands. Loading and saving the JSON file are left to the caller; the
    store is the list of entries it holds. */
module Scratch {
  import opened Util
  import opened Frontmatter
  import opened Decisions

  /** One entry: a JSON object. */
  type Entry = map<string, Value>

  /** `e.get(key)`. */
  function EGet(e: Entry, key: string): Value {
    if key in e then e[key] else Null
  }

  /** `e.get(key, default)`. */
  function EGetOr(e: Entry, key: string, default: Value): Value {
    if key in e then e[key] else default
  }

  // ---------------------------------------------------------------------------
  // Identifiers
  // ---------------------------------------------------------------------------

  /** The digit group of the identifier pattern: `\d{3}` as written
      (tools/dna-graph.py:129), `\d+` as intended. */
  datatype Pattern = ThreeDigits | AnyDigits

  /** What the digit group and `$` must match after `SP-`: `$` also matches just before a
      final newline. */
  function Tail(id: string): string
    requires StartsWith(id, "SP-")
  {
    var rest := id[3..];
    if |rest| > 0 && rest[|rest| - 1] == '\n' then rest[..|rest| - 1] else rest
  }

  /** The number the identifier pattern captures from `id`, when it matches. */
  function SpNumber(p: Pattern, id: string): (r: Option<nat>)
    ensures r.Some? <==> StartsWith(id, "SP-") && Tail(id) != [] && AllDigits(Tail(id)) &&
                         (p == ThreeDigits ==> |Tail(id)| == 3)
    ensures r.Some? ==> r.value == DigitsValue(Tail(id))
  {
    if StartsWith(id, "SP-") && Tail(id) != [] && AllDigits(Tail(id)) && (p == ThreeDigits ==> |Tail(id)| == 3)
    then Some(DigitsValue(Tail(id)))
    else None
  }

  /** `e.get("id", "")` when it is a string; `re.match` raises on anything else. */
  function IdText(e: Entry): Option<string> {
    match EGetOr(e, "id", Str(""))
    case Str(s) => Some(s)
    case _ => None
  }

  /** The number an entry's identifier carries, when it has one. */
  function SpOf(p: Pattern, e: Entry): Option<nat> {
    match IdText(e)
    case Some(id) => SpNumber(p, id)
    case None => None
  }

  /** `max(m, n)` when the identifier matched, `m` otherwise. */
  function Bump(m: nat, n: Option<nat>): nat {
    if n.Some? && n.value > m then n.value else m
  }

  /** The largest number carried by an identifier of `entries`; 0 when none carries one. */
  function MaxSp(p: Pattern, entries: seq<Entry>): nat {
    if entries == [] then 0 else Bump(MaxSp(p, entries[..|entries| - 1]), SpOf(p, entries[|entries| - 1]))
  }

  /** `MaxSp` is the maximum: it bounds every number carried, and is one of them unless none. */
  lemma {:induction false} MaxSpSpec(p: Pattern, entries: seq<Entry>)
    ensures forall i :: 0 <= i < |entries| && SpOf(p, entries[i]).Some? ==> SpOf(p, entries[i]).value <= MaxSp(p, entries)
    ensures MaxSp(p, entries) == 0 || exists i :: 0 <= i < |entries| && SpOf(p, entries[i]) == Some(MaxSp(p, entries))
  {
    if entries != [] {
      var front := entries[..|entries| - 1];
      MaxSpSpec(p, front);
      assert forall i :: 0 <= i < |front| ==> front[i] == entries[i];
    }
  }

  lemma MaxSpStep(p: Pattern, entries: seq<Entry>, k: nat)
    requires k < |entries|
    ensures MaxSp(p, entries[..k + 1]) == Bump(MaxSp(p, entries[..k]), SpOf(p, entries[k]))
  {
    assert entries[..k + 1][..k] == entries[..k];
  }

  /** The identifier `_next_sp_id` proposes: one past the largest, zero-padded to three digits. */
  function NextIdOf(p: Pattern, entries: seq<Entry>): string {
    "SP-" + Pad3(MaxSp(p, entries) + 1)
  }

  /** Every identifier is readable as a string. */
  predicate IdsReadable(entries: seq<Entry>) {
    forall i :: 0 <= i < |entries| ==> IdText(entries[i]).Some?
  }

  /** `_next_sp_id`: a running maximum over the entries' numbers. It fails where `re.match`
      raises, on an identifier that is not a string. */
  method NextSpId(p: Pattern, entries: seq<Entry>) returns (r: Option<string>)
    ensures r.None? <==> !IdsReadable(entries)
    ensures r.Some? ==> r.value == NextIdOf(p, entries)
  {
    var maxN := 0;
    for k := 0 to |entries|
      invariant maxN == MaxSp(p, entries[..k])
      invariant forall i :: 0 <= i < k ==> IdText(entries[i]).Some?
    {
      var id := IdText(entries[k]);
      if id.None? {
        return None;
      }
      MaxSpStep(p, entries, k);
      maxN := Bump(maxN, SpNumber(p, id.value));
    }
    assert entries[..|entries|] == entries;
    return Some("SP-" + Pad3(maxN + 1));
  }

  /** The proposed identifier reads, under either pattern, as the number one past every number
      an identifier of the pattern carries. */
  lemma NextIdAbove(p: Pattern, entries: seq<Entry>)
    ensures SpNumber(AnyDigits, NextIdOf(p, entries)) == Some(MaxSp(p, entries) + 1)
    ensures SpNumber(ThreeDigits, NextIdOf(p, entries)).Some? <==> MaxSp(p, entries) + 1 < 1000
    ensures forall i :: 0 <= i < |entries| && SpOf(p, entries[i]).Some? ==>
              SpOf(p, entries[i]).value < MaxSp(p, entries) + 1
  {
    var d := Pad3(MaxSp(p, entries) + 1);
    var id := NextIdOf(p, entries);
    assert id[3..] == d;
    assert StartsWith(id, "SP-");
    assert |d| > 0 && d[|d| - 1] != '\n' by {
      assert IsDigit(d[|d| - 1]);
    }
    assert Tail(id) == d;
    Pad3Width(MaxSp(p, entries) + 1);
    MaxSpSpec(p, entries);
  }

  /** With the `\d+` pattern, the proposed identifier differs from every existing one. */
  lemma CorrectedIdFresh(entries: seq<Entry>)
    ensures forall i :: 0 <= i < |entries| ==> IdText(entries[i]) != Some(NextIdOf(AnyDigits, entries))
  {
    NextIdAbove(AnyDigits, entries);
  }

  /** With the `\d{3}` pattern as written, `SP-1000` is not seen: after `SP-999` the proposal is
      `SP-1000` again, although an entry already has that identifier. */
  lemma DuplicateSp1000()
    ensures var entries := [map["id" := Str("SP-999")], map["id" := Str("SP-1000")]];
            NextIdOf(ThreeDigits, entries) == "SP-1000" && IdText(entries[1]) == Some("SP-1000")
  {
    var entries: seq<Entry> := [map["id" := Str("SP-999")], map["id" := Str("SP-1000")]];
    assert Tail("SP-999") == "999";
    assert DigitsValue("999") == 999 by {
      assert "999"[..2] == "99" && "99"[..1] == "9" && "9"[..0] == "";
    }
    assert SpOf(ThreeDigits, entries[0]) == Some(999);
    assert Tail("SP-1000") == "1000";
    assert SpOf(ThreeDigits, entries[1]) == None;
    assert entries[..1] == [entries[0]];
    assert MaxSp(ThreeDigits, [entries[0]]) == 999 by {
      assert [entries[0]][..0] == [];
    }
    assert MaxSp(ThreeDigits, entries) == 999;
    assert NatToString(1000) == "1000" by {
      assert NatToString(1) == "1";
      assert NatToString(10) == "10";
      assert NatToString(100) == "100";
    }
  }

  // ---------------------------------------------------------------------------
  // Listing and summary
  // ---------------------------------------------------------------------------

  /** `not e.get("matured_to")`. */
  predicate IsActive(e: Entry) {
    !Truthy(EGet(e, "matured_to"))
  }

  /** The listing's type filter: `e.get("type") == filter_type`, applied only when the filter
      is truthy (the empty text stands for no filter). */
  predicate TypeMatches(e: Entry, filterType: string) {
    filterType == "" || EGet(e, "type") == Str(filterType)
  }

  /** The entries that are active (or matured, when `active` is false) and pass the filter,
      in store order. */
  function Select(entries: seq<Entry>, active: bool, filterType: string): (r: seq<Entry>)
    ensures forall e :: e in r <==> e in entries && IsActive(e) == active && TypeMatches(e, filterType)
    ensures |r| <= |entries|
  {
    if entries == [] then []
    else
      var front := entries[..|entries| - 1];
      var e := entries[|entries| - 1];
      assert forall x :: x in entries <==> x in front || x == e;
      Select(front, active, filterType) + (if IsActive(e) == active && TypeMatches(e, filterType) then [e] else [])
  }

  /** `_sp_list`'s two lists. */
  function Listing(entries: seq<Entry>, filterType: string): (r: (seq<Entry>, seq<Entry>))
    ensures forall e :: e in r.0 <==> e in entries && IsActive(e) && TypeMatches(e, filterType)
    ensures forall e :: e in r.1 <==> e in entries && !IsActive(e) && TypeMatches(e, filterType)
  {
    (Select(entries, true, filterType), Select(entries, false, filterType))
  }

  /** One more entry goes to exactly one of the two lists, or to neither when filtered out. */
  lemma SelectSnoc(front: seq<Entry>, e: Entry, filterType: string)
    ensures Select(front + [e], true, filterType)
            == Select(front, true, filterType) + (if IsActive(e) && TypeMatches(e, filterType) then [e] else [])
    ensures Select(front + [e], false, filterType)
            == Select(front, false, filterType) + (if !IsActive(e) && TypeMatches(e, filterType) then [e] else [])
  {
    assert (front + [e])[..|front|] == front;
  }

  /** The two lists together hold every entry at most as often as the store does; unfiltered,
      exactly as often: each entry is in exactly one list. */
  lemma {:induction false} ListingPartition(entries: seq<Entry>, filterType: string)
    ensures multiset(Listing(entries, filterType).0) + multiset(Listing(entries, filterType).1) <= multiset(entries)
    ensures filterType == "" ==>
              multiset(Listing(entries, filterType).0) + multiset(Listing(entries, filterType).1) == multiset(entries)
  {
    if entries != [] {
      var front := entries[..|entries| - 1];
      var e := entries[|entries| - 1];
      assert entries == front + [e];
      ListingPartition(front, filterType);
      SelectSnoc(front, e, filterType);
    }
  }

  /** `e.get("type", "unknown")` when it is a string. */
  function TypeOf(e: Entry): Option<string> {
    match EGetOr(e, "type", Str("unknown"))
    case Str(s) => Some(s)
    case _ => None
  }

  /** The types of `es`, when all are strings. */
  function Types(es: seq<Entry>): (r: Option<seq<string>>)
    ensures r.Some? <==> forall i :: 0 <= i < |es| ==> TypeOf(es[i]).Some?
    ensures r.Some? ==> |r.value| == |es| && forall i :: 0 <= i < |es| ==> TypeOf(es[i]) == Some(r.value[i])
  {
    if forall i :: 0 <= i < |es| ==> TypeOf(es[i]).Some?
    then Some(seq(|es|, i requires 0 <= i < |es| => TypeOf(es[i]).value))
    else None
  }

  /** One `count type(s)` part of the summary. */
  datatype Tally = Tally(kind: string, count: nat)

  /** The tallies of `keys`, in their order, each with its number of occurrences in `ts`. */
  ghost function TalliesOf(keys: seq<string>, ts: seq<string>): (r: seq<Tally>)
    ensures |r| == |keys|
    ensures forall i :: 0 <= i < |keys| ==> r[i] == Tally(keys[i], multiset(ts)[keys[i]])
  {
    if keys == [] then []
    else TalliesOf(keys[..|keys| - 1], ts) + [Tally(keys[|keys| - 1], multiset(ts)[keys[|keys| - 1]])]
  }

  /** `sorted(counts.items())`: each type once, in ascending order, with its count. */
  ghost function Tallies(ts: seq<string>): seq<Tally> {
    TalliesOf(SortSet(Elems(ts)), ts)
  }

  function Total(tallies: seq<Tally>): nat {
    if tallies == [] then 0 else Total(tallies[..|tallies| - 1]) + tallies[|tallies| - 1].count
  }

  /** The number of times `x` occurs in `keys`. */
  function Occurrences(keys: seq<string>, x: string): nat {
    if keys == [] then 0 else Occurrences(keys[..|keys| - 1], x) + (if keys[|keys| - 1] == x then 1 else 0)
  }

  lemma {:induction false} TotalSnoc(keys: seq<string>, ts: seq<string>, x: string)
    ensures Total(TalliesOf(keys, ts + [x])) == Total(TalliesOf(keys, ts)) + Occurrences(keys, x)
  {
    if keys != [] {
      TotalSnoc(keys[..|keys| - 1], ts, x);
      assert TalliesOf(keys, ts + [x])[..|keys| - 1] == TalliesOf(keys[..|keys| - 1], ts + [x]);
      assert TalliesOf(keys, ts)[..|keys| - 1] == TalliesOf(keys[..|keys| - 1], ts);
      assert multiset(ts + [x]) == multiset(ts) + multiset{x};
    }
  }

  lemma {:induction false} OccursOnce(keys: seq<string>, x: string)
    requires StrictlySorted(keys) && x in keys
    ensures Occurrences(keys, x) == 1
  {
    var front := keys[..|keys| - 1];
    assert StrictlySorted(front);
    if x == keys[|keys| - 1] {
      forall j | 0 <= j < |front| ensures front[j] != x {
        assert Less(keys[j], keys[|keys| - 1]);
        LessIrreflexive(x);
      }
      OccursAbsent(front, x);
    } else {
      assert x in front;
      OccursOnce(front, x);
    }
  }

  lemma {:induction false} OccursAbsent(keys: seq<string>, x: string)
    requires forall j :: 0 <= j < |keys| ==> keys[j] != x
    ensures Occurrences(keys, x) == 0
  {
    if keys != [] {
      OccursAbsent(keys[..|keys| - 1], x);
    }
  }

  /** The counts of the sorted distinct types add up to the number of entries tallied. */
  lemma {:induction false} TotalIsLength(keys: seq<string>, ts: seq<string>)
    requires StrictlySorted(keys)
    requires forall t :: t in ts ==> t in keys
    ensures Total(TalliesOf(keys, ts)) == |ts|
  {
    if ts == [] {
      ZeroTallies(keys);
    } else {
      var front := ts[..|ts| - 1];
      assert ts == front + [ts[|ts| - 1]];
      TotalIsLength(keys, front);
      TotalSnoc(keys, front, ts[|ts| - 1]);
      OccursOnce(keys, ts[|ts| - 1]);
    }
  }

  lemma {:induction false} ZeroTallies(keys: seq<string>)
    ensures Total(TalliesOf(keys, [])) == 0
  {
    if keys != [] {
      ZeroTallies(keys[..|keys| - 1]);
      assert TalliesOf(keys, [])[..|keys| - 1] == TalliesOf(keys[..|keys| - 1], []);
    }
  }

  /** What the summary's parts say: each type of `ts` once, in ascending order, with a positive
      count, and the counts add up to the number of active entries. */
  lemma TalliesSpec(ts: seq<string>)
    ensures StrictlySorted(seq(|Tallies(ts)|, i requires 0 <= i < |Tallies(ts)| => Tallies(ts)[i].kind))
    ensures forall t :: t in ts <==> exists i :: 0 <= i < |Tallies(ts)| && Tallies(ts)[i].kind == t
    ensures forall i :: 0 <= i < |Tallies(ts)| ==> Tallies(ts)[i].count > 0
    ensures Total(Tallies(ts)) == |ts|
  {
    var keys := SortSet(Elems(ts));
    TalliesOfSpec(keys, ts);
    TotalIsLength(keys, ts);
  }

  /** The tallies of sorted keys that are exactly the elements of `ts`. */
  lemma TalliesOfSpec(keys: seq<string>, ts: seq<string>)
    requires StrictlySorted(keys) && forall t :: t in keys <==> t in ts
    ensures seq(|TalliesOf(keys, ts)|, i requires 0 <= i < |TalliesOf(keys, ts)| => TalliesOf(keys, ts)[i].kind) == keys
    ensures forall t :: t in ts <==> exists i :: 0 <= i < |TalliesOf(keys, ts)| && TalliesOf(keys, ts)[i].kind == t
    ensures forall i :: 0 <= i < |TalliesOf(keys, ts)| ==> TalliesOf(keys, ts)[i].count > 0
  {
    var tl := TalliesOf(keys, ts);
    forall t | t in ts ensures exists i :: 0 <= i < |tl| && tl[i].kind == t {
      var i :| 0 <= i < |keys| && keys[i] == t;
      assert tl[i].kind == t;
    }
    forall i | 0 <= i < |tl| ensures tl[i].count > 0 {
      assert keys[i] in keys;
      assert keys[i] in multiset(ts);
    }
  }

  /** `f"{c} {t}(s)"` for each tally, joined into the summary line. */
  function Render(active: nat, tallies: seq<Tally>): string {
    NatToString(active) + " active — "
    + Join(seq(|tallies|, i requires 0 <= i < |tallies| => NatToString(tallies[i].count) + " " + tallies[i].kind + "(s)"), ", ")
  }

  /** `_scratchpad_summary`: empty when nothing is active; otherwise the number of active entries
      and the count of each type. None where Python raises: a type that is not a string. */
  ghost function SummaryOf(entries: seq<Entry>): Option<string> {
    var active := Select(entries, true, "");
    if active == [] then Some("")
    else match Types(active)
      case None => None
      case Some(ts) => Some(Render(|active|, Tallies(ts)))
  }

  /** The counting loop of `_scratchpad_summary`: how often each type occurs. */
  method CountTypes(ts: seq<string>) returns (counts: map<string, nat>)
    ensures counts.Keys == Elems(ts)
    ensures forall t :: t in counts ==> counts[t] == multiset(ts)[t]
  {
    counts := map[];
    for k := 0 to |ts|
      invariant counts.Keys == Elems(ts[..k])
      invariant forall t :: t in counts ==> counts[t] == multiset(ts[..k])[t]
    {
      assert ts[..k + 1] == ts[..k] + [ts[k]];
      var c := if ts[k] in counts then counts[ts[k]] else 0;
      counts := counts[ts[k] := c + 1];
    }
    assert ts[..|ts|] == ts;
  }

  /** The tallies of `sorted(counts.items())`. */
  method SortedTallies(ts: seq<string>, counts: map<string, nat>) returns (tallies: seq<Tally>)
    requires counts.Keys == Elems(ts)
    requires forall t :: t in counts ==> counts[t] == multiset(ts)[t]
    ensures tallies == Tallies(ts)
  {
    var keys := SortedElements(counts.Keys);
    tallies := [];
    for i := 0 to |keys|
      invariant tallies == TalliesOf(keys[..i], ts)
    {
      assert keys[..i + 1][..i] == keys[..i];
      assert keys[i] in counts;
      tallies := tallies + [Tally(keys[i], counts[keys[i]])];
    }
    assert keys[..|keys|] == keys;
  }

  /** `_scratchpad_summary`, computed as the source does: filter, count, sort, render. */
  method Summarize(entries: seq<Entry>) returns (r: Option<string>)
    ensures r == SummaryOf(entries)
  {
    var active := Select(entries, true, "");
    if active == [] {
      return Some("");
    }
    var types := Types(active);
    if types.None? {
      return None;
    }
    var counts := CountTypes(types.value);
    var tallies := SortedTallies(types.value, counts);
    return Some(Render(|active|, tallies));
  }

  // ---------------------------------------------------------------------------
  // The store and its commands
  // ---------------------------------------------------------------------------

  /** The entry types `add` accepts. */
  const SpTypes: set<string> := {"idea", "constraint", "question", "concern"}

  /** Why `add` refuses. */
  datatype AddError =
    | TypeRequired              // --type is required
    | InvalidType(kind: string) // invalid type
    | ContentRequired           // content string is required
    | LinkNotFound(link: string) // linked decision not found in graph
    | IdUnreadable              // an existing identifier is not a string

  /** Why `mature` refuses. */
  datatype MatureError =
    | SpNotFound(spId: string)                 // not found in scratchpad
    | AlreadyMatured(spId: string, to: Value)  // already matured
    | DecisionNotFound(decId: string)          // decision not found in graph

  /** The entry `add` appends. */
  function NewEntry(id: string, kind: string, content: string, today: string, links: seq<string>): (e: Entry)
    ensures IdText(e) == Some(id) && IsActive(e) && TypeOf(e) == Some(kind)
  {
    map["id" := Str(id), "type" := Str(kind), "content" := Str(content), "created" := Str(today),
        "links" := List(seq(|links|, i requires 0 <= i < |links| => Str(links[i]))), "matured_to" := Null]
  }

  /** The first link that names no decision of the graph. */
  method FirstMissingLink(links: seq<string>, g: Graph) returns (r: Option<nat>)
    ensures r.Some? ==> r.value < |links| && links[r.value] !in g &&
                        forall j :: 0 <= j < r.value ==> links[j] in g
    ensures r.None? <==> forall j :: 0 <= j < |links| ==> links[j] in g
  {
    for k := 0 to |links|
      invariant forall j :: 0 <= j < k ==> links[j] in g
    {
      if links[k] !in g {
        return Some(k);
      }
    }
    return None;
  }

  /** `e.get("id") == sp_id`. */
  predicate HasId(e: Entry, spId: string) {
    EGet(e, "id") == Str(spId)
  }

  /** The position of the first entry with identifier `spId`. */
  function FirstWithId(entries: seq<Entry>, spId: string): (r: Option<nat>)
    ensures r.Some? ==> r.value < |entries| && HasId(entries[r.value], spId) &&
                        forall j :: 0 <= j < r.value ==> !HasId(entries[j], spId)
    ensures r.None? <==> forall j :: 0 <= j < |entries| ==> !HasId(entries[j], spId)
  {
    if entries == [] then None
    else if HasId(entries[0], spId) then Some(0)
    else
      var r := FirstWithId(entries[1..], spId);
      assert forall j :: 0 < j < |entries| ==> entries[j] == entries[1..][j - 1];
      if r.Some? then Some(r.value + 1) else None
  }

  /** The store with entry `i` marked as matured to `decId`. */
  function MatureAt(entries: seq<Entry>, i: nat, decId: string): (r: seq<Entry>)
    requires i < |entries|
    ensures |r| == |entries|
    ensures forall j :: 0 <= j < |entries| && j != i ==> r[j] == entries[j]
    ensures EGet(r[i], "matured_to") == Str(decId)
    ensures forall k :: k != "matured_to" ==> EGet(r[i], k) == EGet(entries[i], k) && (k in r[i] <==> k in entries[i])
  {
    entries[i := entries[i]["matured_to" := Str(decId)]]
  }

  /** Maturing keeps every identifier where it was and, for a non-empty decision identifier,
      leaves the entry no longer active, so a second `mature` of it is refused. */
  lemma MatureKeepsIds(entries: seq<Entry>, i: nat, decId: string, spId: string)
    requires i < |entries|
    ensures FirstWithId(MatureAt(entries, i, decId), spId) == FirstWithId(entries, spId)
    ensures decId != "" ==> !IsActive(MatureAt(entries, i, decId)[i])
  {
    var r := MatureAt(entries, i, decId);
    assert forall j :: 0 <= j < |entries| ==> (HasId(r[j], spId) <==> HasId(entries[j], spId));
    FirstWithIdSame(entries, r, spId);
  }

  lemma FirstWithIdSame(a: seq<Entry>, b: seq<Entry>, spId: string)
    requires |a| == |b|
    requires forall j :: 0 <= j < |a| ==> (HasId(a[j], spId) <==> HasId(b[j], spId))
    ensures FirstWithId(a, spId) == FirstWithId(b, spId)
  {
    var fa, fb := FirstWithId(a, spId), FirstWithId(b, spId);
    if fa.Some? && fb.Some? {
      assert !(fa.value < fb.value) && !(fb.value < fa.value);
    }
  }

  /** The scratchpad store: the entries of `.dna/scratchpad.json` in file order. */
  class Scratchpad {
    var entries: seq<Entry>

    constructor (entries0: seq<Entry>)
      ensures entries == entries0
    {
      entries := entries0;
    }

    /** `_sp_add` from the checks on: type, content and links are validated in that order, and
        then an entry with the next identifier (`\d+` pattern) is appended. */
    method Add(spType: string, content: string, links: seq<string>, g: Graph, today: string)
      returns (r: Result<string, AddError>)
      modifies this
      ensures r.Err? ==> entries == old(entries)
      ensures r == Err(TypeRequired) <==> spType == ""
      ensures r == Err(InvalidType(spType)) <==> spType != "" && spType !in SpTypes
      ensures r == Err(ContentRequired) <==> spType in SpTypes && content == ""
      ensures r.Err? && r.error.LinkNotFound? <==>
                spType in SpTypes && content != "" && exists j :: 0 <= j < |links| && links[j] !in g
      ensures r.Err? && r.error.LinkNotFound? ==>
                exists i :: 0 <= i < |links| && r.error.link == links[i] && links[i] !in g &&
                            forall j :: 0 <= j < i ==> links[j] in g
      ensures r == Err(IdUnreadable) <==>
                spType in SpTypes && content != "" && (forall l :: l in links ==> l in g) && !IdsReadable(old(entries))
      ensures r.Ok? ==> r.value == NextIdOf(AnyDigits, old(entries)) &&
                        entries == old(entries) + [NewEntry(r.value, spType, content, today, links)]
      ensures r.Ok? ==> forall i :: 0 <= i < |old(entries)| ==> IdText(old(entries)[i]) != Some(r.value)
    {
      if spType == "" {
        return Err(TypeRequired);
      }
      if spType !in SpTypes {
        return Err(InvalidType(spType));
      }
      if content == "" {
        return Err(ContentRequired);
      }
      var missing := FirstMissingLink(links, g);
      if missing.Some? {
        return Err(LinkNotFound(links[missing.value]));
      }
      var id := NextSpId(AnyDigits, entries);
      if id.None? {
        return Err(IdUnreadable);
      }
      CorrectedIdFresh(entries);
      entries := entries + [NewEntry(id.value, spType, content, today, links)];
      return Ok(id.value);
    }

    /** `_sp_mature` from the lookup on: the first entry with identifier `spId` must exist, not
        be matured yet, and `decId` must name a decision; then only that entry's `matured_to`
        changes. The result is the entry's position. */
    method Mature(spId: string, decId: string, g: Graph) returns (r: Result<nat, MatureError>)
      modifies this
      ensures r.Err? ==> entries == old(entries)
      ensures FirstWithId(old(entries), spId).None? <==> r == Err(SpNotFound(spId))
      ensures FirstWithId(old(entries), spId).Some? ==>
                var i := FirstWithId(old(entries), spId).value;
                var to := EGet(old(entries)[i], "matured_to");
                && (Truthy(to) ==> r == Err(AlreadyMatured(spId, to)))
                && (!Truthy(to) && decId !in g ==> r == Err(DecisionNotFound(decId)))
                && (!Truthy(to) && decId in g ==> r == Ok(i) && entries == MatureAt(old(entries), i, decId))
    {
      var found := Locate(entries, spId);
      if found.None? {
        return Err(SpNotFound(spId));
      }
      var i := found.value;
      var to := EGet(entries[i], "matured_to");
      if Truthy(to) {
        return Err(AlreadyMatured(spId, to));
      }
      if decId !in g {
        return Err(DecisionNotFound(decId));
      }
      entries := MatureAt(entries, i, decId);
      return Ok(i);
    }
  }

  /** The search loop of `_sp_mature`: the first entry whose identifier is `spId`. */
  method Locate(entries: seq<Entry>, spId: string) returns (r: Option<nat>)
    ensures r == FirstWithId(entries, spId)
  {
    for k := 0 to |entries|
      invariant forall j :: 0 <= j < k ==> !HasId(entries[j], spId)
    {
      if HasId(entries[k], spId) {
        FirstIs(entries, spId, k);
        return Some(k);
      }
    }
    return None;
  }

  lemma FirstIs(entries: seq<Entry>, spId: string, k: nat)
    requires k < |entries| && HasId(entries[k], spId)
    requires forall j :: 0 <= j < k ==> !HasId(entries[j], spId)
    ensures FirstWithId(entries, spId) == Some(k)
  {
  }
}
