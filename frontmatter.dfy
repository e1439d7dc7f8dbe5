/** The YAML-frontmatter mini-parser and the template serialiser of decision files
    (tools/dna-graph.py:151-277). A decision file is a `---` fence, `key: value` lines,
    a closing `---` fence and a Markdown body. */
module Frontmatter {
  import opened Util

  /** A frontmatter value as the mini-parser produces it (floats are not modelled). */
  datatype Value = Str(s: string) | Int(i: int) | Bool(b: bool) | Null | List(items: seq<Value>)

  /** A parsed frontmatter block: key to value (a later duplicate key wins). */
  type Fm = map<string, Value>

  /** What `parse_frontmatter` returns: the frontmatter, when the file has one, and the body. */
  datatype Parsed = Parsed(fm: Option<Fm>, body: string)

  /** Python truthiness of a value. */
  predicate Truthy(v: Value) {
    match v
    case Str(s) => s != ""
    case Int(i) => i != 0
    case Bool(b) => b
    case Null => false
    case List(xs) => xs != []
  }

  // ---------------------------------------------------------------------------
  // Scalars
  // ---------------------------------------------------------------------------

  predicate Quoted(val: string) {
    (StartsWith(val, "\"") && EndsWith(val, "\"")) || (StartsWith(val, "'") && EndsWith(val, "'"))
  }

  /** `_coerce`: a YAML scalar as a value. A quoted scalar loses its outer quotes (a lone
      quote character becomes the empty string); `true`/`false`/`null`/`~` are recognised
      case-insensitively; an integer numeral becomes an integer; anything else stays text. */
  function Coerce(val: string): (r: Value)
    ensures r.List? ==> false
    ensures val == "" ==> r == Null
    ensures r.Str? ==> r.s == val || (Quoted(val) && |r.s| + 2 == |val|) || (Quoted(val) && |val| == 1 && r.s == "")
    ensures r.Int? ==> ParseInt(Strip(val)) == Some(r.i)
  {
    if val == "" then Null
    else if Quoted(val) then Str(if |val| >= 2 then val[1..|val| - 1] else "")
    else if Lower(val) == "true" then Bool(true)
    else if Lower(val) == "false" then Bool(false)
    else if Lower(val) == "null" || Lower(val) == "~" then Null
    else match ParseInt(Strip(val))
      case Some(n) => Int(n)
      case None => Str(val)
  }

  /** Quoting is undone by the parser: a scalar written between double quotes comes back as
      the text between them, whatever that text is. */
  lemma CoerceQuoted(s: string)
    ensures Coerce("\"" + s + "\"") == Str(s)
  {
    var v := "\"" + s + "\"";
    assert StartsWith(v, "\"") && EndsWith(v, "\"");
    assert v[1..|v| - 1] == s;
  }

  /** An integer written as its numeral comes back as the same integer. */
  lemma CoerceInt(i: int)
    ensures Coerce(IntToString(i)) == Int(i)
  {
    var v := IntToString(i);
    assert v != [] && (v[0] == '-' || IsDigit(v[0]));
    assert IsDigit(v[|v| - 1]);
    StripNoSpace(v);
    assert !Quoted(v);
    assert Lower(v)[|v| - 1] == v[|v| - 1];
    assert Lower(v) != "true" && Lower(v) != "false" && Lower(v) != "null" && Lower(v) != "~";
    ParseIntToString(i);
    CoerceNumeral(v);
  }

  /** An unquoted scalar that is none of the special words is read by `int()` first. */
  lemma CoerceNumeral(v: string)
    requires v != "" && !Quoted(v)
    requires Lower(v) != "true" && Lower(v) != "false" && Lower(v) != "null" && Lower(v) != "~"
    requires ParseInt(Strip(v)).Some?
    ensures Coerce(v) == Int(ParseInt(Strip(v)).value)
  {
  }

  /** Booleans written the way `str()` renders them come back as the same booleans. */
  lemma CoerceBool(b: bool)
    ensures Coerce(if b then "True" else "False") == Bool(b)
  {
    if b {
      assert Lower("True") == "true";
    } else {
      assert Lower("False") == "false";
    }
  }

  // ---------------------------------------------------------------------------
  // Lines of the YAML block
  // ---------------------------------------------------------------------------

  /** Length of the longest prefix of `s` made of word characters. */
  function WordPrefix(s: string): (n: nat)
    ensures n <= |s|
    ensures forall j :: 0 <= j < n ==> IsWordChar(s[j])
    ensures n < |s| ==> !IsWordChar(s[n])
  {
    if s != [] && IsWordChar(s[0]) then 1 + WordPrefix(s[1..]) else 0
  }

  /** The reading of one line under the pattern `^(\w[\w_]*)\s*:\s*(.*)`: the key and the
      stripped text after the colon, or None when the line does not have that shape. */
  function KeyValue(line: string): (r: Option<(string, string)>)
    ensures r.Some? ==> r.value.0 != [] && StartsWith(line, r.value.0)
    ensures r.Some? ==> forall j :: 0 <= j < |r.value.0| ==> IsWordChar(r.value.0[j])
  {
    var k := WordPrefix(line);
    var rest := LStrip(line[k..]);
    if k == 0 || rest == [] || rest[0] != ':' then None
    else Some((line[..k], Strip(rest[1..])))
  }

  predicate Blank(line: string) {
    var t := Strip(line);
    t == [] || t[0] == '#'
  }

  /** A list item line: `- value` after stripping. */
  predicate IsItem(line: string) {
    var t := Strip(line);
    t != [] && t[0] == '-'
  }

  /** The text of a list item line, without its dash and the blanks after it. */
  function ItemText(line: string): string {
    var t := Strip(line);
    if t == [] then [] else LStrip(t[1..])
  }

  /** Number of consecutive list item lines starting at `j`. */
  function ItemRun(lines: seq<string>, j: nat): (n: nat)
    ensures j + n <= |lines| || (j > |lines| && n == 0)
    decreases |lines| - j
  {
    if j < |lines| && IsItem(lines[j]) then 1 + ItemRun(lines, j + 1) else 0
  }

  /** The coerced values of a run of list item lines. */
  function ItemValues(ls: seq<string>): (r: seq<Value>)
    ensures |r| == |ls|
  {
    seq(|ls|, k requires 0 <= k < |ls| => Coerce(ItemText(ls[k])))
  }

  /** The reading of one line: the entry it sets, if any, and the index of the next line. */
  datatype Step = Step(entry: Option<(string, Value)>, next: nat)

  /** One turn of `_parse_yaml_block`'s loop at line `i`. A `key:` line with nothing after the
      colon takes the item lines that follow it as a list; `key: []` is the empty list; any
      other `key: text` line is a scalar; blank, comment and unmatched lines are skipped. */
  function LineStep(lines: seq<string>, i: nat): (r: Step)
    requires i < |lines|
    ensures i < r.next <= |lines|
    ensures r.entry.Some? ==> KeyValue(lines[i]).Some? && r.entry.value.0 == KeyValue(lines[i]).value.0
  {
    if Blank(lines[i]) then Step(None, i + 1)
    else match KeyValue(lines[i])
      case None => Step(None, i + 1)
      case Some(kv) =>
        if kv.1 == "" && i + 1 < |lines| && IsItem(lines[i + 1]) then
          var n := ItemRun(lines, i + 1);
          Step(Some((kv.0, List(ItemValues(lines[i + 1..i + 1 + n])))), i + 1 + n)
        else if kv.1 == "[]" then Step(Some((kv.0, List([]))), i + 1)
        else Step(Some((kv.0, Coerce(kv.1))), i + 1)
  }

  function Apply(acc: Fm, e: Option<(string, Value)>): Fm {
    match e
    case None => acc
    case Some(kv) => acc[kv.0 := kv.1]
  }

  /** What `_parse_yaml_block` builds on top of `acc` from `lines[i..]` on. */
  function ParseFrom(lines: seq<string>, i: nat, acc: Fm): Fm
    decreases |lines| - i
  {
    if i >= |lines| then acc
    else
      var st := LineStep(lines, i);
      ParseFrom(lines, st.next, Apply(acc, st.entry))
  }

  /** The mapping a YAML block denotes. */
  function ParseYaml(block: string): Fm {
    ParseFrom(Split(block, '\n'), 0, map[])
  }

  /** Keys already present stay present: a key once read is never dropped by later lines. */
  lemma {:induction false} ParseFromKeeps(lines: seq<string>, i: nat, acc: Fm, k: string)
    requires k in acc
    ensures k in ParseFrom(lines, i, acc)
    decreases |lines| - i
  {
    if i < |lines| {
      var st := LineStep(lines, i);
      ParseFromKeeps(lines, st.next, Apply(acc, st.entry), k);
    }
  }

  /** Every key of the result was already there or is the key of one of the lines read. */
  lemma {:induction false} ParseFromKeys(lines: seq<string>, i: nat, acc: Fm, k: string)
    requires k in ParseFrom(lines, i, acc)
    ensures k in acc || exists j :: i <= j < |lines| && KeyValue(lines[j]).Some? && KeyValue(lines[j]).value.0 == k
    decreases |lines| - i
  {
    if i < |lines| {
      var st := LineStep(lines, i);
      ParseFromKeys(lines, st.next, Apply(acc, st.entry), k);
    }
  }

  /** `_parse_yaml_block`: the index-driven loop over the block's lines. */
  method ParseYamlBlock(block: string) returns (result: Fm)
    ensures result == ParseYaml(block)
  {
    var lines := Split(block, '\n');
    result := map[];
    var i := 0;
    while i < |lines|
      invariant 0 <= i <= |lines|
      invariant ParseFrom(lines, i, result) == ParseFrom(lines, 0, map[])
      decreases |lines| - i
    {
      result, i := ParseLine(lines, i, result);
    }
  }

  /** One turn of the loop: the line at `i` (with the item lines it owns) read into `acc`. */
  method ParseLine(lines: seq<string>, i: nat, acc: Fm) returns (result: Fm, next: nat)
    requires i < |lines|
    ensures next == LineStep(lines, i).next
    ensures result == Apply(acc, LineStep(lines, i).entry)
  {
    var line := lines[i];
    var kv := KeyValue(line);
    if Blank(line) || kv.None? {
      result, next := acc, i + 1;
    } else {
      var key := kv.value.0;
      var value := kv.value.1;
      LineStepKey(lines, i);
      if value == "" && i + 1 < |lines| && IsItem(lines[i + 1]) {
        var items;
        items, next := ReadItems(lines, i + 1);
        result := acc[key := List(items)];
      } else if value == "[]" {
        result, next := acc[key := List([])], i + 1;
      } else {
        result, next := acc[key := Coerce(value)], i + 1;
      }
    }
  }

  /** The step at a key line, by the text after its colon. */
  lemma LineStepKey(lines: seq<string>, i: nat)
    requires i < |lines| && !Blank(lines[i]) && KeyValue(lines[i]).Some?
    ensures var (key, value) := KeyValue(lines[i]).value;
            var n := ItemRun(lines, i + 1);
            && (value == "" && i + 1 < |lines| && IsItem(lines[i + 1]) ==>
                  LineStep(lines, i) == Step(Some((key, List(ItemValues(lines[i + 1..i + 1 + n])))), i + 1 + n))
            && (!(value == "" && i + 1 < |lines| && IsItem(lines[i + 1])) && value == "[]" ==>
                  LineStep(lines, i) == Step(Some((key, List([]))), i + 1))
            && (!(value == "" && i + 1 < |lines| && IsItem(lines[i + 1])) && value != "[]" ==>
                  LineStep(lines, i) == Step(Some((key, Coerce(value))), i + 1))
  {
  }

  /** The inner loop: the values of the list item lines from `start` on, and the index of the
      first line after them. */
  method ReadItems(lines: seq<string>, start: nat) returns (items: seq<Value>, i: nat)
    requires start <= |lines|
    ensures i == start + ItemRun(lines, start)
    ensures items == ItemValues(lines[start..i])
  {
    items := [];
    i := start;
    while i < |lines| && IsItem(lines[i])
      invariant start <= i <= |lines|
      invariant ItemRun(lines, start) == (i - start) + ItemRun(lines, i)
      invariant items == ItemValues(lines[start..i])
      decreases |lines| - i
    {
      ItemsAppend(lines, start, i);
      ItemRunStep(lines, start, i);
      items := items + [Coerce(ItemText(lines[i]))];
      i := i + 1;
    }
  }

  lemma ItemRunStep(lines: seq<string>, start: nat, i: nat)
    requires start <= i < |lines| && IsItem(lines[i])
    requires ItemRun(lines, start) == (i - start) + ItemRun(lines, i)
    ensures ItemRun(lines, start) == (i + 1 - start) + ItemRun(lines, i + 1)
  {
  }

  /** One more item line read onto the values of the run before it. */
  lemma ItemsAppend(lines: seq<string>, start: nat, i: nat)
    requires start <= i < |lines|
    ensures ItemValues(lines[start..i + 1]) == ItemValues(lines[start..i]) + [Coerce(ItemText(lines[i]))]
  {
    assert lines[start..i + 1] == lines[start..i] + [lines[i]];
  }

  /** `parse_frontmatter` on a file's text: a file that does not open with `---` or has no
      closing fence has no frontmatter and is all body; otherwise the block between the fences
      is parsed and the body is everything after the closing `---`. */
  function ParseFrontmatter(text: string): (r: Parsed)
    ensures r.fm.None? ==> r.body == text
    ensures r.fm.Some? ==> StartsWith(text, "---") && EndsWith(text, r.body)
    ensures r.fm.Some? <==> StartsWith(text, "---") && Find(text, "\n---", 3).Some?
    ensures r.fm.Some? ==> r.body == text[Find(text, "\n---", 3).value + 4..]
  {
    if !StartsWith(text, "---") then Parsed(None, text)
    else match Find(text, "\n---", 3)
      case None => Parsed(None, text)
      case Some(end) =>
        Parsed(Some(ParseYaml(if end >= 4 then text[4..end] else "")), text[end + 4..])
  }

  // ---------------------------------------------------------------------------
  // Serialiser
  // ---------------------------------------------------------------------------

  /** Python `str()` of a value; inside a list, text is shown as `repr` shows it. */
  function Text(v: Value): (r: string)
    ensures v.Str? ==> r == v.s
    ensures v.Int? ==> ParseInt(r) == Some(v.i)
    ensures v.Bool? ==> Lower(r) == (if v.b then "true" else "false")
    decreases v, 1
  {
    match v
    case Str(s) => s
    case Int(i) => ParseIntToString(i); IntToString(i)
    case Bool(b) => if b then "True" else "False"
    case Null => "None"
    case List(xs) => "[" + ReprJoin(v, xs) + "]"
  }

  function ReprJoin(v: Value, xs: seq<Value>): string
    requires forall k :: 0 <= k < |xs| ==> xs[k] < v
    decreases v, 0, |xs|
  {
    if xs == [] then ""
    else
      var first := if xs[0].Str? then Repr(xs[0].s) else Text(xs[0]);
      if |xs| == 1 then first else first + ", " + ReprJoin(v, xs[1..])
  }

  /** Python `repr` of a text: between single quotes, or between double quotes when the text
      holds a single quote and no double quote; backslashes, the chosen quote, tabs, line feeds
      and carriage returns are escaped. */
  function Repr(s: string): (r: string)
    ensures |r| >= 2 && r[0] == r[|r| - 1]
    ensures r[0] == '"' <==> '\'' in s && '"' !in s
    ensures r[0] == '\'' <==> !('\'' in s && '"' !in s)
  {
    var q := if '\'' in s && '"' !in s then '"' else '\'';
    [q] + ReprEscape(s, q) + [q]
  }

  /** The escaping inside `repr`'s quotes. */
  function ReprEscape(s: string, q: char): (r: string)
    ensures |r| >= |s|
  {
    if s == [] then ""
    else
      var c := s[0];
      var e := if c == '\\' then "\\\\" else if c == q then ['\\', q] else if c == '\t' then "\\t"
               else if c == '\n' then "\\n" else if c == '\r' then "\\r" else [c];
      e + ReprEscape(s[1..], q)
  }

  /** A text with no double quote, backslash, tab or line break shows unescaped: between single
      quotes, or between double quotes when it holds a single quote. */
  lemma {:induction false} ReprPlain(s: string)
    requires forall k :: 0 <= k < |s| ==> s[k] !in {'"', '\\', '\t', '\n', '\r'}
    ensures Repr(s) == (if '\'' in s then "\"" + s + "\"" else "'" + s + "'")
  {
    var q := if '\'' in s then '"' else '\'';
    EscapeNothing(s, q);
  }

  lemma {:induction false} EscapeNothing(s: string, q: char)
    requires forall k :: 0 <= k < |s| ==> s[k] !in {'"', '\\', '\t', '\n', '\r'}
    requires q == '"' || (q == '\'' && '\'' !in s)
    ensures ReprEscape(s, q) == s
  {
    if s != [] {
      assert s[0] != q;
      EscapeNothing(s[1..], q);
      assert s == [s[0]] + s[1..];
    }
  }

  /** The title pattern `[:#\["']|^[{>|*&!%@`]`: a character YAML would misread, anywhere,
      or an indicator character first. */
  predicate NeedsQuoting(t: string): (r: bool)
    ensures '"' in t || '\'' in t || ':' in t || '#' in t ==> r
    ensures !r ==> EscapeQuotes(t) == t
  {
    (exists j :: 0 <= j < |t| && t[j] in {':', '#', '[', '"', '\''})
    || (t != [] && t[0] in {'{', '>', '|', '*', '&', '!', '%', '@', '`'})
  }

  /** `t.replace('"', '\\"')`. */
  function EscapeQuotes(t: string): (r: string)
    ensures |r| >= |t|
    ensures '"' !in t ==> r == t
  {
    if t == [] then [] else (if t[0] == '"' then "\\\"" else [t[0]]) + EscapeQuotes(t[1..])
  }

  /** The `depends_on` lines: `depends_on: []` for a falsy value, otherwise one `  - item` line
      per element (the characters of a bare string); None where iterating would raise. */
  function DepLines(deps: Value): (r: Option<seq<string>>)
    ensures r.Some? ==> |r.value| >= 1
    ensures !Truthy(deps) <==> r == Some(["depends_on: []"])
  {
    if !Truthy(deps) then Some(["depends_on: []"])
    else match deps
      case Str(s) => Some(["depends_on:"] + seq(|s|, k requires 0 <= k < |s| => "  - " + [s[k]]))
      case List(xs) => Some(["depends_on:"] + seq(|xs|, k requires 0 <= k < |xs| => "  - " + Text(xs[k])))
      case _ => None
  }

  /** The lines `serialize_decision` writes between the fences, in its fixed field order, or
      None where it raises: `id` or `level` missing, a title that is not text, or a truthy
      `depends_on` that cannot be iterated. A missing date is `today`, a missing state
      `suggested`, and a falsy stakes value is left out. */
  function HeaderLines(fm: Fm, today: string): (r: Option<seq<string>>)
    ensures r.Some? <==> "id" in fm && "level" in fm && ("title" in fm ==> fm["title"].Str?)
                         && DepLines(if "depends_on" in fm then fm["depends_on"] else List([])).Some?
    ensures r.Some? ==> |r.value| >= 6 && r.value[0] == "id: " + Text(fm["id"])
                        && r.value[3] == "level: " + Text(fm["level"])
  {
    var title := if "title" in fm then fm["title"] else Str("");
    var deps := if "depends_on" in fm then fm["depends_on"] else List([]);
    if "id" !in fm || "level" !in fm || !title.Str? then None
    else match DepLines(deps)
      case None => None
      case Some(dl) =>
        var titleLine :=
          if NeedsQuoting(title.s) then "title: \"" + EscapeQuotes(title.s) + "\"" else "title: " + title.s;
        var date := if "date" in fm then Text(fm["date"]) else today;
        var state := if "state" in fm then Text(fm["state"]) else "suggested";
        var stakes := if "stakes" in fm && Truthy(fm["stakes"]) then ["stakes: " + Text(fm["stakes"])] else [];
        Some(["id: " + Text(fm["id"]), titleLine, "date: " + date, "level: " + Text(fm["level"]),
              "state: " + state] + stakes + dl)
  }

  /** The lines after the closing fence: the body, preceded by an empty line when the body is
      non-empty and does not already start with a newline. */
  function BodyLines(body: string): seq<string> {
    if body != "" && !StartsWith(body, "\n") then ["", body] else [body]
  }

  /** `serialize_decision(fm, body)` with `date.today()` passed in as `today`. */
  function Serialize(fm: Fm, body: string, today: string): (r: Option<string>)
    ensures r.Some? <==> HeaderLines(fm, today).Some?
  {
    match HeaderLines(fm, today)
    case None => None
    case Some(h) => Some(Assemble(h, body))
  }

  /** The file text for the given header lines and body: `"\n".join` of the fence, the header
      lines, the fence and the body lines. */
  function Assemble(h: seq<string>, body: string): string {
    Join(["---"] + h + ["---"] + BodyLines(body), "\n")
  }

  /** `"\n" + l` for each line, concatenated. */
  function Prefixed(h: seq<string>): (r: string)
    ensures |r| >= |h|
  {
    if h == [] then "" else "\n" + h[0] + Prefixed(h[1..])
  }

  lemma {:induction false} JoinFront(h: seq<string>, first: string, rest: seq<string>)
    requires rest != []
    ensures Join([first] + h + rest, "\n") == first + Prefixed(h) + "\n" + Join(rest, "\n")
    decreases |h|
  {
    if h == [] {
      assert [first] + h + rest == [first] + rest;
      assert ([first] + rest)[1..] == rest;
    } else {
      var xs := [first] + h + rest;
      JoinFront(h[1..], h[0], rest);
      assert xs[1..] == [h[0]] + h[1..] + rest;
      assert Join(xs, "\n") == first + "\n" + Join(xs[1..], "\n");
      assert Prefixed(h) == "\n" + h[0] + Prefixed(h[1..]);
    }
  }

  lemma {:induction false} JoinPrefixed(h: seq<string>)
    requires h != []
    ensures Prefixed(h) == "\n" + Join(h, "\n")
    decreases |h|
  {
    if |h| > 1 {
      JoinPrefixed(h[1..]);
    }
  }

  /** A line as the serialiser writes it: a single line that the parser cannot take for a
      fence or a list item's continuation, because it does not start with a dash. */
  predicate HeaderLine(l: string) {
    l != [] && l[0] != '-' && '\n' !in l
  }

  /** In the header text, every newline is followed by a character that is not a dash. */
  lemma {:induction false} PrefixedNewlines(h: seq<string>)
    requires forall k :: 0 <= k < |h| ==> HeaderLine(h[k])
    ensures forall j :: 0 <= j < |Prefixed(h)| && Prefixed(h)[j] == '\n' ==>
              j + 1 < |Prefixed(h)| && Prefixed(h)[j + 1] != '-'
    decreases |h|
  {
    if h != [] {
      PrefixedNewlines(h[1..]);
      var P := Prefixed(h);
      var Q := Prefixed(h[1..]);
      assert P == "\n" + h[0] + Q;
      assert P[1] == h[0][0];
      forall j | 0 < j <= |h[0]| ensures P[j] != '\n' {
        assert P[j] == h[0][j - 1];
      }
      forall j | |h[0]| < j < |P| ensures P[j] == Q[j - 1 - |h[0]|] {
      }
    }
  }

  /** Every line `HeaderLines` produces starts with a field name or with the blanks of a list
      item, so none of them starts with a dash. */
  lemma HeaderLinesShape(fm: Fm, today: string, h: seq<string>)
    requires HeaderLines(fm, today) == Some(h)
    requires forall k :: 0 <= k < |h| ==> '\n' !in h[k]
    ensures h != [] && forall k :: 0 <= k < |h| ==> HeaderLine(h[k])
  {
    var deps := if "depends_on" in fm then fm["depends_on"] else List([]);
    var dl := DepLines(deps).value;
    DepLinesShape(deps);
    var stakes := if "stakes" in fm && Truthy(fm["stakes"]) then ["stakes: " + Text(fm["stakes"])] else [];
    var head := h[..5 + |stakes|];
    assert h == head + dl;
    forall k | 0 <= k < |h| ensures h[k] != [] && h[k][0] != '-' {
      if k >= |head| {
        assert h[k] == dl[k - |head|];
      }
    }
  }

  /** Every line the serialiser writes for `depends_on` is non-empty and does not start with a dash. */
  lemma DepLinesShape(deps: Value)
    requires DepLines(deps).Some?
    ensures forall k :: 0 <= k < |DepLines(deps).value| ==>
              DepLines(deps).value[k] != [] && DepLines(deps).value[k][0] != '-'
  {
    var dl := DepLines(deps).value;
    forall k | 0 <= k < |dl| ensures dl[k] != [] && dl[k][0] != '-' {
      if k > 0 {
        assert dl[k][0] == ' ';
      }
    }
  }

  /** Reading back a file laid out as fence, header lines, fence and body lines: the closing
      fence is the first line that starts with `---`, the header lines are the YAML block, and
      the body is everything after the closing `---`, starting with the newline that ends it. */
  lemma FenceFound(h: seq<string>, b: seq<string>)
    requires h != [] && b != []
    requires forall k :: 0 <= k < |h| ==> HeaderLine(h[k])
    ensures ParseFrontmatter(Join(["---"] + h + ["---"] + b, "\n"))
            == Parsed(Some(ParseYaml(Join(h, "\n"))), "\n" + Join(b, "\n"))
  {
    var p := FencePosition(h, b);
  }

  /** Where `find("\n---", 3)` stops in such a file, and what lies on either side. */
  lemma FencePosition(h: seq<string>, b: seq<string>) returns (p: nat)
    requires h != [] && b != []
    requires forall k :: 0 <= k < |h| ==> HeaderLine(h[k])
    ensures var text := Join(["---"] + h + ["---"] + b, "\n");
      StartsWith(text, "---") && 4 <= p && p + 4 <= |text| && Find(text, "\n---", 3) == Some(p)
      && text[4..p] == Join(h, "\n") && text[p + 4..] == "\n" + Join(b, "\n")
  {
    var P := Prefixed(h);
    var J := Join(b, "\n");
    var text := FileLayout(h, b);
    PrefixedNewlines(h);
    NoFenceBefore(P, "\n---" + "\n" + J);
    assert text == "---" + P + ("\n---" + "\n" + J);
    p := 3 + |P|;
    assert text[p..p + 4] == "\n---";
    FindAt(text, "\n---", 3, p);
    JoinPrefixed(h);
    assert text[4..p] == P[1..];
    assert text[p + 4..] == "\n" + J;
  }

  /** The serialised file as one string: the opening fence, the header lines each after a
      newline, the closing fence and the body lines. */
  lemma FileLayout(h: seq<string>, b: seq<string>) returns (text: string)
    requires b != []
    ensures text == Join(["---"] + h + ["---"] + b, "\n")
    ensures text == "---" + Prefixed(h) + "\n---" + "\n" + Join(b, "\n")
  {
    JoinFront(h, "---", ["---"] + b);
    JoinAppend(["---"], b, "\n");
    assert ["---"] + h + ["---"] + b == ["---"] + h + (["---"] + b);
    text := "---" + Prefixed(h) + "\n---" + "\n" + Join(b, "\n");
  }

  /** No `\n---` starts inside the header text when each of its newlines is followed by
      something other than a dash. */
  lemma NoFenceBefore(P: string, rest: string)
    requires forall j :: 0 <= j < |P| && P[j] == '\n' ==> j + 1 < |P| && P[j + 1] != '-'
    ensures forall j :: 3 <= j < 3 + |P| ==> !OccursAt("---" + P + rest, "\n---", j)
  {
    var text := "---" + P + rest;
    forall j | 3 <= j < 3 + |P| ensures !OccursAt(text, "\n---", j) {
      assert text[j] == P[j - 3];
      if P[j - 3] == '\n' {
        assert text[j + 1] == P[j - 2];
        if j + 4 <= |text| {
          assert text[j..j + 4][1] == text[j + 1];
        }
      } else if j + 4 <= |text| {
        assert text[j..j + 4][0] == text[j];
      }
    }
  }

  /** Where the serialised file's body starts: after the closing fence come a newline, then
      a blank line if the body is non-empty and does not start with a newline of its own, then
      the body. So the body read back is never the body written. */
  lemma SerializeBody(fm: Fm, body: string, today: string, h: seq<string>)
    requires HeaderLines(fm, today) == Some(h)
    requires forall k :: 0 <= k < |h| ==> '\n' !in h[k]
    ensures Serialize(fm, body, today) == Some(Assemble(h, body))
    ensures ParseFrontmatter(Assemble(h, body))
            == Parsed(Some(ParseYaml(Join(h, "\n"))),
                      "\n" + (if body != "" && !StartsWith(body, "\n") then "\n" + body else body))
  {
    HeaderLinesShape(fm, today, h);
    AssembleBody(h, body);
  }

  lemma AssembleBody(h: seq<string>, body: string)
    requires h != []
    requires forall k :: 0 <= k < |h| ==> HeaderLine(h[k])
    ensures ParseFrontmatter(Assemble(h, body))
            == Parsed(Some(ParseYaml(Join(h, "\n"))),
                      "\n" + (if body != "" && !StartsWith(body, "\n") then "\n" + body else body))
  {
    FenceFound(h, BodyLines(body));
    BodyLinesJoin(body);
  }

  lemma BodyLinesJoin(body: string)
    ensures Join(BodyLines(body), "\n") == if body != "" && !StartsWith(body, "\n") then "\n" + body else body
  {
  }

  /** As written, re-serialising a file with the body just read from it does not give the file
      back: the body read back carries one more leading newline than the body written, so
      every rewrite by `set` or `edit` adds an empty line under the closing fence. */
  lemma RewriteGrowsBody(fm: Fm, body: string, today: string, h: seq<string>)
    requires HeaderLines(fm, today) == Some(h)
    requires forall k :: 0 <= k < |h| ==> '\n' !in h[k]
    requires StartsWith(body, "\n")
    ensures Serialize(fm, body, today) == Some(Assemble(h, body))
    ensures ParseFrontmatter(Assemble(h, body)).body == "\n" + body
    ensures ParseFrontmatter(Assemble(h, body)).body != body
  {
    SerializeBody(fm, body, today, h);
  }

  /** `serialize_decision` as its comment intends ("single newline separator"): a body that
      already starts with a newline, as every body read by `parse_frontmatter` does, is written
      straight after the closing fence; other bodies are written as before. */
  function SerializeFixed(fm: Fm, body: string, today: string): (r: Option<string>)
    ensures r.Some? <==> HeaderLines(fm, today).Some?
  {
    match HeaderLines(fm, today)
    case None => None
    case Some(h) => Some(AssembleFixed(h, body))
  }

  function AssembleFixed(h: seq<string>, body: string): string {
    if StartsWith(body, "\n") then Join(["---"] + h + ["---"], "\n") + body else Assemble(h, body)
  }

  /** The corrected serialiser reads back to the same frontmatter block, and to the body it
      was given whenever that body starts with a newline. */
  lemma SerializeFixedBody(fm: Fm, body: string, today: string, h: seq<string>)
    requires HeaderLines(fm, today) == Some(h)
    requires forall k :: 0 <= k < |h| ==> '\n' !in h[k]
    ensures SerializeFixed(fm, body, today) == Some(AssembleFixed(h, body))
    ensures ParseFrontmatter(AssembleFixed(h, body))
            == Parsed(Some(ParseYaml(Join(h, "\n"))),
                      if StartsWith(body, "\n") then body else "\n" + Join(BodyLines(body), "\n"))
  {
    HeaderLinesShape(fm, today, h);
    AssembleFixedBody(h, body);
  }

  lemma AssembleFixedBody(h: seq<string>, body: string)
    requires h != []
    requires forall k :: 0 <= k < |h| ==> HeaderLine(h[k])
    ensures ParseFrontmatter(AssembleFixed(h, body))
            == Parsed(Some(ParseYaml(Join(h, "\n"))),
                      if StartsWith(body, "\n") then body else "\n" + Join(BodyLines(body), "\n"))
  {
    if StartsWith(body, "\n") {
      var rest := AssembleAfterNewline(h, body);
      FenceFound(h, [rest]);
    } else {
      FenceFound(h, BodyLines(body));
    }
  }

  /** A body that starts with a newline written after the fence is one more line of the file. */
  lemma AssembleAfterNewline(h: seq<string>, body: string) returns (rest: string)
    requires StartsWith(body, "\n")
    ensures body == "\n" + rest
    ensures AssembleFixed(h, body) == Join(["---"] + h + ["---"] + [rest], "\n")
  {
    rest := body[1..];
    assert body == "\n" + rest;
    JoinAppend(["---"] + h + ["---"], [rest], "\n");
  }

  /** With the correction, saving a file unchanged is a fixed point: serialising the body read
      back from a serialised file reproduces that file exactly. */
  lemma SerializeFixedStable(fm: Fm, body: string, today: string, h: seq<string>)
    requires HeaderLines(fm, today) == Some(h)
    requires forall k :: 0 <= k < |h| ==> '\n' !in h[k]
    ensures SerializeFixed(fm, ParseFrontmatter(AssembleFixed(h, body)).body, today)
            == SerializeFixed(fm, body, today)
  {
    HeaderLinesShape(fm, today, h);
    AssembleFixedStable(h, body);
  }

  lemma AssembleFixedStable(h: seq<string>, body: string)
    requires h != []
    requires forall k :: 0 <= k < |h| ==> HeaderLine(h[k])
    ensures AssembleFixed(h, ParseFrontmatter(AssembleFixed(h, body)).body) == AssembleFixed(h, body)
  {
    AssembleFixedBody(h, body);
    ReadBackIdem(h, body);
  }

  /** Writing out the body as read back gives the same text as writing out the original body. */
  lemma ReadBackIdem(h: seq<string>, body: string)
    ensures AssembleFixed(h, if StartsWith(body, "\n") then body else "\n" + Join(BodyLines(body), "\n"))
            == AssembleFixed(h, body)
  {
    if !StartsWith(body, "\n") {
      var b2 := "\n" + Join(BodyLines(body), "\n");
      assert StartsWith(b2, "\n");
      JoinAppend(["---"] + h + ["---"], BodyLines(body), "\n");
    }
  }
}
