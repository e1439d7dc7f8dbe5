/** The two commands that rewrite a decision file: `edit`, which replaces one passage of the
    body and leaves the frontmatter alone (tools/dna-graph.py:1688-1703), and `set`, which
    changes one frontmatter field and keeps the body (tools/dna-graph.py:1615-1643). Reading and
    writing the file are left to the caller: it passes what `ParseFrontmatter` made of the
    file and receives the text to write. Both use the corrected serialiser. */
module Mutations {
  import opened Util
  import opened Frontmatter
  import opened Decisions
  import opened PreValidate

  // ---------------------------------------------------------------------------
  // Body replacement
  // ---------------------------------------------------------------------------

  /** Why an edit is refused. */
  datatype EditError =
    | EditNotFound(id: string)          // not found in graph
    | Unparsable(id: string)            // could not parse frontmatter
    | NotInBody(id: string)             // old text not found in body
    | Ambiguous(id: string, count: nat) // old text matches `count` locations
    | Unwritable(id: string)            // the serialiser raises on this frontmatter

  /** `sub in s` holds exactly when `s.count(sub)` is positive. */
  lemma CountPositive(s: string, sub: string)
    ensures Count(s, sub) > 0 <==> Contains(s, sub)
  {
    FindContains(s, sub);
    if sub == [] {
      assert OccursAt(s, sub, 0);
    }
  }

  /** `Count(s, sub) == 1` pins down where `sub` can occur: at its first occurrence `i`, or
      overlapping it, never apart from it. */
  lemma CountOne(s: string, sub: string)
    requires Count(s, sub) == 1
    ensures Find(s, sub, 0).Some?
    ensures forall j: nat :: OccursAt(s, sub, j) && j != Find(s, sub, 0).value ==>
              Find(s, sub, 0).value < j < Find(s, sub, 0).value + |sub|
  {
    if sub == [] {
      assert s == [];
      assert OccursAt(s, sub, 0);
    } else {
      var i := Find(s, sub, 0).value;
      assert CountFrom(s, sub, i + |sub|) == 0;
      assert Find(s, sub, i + |sub|).None?;

    }
  }

  /** `cmd_edit`'s check and replacement on the body alone: refused unless `old_text` occurs exactly
      once (as `str.count` counts); otherwise that occurrence becomes `new_text` and the text on
      either side of it is kept. */
  function EditBody(id: string, body: string, oldText: string, newText: string): (r: Result<string, EditError>)
    ensures r.Ok? <==> Count(body, oldText) == 1
    ensures !Contains(body, oldText) <==> r == Err(NotInBody(id))
    ensures Count(body, oldText) > 1 <==> r == Err(Ambiguous(id, Count(body, oldText)))
    ensures r.Ok? ==> exists i: nat :: OccursAt(body, oldText, i) && r.value == body[..i] + newText + body[i + |oldText|..] &&
                                  (forall j: nat :: OccursAt(body, oldText, j) && j != i ==> i < j < i + |oldText|)
  {
    CountPositive(body, oldText);
    if !Contains(body, oldText) then Err(NotInBody(id))
    else if Count(body, oldText) > 1 then Err(Ambiguous(id, Count(body, oldText)))
    else
      CountOne(body, oldText);
      Ok(ReplaceFirst(body, oldText, newText))
  }

  /** `cmd_edit` from the lookup of the record to the text written back: the file's own
      frontmatter with the edited body. */
  function Edit(g: Graph, id: string, file: Parsed, oldText: string, newText: string, today: string)
    : (r: Result<string, EditError>)
    ensures id !in g ==> r == Err(EditNotFound(id))
    ensures id in g && file.fm.None? ==> r == Err(Unparsable(id))
    ensures r.Ok? ==> file.fm.Some? && EditBody(id, file.body, oldText, newText).Ok? &&
                      Some(r.value) == SerializeFixed(file.fm.value, EditBody(id, file.body, oldText, newText).value, today)
    ensures id in g && file.fm.Some? && EditBody(id, file.body, oldText, newText).Err? ==>
              r == Err(EditBody(id, file.body, oldText, newText).error)
    ensures id in g && file.fm.Some? && EditBody(id, file.body, oldText, newText).Ok? ==>
              (r.Ok? <==> SerializeFixed(file.fm.value, EditBody(id, file.body, oldText, newText).value, today).Some?) &&
              (r.Err? ==> r == Err(Unwritable(id)))
  {
    if id !in g then Err(EditNotFound(id))
    else if file.fm.None? then Err(Unparsable(id))
    else match EditBody(id, file.body, oldText, newText)
      case Err(e) => Err(e)
      case Ok(body) =>
        match SerializeFixed(file.fm.value, body, today)
        case None => Err(Unwritable(id))
        case Some(text) => Ok(text)
  }

  /** Reading back the file an edit writes gives the same frontmatter block and exactly the
      edited body, when the header lines hold no line break and the edited body still starts
      with a newline, as every body `parse_frontmatter` returns does. */
  lemma EditReadBack(g: Graph, id: string, file: Parsed, oldText: string, newText: string, today: string,
                     h: seq<string>)
    requires Edit(g, id, file, oldText, newText, today).Ok?
    requires HeaderLines(file.fm.value, today) == Some(h) && forall k :: 0 <= k < |h| ==> '\n' !in h[k]
    requires StartsWith(EditBody(id, file.body, oldText, newText).value, "\n")
    ensures ParseFrontmatter(Edit(g, id, file, oldText, newText, today).value)
            == Parsed(Some(ParseYaml(Join(h, "\n"))), EditBody(id, file.body, oldText, newText).value)
  {
    SerializeFixedBody(file.fm.value, EditBody(id, file.body, oldText, newText).value, today, h);
  }

  // ---------------------------------------------------------------------------
  // Field update
  // ---------------------------------------------------------------------------

  /** Why a `set` is refused. */
  datatype SetFailure =
    | Rejected(errors: seq<Error>)   // `validate_for_set` reported errors
    | SetUnparsable(id: string)      // could not parse frontmatter
    | SetUnwritable(id: string)      // the serialiser raises on the new frontmatter

  /** `cmd_set` once the value is parsed: validated by `validate_for_set`, then the file's
      frontmatter with `field` set to `value`, written with the body it had. */
  method SetField(g: Graph, id: string, field: string, value: Value, file: Parsed, today: string)
    returns (r: Result<string, SetFailure>, warnings: seq<Warning>)
    ensures forall w :: w in warnings <==> SetWarning(id, field, value, g, w)
    ensures r.Err? && r.error.Rejected? ==>
              r.error.errors != [] && forall e :: e in r.error.errors <==> SetError(id, field, value, g, e)
    ensures r.Ok? ==> (forall e :: !SetError(id, field, value, g, e)) && file.fm.Some? &&
                      Some(r.value) == SerializeFixed(file.fm.value[field := value], file.body, today)
    ensures (exists e :: SetError(id, field, value, g, e)) ==> r.Err? && r.error.Rejected?
    ensures (forall e :: !SetError(id, field, value, g, e)) && file.fm.None? ==> r == Err(SetUnparsable(id))
    ensures (forall e :: !SetError(id, field, value, g, e)) && file.fm.Some? ==>
              (r.Ok? <==> SerializeFixed(file.fm.value[field := value], file.body, today).Some?) &&
              (r.Err? ==> r == Err(SetUnwritable(id)))
  {
    var errors;
    errors, warnings := ValidateForSet(id, field, value, g);
    if errors != [] {
      assert errors[0] in errors;
      return Err(Rejected(errors)), warnings;
    }
    assert forall e :: !SetError(id, field, value, g, e) by {
      forall e ensures !SetError(id, field, value, g, e) {
        assert e !in errors;
      }
    }
    if file.fm.None? {
      return Err(SetUnparsable(id)), warnings;
    }
    var fm := file.fm.value[field := value];
    match SerializeFixed(fm, file.body, today)
    case None => r := Err(SetUnwritable(id));
    case Some(text) => r := Ok(text);
  }

  /** A `set` keeps the body: the file it writes reads back to the body it read. */
  lemma SetKeepsBody(fm: Fm, field: string, value: Value, body: string, today: string, h: seq<string>)
    requires HeaderLines(fm[field := value], today) == Some(h) && forall k :: 0 <= k < |h| ==> '\n' !in h[k]
    requires StartsWith(body, "\n")
    ensures SerializeFixed(fm[field := value], body, today).Some?
    ensures ParseFrontmatter(SerializeFixed(fm[field := value], body, today).value).body == body
  {
    SerializeFixedBody(fm[field := value], body, today, h);
  }
}
