/** `LEGAL_TRANSITIONS` and `validate_transition` (tools/dna-graph.py:284-297): a decision moves
    from suggested to committed or superseded, and from committed to superseded; staying in
    the same state is always allowed. */
module Transitions {
  import opened Frontmatter

  const Suggested := Str("suggested")
  const Committed := Str("committed")
  const Superseded := Str("superseded")

  /** The listed pairs. */
  const Legal: set<(Value, Value)> := {(Suggested, Committed), (Suggested, Superseded), (Committed, Superseded)}

  /** Whether moving from `prev` to `next` is allowed. */
  function ValidateTransition(prev: Value, next: Value): (ok: bool)
    ensures ok <==> prev == next
                    || (prev == Suggested && (next == Committed || next == Superseded))
                    || (prev == Committed && next == Superseded)
  {
    prev == next || (prev, next) in Legal
  }

  /** Position of a state in the life cycle. */
  function Rank(v: Value): nat {
    if v == Suggested then 0 else if v == Committed then 1 else 2
  }

  /** Every allowed change of state moves strictly forward through the life cycle. */
  lemma TransitionForward(prev: Value, next: Value)
    requires ValidateTransition(prev, next) && prev != next
    ensures Rank(prev) < Rank(next)
    ensures prev in {Suggested, Committed} && next in {Committed, Superseded}
  {
  }

  /** No transition leads back to suggested. */
  lemma NeverBackToSuggested(prev: Value)
    requires ValidateTransition(prev, Suggested)
    ensures prev == Suggested
  {
  }

  /** Superseded is final. */
  lemma SupersededFinal(next: Value)
    requires ValidateTransition(Superseded, next)
    ensures next == Superseded
  {
  }

  /** Two allowed transitions in a row are one allowed transition. */
  lemma TransitionTransitive(a: Value, b: Value, c: Value)
    requires ValidateTransition(a, b) && ValidateTransition(b, c)
    ensures ValidateTransition(a, c)
  {
  }

  /** A state change cannot be undone. */
  lemma TransitionAntisymmetric(a: Value, b: Value)
    requires ValidateTransition(a, b) && ValidateTransition(b, a)
    ensures a == b
  {
  }
}
