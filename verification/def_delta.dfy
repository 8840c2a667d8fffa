/** A changed definition: the definition as it was in the base commit and as it is in the head
    commit, either of which may be missing. */
module DefDeltas {
  import opened Results

  /** Go's two nilable pointers, kept as two independent options. */
  datatype DefDelta<Def> = DefDelta(base: Option<Def>, head: Option<Def>) {

    /** Not in the base, present in the head. */
    predicate Added() {
      base.None? && head.Some?
    }

    /** Present in both. */
    predicate Changed() {
      base.Some? && head.Some?
    }

    /** Present in the base, not in the head. */
    predicate Deleted() {
      base.Some? && head.None?
    }
  }

  /** The three meaningful states as one tagged value. */
  datatype DefChange<Def> = Addition(after: Def) | Change(before: Def, after: Def) | Deletion(before: Def)

  /** The tagged state of a def delta; None for the fourth combination, both sides missing. */
  function Classify<Def>(dd: DefDelta<Def>): (r: Option<DefChange<Def>>)
    ensures r.None? <==> dd.base.None? && dd.head.None?
    ensures r.Some? && r.value.Addition? <==> dd.Added()
    ensures r.Some? && r.value.Change? <==> dd.Changed()
    ensures r.Some? && r.value.Deletion? <==> dd.Deleted()
  {
    match (dd.base, dd.head)
    case (None, Some(h)) => Some(Addition(h))
    case (Some(b), Some(h)) => Some(Change(b, h))
    case (Some(b), None) => Some(Deletion(b))
    case (None, None) => None
  }

  /** The def delta a tagged state stands for. */
  function ToDefDelta<Def>(c: DefChange<Def>): (dd: DefDelta<Def>)
    ensures dd.base.Some? || dd.head.Some?
    ensures c.Addition? <==> dd.Added()
    ensures c.Deletion? <==> dd.Deleted()
  {
    match c
    case Addition(h) => DefDelta(None, Some(h))
    case Change(b, h) => DefDelta(Some(b), Some(h))
    case Deletion(b) => DefDelta(Some(b), None)
  }

  /** At most one of Added, Changed and Deleted holds; exactly one holds when either side is
      present, and none when both are missing. */
  lemma ClassificationExclusive<Def>(dd: DefDelta<Def>)
    ensures !(dd.Added() && dd.Changed()) && !(dd.Added() && dd.Deleted()) && !(dd.Changed() && dd.Deleted())
    ensures dd.Added() || dd.Changed() || dd.Deleted() <==> dd.base.Some? || dd.head.Some?
  {
  }

  /** Classify and ToDefDelta are inverse: the tagged form loses nothing, and only the
      both-missing combination has no tagged form. */
  lemma ClassifyRoundTrip<Def>(dd: DefDelta<Def>, c: DefChange<Def>)
    ensures Classify(ToDefDelta(c)) == Some(c)
    ensures Classify(dd).Some? ==> ToDefDelta(Classify(dd).value) == dd
  {
  }
}
