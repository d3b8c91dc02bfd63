/**
  Named configuration blocks and the insertion-ordered name -> body tables
  that hold them. A Python dict keeps its keys in insertion order and the
  duplicate report depends on that order, so a table is a sequence of
  entries whose names are pairwise distinct.
 */
module Blocks {

  /** A declaration's name (third token of its line) with its child lines. */
  datatype Entry = Entry(name: string, body: seq<string>)

  type Table = seq<Entry>

  /** The keys of a table, in iteration order. */
  function Names(t: Table): (r: seq<string>)
    ensures |r| == |t|
    ensures forall p :: 0 <= p < |t| ==> r[p] == t[p].name
  {
    seq(|t|, p requires 0 <= p < |t| => t[p].name)
  }

  /** Dict keys are unique. */
  predicate DistinctNames(t: Table) {
    forall p, q :: 0 <= p < q < |t| ==> t[p].name != t[q].name
  }

  /** Position of the entry named `x`, or `|t|` when there is none. */
  function PositionOf(t: Table, x: string): (p: nat)
    ensures p <= |t|
    ensures p < |t| ==> t[p].name == x
    ensures forall q :: 0 <= q < p ==> t[q].name != x
  {
    if t == [] then 0
    else if t[0].name == x then 0
    else 1 + PositionOf(t[1..], x)
  }

  /** With unique keys, looking up the name stored at `p` gives `p` back. */
  lemma PositionOfName(t: Table, p: nat)
    requires DistinctNames(t)
    requires p < |t|
    ensures PositionOf(t, t[p].name) == p
  {
  }

  /** Appending an entry appends its name. */
  lemma NamesSnoc(t: Table, e: Entry)
    ensures Names(t + [e]) == Names(t) + [e.name]
  {
  }
}
