/** The marks of a search over the blocks: a block is marked when it has the search's
    generation. */
module Generations {
  import opened Semantics

  /** Only marks changed. */
  predicate OnlyGenerations(g: Code, h: Code) {
    |h| == |g| && forall b :: 0 <= b < |g| ==> h[b] == g[b].(generation := h[b].generation)
  }

  /** What was marked stays marked. */
  predicate MarksStay(h: Code, k: Code, generation: nat) {
    |k| == |h| && forall b {:trigger k[b]} :: 0 <= b < |h| && h[b].generation == generation ==>
      k[b].generation == generation
  }

  function Unmarked(h: Code, generation: nat): set<nat> {
    set b: nat | b < |h| && h[b].generation != generation
  }

  lemma UnmarkedFewer(h: Code, k: Code, generation: nat)
    requires MarksStay(h, k, generation)
    ensures Unmarked(k, generation) <= Unmarked(h, generation) && |Unmarked(k, generation)| <= |Unmarked(h, generation)|
  {
    forall b | b in Unmarked(k, generation) ensures b in Unmarked(h, generation) {
      assert k[b].generation != generation;
    }
    assert Unmarked(h, generation) == Unmarked(k, generation) + (Unmarked(h, generation) - Unmarked(k, generation));
  }
}
