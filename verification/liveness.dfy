/** Which pseudos a block needs from the blocks before it (liveness.c). */
module Liveness {
  import opened Ir
  import opened Semantics
  import opened Graph
  import opened Paths

  // ---------------------------------------------------------------------------
  // What is needed where
  // ---------------------------------------------------------------------------

  /** A path to a block that needs p, on which no earlier block defines it. */
  predicate NeedPath(g: Code, p: Pseudo, s: seq<BlockId>) {
    && IsPath(g, s) && End(s) < |g| && p in g[End(s)].needs
    && (forall i :: 0 <= i < |s| - 1 ==> s[i] < |g| && p !in g[s[i]].defines)
  }

  ghost predicate Needed(g: Code, b: BlockId, p: Pseudo) {
    exists s :: NeedPath(g, p, s) && s[0] == b
  }

  lemma NeededHere(g: Code, b: BlockId, p: Pseudo)
    requires b < |g| && p in g[b].needs
    ensures Needed(g, b, p)
  {
    assert NeedPath(g, p, [b]);
  }

  lemma NeededBefore(g: Code, b: BlockId, c: BlockId, p: Pseudo)
    requires IsEdge(g, b, c) && Needed(g, c, p) && p !in g[b].defines
    ensures Needed(g, b, p)
  {
    var s :| NeedPath(g, p, s) && s[0] == c;
    PathPrepend(g, b, s);
    var t := [b] + s;
    forall i | 0 <= i < |t| - 1 ensures t[i] < |g| && p !in g[t[i]].defines {
      assert i > 0 ==> t[i] == s[i - 1];
    }
    assert NeedPath(g, p, t);
  }

  // ---------------------------------------------------------------------------
  // The state of the loop
  // ---------------------------------------------------------------------------

  /** Only the lists of needs have changed. */
  predicate OnlyNeeds(g: Code, h: Code) {
    |h| == |g| && forall b :: 0 <= b < |g| ==> h[b] == g[b].(needs := h[b].needs)
  }

  ghost predicate NeedsAt(g: Code, h: Code, b: BlockId) {
    && b < |g| && b < |h|
    && (forall p :: p in g[b].needs ==> p in h[b].needs)
    && (forall p :: p in h[b].needs ==> Needed(g, b, p))
  }

  /** The needs are between the first ones and those that a path explains. */
  ghost predicate Explained(g: Code, h: Code) {
    OnlyNeeds(g, h) && forall b :: 0 <= b < |g| ==> NeedsAt(g, h, b)
  }

  predicate PassedOn(h: Code, b: BlockId, q: BlockId) {
    b < |h| && q < |h| && forall p :: p in h[b].needs ==> p in h[q].defines || p in h[q].needs
  }

  /** Every parent of b defines or needs what b needs. */
  predicate Closed(h: Code, b: BlockId) {
    b < |h| && forall q :: q in h[b].parents ==> PassedOn(h, b, q)
  }

  lemma {:induction false} ClosedHasAll(g: Code, h: Code, p: Pseudo, s: seq<BlockId>)
    requires LinksAgree(g) && Explained(g, h) && NeedPath(g, p, s)
    requires forall b: BlockId :: b < |g| && g[b].parents != [] ==> Closed(h, b)
    ensures s[0] < |h| && p in h[s[0]].needs
    decreases |s|
  {
    assert NeedsAt(g, h, s[0]);
    if |s| > 1 {
      PathTail(g, s);
      var t := s[1..];
      forall i | 0 <= i < |t| - 1 ensures t[i] < |g| && p !in g[t[i]].defines {
        assert t[i] == s[i + 1];
      }
      ClosedHasAll(g, h, p, t);
      EdgeBothWays(g, s[0], s[1]);
      assert h[s[0]] == g[s[0]].(needs := h[s[0]].needs) && h[s[1]] == g[s[1]].(needs := h[s[1]].needs);
      assert Closed(h, s[1]) && PassedOn(h, s[1], s[0]);
    }
  }

  // ---------------------------------------------------------------------------
  // Counting, for termination
  // ---------------------------------------------------------------------------

  predicate NoDuplicates(s: seq<Pseudo>) {
    forall i, j :: 0 <= i < j < |s| ==> s[i] != s[j]
  }

  function Total(h: Code): nat {
    if |h| == 0 then 0 else Total(h[..|h| - 1]) + |h[|h| - 1].needs|
  }

  /** Each list holds pseudos of the universe, none twice. */
  predicate Bounded(h: Code, universe: set<Pseudo>) {
    forall b :: 0 <= b < |h| ==> NoDuplicates(h[b].needs) && forall p :: p in h[b].needs ==> p in universe
  }

  lemma {:induction false} ListFits(s: seq<Pseudo>, universe: set<Pseudo>)
    requires NoDuplicates(s) && forall p :: p in s ==> p in universe
    ensures |s| <= |universe|
    decreases |s|
  {
    if |s| > 0 {
      var last, rest := s[|s| - 1], s[..|s| - 1];
      assert forall p :: p in rest ==> p in universe - {last};
      ListFits(rest, universe - {last});
    }
  }

  lemma {:induction false} TotalFits(h: Code, universe: set<Pseudo>)
    requires Bounded(h, universe)
    ensures Total(h) <= |h| * |universe|
  {
    if |h| > 0 {
      TotalFits(h[..|h| - 1], universe);
      assert h[|h| - 1] == h[|h| - 1];
      ListFits(h[|h| - 1].needs, universe);
    }
  }

  lemma {:induction false} TotalOneMore(h: Code, b: nat, p: Pseudo)
    requires b < |h|
    ensures Total(h[b := h[b].(needs := h[b].needs + [p])]) == Total(h) + 1
  {
    var k := h[b := h[b].(needs := h[b].needs + [p])];
    if b < |h| - 1 {
      TotalOneMore(h[..|h| - 1], b, p);
      assert k[..|k| - 1] == h[..|h| - 1][b := h[b].(needs := h[b].needs + [p])];
    } else {
      assert k[..|k| - 1] == h[..|h| - 1];
    }
  }

  /** All the first needs. */
  function Universe(g: Code): set<Pseudo> {
    set b, p | 0 <= b < |g| && p in g[b].needs :: p
  }

  // ---------------------------------------------------------------------------
  // The fixpoint
  // ---------------------------------------------------------------------------

  ghost predicate InLoop(g: Code, h: Code) {
    Explained(g, h) && Bounded(h, Universe(g))
  }

  /** add_pseudo_exclusive on the needs of a block. */
  method AddNeed(ep: EntryPoint, q: BlockId, p: Pseudo, ghost g: Code) returns (changed: bool)
    requires InLoop(g, ep.blocks) && q < |ep.blocks| && p in Universe(g) && Needed(g, q, p)
    modifies ep`blocks
    ensures InLoop(g, ep.blocks) && p in ep.blocks[q].needs
    ensures changed <==> p !in old(ep.blocks)[q].needs
    ensures if changed then Total(ep.blocks) == Total(old(ep.blocks)) + 1 else ep.blocks == old(ep.blocks)
    ensures forall b :: 0 <= b < |ep.blocks| && b != q ==> ep.blocks[b] == old(ep.blocks)[b]
    ensures changed ==> ep.blocks[q].needs == old(ep.blocks)[q].needs + [p]
  {
    changed := p !in ep.blocks[q].needs;
    if changed {
      ghost var h := ep.blocks;
      TotalOneMore(h, q, p);
      ep.blocks := ep.blocks[q := ep.blocks[q].(needs := ep.blocks[q].needs + [p])];
      forall b | 0 <= b < |g| ensures NeedsAt(g, ep.blocks, b) {
        assert NeedsAt(g, h, b);
      }
    }
  }

  /** What a part of a pass leaves behind: nothing changed and the part is closed, or there
      are more needs than before. */
  ghost predicate Progress(before: Code, after: Code, changed: bool) {
    if changed then Total(after) > Total(before) else after == before
  }

  /** The parents of bb get one of its needs. */
  method TrackNeed(ep: EntryPoint, bb: BlockId, p: Pseudo, ghost g: Code) returns (changed: bool)
    requires LinksAgree(g) && InLoop(g, ep.blocks) && bb < |ep.blocks| && p in ep.blocks[bb].needs
    modifies ep`blocks
    ensures InLoop(g, ep.blocks) && Progress(old(ep.blocks), ep.blocks, changed)
    ensures ep.blocks[bb] == old(ep.blocks)[bb]
    ensures forall q :: q in ep.blocks[bb].parents ==> q < |g| && (p in ep.blocks[q].defines || p in ep.blocks[q].needs)
  {
    changed := false;
    var parents := ep.blocks[bb].parents;
    for i := 0 to |parents|
      invariant InLoop(g, ep.blocks) && Progress(old(ep.blocks), ep.blocks, changed)
                && ep.blocks[bb] == old(ep.blocks)[bb]
      invariant forall k :: 0 <= k < i ==> parents[k] < |g|
      invariant forall k :: 0 <= k < i ==> p in ep.blocks[parents[k]].defines || p in ep.blocks[parents[k]].needs
    {
      var parent := parents[i];
      ghost var h := ep.blocks;
      assert NeedsAt(g, h, bb) && h[bb] == g[bb].(needs := h[bb].needs);
      EdgeBothWays(g, parent, bb);
      assert h[parent] == g[parent].(needs := h[parent].needs);
      if p !in ep.blocks[parent].defines {
        NeededBefore(g, parent, bb, p);
        var one := AddNeed(ep, parent, p, g);
        changed := changed || one;
        forall k | 0 <= k < i ensures p in ep.blocks[parents[k]].defines || p in ep.blocks[parents[k]].needs {
          assert p in h[parents[k]].defines || p in h[parents[k]].needs;
          assert OnlyNeeds(g, ep.blocks);
        }
      }
    }
  }

  /** track_bb_liveness: the parents of bb need what bb needs, unless they define it. */
  method TrackBbLiveness(ep: EntryPoint, bb: BlockId, ghost g: Code) returns (changed: bool)
    requires LinksAgree(g) && InLoop(g, ep.blocks) && bb < |ep.blocks|
    modifies ep`blocks
    ensures InLoop(g, ep.blocks) && Progress(old(ep.blocks), ep.blocks, changed)
    ensures !changed ==> Closed(ep.blocks, bb)
  {
    changed := false;
    var needs := ep.blocks[bb].needs;
    assert ep.blocks[bb] == g[bb].(needs := needs);
    forall q | q in ep.blocks[bb].parents ensures q < |g| {
      EdgeBothWays(g, q, bb);
    }
    for i := 0 to |needs|
      invariant InLoop(g, ep.blocks) && Progress(old(ep.blocks), ep.blocks, changed)
      invariant ep.blocks[bb] == old(ep.blocks)[bb]
      invariant !changed ==> forall k, q :: 0 <= k < i && q in ep.blocks[bb].parents ==>
                                q < |g| && (needs[k] in ep.blocks[q].defines || needs[k] in ep.blocks[q].needs)
      invariant forall q :: q in ep.blocks[bb].parents ==> q < |g|
    {
      var one := TrackNeed(ep, bb, needs[i], g);
      changed := changed || one;
    }
    if !changed {
      forall q | q in ep.blocks[bb].parents ensures PassedOn(ep.blocks, bb, q) {
        forall p | p in ep.blocks[bb].needs ensures p in ep.blocks[q].defines || p in ep.blocks[q].needs {
          var k :| 0 <= k < |needs| && needs[k] == p;
        }
      }
    }
  }

  /** One pass over all blocks, the last one first. */
  method LivenessPass(ep: EntryPoint, ghost g: Code) returns (changed: bool)
    requires LinksAgree(g) && InLoop(g, ep.blocks) && forall b :: b in ep.bbs ==> b < |ep.blocks|
    modifies ep`blocks
    ensures InLoop(g, ep.blocks) && Progress(old(ep.blocks), ep.blocks, changed)
    ensures !changed ==> forall b :: b in ep.bbs ==> Closed(ep.blocks, b)
  {
    changed := false;
    var i: nat := |ep.bbs|;
    while i != 0
      invariant i <= |ep.bbs| && InLoop(g, ep.blocks) && Progress(old(ep.blocks), ep.blocks, changed)
      invariant !changed ==> forall k :: i <= k < |ep.bbs| ==> Closed(ep.blocks, ep.bbs[k])
    {
      i := i - 1;
      assert ep.bbs[i] in ep.bbs;
      var one := TrackBbLiveness(ep, ep.bbs[i], g);
      changed := changed || one;
    }
  }

  /** The loop of track_pseudo_liveness. */
  method LivenessLoop(ep: EntryPoint)
    requires LinksAgree(ep.blocks) && (forall b :: b in ep.bbs ==> b < |ep.blocks|)
    requires forall b: BlockId :: b < |ep.blocks| ==>
               NoDuplicates(ep.blocks[b].needs) && (ep.blocks[b].parents != [] ==> b in ep.bbs)
    modifies ep`blocks
    ensures OnlyNeeds(old(ep.blocks), ep.blocks)
    ensures forall b: BlockId, p :: b < |ep.blocks| ==> (p in ep.blocks[b].needs <==> Needed(old(ep.blocks), b, p))
  {
    ghost var g := ep.blocks;
    ghost var universe := Universe(g);
    forall b: BlockId | b < |g| ensures NeedsAt(g, g, b) {
      forall p | p in g[b].needs ensures Needed(g, b, p) {
        NeededHere(g, b, p);
      }
    }
    while true
      invariant InLoop(g, ep.blocks)
      decreases |g| * |universe| - Total(ep.blocks)
    {
      TotalFits(ep.blocks, universe);
      var changed := LivenessPass(ep, g);
      TotalFits(ep.blocks, universe);
      if !changed {
        break;
      }
    }
    forall b: BlockId, p | b < |g| ensures p in ep.blocks[b].needs <==> Needed(g, b, p) {
      assert NeedsAt(g, ep.blocks, b);
      if Needed(g, b, p) {
        var s :| NeedPath(g, p, s) && s[0] == b;
        forall c: BlockId | c < |g| && g[c].parents != [] ensures Closed(ep.blocks, c) {
          assert c in ep.bbs;
        }
        ClosedHasAll(g, ep.blocks, p, s);
      }
    }
  }

  // ---------------------------------------------------------------------------
  // The definitions that other blocks use
  // ---------------------------------------------------------------------------

  predicate UsedByChild(h: Code, b: BlockId, p: Pseudo)
    requires b < |h|
  {
    exists c :: c in h[b].children && c < |h| && p in h[c].needs
  }

  function UsedOnly(h: Code, b: BlockId, defines: seq<Pseudo>): (r: seq<Pseudo>)
    requires b < |h|
    ensures forall p :: p in r <==> p in defines && UsedByChild(h, b, p)
  {
    if |defines| == 0 then []
    else
      var front := UsedOnly(h, b, defines[..|defines| - 1]);
      var last := defines[|defines| - 1];
      assert defines == defines[..|defines| - 1] + [last];
      if UsedByChild(h, b, last) then front + [last] else front
  }

  /** The blocks of `bbs` define only what a child needs. */
  predicate Trimmed(h: Code, k: Code, bbs: set<BlockId>) {
    |k| == |h| && forall b :: 0 <= b < |h| ==>
      k[b] == if b in bbs then h[b].(defines := UsedOnly(h, b, h[b].defines)) else h[b]
  }

  method IsUsed(ep: EntryPoint, bb: BlockId, p: Pseudo) returns (used: bool)
    requires bb < |ep.blocks|
    ensures used <==> UsedByChild(ep.blocks, bb, p)
  {
    used := false;
    var children := ep.blocks[bb].children;
    for i := 0 to |children|
      invariant !used ==> forall k :: 0 <= k < i ==> children[k] >= |ep.blocks| || p !in ep.blocks[children[k]].needs
    {
      if children[i] < |ep.blocks| && p in ep.blocks[children[i]].needs {
        return true;
      }
    }
  }

  /** The definitions of one block that no child needs are deleted. */
  method TrimBlock(ep: EntryPoint, bb: BlockId)
    requires bb < |ep.blocks|
    modifies ep`blocks
    ensures Trimmed(old(ep.blocks), ep.blocks, {bb})
  {
    ghost var h := ep.blocks;
    var defines := ep.blocks[bb].defines;
    var kept := [];
    assert defines[..0] == [];
    for i := 0 to |defines|
      invariant ep.blocks == h && kept == UsedOnly(h, bb, defines[..i])
    {
      var used := IsUsed(ep, bb, defines[i]);
      assert defines[..i + 1][..i] == defines[..i];
      if used {
        kept := kept + [defines[i]];
      }
    }
    assert defines[..|defines|] == defines;
    ep.blocks := ep.blocks[bb := ep.blocks[bb].(defines := kept)];
  }

  lemma {:induction false} UsedOnlySame(h: Code, k: Code, b: BlockId, defines: seq<Pseudo>)
    requires b < |h| == |k| && k[b].children == h[b].children && forall c :: 0 <= c < |h| ==> k[c].needs == h[c].needs
    ensures UsedOnly(k, b, defines) == UsedOnly(h, b, defines)
  {
    if |defines| > 0 {
      UsedOnlySame(h, k, b, defines[..|defines| - 1]);
      assert UsedByChild(k, b, defines[|defines| - 1]) == UsedByChild(h, b, defines[|defines| - 1]);
    }
  }

  lemma {:induction false} UsedOnlyAgain(h: Code, b: BlockId, defines: seq<Pseudo>)
    requires b < |h|
    ensures UsedOnly(h, b, UsedOnly(h, b, defines)) == UsedOnly(h, b, defines)
  {
    if |defines| > 0 {
      var front, last := UsedOnly(h, b, defines[..|defines| - 1]), defines[|defines| - 1];
      UsedOnlyAgain(h, b, defines[..|defines| - 1]);
      if UsedByChild(h, b, last) {
        assert (front + [last])[..|front + [last]| - 1] == front;
      }
    }
  }

  lemma TrimmedOneMore(h: Code, k: Code, k': Code, done: set<BlockId>, bb: BlockId)
    requires Trimmed(h, k, done) && bb < |h| && Trimmed(k, k', {bb})
    ensures Trimmed(h, k', done + {bb})
  {
    forall c | 0 <= c < |h| ensures k[c].needs == h[c].needs && k[c].children == h[c].children {
    }
    UsedOnlySame(h, k, bb, k[bb].defines);
    UsedOnlyAgain(h, bb, h[bb].defines);
    forall b | 0 <= b < |h|
      ensures k'[b] == if b in done + {bb} then h[b].(defines := UsedOnly(h, b, h[b].defines)) else h[b]
    {
      assert k'[b] == if b in {bb} then k[b].(defines := UsedOnly(k, b, k[b].defines)) else k[b];
    }
  }

  /** track_pseudo_liveness, from the lists of uses and definitions of each block. */
  method TrackPseudoLiveness(ep: EntryPoint)
    requires LinksAgree(ep.blocks) && (forall b :: b in ep.bbs ==> b < |ep.blocks|)
    requires forall b: BlockId :: b < |ep.blocks| ==>
               NoDuplicates(ep.blocks[b].needs) && (ep.blocks[b].parents != [] ==> b in ep.bbs)
    modifies ep`blocks
    ensures |ep.blocks| == |old(ep.blocks)|
    ensures forall b: BlockId, p :: b < |ep.blocks| ==> (p in ep.blocks[b].needs <==> Needed(old(ep.blocks), b, p))
    ensures forall b: BlockId, p :: b < |ep.blocks| && b in ep.bbs ==>
              (p in ep.blocks[b].defines <==> p in old(ep.blocks)[b].defines && UsedByChild(ep.blocks, b, p))
    ensures forall b: BlockId :: b < |ep.blocks| ==>
              ep.blocks[b] == old(ep.blocks)[b].(needs := ep.blocks[b].needs, defines := ep.blocks[b].defines)
  {
    ghost var g := ep.blocks;
    LivenessLoop(ep);
    ghost var h, done := ep.blocks, {};
    for i := 0 to |ep.bbs|
      invariant Trimmed(h, ep.blocks, done) && forall b :: b in done <==> b in ep.bbs[..i]
    {
      ghost var k := ep.blocks;
      assert ep.bbs[i] in ep.bbs && ep.bbs[..i + 1] == ep.bbs[..i] + [ep.bbs[i]];
      TrimBlock(ep, ep.bbs[i]);
      TrimmedOneMore(h, k, ep.blocks, done, ep.bbs[i]);
      done := done + {ep.bbs[i]};
    }
    assert ep.bbs[..|ep.bbs|] == ep.bbs;
    TrimmedMeans(g, h, ep.blocks, done);
  }

  lemma TrimmedMeans(g: Code, h: Code, k: Code, done: set<BlockId>)
    requires OnlyNeeds(g, h) && Trimmed(h, k, done)
    ensures forall b: BlockId :: b < |k| ==> k[b].needs == h[b].needs
    ensures forall b: BlockId :: b < |k| ==> k[b] == g[b].(needs := k[b].needs, defines := k[b].defines)
    ensures forall b: BlockId, p :: b < |k| && b in done ==>
              (p in k[b].defines <==> p in g[b].defines && UsedByChild(k, b, p))
  {
    forall b: BlockId | b < |k|
      ensures k[b].needs == h[b].needs && k[b] == g[b].(needs := k[b].needs, defines := k[b].defines)
    {
      assert h[b] == g[b].(needs := h[b].needs);
    }
    forall b: BlockId, p | b < |k| && b in done
      ensures p in k[b].defines <==> p in g[b].defines && UsedByChild(k, b, p)
    {
      assert UsedByChild(k, b, p) == UsedByChild(h, b, p);
    }
  }
}
