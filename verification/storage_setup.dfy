/** set_up_storage (storage.c): two slots share a storage exactly if the flow of pseudos
    along edges and phi-sources with several users make them. */
module StorageSetup {
  import opened Options
  import opened Ir
  import opened Semantics
  import opened Graph
  import opened Equivalence
  import opened Storage

  type SlotPair = (Slot, Slot)

  /** Slots with a storage are the same storage's exactly if the pairs connect them. */
  ghost predicate Represents(part: map<Slot, nat>, pairs: set<SlotPair>) {
    && (forall p :: p in pairs ==> p.0 in part && p.1 in part)
    && (forall a, b :: a in part && b in part ==> (part[a] == part[b] <==> Connected(pairs, a, b)))
  }

  lemma FreshSlot(part: map<Slot, nat>, pairs: set<SlotPair>, y: Slot, f: nat, part': map<Slot, nat>)
    requires Represents(part, pairs) && y !in part && f !in part.Values && part' == part[y := f]
    ensures Represents(part', pairs)
  {
    forall a, b | a in part' && b in part' ensures part'[a] == part'[b] <==> Connected(pairs, a, b) {
      if a == y || b == y {
        if a == b {
          ConnectedSelf(pairs, a);
        } else if Connected(pairs, a, b) {
          Alone(pairs, y, if a == y then b else a);
        }
      }
    }
  }

  /** A new slot takes the storage of one that has one. */
  lemma SlotJoins(part: map<Slot, nat>, pairs: set<SlotPair>, x: Slot, y: Slot, part': map<Slot, nat>)
    requires Represents(part, pairs) && x in part && y !in part && part' == part[y := part[x]]
    ensures Represents(part', pairs + {(x, y)}) && Represents(part', pairs + {(y, x)})
  {
    ConnectedSelf(pairs, y);
    forall a, b | a in part' && b in part'
      ensures part'[a] == part'[b] <==> Connected(pairs + {(x, y)}, a, b)
      ensures part'[a] == part'[b] <==> Connected(pairs + {(y, x)}, a, b)
    {
      OneMorePair(pairs, x, y, pairs + {(x, y)}, a, b);
      OneMorePair(pairs, y, x, pairs + {(y, x)}, a, b);
      JoinedClass(part, pairs, x, y, a, b);
    }
  }

  lemma JoinedClass(part: map<Slot, nat>, pairs: set<SlotPair>, x: Slot, y: Slot, a: Slot, b: Slot)
    requires Represents(part, pairs) && x in part && y !in part && (a in part || a == y) && (b in part || b == y)
    ensures part[y := part[x]][a] == part[y := part[x]][b] <==> ThroughPair(pairs, x, y, a, b)
  {
    ConnectedSelf(pairs, y);
    AloneOr(pairs, y, a);
    AloneOr(pairs, y, b);
    if a == y && b == y {
    } else if a == y {
      assert part[x] == part[b] <==> Connected(pairs, x, b);
    } else if b == y {
      assert part[a] == part[x] <==> Connected(pairs, a, x);
    }
  }

  lemma AloneOr(pairs: set<SlotPair>, y: Slot, a: Slot)
    requires forall p :: p in pairs ==> p.0 != y && p.1 != y
    ensures Connected(pairs, y, a) || Connected(pairs, a, y) ==> a == y
  {
    if Connected(pairs, y, a) || Connected(pairs, a, y) {
      Alone(pairs, y, a);
    }
  }

  /** Two storages become one. */
  lemma ClassesMerge(part: map<Slot, nat>, pairs: set<SlotPair>, x: Slot, y: Slot, part': map<Slot, nat>)
    requires Represents(part, pairs) && x in part && y in part && part[x] != part[y]
    requires part' == Merged(part, part[x], part[y]) || part' == Merged(part, part[y], part[x])
    ensures Represents(part', pairs + {(x, y)})
  {
    forall a, b | a in part' && b in part' ensures part'[a] == part'[b] <==> Connected(pairs + {(x, y)}, a, b) {
      OneMorePair(pairs, x, y, pairs + {(x, y)}, a, b);
      assert part[a] == part[b] <==> Connected(pairs, a, b);
      assert part[a] == part[x] <==> Connected(pairs, a, x);
      assert part[a] == part[y] <==> Connected(pairs, a, y);
      assert part[y] == part[b] <==> Connected(pairs, y, b);
      assert part[x] == part[b] <==> Connected(pairs, x, b);
    }
  }

  lemma ClassStays(part: map<Slot, nat>, pairs: set<SlotPair>, x: Slot, y: Slot)
    requires Represents(part, pairs) && x in part && y in part && part[x] == part[y]
    ensures Represents(part, pairs + {(x, y)})
  {
    forall a, b | a in part && b in part ensures part[a] == part[b] <==> Connected(pairs + {(x, y)}, a, b) {
      OneMorePair(pairs, x, y, pairs + {(x, y)}, a, b);
      assert part[a] == part[b] <==> Connected(pairs, a, b);
      assert part[a] == part[x] <==> Connected(pairs, a, x);
      assert part[a] == part[y] <==> Connected(pairs, a, y);
      assert part[y] == part[b] <==> Connected(pairs, y, b);
      assert part[x] == part[b] <==> Connected(pairs, x, b);
    }
  }

  // ---------------------------------------------------------------------------
  // One pair of slots
  // ---------------------------------------------------------------------------

  /** The slots of `keys` have storages, as the pairs demand. */
  ghost function Classes(part: map<Slot, nat>, pairs: set<SlotPair>): Option<set<Slot>> {
    if Represents(part, pairs) then Some(part.Keys) else None
  }

  ghost predicate Holds(table: StorageTable, pairs: set<SlotPair>, keys: set<Slot>)
    reads table
  {
    table.Valid() && Classes(table.Part(), pairs) == Some(keys)
  }

  lemma ClassesAre(part: map<Slot, nat>, pairs: set<SlotPair>, keys: set<Slot>)
    requires Represents(part, pairs) && part.Keys == keys
    ensures Classes(part, pairs) == Some(keys)
  {
  }

  /** A slot without a storage takes that of another. */
  method Share(table: StorageTable, x: Slot, y: Slot, storage: nat, ghost pairs: set<SlotPair>, ghost keys: set<Slot>)
    returns (ghost keysNow: set<Slot>)
    requires Holds(table, pairs, keys) && x in keys && y !in keys && table.Part()[x] == storage
    modifies table
    ensures Holds(table, pairs + {(x, y)}, keysNow) && Holds(table, pairs + {(y, x)}, keysNow) && keysNow == keys + {y}
  {
    ghost var part := table.Part();
    PartBound(table, x);
    table.AddStorage(storage, y);
    keysNow := table.Part().Keys;
    SlotJoins(part, pairs, x, y, table.Part());
  }

  /** Two slots with different storages get the same. */
  method Combine(table: StorageTable, ghost x: Slot, ghost y: Slot, src: nat, dst: nat,
                 ghost pairs: set<SlotPair>, ghost keys: set<Slot>)
    requires Holds(table, pairs, keys) && x in keys && y in keys && src != dst
    requires (table.Part()[x] == src && table.Part()[y] == dst) || (table.Part()[x] == dst && table.Part()[y] == src)
    modifies table
    ensures Holds(table, pairs + {(x, y)}, keys) && y in table.Part() && table.Part()[y] == dst
  {
    ghost var part := table.Part();
    PartBound(table, x);
    PartBound(table, y);
    table.CombineStorage(src, dst);
    ClassesCombined(part, pairs, keys, x, y, src, dst, table.Part());
  }

  lemma ClassesCombined(part: map<Slot, nat>, pairs: set<SlotPair>, keys: set<Slot>, x: Slot, y: Slot, src: nat,
                        dst: nat, part': map<Slot, nat>)
    requires Classes(part, pairs) == Some(keys) && x in keys && y in keys && src != dst
    requires (part[x] == src && part[y] == dst) || (part[x] == dst && part[y] == src)
    requires part' == Merged(part, src, dst)
    ensures Classes(part', pairs + {(x, y)}) == Some(keys) && y in part' && part'[y] == dst
  {
    ClassesMerge(part, pairs, x, y, part');
    ClassesAre(part', pairs + {(x, y)}, keys);
  }

  /** A slot gets a storage of its own. */
  method AddFresh(table: StorageTable, x: Slot, kind: StorageType, ghost pairs: set<SlotPair>, ghost keys: set<Slot>)
    returns (storage: nat, ghost keysNow: set<Slot>)
    requires Holds(table, pairs, keys) && x !in keys
    modifies table
    ensures Holds(table, pairs, keysNow) && keysNow == keys + {x} && table.Part()[x] == storage
    ensures table.Part() == old(table.Part())[x := storage] && storage == |old(table.storages)|
    ensures Kinds(table) == old(Kinds(table)) + [kind]
  {
    ghost var part := table.Part();
    storage := table.AllocStorage(kind);
    ghost var kinds := Kinds(table);
    table.AddStorage(storage, x);
    assert Kinds(table) == kinds;
    keysNow := table.Part().Keys;
    FreshSlot(part, pairs, x, storage, table.Part());
  }

  function KindsOf(storages: seq<StorageInfo>): (kinds: seq<StorageType>)
    ensures |kinds| == |storages| && forall s :: 0 <= s < |kinds| ==> kinds[s] == storages[s].kind
  {
    seq(|storages|, s requires 0 <= s < |storages| => storages[s].kind)
  }

  function Kinds(table: StorageTable): seq<StorageType>
    reads table
  {
    KindsOf(table.storages)
  }

  /** One need of a child, in set_up_bb_storage. */
  method SetUpNeed(table: StorageTable, outSlot: Slot, inSlot: Slot, ghost pairs: set<SlotPair>, ghost keys: set<Slot>)
    returns (ghost now: set<SlotPair>, ghost keysNow: set<Slot>)
    requires Holds(table, pairs, keys) && outSlot != inSlot
    modifies table
    ensures Holds(table, now, keysNow) && now == pairs + {(outSlot, inSlot)} && keysNow == keys + {outSlot, inSlot}
  {
    now, keysNow := pairs + {(outSlot, inSlot)}, keys;
    var parentOut := table.LookupStorage(outSlot);
    var childIn := table.LookupStorage(inSlot);
    BothThere(keys, outSlot, inSlot);
    if parentOut.Some? {
      if childIn.None? {
        keysNow := Share(table, outSlot, inSlot, parentOut.value, pairs, keys);
        return;
      }
      if parentOut == childIn {
        ClassStays(table.Part(), pairs, outSlot, inSlot);
        return;
      }
      Combine(table, outSlot, inSlot, parentOut.value, childIn.value, pairs, keys);
      return;
    }
    if childIn.Some? {
      keysNow := Share(table, inSlot, outSlot, childIn.value, pairs, keys);
      return;
    }
    keysNow := ShareNew(table, outSlot, inSlot, pairs, keys);
  }

  /** Adding two slots of which one or both are there. */
  lemma BothThere(keys: set<Slot>, x: Slot, y: Slot)
    ensures x in keys ==> keys + {x, y} == keys + {y}
    ensures y in keys ==> keys + {x, y} == keys + {x}
    ensures x in keys && y in keys ==> keys + {x, y} == keys
  {
  }

  lemma TwoMore(keys: set<Slot>, x: Slot, y: Slot)
    ensures keys + {x} + {y} == keys + {x, y}
  {
  }

  /** Two slots without storages get a new one. */
  method ShareNew(table: StorageTable, x: Slot, y: Slot, ghost pairs: set<SlotPair>, ghost keys: set<Slot>)
    returns (ghost keysNow: set<Slot>)
    requires Holds(table, pairs, keys) && x !in keys && y !in keys && x != y
    modifies table
    ensures Holds(table, pairs + {(x, y)}, keysNow) && keysNow == keys + {x, y}
  {
    var storage;
    ghost var keys1;
    storage, keys1 := AddFresh(table, x, REG_UDEF, pairs, keys);
    assert x in keys1 && y !in keys1;
    TwoMore(keys, x, y);
    keysNow := Share(table, x, y, storage, pairs, keys1);
  }

  lemma PartBound(table: StorageTable, slot: Slot)
    requires table.Valid() && slot in table.Part()
    ensures table.Part()[slot] < |table.storages|
  {
  }

  // ---------------------------------------------------------------------------
  // A block's edges
  // ---------------------------------------------------------------------------

  function NeedPairs(bb: BlockId, child: BlockId, needs: seq<Pseudo>): set<SlotPair> {
    set p | p in needs :: (Slot(bb, p, true), Slot(child, p, false))
  }

  function ChildPairs(g: Code, bb: BlockId, children: seq<BlockId>): set<SlotPair> {
    set c, p | c in children && c < |g| && p in g[c].needs :: (Slot(bb, p, true), Slot(c, p, false))
  }

  function Ends(pairs: set<SlotPair>): set<Slot> {
    (set p | p in pairs :: p.0) + (set p | p in pairs :: p.1)
  }

  lemma EndsOne(pairs: set<SlotPair>, a: Slot, b: Slot, more: set<SlotPair>)
    requires more == pairs + {(a, b)}
    ensures Ends(more) == Ends(pairs) + {a, b}
  {
    forall s ensures s in Ends(more) <==> s in Ends(pairs) + {a, b} {
      if s == a || s == b {
        assert (a, b) in more;
      }
    }
  }

  lemma EndsUnion(a: set<SlotPair>, b: set<SlotPair>)
    ensures Ends(a + b) == Ends(a) + Ends(b)
  {
  }

  /** What the first of the needs add. */
  ghost predicate NeedsDone(bb: BlockId, child: BlockId, needs: seq<Pseudo>, pairs: set<SlotPair>, keys: set<Slot>,
                            now: set<SlotPair>, keysNow: set<Slot>) {
    now == pairs + NeedPairs(bb, child, needs) && keysNow == keys + Ends(NeedPairs(bb, child, needs))
  }

  lemma NoNeedsDone(bb: BlockId, child: BlockId, pairs: set<SlotPair>, keys: set<Slot>)
    ensures NeedsDone(bb, child, [], pairs, keys, pairs, keys)
  {
    assert NeedPairs(bb, child, []) == {};
  }

  lemma MoreNeedsDone(bb: BlockId, child: BlockId, needs: seq<Pseudo>, i: nat, next: nat, pairs: set<SlotPair>,
                      keys: set<Slot>, now: set<SlotPair>, keysNow: set<Slot>, a: Slot, b: Slot)
    requires i < |needs| && next == i + 1 && NeedsDone(bb, child, needs[..i], pairs, keys, now, keysNow)
    requires a == Slot(bb, needs[i], true) && b == Slot(child, needs[i], false)
    ensures NeedsDone(bb, child, needs[..next], pairs, keys, now + {(a, b)}, keysNow + {a, b})
  {
    Extended(needs, i, needs[..next]);
    OneMoreNeed(bb, child, needs[..i], needs[i], needs[..next]);
  }

  method SetUpChild(table: StorageTable, bb: BlockId, child: BlockId, needs: seq<Pseudo>,
                    ghost pairs: set<SlotPair>, ghost keys: set<Slot>)
    returns (ghost now: set<SlotPair>, ghost keysNow: set<Slot>)
    requires Holds(table, pairs, keys)
    modifies table
    ensures Holds(table, now, keysNow) && NeedsDone(bb, child, needs, pairs, keys, now, keysNow)
  {
    now, keysNow := pairs, keys;
    NoNeedsDone(bb, child, pairs, keys);
    var i := 0;
    while i < |needs|
      invariant i <= |needs| && Holds(table, now, keysNow)
      invariant NeedsDone(bb, child, needs[..i], pairs, keys, now, keysNow)
    {
      var a, b, next := Slot(bb, needs[i], true), Slot(child, needs[i], false), i + 1;
      MoreNeedsDone(bb, child, needs, i, next, pairs, keys, now, keysNow, a, b);
      now, keysNow := SetUpNeed(table, a, b, now, keysNow);
      i := next;
    }
    WholePrefix(needs, i);
  }

  lemma WholePrefix<T>(s: seq<T>, i: nat)
    requires i == |s|
    ensures s[..i] == s
  {
  }

  lemma Extended<T>(s: seq<T>, i: nat, more: seq<T>)
    requires i < |s| && more == s[..i + 1]
    ensures more == s[..i] + [s[i]]
  {
  }

  lemma OneMoreNeed(bb: BlockId, child: BlockId, needs: seq<Pseudo>, p: Pseudo, more: seq<Pseudo>)
    requires more == needs + [p]
    ensures NeedPairs(bb, child, more) == NeedPairs(bb, child, needs) + {(Slot(bb, p, true), Slot(child, p, false))}
    ensures Ends(NeedPairs(bb, child, more)) ==
              Ends(NeedPairs(bb, child, needs)) + {Slot(bb, p, true), Slot(child, p, false)}
  {
    EndsOne(NeedPairs(bb, child, needs), Slot(bb, p, true), Slot(child, p, false), NeedPairs(bb, child, more));
  }

  ghost predicate ChildrenDone(g: Code, bb: BlockId, children: seq<BlockId>, pairs: set<SlotPair>, keys: set<Slot>,
                               now: set<SlotPair>, keysNow: set<Slot>) {
    now == pairs + ChildPairs(g, bb, children) && keysNow == keys + Ends(ChildPairs(g, bb, children))
  }

  lemma NoChildrenDone(g: Code, bb: BlockId, pairs: set<SlotPair>, keys: set<Slot>)
    ensures ChildrenDone(g, bb, [], pairs, keys, pairs, keys)
  {
    assert ChildPairs(g, bb, []) == {};
  }

  lemma MoreChildrenDone(g: Code, bb: BlockId, children: seq<BlockId>, i: nat, next: nat, child: BlockId,
                         pairs: set<SlotPair>, keys: set<Slot>, now: set<SlotPair>, keysNow: set<Slot>,
                         now': set<SlotPair>, keysNow': set<Slot>)
    requires i < |children| && next == i + 1 && child == children[i] < |g|
    requires ChildrenDone(g, bb, children[..i], pairs, keys, now, keysNow)
    requires NeedsDone(bb, child, g[child].needs, now, keysNow, now', keysNow')
    ensures ChildrenDone(g, bb, children[..next], pairs, keys, now', keysNow')
  {
    Extended(children, i, children[..next]);
    OneMoreChild(g, bb, children[..i], child, children[..next]);
  }

  /** set_up_bb_storage */
  method SetUpBbStorage(blocks: Code, table: StorageTable, bb: BlockId, ghost pairs: set<SlotPair>,
                        ghost keys: set<Slot>)
    returns (ghost now: set<SlotPair>, ghost keysNow: set<Slot>)
    requires Holds(table, pairs, keys) && bb < |blocks| && ChildrenIn(blocks, bb)
    modifies table
    ensures Holds(table, now, keysNow)
    ensures ChildrenDone(blocks, bb, blocks[bb].children, pairs, keys, now, keysNow)
  {
    var children := blocks[bb].children;
    now, keysNow := pairs, keys;
    NoChildrenDone(blocks, bb, pairs, keys);
    var i := 0;
    while i < |children|
      invariant i <= |children| && Holds(table, now, keysNow)
      invariant ChildrenDone(blocks, bb, children[..i], pairs, keys, now, keysNow)
    {
      i, now, keysNow := SetUpNextChild(blocks, table, bb, children, i, pairs, keys, now, keysNow);
    }
    WholePrefix(children, i);
  }

  method SetUpNextChild(blocks: Code, table: StorageTable, bb: BlockId, children: seq<BlockId>, i: nat,
                        ghost pairs: set<SlotPair>, ghost keys: set<Slot>, ghost now0: set<SlotPair>,
                        ghost keysNow0: set<Slot>)
    returns (next: nat, ghost now: set<SlotPair>, ghost keysNow: set<Slot>)
    requires Holds(table, now0, keysNow0) && i < |children| && children[i] < |blocks|
    requires ChildrenDone(blocks, bb, children[..i], pairs, keys, now0, keysNow0)
    modifies table
    ensures next == i + 1 && Holds(table, now, keysNow)
    ensures ChildrenDone(blocks, bb, children[..next], pairs, keys, now, keysNow)
  {
    var child := children[i];
    next := i + 1;
    now, keysNow := SetUpChild(table, bb, child, blocks[child].needs, now0, keysNow0);
    MoreChildrenDone(blocks, bb, children, i, next, child, pairs, keys, now0, keysNow0, now, keysNow);
  }

  predicate ChildrenIn(g: Code, b: BlockId) {
    b < |g| && forall i :: 0 <= i < |g[b].children| ==> g[b].children[i] < |g|
  }

  lemma OneMoreChild(g: Code, bb: BlockId, children: seq<BlockId>, child: BlockId, more: seq<BlockId>)
    requires more == children + [child] && child < |g|
    ensures ChildPairs(g, bb, more) == ChildPairs(g, bb, children) + NeedPairs(bb, child, g[child].needs)
    ensures Ends(ChildPairs(g, bb, more)) ==
              Ends(ChildPairs(g, bb, children)) + Ends(NeedPairs(bb, child, g[child].needs))
  {
    EndsUnion(ChildPairs(g, bb, children), NeedPairs(bb, child, g[child].needs));
  }

  // ---------------------------------------------------------------------------
  // Phi-sources with several users
  // ---------------------------------------------------------------------------

  /** The pseudos that leave the block. */
  ghost function Leaving(g: Code, bb: BlockId): set<Pseudo>
    requires bb < |g|
  {
    set c, p | c in g[bb].children && c < |g| && p in g[c].needs :: p
  }

  function Present(list: seq<Pseudo>, leaving: set<Pseudo>): (r: seq<Pseudo>)
    ensures forall p :: p in r ==> p in leaving
  {
    if |list| == 0 then []
    else
      Present(list[..|list| - 1], leaving) + if list[|list| - 1] in leaving then [list[|list| - 1]] else []
  }

  /** Neighbours in the list of phi targets that one phi-source feeds. */
  function Neighbours(bb: BlockId, targets: seq<Pseudo>): set<SlotPair> {
    if |targets| < 2 then {}
    else
      Neighbours(bb, targets[..|targets| - 1])
      + {(Slot(bb, targets[|targets| - 2], true), Slot(bb, targets[|targets| - 1], true))}
  }

  /** The storage last seen is that of the last target. */
  ghost predicate LastSeen(table: StorageTable, bb: BlockId, seen: seq<Pseudo>, last: Option<nat>)
    reads table
  {
    table.Valid() &&
    if |seen| == 0 then last == None
    else
      var slot := Slot(bb, seen[|seen| - 1], true);
      slot in table.Part() && last == Some(table.Part()[slot])
  }

  lemma NeighboursMore(bb: BlockId, seen: seq<Pseudo>, p: Pseudo, more: seq<Pseudo>)
    requires more == seen + [p]
    ensures Neighbours(bb, more) ==
            if |seen| == 0 then {} else Neighbours(bb, seen) + {(Slot(bb, seen[|seen| - 1], true), Slot(bb, p, true))}
  {
    assert more[..|more| - 1] == seen;
  }

  /** A target after another: both leave the block in the same storage. */
  method JoinLast(table: StorageTable, ghost before: Slot, ghost slot: Slot, storage: nat, last: nat,
                  ghost pairs: set<SlotPair>, ghost keys: set<Slot>)
    returns (now: nat)
    requires Holds(table, pairs, keys) && before in keys && slot in keys
    requires table.Part()[before] == last && table.Part()[slot] == storage
    modifies table
    ensures Holds(table, pairs + {(before, slot)}, keys) && slot in table.Part() && table.Part()[slot] == now
  {
    now := storage;
    if storage != last {
      Combine(table, before, slot, storage, last, pairs, keys);
      now := last;
    } else {
      ClassStays(table.Part(), pairs, before, slot);
    }
  }

  /** A block has a slot on leaving it for exactly what leaves it. */
  ghost predicate OutsAre(bb: BlockId, keys: set<Slot>, leaving: set<Pseudo>) {
    forall q {:trigger Slot(bb, q, true)} :: Slot(bb, q, true) in keys <==> q in leaving
  }

  /** One target of the list. */
  method CombineTarget(table: StorageTable, bb: BlockId, p: Pseudo, last: Option<nat>, ghost seen: seq<Pseudo>,
                       ghost leaving: set<Pseudo>, ghost pairs: set<SlotPair>, ghost keys: set<Slot>)
    returns (now: Option<nat>, ghost seenNow: seq<Pseudo>, ghost pairsNow: set<SlotPair>)
    requires Holds(table, pairs, keys) && LastSeen(table, bb, seen, last)
    requires Slot(bb, p, true) in keys <==> p in leaving
    modifies table
    ensures Holds(table, pairsNow, keys) && LastSeen(table, bb, seenNow, now)
    ensures seenNow == if p in leaving then seen + [p] else seen
    ensures pairsNow ==
              if p in leaving && |seen| > 0 then pairs + {(Slot(bb, seen[|seen| - 1], true), Slot(bb, p, true))}
              else pairs
  {
    var slot := Slot(bb, p, true);
    now, seenNow, pairsNow := last, seen, pairs;
    var storage := table.LookupStorage(slot);
    if storage.None? {
      return;
    }
    seenNow := seen + [p];
    var target := storage.value;
    if last.Some? {
      ghost var before := Slot(bb, seen[|seen| - 1], true);
      pairsNow := pairs + {(before, slot)};
      target := JoinLast(table, before, slot, storage.value, last.value, pairs, keys);
    }
    now := Some(target);
    NowLast(table, bb, seen, p, slot, target, seenNow);
  }

  lemma NowLast(table: StorageTable, bb: BlockId, seen: seq<Pseudo>, p: Pseudo, slot: Slot, storage: nat,
                seenNow: seq<Pseudo>)
    requires table.Valid() && slot == Slot(bb, p, true) && slot in table.Part() && table.Part()[slot] == storage
    requires seenNow == seen + [p]
    ensures LastSeen(table, bb, seenNow, Some(storage))
  {
  }

  ghost predicate TargetsDone(bb: BlockId, list: seq<Pseudo>, leaving: set<Pseudo>, seen: seq<Pseudo>,
                              pairs: set<SlotPair>, now: set<SlotPair>) {
    seen == Present(list, leaving) && now == pairs + Neighbours(bb, seen)
  }

  lemma MoreTargetsDone(bb: BlockId, list: seq<Pseudo>, i: nat, next: nat, leaving: set<Pseudo>, seen: seq<Pseudo>,
                        seen': seq<Pseudo>, pairs: set<SlotPair>, now: set<SlotPair>, now': set<SlotPair>)
    requires i < |list| && next == i + 1 && TargetsDone(bb, list[..i], leaving, seen, pairs, now)
    requires seen' == if list[i] in leaving then seen + [list[i]] else seen
    requires now' == if list[i] in leaving && |seen| > 0
             then now + {(Slot(bb, seen[|seen| - 1], true), Slot(bb, list[i], true))} else now
    ensures TargetsDone(bb, list[..next], leaving, seen', pairs, now')
  {
    assert list[..next][..i] == list[..i] && list[..next][i] == list[i];
    NeighboursMore(bb, seen, list[i], seen + [list[i]]);
  }

  ghost predicate InTargets(table: StorageTable, bb: BlockId, list: seq<Pseudo>, leaving: set<Pseudo>,
                            last: Option<nat>, seen: seq<Pseudo>, pairs: set<SlotPair>, now: set<SlotPair>,
                            keys: set<Slot>)
    reads table
  {
    Holds(table, now, keys) && LastSeen(table, bb, seen, last) && TargetsDone(bb, list, leaving, seen, pairs, now)
  }

  lemma StartTargets(table: StorageTable, bb: BlockId, list: seq<Pseudo>, leaving: set<Pseudo>, pairs: set<SlotPair>,
                     keys: set<Slot>)
    requires Holds(table, pairs, keys)
    ensures InTargets(table, bb, list[..0], leaving, None, [], pairs, pairs, keys)
  {
  }

  method NextTarget(table: StorageTable, bb: BlockId, list: seq<Pseudo>, i: nat, last0: Option<nat>,
                    ghost seen0: seq<Pseudo>, ghost leaving: set<Pseudo>, ghost pairs: set<SlotPair>,
                    ghost now0: set<SlotPair>, ghost keys: set<Slot>)
    returns (next: nat, last: Option<nat>, ghost seen: seq<Pseudo>, ghost now: set<SlotPair>)
    requires i < |list| && InTargets(table, bb, list[..i], leaving, last0, seen0, pairs, now0, keys)
    requires OutsAre(bb, keys, leaving)
    modifies table
    ensures next == i + 1 && InTargets(table, bb, list[..next], leaving, last, seen, pairs, now, keys)
  {
    next := i + 1;
    last, seen, now := CombineTarget(table, bb, list[i], last0, seen0, leaving, now0, keys);
    MoreTargetsDone(bb, list, i, next, leaving, seen0, seen, pairs, now0, now);
  }

  /** The storages for the targets of one phi-source are combined. */
  method CombineTargets(table: StorageTable, bb: BlockId, list: seq<Pseudo>, ghost leaving: set<Pseudo>,
                        ghost pairs: set<SlotPair>, ghost keys: set<Slot>)
    returns (ghost now: set<SlotPair>)
    requires Holds(table, pairs, keys) && OutsAre(bb, keys, leaving)
    modifies table
    ensures Holds(table, now, keys) && now == pairs + Neighbours(bb, Present(list, leaving))
  {
    var last: Option<nat>, i := None, 0;
    ghost var seen;
    now, seen := pairs, [];
    StartTargets(table, bb, list, leaving, pairs, keys);
    while i < |list|
      invariant i <= |list| && InTargets(table, bb, list[..i], leaving, last, seen, pairs, now, keys)
    {
      i, last, seen, now := NextTarget(table, bb, list, i, last, seen, leaving, pairs, now, keys);
    }
    WholePrefix(list, i);
  }

  /** The pairs that the phi-sources among the first n instructions demand. */
  function PhiPairs(g: Code, bb: BlockId, phiUsers: (BlockId, nat) -> seq<Pseudo>, leaving: set<Pseudo>,
                    n: nat): set<SlotPair>
    requires bb < |g| && n <= |g[bb].insns|
  {
    if n == 0 then {}
    else
      PhiPairs(g, bb, phiUsers, leaving, n - 1)
      + if g[bb].insns[n - 1].PhiSource? then Neighbours(bb, Present(phiUsers(bb, n - 1), leaving)) else {}
  }

  /** combine_phi_storage */
  method CombinePhiStorage(blocks: Code, table: StorageTable, bb: BlockId, phiUsers: (BlockId, nat) -> seq<Pseudo>,
                           ghost leaving: set<Pseudo>, ghost pairs: set<SlotPair>, ghost keys: set<Slot>)
    returns (ghost now: set<SlotPair>)
    requires bb < |blocks| && Holds(table, pairs, keys) && OutsAre(bb, keys, leaving)
    modifies table
    ensures Holds(table, now, keys) && now == pairs + PhiPairs(blocks, bb, phiUsers, leaving, |blocks[bb].insns|)
  {
    now := pairs;
    var i := 0;
    while i < |blocks[bb].insns|
      invariant i <= |blocks[bb].insns| && Holds(table, now, keys)
      invariant now == pairs + PhiPairs(blocks, bb, phiUsers, leaving, i)
    {
      var insn, next := blocks[bb].insns[i], i + 1;
      ghost var now0 := now;
      if insn.PhiSource? {
        now := CombineTargets(table, bb, phiUsers(bb, i), leaving, now, keys);
      }
      MorePhiPairs(blocks, bb, phiUsers, leaving, i, next, pairs, now0, now);
      i := next;
    }
  }

  lemma MorePhiPairs(g: Code, bb: BlockId, phiUsers: (BlockId, nat) -> seq<Pseudo>, leaving: set<Pseudo>, i: nat,
                     next: nat, pairs: set<SlotPair>, now: set<SlotPair>, now': set<SlotPair>)
    requires bb < |g| && i < |g[bb].insns| && next == i + 1 && now == pairs + PhiPairs(g, bb, phiUsers, leaving, i)
    requires now' == if g[bb].insns[i].PhiSource? then now + Neighbours(bb, Present(phiUsers(bb, i), leaving)) else now
    ensures now' == pairs + PhiPairs(g, bb, phiUsers, leaving, next)
  {
  }

  // ---------------------------------------------------------------------------
  // The whole function
  // ---------------------------------------------------------------------------

  /** Everything that the blocks of the list demand. */
  ghost function Demands(g: Code, bbs: seq<BlockId>, phiUsers: (BlockId, nat) -> seq<Pseudo>): set<SlotPair> {
    if |bbs| == 0 then {}
    else
      var front, bb := Demands(g, bbs[..|bbs| - 1], phiUsers), bbs[|bbs| - 1];
      if bb < |g| then
        front + ChildPairs(g, bb, g[bb].children) + PhiPairs(g, bb, phiUsers, Leaving(g, bb), |g[bb].insns|)
      else front
  }

  /** The arguments of the function, and what flows along the edges of the blocks. */
  ghost function Slots(g: Code, e: BlockId, bbs: seq<BlockId>): set<Slot>
    requires e < |g|
  {
    if |bbs| == 0 then NeedSlots(e, g[e].needs)
    else
      var front, bb := Slots(g, e, bbs[..|bbs| - 1]), bbs[|bbs| - 1];
      if bb < |g| then front + Ends(ChildPairs(g, bb, g[bb].children)) else front
  }

  /** After its edges are done, exactly what leaves a block has a slot on leaving it. */
  lemma {:induction false} OutSlots(g: Code, e: BlockId, bbs: seq<BlockId>, b: BlockId, p: Pseudo)
    requires e < |g| && b < |g|
    ensures Slot(b, p, true) in Slots(g, e, bbs) <==> b in bbs && p in Leaving(g, b)
  {
    if |bbs| > 0 {
      var front, bb := bbs[..|bbs| - 1], bbs[|bbs| - 1];
      OutSlots(g, e, front, b, p);
      assert bbs == front + [bb];
      if bb < |g| {
        OutEnds(g, bb, b, p);
      }
    }
  }

  lemma OutEnds(g: Code, bb: BlockId, b: BlockId, p: Pseudo)
    requires bb < |g|
    ensures Slot(b, p, true) in Ends(ChildPairs(g, bb, g[bb].children)) <==> b == bb && p in Leaving(g, bb)
  {
    if b == bb && p in Leaving(g, bb) {
      var c :| c in g[bb].children && c < |g| && p in g[c].needs;
      assert (Slot(bb, p, true), Slot(c, p, false)) in ChildPairs(g, bb, g[bb].children);
    }
  }

  function NeedSlots(bb: BlockId, ps: seq<Pseudo>): set<Slot> {
    set p | p in ps :: Slot(bb, p, false)
  }

  lemma OneMoreArgument(bb: BlockId, needs: seq<Pseudo>, i: nat, next: nat, p: Pseudo)
    requires i < |needs| && next == i + 1 && needs[i] == p
    requires forall i, j :: 0 <= i < j < |needs| ==> needs[i] != needs[j]
    ensures NeedSlots(bb, needs[..next]) == NeedSlots(bb, needs[..i]) + {Slot(bb, p, false)}
    ensures Slot(bb, p, false) !in NeedSlots(bb, needs[..i])
  {
    assert needs[..next] == needs[..i] + [p];
  }

  /** A pseudo that the function gets has a storage of its own: an argument's place if it is
      an argument. */
  predicate ArgumentIn(bb: BlockId, p: Pseudo, part: map<Slot, nat>, kinds: seq<StorageType>) {
    && Slot(bb, p, false) in part && part[Slot(bb, p, false)] < |kinds|
    && kinds[part[Slot(bb, p, false)]] == if p.Arg? then REG_ARG(p.nr) else REG_UDEF
  }

  predicate ArgumentsIn(bb: BlockId, ps: seq<Pseudo>, part: map<Slot, nat>, kinds: seq<StorageType>) {
    forall p :: p in ps ==> ArgumentIn(bb, p, part, kinds)
  }

  lemma OneMoreArgumentIn(bb: BlockId, needs: seq<Pseudo>, i: nat, next: nat, arg: Pseudo, part: map<Slot, nat>,
                          kinds: seq<StorageType>, part': map<Slot, nat>, kinds': seq<StorageType>, storage: nat)
    requires i < |needs| && next == i + 1 && needs[i] == arg && ArgumentsIn(bb, needs[..i], part, kinds)
    requires part' == part[Slot(bb, arg, false) := storage] && storage == |kinds|
    requires kinds' == kinds + [if arg.Arg? then REG_ARG(arg.nr) else REG_UDEF]
    ensures ArgumentsIn(bb, needs[..next], part', kinds')
  {
    assert needs[..next] == needs[..i] + [arg];
    forall p | p in needs[..next] ensures ArgumentIn(bb, p, part', kinds') {
      if p != arg {
        assert ArgumentIn(bb, p, part, kinds);
      }
    }
  }

  /** set_up_argument_storage */
  method SetUpArgumentStorage(blocks: Code, table: StorageTable, bb: BlockId) returns (ghost keys: set<Slot>)
    requires bb < |blocks| && Holds(table, {}, {})
    requires forall i, j :: 0 <= i < j < |blocks[bb].needs| ==> blocks[bb].needs[i] != blocks[bb].needs[j]
    modifies table
    ensures Holds(table, {}, keys) && keys == NeedSlots(bb, blocks[bb].needs)
    ensures forall p :: p in blocks[bb].needs ==> ArgumentIn(bb, p, table.Part(), Kinds(table))
  {
    keys := {};
    var needs := blocks[bb].needs;
    var i := 0;
    while i < |needs|
      invariant i <= |needs| && Holds(table, {}, keys) && keys == NeedSlots(bb, needs[..i])
      invariant ArgumentsIn(bb, needs[..i], table.Part(), Kinds(table))
    {
      var arg, next := needs[i], i + 1;
      OneMoreArgument(bb, needs, i, next, arg);
      var kind := if arg.Arg? then REG_ARG(arg.nr) else REG_UDEF;
      var storage;
      ghost var part, kinds := table.Part(), Kinds(table);
      storage, keys := AddFresh(table, Slot(bb, arg, false), kind, {}, keys);
      OneMoreArgumentIn(bb, needs, i, next, arg, part, kinds, table.Part(), Kinds(table), storage);
      i := next;
    }
    WholePrefix(needs, i);
  }

  lemma StartsEmpty(table: StorageTable)
    requires table.Valid() && table.Part() == map[]
    ensures Holds(table, {}, {})
  {
    var none: map<Slot, nat> := map[];
    assert Represents(none, {}) && none.Keys == {};
  }

  lemma DemandsMore(g: Code, e: BlockId, bbs: seq<BlockId>, i: nat, next: nat, bb: BlockId,
                    phiUsers: (BlockId, nat) -> seq<Pseudo>, a: set<SlotPair>, ka: set<Slot>, b: set<SlotPair>,
                    kb: set<Slot>, c: set<SlotPair>)
    requires e < |g| && i < |bbs| && next == i + 1 && bb == bbs[i] < |g|
    requires a == Demands(g, bbs[..i], phiUsers) && ka == Slots(g, e, bbs[..i])
    requires ChildrenDone(g, bb, g[bb].children, a, ka, b, kb)
    requires c == b + PhiPairs(g, bb, phiUsers, Leaving(g, bb), |g[bb].insns|)
    ensures c == Demands(g, bbs[..next], phiUsers) && kb == Slots(g, e, bbs[..next])
  {
    assert bbs[..next][..i] == bbs[..i] && bbs[..next][i] == bb;
  }

  /** One block of set_up_storage. */
  method SetUpNextBlock(blocks: Code, table: StorageTable, ghost e: BlockId, bbs: seq<BlockId>, i: nat,
                        phiUsers: (BlockId, nat) -> seq<Pseudo>, ghost pairs0: set<SlotPair>, ghost keys0: set<Slot>)
    returns (next: nat, ghost pairs: set<SlotPair>, ghost keys: set<Slot>)
    requires e < |blocks| && i < |bbs| && ChildrenIn(blocks, bbs[i]) && Holds(table, pairs0, keys0)
    requires pairs0 == Demands(blocks, bbs[..i], phiUsers) && keys0 == Slots(blocks, e, bbs[..i])
    modifies table
    ensures next == i + 1 && Holds(table, pairs, keys)
    ensures pairs == Demands(blocks, bbs[..next], phiUsers) && keys == Slots(blocks, e, bbs[..next])
  {
    var bb := bbs[i];
    next := i + 1;
    ghost var leaving := Leaving(blocks, bb);
    pairs, keys := SetUpBbStorage(blocks, table, bb, pairs0, keys0);
    DemandsMore(blocks, e, bbs, i, next, bb, phiUsers, pairs0, keys0, pairs, keys,
                pairs + PhiPairs(blocks, bb, phiUsers, leaving, |blocks[bb].insns|));
    forall q ensures Slot(bb, q, true) in keys <==> q in leaving {
      OutSlots(blocks, e, bbs[..next], bb, q);
      assert bbs[..next][i] == bb;
    }
    pairs := CombinePhiStorage(blocks, table, bb, phiUsers, leaving, pairs, keys);
  }

  /** set_up_storage: the slots with a storage are those of arguments and edges, and two of
      them have the same one exactly if the demands connect them. */
  method SetUpStorage(ep: EntryPoint, hash: Slot -> nat, phiUsers: (BlockId, nat) -> seq<Pseudo>)
    returns (table: StorageTable)
    requires ep.entry < |ep.blocks| && forall b :: b in ep.bbs ==> ChildrenIn(ep.blocks, b)
    requires var needs := ep.blocks[ep.entry].needs; forall i, j :: 0 <= i < j < |needs| ==> needs[i] != needs[j]
    ensures fresh(table) && table.Valid() && table.Part().Keys == Slots(ep.blocks, ep.entry, ep.bbs)
    ensures forall a, b :: a in table.Part() && b in table.Part() ==>
              (table.Part()[a] == table.Part()[b] <==> Connected(Demands(ep.blocks, ep.bbs, phiUsers), a, b))
  {
    table := new StorageTable(hash);
    StartsEmpty(table);
    var blocks, bbs, e := ep.blocks, ep.bbs, ep.entry;
    ghost var pairs: set<SlotPair> := {};
    ghost var keys := SetUpArgumentStorage(blocks, table, e);
    var i := 0;
    while i < |bbs|
      invariant i <= |bbs| && Holds(table, pairs, keys)
      invariant pairs == Demands(blocks, bbs[..i], phiUsers) && keys == Slots(blocks, e, bbs[..i])
    {
      assert bbs[i] in ep.bbs;
      i, pairs, keys := SetUpNextBlock(blocks, table, e, bbs, i, phiUsers, pairs, keys);
    }
    WholePrefix(bbs, i);
  }
}
