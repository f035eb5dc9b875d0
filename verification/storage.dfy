/** Storage for pseudos that live across blocks (storage.c): slots that must share a
    storage are merged, in a chained hash table. */
module Storage {
  import opened Options
  import opened Ir
  import opened Graph

  const MAX_STORAGE_HASH: nat := 64

  /** A pseudo on entry to a block (STOR_IN) or on leaving it (STOR_OUT). */
  datatype Slot = Slot(bb: BlockId, pseudo: Pseudo, out: bool)

  /** `struct storage_hash`: a slot and the number of its storage. */
  datatype HashEntry = HashEntry(slot: Slot, storage: nat)

  datatype StorageType = REG_UDEF | REG_ARG(regno: nat) | REG_BAD

  /** `struct storage`: the users are the entries that point to it. */
  datatype StorageInfo = StorageInfo(kind: StorageType, users: seq<nat>)

  function Bucket(hash: Slot -> nat, slot: Slot): (b: nat)
    ensures b < MAX_STORAGE_HASH
  {
    hash(slot) % MAX_STORAGE_HASH
  }

  /** Every slot has one entry, and every entry is in the bucket of its slot. */
  predicate Filed(hash: Slot -> nat, entries: seq<HashEntry>, buckets: seq<seq<nat>>, entryOf: map<Slot, nat>) {
    && |buckets| == MAX_STORAGE_HASH
    && (forall e {:trigger entries[e]} :: 0 <= e < |entries| ==>
          entries[e].slot in entryOf && entryOf[entries[e].slot] == e && e in buckets[Bucket(hash, entries[e].slot)])
    && (forall s {:trigger s in entryOf} :: s in entryOf ==> entryOf[s] < |entries| && entries[entryOf[s]].slot == s)
    && (forall b, i {:trigger buckets[b][i]} :: 0 <= b < |buckets| && 0 <= i < |buckets[b]| ==>
          buckets[b][i] < |entries|)
  }

  /** The users of a storage are exactly the entries that point to it. */
  predicate UsersAgree(entries: seq<HashEntry>, storages: seq<StorageInfo>) {
    && (forall e {:trigger entries[e]} :: 0 <= e < |entries| ==>
          entries[e].storage < |storages| && e in storages[entries[e].storage].users)
    && (forall s, e {:trigger e in storages[s].users} :: 0 <= s < |storages| && e in storages[s].users ==>
          e < |entries| && entries[e].storage == s)
  }

  lemma FiledOneMore(hash: Slot -> nat, entries: seq<HashEntry>, buckets: seq<seq<nat>>, entryOf: map<Slot, nat>,
                     slot: Slot, storage: nat, e: nat, b: nat, entries': seq<HashEntry>, buckets': seq<seq<nat>>,
                     entryOf': map<Slot, nat>)
    requires Filed(hash, entries, buckets, entryOf) && slot !in entryOf && e == |entries| && b == Bucket(hash, slot)
    requires entryOf' == entryOf[slot := e]
    requires entries' == entries + [HashEntry(slot, storage)] && buckets' == buckets[b := buckets[b] + [e]]
    ensures Filed(hash, entries', buckets', entryOf')
  {
    forall k | 0 <= k < |entries'|
      ensures var s := entries'[k].slot; s in entryOf' && entryOf'[s] == k && k in buckets'[Bucket(hash, s)]
    {
      if k < e {
        assert entries'[k] == entries[k] && k in buckets[Bucket(hash, entries[k].slot)];
      } else {
        assert buckets'[b][|buckets[b]|] == e;
      }
    }
    forall s | s in entryOf' ensures entryOf'[s] < |entries'| && entries'[entryOf'[s]].slot == s
    {
      assert s != slot ==> s in entryOf && entries[entryOf[s]].slot == s;
    }
    forall c, i | 0 <= c < |buckets'| && 0 <= i < |buckets'[c]| ensures buckets'[c][i] < |entries'| {
      assert i < |buckets[c]| ==> buckets'[c][i] == buckets[c][i];
    }
  }

  lemma UsersOneMore(entries: seq<HashEntry>, storages: seq<StorageInfo>, storage: nat, entry: HashEntry, e: nat,
                     entries': seq<HashEntry>, storages': seq<StorageInfo>)
    requires UsersAgree(entries, storages) && storage < |storages| && e == |entries| && entry.storage == storage
    requires entries' == entries + [entry]
    requires storages' == storages[storage := storages[storage].(users := storages[storage].users + [e])]
    ensures UsersAgree(entries', storages')
  {
    forall k | 0 <= k < |entries'|
      ensures entries'[k].storage < |storages'| && k in storages'[entries'[k].storage].users
    {
      if k < e {
        assert entries'[k] == entries[k] && k in storages[entries[k].storage].users;
      } else {
        assert storages'[storage].users[|storages[storage].users|] == e;
      }
    }
    forall s, k | 0 <= s < |storages'| && k in storages'[s].users ensures k < |entries'| && entries'[k].storage == s {
      assert k in storages[s].users || (s == storage && k == e);
    }
  }

  /** The entries that are users of src point to dst. */
  predicate Redirected(entries: seq<HashEntry>, entries': seq<HashEntry>, src: nat, dst: nat) {
    |entries'| == |entries| &&
    forall e {:trigger entries'[e]} :: 0 <= e < |entries| ==>
      entries'[e] == if entries[e].storage == src then HashEntry(entries[e].slot, dst) else entries[e]
  }

  lemma RedirectedFiled(hash: Slot -> nat, entries: seq<HashEntry>, buckets: seq<seq<nat>>, entryOf: map<Slot, nat>,
                        entries': seq<HashEntry>, src: nat, dst: nat)
    requires Filed(hash, entries, buckets, entryOf) && Redirected(entries, entries', src, dst)
    ensures Filed(hash, entries', buckets, entryOf)
  {
    forall k | 0 <= k < |entries'| ensures entries'[k].slot == entries[k].slot {
    }
  }

  lemma RedirectedUsers(entries: seq<HashEntry>, storages: seq<StorageInfo>, entries': seq<HashEntry>,
                        storages': seq<StorageInfo>, src: nat, dst: nat)
    requires UsersAgree(entries, storages) && src < |storages| && dst < |storages| && src != dst
    requires Redirected(entries, entries', src, dst) && |storages'| == |storages| && storages'[src].users == []
    requires storages'[dst].users == storages[dst].users + storages[src].users
    requires forall s :: 0 <= s < |storages| && s != src && s != dst ==> storages'[s] == storages[s]
    ensures UsersAgree(entries', storages')
  {
    forall k | 0 <= k < |entries'|
      ensures entries'[k].storage < |storages'| && k in storages'[entries'[k].storage].users
    {
      assert k in storages[entries[k].storage].users;
    }
    forall s, k | 0 <= s < |storages'| && k in storages'[s].users ensures k < |entries'| && entries'[k].storage == s {
      assert s == dst ==> k in storages[dst].users || k in storages[src].users;
      assert s != dst ==> k in storages[s].users;
    }
  }

  /** The slots of storage src have storage dst. */
  function Merged(part: map<Slot, nat>, src: nat, dst: nat): map<Slot, nat> {
    map s | s in part :: if part[s] == src then dst else part[s]
  }

  function PartOf(entries: seq<HashEntry>, entryOf: map<Slot, nat>): map<Slot, nat> {
    map s | s in entryOf && entryOf[s] < |entries| :: entries[entryOf[s]].storage
  }

  lemma PartOneMore(hash: Slot -> nat, entries: seq<HashEntry>, buckets: seq<seq<nat>>, entryOf: map<Slot, nat>,
                    slot: Slot, storage: nat, e: nat, entries': seq<HashEntry>, entryOf': map<Slot, nat>)
    requires Filed(hash, entries, buckets, entryOf) && e == |entries| && slot !in entryOf
    requires entries' == entries + [HashEntry(slot, storage)] && entryOf' == entryOf[slot := e]
    ensures PartOf(entries', entryOf') == PartOf(entries, entryOf)[slot := storage]
  {
    var p, p' := PartOf(entries, entryOf)[slot := storage], PartOf(entries', entryOf');
    forall s ensures s in p <==> s in p' {
      assert s in entryOf ==> entryOf[s] < |entries|;
    }
    forall s | s in p ensures p[s] == p'[s] {
      assert s in entryOf ==> entryOf[s] < |entries|;
    }
  }

  lemma PartRedirected(entries: seq<HashEntry>, entryOf: map<Slot, nat>, entries': seq<HashEntry>, src: nat, dst: nat)
    requires Redirected(entries, entries', src, dst)
    ensures PartOf(entries', entryOf) == Merged(PartOf(entries, entryOf), src, dst)
  {
  }

  lemma PartValues(entries: seq<HashEntry>, storages: seq<StorageInfo>, entryOf: map<Slot, nat>, s: nat)
    requires UsersAgree(entries, storages) && s >= |storages|
    ensures s !in PartOf(entries, entryOf).Values
  {
  }

  /** The table: entries and storages by number, and the buckets of entries. */
  class StorageTable {
    const hash: Slot -> nat
    var entries: seq<HashEntry>
    var buckets: seq<seq<nat>>
    var storages: seq<StorageInfo>
    /** Which entry a slot has. */
    ghost var entryOf: map<Slot, nat>

    constructor (hash: Slot -> nat)
      ensures Valid() && this.hash == hash && entryOf == map[] && entries == [] && storages == []
    {
      this.hash := hash;
      entries, storages, buckets := [], [], seq(MAX_STORAGE_HASH, _ => []);
      entryOf := map[];
    }

    /** The map that the table stands for, if it is in order. */
    ghost function Contents(): Option<map<Slot, nat>>
      reads this
    {
      if Filed(hash, entries, buckets, entryOf) && UsersAgree(entries, storages) then Some(PartOf(entries, entryOf))
      else None
    }

    ghost predicate Valid()
      reads this
    {
      Contents().Some?
    }

    /** The storage of every slot that has one. */
    ghost function Part(): map<Slot, nat>
      reads this
      requires Valid()
    {
      Contents().value
    }

    /** lookup_storage: the search of one bucket finds what a plain map would. */
    method LookupStorage(slot: Slot) returns (found: Option<nat>)
      requires Valid()
      ensures found == if slot in Part() then Some(Part()[slot]) else None
    {
      var b := Bucket(hash, slot);
      var list := buckets[b];
      assert slot in entryOf ==> entries[entryOf[slot]].slot == slot;
      for i := 0 to |list|
        invariant forall e :: e in list[..i] ==> e < |entries| && entries[e].slot != slot
      {
        assert list[i] == buckets[b][i] && list[..i + 1] == list[..i] + [list[i]];
        var entry := entries[list[i]];
        if entry.slot == slot {
          return Some(entry.storage);
        }
      }
      assert list[..|list|] == list;
      found := None;
    }

    /** alloc_storage */
    method AllocStorage(kind: StorageType) returns (s: nat)
      requires Valid()
      modifies this`storages
      ensures Valid() && s == |old(storages)| && storages == old(storages) + [StorageInfo(kind, [])]
      ensures Part() == old(Part()) && s !in Part().Values
    {
      s := |storages|;
      PartValues(entries, storages, entryOf, s);
      storages := storages + [StorageInfo(kind, [])];
    }

    /** add_storage, for a slot that has none. */
    method AddStorage(storage: nat, slot: Slot)
      requires Valid() && storage < |storages| && slot !in Part()
      modifies this`entries, this`buckets, this`storages, this`entryOf
      ensures Valid() && |storages| == |old(storages)| && Part() == old(Part())[slot := storage]
      ensures forall s :: 0 <= s < |storages| ==> storages[s].kind == old(storages)[s].kind
    {
      var e, b := |entries|, Bucket(hash, slot);
      entries := entries + [HashEntry(slot, storage)];
      storages := storages[storage := storages[storage].(users := storages[storage].users + [e])];
      buckets := buckets[b := buckets[b] + [e]];
      entryOf := entryOf[slot := e];
      FiledOneMore(hash, old(entries), old(buckets), old(entryOf), slot, storage, e, b, entries, buckets, entryOf);
      PartOneMore(hash, old(entries), old(buckets), old(entryOf), slot, storage, e, entries, entryOf);
      UsersOneMore(old(entries), old(storages), storage, HashEntry(slot, storage), e, entries, storages);
    }

    /** combine_storage: the users of src become users of dst. */
    method CombineStorage(src: nat, dst: nat)
      requires Valid() && src < |storages| && dst < |storages| && src != dst
      modifies this`entries, this`storages
      ensures Valid() && |storages| == |old(storages)|
      ensures Part() == Merged(old(Part()), src, dst)
      ensures storages[src] == StorageInfo(REG_BAD, [])
    {
      RedirectUsers(src, dst);
      storages := storages[src := StorageInfo(REG_BAD, [])];
      PartRedirected(old(entries), entryOf, entries, src, dst);
      RedirectedFiled(hash, old(entries), buckets, entryOf, entries, src, dst);
      RedirectedUsers(old(entries), old(storages), entries, storages, src, dst);
    }

    method RedirectUsers(src: nat, dst: nat)
      requires Valid() && src < |storages| && dst < |storages| && src != dst
      modifies this`entries, this`storages
      ensures Redirected(old(entries), entries, src, dst) && |storages| == |old(storages)|
      ensures storages[dst].users == old(storages)[dst].users + old(storages)[src].users
      ensures forall s :: 0 <= s < |storages| && s != dst ==> storages[s] == old(storages)[s]
    {
      var users := storages[src].users;
      for i := 0 to |users|
        invariant |entries| == |old(entries)| && |storages| == |old(storages)|
        invariant forall e {:trigger entries[e]} :: 0 <= e < |entries| ==>
                    entries[e] == if e in users[..i] then HashEntry(old(entries)[e].slot, dst) else old(entries)[e]
        invariant storages[dst].users == old(storages)[dst].users + users[..i]
        invariant forall s :: 0 <= s < |storages| && s != dst ==> storages[s] == old(storages)[s]
      {
        var usep := users[i];
        assert usep in old(storages)[src].users;
        assert users[..i + 1] == users[..i] + [usep];
        entries := entries[usep := entries[usep].(storage := dst)];
        storages := storages[dst := storages[dst].(users := storages[dst].users + [usep])];
      }
      assert users[..|users|] == users;
    }
  }
}
