/** Which subobject a flat list of initializers reaches, braces left out (evaluate.c). */
module Initializer {
  import opened Options

  /** A field with its offset; unnamed bitfields take no part. */
  datatype Field = Field(offset: nat, ctype: Type)

  datatype Type = Scalar(bytes: nat) | Array(elem: Type, count: nat) | Struct(fields: seq<Field>, isUnion: bool,
                                                                              bytes: nat)

  function SizeOf(t: Type): nat {
    match t
    case Scalar(n) => n
    case Array(elem, count) => count * SizeOf(elem)
    case Struct(_, _, n) => n
  }

  /** Neither arrays nor structures without parts, nor array elements without a size. */
  predicate Proper(t: Type) {
    match t
    case Scalar(_) => true
    case Array(elem, count) => count > 0 && SizeOf(elem) > 0 && Proper(elem)
    case Struct(fields, _, _) => |fields| > 0 && forall i :: 0 <= i < |fields| ==> Proper(fields[i].ctype)
  }

  /** How many subobjects can be initialized: of a union, only the first. */
  function Parts(t: Type): nat {
    match t
    case Scalar(_) => 0
    case Array(_, count) => count
    case Struct(fields, isUnion, _) => if isUnion && |fields| > 0 then 1 else |fields|
  }

  function Part(t: Type, i: nat): Type
    requires i < Parts(t)
  {
    match t
    case Array(elem, _) => elem
    case Struct(fields, _, _) => fields[i].ctype
  }

  /** Where the i-th part begins. */
  function PartOffset(t: Type, i: nat): nat
    requires i < Parts(t)
  {
    match t
    case Array(elem, _) => i * SizeOf(elem)
    case Struct(fields, _, _) => fields[i].offset
  }

  // ---------------------------------------------------------------------------
  // The scalar leaves in declaration order
  // ---------------------------------------------------------------------------

  function Shifted(offsets: seq<nat>, shift: nat): (r: seq<nat>)
    ensures |r| == |offsets|
    ensures forall i :: 0 <= i < |r| ==> r[i] == offsets[i] + shift
  {
    seq(|offsets|, i requires 0 <= i < |offsets| => offsets[i] + shift)
  }

  /** The offsets of all scalar leaves, in declaration order. */
  function Leaves(t: Type): seq<nat>
    decreases t, 0
  {
    match t
    case Scalar(_) => [0]
    case Array(elem, count) => ArrayLeaves(Leaves(elem), SizeOf(elem), count)
    case Struct(fields, isUnion, _) =>
      if isUnion && |fields| > 0 then LeavesOf(fields[0]) else FieldLeaves(fields)
  }

  function ArrayLeaves(leaves: seq<nat>, size: nat, count: nat): seq<nat> {
    if count == 0 then [] else ArrayLeaves(leaves, size, count - 1) + Shifted(leaves, (count - 1) * size)
  }

  function FieldLeaves(fields: seq<Field>): seq<nat>
    decreases fields, 1
  {
    if |fields| == 0 then [] else LeavesOf(fields[0]) + FieldLeaves(fields[1..])
  }

  function LeavesOf(field: Field): seq<nat>
    decreases field, 0
  {
    Shifted(Leaves(field.ctype), field.offset)
  }

  // ---------------------------------------------------------------------------
  // Ways to a leaf
  // ---------------------------------------------------------------------------

  /** The parts on the way from an object to one of its scalar leaves. */
  type Way = seq<nat>

  predicate IsWay(t: Type, w: Way) {
    if t.Scalar? then |w| == 0 else |w| > 0 && w[0] < Parts(t) && IsWay(Part(t, w[0]), w[1..])
  }

  function OffsetOf(t: Type, w: Way): nat
    requires IsWay(t, w)
  {
    if t.Scalar? then 0 else PartOffset(t, w[0]) + OffsetOf(Part(t, w[0]), w[1..])
  }

  function Prefix(t: Type, i: nat): nat
    requires i <= Parts(t)
  {
    if i == 0 then 0 else Prefix(t, i - 1) + |Leaves(Part(t, i - 1))|
  }

  /** How many leaves come before the one at the end of the way. */
  function Rank(t: Type, w: Way): nat
    requires IsWay(t, w)
  {
    if t.Scalar? then 0 else Prefix(t, w[0]) + Rank(Part(t, w[0]), w[1..])
  }

  /** The leaves of a part are a stretch of the whole's. */
  predicate Stretch(whole: seq<nat>, from: nat, part: seq<nat>, shift: nat) {
    from + |part| <= |whole| && forall i :: 0 <= i < |part| ==> whole[from + i] == part[i] + shift
  }

  lemma StretchFurther(whole: seq<nat>, from: nat, part: seq<nat>, shift: nat, more: seq<nat>)
    requires Stretch(whole, from, part, shift)
    ensures Stretch(whole + more, from, part, shift)
  {
  }

  lemma StretchLast(front: seq<nat>, part: seq<nat>, shift: nat)
    ensures Stretch(front + Shifted(part, shift), |front|, part, shift)
  {
  }

  lemma {:induction false} ArrayStretch(elem: Type, leaves: seq<nat>, size: nat, count: nat, i: nat, t: Type)
    requires i < count <= Parts(t) && t.Array? && t.elem == elem && leaves == Leaves(elem)
    ensures |ArrayLeaves(leaves, size, count)| == Prefix(t, count)
    ensures Stretch(ArrayLeaves(leaves, size, count), Prefix(t, i), leaves, i * size)
  {
    var last := count - 1;
    var front, shifted := ArrayLeaves(leaves, size, last), Shifted(leaves, last * size);
    if last > 0 {
      ArrayStretch(elem, leaves, size, last, if i < last then i else 0, t);
    }
    assert |front| == Prefix(t, last) && Prefix(t, count) == Prefix(t, last) + |leaves|;
    if i == last {
      StretchLast(front, leaves, last * size);
    } else {
      StretchFurther(front, Prefix(t, i), leaves, i * size, shifted);
    }
  }

  function FieldPrefix(fields: seq<Field>, i: nat): nat
    requires i <= |fields|
  {
    if i == 0 then 0 else |Leaves(fields[0].ctype)| + FieldPrefix(fields[1..], i - 1)
  }

  lemma {:induction false} FieldPrefixLast(fields: seq<Field>, i: nat)
    requires 0 < i <= |fields|
    ensures FieldPrefix(fields, i) == FieldPrefix(fields, i - 1) + |Leaves(fields[i - 1].ctype)|
  {
    if i > 1 {
      FieldPrefixLast(fields[1..], i - 1);
    }
  }

  lemma StretchBehind(front: seq<nat>, whole: seq<nat>, from: nat, part: seq<nat>, shift: nat, start: nat)
    requires Stretch(whole, from, part, shift) && start == |front| + from
    ensures Stretch(front + whole, start, part, shift)
  {
    forall i | 0 <= i < |part| ensures (front + whole)[start + i] == part[i] + shift {
      assert (front + whole)[start + i] == whole[from + i];
    }
  }

  lemma StretchFirst(part: seq<nat>, shift: nat, more: seq<nat>)
    ensures Stretch(Shifted(part, shift) + more, 0, part, shift)
  {
  }

  lemma {:induction false} FieldStretch(fields: seq<Field>, i: nat)
    requires i < |fields|
    ensures |FieldLeaves(fields)| == FieldPrefix(fields, |fields|)
    ensures Stretch(FieldLeaves(fields), FieldPrefix(fields, i), Leaves(fields[i].ctype), fields[i].offset)
  {
    var first, rest := LeavesOf(fields[0]), fields[1..];
    if i == 0 {
      if |rest| > 0 {
        FieldStretch(rest, 0);
      }
      StretchFirst(Leaves(fields[0].ctype), fields[0].offset, FieldLeaves(rest));
    } else {
      var j := i - 1;
      assert rest[j] == fields[i];
      FieldStretch(rest, j);
      StretchBehind(first, FieldLeaves(rest), FieldPrefix(rest, j), Leaves(fields[i].ctype), fields[i].offset,
                    FieldPrefix(fields, i));
    }
  }

  lemma {:induction false} PrefixIsFieldPrefix(t: Type, i: nat)
    requires t.Struct? && !t.isUnion && i <= |t.fields|
    ensures Prefix(t, i) == FieldPrefix(t.fields, i)
  {
    if i > 0 {
      PrefixIsFieldPrefix(t, i - 1);
      FieldPrefixLast(t.fields, i);
    }
  }

  lemma PartStretch(t: Type, i: nat)
    requires !t.Scalar? && i < Parts(t)
    ensures |Leaves(t)| == Prefix(t, Parts(t))
    ensures Stretch(Leaves(t), Prefix(t, i), Leaves(Part(t, i)), PartOffset(t, i))
  {
    match t
    case Array(elem, count) =>
      ArrayStretch(elem, Leaves(elem), SizeOf(elem), count, i, t);
    case Struct(fields, isUnion, _) =>
      if isUnion {
        assert Prefix(t, 1) == Prefix(t, 0) + |Leaves(Part(t, 0))|;
      } else {
        FieldStretch(fields, i);
        PrefixIsFieldPrefix(t, i);
        PrefixIsFieldPrefix(t, |fields|);
      }
  }

  /** A way leads to the leaf of its rank. */
  lemma {:induction false} WayToLeaf(t: Type, w: Way)
    requires IsWay(t, w)
    ensures Rank(t, w) < |Leaves(t)| && Leaves(t)[Rank(t, w)] == OffsetOf(t, w)
    decreases t
  {
    if !t.Scalar? {
      PartStretch(t, w[0]);
      WayToLeaf(Part(t, w[0]), w[1..]);
    }
  }

  // ---------------------------------------------------------------------------
  // Designators
  // ---------------------------------------------------------------------------

  /** EXPR_INDEX with the element type, EXPR_IDENTIFIER with the field and the type it is
      a field of, and EXPR_POS, what both are turned into. */
  datatype Designator = Index(idx: nat, elem: Type) | Ident(field: nat, owner: Type) | Pos(offset: nat, nr: nat)

  /** A way that may end before it comes to a leaf. */
  predicate IsPartial(t: Type, w: Way) {
    |w| == 0 || (!t.Scalar? && w[0] < Parts(t) && IsPartial(Part(t, w[0]), w[1..]))
  }

  function DesignatorOf(t: Type, i: nat): Designator
    requires i < Parts(t)
  {
    if t.Array? then Index(i, t.elem) else Ident(i, t)
  }

  /** The designators of a way, the outermost first. */
  function Chain(t: Type, w: Way): (c: seq<Designator>)
    requires IsPartial(t, w)
    ensures |c| == |w|
  {
    if |w| == 0 then [] else [DesignatorOf(t, w[0])] + Chain(Part(t, w[0]), w[1..])
  }

  /** convert_index and convert_ident */
  function Converted(d: Designator): Designator {
    match d
    case Index(i, elem) => Pos(i * SizeOf(elem), 1)
    case Ident(k, t) => if k < Parts(t) then Pos(PartOffset(t, k), 1) else d
    case Pos(_, _) => d
  }

  function ConvertedAll(c: seq<Designator>): seq<Designator> {
    if |c| == 0 then [] else [Converted(c[0])] + ConvertedAll(c[1..])
  }

  /** Where a chain of EXPR_POS puts its initializer; None if a designator is left. */
  function Position(c: seq<Designator>): Option<nat> {
    if |c| == 0 then Some(0)
    else
      var rest := Position(c[1..]);
      if c[0].Pos? && rest.Some? then Some(c[0].offset + rest.value) else None
  }

  lemma {:induction false} PositionOfWay(t: Type, w: Way)
    requires IsWay(t, w)
    ensures IsPartial(t, w) && Position(ConvertedAll(Chain(t, w))) == Some(OffsetOf(t, w))
    decreases t
  {
    if !t.Scalar? {
      PositionOfWay(Part(t, w[0]), w[1..]);
      var c := Chain(t, w);
      assert c[1..] == Chain(Part(t, w[0]), w[1..]);
      assert ConvertedAll(c)[1..] == ConvertedAll(c[1..]);
    }
  }

  function TypeAt(t: Type, w: Way): Type
    requires IsPartial(t, w)
  {
    if |w| == 0 then t else TypeAt(Part(t, w[0]), w[1..])
  }

  /** The way to the first leaf. */
  function Down(t: Type): Way
    requires Proper(t)
  {
    if t.Scalar? then [] else [0] + Down(Part(t, 0))
  }

  /** The next part at the innermost level that has one. */
  function NextWay(t: Type, w: Way): Option<Way>
    requires IsPartial(t, w)
  {
    if |w| == 0 then None
    else
      var inner := NextWay(Part(t, w[0]), w[1..]);
      if inner.Some? then Some([w[0]] + inner.value)
      else if w[0] + 1 < Parts(t) then Some([w[0] + 1])
      else None
  }

  lemma PartIsProper(t: Type, i: nat)
    requires Proper(t) && i < Parts(t)
    ensures Proper(Part(t, i))
  {
  }

  lemma {:induction false} DownIsWay(t: Type)
    requires Proper(t)
    ensures IsWay(t, Down(t)) && Rank(t, Down(t)) == 0
    decreases t
  {
    if !t.Scalar? {
      PartIsProper(t, 0);
      DownIsWay(Part(t, 0));
      assert Down(t)[1..] == Down(Part(t, 0));
    }
  }

  lemma {:induction false} WayIsPartial(t: Type, w: Way)
    requires IsWay(t, w)
    ensures IsPartial(t, w)
    decreases t
  {
    if !t.Scalar? {
      WayIsPartial(Part(t, w[0]), w[1..]);
    }
  }

  /** A partial way, and from there down to the first leaf. */
  function Complete(t: Type, w: Way): Way
    requires Proper(t) && IsPartial(t, w)
  {
    if |w| == 0 then Down(t) else PartIsProper(t, w[0]); [w[0]] + Complete(Part(t, w[0]), w[1..])
  }

  lemma {:induction false} CompleteIsWay(t: Type, w: Way)
    requires Proper(t) && IsPartial(t, w)
    ensures IsWay(t, Complete(t, w))
    decreases t
  {
    if |w| == 0 {
      DownIsWay(t);
    } else {
      PartIsProper(t, w[0]);
      CompleteIsWay(Part(t, w[0]), w[1..]);
      assert Complete(t, w)[1..] == Complete(Part(t, w[0]), w[1..]);
    }
  }

  lemma {:induction false} NextIsPartial(t: Type, w: Way)
    requires IsPartial(t, w) && NextWay(t, w).Some?
    ensures IsPartial(t, NextWay(t, w).value) && |NextWay(t, w).value| > 0
    decreases t
  {
    var inner := NextWay(Part(t, w[0]), w[1..]);
    if inner.Some? {
      NextIsPartial(Part(t, w[0]), w[1..]);
      assert NextWay(t, w).value[1..] == inner.value;
    } else {
      assert NextWay(t, w).value[1..] == [];
    }
  }

  /** The odometer: the next way, taken down to a leaf, leads to the next leaf, and there
      is no next way exactly after the last leaf. */
  lemma {:induction false} NextRank(t: Type, w: Way)
    requires Proper(t) && IsWay(t, w)
    ensures IsPartial(t, w)
    ensures NextWay(t, w).None? ==> Rank(t, w) + 1 == |Leaves(t)|
    ensures NextWay(t, w).Some? ==>
              IsPartial(t, NextWay(t, w).value) && IsWay(t, Complete(t, NextWay(t, w).value))
              && Rank(t, Complete(t, NextWay(t, w).value)) == Rank(t, w) + 1
    decreases t
  {
    WayIsPartial(t, w);
    if !t.Scalar? {
      var i, p := w[0], Part(t, w[0]);
      PartIsProper(t, i);
      NextRank(p, w[1..]);
      PartStretch(t, i);
      var inner := NextWay(p, w[1..]);
      if inner.Some? {
        var next := NextWay(t, w).value;
        assert next[0] == i && next[1..] == inner.value;
        assert Complete(t, next)[1..] == Complete(p, inner.value);
      } else if i + 1 < Parts(t) {
        var next := NextWay(t, w).value;
        assert next[0] == i + 1 && next[1..] == [];
        PartIsProper(t, i + 1);
        DownIsWay(Part(t, i + 1));
        assert Complete(t, next)[1..] == Down(Part(t, i + 1));
        assert Prefix(t, i + 1) == Prefix(t, i) + |Leaves(p)|;
      } else {
        assert Prefix(t, i + 1) == Prefix(t, i) + |Leaves(p)|;
      }
    }
  }

  // ---------------------------------------------------------------------------
  // The walk
  // ---------------------------------------------------------------------------

  lemma SameMultiple(n: nat, count: nat, size: nat)
    requires size > 0
    ensures n * size == count * size <==> n == count
  {
    if n < count {
      assert n * size < count * size;
    } else if n > count {
      assert n * size > count * size;
    }
  }

  lemma ChainOfOne(t: Type, i: nat)
    requires i < Parts(t)
    ensures IsPartial(t, [i]) && Chain(t, [i]) == [DesignatorOf(t, i)]
  {
    assert [i][1..] == [] && Chain(Part(t, i), []) == [];
  }

  /** next_designators: the old chain is turned into positions, and a new one is made for
      the next subobject, if there is one. */
  method NextDesignators(chain0: seq<Designator>, ctype: Type, ghost w: Way)
    returns (converted: seq<Designator>, next: Option<seq<Designator>>)
    requires Proper(ctype) && IsPartial(ctype, w) && chain0 == Chain(ctype, w)
    ensures converted == ConvertedAll(chain0)
    ensures NextWay(ctype, w).None? ==> next.None?
    ensures NextWay(ctype, w).Some? ==>
              IsPartial(ctype, NextWay(ctype, w).value) && next == Some(Chain(ctype, NextWay(ctype, w).value))
    decreases |chain0|
  {
    if |chain0| == 0 {
      return [], None;
    }
    ghost var i := w[0];
    PartIsProper(ctype, i);
    if NextWay(ctype, w).Some? {
      NextIsPartial(ctype, w);
    }
    var d := chain0[0];
    var part := if d.Index? then d.elem else Part(d.owner, d.field);
    var rest, copy := NextDesignators(chain0[1..], part, w[1..]);
    converted := [Converted(d)] + rest;
    if copy.Some? {
      next := Some([d] + copy.value);
      ghost var v := NextWay(ctype, w).value;
      assert v[0] == i && v[1..] == NextWay(part, w[1..]).value;
    } else if d.Index? {
      var n := d.idx + 1;
      SameMultiple(n, ctype.count, SizeOf(d.elem));
      if n * SizeOf(d.elem) == SizeOf(ctype) {
        next := None;
      } else {
        next := Some([Index(n, d.elem)]);
        ChainOfOne(ctype, n);
      }
    } else {
      var k := d.field + 1;
      if d.owner.isUnion || k == |d.owner.fields| {
        next := None;
      } else {
        next := Some([Ident(k, d.owner)]);
        ChainOfOne(ctype, k);
      }
    }
  }

  lemma {:induction false} ChainFurther(t: Type, w: Way, i: nat)
    requires IsPartial(t, w) && i < Parts(TypeAt(t, w))
    ensures IsPartial(t, w + [i]) && Chain(t, w + [i]) == Chain(t, w) + [DesignatorOf(TypeAt(t, w), i)]
    ensures TypeAt(t, w + [i]) == Part(TypeAt(t, w), i)
    decreases t
  {
    if |w| > 0 {
      ChainFurther(Part(t, w[0]), w[1..], i);
      assert (w + [i])[1..] == w[1..] + [i];
    } else {
      assert (w + [i])[1..] == [];
    }
  }

  lemma {:induction false} CompleteFurther(t: Type, w: Way)
    requires Proper(t) && IsPartial(t, w)
    ensures Proper(TypeAt(t, w))
    ensures TypeAt(t, w).Scalar? ==> Complete(t, w) == w
    ensures !TypeAt(t, w).Scalar? ==> IsPartial(t, w + [0]) && Complete(t, w + [0]) == Complete(t, w)
    decreases t
  {
    if |w| > 0 {
      PartIsProper(t, w[0]);
      CompleteFurther(Part(t, w[0]), w[1..]);
      assert (w + [0])[1..] == w[1..] + [0];
    } else if !t.Scalar? {
      PartIsProper(t, 0);
      assert (w + [0])[1..] == [];
    }
  }

  /** From the innermost designator down to a scalar, with first_subobject at each level. */
  method Descend(chain: seq<Designator>, ghost t: Type, ghost w: Way, top: Type) returns (whole: seq<Designator>)
    requires Proper(t) && IsPartial(t, w) && chain == Chain(t, w) && top == TypeAt(t, w)
    ensures IsPartial(t, Complete(t, w)) && whole == Chain(t, Complete(t, w))
  {
    ghost var v := w;
    var inner := top;
    whole := chain;
    CompleteFurther(t, v);
    while !inner.Scalar?
      invariant IsPartial(t, v) && whole == Chain(t, v) && inner == TypeAt(t, v) && Proper(inner)
      invariant Complete(t, v) == Complete(t, w)
      decreases inner
    {
      CompleteFurther(t, v);
      ChainFurther(t, v, 0);
      whole := whole + [DesignatorOf(inner, 0)];
      PartIsProper(inner, 0);
      inner := Part(inner, 0);
      v := v + [0];
    }
    CompleteFurther(t, v);
  }

  /** The entry is in its place: all positions, adding up to the leaf's offset. */
  predicate Placed(t: Type, c: seq<Designator>, k: nat) {
    k < |Leaves(t)| && Position(c) == Some(Leaves(t)[k])
  }

  function LastType(c: seq<Designator>): Type
    requires |c| > 0
  {
    match c[|c| - 1]
    case Index(_, elem) => elem
    case Ident(k, t) => if k < Parts(t) then Part(t, k) else Scalar(0)
    case Pos(_, _) => Scalar(0)
  }

  lemma {:induction false} LastTypeIsTop(t: Type, w: Way)
    requires IsPartial(t, w) && |w| > 0
    ensures LastType(Chain(t, w)) == TypeAt(t, w)
    decreases t
  {
    if |w| > 1 {
      LastTypeIsTop(Part(t, w[0]), w[1..]);
    } else {
      assert w[1..] == [];
    }
  }

  /** handle_list_initializer, for `n` scalar initializers without braces or designators:
      the k-th goes to the k-th scalar leaf, and those beyond the leaves are in excess. */
  method HandleListInitializer(ctype: Type, n: nat) returns (entries: seq<seq<Designator>>, excess: nat)
    requires Proper(ctype) && !ctype.Scalar?
    ensures |entries| == (if n < |Leaves(ctype)| then n else |Leaves(ctype)|) && excess == n - |entries|
    ensures forall k :: 0 <= k < |entries| ==> Placed(ctype, entries[k], k)
  {
    entries, excess := [], 0;
    ghost var w: Way := [];
    var ended := false;
    for i := 0 to n
      invariant |entries| + excess == i && (ended <==> excess > 0) && (i > 0 ==> |entries| > 0)
      invariant ended ==> |entries| == |Leaves(ctype)| && forall k :: 0 <= k < |entries| ==>
                  Placed(ctype, entries[k], k)
      invariant !ended ==> forall k :: 0 <= k < |entries| - 1 ==> Placed(ctype, entries[k], k)
      invariant !ended && i > 0 ==>
                  IsWay(ctype, w) && IsPartial(ctype, w) && Rank(ctype, w) == i - 1 && entries[i - 1] == Chain(ctype, w)
    {
      var chain: Option<seq<Designator>> := None;
      ghost var v: Way := [];
      if i == 0 {
        v := [0];
        assert v[1..] == [];
        chain := Some([DesignatorOf(ctype, 0)]);
        assert [] == Chain(Part(ctype, 0), v[1..]);
      } else if !ended {
        NextRank(ctype, w);
        PositionOfWay(ctype, w);
        WayToLeaf(ctype, w);
        var converted;
        converted, chain := NextDesignators(entries[i - 1], ctype, w);
        entries := entries[i - 1 := converted];
        v := if chain.Some? then NextWay(ctype, w).value else [];
        if chain.Some? {
          NextIsPartial(ctype, w);
        }
      }
      if chain.None? {
        ended := true;
        excess := excess + 1;
      } else {
        LastTypeIsTop(ctype, v);
        var whole := Descend(chain.value, ctype, v, LastType(chain.value));
        CompleteIsWay(ctype, v);
        if i == 0 {
          FirstRank(ctype, v);
        }
        w := Complete(ctype, v);
        entries := entries + [whole];
        WayToLeaf(ctype, w);
      }
    }
    if !ended && n > 0 {
      PositionOfWay(ctype, w);
      WayToLeaf(ctype, w);
      var last := ConvertAll(entries[n - 1]);
      entries := entries[n - 1 := last];
    }
  }

  lemma FirstRank(t: Type, v: Way)
    requires Proper(t) && !t.Scalar? && v == [0] && IsPartial(t, v)
    ensures IsWay(t, Complete(t, v)) && Rank(t, Complete(t, v)) == 0
  {
    assert v[1..] == [];
    PartIsProper(t, 0);
    DownIsWay(Part(t, 0));
    assert Complete(t, v)[1..] == Down(Part(t, 0));
  }

  /** convert_designators */
  method ConvertAll(chain: seq<Designator>) returns (c: seq<Designator>)
    ensures c == ConvertedAll(chain)
  {
    c := [];
    var i := 0;
    assert chain[i..] == chain;
    while i < |chain|
      invariant i <= |chain| && c + ConvertedAll(chain[i..]) == ConvertedAll(chain)
    {
      assert chain[i..][0] == chain[i] && chain[i..][1..] == chain[i + 1..];
      c := c + [Converted(chain[i])];
      i := i + 1;
    }
  }
}
