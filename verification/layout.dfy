/** The scalar leaves of a type that is laid out properly come in order and share no byte,
    so no two initializers of a flat list reach the same memory. */
module Layout {
  import opened Initializer

  /** Every part has its size within the whole, and the fields of a structure come one behind
      the other. */
  predicate LaidOut(t: Type) {
    match t
    case Scalar(n) => n > 0
    case Array(elem, _) => LaidOut(elem)
    case Struct(fields, isUnion, n) =>
      && (forall i :: 0 <= i < |fields| ==> LaidOut(fields[i].ctype) && EndOfField(fields[i]) <= n)
      && (!isUnion ==> forall i, j :: 0 <= i < j < |fields| ==> EndOfField(fields[i]) <= fields[j].offset)
  }

  function EndOfField(f: Field): nat {
    f.offset + SizeOf(f.ctype)
  }

  /** The sizes of the scalar leaves, in the order of `Leaves`. */
  function LeafSizes(t: Type): seq<nat>
    decreases t, 0
  {
    match t
    case Scalar(n) => [n]
    case Array(elem, count) => Times(LeafSizes(elem), count)
    case Struct(fields, isUnion, _) =>
      if isUnion && |fields| > 0 then SizesOf(fields[0]) else FieldSizes(fields)
  }

  function Times(sizes: seq<nat>, count: nat): seq<nat> {
    if count == 0 then [] else Times(sizes, count - 1) + sizes
  }

  function FieldSizes(fields: seq<Field>): seq<nat>
    decreases fields, 1
  {
    if |fields| == 0 then [] else SizesOf(fields[0]) + FieldSizes(fields[1..])
  }

  function SizesOf(field: Field): seq<nat>
    decreases field, 0
  {
    LeafSizes(field.ctype)
  }

  /** Places from lo on, one behind the other, that end by hi. */
  predicate InLine(offsets: seq<nat>, sizes: seq<nat>, lo: nat, hi: nat) {
    && |offsets| == |sizes| && lo <= hi
    && (forall i :: 0 <= i < |offsets| ==> lo <= offsets[i] < offsets[i] + sizes[i] <= hi)
    && (forall i, j :: 0 <= i < j < |offsets| ==> offsets[i] + sizes[i] <= offsets[j])
  }

  lemma InLineBehind(a: seq<nat>, sa: seq<nat>, b: seq<nat>, sb: seq<nat>, lo: nat, mid: nat, mid': nat, hi: nat)
    requires InLine(a, sa, lo, mid) && InLine(b, sb, mid', hi) && mid <= mid'
    ensures InLine(a + b, sa + sb, lo, hi)
  {
    var o, s, n := a + b, sa + sb, |a|;
    forall i | 0 <= i < |o| ensures lo <= o[i] < o[i] + s[i] <= hi {
      assert i >= n ==> o[i] == b[i - n] && s[i] == sb[i - n];
    }
    forall i, j | 0 <= i < j < |o| ensures o[i] + s[i] <= o[j] {
      assert i >= n ==> o[i] == b[i - n] && s[i] == sb[i - n];
      assert j >= n ==> o[j] == b[j - n];
    }
  }

  lemma InLineShifted(offsets: seq<nat>, sizes: seq<nat>, size: nat, shift: nat)
    requires InLine(offsets, sizes, 0, size)
    ensures InLine(Shifted(offsets, shift), sizes, shift, shift + size)
  {
  }

  lemma {:induction false} ArrayInLine(leaves: seq<nat>, sizes: seq<nat>, size: nat, count: nat)
    requires InLine(leaves, sizes, 0, size)
    ensures InLine(ArrayLeaves(leaves, size, count), Times(sizes, count), 0, count * size)
  {
    if count > 0 {
      var n := count - 1;
      ArrayInLine(leaves, sizes, size, n);
      InLineShifted(leaves, sizes, size, n * size);
      assert n * size + size == count * size;
      InLineBehind(ArrayLeaves(leaves, size, n), Times(sizes, n), Shifted(leaves, n * size), sizes, 0, n * size,
                   n * size,
                   count * size);
    }
  }

  /** The fields from `lo` on. */
  predicate FieldsFrom(fields: seq<Field>, lo: nat, n: nat) {
    && lo <= n
    && (forall i :: 0 <= i < |fields| ==>
          LaidOut(fields[i].ctype) && lo <= fields[i].offset && EndOfField(fields[i]) <= n)
    && (forall i, j :: 0 <= i < j < |fields| ==> EndOfField(fields[i]) <= fields[j].offset)
  }

  lemma {:induction false} FieldsInLine(fields: seq<Field>, lo: nat, n: nat)
    requires FieldsFrom(fields, lo, n)
    ensures InLine(FieldLeaves(fields), FieldSizes(fields), lo, n)
    decreases fields, 1
  {
    if |fields| > 0 {
      var f, rest := fields[0], fields[1..];
      var end := EndOfField(f);
      assert forall i :: 0 <= i < |rest| ==> rest[i] == fields[i + 1];
      assert FieldsFrom(rest, end, n);
      FieldInLine(f);
      FieldsInLine(rest, end, n);
      assert InLine(LeavesOf(f), SizesOf(f), lo, end);
      InLineBehind(LeavesOf(f), SizesOf(f), FieldLeaves(rest), FieldSizes(rest), lo, end, end, n);
    }
  }

  lemma {:induction false} FieldInLine(f: Field)
    requires LaidOut(f.ctype)
    ensures InLine(LeavesOf(f), SizesOf(f), f.offset, EndOfField(f))
    decreases f, 0
  {
    LeavesInLine(f.ctype);
    InLineShifted(Leaves(f.ctype), LeafSizes(f.ctype), SizeOf(f.ctype), f.offset);
  }

  /** All leaves lie within the object, in order and apart from each other. */
  lemma {:induction false} LeavesInLine(t: Type)
    requires LaidOut(t)
    ensures InLine(Leaves(t), LeafSizes(t), 0, SizeOf(t))
    decreases t, 0
  {
    match t
    case Scalar(_) =>
    case Array(elem, count) =>
      LeavesInLine(elem);
      ArrayInLine(Leaves(elem), LeafSizes(elem), SizeOf(elem), count);
    case Struct(fields, isUnion, n) =>
      if isUnion && |fields| > 0 {
        FieldInLine(fields[0]);
      } else {
        FieldsInLine(fields, 0, n);
      }
  }
}
