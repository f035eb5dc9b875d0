/** The state of an in-place merge of two runs of nodes, on the contents of the
    nodes alone: what each step of the merge loop does to it. */
module SortMerge {
  import opened Options
  import opened Merging

  /** The entries of the nodes, one after the other. */
  function Concat<T>(d: seq<seq<T>>): seq<T> {
    if |d| == 0 then [] else Concat(d[..|d| - 1]) + d[|d| - 1]
  }

  lemma {:induction false} ConcatAppend<T>(a: seq<seq<T>>, b: seq<seq<T>>)
    ensures Concat(a + b) == Concat(a) + Concat(b)
  {
    if b == [] {
      assert a + b == a;
    } else {
      assert (a + b)[..|a + b| - 1] == a + b[..|b| - 1];
      ConcatAppend(a, b[..|b| - 1]);
      assert Concat(a) + (Concat(b[..|b| - 1]) + b[|b| - 1]) == (Concat(a) + Concat(b[..|b| - 1])) + b[|b| - 1];
    }
  }

  /** Cutting a stretch of nodes in two. */
  lemma ConcatCons<T>(x: seq<T>, rest: seq<seq<T>>)
    ensures Concat([x] + rest) == x + Concat(rest)
  {
    ConcatAppend([x], rest);
    assert [x][..0] == [] && Concat([x]) == [] + x;
  }

  lemma SplitAt<T>(s: seq<T>, p: nat, tail: seq<T>)
    requires p < |s| && tail == s[p..]
    ensures s == s[..p] + tail && tail == [s[p]] + s[p + 1..]
  {
  }

  lemma WholeSplit<T>(d: seq<seq<T>>, p: nat)
    requires p < |d|
    ensures Concat(d) == Concat(d[..p]) + (d[p] + Concat(d[p + 1..]))
  {
    SplitAt(d, p, d[p..]);
    ConcatAppend(d[..p], d[p..]);
    ConcatCons(d[p], d[p + 1..]);
  }

  /** Changing one node's entries changes the list there. */
  lemma RefilledConcat<T>(d: seq<seq<T>>, p: nat, y: seq<T>)
    requires p < |d|
    ensures Concat(d[p := y]) == Concat(d[..p]) + (y + Concat(d[p + 1..]))
  {
    var e := d[p := y];
    WholeSplit(e, p);
    assert e[..p] == d[..p] && e[p + 1..] == d[p + 1..];
  }

  lemma ConcatSplit<T>(d: seq<seq<T>>, lo: nat, mid: nat, hi: nat)
    requires lo <= mid <= hi <= |d|
    ensures Concat(d[lo..hi]) == Concat(d[lo..mid]) + Concat(d[mid..hi])
  {
    assert d[lo..hi] == d[lo..mid] + d[mid..hi];
    ConcatAppend(d[lo..mid], d[mid..hi]);
  }

  lemma ConcatOne<T>(d: seq<seq<T>>, i: nat)
    requires i < |d|
    ensures Concat(d[i..i + 1]) == d[i]
  {
    assert d[i..i + 1][..0] == [] && Concat(d[i..i + 1][..0]) == [];
  }

  lemma {:induction false} ConcatEmpty<T>(d: seq<seq<T>>, lo: nat, hi: nat)
    requires lo <= hi <= |d| && forall j :: lo <= j < hi ==> NoEntries(d, j)
    ensures Concat(d[lo..hi]) == []
    decreases hi - lo
  {
    if lo < hi {
      ConcatEmpty(d, lo, hi - 1);
      assert NoEntries(d, hi - 1);
      assert d[lo..hi][..hi - lo - 1] == d[lo..hi - 1];
    }
  }

  /** A stretch of nodes with its first node. */
  lemma ConcatHead<T>(d: seq<seq<T>>, p: nat, n: nat)
    requires n > 0 && p + n <= |d|
    ensures Concat(d[p..p + n]) == d[p] + Concat(d[p + 1..p + n])
  {
    ConcatSplit(d, p, p + 1, p + n);
    ConcatOne(d, p);
  }

  /** Where a merge stands: `n` nodes from `p` and `m` nodes from `q` are left, and
      `i1` and `i2` entries of the first of each are in the buffer. */
  datatype Cursor = Cursor(p: nat, q: nat, n: nat, m: nat, i1: nat, i2: nat)
  {
    function TookFirst(): Cursor {
      this.(i1 := i1 + 1)
    }

    function TookSecond(): Cursor {
      this.(i2 := i2 + 1)
    }

    /** After a node of the first run. */
    function PastFirst(): Cursor
      requires n > 0
    {
      this.(p := p + 1, n := n - 1, i1 := 0)
    }

    /** After an empty node of the second run. */
    function PastSecond(): Cursor
      requires m > 0
    {
      this.(q := q + 1, m := m - 1)
    }

    /** After a node of the second run that was moved before the first run. */
    function MovedSecond(): Cursor
      requires m > 0
    {
      this.(p := p + 1, q := q + 1, m := m - 1, i2 := 0)
    }

    /** The first run begins at p'. */
    function FirstAt(p': nat): Cursor
      requires p <= p' <= p + n
    {
      this.(p := p', n := p + n - p')
    }

    /** The second run begins at q'. */
    function SecondAt(q': nat): Cursor
      requires q <= q' <= q + m
    {
      this.(q := q', m := q + m - q')
    }

    /** After an empty node between the runs. */
    function PastGap(): Cursor {
      this.(p := p + 1)
    }
  }

  /** What is left of `n` nodes from `p` after the first `i` entries. */
  function Rest<T>(d: seq<seq<T>>, p: nat, n: nat, i: nat): seq<T>
    requires p + n <= |d|
  {
    var c := Concat(d[p..p + n]);
    if i <= |c| then c[i..] else []
  }

  /** Finished entries, buffer and what is left of the runs make up `target`. */
  ghost predicate Makes<T>(cmp: (T, T) -> int, done: seq<T>, buf: seq<T>, a: seq<T>, b: seq<T>, target: seq<T>) {
    done + buf + Merge(cmp, a, b) == target
  }

  lemma MakesTakeFirst<T>(cmp: (T, T) -> int, done: seq<T>, buf: seq<T>, x: T, a: seq<T>, b: seq<T>, target: seq<T>)
    requires Makes(cmp, done, buf, [x] + a, b, target) && b != [] && cmp(x, b[0]) <= 0
    ensures Makes(cmp, done, buf + [x], a, b, target)
  {
    assert ([x] + a)[1..] == a;
    assert done + buf + ([x] + Merge(cmp, a, b)) == done + (buf + [x]) + Merge(cmp, a, b);
  }

  lemma MakesTakeSecond<T>(cmp: (T, T) -> int, done: seq<T>, buf: seq<T>, a: seq<T>, y: T, b: seq<T>, target: seq<T>)
    requires Makes(cmp, done, buf, a, [y] + b, target) && a != [] && cmp(a[0], y) > 0
    ensures Makes(cmp, done, buf + [y], a, b, target)
  {
    assert ([y] + b)[1..] == b;
    assert done + buf + ([y] + Merge(cmp, a, b)) == done + (buf + [y]) + Merge(cmp, a, b);
  }

  lemma MakesFlush<T>(cmp: (T, T) -> int, done: seq<T>, buf: seq<T>, i: nat, a: seq<T>, b: seq<T>, target: seq<T>)
    requires Makes(cmp, done, buf, a, b, target) && i <= |buf|
    ensures Makes(cmp, done + buf[..i], buf[i..], a, b, target)
  {
    assert (done + buf[..i]) + buf[i..] == done + buf;
  }

  lemma MakesPrefix<T>(cmp: (T, T) -> int, done: seq<T>, buf: seq<T>, x: seq<T>, a: seq<T>, b: seq<T>, target: seq<T>)
    requires Makes(cmp, done, buf, x + a, b, target) && buf == []
    requires b != [] && forall i :: 0 <= i < |x| ==> cmp(x[i], b[0]) <= 0
    ensures Makes(cmp, done + x, buf, a, b, target)
  {
    MergePrefix(cmp, x, a, b);
    assert done + buf + (x + Merge(cmp, a, b)) == (done + x) + buf + Merge(cmp, a, b);
  }

  ghost predicate NoEntries<T>(d: seq<seq<T>>, j: nat) {
    j < |d| && |d[j]| == 0
  }

  /** The entries read and not yet written are in the buffer, and the nodes between
      the two runs are empty. */
  ghost predicate InStep<T>(d: seq<seq<T>>, k: nat, e: nat, s: Cursor, buf: seq<T>) {
    && k <= s.p && s.p + s.n <= s.q && s.q + s.m == e && e <= |d|
    && (if s.n > 0 then s.i1 <= |d[s.p]| else s.i1 == 0)
    && (if s.m > 0 then s.i2 <= |d[s.q]| else s.i2 == 0)
    && (forall j :: s.p + s.n <= j < s.q ==> NoEntries(d, j))
    && |buf| == s.i1 + s.i2
  }

  /** What the nodes from k to e will hold in the end: the finished entries, the
      buffer and the merge of what is left. */
  ghost function Outcome<T>(cmp: (T, T) -> int, d: seq<seq<T>>, k: nat, e: nat, s: Cursor,
                            buf: seq<T>): Option<seq<T>> {
    if InStep(d, k, e, s, buf)
    then Some(Concat(d[k..s.p]) + buf + Merge(cmp, Rest(d, s.p, s.n, s.i1), Rest(d, s.q, s.m, s.i2)))
    else None
  }

  ghost predicate MergeState<T>(cmp: (T, T) -> int, d: seq<seq<T>>, k: nat, e: nat, s: Cursor, buf: seq<T>,
                                target: seq<T>) {
    Outcome(cmp, d, k, e, s, buf) == Some(target)
  }

  lemma StartState<T>(cmp: (T, T) -> int, d: seq<seq<T>>, k: nat, n: nat, m: nat, q: nat, e: nat, s: Cursor,
                     buf: seq<T>, target: seq<T>)
    requires q == k + n && e == q + m <= |d| && s == Cursor(k, q, n, m, 0, 0) && buf == []
    requires target == Merge(cmp, Concat(d[k..q]), Concat(d[q..e]))
    ensures MergeState(cmp, d, k, e, s, buf, target)
  {
    var a, b := Concat(d[k..q]), Concat(d[q..e]);
    assert Rest(d, k, n, s.i1) == a && Rest(d, q, m, s.i2) == b && Concat(d[k..s.p]) == [];
    assert InStep(d, k, e, s, buf);
    assert [] + buf + Merge(cmp, a, b) == Merge(cmp, a, b);
  }

  lemma RestHead<T>(d: seq<seq<T>>, p: nat, n: nat, i: nat)
    requires n > 0 && p + n <= |d| && i < |d[p]|
    ensures Rest(d, p, n, i) == [d[p][i]] + Rest(d, p, n, i + 1)
  {
    ConcatHead(d, p, n);
  }

  lemma RestNext<T>(d: seq<seq<T>>, p: nat, n: nat)
    requires n > 0 && p + n <= |d|
    ensures Rest(d, p, n, |d[p]|) == Rest(d, p + 1, n - 1, 0)
  {
    ConcatHead(d, p, n);
    assert d[p + 1..p + 1 + (n - 1)] == d[p + 1..p + n];
  }

  /** The entry of the first run goes next. */
  lemma TakeFirst<T>(cmp: (T, T) -> int, d: seq<seq<T>>, k: nat, e: nat, s: Cursor, buf: seq<T>, target: seq<T>)
    requires MergeState(cmp, d, k, e, s, buf, target) && s.n > 0 && s.m > 0 && s.i1 < |d[s.p]| && s.i2 < |d[s.q]|
    requires cmp(d[s.p][s.i1], d[s.q][s.i2]) <= 0
    ensures MergeState(cmp, d, k, e, s.TookFirst(), buf + [d[s.p][s.i1]], target)
  {
    RestHead(d, s.p, s.n, s.i1);
    RestHead(d, s.q, s.m, s.i2);
    MakesTakeFirst(cmp, Concat(d[k..s.p]), buf, d[s.p][s.i1], Rest(d, s.p, s.n, s.i1 + 1), Rest(d, s.q, s.m, s.i2),
                   target);
  }

  /** The entry of the second run goes next. */
  lemma TakeSecond<T>(cmp: (T, T) -> int, d: seq<seq<T>>, k: nat, e: nat, s: Cursor, buf: seq<T>, target: seq<T>)
    requires MergeState(cmp, d, k, e, s, buf, target) && s.n > 0 && s.m > 0 && s.i1 < |d[s.p]| && s.i2 < |d[s.q]|
    requires cmp(d[s.p][s.i1], d[s.q][s.i2]) > 0
    ensures MergeState(cmp, d, k, e, s.TookSecond(), buf + [d[s.q][s.i2]], target)
  {
    RestHead(d, s.p, s.n, s.i1);
    RestHead(d, s.q, s.m, s.i2);
    MakesTakeSecond(cmp, Concat(d[k..s.p]), buf, Rest(d, s.p, s.n, s.i1), d[s.q][s.i2], Rest(d, s.q, s.m, s.i2 + 1),
                    target);
  }

  lemma FilledStretches<T>(d: seq<seq<T>>, d': seq<seq<T>>, s: Cursor, x: seq<T>, s': Cursor)
    requires s.n > 0 && s.p + s.n <= s.q && s.q + s.m <= |d| && s.i1 == |d[s.p]|
    requires d' == d[s.p := x] && s' == s.PastFirst()
    ensures d'[..s.p] == d[..s.p]
    ensures Rest(d', s'.p, s'.n, s'.i1) == Rest(d, s.p, s.n, s.i1)
    ensures Rest(d', s'.q, s'.m, s'.i2) == Rest(d, s.q, s.m, s.i2)
  {
    RestNext(d, s.p, s.n);
    assert d'[s'.p..s'.p + s'.n] == d[s.p + 1..s.p + 1 + (s.n - 1)];
    assert d'[s.q..s.q + s.m] == d[s.q..s.q + s.m];
  }

  lemma FilledInStep<T>(d: seq<seq<T>>, d': seq<seq<T>>, k: nat, e: nat, s: Cursor, buf: seq<T>, s': Cursor)
    requires InStep(d, k, e, s, buf) && s.n > 0 && s.i1 == |d[s.p]| && d' == d[s.p := buf[..s.i1]]
    requires s' == s.PastFirst()
    ensures InStep(d', k, e, s', buf[s.i1..])
  {
    forall j | s'.p + s'.n <= j < s'.q ensures NoEntries(d', j) {
      assert NoEntries(d, j);
    }
  }

  /** The first run's node is read to its end: it takes the front of the buffer. */
  lemma FinishFirst<T>(cmp: (T, T) -> int, d: seq<seq<T>>, k: nat, e: nat, s: Cursor, buf: seq<T>, target: seq<T>)
    requires MergeState(cmp, d, k, e, s, buf, target) && s.n > 0 && s.i1 == |d[s.p]|
    ensures MergeState(cmp, d[s.p := buf[..s.i1]], k, e, s.PastFirst(), buf[s.i1..], target)
  {
    var x, rest, s', done := buf[..s.i1], buf[s.i1..], s.PastFirst(), Concat(d[k..s.p]);
    var d' := d[s.p := x];
    var done' := Concat(d'[k..s'.p]);
    FilledStretches(d, d', s, x, s');
    MakesFlush(cmp, done, buf, s.i1, Rest(d, s.p, s.n, s.i1), Rest(d, s.q, s.m, s.i2), target);
    assert done' == done + x by {
      ConcatRefilled(d, d', k, s.p, x);
    }
    FilledInStep(d, d', k, e, s, buf, s');
  }

  /** From d to d' the element at q moved to p and became x. */
  ghost predicate MovedAs<T>(d: seq<T>, d': seq<T>, p: nat, q: nat, x: T) {
    && |d'| == |d| && p <= q < |d| && d'[p] == x
    && (forall j :: 0 <= j < p || q < j < |d| ==> d'[j] == d[j])
    && (forall j :: p < j <= q ==> d'[j] == d[j - 1])
  }

  lemma ConcatRefilled<T>(d: seq<seq<T>>, d': seq<seq<T>>, k: nat, p: nat, x: seq<T>)
    requires k <= p < |d'| && p <= |d| && d'[..p] == d[..p] && d'[p] == x
    ensures Concat(d'[k..p + 1]) == Concat(d[k..p]) + x
  {
    assert d'[k..p + 1][..p - k] == d'[..p][k..] == d[..p][k..] == d[k..p];
  }

  /** What is left of the runs is the same after the second run's node has moved. */
  lemma MovedStretches<T>(d: seq<seq<T>>, d': seq<seq<T>>, s: Cursor, x: seq<T>, s': Cursor)
    requires s.m > 0 && s.p + s.n <= s.q && s.q + s.m <= |d| && s.i2 == |d[s.q]|
    requires MovedAs(d, d', s.p, s.q, x) && s' == s.MovedSecond()
    ensures d'[..s.p] == d[..s.p]
    ensures Rest(d', s'.p, s'.n, s'.i1) == Rest(d, s.p, s.n, s.i1)
    ensures Rest(d', s'.q, s'.m, s'.i2) == Rest(d, s.q, s.m, s.i2)
  {
    RestNext(d, s.q, s.m);
    assert d'[s'.p..s'.p + s'.n] == d[s.p..s.p + s.n];
    assert d'[s'.q..s'.q + s'.m] == d[s.q + 1..s.q + 1 + (s.m - 1)];
  }

  /** The second run's node is read to its end: it moves before the first run's
      node and takes the front of the buffer. */
  lemma FinishSecond<T>(cmp: (T, T) -> int, d: seq<seq<T>>, d': seq<seq<T>>, k: nat, e: nat, s: Cursor, buf: seq<T>,
                        target: seq<T>)
    requires MergeState(cmp, d, k, e, s, buf, target) && s.m > 0 && s.i2 == |d[s.q]|
    requires MovedAs(d, d', s.p, s.q, buf[..s.i2])
    ensures MergeState(cmp, d', k, e, s.MovedSecond(), buf[s.i2..], target)
  {
    var x, rest, s', done := buf[..s.i2], buf[s.i2..], s.MovedSecond(), Concat(d[k..s.p]);
    var done' := Concat(d'[k..s'.p]);
    MovedStretches(d, d', s, x, s');
    MakesFlush(cmp, done, buf, s.i2, Rest(d, s.p, s.n, s.i1), Rest(d, s.q, s.m, s.i2), target);
    assert done' == done + x by {
      ConcatRefilled(d, d', k, s.p, x);
    }
    MovedInStep(d, d', k, e, s, buf, s');
  }

  lemma MovedInStep<T>(d: seq<seq<T>>, d': seq<seq<T>>, k: nat, e: nat, s: Cursor, buf: seq<T>, s': Cursor)
    requires InStep(d, k, e, s, buf) && s.m > 0 && s.i2 == |d[s.q]| && MovedAs(d, d', s.p, s.q, buf[..s.i2])
    requires s' == s.MovedSecond()
    ensures InStep(d', k, e, s', buf[s.i2..])
  {
    forall j | s'.p + s'.n <= j < s'.q ensures NoEntries(d', j) {
      assert d'[j] == d[j - 1] && NoEntries(d, j - 1);
    }
  }

  lemma SkipFirst<T>(cmp: (T, T) -> int, d: seq<seq<T>>, k: nat, e: nat, s: Cursor, buf: seq<T>, target: seq<T>)
    requires MergeState(cmp, d, k, e, s, buf, target) && s.n > 0 && d[s.p] == []
    ensures MergeState(cmp, d, k, e, s.PastFirst(), buf, target)
  {
    var done := Concat(d[k..s.p]);
    RestNext(d, s.p, s.n);
    assert Concat(d[k..s.p + 1]) == done by {
      ConcatRefilled(d, d, k, s.p, []);
      assert done + [] == done;
    }
    assert InStep(d, k, e, s.PastFirst(), buf);
  }

  /** The node has no entry, or its last one is below y. */
  predicate EndsBelow<T>(cmp: (T, T) -> int, x: seq<T>, y: T) {
    x == [] || cmp(x[|x| - 1], y) < 0
  }

  lemma {:induction false} SkipFirsts<T>(cmp: (T, T) -> int, d: seq<seq<T>>, k: nat, e: nat, s: Cursor, buf: seq<T>,
                                         target: seq<T>, p: nat)
    requires MergeState(cmp, d, k, e, s, buf, target) && s.i1 == 0 && s.p <= p <= s.p + s.n
    requires forall j :: s.p <= j < p ==> d[j] == []
    ensures MergeState(cmp, d, k, e, s.FirstAt(p), buf, target)
    decreases p - s.p
  {
    if s.p < p {
      SkipFirst(cmp, d, k, e, s, buf, target);
      FirstAtPast(s, p);
      SkipFirsts(cmp, d, k, e, s.PastFirst(), buf, target, p);
    }
  }

  lemma {:induction false} SkipSeconds<T>(cmp: (T, T) -> int, d: seq<seq<T>>, k: nat, e: nat, s: Cursor, buf: seq<T>,
                                          target: seq<T>, q: nat)
    requires MergeState(cmp, d, k, e, s, buf, target) && s.i2 == 0 && s.q <= q <= s.q + s.m
    requires forall j :: s.q <= j < q ==> d[j] == []
    ensures MergeState(cmp, d, k, e, s.SecondAt(q), buf, target)
    decreases q - s.q
  {
    if s.q < q {
      SkipSecond(cmp, d, k, e, s, buf, target);
      SkipSeconds(cmp, d, k, e, s.PastSecond(), buf, target, q);
    }
  }

  lemma FirstAtPast(s: Cursor, p: nat)
    requires s.i1 == 0 && s.p < p <= s.p + s.n
    ensures s.PastFirst().p <= p <= s.PastFirst().p + s.PastFirst().n && s.PastFirst().FirstAt(p) == s.FirstAt(p)
  {
  }

  /** Nodes of the first run that end below the second run's head. */
  lemma {:induction false} SkipBelows<T(!new)>(cmp: (T, T) -> int, d: seq<seq<T>>, k: nat, e: nat, s: Cursor,
                                               buf: seq<T>, target: seq<T>, p: nat)
    requires TotalPreorder(cmp) && MergeState(cmp, d, k, e, s, buf, target) && buf == [] && s.p <= p <= s.p + s.n
    requires s.m > 0 && d[s.q] != []
    requires forall j :: s.p <= j < p ==> Sorted(cmp, d[j]) && EndsBelow(cmp, d[j], d[s.q][0])
    ensures MergeState(cmp, d, k, e, s.FirstAt(p), buf, target)
    decreases p - s.p
  {
    if s.p < p {
      var x, y := d[s.p], d[s.q][0];
      assert Sorted(cmp, x) && EndsBelow(cmp, x, y);
      forall i | 0 <= i < |x| ensures cmp(x[i], y) <= 0 {
        assert i < |x| - 1 ==> cmp(x[i], x[|x| - 1]) <= 0;
      }
      SkipBelow(cmp, d, k, e, s, buf, target);
      FirstAtPast(s, p);
      SkipBelows(cmp, d, k, e, s.PastFirst(), buf, target, p);
    }
  }

  /** An empty node between the runs. */
  lemma SkipBetween<T>(cmp: (T, T) -> int, d: seq<seq<T>>, k: nat, e: nat, s: Cursor, buf: seq<T>, target: seq<T>)
    requires MergeState(cmp, d, k, e, s, buf, target) && s.n == 0 && s.p < s.q
    ensures MergeState(cmp, d, k, e, s.PastGap(), buf, target)
  {
    var done := Concat(d[k..s.p]);
    assert NoEntries(d, s.p);
    assert Concat(d[k..s.p + 1]) == done by {
      ConcatRefilled(d, d, k, s.p, []);
      assert done + [] == done;
    }
    assert Rest(d, s.p, 0, 0) == Rest(d, s.p + 1, 0, 0) == [];
    assert InStep(d, k, e, s.PastGap(), buf);
  }

  lemma SkipSecond<T>(cmp: (T, T) -> int, d: seq<seq<T>>, k: nat, e: nat, s: Cursor, buf: seq<T>, target: seq<T>)
    requires MergeState(cmp, d, k, e, s, buf, target) && s.m > 0 && d[s.q] == []
    ensures MergeState(cmp, d, k, e, s.PastSecond(), buf, target)
  {
    RestNext(d, s.q, s.m);
  }

  lemma RestWhole<T>(d: seq<seq<T>>, p: nat, n: nat)
    requires n > 0 && p + n <= |d|
    ensures Rest(d, p, n, 0) == d[p] + Rest(d, p + 1, n - 1, 0)
  {
    ConcatHead(d, p, n);
    assert d[p + 1..p + 1 + (n - 1)] == d[p + 1..p + n];
  }

  /** With nothing in the buffer, what is left of the first run starts with a whole node. */
  lemma WholeNode<T>(d: seq<seq<T>>, k: nat, e: nat, s: Cursor, buf: seq<T>, s': Cursor, x: seq<T>, a: seq<T>)
    requires InStep(d, k, e, s, buf) && buf == [] && s.n > 0 && s' == s.PastFirst()
    requires x == d[s.p] && a == Rest(d, s'.p, s'.n, s'.i1)
    ensures Rest(d, s.p, s.n, s.i1) == x + a && s.i2 == 0
  {
    assert s.i1 == 0;
    RestWhole(d, s.p, s.n);
  }

  lemma StateMakes<T>(cmp: (T, T) -> int, d: seq<seq<T>>, k: nat, e: nat, s: Cursor, buf: seq<T>, target: seq<T>,
                      done: seq<T>, a: seq<T>, b: seq<T>)
    requires MergeState(cmp, d, k, e, s, buf, target) && done == Concat(d[k..s.p])
    requires a == Rest(d, s.p, s.n, s.i1) && b == Rest(d, s.q, s.m, s.i2)
    ensures Makes(cmp, done, buf, a, b, target)
  {
  }

  lemma MakesState<T>(cmp: (T, T) -> int, d: seq<seq<T>>, k: nat, e: nat, s: Cursor, buf: seq<T>, target: seq<T>,
                      done: seq<T>, a: seq<T>, b: seq<T>)
    requires InStep(d, k, e, s, buf) && Makes(cmp, done, buf, a, b, target)
    requires done == Concat(d[k..s.p]) && a == Rest(d, s.p, s.n, s.i1) && b == Rest(d, s.q, s.m, s.i2)
    ensures MergeState(cmp, d, k, e, s, buf, target)
  {
  }

  /** A whole node of the first run that is nowhere above the second run's head. */
  lemma SkipBelow<T>(cmp: (T, T) -> int, d: seq<seq<T>>, k: nat, e: nat, s: Cursor, buf: seq<T>, target: seq<T>)
    requires MergeState(cmp, d, k, e, s, buf, target) && buf == [] && s.n > 0 && s.m > 0 && d[s.q] != []
    requires forall i :: 0 <= i < |d[s.p]| ==> cmp(d[s.p][i], d[s.q][0]) <= 0
    ensures MergeState(cmp, d, k, e, s.PastFirst(), buf, target)
  {
    var s', done, x, b := s.PastFirst(), Concat(d[k..s.p]), d[s.p], Rest(d, s.q, s.m, s.i2);
    var a, done' := Rest(d, s'.p, s'.n, s'.i1), Concat(d[k..s'.p]);
    RestHead(d, s.q, s.m, s.i2);
    WholeNode(d, k, e, s, buf, s', x, a);
    StateMakes(cmp, d, k, e, s, buf, target, done, x + a, b);
    MakesPrefix(cmp, done, buf, x, a, b, target);
    assert done' == done + x by {
      ConcatRefilled(d, d, k, s.p, x);
    }
    BelowInStep(d, k, e, s, buf, s');
    MakesState(cmp, d, k, e, s', buf, target, done', a, b);
  }

  lemma BelowInStep<T>(d: seq<seq<T>>, k: nat, e: nat, s: Cursor, buf: seq<T>, s': Cursor)
    requires InStep(d, k, e, s, buf) && buf == [] && s.n > 0 && s' == s.PastFirst()
    ensures InStep(d, k, e, s', buf)
  {
  }

  /** All entries from k to e when the node at p is refilled with x, and the nodes
      between the stretches are empty. */
  lemma ConcatAll<T>(d: seq<seq<T>>, k: nat, lo: nat, p: nat, hi: nat, e: nat, x: seq<T>)
    requires k <= lo <= p < hi <= e <= |d|
    requires forall j :: lo <= j < p || hi <= j < e ==> NoEntries(d, j)
    ensures Concat(d[p := x][k..e]) == Concat(d[k..lo]) + (x + Concat(d[p + 1..hi]))
  {
    var d' := d[p := x];
    forall j | lo <= j < p || hi <= j < e ensures NoEntries(d', j) {
      assert NoEntries(d, j);
    }
    assert Concat(d'[p..e]) == x + Concat(d[p + 1..hi]) by {
      ConcatSplit(d', p, hi, e);
      ConcatEmpty(d', hi, e);
      ConcatHead(d', p, hi - p);
      assert d'[p + 1..hi] == d[p + 1..hi];
    }
    assert Concat(d'[k..p]) == Concat(d[k..lo]) by {
      ConcatSplit(d', k, lo, p);
      ConcatEmpty(d', lo, p);
      assert d'[k..lo] == d[k..lo];
    }
    ConcatSplit(d', k, p, e);
  }

  lemma RestOfHead<T>(d: seq<seq<T>>, p: nat, n: nat, i: nat)
    requires n > 0 && p + n <= |d| && i <= |d[p]|
    ensures Rest(d, p, n, i) == d[p][i..] + Concat(d[p + 1..p + n])
  {
    ConcatHead(d, p, n);
  }

  lemma Dumped<T>(done: seq<T>, buf: seq<T>, x: seq<T>, rest: seq<T>)
    ensures done + ((buf + x) + rest) == done + buf + (x + rest)
  {
  }

  /** The first run is used up: the buffer goes to the front of the second's node. */
  lemma DumpSecond<T>(cmp: (T, T) -> int, d: seq<seq<T>>, k: nat, e: nat, s: Cursor, buf: seq<T>, target: seq<T>)
    requires MergeState(cmp, d, k, e, s, buf, target) && s.n == 0 && s.m > 0
    ensures Concat(d[s.q := buf + d[s.q][s.i2..]][k..e]) == target
  {
    ConcatAll(d, k, s.p, s.q, e, e, buf + d[s.q][s.i2..]);
    RestOfHead(d, s.q, s.m, s.i2);
    assert Rest(d, s.p, 0, 0) == [];
    Dumped(Concat(d[k..s.p]), buf, d[s.q][s.i2..], Concat(d[s.q + 1..e]));
  }

  /** The second run is used up: the buffer goes to the front of the first's node. */
  lemma DumpFirst<T>(cmp: (T, T) -> int, d: seq<seq<T>>, k: nat, e: nat, s: Cursor, buf: seq<T>, target: seq<T>)
    requires MergeState(cmp, d, k, e, s, buf, target) && s.m == 0 && s.n > 0
    ensures Concat(d[s.p := buf + d[s.p][s.i1..]][k..e]) == target
  {
    ConcatAll(d, k, s.p, s.p, s.p + s.n, e, buf + d[s.p][s.i1..]);
    RestOfHead(d, s.p, s.n, s.i1);
    assert Rest(d, s.q, 0, 0) == [];
    Dumped(Concat(d[k..s.p]), buf, d[s.p][s.i1..], Concat(d[s.p + 1..s.p + s.n]));
  }

  /** One of the runs is used up with nothing read of the other. */
  lemma NothingToDump<T>(cmp: (T, T) -> int, d: seq<seq<T>>, k: nat, e: nat, s: Cursor, buf: seq<T>, target: seq<T>)
    requires MergeState(cmp, d, k, e, s, buf, target) && buf == [] && (s.n == 0) != (s.m == 0)
    ensures Concat(d[k..e]) == target
  {
    if s.n == 0 {
      DumpSecond(cmp, d, k, e, s, buf, target);
      assert s.i2 == 0 && buf + d[s.q][0..] == d[s.q];
      assert d[s.q := d[s.q]] == d;
    } else {
      DumpFirst(cmp, d, k, e, s, buf, target);
      assert s.i1 == 0 && buf + d[s.p][0..] == d[s.p];
      assert d[s.p := d[s.p]] == d;
    }
  }

  lemma SortedPart<T>(cmp: (T, T) -> int, before: seq<T>, s: seq<T>, after: seq<T>)
    requires Sorted(cmp, before + (s + after))
    ensures Sorted(cmp, s)
  {
    var all := before + (s + after);
    forall a, b | 0 <= a < b < |s| ensures cmp(s[a], s[b]) <= 0 {
      assert s[a] == all[|before| + a] && s[b] == all[|before| + b];
    }
  }

  /** Each node of a sorted stretch is sorted. */
  lemma NodeSorted<T>(cmp: (T, T) -> int, d: seq<seq<T>>, lo: nat, hi: nat, j: nat)
    requires lo <= j < hi <= |d| && Sorted(cmp, Concat(d[lo..hi]))
    ensures Sorted(cmp, d[j])
  {
    ConcatSplit(d, lo, j, hi);
    ConcatHead(d, j, hi - j);
    SortedPart(cmp, Concat(d[lo..j]), d[j], Concat(d[j + 1..hi]));
  }
}
