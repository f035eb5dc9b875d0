/** The equivalence that a set of pairs generates. */
module Equivalence {

  predicate Linked<T(==)>(pairs: set<(T, T)>, a: T, b: T) {
    (a, b) in pairs || (b, a) in pairs
  }

  /** Elements one pair apart, from a to b. */
  predicate IsChain<T(==)>(pairs: set<(T, T)>, s: seq<T>, a: T, b: T) {
    && |s| > 0 && s[0] == a && s[|s| - 1] == b
    && (forall i {:trigger s[i]} :: 0 < i < |s| ==> Linked(pairs, s[i - 1], s[i]))
  }

  ghost predicate Connected<T(!new)>(pairs: set<(T, T)>, a: T, b: T) {
    exists s :: IsChain(pairs, s, a, b)
  }

  lemma ConnectedSelf<T(!new)>(pairs: set<(T, T)>, a: T)
    ensures Connected(pairs, a, a)
  {
    assert IsChain(pairs, [a], a, a);
  }

  lemma ConnectedPair<T(!new)>(pairs: set<(T, T)>, a: T, b: T)
    requires Linked(pairs, a, b)
    ensures Connected(pairs, a, b)
  {
    assert IsChain(pairs, [a, b], a, b);
  }

  lemma ConnectedTrans<T(!new)>(pairs: set<(T, T)>, a: T, b: T, c: T)
    requires Connected(pairs, a, b) && Connected(pairs, b, c)
    ensures Connected(pairs, a, c)
  {
    var s :| IsChain(pairs, s, a, b);
    var t :| IsChain(pairs, t, b, c);
    var u := s + t[1..];
    forall i {:trigger u[i]} | 0 < i < |u| ensures Linked(pairs, u[i - 1], u[i]) {
      if i < |s| {
        assert u[i] == s[i] && u[i - 1] == s[i - 1];
      } else {
        assert u[i] == t[i - |s| + 1];
        assert u[i - 1] == t[i - |s|];
      }
    }
    assert IsChain(pairs, u, a, c);
  }

  lemma ConnectedSym<T(!new)>(pairs: set<(T, T)>, a: T, b: T)
    requires Connected(pairs, a, b)
    ensures Connected(pairs, b, a)
  {
    var s :| IsChain(pairs, s, a, b);
    var t := seq(|s|, i requires 0 <= i < |s| => s[|s| - 1 - i]);
    forall i {:trigger t[i]} | 0 < i < |t| ensures Linked(pairs, t[i - 1], t[i]) {
      var k := |s| - i;
      assert t[i] == s[k - 1] && t[i - 1] == s[k];
      assert Linked(pairs, s[k - 1], s[k]);
    }
    assert IsChain(pairs, t, b, a);
  }

  lemma ConnectedMore<T(!new)>(pairs: set<(T, T)>, more: set<(T, T)>, a: T, b: T)
    requires Connected(pairs, a, b) && pairs <= more
    ensures Connected(more, a, b)
  {
    var s :| IsChain(pairs, s, a, b);
    forall i {:trigger s[i]} | 0 < i < |s| ensures Linked(more, s[i - 1], s[i]) {
      assert Linked(pairs, s[i - 1], s[i]);
    }
    assert IsChain(more, s, a, b);
  }

  /** What a new pair connects: through it, once at most. */
  ghost predicate ThroughPair<T(!new)>(pairs: set<(T, T)>, x: T, y: T, a: T, b: T) {
    || Connected(pairs, a, b)
    || (Connected(pairs, a, x) && Connected(pairs, y, b))
    || (Connected(pairs, a, y) && Connected(pairs, x, b))
  }

  lemma {:induction false} ChainThroughPair<T(!new)>(pairs: set<(T, T)>, x: T, y: T, more: set<(T, T)>, s: seq<T>,
                                                     a: T, b: T)
    requires more == pairs + {(x, y)} && IsChain(more, s, a, b)
    ensures ThroughPair(pairs, x, y, a, b)
    decreases |s|
  {
    if |s| == 1 {
      ConnectedSelf(pairs, a);
    } else {
      var front, c := s[..|s| - 1], s[|s| - 2];
      forall i {:trigger front[i]} | 0 < i < |front| ensures Linked(more, front[i - 1], front[i]) {
        assert front[i] == s[i] && front[i - 1] == s[i - 1];
      }
      ChainThroughPair(pairs, x, y, more, front, a, c);
      assert Linked(more, s[|s| - 2], s[|s| - 1]);
      LastStep(pairs, x, y, a, c, b);
    }
  }

  lemma LastStep<T(!new)>(pairs: set<(T, T)>, x: T, y: T, a: T, c: T, b: T)
    requires ThroughPair(pairs, x, y, a, c) && Linked(pairs + {(x, y)}, c, b)
    ensures ThroughPair(pairs, x, y, a, b)
  {
    if Linked(pairs, c, b) {
      ConnectedPair(pairs, c, b);
      if Connected(pairs, a, c) {
        ConnectedTrans(pairs, a, c, b);
      } else if Connected(pairs, a, x) && Connected(pairs, y, c) {
        ConnectedTrans(pairs, y, c, b);
      } else {
        ConnectedTrans(pairs, x, c, b);
      }
    } else {
      ConnectedSelf(pairs, x);
      ConnectedSelf(pairs, y);
      assert (c == x && b == y) || (c == y && b == x);
    }
  }

  /** The equivalence with one pair more. */
  lemma OneMorePair<T(!new)>(pairs: set<(T, T)>, x: T, y: T, more: set<(T, T)>, a: T, b: T)
    requires more == pairs + {(x, y)}
    ensures Connected(more, a, b) <==> ThroughPair(pairs, x, y, a, b)
  {
    if Connected(more, a, b) {
      var s :| IsChain(more, s, a, b);
      ChainThroughPair(pairs, x, y, more, s, a, b);
    }
    if ThroughPair(pairs, x, y, a, b) {
      assert Linked(more, x, y) && Linked(more, y, x);
      ConnectedPair(more, x, y);
      ConnectedPair(more, y, x);
      if Connected(pairs, a, b) {
        ConnectedMore(pairs, more, a, b);
      } else if Connected(pairs, a, x) && Connected(pairs, y, b) {
        ConnectedMore(pairs, more, a, x);
        ConnectedMore(pairs, more, y, b);
        ConnectedTrans(more, a, x, y);
        ConnectedTrans(more, a, y, b);
      } else {
        ConnectedMore(pairs, more, a, y);
        ConnectedMore(pairs, more, x, b);
        ConnectedTrans(more, a, y, x);
        ConnectedTrans(more, a, x, b);
      }
    }
  }

  lemma FirstStep<T(!new)>(pairs: set<(T, T)>, s: seq<T>, a: T, b: T)
    requires IsChain(pairs, s, a, b)
    ensures a == b || exists p :: p in pairs && (p.0 == a || p.1 == a)
  {
    if |s| > 1 {
      assert Linked(pairs, s[0], s[1]);
    }
  }

  /** An element in no pair is connected to itself alone. */
  lemma Alone<T(!new)>(pairs: set<(T, T)>, a: T, b: T)
    requires forall p :: p in pairs ==> p.0 != a && p.1 != a
    requires Connected(pairs, a, b) || Connected(pairs, b, a)
    ensures a == b
  {
    if Connected(pairs, b, a) {
      ConnectedSym(pairs, b, a);
    }
    var s :| IsChain(pairs, s, a, b);
    FirstStep(pairs, s, a, b);
  }
}
