/** Expanding object-like macros (pre-process.c): the scan that splices bodies into the
    token list and marks, with UNTAINT tokens, where a macro may be expanded again. */
module Preprocess {

  type Name = nat

  /** `noexpand` marks a name that was met while its macro was being expanded.
      `Untaint` ends the body of a macro. */
  datatype Token = Ident(name: Name, noexpand: bool) | Other(nr: nat) | Untaint(name: Name)

  type Macros = map<Name, seq<Token>>

  predicate NoMarkers(toks: seq<Token>) {
    forall i :: 0 <= i < |toks| ==> !toks[i].Untaint?
  }

  /** A body as parse_expansion leaves it, without the UNTAINT token at its end. */
  predicate WellDefined(macros: Macros) {
    forall n :: n in macros ==> NoMarkers(macros[n])
  }

  // ---------------------------------------------------------------------------
  // The expansion of a token list
  // ---------------------------------------------------------------------------

  /** How many macros are not hidden. */
  function Unhidden(macros: Macros, hidden: set<Name>): nat {
    |macros.Keys - hidden|
  }

  lemma HideOneMore(macros: Macros, hidden: set<Name>, n: Name)
    requires n in macros && n !in hidden
    ensures Unhidden(macros, hidden + {n}) < Unhidden(macros, hidden)
  {
    assert macros.Keys - (hidden + {n}) == (macros.Keys - hidden) - {n};
  }

  predicate Expandable(macros: Macros, hidden: set<Name>, tok: Token) {
    tok.Ident? && !tok.noexpand && tok.name in macros && tok.name !in hidden
  }

  /** A name that stays: it is marked if its macro is hidden. */
  function Kept(macros: Macros, hidden: set<Name>, tok: Token): Token {
    if tok.Ident? && tok.name in macros && tok.name in hidden then Ident(tok.name, true) else tok
  }

  /** The expansion of a list while the macros of `hidden` are being expanded. */
  function Expansion(macros: Macros, hidden: set<Name>, toks: seq<Token>): seq<Token>
    decreases Unhidden(macros, hidden), |toks|
  {
    if |toks| == 0 then []
    else if Expandable(macros, hidden, toks[0]) then
      HideOneMore(macros, hidden, toks[0].name);
      Expansion(macros, hidden + {toks[0].name}, macros[toks[0].name]) + Expansion(macros, hidden, toks[1..])
    else [Kept(macros, hidden, toks[0])] + Expansion(macros, hidden, toks[1..])
  }

  lemma {:induction false} ExpansionAppend(macros: Macros, hidden: set<Name>, a: seq<Token>, b: seq<Token>)
    ensures Expansion(macros, hidden, a + b) == Expansion(macros, hidden, a) + Expansion(macros, hidden, b)
  {
    if |a| == 0 {
      assert a + b == b;
    } else {
      assert (a + b)[0] == a[0] && (a + b)[1..] == a[1..] + b;
      ExpansionAppend(macros, hidden, a[1..], b);
    }
  }

  // ---------------------------------------------------------------------------
  // Marked lists
  // ---------------------------------------------------------------------------

  /** The names that `toks` ends the expansion of. */
  function Markers(toks: seq<Token>): set<Name> {
    set i | 0 <= i < |toks| && toks[i].Untaint? :: toks[i].name
  }

  predicate MarkedOnce(toks: seq<Token>) {
    forall i, j :: 0 <= i < j < |toks| && toks[i].Untaint? && toks[j].Untaint? ==> toks[i].name != toks[j].name
  }

  /** What is left to come from a list with markers. */
  function Meaning(macros: Macros, tainted: set<Name>, toks: seq<Token>): seq<Token> {
    if |toks| == 0 then []
    else if toks[0].Untaint? then Meaning(macros, tainted - {toks[0].name}, toks[1..])
    else Expansion(macros, tainted, [toks[0]]) + Meaning(macros, tainted, toks[1..])
  }

  lemma {:induction false} MeaningUnmarked(macros: Macros, tainted: set<Name>, a: seq<Token>, b: seq<Token>)
    requires NoMarkers(a)
    ensures Meaning(macros, tainted, a + b) == Expansion(macros, tainted, a) + Meaning(macros, tainted, b)
  {
    if |a| == 0 {
      assert a + b == b;
    } else {
      assert (a + b)[0] == a[0] && (a + b)[1..] == a[1..] + b;
      MeaningUnmarked(macros, tainted, a[1..], b);
      ExpansionAppend(macros, tainted, [a[0]], a[1..]);
      assert [a[0]] + a[1..] == a;
      var x, y, z := Expansion(macros, tainted, [a[0]]), Expansion(macros, tainted, a[1..]),
                     Meaning(macros, tainted, b);
      assert Meaning(macros, tainted, a + b) == x + (y + z) == (x + y) + z;
    }
  }

  /** substitute, for a body without arguments: names of macros being expanded are
      marked as they are copied, and the body ends with its marker. */
  function Marked(tainted: set<Name>, body: seq<Token>): (r: seq<Token>)
    ensures |r| == |body|
  {
    if |body| == 0 then []
    else [MarkedToken(tainted, body[0])] + Marked(tainted, body[1..])
  }

  function MarkedToken(tainted: set<Name>, tok: Token): Token {
    if tok.Ident? && tok.name in tainted then Ident(tok.name, true) else tok
  }

  lemma {:induction false} MarkedIsUnmarked(tainted: set<Name>, body: seq<Token>)
    requires NoMarkers(body)
    ensures NoMarkers(Marked(tainted, body))
  {
    if |body| > 0 {
      MarkedIsUnmarked(tainted, body[1..]);
      var r := Marked(tainted, body);
      forall i | 0 <= i < |r| ensures !r[i].Untaint? {
        if i > 0 {
          assert r[i] == Marked(tainted, body[1..])[i - 1];
        }
      }
    }
  }

  lemma {:induction false} MarkedAppend(tainted: set<Name>, a: seq<Token>, b: seq<Token>)
    ensures Marked(tainted, a + b) == Marked(tainted, a) + Marked(tainted, b)
  {
    if |a| == 0 {
      assert a + b == b;
    } else {
      assert (a + b)[0] == a[0] && (a + b)[1..] == a[1..] + b;
      MarkedAppend(tainted, a[1..], b);
    }
  }

  /** Marking a name early makes no difference: it would be marked when it is reached. */
  lemma {:induction false} MarkingChangesNothing(macros: Macros, tainted: set<Name>, body: seq<Token>)
    requires tainted <= macros.Keys
    ensures Expansion(macros, tainted, Marked(tainted, body)) == Expansion(macros, tainted, body)
    ensures Steps(macros, tainted, Marked(tainted, body)) == Steps(macros, tainted, body)
  {
    if |body| > 0 {
      MarkingChangesNothing(macros, tainted, body[1..]);
      assert Marked(tainted, body)[1..] == Marked(tainted, body[1..]);
    }
  }

  // ---------------------------------------------------------------------------
  // How long the scan takes
  // ---------------------------------------------------------------------------

  /** How many tokens the scan passes or replaces. */
  function Steps(macros: Macros, hidden: set<Name>, toks: seq<Token>): nat
    decreases Unhidden(macros, hidden), |toks|
  {
    if |toks| == 0 then 0
    else if Expandable(macros, hidden, toks[0]) then
      HideOneMore(macros, hidden, toks[0].name);
      2 + Steps(macros, hidden + {toks[0].name}, macros[toks[0].name]) + Steps(macros, hidden, toks[1..])
    else 1 + Steps(macros, hidden, toks[1..])
  }

  function StepsLeft(macros: Macros, tainted: set<Name>, toks: seq<Token>): nat {
    if |toks| == 0 then 0
    else if toks[0].Untaint? then 1 + StepsLeft(macros, tainted - {toks[0].name}, toks[1..])
    else Steps(macros, tainted, [toks[0]]) + StepsLeft(macros, tainted, toks[1..])
  }

  lemma {:induction false} StepsAppend(macros: Macros, hidden: set<Name>, a: seq<Token>, b: seq<Token>)
    ensures Steps(macros, hidden, a + b) == Steps(macros, hidden, a) + Steps(macros, hidden, b)
  {
    if |a| == 0 {
      assert a + b == b;
    } else {
      assert (a + b)[0] == a[0] && (a + b)[1..] == a[1..] + b;
      StepsAppend(macros, hidden, a[1..], b);
    }
  }

  lemma {:induction false} StepsUnmarked(macros: Macros, tainted: set<Name>, a: seq<Token>, b: seq<Token>)
    requires NoMarkers(a)
    ensures StepsLeft(macros, tainted, a + b) == Steps(macros, tainted, a) + StepsLeft(macros, tainted, b)
  {
    if |a| == 0 {
      assert a + b == b;
    } else {
      assert (a + b)[0] == a[0] && (a + b)[1..] == a[1..] + b;
      StepsUnmarked(macros, tainted, a[1..], b);
      StepsAppend(macros, tainted, [a[0]], a[1..]);
      assert [a[0]] + a[1..] == a;
    }
  }

  /** Replacing a macro's name by its marked body, with the name tainted until the
      marker, keeps what is to come and shortens the way there. */
  lemma ExpandKeepsMeaning(macros: Macros, tainted: set<Name>, n: Name, rest: seq<Token>)
    requires WellDefined(macros) && tainted <= macros.Keys && Expandable(macros, tainted, Ident(n, false))
    ensures var now := Marked(tainted + {n}, macros[n]) + [Untaint(n)] + rest;
            Meaning(macros, tainted + {n}, now) == Meaning(macros, tainted, [Ident(n, false)] + rest)
            && StepsLeft(macros, tainted + {n}, now) < StepsLeft(macros, tainted, [Ident(n, false)] + rest)
  {
    var h, body, tok := tainted + {n}, macros[n], Ident(n, false);
    var marked, tail := Marked(h, body), [Untaint(n)] + rest;
    assert marked + [Untaint(n)] + rest == marked + tail;
    assert tail[0] == Untaint(n) && tail[1..] == rest && h - {n} == tainted;
    MarkedIsUnmarked(h, body);
    MeaningUnmarked(macros, h, marked, tail);
    StepsUnmarked(macros, h, marked, tail);
    MarkingChangesNothing(macros, h, body);
    var before := [tok] + rest;
    assert before[0] == tok && before[1..] == rest && [tok][1..] == [];
    HideOneMore(macros, tainted, n);
    assert Expansion(macros, tainted, [tok]) == Expansion(macros, h, body) + [];
  }

  // ---------------------------------------------------------------------------
  // The scan
  // ---------------------------------------------------------------------------

  lemma MarkersRest(toks: seq<Token>)
    requires |toks| > 0 && MarkedOnce(toks)
    ensures MarkedOnce(toks[1..])
    ensures Markers(toks[1..]) == if toks[0].Untaint? then Markers(toks) - {toks[0].name} else Markers(toks)
  {
    var rest := toks[1..];
    forall n ensures n in Markers(rest) <==> n in Markers(toks) && (toks[0].Untaint? ==> n != toks[0].name) {
      if n in Markers(toks) && (toks[0].Untaint? ==> n != toks[0].name) {
        var i :| 0 <= i < |toks| && toks[i].Untaint? && toks[i].name == n;
        assert rest[i - 1] == toks[i];
      }
      if n in Markers(rest) {
        var i :| 0 <= i < |rest| && rest[i].Untaint? && rest[i].name == n;
        assert toks[i + 1] == rest[i];
      }
    }
  }

  lemma MarkersSpliced(body: seq<Token>, n: Name, rest: seq<Token>)
    requires NoMarkers(body) && MarkedOnce(rest) && n !in Markers(rest)
    ensures MarkedOnce(body + [Untaint(n)] + rest)
    ensures Markers(body + [Untaint(n)] + rest) == Markers(rest) + {n}
  {
    var all := body + [Untaint(n)] + rest;
    forall i | 0 <= i < |all| && all[i].Untaint? ensures i >= |body| && (i > |body| ==> all[i].name in Markers(rest)) {
      assert i > |body| ==> all[i] == rest[i - |body| - 1];
    }
    forall m ensures m in Markers(all) <==> m in Markers(rest) || m == n {
      if m in Markers(rest) {
        var i :| 0 <= i < |rest| && rest[i].Untaint? && rest[i].name == m;
        assert all[|body| + 1 + i] == rest[i];
      }
      assert all[|body|] == Untaint(n);
    }
    forall i, j | 0 <= i < j < |all| && all[i].Untaint? && all[j].Untaint? ensures all[i].name != all[j].name {
      assert all[j] == rest[j - |body| - 1];
      assert i > |body| ==> all[i] == rest[i - |body| - 1];
    }
  }

  /** The list from its first token that is no marker. */
  function PastMarkers(toks: seq<Token>): seq<Token> {
    if toks != [] && toks[0].Untaint? then PastMarkers(toks[1..]) else toks
  }

  /** The names of the markers that a list begins with. */
  function MarkersAhead(toks: seq<Token>): set<Name> {
    if toks != [] && toks[0].Untaint? then {toks[0].name} + MarkersAhead(toks[1..]) else {}
  }

  /** The token list being scanned: what the scan has passed, what is still ahead, and
      the macros whose names are tainted. */
  class Scanner {
    const macros: Macros
    var done: seq<Token>
    var rest: seq<Token>
    var tainted: set<Name>

    constructor (macros: Macros, toks: seq<Token>)
      requires WellDefined(macros) && NoMarkers(toks)
      ensures Valid() && this.macros == macros && done == [] && rest == toks && tainted == {}
    {
      this.macros, done, rest, tainted := macros, [], toks, {};
    }

    /** A name is tainted exactly as long as its marker is ahead. */
    ghost predicate Valid()
      reads this
    {
      && WellDefined(macros) && NoMarkers(done)
      && tainted == Markers(rest) && MarkedOnce(rest) && tainted <= macros.Keys
    }

    ghost function ToCome(): seq<Token>
      reads this
    {
      Meaning(macros, tainted, rest)
    }

    ghost function Left(): nat
      reads this
    {
      StepsLeft(macros, tainted, rest)
    }

    /** scan_next: drop the markers at the cursor. */
    method ScanNext() returns (eof: bool)
      requires Valid()
      modifies this`rest, this`tainted
      ensures Valid() && ToCome() == old(ToCome()) && Left() <= old(Left())
      ensures rest == PastMarkers(old(rest)) && tainted == old(tainted) - MarkersAhead(old(rest))
      ensures (eof <==> rest == []) && (rest != [] ==> !rest[0].Untaint?)
    {
      while rest != [] && rest[0].Untaint?
        invariant Valid() && ToCome() == old(ToCome()) && Left() <= old(Left())
        invariant PastMarkers(rest) == PastMarkers(old(rest))
        invariant tainted - MarkersAhead(rest) == old(tainted) - MarkersAhead(old(rest))
        decreases |rest|
      {
        MarkersRest(rest);
        tainted := tainted - {rest[0].name};
        rest := rest[1..];
      }
      eof := rest == [];
    }

    /** substitute, for a body without arguments. */
    method Substitute(body: seq<Token>) returns (added: seq<Token>)
      ensures added == Marked(tainted, body)
    {
      added := [];
      assert body[..0] == [];
      for i := 0 to |body|
        invariant added == Marked(tainted, body[..i])
      {
        var token := body[i];
        if token.Ident? && token.name in tainted {
          token := Ident(token.name, true);
        }
        added := added + [token];
        assert body[..i + 1] == body[..i] + [body[i]];
        MarkedAppend(tainted, body[..i], [body[i]]);
      }
      assert body[..|body|] == body;
    }

    /** expand: put the body in the name's place, unless the macro is being expanded. */
    method Expand() returns (stays: bool)
      requires Valid() && rest != [] && rest[0].Ident? && !rest[0].noexpand && rest[0].name in macros
      modifies this`rest, this`tainted
      ensures Valid()
      ensures stays <==> old(rest)[0].name in old(tainted)
      ensures stays ==> tainted == old(tainted) && rest == old(rest)[0 := Ident(old(rest)[0].name, true)]
      ensures !stays ==> ToCome() == old(ToCome()) && Left() < old(Left())
      ensures !stays ==>
                var n := old(rest)[0].name;
                tainted == old(tainted) + {n} && rest == Marked(tainted, macros[n]) + [Untaint(n)] + old(rest)[1..]
    {
      var expanding := rest[0].name;
      if expanding in tainted {
        MarkersRest(rest);
        rest := rest[0 := Ident(expanding, true)];
        MarkersFirst(rest);
        return true;
      }
      ghost var before, was := rest, tainted;
      MarkersRest(before);
      assert before == [Ident(expanding, false)] + before[1..];
      tainted := tainted + {expanding};
      var last := rest[1..];
      var body := Substitute(macros[expanding]);
      MarkedIsUnmarked(tainted, macros[expanding]);
      rest := body + [Untaint(expanding)] + last;
      MarkersSpliced(body, expanding, last);
      ExpandKeepsMeaning(macros, was, expanding, last);
      stays := false;
    }

    /** expand_one_symbol, without the names the preprocessor defines itself. */
    method ExpandOneSymbol() returns (stays: bool)
      requires Valid() && rest != [] && rest[0].Ident?
      modifies this`rest, this`tainted
      ensures Valid()
      ensures stays ==> tainted == old(tainted) && rest == old(rest)[0 := Kept(macros, tainted, old(rest)[0])]
      ensures stays <==> !Expandable(macros, old(tainted), old(rest)[0])
      ensures !stays ==> ToCome() == old(ToCome()) && Left() < old(Left())
    {
      if rest[0].noexpand {
        assert rest == rest[0 := Kept(macros, tainted, rest[0])];
        return true;
      }
      if rest[0].name in macros {
        stays := Expand();
        return;
      }
      assert rest == rest[0 := Kept(macros, tainted, rest[0])];
      stays := true;
    }

    /** The cursor moves past a token that stays. */
    lemma Passed(before: Token)
      requires rest != [] && !before.Untaint? && !Expandable(macros, tainted, before)
               && rest[0] == Kept(macros, tainted, before)
      ensures Meaning(macros, tainted, rest[0 := before]) == [rest[0]] + Meaning(macros, tainted, rest[1..])
      ensures StepsLeft(macros, tainted, rest[1..]) < StepsLeft(macros, tainted, rest[0 := before])
    {
      var was := rest[0 := before];
      assert was[1..] == rest[1..] && [before][1..] == [];
      assert Expansion(macros, tainted, [before]) == [rest[0]] + [];
    }

    /** The token at the cursor is replaced, or the cursor moves past it. */
    method NextToken()
      requires Valid() && rest != [] && !rest[0].Untaint?
      modifies this`done, this`rest, this`tainted
      ensures Valid() && done + ToCome() == old(done) + old(ToCome()) && Left() < old(Left())
    {
      ghost var before, was := rest[0], rest;
      var stays := true;
      if rest[0].Ident? {
        stays := ExpandOneSymbol();
      } else {
        assert was == was[0 := before];
      }
      if stays {
        assert rest[0 := before] == was;
        Passed(before);
        MarkersRest(rest);
        done := done + [rest[0]];
        rest := rest[1..];
      }
    }

    /** expand_list: what comes out is what the markers said was to come. */
    method ExpandList()
      requires Valid()
      modifies this`done, this`rest, this`tainted
      ensures Valid() && rest == [] && tainted == {}
      ensures done == old(done) + old(ToCome())
    {
      while true
        invariant Valid() && done + ToCome() == old(done) + old(ToCome())
        decreases Left()
      {
        var eof := ScanNext();
        if eof {
          assert done + [] == done;
          break;
        }
        NextToken();
      }
    }
  }

  lemma MarkersFirst(toks: seq<Token>)
    requires |toks| > 0 && !toks[0].Untaint? && MarkedOnce(toks[1..])
    ensures MarkedOnce(toks) && Markers(toks) == Markers(toks[1..])
  {
    var rest := toks[1..];
    forall i | 0 < i < |toks| ensures toks[i] == rest[i - 1] {
    }
    forall n ensures n in Markers(toks) <==> n in Markers(rest) {
      if n in Markers(toks) {
        var i :| 0 <= i < |toks| && toks[i].Untaint? && toks[i].name == n;
        assert rest[i - 1] == toks[i];
      }
      if n in Markers(rest) {
        var i :| 0 <= i < |rest| && rest[i].Untaint? && rest[i].name == n;
        assert toks[i + 1] == rest[i];
      }
    }
  }

  /** Scanning a fresh list gives its expansion. */
  method ExpandTokens(macros: Macros, toks: seq<Token>) returns (r: seq<Token>)
    requires WellDefined(macros) && NoMarkers(toks)
    ensures r == Expansion(macros, {}, toks)
  {
    var scanner := new Scanner(macros, toks);
    MeaningUnmarked(macros, {}, toks, []);
    assert toks + [] == toks;
    scanner.ExpandList();
    assert [] + Expansion(macros, {}, toks) == Expansion(macros, {}, toks) + Meaning(macros, {}, []);
    r := scanner.done;
  }
}
