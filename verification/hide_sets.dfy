/** Rescanning in the sense of section 6.10.3.4 of ISO/IEC 9899:1999, with the set of
    macros that must not be replaced kept at each token: the marked scan agrees with it. */
module HideSets {
  import opened Preprocess

  /** A token, and the macros in whose replacement it came. */
  datatype Hidden = Hidden(tok: Token, within: set<Name>)

  function All(toks: seq<Token>, within: set<Name>): (r: seq<Hidden>)
    ensures |r| == |toks|
  {
    if |toks| == 0 then [] else [Hidden(toks[0], within)] + All(toks[1..], within)
  }

  function Weight(macros: Macros, ts: seq<Hidden>): nat {
    if |ts| == 0 then 0 else Steps(macros, ts[0].within, [ts[0].tok]) + Weight(macros, ts[1..])
  }

  lemma {:induction false} WeightOfAll(macros: Macros, toks: seq<Token>, within: set<Name>, rest: seq<Hidden>)
    ensures Weight(macros, All(toks, within) + rest) == Steps(macros, within, toks) + Weight(macros, rest)
  {
    var ts := All(toks, within);
    if |toks| == 0 {
      assert ts + rest == rest;
    } else {
      assert (ts + rest)[0] == ts[0] && (ts + rest)[1..] == All(toks[1..], within) + rest;
      WeightOfAll(macros, toks[1..], within, rest);
      StepsAppend(macros, within, [toks[0]], toks[1..]);
      assert [toks[0]] + toks[1..] == toks;
    }
  }

  lemma StepsOfOne(macros: Macros, within: set<Name>, tok: Token)
    ensures Steps(macros, within, [tok]) ==
            if Expandable(macros, within, tok) then 2 + Steps(macros, within + {tok.name}, macros[tok.name]) else 1
  {
    assert [tok][1..] == [];
    if Expandable(macros, within, tok) {
      HideOneMore(macros, within, tok.name);
    }
  }

  /** Replace the first token's macro and scan again, or keep the token and go on. */
  function Rescan(macros: Macros, ts: seq<Hidden>): seq<Token>
    decreases Weight(macros, ts)
  {
    if |ts| == 0 then []
    else
      var tok, within := ts[0].tok, ts[0].within;
      StepsOfOne(macros, within, tok);
      if Expandable(macros, within, tok) then
        WeightOfAll(macros, macros[tok.name], within + {tok.name}, ts[1..]);
        Rescan(macros, All(macros[tok.name], within + {tok.name}) + ts[1..])
      else [Kept(macros, within, tok)] + Rescan(macros, ts[1..])
  }

  /** Each token expanded on its own. */
  function Each(macros: Macros, ts: seq<Hidden>): seq<Token> {
    if |ts| == 0 then [] else Expansion(macros, ts[0].within, [ts[0].tok]) + Each(macros, ts[1..])
  }

  lemma {:induction false} EachOfAll(macros: Macros, toks: seq<Token>, within: set<Name>, rest: seq<Hidden>)
    ensures Each(macros, All(toks, within) + rest) == Expansion(macros, within, toks) + Each(macros, rest)
  {
    var ts := All(toks, within);
    if |toks| == 0 {
      assert ts + rest == rest;
    } else {
      var tok, tail := toks[0], toks[1..];
      var first, others, after := Expansion(macros, within, [tok]), Expansion(macros, within, tail), Each(macros, rest);
      assert Each(macros, ts + rest) == first + (others + after) by {
        assert (ts + rest)[0] == ts[0] && (ts + rest)[1..] == All(tail, within) + rest;
        EachOfAll(macros, tail, within, rest);
      }
      assert Expansion(macros, within, toks) == first + others by {
        ExpansionAppend(macros, within, [tok], tail);
        assert [tok] + tail == toks;
      }
      assert first + (others + after) == (first + others) + after;
    }
  }

  lemma {:induction false} RescanIsEach(macros: Macros, ts: seq<Hidden>)
    ensures Rescan(macros, ts) == Each(macros, ts)
    decreases Weight(macros, ts)
  {
    if |ts| > 0 {
      var tok, within := ts[0].tok, ts[0].within;
      StepsOfOne(macros, within, tok);
      assert [tok][1..] == [];
      if Expandable(macros, within, tok) {
        var h, body := within + {tok.name}, macros[tok.name];
        HideOneMore(macros, within, tok.name);
        WeightOfAll(macros, body, h, ts[1..]);
        RescanIsEach(macros, All(body, h) + ts[1..]);
        EachOfAll(macros, body, h, ts[1..]);
        assert Expansion(macros, within, [tok]) == Expansion(macros, h, body) + [];
      } else {
        RescanIsEach(macros, ts[1..]);
        assert Expansion(macros, within, [tok]) == [Kept(macros, within, tok)] + [];
      }
    }
  }

  /** The expansion is what rescanning with sets of hidden macros gives. */
  lemma ExpansionIsRescan(macros: Macros, toks: seq<Token>)
    ensures Expansion(macros, {}, toks) == Rescan(macros, All(toks, {}))
  {
    var ts := All(toks, {});
    RescanIsEach(macros, ts);
    EachOfAll(macros, toks, {}, []);
    assert ts + [] == ts;
    assert Expansion(macros, {}, toks) + Each(macros, []) == Expansion(macros, {}, toks);
  }

  /** No name of a macro is left in the output that may still be replaced. */
  lemma {:induction false} NothingLeft(macros: Macros, hidden: set<Name>, toks: seq<Token>, i: nat)
    requires WellDefined(macros) && NoMarkers(toks) && i < |Expansion(macros, hidden, toks)|
    ensures var tok := Expansion(macros, hidden, toks)[i];
            !tok.Untaint? && (tok.Ident? && tok.name in macros ==> tok.noexpand)
    decreases Unhidden(macros, hidden), |toks|
  {
    if Expandable(macros, hidden, toks[0]) {
      var n := toks[0].name;
      HideOneMore(macros, hidden, n);
      var front := Expansion(macros, hidden + {n}, macros[n]);
      if i < |front| {
        NothingLeft(macros, hidden + {n}, macros[n], i);
      } else {
        NothingLeft(macros, hidden, toks[1..], i - |front|);
      }
    } else if i > 0 {
      NothingLeft(macros, hidden, toks[1..], i - 1);
    }
  }
}
