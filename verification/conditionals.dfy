/** The nesting of #if groups (pre-process.c): one counter and a tag for each open
    conditional stand for what is known about all of them. */
module Conditionals {

  /** What is known of an open conditional: whether it began in live text, how many of
      its groups were live, whether the current one is, and whether #else was seen. */
  datatype Cond = Cond(outer: bool, groups: nat, here: bool, elseSeen: bool)

  /** TOKEN_IF, TOKEN_SKIP_GROUPS, TOKEN_ELSE: the type of the directive's token. */
  datatype Tag = IF | SKIP_GROUPS | ELSE

  /** A directive with what its condition amounts to; -1 stands for a bad #ifdef. */
  datatype Line = If(value: int) | Elif(holds: bool) | Else | Endif | Text(nr: nat)

  // ---------------------------------------------------------------------------
  // Conditionals as records
  // ---------------------------------------------------------------------------

  function Top(conds: seq<Cond>): Cond
    requires conds != []
  {
    conds[|conds| - 1]
  }

  function Below(conds: seq<Cond>): seq<Cond>
    requires conds != []
  {
    conds[..|conds| - 1]
  }

  /** Text is live when the current group of every open conditional is. */
  predicate Live(conds: seq<Cond>) {
    |conds| == 0 || (Top(conds).here && Live(Below(conds)))
  }

  /** A new group of the innermost conditional begins. */
  function NewGroup(conds: seq<Cond>, here: bool, elseSeen: bool): seq<Cond>
    requires conds != []
  {
    var top := Top(conds);
    Below(conds) + [Cond(top.outer, if here then top.groups + 1 else top.groups, here, elseSeen)]
  }

  /** What a directive does. Misplaced ones end a live group, but begin none. */
  function After(conds: seq<Cond>, line: Line): seq<Cond> {
    match line
    case If(v) =>
      var here := Live(conds) && v == 1;
      conds + [Cond(Live(conds), if here then 1 else 0, here, false)]
    case Text(_) => conds
    case Endif => if conds == [] then [] else Below(conds)
    case Elif(v) =>
      if conds == [] then []
      else if Top(conds).elseSeen then NewGroup(conds, false, true)
      else NewGroup(conds, Top(conds).outer && Top(conds).groups == 0 && v, false)
    case Else =>
      if conds == [] then []
      else NewGroup(conds, Top(conds).outer && Top(conds).groups == 0 && !Top(conds).elseSeen, true)
  }

  /** A directive without the #if it needs, or after an #else. */
  predicate Misplaced(conds: seq<Cond>, line: Line) {
    match line
    case Elif(_) => conds == [] || Top(conds).elseSeen
    case Else => conds == [] || Top(conds).elseSeen
    case Endif => conds == []
    case _ => false
  }

  /** At most one group of a conditional is live, and only in live text. */
  predicate Possible(conds: seq<Cond>) {
    |conds| == 0 ||
    (var top := Top(conds);
     && Possible(Below(conds)) && top.outer == Live(Below(conds))
     && top.groups <= 1 && (top.here ==> top.outer && top.groups == 1))
  }

  lemma Pushed(conds: seq<Cond>, top: Cond)
    ensures Below(conds + [top]) == conds && Top(conds + [top]) == top
  {
  }

  /** Whatever the order of directives, no conditional has two live groups. */
  lemma StaysPossible(conds: seq<Cond>, line: Line)
    requires Possible(conds)
    ensures Possible(After(conds, line))
    ensures conds != [] && (line.Elif? || line.Else?) ==>
              Below(After(conds, line)) == Below(conds) && After(conds, line) != []
  {
    match line
    case If(v) =>
      var here := Live(conds) && v == 1;
      Pushed(conds, Cond(Live(conds), if here then 1 else 0, here, false));
    case Text(_) =>
    case Endif =>
    case _ =>
      if conds != [] {
        Pushed(Below(conds), Top(After(conds, line)));
      }
  }

  // ---------------------------------------------------------------------------
  // The counter and the tags
  // ---------------------------------------------------------------------------

  /** false_nesting: 0 in live text, and otherwise one more than the conditionals
      within the outermost dead group. */
  function Nesting(conds: seq<Cond>): nat {
    if |conds| == 0 then 0
    else
      var below := Nesting(Below(conds));
      if below > 0 then below + 1 else if Top(conds).here then 0 else 1
  }

  lemma {:induction false} NestingLive(conds: seq<Cond>)
    ensures Nesting(conds) == 0 <==> Live(conds)
  {
    if conds != [] {
      NestingLive(Below(conds));
    }
  }

  function TagOf(c: Cond): Tag {
    if c.elseSeen then ELSE
    else if c.outer && (c.here || c.groups == 0) then IF
    else SKIP_GROUPS
  }

  function Tags(conds: seq<Cond>): (ts: seq<Tag>)
    ensures |ts| == |conds|
    ensures forall i :: 0 <= i < |ts| ==> ts[i] == TagOf(conds[i])
  {
    if |conds| == 0 then [] else Tags(Below(conds)) + [TagOf(Top(conds))]
  }

  lemma NestingPushed(conds: seq<Cond>, top: Cond, now: seq<Cond>)
    requires now == conds + [top]
    ensures Nesting(now) == if Nesting(conds) > 0 then Nesting(conds) + 1 else if top.here then 0 else 1
    ensures Tags(now) == Tags(conds) + [TagOf(top)]
  {
    Pushed(conds, top);
  }

  /** What the innermost record says about the machine, and what a new one in its place does. */
  lemma Innermost(conds: seq<Cond>, top: Cond, now: seq<Cond>)
    requires Possible(conds) && conds != [] && now == Below(conds) + [top]
    ensures Tags(now) == Tags(conds)[|conds| - 1 := TagOf(top)]
    ensures Top(conds).outer <==> Nesting(Below(conds)) == 0
    ensures Nesting(conds) == 0 <==> Top(conds).here
    ensures Top(conds).outer ==> Nesting(conds) <= 1 && Nesting(now) == if top.here then 0 else 1
    ensures !Top(conds).outer ==> Nesting(now) == Nesting(conds) > 0
  {
    NestingPushed(Below(conds), top, now);
    NestingLive(Below(conds));
  }

  /** The machine's state, and the records it stands for. */
  class Groups {
    var falseNesting: nat
    var topIf: seq<Tag>
    ghost var conds: seq<Cond>

    constructor ()
      ensures Valid() && conds == []
    {
      falseNesting, topIf := 0, [];
      conds := [];
    }

    ghost predicate Valid()
      reads this
    {
      Possible(conds) && falseNesting == Nesting(conds) && topIf == Tags(conds)
    }

    /** preprocessor_if */
    method PreprocessorIf(value: int)
      requires Valid()
      modifies this
      ensures Valid() && conds == After(old(conds), If(value))
    {
      ghost var now := After(conds, If(value));
      NestingLive(conds);
      StaysPossible(conds, If(value));
      NestingPushed(conds, Top(now), now);
      topIf := topIf + [if falseNesting > 0 then SKIP_GROUPS else IF];
      if falseNesting > 0 || value != 1 {
        falseNesting := falseNesting + 1;
      }
      conds := now;
    }

    /** handle_elif; the condition counts only when it is evaluated. */
    method HandleElif(value: bool) returns (error: bool, evaluated: bool)
      requires Valid()
      modifies this
      ensures Valid() && conds == After(old(conds), Elif(value))
      ensures error <==> Misplaced(old(conds), Elif(value))
      ensures evaluated <==> old(conds) != [] && TagOf(Top(old(conds))) == IF && !Top(old(conds)).here
    {
      error, evaluated := false, false;
      if |topIf| == 0 {
        return true, false;
      }
      ghost var now := After(conds, Elif(value));
      StaysPossible(conds, Elif(value));
      Innermost(conds, Top(now), now);
      var top := |topIf| - 1;
      if topIf[top] == ELSE {
        if falseNesting == 0 {
          falseNesting := 1;
        }
        error := true;
      } else if topIf[top] == IF {
        if falseNesting > 0 {
          falseNesting := 0;
          evaluated := true;
          if !value {
            falseNesting := 1;
          }
        } else {
          falseNesting := 1;
          topIf := topIf[top := SKIP_GROUPS];
        }
      }
      conds := now;
    }

    /** handle_else */
    method HandleElse() returns (error: bool)
      requires Valid()
      modifies this
      ensures Valid() && conds == After(old(conds), Else)
      ensures error <==> Misplaced(old(conds), Else)
    {
      error := false;
      if |topIf| == 0 {
        return true;
      }
      ghost var now := After(conds, Else);
      StaysPossible(conds, Else);
      Innermost(conds, Top(now), now);
      var top := |topIf| - 1;
      if topIf[top] == ELSE {
        error := true;
      }
      if falseNesting > 0 {
        if topIf[top] == IF {
          falseNesting := 0;
        }
      } else {
        falseNesting := 1;
      }
      topIf := topIf[top := ELSE];
      conds := now;
    }

    /** handle_endif */
    method HandleEndif() returns (error: bool)
      requires Valid()
      modifies this
      ensures Valid() && conds == After(old(conds), Endif)
      ensures error <==> Misplaced(old(conds), Endif)
    {
      error := false;
      if |topIf| == 0 {
        return true;
      }
      StaysPossible(conds, Endif);
      NestingLive(Below(conds));
      if falseNesting > 0 {
        falseNesting := falseNesting - 1;
      }
      topIf := topIf[..|topIf| - 1];
      conds := After(conds, Endif);
    }
  }

  // ---------------------------------------------------------------------------
  // Whole files
  // ---------------------------------------------------------------------------

  /** The text that gets through, from a state of the conditionals. */
  function LiveText(conds: seq<Cond>, lines: seq<Line>): seq<nat>
    decreases |lines|
  {
    if |lines| == 0 then []
    else
      (if lines[0].Text? && Live(conds) then [lines[0].nr] else []) + LiveText(After(conds, lines[0]), lines[1..])
  }

  function AfterAll(conds: seq<Cond>, lines: seq<Line>): seq<Cond>
    decreases |lines|
  {
    if |lines| == 0 then conds else AfterAll(After(conds, lines[0]), lines[1..])
  }

  lemma {:induction false} TextAppend(conds: seq<Cond>, a: seq<Line>, b: seq<Line>)
    ensures LiveText(conds, a + b) == LiveText(conds, a) + LiveText(AfterAll(conds, a), b)
    ensures AfterAll(conds, a + b) == AfterAll(AfterAll(conds, a), b)
    decreases |a|
  {
    if |a| == 0 {
      assert a + b == b;
    } else {
      assert (a + b)[0] == a[0] && (a + b)[1..] == a[1..] + b;
      TextAppend(After(conds, a[0]), a[1..], b);
    }
  }

  /** One line, seen by the machine. */
  method Handle(groups: Groups, line: Line) returns (passes: bool)
    requires groups.Valid()
    modifies groups
    ensures groups.Valid() && groups.conds == After(old(groups.conds), line)
    ensures passes <==> line.Text? && Live(old(groups.conds))
  {
    passes := false;
    NestingLive(groups.conds);
    match line {
      case If(v) =>
        groups.PreprocessorIf(v);
      case Elif(v) =>
        var error, evaluated := groups.HandleElif(v);
      case Else =>
        var error := groups.HandleElse();
      case Endif =>
        var error := groups.HandleEndif();
      case Text(nr) =>
        passes := groups.falseNesting == 0;
    }
  }

  lemma OneLine(done: seq<nat>, conds: seq<Cond>, lines: seq<Line>, i: nat, next: nat, line: Line, passed: seq<nat>)
    requires i < |lines| && next == i + 1 && line == lines[i]
    requires passed == if line.Text? && Live(conds) then [line.nr] else []
    ensures done + LiveText(conds, lines[i..]) == done + passed + LiveText(After(conds, line), lines[next..])
  {
    assert lines[i..][0] == line && lines[i..][1..] == lines[next..];
  }

  /** Running the machine over a file lets exactly the live text through. */
  method Preprocess(lines: seq<Line>) returns (text: seq<nat>)
    ensures text == LiveText([], lines)
  {
    var groups := new Groups();
    text := [];
    var i := 0;
    assert lines[i..] == lines;
    ghost var all := LiveText([], lines);
    while i < |lines|
      invariant i <= |lines| && groups.Valid() && text + LiveText(groups.conds, lines[i..]) == all
    {
      var line, next := lines[i], i + 1;
      ghost var conds := groups.conds;
      var passes := Handle(groups, line);
      var passed := if passes then [line.nr] else [];
      OneLine(text, conds, lines, i, next, line, passed);
      text := text + passed;
      i := next;
    }
    assert text + [] == text;
  }

  // ---------------------------------------------------------------------------
  // Well-nested files
  // ---------------------------------------------------------------------------

  /** A part of a file: a line of text, or a conditional with its first group and what
      follows that. */
  datatype Part = Plain(nr: nat) | Conditional(value: int, body: seq<Part>, rest: Rest)
  datatype Rest = NoMore | ElseThen(body: seq<Part>) | ElifThen(holds: bool, body: seq<Part>, rest: Rest)

  /** The text of the first group whose condition holds, or of the #else group. */
  function Selected(parts: seq<Part>): seq<nat> {
    if |parts| == 0 then [] else SelectedPart(parts[0]) + Selected(parts[1..])
  }

  function SelectedPart(part: Part): seq<nat> {
    match part
    case Plain(nr) => [nr]
    case Conditional(v, body, rest) => if v == 1 then Selected(body) else SelectedRest(rest)
  }

  function SelectedRest(rest: Rest): seq<nat> {
    match rest
    case NoMore => []
    case ElseThen(body) => Selected(body)
    case ElifThen(holds, body, more) => if holds then Selected(body) else SelectedRest(more)
  }

  /** The lines of a well-nested file. */
  function Lines(parts: seq<Part>): seq<Line> {
    if |parts| == 0 then [] else LinesOf(parts[0]) + Lines(parts[1..])
  }

  function LinesOf(part: Part): seq<Line> {
    match part
    case Plain(nr) => [Text(nr)]
    case Conditional(v, body, rest) => [If(v)] + (Lines(body) + (LinesOfRest(rest) + [Endif]))
  }

  function LinesOfRest(rest: Rest): seq<Line> {
    match rest
    case NoMore => []
    case ElseThen(body) => [Else] + Lines(body)
    case ElifThen(holds, body, more) => [Elif(holds)] + (Lines(body) + LinesOfRest(more))
  }

  lemma TextOne(conds: seq<Cond>, line: Line, rest: seq<Line>)
    requires !line.Text?
    ensures LiveText(conds, [line] + rest) == LiveText(After(conds, line), rest)
    ensures AfterAll(conds, [line] + rest) == AfterAll(After(conds, line), rest)
  {
    assert ([line] + rest)[1..] == rest;
  }

  /** In live text, the machine's groups are the selected ones; in dead text none is. */
  lemma {:induction false} SelectsParts(conds: seq<Cond>, parts: seq<Part>)
    ensures AfterAll(conds, Lines(parts)) == conds
    ensures LiveText(conds, Lines(parts)) == if Live(conds) then Selected(parts) else []
    decreases parts
  {
    if |parts| > 0 {
      SelectsPart(conds, parts[0]);
      SelectsParts(conds, parts[1..]);
      TextAppend(conds, LinesOf(parts[0]), Lines(parts[1..]));
    }
  }

  lemma {:induction false} SelectsPart(conds: seq<Cond>, part: Part)
    ensures AfterAll(conds, LinesOf(part)) == conds
    ensures LiveText(conds, LinesOf(part)) == if Live(conds) then SelectedPart(part) else []
    decreases part
  {
    match part
    case Plain(nr) =>
      assert LinesOf(part)[1..] == [];
    case Conditional(v, body, rest) =>
      var here := Live(conds) && v == 1;
      var top := Cond(Live(conds), if here then 1 else 0, here, false);
      var inner, tail := conds + [top], LinesOfRest(rest) + [Endif];
      Pushed(conds, top);
      TextOne(conds, If(v), Lines(body) + tail);
      TextAppend(inner, Lines(body), tail);
      SelectsParts(inner, body);
      SelectsRest(conds, top, inner, rest);
      TextAppend(inner, LinesOfRest(rest), [Endif]);
      TextOne(AfterAll(inner, LinesOfRest(rest)), Endif, []);
      assert [Endif] + [] == [Endif];
  }

  /** In what follows the first group, the first group that holds is live, unless one was. */
  lemma {:induction false} SelectsRest(below: seq<Cond>, top: Cond, conds: seq<Cond>, rest: Rest)
    requires conds == below + [top] && top.outer == Live(below) && !top.elseSeen
    ensures var now := AfterAll(conds, LinesOfRest(rest)); now != [] && Below(now) == below
    ensures LiveText(conds, LinesOfRest(rest)) == if top.outer && top.groups == 0 then SelectedRest(rest) else []
    decreases rest
  {
    Pushed(below, top);
    match rest
    case NoMore =>
    case ElseThen(body) =>
      var next := After(conds, Else);
      TextOne(conds, Else, Lines(body));
      Pushed(below, Top(next));
      SelectsParts(next, body);
    case ElifThen(holds, body, more) =>
      var next := After(conds, Elif(holds));
      TextOne(conds, Elif(holds), Lines(body) + LinesOfRest(more));
      Pushed(below, Top(next));
      TextAppend(next, Lines(body), LinesOfRest(more));
      SelectsParts(next, body);
      SelectsRest(below, Top(next), next, more);
  }

  /** In a well-nested file, what gets through is the text of the selected groups. */
  lemma WellNested(parts: seq<Part>)
    ensures LiveText([], Lines(parts)) == Selected(parts)
  {
    SelectsParts([], parts);
  }
}
