/** The Thompson construction of q1.py: small NFA fragments combined by a stack
    machine over the postfix form of a regular expression. An NFA's states are
    the integers [0, states); fragments are renumbered by offset when combined. */
module Thompson {
  import opened Common
  import Regex

  /** A transition (from, symbol, to); the symbol '$' is the empty string. */
  datatype Edge = Edge(from: nat, symbol: char, to: nat)

  /** The contents of an NFA object. */
  datatype Automaton = Automaton(states: nat, letters: seq<char>, transitions: seq<Edge>, start: seq<nat>, final: seq<nat>)

  /** Every state id the automaton mentions lies in [0, states). */
  ghost predicate WellFormed(a: Automaton) {
    && (forall e :: e in a.transitions ==> e.from < a.states && e.to < a.states)
    && (forall s :: s in a.start ==> s < a.states)
    && (forall s :: s in a.final ==> s < a.states)
  }

  // ---------------------------------------------------------------------------
  // The fragments, as values

  function Single(c: char, letters: seq<char>): Automaton {
    Automaton(2, letters, [Edge(0, c, 1)], [0], [1])
  }

  /** Empty-string edges from src to each of targets, in order. */
  function EdgesFrom(src: nat, targets: seq<nat>): (es: seq<Edge>)
    ensures |es| == |targets|
  {
    if targets == [] then [] else EdgesFrom(src, targets[..|targets| - 1]) + [Edge(src, '$', targets[|targets| - 1])]
  }

  /** Empty-string edges from each of sources to dst, in order. */
  function EdgesTo(sources: seq<nat>, dst: nat): (es: seq<Edge>)
    ensures |es| == |sources|
  {
    if sources == [] then [] else EdgesTo(sources[..|sources| - 1], dst) + [Edge(sources[|sources| - 1], '$', dst)]
  }

  /** Empty-string edges from each of sources to each of targets, source-major. */
  function EdgesAcross(sources: seq<nat>, targets: seq<nat>): (es: seq<Edge>)
    ensures |es| == |sources| * |targets|
  {
    if sources == [] then []
    else EdgesAcross(sources[..|sources| - 1], targets) + EdgesFrom(sources[|sources| - 1], targets)
  }

  function ShiftIds(ids: seq<nat>, delta: nat): (r: seq<nat>)
    ensures |r| == |ids|
  {
    seq(|ids|, k requires 0 <= k < |ids| => ids[k] + delta)
  }

  function ShiftEdges(es: seq<Edge>, delta: nat): (r: seq<Edge>)
    ensures |r| == |es|
  {
    seq(|es|, k requires 0 <= k < |es| => Edge(es[k].from + delta, es[k].symbol, es[k].to + delta))
  }

  /** The renumbering applied to the second operand: every id moves up by delta. */
  function Shift(a: Automaton, delta: nat): Automaton {
    Automaton(a.states, a.letters, ShiftEdges(a.transitions, delta), ShiftIds(a.start, delta), ShiftIds(a.final, delta))
  }

  function Star(a: Automaton): Automaton {
    var s := a.states;
    Automaton(s + 1, a.letters, a.transitions + EdgesFrom(s, a.start) + EdgesTo(a.final, s), [s], [s])
  }

  function Union(a1: Automaton, a2: Automaton, letters: seq<char>): Automaton {
    var b := Shift(a2, a1.states);
    var s := a1.states + a2.states;
    Automaton(s + 1, letters, a1.transitions + b.transitions + EdgesFrom(s, a1.start) + EdgesFrom(s, b.start),
              [s], a1.final + b.final)
  }

  function Concat(a1: Automaton, a2: Automaton, letters: seq<char>): Automaton {
    var b := Shift(a2, a1.states);
    Automaton(a1.states + a2.states, letters, a1.transitions + b.transitions + EdgesAcross(a1.final, b.start),
              a1.start, b.final)
  }

  // ---------------------------------------------------------------------------
  // What the fragments guarantee

  lemma {:induction false} EdgesFromShape(src: nat, targets: seq<nat>)
    ensures forall k :: 0 <= k < |targets| ==> EdgesFrom(src, targets)[k] == Edge(src, '$', targets[k])
  {
    if targets != [] {
      EdgesFromShape(src, targets[..|targets| - 1]);
    }
  }

  lemma {:induction false} EdgesToShape(sources: seq<nat>, dst: nat)
    ensures forall k :: 0 <= k < |sources| ==> EdgesTo(sources, dst)[k] == Edge(sources[k], '$', dst)
  {
    if sources != [] {
      EdgesToShape(sources[..|sources| - 1], dst);
    }
  }

  /** EdgesAcross holds exactly the pairs (f, s) with f among sources and s among targets. */
  lemma {:induction false} EdgesAcrossMembers(sources: seq<nat>, targets: seq<nat>)
    ensures forall e: Edge :: e in EdgesAcross(sources, targets) <==> e.symbol == '$' && e.from in sources && e.to in targets
  {
    if sources != [] {
      var init := sources[..|sources| - 1];
      var last := sources[|sources| - 1];
      EdgesAcrossMembers(init, targets);
      EdgesFromShape(last, targets);
      assert sources == init + [last];
      forall e | e in EdgesFrom(last, targets)
        ensures e.symbol == '$' && e.from == last && e.to in targets
      {
        var k :| 0 <= k < |targets| && EdgesFrom(last, targets)[k] == e;
      }
      forall e: Edge | e.symbol == '$' && e.from == last && e.to in targets
        ensures e in EdgesFrom(last, targets)
      {
        var k :| 0 <= k < |targets| && targets[k] == e.to;
        assert EdgesFrom(last, targets)[k] == e;
      }
    }
  }

  lemma ShiftedWellFormed(a: Automaton, delta: nat)
    requires WellFormed(a)
    ensures forall e :: e in Shift(a, delta).transitions ==> delta <= e.from < delta + a.states && delta <= e.to < delta + a.states
    ensures forall s :: s in Shift(a, delta).start ==> delta <= s < delta + a.states
    ensures forall s :: s in Shift(a, delta).final ==> delta <= s < delta + a.states
  {
    var b := Shift(a, delta);
    forall e | e in b.transitions
      ensures delta <= e.from < delta + a.states && delta <= e.to < delta + a.states
    {
      var k :| 0 <= k < |b.transitions| && b.transitions[k] == e;
      assert a.transitions[k] in a.transitions;
    }
    forall s | s in b.start
      ensures delta <= s < delta + a.states
    {
      var k :| 0 <= k < |b.start| && b.start[k] == s;
      assert a.start[k] in a.start;
    }
    forall s | s in b.final
      ensures delta <= s < delta + a.states
    {
      var k :| 0 <= k < |b.final| && b.final[k] == s;
      assert a.final[k] in a.final;
    }
  }

  lemma SingleWellFormed(c: char, letters: seq<char>)
    ensures WellFormed(Single(c, letters))
    ensures Single(c, letters).transitions == [Edge(0, c, 1)]
  {
  }

  /** apply_star adds one state, which becomes the only start and final state; the
      old transitions stay as a prefix, followed by one '$' edge per old start
      state and one per old final state. */
  lemma StarFacts(a: Automaton)
    requires WellFormed(a)
    ensures WellFormed(Star(a))
    ensures Star(a).states == a.states + 1
    ensures Star(a).start == [a.states] && Star(a).final == [a.states]
    ensures |Star(a).transitions| == |a.transitions| + |a.start| + |a.final|
    ensures Star(a).transitions[..|a.transitions|] == a.transitions
    ensures forall k :: |a.transitions| <= k < |Star(a).transitions| ==> Star(a).transitions[k].symbol == '$'
  {
    var r := Star(a);
    var n := a.states;
    EdgesFromShape(n, a.start);
    EdgesToShape(a.final, n);
    var t := a.transitions + EdgesFrom(n, a.start);
    assert r.transitions == t + EdgesTo(a.final, n);
    forall e | e in r.transitions
      ensures e.from < r.states && e.to < r.states
    {
      if e in a.transitions {
      } else if e in EdgesFrom(n, a.start) {
        var k :| 0 <= k < |a.start| && EdgesFrom(n, a.start)[k] == e;
        assert a.start[k] in a.start;
      } else {
        assert e in EdgesTo(a.final, n);
        var k :| 0 <= k < |a.final| && EdgesTo(a.final, n)[k] == e;
        assert a.final[k] in a.final;
      }
    }
  }

  /** The layout of apply_union's transition list: nfa1's edges, then nfa2's
      shifted edges, then one '$' edge from the new state to each start state of
      nfa1 and then to each shifted start state of nfa2. */
  lemma UnionLayout(a1: Automaton, a2: Automaton, letters: seq<char>)
    ensures Union(a1, a2, letters).transitions[..|a1.transitions| + |a2.transitions|] ==
            a1.transitions + Shift(a2, a1.states).transitions
    ensures forall k :: 0 <= k < |a1.start| ==>
              Union(a1, a2, letters).transitions[|a1.transitions| + |a2.transitions| + k] ==
              Edge(a1.states + a2.states, '$', a1.start[k])
    ensures forall k :: 0 <= k < |a2.start| ==>
              Union(a1, a2, letters).transitions[|a1.transitions| + |a2.transitions| + |a1.start| + k] ==
              Edge(a1.states + a2.states, '$', a2.start[k] + a1.states)
  {
    var t := Union(a1, a2, letters).transitions;
    var b := Shift(a2, a1.states);
    var s := a1.states + a2.states;
    var n := |a1.transitions| + |a2.transitions|;
    var front := a1.transitions + b.transitions;
    var e1 := EdgesFrom(s, a1.start);
    var e2 := EdgesFrom(s, b.start);
    assert t == front + e1 + e2;
    assert |front| == n && |e1| == |a1.start|;
    assert t[..n] == front;
    forall k | 0 <= k < |a1.start|
      ensures t[n + k] == Edge(s, '$', a1.start[k])
    {
      EdgesFromShape(s, a1.start);
      assert t[n + k] == e1[k];
    }
    forall k | 0 <= k < |a2.start|
      ensures t[n + |a1.start| + k] == Edge(s, '$', a2.start[k] + a1.states)
    {
      EdgesFromShape(s, b.start);
      assert t[n + |a1.start| + k] == e2[k];
    }
  }

  /** apply_union: n1 + n2 + 1 states, the new last state is the only start
      state, nfa2's ids move up by n1, the final states are nfa1's followed by
      the shifted ones of nfa2, and one '$' edge per old start state is appended. */
  lemma UnionFacts(a1: Automaton, a2: Automaton, letters: seq<char>)
    requires WellFormed(a1) && WellFormed(a2)
    ensures WellFormed(Union(a1, a2, letters))
    ensures Union(a1, a2, letters).states == a1.states + a2.states + 1
    ensures Union(a1, a2, letters).start == [a1.states + a2.states]
    ensures Union(a1, a2, letters).final == a1.final + ShiftIds(a2.final, a1.states)
    ensures |Union(a1, a2, letters).transitions| == |a1.transitions| + |a2.transitions| + |a1.start| + |a2.start|
    ensures forall e :: e in Union(a1, a2, letters).transitions && e.symbol != '$' ==>
              e in a1.transitions || e in Shift(a2, a1.states).transitions
  {
    var r := Union(a1, a2, letters);
    var b := Shift(a2, a1.states);
    var s := a1.states + a2.states;
    ShiftedWellFormed(a2, a1.states);
    EdgesFromShape(s, a1.start);
    EdgesFromShape(s, b.start);
    assert r.transitions == (a1.transitions + b.transitions) + EdgesFrom(s, a1.start) + EdgesFrom(s, b.start);
    forall e | e in r.transitions
      ensures e.from < r.states && e.to < r.states
      ensures e.symbol != '$' ==> e in a1.transitions || e in b.transitions
    {
      if e in a1.transitions || e in b.transitions {
      } else if e in EdgesFrom(s, a1.start) {
        var k :| 0 <= k < |a1.start| && EdgesFrom(s, a1.start)[k] == e;
        assert a1.start[k] in a1.start;
      } else {
        assert e in EdgesFrom(s, b.start);
        var k :| 0 <= k < |b.start| && EdgesFrom(s, b.start)[k] == e;
        assert b.start[k] in b.start;
      }
    }
  }

  /** apply_concatenation: n1 + n2 states, nfa1's start states, nfa2's shifted
      final states, and exactly one '$' edge from each final state of nfa1 to
      each shifted start state of nfa2. */
  lemma ConcatFacts(a1: Automaton, a2: Automaton, letters: seq<char>)
    requires WellFormed(a1) && WellFormed(a2)
    ensures WellFormed(Concat(a1, a2, letters))
    ensures Concat(a1, a2, letters).states == a1.states + a2.states
    ensures Concat(a1, a2, letters).start == a1.start
    ensures Concat(a1, a2, letters).final == ShiftIds(a2.final, a1.states)
    ensures |Concat(a1, a2, letters).transitions| == |a1.transitions| + |a2.transitions| + |a1.final| * |a2.start|
    ensures forall f, s :: f in a1.final && s in a2.start ==> Edge(f, '$', s + a1.states) in Concat(a1, a2, letters).transitions
  {
    ShiftedWellFormed(a2, a1.states);
    ConcatBounded(a1, a2, letters);
    ConcatCrossEdges(a1, a2, letters);
  }

  lemma ConcatBounded(a1: Automaton, a2: Automaton, letters: seq<char>)
    requires WellFormed(a1) && WellFormed(a2)
    ensures forall e :: e in Concat(a1, a2, letters).transitions ==> e.from < a1.states + a2.states && e.to < a1.states + a2.states
  {
    var b := Shift(a2, a1.states);
    ShiftedWellFormed(a2, a1.states);
    EdgesAcrossMembers(a1.final, b.start);
    forall e | e in a1.transitions + b.transitions + EdgesAcross(a1.final, b.start)
      ensures e.from < a1.states + a2.states && e.to < a1.states + a2.states
    {
      if e !in a1.transitions && e !in b.transitions {
        assert e in EdgesAcross(a1.final, b.start);
      }
    }
  }

  lemma ConcatCrossEdges(a1: Automaton, a2: Automaton, letters: seq<char>)
    ensures forall f, s :: f in a1.final && s in a2.start ==> Edge(f, '$', s + a1.states) in Concat(a1, a2, letters).transitions
  {
    var b := Shift(a2, a1.states);
    EdgesAcrossMembers(a1.final, b.start);
    forall f, s | f in a1.final && s in a2.start
      ensures Edge(f, '$', s + a1.states) in EdgesAcross(a1.final, b.start)
    {
      var k :| 0 <= k < |a2.start| && a2.start[k] == s;
      assert b.start[k] == s + a1.states;
    }
  }

  // ---------------------------------------------------------------------------
  // The stack machine over postfix, as values

  /** Why the conversion stops without an automaton. */
  datatype ConvertError =
    | UnmatchedParenthesis  // a ')' with no open '(' (the parser peeks at an empty stack)
    | MissingOperand        // an operator finds too few automata on the stack
    | NotOneAutomaton       // the final stack does not hold exactly one automaton

  /** One character of the postfix form applied to a stack of automata (top last).
      Characters other than operands and the three operators leave it alone. */
  function Step(vs: seq<Automaton>, c: char, letters: seq<char>): Option<seq<Automaton>> {
    if Regex.IsOperand(c) then Some(vs + [Single(c, letters)])
    else if c == '*' then
      if |vs| < 1 then None else Some(vs[..|vs| - 1] + [Star(vs[|vs| - 1])])
    else if c == '+' then
      if |vs| < 2 then None else Some(vs[..|vs| - 2] + [Union(vs[|vs| - 2], vs[|vs| - 1], letters)])
    else if c == '.' then
      if |vs| < 2 then None else Some(vs[..|vs| - 2] + [Concat(vs[|vs| - 2], vs[|vs| - 1], letters)])
    else Some(vs)
  }

  /** The stack after reading all of p, or None once an operator lacks operands. */
  function Run(p: string, letters: seq<char>): Option<seq<Automaton>> {
    if p == [] then Some([])
    else match Run(p[..|p| - 1], letters)
      case None => None
      case Some(vs) => Step(vs, p[|p| - 1], letters)
  }

  function Eval(p: string, letters: seq<char>): Result<Automaton, ConvertError> {
    match Run(p, letters)
    case None => Failure(MissingOperand)
    case Some(vs) => if |vs| == 1 then Success(vs[0]) else Failure(NotOneAutomaton)
  }

  /** An independent count of the stack height: operands push one, '*' needs one,
      '+' and '.' need two and leave one. */
  function HeightStep(h: nat, c: char): Option<nat> {
    if Regex.IsOperand(c) then Some(h + 1)
    else if c == '*' then (if h < 1 then None else Some(h))
    else if c == '+' || c == '.' then (if h < 2 then None else Some(h - 1))
    else Some(h)
  }

  function Height(p: string): Option<nat> {
    if p == [] then Some(0)
    else match Height(p[..|p| - 1])
      case None => None
      case Some(h) => HeightStep(h, p[|p| - 1])
  }

  /** Number of NFA states a postfix character contributes: two for an operand,
      one for '*' and '+', none for '.' and the rest. */
  function CharCost(c: char): nat {
    if Regex.IsOperand(c) then 2 else if c == '*' || c == '+' then 1 else 0
  }

  function StateCost(p: string): nat {
    if p == [] then 0 else StateCost(p[..|p| - 1]) + CharCost(p[|p| - 1])
  }

  function TotalStates(vs: seq<Automaton>): nat {
    if vs == [] then 0 else TotalStates(vs[..|vs| - 1]) + vs[|vs| - 1].states
  }

  /** What every automaton the machine builds satisfies: ids in range, the
      common letters, a single start state and at least one final state. */
  ghost predicate Built(a: Automaton, letters: seq<char>) {
    WellFormed(a) && a.letters == letters && |a.start| == 1 && |a.final| >= 1
  }

  lemma TotalStatesAppend(vs: seq<Automaton>, a: Automaton)
    ensures TotalStates(vs + [a]) == TotalStates(vs) + a.states
  {
    assert (vs + [a])[..|vs|] == vs;
  }

  lemma PushFacts(vs: seq<Automaton>, c: char, letters: seq<char>)
    requires forall k :: 0 <= k < |vs| ==> Built(vs[k], letters)
    ensures var ws := vs + [Single(c, letters)];
              && (forall k :: 0 <= k < |ws| ==> Built(ws[k], letters))
              && TotalStates(ws) == TotalStates(vs) + 2
  {
    SingleWellFormed(c, letters);
    TotalStatesAppend(vs, Single(c, letters));
  }

  lemma StarStepFacts(vs: seq<Automaton>, letters: seq<char>)
    requires |vs| >= 1
    requires forall k :: 0 <= k < |vs| ==> Built(vs[k], letters)
    ensures var ws := vs[..|vs| - 1] + [Star(vs[|vs| - 1])];
              && (forall k :: 0 <= k < |ws| ==> Built(ws[k], letters))
              && TotalStates(ws) == TotalStates(vs) + 1
  {
    var init := vs[..|vs| - 1];
    var a := vs[|vs| - 1];
    assert vs == init + [a];
    StarFacts(a);
    TotalStatesAppend(init, a);
    TotalStatesAppend(init, Star(a));
  }

  lemma BinaryStepFacts(vs: seq<Automaton>, c: char, letters: seq<char>)
    requires |vs| >= 2 && (c == '+' || c == '.')
    requires forall k :: 0 <= k < |vs| ==> Built(vs[k], letters)
    ensures var a1, a2 := vs[|vs| - 2], vs[|vs| - 1];
            var ws := vs[..|vs| - 2] + [if c == '+' then Union(a1, a2, letters) else Concat(a1, a2, letters)];
              && (forall k :: 0 <= k < |ws| ==> Built(ws[k], letters))
              && TotalStates(ws) == TotalStates(vs) + (if c == '+' then 1 else 0)
  {
    var init := vs[..|vs| - 2];
    var a1, a2 := vs[|vs| - 2], vs[|vs| - 1];
    assert vs == (init + [a1]) + [a2];
    assert (init + [a1]) + [a2] == vs;
    TotalStatesAppend(init + [a1], a2);
    TotalStatesAppend(init, a1);
    assert Built(a1, letters) && Built(a2, letters);
    if c == '+' {
      UnionFacts(a1, a2, letters);
      TotalStatesAppend(init, Union(a1, a2, letters));
    } else {
      ConcatFacts(a1, a2, letters);
      TotalStatesAppend(init, Concat(a1, a2, letters));
    }
  }

  /** One step keeps every stacked automaton Built, moves the height as
      HeightStep says, and adds the states CharCost says. */
  lemma StepFacts(vs: seq<Automaton>, c: char, letters: seq<char>)
    requires forall k :: 0 <= k < |vs| ==> Built(vs[k], letters)
    ensures Step(vs, c, letters).Some? <==> HeightStep(|vs|, c).Some?
    ensures Step(vs, c, letters).Some? ==>
              var ws := Step(vs, c, letters).value;
              && |ws| == HeightStep(|vs|, c).value
              && (forall k :: 0 <= k < |ws| ==> Built(ws[k], letters))
              && TotalStates(ws) == TotalStates(vs) + CharCost(c)
  {
    if Regex.IsOperand(c) {
      PushFacts(vs, c, letters);
    } else if c == '*' {
      if |vs| >= 1 {
        StarStepFacts(vs, letters);
      }
    } else if c == '+' || c == '.' {
      if |vs| >= 2 {
        BinaryStepFacts(vs, c, letters);
      }
    }
  }

  /** The machine fails exactly when the independent height count fails; when it
      succeeds, the stack has that height, every automaton on it is Built, and
      together they hold StateCost(p) states. */
  lemma {:induction false} RunFacts(p: string, letters: seq<char>)
    ensures Run(p, letters).Some? <==> Height(p).Some?
    ensures Run(p, letters).Some? ==>
              && |Run(p, letters).value| == Height(p).value
              && (forall k :: 0 <= k < |Run(p, letters).value| ==> Built(Run(p, letters).value[k], letters))
              && TotalStates(Run(p, letters).value) == StateCost(p)
  {
    if p != [] {
      var init := p[..|p| - 1];
      var c := p[|p| - 1];
      RunFacts(init, letters);
      assert Height(p) == if Height(init).None? then None else HeightStep(Height(init).value, c);
      assert StateCost(p) == StateCost(init) + CharCost(c);
      if Run(init, letters).Some? {
        var vs := Run(init, letters).value;
        assert Run(p, letters) == Step(vs, c, letters);
        StepFacts(vs, c, letters);
      } else {
        assert Run(p, letters).None?;
      }
    }
  }

  /** The conversion succeeds exactly when the height count ends at one; the
      automaton it then gives is Built and has StateCost(p) states. */
  lemma EvalFacts(p: string, letters: seq<char>)
    ensures Eval(p, letters).Success? <==> Height(p) == Some(1)
    ensures Eval(p, letters).Success? ==>
              Built(Eval(p, letters).value, letters) && Eval(p, letters).value.states == StateCost(p)
    ensures Eval(p, letters) == Failure(MissingOperand) <==> Height(p).None?
  {
    RunFacts(p, letters);
    if Run(p, letters).Some? && |Run(p, letters).value| == 1 {
      var vs := Run(p, letters).value;
      assert vs == [] + [vs[0]];
      TotalStatesAppend([], vs[0]);
    }
  }

  /** Once an operator lacks operands the machine stays failed. */
  lemma {:induction false} RunStuck(p: string, i: nat, letters: seq<char>)
    requires i <= |p| && Run(p[..i], letters).None?
    ensures Run(p, letters).None?
    decreases |p| - i
  {
    if i < |p| {
      assert p[..i + 1][..i] == p[..i];
      RunStuck(p, i + 1, letters);
    } else {
      assert p[..i] == p;
    }
  }

  /** The state count of the postfix form in terms of its characters: two per
      operand, one per '*' and one per '+'. */
  lemma {:induction false} StateCostCount(p: string)
    ensures StateCost(p) == 2 * |Regex.Operands(p)| + multiset(p)['*'] + multiset(p)['+']
  {
    if p != [] {
      var init := p[..|p| - 1];
      var c := p[|p| - 1];
      StateCostCount(init);
      assert p == init + [c];
      Regex.DepthStep(init, c);
    }
  }

  // ---------------------------------------------------------------------------
  // The NFA objects and the operations that update them

  /** An NFA as the converter holds it: its fields are replaced and its
      transition list appended to in place. */
  class Nfa {
    var states: nat
    var letters: seq<char>
    var transitions: seq<Edge>
    var start: seq<nat>
    var final: seq<nat>

    function Value(): Automaton
      reads this
    {
      Automaton(states, letters, transitions, start, final)
    }

    constructor (a: Automaton)
      ensures Value() == a
    {
      states := a.states;
      letters := a.letters;
      transitions := a.transitions;
      start := a.start;
      final := a.final;
    }
  }

  method SingleState(c: char, letters: seq<char>) returns (n: Nfa)
    ensures fresh(n) && n.Value() == Single(c, letters)
  {
    n := new Nfa(Automaton(2, letters, [Edge(0, c, 1)], [0], [1]));
  }

  /** Adds a state that becomes the only start and final state, with '$' edges
      from it to the old start states and from the old final states to it. */
  method ApplyStar(n: Nfa)
    modifies n
    ensures n.Value() == Star(old(n.Value()))
  {
    var newState := n.states;
    var starts, finals := n.start, n.final;
    n.states := n.states + 1;
    for k := 0 to |starts|
      invariant n.states == newState + 1 && n.letters == old(n.letters)
      invariant n.start == starts && n.final == finals
      invariant n.transitions == old(n.transitions) + EdgesFrom(newState, starts[..k])
    {
      assert starts[..k + 1][..k] == starts[..k];
      n.transitions := n.transitions + [Edge(newState, '$', n.start[k])];
    }
    assert starts[..|starts|] == starts;
    ghost var withStarts := n.transitions;
    for k := 0 to |finals|
      invariant n.states == newState + 1 && n.letters == old(n.letters)
      invariant n.start == starts && n.final == finals
      invariant n.transitions == withStarts + EdgesTo(finals[..k], newState)
    {
      assert finals[..k + 1][..k] == finals[..k];
      n.transitions := n.transitions + [Edge(n.final[k], '$', newState)];
    }
    assert finals[..|finals|] == finals;
    n.start := [newState];
    n.final := [newState];
  }

  /** Appends a '$' edge from src to each of targets, in order. */
  method AppendEdgesFrom(n: Nfa, src: nat, targets: seq<nat>)
    modifies n
    ensures n.Value() == old(n.Value()).(transitions := old(n.transitions) + EdgesFrom(src, targets))
  {
    for k := 0 to |targets|
      invariant n.Value() == old(n.Value()).(transitions := old(n.transitions) + EdgesFrom(src, targets[..k]))
    {
      assert targets[..k + 1][..k] == targets[..k];
      n.transitions := n.transitions + [Edge(src, '$', targets[k])];
    }
    assert targets[..|targets|] == targets;
  }

  /** The renumbering of the second operand, done in place. */
  method ShiftInPlace(n: Nfa, delta: nat)
    modifies n
    ensures n.Value() == Shift(old(n.Value()), delta)
  {
    n.final := ShiftIds(n.final, delta);
    n.start := ShiftIds(n.start, delta);
    n.transitions := ShiftEdges(n.transitions, delta);
  }

  /** Renumbers n2 past n1's states (n2 is updated in place) and returns a new
      NFA for the union. */
  method ApplyUnion(n1: Nfa, n2: Nfa, letters: seq<char>) returns (n: Nfa)
    requires n1 != n2
    modifies n2
    ensures n2.Value() == Shift(old(n2.Value()), old(n1.states))
    ensures fresh(n) && n.Value() == Union(old(n1.Value()), old(n2.Value()), letters)
  {
    ShiftInPlace(n2, n1.states);
    var s := n1.states + n2.states;
    n := new Nfa(Automaton(s + 1, letters, n1.transitions + n2.transitions, [s], n1.final + n2.final));
    AppendEdgesFrom(n, n.start[0], n1.start);
    AppendEdgesFrom(n, n.start[0], n2.start);
  }

  /** Renumbers n2 past n1's states (n2 is updated in place) and returns a new
      NFA for the concatenation. */
  method ApplyConcatenation(n1: Nfa, n2: Nfa, letters: seq<char>) returns (n: Nfa)
    requires n1 != n2
    modifies n2
    ensures n2.Value() == Shift(old(n2.Value()), old(n1.states))
    ensures fresh(n) && n.Value() == Concat(old(n1.Value()), old(n2.Value()), letters)
  {
    ShiftInPlace(n2, n1.states);
    n := new Nfa(Automaton(n1.states + n2.states, letters, n1.transitions + n2.transitions, n1.start, n2.final));
    var finals1, starts2 := n1.final, n2.start;
    ghost var value := n.Value();
    ghost var shifted := n2.Value();
    for i := 0 to |finals1|
      invariant n2.Value() == shifted
      invariant n.Value() == value.(transitions := value.transitions + EdgesAcross(finals1[..i], starts2))
    {
      AppendEdgesFrom(n, finals1[i], starts2);
      EdgesAcrossSnoc(value.transitions, finals1, i, starts2);
    }
    assert finals1[..|finals1|] == finals1;
  }

  /** Adding the edges of one more source extends the edges of the prefix. */
  lemma EdgesAcrossSnoc(base: seq<Edge>, sources: seq<nat>, i: nat, targets: seq<nat>)
    requires i < |sources|
    ensures (base + EdgesAcross(sources[..i], targets)) + EdgesFrom(sources[i], targets)
            == base + EdgesAcross(sources[..i + 1], targets)
  {
    assert sources[..i + 1][..i] == sources[..i];
  }

  /** The stack's automata, bottom first. */
  ghost function Values(st: seq<Nfa>): (vs: seq<Automaton>)
    reads st
    ensures |vs| == |st|
  {
    if st == [] then [] else Values(st[..|st| - 1]) + [st[|st| - 1].Value()]
  }

  /** '*': the top NFA is starred in place. */
  method StarTop(stack: seq<Nfa>) returns (stack': seq<Nfa>)
    requires NoDuplicates(stack) && |stack| >= 1
    modifies set n | n in stack
    ensures NoDuplicates(stack') && Values(stack') == Step(old(Values(stack)), '*', []).value
    ensures forall n :: n in stack' ==> n in stack
  {
    var n := stack[|stack| - 1];
    var rest := stack[..|stack| - 1];
    assert stack == rest + [n];
    assert n !in rest;
    ApplyStar(n);
    stack' := rest + [n];
  }

  /** '+' or '.': the two top NFAs are replaced by their combination. */
  method CombineTop(stack: seq<Nfa>, c: char, letters: seq<char>) returns (stack': seq<Nfa>)
    requires NoDuplicates(stack) && |stack| >= 2 && (c == '+' || c == '.')
    modifies set n | n in stack
    ensures NoDuplicates(stack') && Values(stack') == Step(old(Values(stack)), c, letters).value
    ensures forall n :: n in stack' ==> n in stack || fresh(n)
  {
    var n2 := stack[|stack| - 1];
    var n1 := stack[|stack| - 2];
    var rest := stack[..|stack| - 2];
    assert stack == (rest + [n1]) + [n2];
    assert stack[..|stack| - 1] == rest + [n1];
    assert n1 !in rest && n2 !in rest;
    var n;
    if c == '+' {
      n := ApplyUnion(n1, n2, letters);
    } else {
      n := ApplyConcatenation(n1, n2, letters);
    }
    stack' := rest + [n];
  }

  /** One character of the postfix form applied to the stack of NFA objects: it
      does what Step does to their values. */
  method StepStack(stack: seq<Nfa>, c: char, letters: seq<char>) returns (ok: bool, stack': seq<Nfa>)
    requires NoDuplicates(stack)
    modifies set n | n in stack
    ensures ok <==> Step(old(Values(stack)), c, letters).Some?
    ensures ok ==> NoDuplicates(stack') && Values(stack') == Step(old(Values(stack)), c, letters).value
    ensures forall n :: n in stack' ==> n in stack || fresh(n)
  {
    if Regex.IsOperand(c) {
      var n := SingleState(c, letters);
      stack' := stack + [n];
      ok := true;
    } else if c == '*' {
      if |stack| < 1 {
        return false, stack;
      }
      stack' := StarTop(stack);
      ok := true;
    } else if c == '+' || c == '.' {
      if |stack| < 2 {
        return false, stack;
      }
      stack' := CombineTop(stack, c, letters);
      ok := true;
    } else {
      return true, stack;
    }
  }

  /** The loop of the converter over the postfix form, on a stack of NFA objects;
      it builds exactly what Eval describes. */
  method BuildFromPostfix(p: string, letters: seq<char>) returns (r: Result<Nfa, ConvertError>)
    ensures r.Success? <==> Eval(p, letters).Success?
    ensures r.Success? ==> fresh(r.value) && r.value.Value() == Eval(p, letters).value
    ensures r.Failure? ==> r.error == Eval(p, letters).error
  {
    var stack: seq<Nfa> := [];
    for i := 0 to |p|
      invariant Run(p[..i], letters).Some?
      invariant NoDuplicates(stack)
      invariant forall n :: n in stack ==> fresh(n)
      invariant Values(stack) == Run(p[..i], letters).value
    {
      assert p[..i + 1][..i] == p[..i];
      assert Run(p[..i + 1], letters) == Step(Values(stack), p[i], letters);
      var ok;
      ok, stack := StepStack(stack, p[i], letters);
      if !ok {
        RunStuck(p, i + 1, letters);
        return Failure(MissingOperand);
      }
    }
    assert p[..|p|] == p;
    if |stack| != 1 {
      return Failure(NotOneAutomaton);
    }
    assert stack[0] in stack;
    assert Values(stack) == [stack[0].Value()];
    return Success(stack[0]);
  }

  /** The alphabet of re: each letter, digit or '$' occurring in it, once. */
  method CollectLetters(re: string) returns (letters: seq<char>)
    ensures NoDuplicates(letters)
    ensures forall c :: c in letters <==> c in re && Regex.IsOperand(c)
  {
    letters := [];
    for i := 0 to |re|
      invariant NoDuplicates(letters)
      invariant forall c :: c in letters <==> c in re[..i] && Regex.IsOperand(c)
    {
      assert re[..i + 1] == re[..i] + [re[i]];
      if Regex.IsOperand(re[i]) && re[i] !in letters {
        letters := letters + [re[i]];
      }
    }
    assert re[..|re|] == re;
  }

  /** The whole conversion of q1.py: collect the alphabet, insert '.', convert to
      postfix and run the stack machine. It fails on an unmatched ')' exactly when
      re is not well nested; otherwise it builds what Eval gives for the postfix
      form, and the NFA has two states per operand plus one per '*' and '+'. */
  method ReToNfa(re: string) returns (r: Result<Nfa, ConvertError>, ghost postfix: string, ghost letters: seq<char>)
    ensures NoDuplicates(letters) && forall c :: c in letters <==> c in re && Regex.IsOperand(c)
    ensures r.Failure? && r.error == UnmatchedParenthesis <==> !Regex.WellNested(re)
    ensures Regex.WellNested(re) ==> Regex.Postfix(Regex.Dotted(re, |re|)) == Some(postfix)
    ensures Regex.WellNested(re) ==> Regex.Operands(postfix) == Regex.Operands(re)
    ensures Regex.WellNested(re) ==> (r.Success? <==> Eval(postfix, letters).Success?)
    ensures Regex.WellNested(re) && r.Failure? ==> r.error == Eval(postfix, letters).error
    ensures r.Success? ==> fresh(r.value) && r.value.Value() == Eval(postfix, letters).value
    ensures r.Success? ==> Built(r.value.Value(), letters)
    ensures r.Success? ==> r.value.states == 2 * |Regex.Operands(re)| + multiset(re)['*'] + multiset(re)['+']
  {
    var alphabet := CollectLetters(re);
    letters := alphabet;
    var dotted := Regex.AddConcatenationOperator(re);
    assert re[..|re|] == re;
    Regex.DottedNesting(re, |re|);
    Regex.DottedCounts(re, |re|);
    var parsed := Regex.InfixToPostfix(dotted);
    if parsed.Failure? {
      postfix := "";
      return Failure(UnmatchedParenthesis), postfix, letters;
    }
    var p := parsed.value;
    postfix := p;
    r := BuildFromPostfix(p, alphabet);
    EvalFacts(p, alphabet);
    StateCostCount(p);
  }
}
