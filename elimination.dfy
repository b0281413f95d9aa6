/** State elimination of q3.py: a DFA becomes a generalised NFA whose edges
    carry regular-expression labels, then its states are ripped out one by one
    until only the new start and final nodes remain; the label between those
    two is the regular expression. */
module Elimination {
  import opened Common
  import Regex

  /** A node of the generalised NFA: a DFA state or one of the two added nodes. */
  datatype Node<S> = State(id: S) | GnfaStart | GnfaFinal

  /** The label table, keyed by (from, to). */
  type Table<S(==)> = map<(Node<S>, Node<S>), string>

  /** The label of an absent edge (the empty language). */
  const Phi: string := "ϕ"

  /** Rows exist for the remaining states and the added start node. */
  predicate IsRow<S(==,!new)>(n: Node<S>, rem: set<S>) {
    n.GnfaStart? || (n.State? && n.id in rem)
  }

  /** Columns exist for the remaining states and the added final node. */
  predicate IsCol<S(==,!new)>(n: Node<S>, rem: set<S>) {
    n.GnfaFinal? || (n.State? && n.id in rem)
  }

  /** The table has an entry exactly for each row node and column node while
      the states rem remain: nothing enters the start node and nothing leaves
      the final node. */
  ghost predicate Shape<S(!new)>(t: Table<S>, rem: set<S>) {
    forall i, j :: (i, j) in t <==> IsRow(i, rem) && IsCol(j, rem)
  }

  // ---------------------------------------------------------------------------
  // Balanced labels

  /** Every ')' closes an earlier '(' and none stays open. */
  ghost predicate Balanced(s: string) {
    Regex.WellNested(s) && Regex.Depth(s) == 0
  }

  lemma DepthAppend(a: string, b: string)
    ensures Regex.Depth(a + b) == Regex.Depth(a) + Regex.Depth(b)
  {
    assert multiset(a + b) == multiset(a) + multiset(b);
  }

  lemma {:induction false} NestedAppend(a: string, b: string)
    requires Regex.WellNested(a) && Regex.Depth(a) >= 0 && Regex.WellNested(b)
    ensures Regex.WellNested(a + b)
    decreases |b|, 1
  {
    if b == [] {
      assert a + b == a;
    } else {
      var b', c := b[..|b| - 1], b[|b| - 1];
      assert b == b' + [c];
      NestedAppendSnoc(a, b', c);
      assert a + b == (a + b') + [c];
    }
  }

  lemma {:induction false} NestedAppendSnoc(a: string, b: string, c: char)
    requires Regex.WellNested(a) && Regex.Depth(a) >= 0 && Regex.WellNested(b + [c])
    ensures Regex.WellNested((a + b) + [c])
    decreases |b| + 1, 0
  {
    Regex.NestedStep(b, c);
    NestedAppend(a, b);
    DepthAppend(a, b);
    Regex.NestedStep(a + b, c);
  }

  lemma BalancedConcat(a: string, b: string)
    requires Balanced(a) && Balanced(b)
    ensures Balanced(a + b)
  {
    NestedAppend(a, b);
    DepthAppend(a, b);
  }

  lemma BalancedWrap(a: string)
    requires Balanced(a)
    ensures Balanced("(" + a + ")")
  {
    Regex.NestedStep([], '(');
    assert [] + ['('] == "(";
    NestedAppend("(", a);
    DepthAppend("(", a);
    Regex.NestedStep("(" + a, ')');
  }

  /** A string without parentheses is balanced. */
  lemma {:induction false} PlainBalanced(s: string)
    requires '(' !in s && ')' !in s
    ensures Balanced(s)
  {
    if s != [] {
      var s' := s[..|s| - 1];
      assert s == s' + [s[|s| - 1]];
      PlainBalanced(s');
      Regex.NestedStep(s', s[|s| - 1]);
    }
  }

  // ---------------------------------------------------------------------------
  // Building the generalised NFA

  /** The label make_gnfa gives the edge a -> b: ϕ, then each symbol of a
      matching transition in list order, joined by '+'. */
  function Label<S(==,!new)>(ts: seq<(S, Symbol, S)>, a: S, b: S): string {
    if ts == [] then Phi
    else
      var prev := Label(ts[..|ts| - 1], a, b);
      var (f, ch, t) := ts[|ts| - 1];
      if f == a && t == b then (if prev == Phi then ch else prev + "+" + ch) else prev
  }

  /** The symbols of the transitions a -> b, in list order. */
  function Symbols<S(==,!new)>(ts: seq<(S, Symbol, S)>, a: S, b: S): seq<Symbol> {
    if ts == [] then []
    else
      var (f, ch, t) := ts[|ts| - 1];
      Symbols(ts[..|ts| - 1], a, b) + (if f == a && t == b then [ch] else [])
  }

  /** The symbols joined by '+'. */
  function JoinPlus(xs: seq<Symbol>): string
    requires xs != []
  {
    if |xs| == 1 then xs[0] else JoinPlus(xs[..|xs| - 1]) + "+" + xs[|xs| - 1]
  }

  /** When no symbol is itself ϕ, an edge is labelled ϕ iff there is no
      transition, and otherwise with the '+'-join of its symbols in order. */
  lemma {:induction false} LabelJoin<S(!new)>(ts: seq<(S, Symbol, S)>, a: S, b: S)
    requires forall k :: 0 <= k < |ts| ==> ts[k].1 != Phi
    ensures Label(ts, a, b) == Phi <==> Symbols(ts, a, b) == []
    ensures Symbols(ts, a, b) != [] ==> Label(ts, a, b) == JoinPlus(Symbols(ts, a, b))
  {
    if ts != [] {
      var init := ts[..|ts| - 1];
      var (f, ch, t) := ts[|ts| - 1];
      LabelJoin(init, a, b);
      var xs := Symbols(init, a, b);
      var prev := Label(init, a, b);
      if f == a && t == b {
        assert ch != Phi;
        assert Symbols(ts, a, b) == xs + [ch];
        if xs == [] {
          assert xs + [ch] == [ch];
          assert Label(ts, a, b) == ch == JoinPlus([ch]);
        } else {
          PlusNotPhi(prev, ch);
          assert Label(ts, a, b) == prev + "+" + ch;
          assert (xs + [ch])[..|xs|] == xs;
          assert JoinPlus(xs + [ch]) == JoinPlus(xs) + "+" + ch;
        }
      } else {
        assert Symbols(ts, a, b) == xs + [] == xs;
      }
    }
  }

  lemma PlusNotPhi(p: string, c: string)
    ensures p + "+" + c != Phi
  {
    assert (p + "+" + c)[|p|] == '+';
  }

  lemma {:induction false} LabelBalanced<S(!new)>(ts: seq<(S, Symbol, S)>, a: S, b: S)
    requires forall k :: 0 <= k < |ts| ==> Balanced(ts[k].1)
    ensures Balanced(Label(ts, a, b))
  {
    if ts == [] {
      PlainBalanced(Phi);
    } else {
      var init := ts[..|ts| - 1];
      var (f, ch, t) := ts[|ts| - 1];
      LabelBalanced(init, a, b);
      var prev := Label(init, a, b);
      if f == a && t == b && prev != Phi {
        PlainBalanced("+");
        BalancedConcat(prev, "+");
        BalancedConcat(prev + "+", ch);
      }
    }
  }

  /** The label of each table entry after make_gnfa. */
  function Entry<S(==,!new)>(k: (Node<S>, Node<S>), ts: seq<(S, Symbol, S)>, start: seq<S>, final: seq<S>): string {
    match k
    case (State(a), State(b)) => Label(ts, a, b)
    case (GnfaStart, State(b)) => if b in start then "$" else Phi
    case (State(a), GnfaFinal) => if a in final then "$" else Phi
    case _ => Phi
  }

  function Keys<S(==,!new)>(states: seq<S>): set<(Node<S>, Node<S>)> {
    (set a, b | a in states && b in states :: (State(a), State(b)))
    + (set b | b in states :: (GnfaStart, State(b)))
    + (set a | a in states :: (State(a), GnfaFinal))
    + {(GnfaStart, GnfaFinal)}
  }

  lemma KeysShape<S(!new)>(states: seq<S>)
    ensures forall i, j :: (i, j) in Keys(states) <==> IsRow(i, set s | s in states) && IsCol(j, set s | s in states)
  {
    forall i, j | IsRow(i, set s | s in states) && IsCol(j, set s | s in states)
      ensures (i, j) in Keys(states)
    {
    }
  }

  /** The table make_gnfa builds; it has the full shape for all DFA states. */
  function Gnfa<S(==,!new)>(states: seq<S>, ts: seq<(S, Symbol, S)>, start: seq<S>, final: seq<S>): (t: Table<S>)
    ensures Shape(t, set s | s in states)
  {
    KeysShape(states);
    map k | k in Keys(states) :: Entry(k, ts, start, final)
  }

  /** The added start node leads to each start state by "$" and nowhere else,
      and every final state leads to the added final node by "$"; the direct
      start-to-final edge is ϕ. */
  lemma GnfaFacts<S(!new)>(states: seq<S>, ts: seq<(S, Symbol, S)>, start: seq<S>, final: seq<S>)
    ensures Gnfa(states, ts, start, final)[(GnfaStart, GnfaFinal)] == Phi
    ensures forall s :: s in states ==>
              && (Gnfa(states, ts, start, final)[(GnfaStart, State(s))] == "$" <==> s in start)
              && (Gnfa(states, ts, start, final)[(State(s), GnfaFinal)] == "$" <==> s in final)
  {
    var t := Gnfa(states, ts, start, final);
    assert (GnfaStart, GnfaFinal) in Keys(states);
    forall s | s in states
      ensures (GnfaStart, State(s)) in t && (State(s), GnfaFinal) in t
    {
      assert (GnfaStart, State(s)) in Keys(states);
      assert (State(s), GnfaFinal) in Keys(states);
    }
  }

  /** With balanced symbols every label of the table is balanced. */
  lemma GnfaBalanced<S(!new)>(states: seq<S>, ts: seq<(S, Symbol, S)>, start: seq<S>, final: seq<S>)
    requires forall k :: 0 <= k < |ts| ==> Balanced(ts[k].1)
    ensures forall k :: k in Gnfa(states, ts, start, final) ==> Balanced(Gnfa(states, ts, start, final)[k])
  {
    PlainBalanced(Phi);
    PlainBalanced("$");
    forall a, b
      ensures Balanced(Label(ts, a, b))
    {
      LabelBalanced(ts, a, b);
    }
  }

  // ---------------------------------------------------------------------------
  // One elimination step

  /** A label as a bracketed factor; ϕ becomes the empty string. */
  function Brackets(lab: string): (r: string)
    ensures r == "" <==> lab == Phi
  {
    if lab != Phi then "(" + lab + ")" else ""
  }

  /** The new label of i -> j when rip is removed: (in)(loop)*(out)+(direct),
      leaving out the starred factor when the loop is ϕ and the union when the
      direct edge is ϕ. */
  function Reduced(lIn: string, lLoop: string, lOut: string, lDirect: string): string {
    var r1 := Brackets(lIn);
    var r2 := Brackets(lLoop);
    var r3 := Brackets(lOut);
    var r4 := Brackets(lDirect);
    if r2 != "" then
      if r4 != "" then r1 + r2 + "*" + r3 + "+" + r4 else r1 + r2 + "*" + r3
    else
      if r4 != "" then r1 + r3 + "+" + r4 else r1 + r3
  }

  /** The reduced label, read as four optional factors. */
  lemma ReducedFactors(lIn: string, lLoop: string, lOut: string, lDirect: string)
    ensures Reduced(lIn, lLoop, lOut, lDirect) ==
              Brackets(lIn) + (if lLoop == Phi then "" else Brackets(lLoop) + "*") + Brackets(lOut)
              + (if lDirect == Phi then "" else "+" + Brackets(lDirect))
  {
    var r1, r2, r3, r4 := Brackets(lIn), Brackets(lLoop), Brackets(lOut), Brackets(lDirect);
    var star := if lLoop == Phi then "" else r2 + "*";
    var union := if lDirect == Phi then "" else "+" + r4;
    if lLoop != Phi {
      assert r1 + r2 + "*" + r3 == r1 + star + r3;
      if lDirect != Phi {
        assert r1 + r2 + "*" + r3 + "+" + r4 == (r1 + star + r3) + union;
      }
    } else {
      assert r1 + r3 == r1 + star + r3;
      if lDirect != Phi {
        assert r1 + r3 + "+" + r4 == (r1 + star + r3) + union;
      }
    }
  }

  /** Along a real path (in and out not ϕ) the new label is never ϕ, and it is
      balanced when the four labels are. */
  lemma ReducedFacts(lIn: string, lLoop: string, lOut: string, lDirect: string)
    requires lIn != Phi
    ensures Reduced(lIn, lLoop, lOut, lDirect) != Phi
    ensures Balanced(lIn) && Balanced(lLoop) && Balanced(lOut) && Balanced(lDirect) ==>
              Balanced(Reduced(lIn, lLoop, lOut, lDirect))
  {
    var r := Reduced(lIn, lLoop, lOut, lDirect);
    ReducedFactors(lIn, lLoop, lOut, lDirect);
    assert r[0] == '(';
    assert Phi[0] != '(';
    if Balanced(lIn) && Balanced(lLoop) && Balanced(lOut) && Balanced(lDirect) {
      PlainBalanced("");
      PlainBalanced("*");
      PlainBalanced("+");
      var b1, b2, b3, b4 := Brackets(lIn), Brackets(lLoop), Brackets(lOut), Brackets(lDirect);
      if lIn != Phi { BalancedWrap(lIn); }
      if lLoop != Phi { BalancedWrap(lLoop); }
      if lOut != Phi { BalancedWrap(lOut); }
      if lDirect != Phi { BalancedWrap(lDirect); }
      var star := if lLoop == Phi then "" else b2 + "*";
      var union := if lDirect == Phi then "" else "+" + b4;
      BalancedConcat(b2, "*");
      BalancedConcat("+", b4);
      BalancedConcat(b1, star);
      BalancedConcat(b1 + star, b3);
      BalancedConcat(b1 + star + b3, union);
    }
  }

  /** The nodes with a non-ϕ edge into rip, rip excluded. */
  function Predecessors<S(==,!new)>(t: Table<S>, rip: Node<S>): set<Node<S>> {
    set k | k in t && k.1 == rip && k.0 != rip && t[k] != Phi :: k.0
  }

  /** The nodes rip has a non-ϕ edge to, rip excluded. */
  function Successors<S(==,!new)>(t: Table<S>, rip: Node<S>): set<Node<S>> {
    set k | k in t && k.0 == rip && k.1 != rip && t[k] != Phi :: k.1
  }

  /** The predecessors are rows other than rip with a real edge into it, the
      successors columns other than rip with a real edge from it: the added
      final node is never a predecessor and the added start node never a
      successor. */
  lemma NeighboursSpec<S(!new)>(t: Table<S>, rem: set<S>, r: S)
    requires Shape(t, rem) && r in rem
    ensures forall i :: i in Predecessors(t, State(r)) <==> IsRow(i, rem) && i != State(r) && t[(i, State(r))] != Phi
    ensures forall j :: j in Successors(t, State(r)) <==> IsCol(j, rem) && j != State(r) && t[(State(r), j)] != Phi
    ensures GnfaFinal !in Predecessors(t, State(r)) && GnfaStart !in Successors(t, State(r))
  {
    var rip := State(r);
    forall i | IsRow(i, rem) && i != rip && t[(i, rip)] != Phi
      ensures i in Predecessors(t, rip)
    {
      assert (i, rip) in t;
    }
    forall j | IsCol(j, rem) && j != rip && t[(rip, j)] != Phi
      ensures j in Successors(t, rip)
    {
      assert (rip, j) in t;
    }
  }

  /** One round of get_re: every (i, j) with i a predecessor and j a successor
      of rip gets the reduced label computed from the table before the round;
      then rip's row and column go. */
  function Eliminate<S(==,!new)>(t: Table<S>, rem: set<S>, r: S): (t': Table<S>)
    requires Shape(t, rem) && r in rem
    ensures Shape(t', rem - {r})
  {
    var rip := State(r);
    var preds := Predecessors(t, rip);
    var succs := Successors(t, rip);
    assert (rip, rip) in t;
    var t' := map k | k in t && k.0 != rip && k.1 != rip ::
      if k.0 in preds && k.1 in succs then Reduced(t[(k.0, rip)], t[(rip, rip)], t[(rip, k.1)], t[k]) else t[k];
    assert forall i, j :: (i, j) in t' <==> IsRow(i, rem - {r}) && IsCol(j, rem - {r}) by {
      forall i, j | IsRow(i, rem - {r}) && IsCol(j, rem - {r})
        ensures (i, j) in t'
      {
        assert (i, j) in t;
      }
    }
    t'
  }

  /** A predecessor x successor pair gets the reduced label through the ripped
      state, every other pair keeps its label, and a changed label is never ϕ;
      balanced labels stay balanced. */
  lemma EliminateFacts<S(!new)>(t: Table<S>, rem: set<S>, r: S)
    requires Shape(t, rem) && r in rem
    ensures forall k :: k in Eliminate(t, rem, r) && k.0 in Predecessors(t, State(r)) && k.1 in Successors(t, State(r)) ==>
              (k.0, State(r)) in t && (State(r), State(r)) in t && (State(r), k.1) in t && k in t &&
              Eliminate(t, rem, r)[k] == Reduced(t[(k.0, State(r))], t[(State(r), State(r))], t[(State(r), k.1)], t[k])
    ensures forall k :: k in Eliminate(t, rem, r) ==>
              (k.0 in Predecessors(t, State(r)) && k.1 in Successors(t, State(r))) || Eliminate(t, rem, r)[k] == t[k]
    ensures forall k :: k in Eliminate(t, rem, r) && k.0 in Predecessors(t, State(r)) && k.1 in Successors(t, State(r)) ==>
              Eliminate(t, rem, r)[k] != Phi
    ensures (forall k :: k in t ==> Balanced(t[k])) ==> forall k :: k in Eliminate(t, rem, r) ==> Balanced(Eliminate(t, rem, r)[k])
  {
    var rip := State(r);
    var t' := Eliminate(t, rem, r);
    var preds, succs := Predecessors(t, rip), Successors(t, rip);
    NeighboursSpec(t, rem, r);
    assert (rip, rip) in t;
    forall k | k in t' && k.0 in preds && k.1 in succs
      ensures (k.0, rip) in t && (rip, rip) in t && (rip, k.1) in t && k in t
      ensures t'[k] == Reduced(t[(k.0, rip)], t[(rip, rip)], t[(rip, k.1)], t[k])
      ensures t'[k] != Phi
      ensures (forall k :: k in t ==> Balanced(t[k])) ==> Balanced(t'[k])
    {
      assert (k.0, rip) in t && (rip, k.1) in t;
      ReducedFacts(t[(k.0, rip)], t[(rip, rip)], t[(rip, k.1)], t[k]);
    }
  }

  /** The rounds for rips, in order. */
  function EliminateAll<S(==,!new)>(t: Table<S>, rem: set<S>, rips: seq<S>): (t': Table<S>)
    requires Shape(t, rem) && NoDuplicates(rips) && forall r :: r in rips ==> r in rem
    ensures Shape(t', rem - set r | r in rips)
  {
    if rips == [] then
      assert rem - (set r | r in rips) == rem;
      t
    else
      var init := rips[..|rips| - 1];
      var last := rips[|rips| - 1];
      assert NoDuplicates(init);
      var left := rem - set r | r in init;
      assert last in left;
      assert rem - (set r | r in rips) == left - {last};
      Eliminate(EliminateAll(t, rem, init), left, last)
  }

  /** Once every state is ripped out, only the start-to-final entry is left. */
  lemma AllEliminated<S(!new)>(t: Table<S>, states: seq<S>)
    requires Shape(t, set s | s in states) && NoDuplicates(states)
    ensures EliminateAll(t, (set s | s in states), states).Keys == {(GnfaStart, GnfaFinal)}
  {
    var t' := EliminateAll(t, (set s | s in states), states);
    assert (set s | s in states) - (set r | r in states) == {};
    forall k | k in t'
      ensures k == (GnfaStart, GnfaFinal)
    {
      assert IsRow(k.0, {}) && IsCol(k.1, {});
    }
    assert (GnfaStart, GnfaFinal) in t';
  }

  /** Balanced labels stay balanced through every round. */
  lemma {:induction false} EliminateAllBalanced<S(!new)>(t: Table<S>, rem: set<S>, rips: seq<S>)
    requires Shape(t, rem) && NoDuplicates(rips) && forall r :: r in rips ==> r in rem
    requires forall k :: k in t ==> Balanced(t[k])
    ensures forall k :: k in EliminateAll(t, rem, rips) ==> Balanced(EliminateAll(t, rem, rips)[k])
  {
    if rips != [] {
      var init := rips[..|rips| - 1];
      var last := rips[|rips| - 1];
      assert NoDuplicates(init);
      EliminateAllBalanced(t, rem, init);
      var left := rem - set r | r in init;
      assert last in left;
      EliminateFacts(EliminateAll(t, rem, init), left, last);
    }
  }

  // ---------------------------------------------------------------------------
  // The DFA object

  class Dfa<S(==,!new)> {
    var states: seq<S>
    var letters: seq<Symbol>
    var transitions: seq<(S, Symbol, S)>
    var start: seq<S>
    var final: seq<S>
    var trans: Table<S>

    constructor (states: seq<S>, letters: seq<Symbol>, transitions: seq<(S, Symbol, S)>, start: seq<S>, final: seq<S>)
      ensures this.states == states && this.letters == letters && this.transitions == transitions
      ensures this.start == start && this.final == final && trans == map[]
    {
      this.states := states;
      this.letters := letters;
      this.transitions := transitions;
      this.start := start;
      this.final := final;
      trans := map[];
    }

    /** Builds the label table: ϕ between all DFA states, the transition symbols
        joined by '+', and the edges of the added start and final nodes. */
    method MakeGnfa()
      requires forall k :: 0 <= k < |transitions| ==> transitions[k].0 in states && transitions[k].2 in states
      modifies this
      ensures trans == Gnfa(states, transitions, start, final)
      ensures states == old(states) && letters == old(letters) && transitions == old(transitions)
      ensures start == old(start) && final == old(final)
    {
      var t0 := PhiTable(states);
      var t1 := AddSymbols(t0, states, transitions);
      var t := AddEnds(t1, states, start, final);
      BuiltGnfa(t1, t, states, transitions, start, final);
      trans := t;
    }

    /** The rounds of get_re over the states in their order; the result is the
        label left between the added start and final nodes. */
    method GetRe() returns (re: string)
      requires NoDuplicates(states)
      requires forall k :: 0 <= k < |transitions| ==> transitions[k].0 in states && transitions[k].2 in states
      modifies this
      ensures states == old(states) && transitions == old(transitions)
      ensures start == old(start) && final == old(final)
      ensures trans == EliminateAll(Gnfa(states, transitions, start, final), (set s | s in states), states)
      ensures trans.Keys == {(GnfaStart, GnfaFinal)} && re == trans[(GnfaStart, GnfaFinal)]
    {
      MakeGnfa();
      var t := EliminateStates(trans, states);
      trans := t;
      AllEliminated(Gnfa(states, transitions, start, final), states);
      re := trans[(GnfaStart, GnfaFinal)];
    }
  }

  /** The rounds of get_re for the states in order. */
  method EliminateStates<S(==,!new)>(t0: Table<S>, states: seq<S>) returns (t: Table<S>)
    requires Shape(t0, set s | s in states) && NoDuplicates(states)
    ensures t == EliminateAll(t0, (set s | s in states), states)
  {
    ghost var all := set s | s in states;
    t := t0;
    for k := 0 to |states|
      invariant NoDuplicates(states[..k])
      invariant t == EliminateAll(t0, all, states[..k])
    {
      PrefixStep(states, k);
      var rem := all - set r | r in states[..k];
      t := EliminateRound(t, rem, states[k]);
    }
    assert states[..|states|] == states;
  }

  lemma PrefixStep<S>(states: seq<S>, k: nat)
    requires NoDuplicates(states) && k < |states|
    ensures states[..k + 1][..k] == states[..k] && states[..k + 1][k] == states[k]
    ensures states[k] !in states[..k] && NoDuplicates(states[..k + 1])
  {
  }

  /** One round: predecessors and successors of rip, the rewritten entries, and
      the table without rip's row and column. */
  method EliminateRound<S(==,!new)>(t: Table<S>, ghost rem: set<S>, r: S) returns (t': Table<S>)
    requires Shape(t, rem) && r in rem
    ensures t' == Eliminate(t, rem, r)
  {
    var rip := State(r);
    var preds := Predecessors(t, rip);
    var succs := Successors(t, rip);
    assert (rip, rip) in t;
    var temp := map k | k in t ::
      if k.0 in preds && k.1 in succs then Reduced(t[(k.0, rip)], t[(rip, rip)], t[(rip, k.1)], t[k]) else t[k];
    t' := map k | k in temp && k.0 != rip && k.1 != rip :: temp[k];
  }

  /** ϕ for every ordered pair of DFA states. */
  method PhiTable<S(==,!new)>(states: seq<S>) returns (t: Table<S>)
    ensures forall k :: k in t <==> k.0.State? && k.1.State? && k.0.id in states && k.1.id in states
    ensures forall k :: k in t ==> t[k] == Phi
  {
    t := map[];
    for i := 0 to |states|
      invariant forall k :: k in t <==> k.0.State? && k.1.State? && k.0.id in states[..i] && k.1.id in states
      invariant forall k :: k in t ==> t[k] == Phi
    {
      assert states[..i + 1] == states[..i] + [states[i]];
      for j := 0 to |states|
        invariant forall k :: k in t <==>
                    k.0.State? && k.1.State? && ((k.0.id in states[..i] && k.1.id in states) || (k.0.id == states[i] && k.1.id in states[..j]))
        invariant forall k :: k in t ==> t[k] == Phi
      {
        assert states[..j + 1] == states[..j] + [states[j]];
        t := t[(State(states[i]), State(states[j])) := Phi];
      }
      assert states[..|states|] == states;
    }
    assert states[..|states|] == states;
  }

  /** Adds each transition's symbol to its edge: it replaces ϕ, or is appended after '+'. */
  method AddSymbols<S(==,!new)>(t0: Table<S>, states: seq<S>, ts: seq<(S, Symbol, S)>) returns (t: Table<S>)
    requires forall k :: 0 <= k < |ts| ==> ts[k].0 in states && ts[k].2 in states
    requires forall k :: k in t0 <==> k.0.State? && k.1.State? && k.0.id in states && k.1.id in states
    requires forall k :: k in t0 ==> t0[k] == Phi
    ensures t.Keys == t0.Keys
    ensures forall a, b :: a in states && b in states ==> t[(State(a), State(b))] == Label(ts, a, b)
  {
    t := t0;
    for n := 0 to |ts|
      invariant t.Keys == t0.Keys
      invariant forall a, b :: a in states && b in states ==> t[(State(a), State(b))] == Label(ts[..n], a, b)
    {
      assert ts[..n + 1][..n] == ts[..n];
      var (f, ch, to) := ts[n];
      assert (State(f), State(to)) in t;
      if t[(State(f), State(to))] == Phi {
        t := t[(State(f), State(to)) := ch];
      } else {
        t := t[(State(f), State(to)) := t[(State(f), State(to))] + "+" + ch];
      }
    }
    assert ts[..|ts|] == ts;
  }

  /** Adds the added start and final nodes: start -> final is ϕ, start -> s is
      "$" iff s is a start state, s -> final is "$" iff s is final. */
  method AddEnds<S(==,!new)>(t0: Table<S>, states: seq<S>, start: seq<S>, final: seq<S>) returns (t: Table<S>)
    requires forall k :: k in t0 <==> k.0.State? && k.1.State? && k.0.id in states && k.1.id in states
    ensures forall k :: k in t <==> k in Keys(states)
    ensures forall k :: k in t0 ==> k in t && t[k] == t0[k]
    ensures forall k :: k in t && k !in t0 ==> t[k] == Entry(k, [], start, final)
  {
    t := t0[(GnfaStart, GnfaFinal) := Phi];
    for i := 0 to |states|
      invariant forall k :: k in t <==>
                  k in t0 || k == (GnfaStart, GnfaFinal) ||
                  (k.0.GnfaStart? && k.1.State? && k.1.id in states[..i]) ||
                  (k.0.State? && k.1.GnfaFinal? && k.0.id in states[..i])
      invariant forall k :: k in t0 ==> t[k] == t0[k]
      invariant forall k :: k in t && k !in t0 ==> t[k] == Entry(k, [], start, final)
    {
      assert states[..i + 1] == states[..i] + [states[i]];
      var s := states[i];
      var fromStart := if s in start then "$" else Phi;
      var toFinal := if s in final then "$" else Phi;
      t := t[(GnfaStart, State(s)) := fromStart][(State(s), GnfaFinal) := toFinal];
    }
    assert states[..|states|] == states;
    EndKeys(t0, t, states);
  }

  /** The keys AddEnds leaves are the keys of the full table. */
  lemma EndKeys<S(!new)>(t0: Table<S>, t: Table<S>, states: seq<S>)
    requires forall k :: k in t0 <==> k.0.State? && k.1.State? && k.0.id in states && k.1.id in states
    requires forall k :: k in t <==>
               k in t0 || k == (GnfaStart, GnfaFinal) ||
               (k.0.GnfaStart? && k.1.State? && k.1.id in states) ||
               (k.0.State? && k.1.GnfaFinal? && k.0.id in states)
    ensures forall k :: k in t <==> k in Keys(states)
  {
    forall k | k in Keys(states)
      ensures k in t
    {
    }
  }

  /** The three stages of make_gnfa together give the full table. */
  lemma BuiltGnfa<S(!new)>(t1: Table<S>, t: Table<S>, states: seq<S>, ts: seq<(S, Symbol, S)>, start: seq<S>, final: seq<S>)
    requires forall k :: k in t1 <==> k.0.State? && k.1.State? && k.0.id in states && k.1.id in states
    requires forall a, b :: a in states && b in states ==> t1[(State(a), State(b))] == Label(ts, a, b)
    requires forall k :: k in t <==> k in Keys(states)
    requires forall k :: k in t1 ==> k in t && t[k] == t1[k]
    requires forall k :: k in t && k !in t1 ==> t[k] == Entry(k, [], start, final)
    ensures t == Gnfa(states, ts, start, final)
  {
    var g := Gnfa(states, ts, start, final);
    forall k | k in t
      ensures t[k] == g[k]
    {
      if k in t1 {
        assert t1[(State(k.0.id), State(k.1.id))] == Label(ts, k.0.id, k.1.id);
      }
    }
  }

  /** With balanced transition symbols, the expression get_re returns is
      balanced, so the infix-to-postfix conversion of q1.py accepts it. */
  lemma ResultBalanced<S(!new)>(states: seq<S>, ts: seq<(S, Symbol, S)>, start: seq<S>, final: seq<S>)
    requires NoDuplicates(states)
    requires forall k :: 0 <= k < |ts| ==> Balanced(ts[k].1)
    ensures var t := EliminateAll(Gnfa(states, ts, start, final), (set s | s in states), states);
            (GnfaStart, GnfaFinal) in t && Balanced(t[(GnfaStart, GnfaFinal)])
            && Regex.WellNested(t[(GnfaStart, GnfaFinal)])
  {
    GnfaFacts(states, ts, start, final);
    GnfaBalanced(states, ts, start, final);
    AllEliminated(Gnfa(states, ts, start, final), states);
    EliminateAllBalanced(Gnfa(states, ts, start, final), (set s | s in states), states);
  }
}
